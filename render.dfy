/**
 * The rendering phase of `Main.generateJsApiContent` (src/index.ts): a fixed
 * prologue, then for every bucket in key order a header comment followed by
 * one descriptor record per item (`genrSingleConent`), then the closing "]".
 *
 * The output is specified twice: structurally, as a list of sections that
 * holds exactly the values that reach the text, and as text, built from that
 * list with fixed templates. The whitespace of the templates is normalised.
 */
module Render {
  import opened PathWords
  import opened Grouping

  /** One generated descriptor together with its provenance comment. */
  datatype Record = Record(title: string, doc: string, funcName: string, httpMethod: string, url: string)

  /** One bucket as it is rendered: a header comment and its records. */
  datatype Section = Section(name: string, desc: string, records: seq<Record>)

  // ---------------------------------------------------------------------
  // The structure of the output
  // ---------------------------------------------------------------------

  /**
   * The `funcName` of an item: `reservedWord(getPathWords(item.path, 1))`.
   * It never holds a '/' and is never the keyword `delete`.
   */
  function FuncName(isUrl: string -> bool, path: string): (r: string)
    ensures '/' !in r
    ensures r != "delete"
  {
    PathWordsHaveNoSlash(isUrl, path, From(1));
    ReservedWord(GetPathWords(isUrl, path, From(1), "_"))
  }

  /** The documentation link `${host}/project/${project_id}/interface/api/${_id}`: it starts with the host. */
  function DocUrl(host: string, item: Item): (r: string)
    ensures |r| > |host| && r[..|host|] == host
  {
    host + "/project/" + item.projectId + "/interface/api/" + item.id
  }

  function RecordOf(host: string, isUrl: string -> bool, item: Item): Record
  {
    Record(item.title, DocUrl(host, item), FuncName(isUrl, item.path), item.httpMethod, item.path)
  }

  function Records(host: string, isUrl: string -> bool, list: seq<Item>): seq<Record>
  {
    seq(|list|, i requires 0 <= i < |list| => RecordOf(host, isUrl, list[i]))
  }

  function SectionOf(host: string, isUrl: string -> bool, b: Bucket): Section
  {
    Section(b.name, b.desc, Records(host, isUrl, b.list))
  }

  /** One section per bucket of the scanned entries, in key order. */
  function LayoutOf(host: string, isUrl: string -> bool, es: seq<Entry>): seq<Section>
  {
    var key := PathKey(isUrl);
    var ks := GroupKeys(key, es);
    seq(|ks|, i requires 0 <= i < |ks| => SectionOf(host, isUrl, SpecBucket(key, es, ks[i])))
  }

  /** The sections rendered for a list of modules. */
  function Layout(host: string, isUrl: string -> bool, source: seq<ApiModule>): seq<Section>
  {
    LayoutOf(host, isUrl, Entries(source))
  }

  /** The number of records over all sections. */
  function RecordCount(ss: seq<Section>): nat
  {
    if ss == [] then 0 else RecordCount(ss[..|ss| - 1]) + |ss[|ss| - 1].records|
  }

  // ---------------------------------------------------------------------
  // The text of the output
  // ---------------------------------------------------------------------

  const Prologue: string := "\n/* eslint-disable */\nexport default [\n"
  const Epilogue: string := "]"
  const Rule: string := " * ==================================================\n"
  const SectionClose: string := "\n"

  function RecordText(r: Record): string
  {
    "\n// " + r.title + "\n// doc: " + r.doc
    + "\n{\nfuncName: \"" + r.funcName + "\",\nmethod: \"" + r.httpMethod + "\",\nurl: \"" + r.url + "\",\n},\n"
  }

  function RecordsText(rs: seq<Record>): string
  {
    if rs == [] then "" else RecordsText(rs[..|rs| - 1]) + RecordText(rs[|rs| - 1])
  }

  function HeaderText(name: string, desc: string): string
  {
    "\n/**\n" + Rule + " *  " + name + "\n *  " + desc + "\n" + Rule + " */\n"
  }

  function SectionText(s: Section): string
  {
    HeaderText(s.name, s.desc) + RecordsText(s.records) + SectionClose
  }

  function SectionsText(ss: seq<Section>): string
  {
    if ss == [] then "" else SectionsText(ss[..|ss| - 1]) + SectionText(ss[|ss| - 1])
  }

  function Document(ss: seq<Section>): string
  {
    Prologue + SectionsText(ss) + Epilogue
  }

  /** The endpoint "/api/delete" gets the function name "del", not the keyword. */
  lemma DeleteEndpointName(isUrl: string -> bool, path: string)
    requires path == "/api/delete"
    ensures FuncName(isUrl, path) == "del"
  {
    assert path == "/" + "api" + "/" + "delete";
    TwoWordName(isUrl, path, "api", "delete");
  }

  // ---------------------------------------------------------------------
  // The methods
  // ---------------------------------------------------------------------

  lemma RecordsPrefix(host: string, isUrl: string -> bool, list: seq<Item>, j: nat)
    requires j < |list|
    ensures Records(host, isUrl, list[..j + 1]) == Records(host, isUrl, list[..j]) + [RecordOf(host, isUrl, list[j])]
  {
  }

  /** `genrSingleConent`: the records of one bucket, appended one item at a time. */
  method GenrSingleContent(host: string, isUrl: string -> bool, list: seq<Item>) returns (result: string)
    ensures result == RecordsText(Records(host, isUrl, list))
  {
    result := "";
    for j := 0 to |list|
      invariant result == RecordsText(Records(host, isUrl, list[..j]))
    {
      var item := list[j];
      var funcName := ReservedWord(GetPathWords(isUrl, item.path, From(1), "_"));
      RecordsPrefix(host, isUrl, list, j);
      result := result + RecordText(Record(item.title, DocUrl(host, item), funcName, item.httpMethod, item.path));
    }
    assert list[..|list|] == list;
  }

  lemma SectionsTextStep(ss: seq<Section>, i: nat)
    requires i < |ss|
    ensures SectionsText(ss[..i + 1]) == SectionsText(ss[..i]) + SectionText(ss[i])
  {
    assert ss[..i + 1][..i] == ss[..i];
  }

  /** The section at position `i` is rendered from the bucket of the `i`-th key. */
  lemma LayoutAt(host: string, isUrl: string -> bool, source: seq<ApiModule>,
                 keys: seq<string>, buckets: map<string, Bucket>, i: nat)
    requires keys == GroupKeys(PathKey(isUrl), Entries(source))
    requires i < |keys| && keys[i] in buckets
    requires buckets[keys[i]] == SpecBucket(PathKey(isUrl), Entries(source), keys[i])
    ensures |Layout(host, isUrl, source)| == |keys|
    ensures Layout(host, isUrl, source)[i] == SectionOf(host, isUrl, buckets[keys[i]])
  {
  }

  /**
   * `Main.generateJsApiContent`: group the items into buckets, then write the
   * prologue, one header and its records per bucket in key order, and "]".
   * `host` is `this.options.host`.
   */
  method GenerateJsApiContent(host: string, isUrl: string -> bool, source: seq<ApiModule>)
    returns (fileContent: string)
    ensures fileContent == Document(Layout(host, isUrl, source))
  {
    var keys, buckets := CollectSymbols(isUrl, source);
    ghost var sections := Layout(host, isUrl, source);
    forall k | k in keys ensures |buckets[k].list| >= 1 {
      BucketsNonEmpty(PathKey(isUrl), Entries(source), k);
    }
    assert |sections| == |keys|;
    fileContent := Prologue;
    var i := 0;
    while i < |keys| && |buckets[keys[i]].list| != 0
      invariant 0 <= i <= |keys|
      invariant fileContent == Prologue + SectionsText(sections[..i])
    {
      var apiModule := buckets[keys[i]];
      var single := GenrSingleContent(host, isUrl, apiModule.list);
      LayoutAt(host, isUrl, source, keys, buckets, i);
      SectionsTextStep(sections, i);
      var piece := HeaderText(apiModule.name, apiModule.desc) + single + SectionClose;
      assert piece == SectionText(sections[i]);
      AppendAssoc(Prologue, SectionsText(sections[..i]), piece);
      fileContent := fileContent + piece;
      i := i + 1;
    }
    assert sections[..|keys|] == sections;
    fileContent := fileContent + Epilogue;
  }

  // ---------------------------------------------------------------------
  // Properties of the output
  // ---------------------------------------------------------------------

  /**
   * One section per bucket, in first-appearance order of the keys; each takes
   * the name and description of the first module that produced its key and
   * has one record per item of the bucket, at least one.
   */
  lemma SectionsFollowBuckets(host: string, isUrl: string -> bool, source: seq<ApiModule>, i: nat)
    requires i < |GroupKeys(PathKey(isUrl), Entries(source))|
    ensures var es := Entries(source);
            var k := GroupKeys(PathKey(isUrl), es)[i];
            var s := Layout(host, isUrl, source);
            && |s| == |GroupKeys(PathKey(isUrl), es)|
            && FirstWithKey(PathKey(isUrl), es, k).Some?
            && s[i].name == FirstWithKey(PathKey(isUrl), es, k).value.name
            && s[i].desc == FirstWithKey(PathKey(isUrl), es, k).value.desc
            && |s[i].records| == |BucketItems(PathKey(isUrl), es, k)| >= 1
  {
    var es := Entries(source);
    var k := GroupKeys(PathKey(isUrl), es)[i];
    KeyPresence(PathKey(isUrl), es, k);
    BucketsNonEmpty(PathKey(isUrl), es, k);
  }

  /**
   * Every record names its item by `reservedWord(getPathWords(path, 1))` and
   * copies the item's method and path verbatim.
   */
  lemma RecordFields(host: string, isUrl: string -> bool, source: seq<ApiModule>, i: nat, j: nat)
    requires i < |GroupKeys(PathKey(isUrl), Entries(source))|
    requires j < |BucketItems(PathKey(isUrl), Entries(source), GroupKeys(PathKey(isUrl), Entries(source))[i])|
    ensures var es := Entries(source);
            var item := BucketItems(PathKey(isUrl), es, GroupKeys(PathKey(isUrl), es)[i])[j];
            var r := Layout(host, isUrl, source)[i].records[j];
            && r.funcName == ReservedWord(GetPathWords(isUrl, item.path, From(1), "_"))
            && r.funcName != "delete"
            && r.httpMethod == item.httpMethod
            && r.url == item.path
            && r.title == item.title
  {
  }

  /** Sections whose record counts match the buckets of `ks` hold as many records as those buckets. */
  lemma {:induction false} RecordCountMatches(ss: seq<Section>, key: Item -> string, es: seq<Entry>, ks: seq<string>)
    requires |ss| == |ks|
    requires forall i :: 0 <= i < |ks| ==> |ss[i].records| == |BucketItems(key, es, ks[i])|
    ensures RecordCount(ss) == |AllBucketItems(key, es, ks)|
  {
    if ks != [] {
      var n := |ks| - 1;
      RecordCountMatches(ss[..n], key, es, ks[..n]);
    }
  }

  /** The `i`-th section has one record per item of the bucket of the `i`-th key. */
  lemma LayoutRecordCount(host: string, isUrl: string -> bool, es: seq<Entry>, i: nat)
    requires i < |GroupKeys(PathKey(isUrl), es)|
    ensures |LayoutOf(host, isUrl, es)| == |GroupKeys(PathKey(isUrl), es)|
    ensures |LayoutOf(host, isUrl, es)[i].records| == |BucketItems(PathKey(isUrl), es, GroupKeys(PathKey(isUrl), es)[i])|
  {
  }

  /** The output holds one record per item of every module: the sum of the list lengths. */
  lemma RecordCountIsItemCount(host: string, isUrl: string -> bool, source: seq<ApiModule>)
    ensures RecordCount(Layout(host, isUrl, source)) == TotalItems(source)
  {
    var es := Entries(source);
    var ks := GroupKeys(PathKey(isUrl), es);
    var ss := LayoutOf(host, isUrl, es);
    assert |ss| == |ks|;
    forall i | 0 <= i < |ks| ensures |ss[i].records| == |BucketItems(PathKey(isUrl), es, ks[i])| {
      LayoutRecordCount(host, isUrl, es, i);
    }
    RecordCountMatches(ss, PathKey(isUrl), es, ks);
    BucketSizesAddUp(PathKey(isUrl), source);
  }

  /** A module with an empty list leaves the generated text unchanged. */
  lemma EmptyModuleRendersNothing(host: string, isUrl: string -> bool,
                                  s1: seq<ApiModule>, m: ApiModule, s2: seq<ApiModule>)
    requires m.list == []
    ensures Document(Layout(host, isUrl, s1 + [m] + s2)) == Document(Layout(host, isUrl, s1 + s2))
  {
    EmptyModuleIsSkipped(s1, m, s2);
  }

  /** Without any item the text is the prologue followed by "]". */
  lemma NoItemsNoSections(host: string, isUrl: string -> bool, source: seq<ApiModule>)
    requires TotalItems(source) == 0
    ensures Document(Layout(host, isUrl, source)) == Prologue + Epilogue
  {
    EntriesCount(source);
    assert Layout(host, isUrl, source) == [];
  }
}
