/**
 * The bucket map `symbolSource` built by `Main.generateJsApiContent`
 * (src/index.ts): the modules are scanned in order, every item goes into the
 * bucket keyed by `getPathWords(item.path, "1,2")`, a bucket is created by the
 * first item with its key and takes that item's module name and description,
 * and later items with the same key are appended to it.
 *
 * The specification below is declarative: the keys are the distinct item keys
 * in order of first appearance, and a bucket holds exactly the items with its
 * key, in scan order. `CollectSymbols` is the imperative scan, proved to build
 * exactly that.
 */
module Grouping {
  import opened PathWords

  /** One endpoint of the documentation export (`YapiListItem`). */
  datatype Item = Item(path: string, title: string, projectId: string, id: string, httpMethod: string)

  /** One documentation module: `{ name, desc, list }`. */
  datatype ApiModule = ApiModule(name: string, desc: string, list: seq<Item>)

  /** An item as the scan meets it, with the module it came from. */
  datatype Entry = Entry(name: string, desc: string, item: Item)

  /** A value of `symbolSource`. */
  datatype Bucket = Bucket(name: string, desc: string, list: seq<Item>)

  // ---------------------------------------------------------------------
  // The scan order
  // ---------------------------------------------------------------------

  function ModuleEntries(m: ApiModule): seq<Entry>
  {
    seq(|m.list|, i requires 0 <= i < |m.list| => Entry(m.name, m.desc, m.list[i]))
  }

  lemma ModuleEntriesPrefix(m: ApiModule, j: nat)
    requires j < |m.list|
    ensures ModuleEntries(m)[..j + 1] == ModuleEntries(m)[..j] + [Entry(m.name, m.desc, m.list[j])]
  {
  }

  /** The items of all modules in the order of the nested `forEach` loops. */
  function Entries(source: seq<ApiModule>): seq<Entry>
  {
    if source == [] then []
    else Entries(source[..|source| - 1]) + ModuleEntries(source[|source| - 1])
  }

  /** The sum of the module list lengths. */
  function TotalItems(source: seq<ApiModule>): nat
  {
    if source == [] then 0
    else TotalItems(source[..|source| - 1]) + |source[|source| - 1].list|
  }

  function Items(es: seq<Entry>): seq<Item>
  {
    seq(|es|, i requires 0 <= i < |es| => es[i].item)
  }

  /**
   * The bucket key used by the source: `getPathWords(item.path, "1,2")`. The
   * specification below holds for every key function; the source uses this one.
   */
  function PathKey(isUrl: string -> bool): Item -> string
  {
    (item: Item) => GetPathWords(isUrl, item.path, Range(1, 2), "_")
  }

  // ---------------------------------------------------------------------
  // The specification of the buckets
  // ---------------------------------------------------------------------

  /** The distinct keys of `es`, each at the place where it first appears. */
  function GroupKeys(key: Item -> string, es: seq<Entry>): seq<string>
  {
    if es == [] then []
    else
      var ks := GroupKeys(key, es[..|es| - 1]);
      var k := key(es[|es| - 1].item);
      if k in ks then ks else ks + [k]
  }

  /** The items of `es` whose key is `k`, in scan order. */
  function BucketItems(key: Item -> string, es: seq<Entry>, k: string): seq<Item>
  {
    if es == [] then []
    else
      var last := es[|es| - 1];
      BucketItems(key, es[..|es| - 1], k) + (if key(last.item) == k then [last.item] else [])
  }

  /** The first entry of `es` whose key is `k`. */
  function FirstWithKey(key: Item -> string, es: seq<Entry>, k: string): Option<Entry>
  {
    if es == [] then None
    else
      var f := FirstWithKey(key, es[..|es| - 1], k);
      var last := es[|es| - 1];
      if f.Some? then f
      else if key(last.item) == k then Some(last)
      else None
  }

  /** The bucket for key `k`: named after the first entry with that key, holding all items with it. */
  function SpecBucket(key: Item -> string, es: seq<Entry>, k: string): Bucket
    requires k in GroupKeys(key, es)
  {
    KeyPresence(key, es, k);
    var first := FirstWithKey(key, es, k).value;
    Bucket(first.name, first.desc, BucketItems(key, es, k))
  }

  /** The union of the bucket lists of the keys `ks`. */
  function AllBucketItems(key: Item -> string, es: seq<Entry>, ks: seq<string>): multiset<Item>
  {
    if ks == [] then multiset{}
    else AllBucketItems(key, es, ks[..|ks| - 1]) + multiset(BucketItems(key, es, ks[|ks| - 1]))
  }

  predicate Distinct(ks: seq<string>)
  {
    forall i, j :: 0 <= i < j < |ks| ==> ks[i] != ks[j]
  }

  // ---------------------------------------------------------------------
  // Keys
  // ---------------------------------------------------------------------

  /** A key is present exactly when some entry has it; only then is there a first entry. */
  lemma {:induction false} KeyPresence(key: Item -> string, es: seq<Entry>, k: string)
    ensures k in GroupKeys(key, es) <==> exists i :: 0 <= i < |es| && key(es[i].item) == k
    ensures k in GroupKeys(key, es) <==> FirstWithKey(key, es, k).Some?
    ensures k !in GroupKeys(key, es) ==> BucketItems(key, es, k) == []
  {
    if es != [] {
      var init := es[..|es| - 1];
      KeyPresence(key, init, k);
      if exists i :: 0 <= i < |es| && key(es[i].item) == k {
        var i :| 0 <= i < |es| && key(es[i].item) == k;
        if i < |init| {
          assert init[i] == es[i];
        }
      }
      if exists i :: 0 <= i < |init| && key(init[i].item) == k {
        var i :| 0 <= i < |init| && key(init[i].item) == k;
        assert es[i] == init[i];
      }
    }
  }

  /** No key is listed twice. */
  lemma {:induction false} KeysDistinct(key: Item -> string, es: seq<Entry>)
    ensures Distinct(GroupKeys(key, es))
  {
    if es != [] {
      KeysDistinct(key, es[..|es| - 1]);
    }
  }

  /** The first entry with a key really is the earliest entry with that key. */
  lemma {:induction false} FirstWithKeyIsEarliest(key: Item -> string, es: seq<Entry>, k: string)
    requires FirstWithKey(key, es, k).Some?
    ensures exists i :: && 0 <= i < |es|
                        && es[i] == FirstWithKey(key, es, k).value
                        && key(es[i].item) == k
                        && forall p :: 0 <= p < i ==> key(es[p].item) != k
  {
    var init := es[..|es| - 1];
    if FirstWithKey(key, init, k).Some? {
      FirstWithKeyIsEarliest(key, init, k);
      var i :| && 0 <= i < |init|
               && init[i] == FirstWithKey(key, init, k).value
               && key(init[i].item) == k
               && forall p :: 0 <= p < i ==> key(init[p].item) != k;
      assert es[i] == init[i];
      assert forall p :: 0 <= p < i ==> es[p] == init[p];
    } else {
      KeyPresence(key, init, k);
      assert forall p :: 0 <= p < |init| ==> es[p] == init[p];
    }
  }

  /**
   * Keys are listed in order of first appearance: wherever a later key occurs
   * in the scan, every earlier key has already occurred before it.
   */
  lemma {:induction false} KeysInFirstAppearanceOrder(key: Item -> string, es: seq<Entry>)
    ensures forall i, j, q ::
      0 <= i < j < |GroupKeys(key, es)| && 0 <= q < |es| && key(es[q].item) == GroupKeys(key, es)[j]
      ==> exists p :: 0 <= p < q && key(es[p].item) == GroupKeys(key, es)[i]
  {
    if es != [] {
      var init := es[..|es| - 1];
      var ks, ks' := GroupKeys(key, es), GroupKeys(key, init);
      KeysInFirstAppearanceOrder(key, init);
      forall i, j, q | 0 <= i < j < |ks| && 0 <= q < |es| && key(es[q].item) == ks[j]
        ensures exists p :: 0 <= p < q && key(es[p].item) == ks[i]
      {
        KeyPresence(key, init, ks[i]);
        assert ks[i] == ks'[i];
        var p :| 0 <= p < |init| && key(init[p].item) == ks[i];
        assert es[p] == init[p];
        if q < |init| {
          assert es[q] == init[q];
          if j < |ks'| {
            assert ks[j] == ks'[j];
            var p' :| 0 <= p' < q && key(init[p'].item) == ks'[i];
            assert es[p'] == init[p'];
          } else {
            KeyPresence(key, init, ks[j]);
          }
        }
      }
    }
  }

  /** Keys already created stay where they are when more entries are scanned. */
  lemma {:induction false} KeysOnlyGrow(key: Item -> string, es1: seq<Entry>, es2: seq<Entry>)
    ensures GroupKeys(key, es1) <= GroupKeys(key, es1 + es2)
  {
    if es2 != [] {
      var init := es2[..|es2| - 1];
      KeysOnlyGrow(key, es1, init);
      assert (es1 + es2)[..|es1 + es2| - 1] == es1 + init;
      assert (es1 + es2)[|es1 + es2| - 1] == es2[|es2| - 1];
    } else {
      assert es1 + es2 == es1;
    }
  }

  // ---------------------------------------------------------------------
  // Buckets
  // ---------------------------------------------------------------------

  /** The name and description of a bucket never change once it exists. */
  lemma {:induction false} FirstWithKeyStable(key: Item -> string, es1: seq<Entry>, es2: seq<Entry>, k: string)
    requires FirstWithKey(key, es1, k).Some?
    ensures FirstWithKey(key, es1 + es2, k) == FirstWithKey(key, es1, k)
  {
    if es2 != [] {
      var init := es2[..|es2| - 1];
      FirstWithKeyStable(key, es1, init, k);
      assert (es1 + es2)[..|es1 + es2| - 1] == es1 + init;
      assert (es1 + es2)[|es1 + es2| - 1] == es2[|es2| - 1];
    } else {
      assert es1 + es2 == es1;
    }
  }

  /** Scanning more entries only appends to a bucket, in scan order. */
  lemma {:induction false} BucketItemsAppend(key: Item -> string, es1: seq<Entry>, es2: seq<Entry>, k: string)
    ensures BucketItems(key, es1 + es2, k) == BucketItems(key, es1, k) + BucketItems(key, es2, k)
  {
    if es2 != [] {
      var init := es2[..|es2| - 1];
      BucketItemsAppend(key, es1, init, k);
      assert (es1 + es2)[..|es1 + es2| - 1] == es1 + init;
      assert (es1 + es2)[|es1 + es2| - 1] == es2[|es2| - 1];
    } else {
      assert es1 + es2 == es1;
    }
  }

  /** Every entry's item is in the bucket of its own key. */
  lemma {:induction false} ItemInItsBucket(key: Item -> string, es: seq<Entry>, i: nat)
    requires i < |es|
    ensures es[i].item in BucketItems(key, es, key(es[i].item))
  {
    var init := es[..|es| - 1];
    if i < |init| {
      ItemInItsBucket(key, init, i);
      assert init[i] == es[i];
    }
  }

  /** Every bucket holds at least one item, so the `break` of the rendering loop never fires. */
  lemma BucketsNonEmpty(key: Item -> string, es: seq<Entry>, k: string)
    requires k in GroupKeys(key, es)
    ensures |BucketItems(key, es, k)| >= 1
  {
    KeyPresence(key, es, k);
    var i :| 0 <= i < |es| && key(es[i].item) == k;
    ItemInItsBucket(key, es, i);
  }

  /** Scanning one more entry appends its item to the bucket of its own key only. */
  lemma BucketItemsStep(key: Item -> string, es: seq<Entry>, e: Entry, k: string)
    ensures BucketItems(key, es + [e], k) == BucketItems(key, es, k) + (if key(e.item) == k then [e.item] else [])
  {
    assert (es + [e])[..|es|] == es;
  }

  /** Scanning one more entry adds a key only if it is new. */
  lemma GroupKeysStep(key: Item -> string, es: seq<Entry>, e: Entry)
    ensures GroupKeys(key, es + [e])
         == if key(e.item) in GroupKeys(key, es) then GroupKeys(key, es) else GroupKeys(key, es) + [key(e.item)]
  {
    assert (es + [e])[..|es|] == es;
  }

  /** Scanning one more entry sets the first entry of its key only if there was none. */
  lemma FirstWithKeyStep(key: Item -> string, es: seq<Entry>, e: Entry, k: string)
    ensures FirstWithKey(key, es + [e], k)
         == if FirstWithKey(key, es, k).Some? then FirstWithKey(key, es, k)
            else if key(e.item) == k then Some(e) else None
  {
    assert (es + [e])[..|es|] == es;
  }

  lemma {:induction false} AllBucketItemsStep(key: Item -> string, es: seq<Entry>, e: Entry, ks: seq<string>)
    requires Distinct(ks)
    ensures AllBucketItems(key, es + [e], ks)
         == AllBucketItems(key, es, ks) + (if key(e.item) in ks then multiset{e.item} else multiset{})
  {
    if ks != [] {
      var init := ks[..|ks| - 1];
      var last := ks[|ks| - 1];
      assert ks == init + [last];
      assert Distinct(init) by {
        forall i, j | 0 <= i < j < |init| ensures init[i] != init[j] {
          assert init[i] == ks[i] && init[j] == ks[j];
        }
      }
      assert last !in init by {
        forall i | 0 <= i < |init| ensures init[i] != last {
          assert init[i] == ks[i];
        }
      }
      AllBucketItemsStep(key, es, e, init);
      BucketItemsStep(key, es, e, last);
    }
  }

  /** The buckets partition the items: together they hold each scanned item exactly once. */
  lemma {:induction false} BucketsPartitionItems(key: Item -> string, es: seq<Entry>)
    ensures AllBucketItems(key, es, GroupKeys(key, es)) == multiset(Items(es))
  {
    if es != [] {
      var init := es[..|es| - 1];
      var e := es[|es| - 1];
      var ks := GroupKeys(key, init);
      var k := key(e.item);
      assert es == init + [e];
      assert Items(es) == Items(init) + [e.item];
      BucketsPartitionItems(key, init);
      KeysDistinct(key, init);
      AllBucketItemsStep(key, init, e, ks);
      if k !in ks {
        KeyPresence(key, init, k);
        assert (ks + [k])[..|ks|] == ks;
      }
    }
  }

  /** The total item count over all buckets is the sum of the module list lengths. */
  lemma BucketSizesAddUp(key: Item -> string, source: seq<ApiModule>)
    ensures |AllBucketItems(key, Entries(source), GroupKeys(key, Entries(source)))| == TotalItems(source)
  {
    BucketsPartitionItems(key, Entries(source));
    EntriesCount(source);
  }

  // ---------------------------------------------------------------------
  // Modules
  // ---------------------------------------------------------------------

  lemma {:induction false} EntriesCount(source: seq<ApiModule>)
    ensures |Entries(source)| == TotalItems(source)
  {
    if source != [] {
      EntriesCount(source[..|source| - 1]);
    }
  }

  /** Scanning two runs of modules one after the other. */
  lemma {:induction false} EntriesAppend(s1: seq<ApiModule>, s2: seq<ApiModule>)
    ensures Entries(s1 + s2) == Entries(s1) + Entries(s2)
  {
    if s2 != [] {
      var init := s2[..|s2| - 1];
      EntriesAppend(s1, init);
      assert (s1 + s2)[..|s1 + s2| - 1] == s1 + init;
      assert (s1 + s2)[|s1 + s2| - 1] == s2[|s2| - 1];
      calc {
        Entries(s1 + s2);
        Entries(s1 + init) + ModuleEntries(s2[|s2| - 1]);
        Entries(s1) + (Entries(init) + ModuleEntries(s2[|s2| - 1]));
      }
    } else {
      assert s1 + s2 == s1;
    }
  }

  /** A module with an empty list contributes nothing to the scan. */
  lemma EmptyModuleIsSkipped(s1: seq<ApiModule>, m: ApiModule, s2: seq<ApiModule>)
    requires m.list == []
    ensures Entries(s1 + [m] + s2) == Entries(s1 + s2)
  {
    EntriesAppend(s1 + [m], s2);
    EntriesAppend(s1, [m]);
    EntriesAppend(s1, s2);
    assert Entries([m]) == Entries([]) + ModuleEntries(m);
  }

  /** The item at position `j` of module `mi` is scanned, with that module's name and description. */
  lemma {:induction false} ModuleItemIsScanned(source: seq<ApiModule>, mi: nat, j: nat)
    requires mi < |source| && j < |source[mi].list|
    ensures Entry(source[mi].name, source[mi].desc, source[mi].list[j]) in Entries(source)
  {
    var init := source[..|source| - 1];
    if mi < |init| {
      ModuleItemIsScanned(init, mi, j);
      assert init[mi] == source[mi];
    } else {
      assert ModuleEntries(source[mi])[j] == Entry(source[mi].name, source[mi].desc, source[mi].list[j]);
    }
  }

  /** Every item of every module lands in the bucket of its own key. */
  lemma EveryItemInItsBucket(key: Item -> string, source: seq<ApiModule>, mi: nat, j: nat)
    requires mi < |source| && j < |source[mi].list|
    ensures key(source[mi].list[j]) in GroupKeys(key, Entries(source))
    ensures source[mi].list[j] in BucketItems(key, Entries(source), key(source[mi].list[j]))
  {
    var es := Entries(source);
    ModuleItemIsScanned(source, mi, j);
    var i :| 0 <= i < |es| && es[i] == Entry(source[mi].name, source[mi].desc, source[mi].list[j]);
    ItemInItsBucket(key, es, i);
    KeyPresence(key, es, key(es[i].item));
  }

  /** Two entries with the same key form one bucket, named after the first. */
  lemma TwoEntriesOneKey(key: Item -> string, ea: Entry, eb: Entry)
    requires key(ea.item) == key(eb.item)
    ensures GroupKeys(key, [ea, eb]) == [key(ea.item)]
    ensures FirstWithKey(key, [ea, eb], key(ea.item)) == Some(ea)
    ensures BucketItems(key, [ea, eb], key(ea.item)) == [ea.item, eb.item]
  {
    var k := key(ea.item);
    var none: seq<Entry> := [];
    assert [ea] == none + [ea];
    assert [ea, eb] == [ea] + [eb];
    assert GroupKeys(key, [ea]) == [k] by {
      GroupKeysStep(key, none, ea);
    }
    GroupKeysStep(key, [ea], eb);
    assert FirstWithKey(key, [ea], k) == Some(ea) by {
      FirstWithKeyStep(key, none, ea, k);
    }
    FirstWithKeyStep(key, [ea], eb, k);
    assert BucketItems(key, [ea], k) == [ea.item] by {
      BucketItemsStep(key, none, ea, k);
    }
    BucketItemsStep(key, [ea], eb, k);
  }

  /**
   * Two one-item modules whose items share a key end up in a single bucket,
   * named after the module scanned first and holding both items in scan order.
   */
  lemma SharedKeyMerges(key: Item -> string, a: ApiModule, b: ApiModule)
    requires |a.list| == 1 && |b.list| == 1
    requires key(a.list[0]) == key(b.list[0])
    ensures GroupKeys(key, Entries([a, b])) == [key(a.list[0])]
    ensures SpecBucket(key, Entries([a, b]), key(a.list[0])) == Bucket(a.name, a.desc, [a.list[0], b.list[0]])
  {
    var ea := Entry(a.name, a.desc, a.list[0]);
    var eb := Entry(b.name, b.desc, b.list[0]);
    assert Entries([a]) == [ea] by {
      assert [a][..0] == [];
      assert ModuleEntries(a) == [ea];
    }
    assert Entries([a, b]) == [ea, eb] by {
      assert [a, b][..1] == [a];
      assert ModuleEntries(b) == [eb];
    }
    TwoEntriesOneKey(key, ea, eb);
  }

  /** A path "/a/w/b" of three non-empty, slash-free words has the key `w`. */
  lemma MiddleWordKey(isUrl: string -> bool, item: Item, a: string, w: string, b: string)
    requires a != [] && w != [] && b != []
    requires '/' !in a && '/' !in w && '/' !in b
    requires item.path == "/" + a + "/" + w + "/" + b
    ensures PathKey(isUrl)(item) == w
  {
    ThreeWordSegments(isUrl, item.path, a, w, b);
    SingleSegment(isUrl, item.path, 1, "_");
  }

  /** The paths "/api/Foo/get" and "/api/Foo/list" both have the key "Foo". */
  lemma FooKey(isUrl: string -> bool, item: Item)
    requires item.path == "/api/Foo/get" || item.path == "/api/Foo/list"
    ensures PathKey(isUrl)(item) == "Foo"
  {
    if item.path == "/api/Foo/get" {
      assert item.path == "/" + "api" + "/" + "Foo" + "/" + "get";
      MiddleWordKey(isUrl, item, "api", "Foo", "get");
    } else {
      assert item.path == "/" + "api" + "/" + "Foo" + "/" + "list";
      MiddleWordKey(isUrl, item, "api", "Foo", "list");
    }
  }

  /**
   * Module A with "/api/Foo/get" and module B with "/api/Foo/list" share one
   * bucket "Foo", named after A and holding both endpoints, A's first.
   */
  lemma FooModulesMerge(isUrl: string -> bool, a: ApiModule, b: ApiModule)
    requires |a.list| == 1 && a.list[0].path == "/api/Foo/get"
    requires |b.list| == 1 && b.list[0].path == "/api/Foo/list"
    ensures GroupKeys(PathKey(isUrl), Entries([a, b])) == ["Foo"]
    ensures SpecBucket(PathKey(isUrl), Entries([a, b]), "Foo") == Bucket(a.name, a.desc, [a.list[0], b.list[0]])
  {
    FooKey(isUrl, a.list[0]);
    FooKey(isUrl, b.list[0]);
    SharedKeyMerges(PathKey(isUrl), a, b);
  }

  // ---------------------------------------------------------------------
  // The scan itself
  // ---------------------------------------------------------------------

  /** `keys` and `buckets` are the ordered key list and the map that the scan of `es` should have built. */
  ghost predicate Tracks(key: Item -> string, es: seq<Entry>, keys: seq<string>, buckets: map<string, Bucket>)
  {
    && keys == GroupKeys(key, es)
    && (forall k :: k in buckets <==> k in keys)
    && (forall k :: k in buckets ==> k in GroupKeys(key, es) && buckets[k] == SpecBucket(key, es, k))
  }

  /** One iteration of the inner `forEach`: lines 125-135 of src/index.ts. */
  lemma ScanStep(key: Item -> string, es: seq<Entry>, e: Entry, keys: seq<string>, buckets: map<string, Bucket>)
    requires Tracks(key, es, keys, buckets)
    ensures var k := key(e.item);
            k in buckets ==>
              Tracks(key, es + [e], keys, buckets[k := buckets[k].(list := buckets[k].list + [e.item])])
    ensures var k := key(e.item);
            k !in buckets ==>
              Tracks(key, es + [e], keys + [k], buckets[k := Bucket(e.name, e.desc, [e.item])])
  {
    var es' := es + [e];
    var k := key(e.item);
    assert es'[..|es|] == es;
    forall k' | k' in GroupKeys(key, es)
      ensures FirstWithKey(key, es', k') == FirstWithKey(key, es, k')
    {
      KeyPresence(key, es, k');
    }
    if k !in buckets {
      KeyPresence(key, es, k);
    }
  }

  /**
   * One item of the inner `forEach` (lines 125-135 of src/index.ts): append it
   * to the bucket of its key, or create that bucket with the module's name and
   * description.
   */
  method FileItem(isUrl: string -> bool, name: string, desc: string, item: Item, ghost done: seq<Entry>,
                  keys0: seq<string>, buckets0: map<string, Bucket>)
    returns (keys: seq<string>, buckets: map<string, Bucket>)
    requires Tracks(PathKey(isUrl), done, keys0, buckets0)
    ensures Tracks(PathKey(isUrl), done + [Entry(name, desc, item)], keys, buckets)
  {
    ScanStep(PathKey(isUrl), done, Entry(name, desc, item), keys0, buckets0);
    var fileName := GetPathWords(isUrl, item.path, Range(1, 2), "_");
    assert fileName == PathKey(isUrl)(item);
    if fileName in buckets0 {
      var bucket := buckets0[fileName];
      keys, buckets := keys0, buckets0[fileName := bucket.(list := bucket.list + [item])];
    } else {
      keys, buckets := keys0 + [fileName], buckets0[fileName := Bucket(name, desc, [item])];
    }
  }

  /**
   * The inner `forEach` of the grouping phase (lines 124-136 of src/index.ts):
   * file every item of one module under its key, in list order.
   */
  method FileModuleItems(isUrl: string -> bool, apiModule: ApiModule, ghost seen: seq<Entry>,
                         keys0: seq<string>, buckets0: map<string, Bucket>)
    returns (keys: seq<string>, buckets: map<string, Bucket>)
    requires Tracks(PathKey(isUrl), seen, keys0, buckets0)
    ensures Tracks(PathKey(isUrl), seen + ModuleEntries(apiModule), keys, buckets)
  {
    ghost var done := seen;
    keys, buckets := keys0, buckets0;
    for j := 0 to |apiModule.list|
      invariant done == seen + ModuleEntries(apiModule)[..j]
      invariant Tracks(PathKey(isUrl), done, keys, buckets)
    {
      keys, buckets := FileItem(isUrl, apiModule.name, apiModule.desc, apiModule.list[j], done, keys, buckets);
      ModuleEntriesPrefix(apiModule, j);
      done := done + [Entry(apiModule.name, apiModule.desc, apiModule.list[j])];
    }
    assert ModuleEntries(apiModule)[..|apiModule.list|] == ModuleEntries(apiModule);
  }

  /**
   * The grouping phase of `generateJsApiContent` (lines 107-137 of
   * src/index.ts): scan the modules in order, skipping empty ones, and file
   * every item under its key.
   */
  method CollectSymbols(isUrl: string -> bool, source: seq<ApiModule>)
    returns (keys: seq<string>, buckets: map<string, Bucket>)
    ensures keys == GroupKeys(PathKey(isUrl), Entries(source))
    ensures forall k :: k in buckets <==> k in keys
    ensures forall k :: k in buckets ==> buckets[k] == SpecBucket(PathKey(isUrl), Entries(source), k)
  {
    keys, buckets := [], map[];
    for m := 0 to |source|
      invariant Tracks(PathKey(isUrl), Entries(source[..m]), keys, buckets)
    {
      var apiModule := source[m];
      assert source[..m + 1][..m] == source[..m];
      assert Entries(source[..m + 1]) == Entries(source[..m]) + ModuleEntries(apiModule);
      if |apiModule.list| != 0 {
        keys, buckets := FileModuleItems(isUrl, apiModule, Entries(source[..m]), keys, buckets);
      } else {
        assert ModuleEntries(apiModule) == [];
        assert Entries(source[..m]) + [] == Entries(source[..m]);
      }
    }
    assert source[..|source|] == source;
  }

  // ---------------------------------------------------------------------
  // The lookup `symbolSource[fileName]` as JavaScript performs it
  // ---------------------------------------------------------------------

  /**
   * The names every plain object inherits from `Object.prototype`. For such a
   * name, `symbolSource[fileName]` is a truthy inherited value even before a
   * bucket was created, so the scan takes the append branch and
   * `symbolSource[fileName].list.push(item)` throws a TypeError.
   */
  const InheritedNames: set<string> := {
    "constructor", "hasOwnProperty", "isPrototypeOf", "propertyIsEnumerable",
    "toLocaleString", "toString", "valueOf", "__proto__",
    "__defineGetter__", "__defineSetter__", "__lookupGetter__", "__lookupSetter__"
  }

  /** The end of the grouping phase as written: the filed buckets, or the key at which it throws. */
  datatype Outcome = Filed(keys: seq<string>, buckets: map<string, Bucket>) | Throws(key: string)

  /** The scan of lines 115-137 with the inherited-member lookup of JavaScript objects. */
  function ScanAsWritten(key: Item -> string, es: seq<Entry>): Outcome
  {
    if es == [] then Filed([], map[])
    else
      match ScanAsWritten(key, es[..|es| - 1])
      case Throws(k) => Throws(k)
      case Filed(keys, buckets) =>
        var e := es[|es| - 1];
        var k := key(e.item);
        if k in buckets then Filed(keys, buckets[k := buckets[k].(list := buckets[k].list + [e.item])])
        else if k in InheritedNames then Throws(k)
        else Filed(keys + [k], buckets[k := Bucket(e.name, e.desc, [e.item])])
  }

  /** The scan as written never files a bucket under an inherited name. */
  lemma {:induction false} FiledKeysNotInherited(key: Item -> string, es: seq<Entry>)
    requires ScanAsWritten(key, es).Filed?
    ensures forall k :: k in ScanAsWritten(key, es).buckets ==> k !in InheritedNames
  {
    if es != [] {
      FiledKeysNotInherited(key, es[..|es| - 1]);
    }
  }

  /** Without an item whose key is an inherited name, the scan as written builds the intended buckets. */
  lemma {:induction false} ScanAsWrittenFiles(key: Item -> string, es: seq<Entry>)
    requires forall i :: 0 <= i < |es| ==> key(es[i].item) !in InheritedNames
    ensures ScanAsWritten(key, es).Filed?
    ensures Tracks(key, es, ScanAsWritten(key, es).keys, ScanAsWritten(key, es).buckets)
  {
    if es != [] {
      var init := es[..|es| - 1];
      var e := es[|es| - 1];
      ScanAsWrittenFiles(key, init);
      ScanStep(key, init, e, ScanAsWritten(key, init).keys, ScanAsWritten(key, init).buckets);
      assert init + [e] == es;
    }
  }

  /** Any item whose key is an inherited name makes the scan as written throw. */
  lemma {:induction false} ScanAsWrittenThrows(key: Item -> string, es: seq<Entry>, i: nat)
    requires i < |es| && key(es[i].item) in InheritedNames
    ensures ScanAsWritten(key, es).Throws?
  {
    var init := es[..|es| - 1];
    if i < |init| {
      assert init[i] == es[i];
      ScanAsWrittenThrows(key, init, i);
    } else if ScanAsWritten(key, init).Filed? {
      FiledKeysNotInherited(key, init);
    }
  }

  /** The path "/api/constructor/get" has the key "constructor". */
  lemma ConstructorKey(isUrl: string -> bool, item: Item)
    requires item.path == "/api/constructor/get"
    ensures PathKey(isUrl)(item) == "constructor"
  {
    assert item.path == "/" + "api" + "/" + "constructor" + "/" + "get";
    MiddleWordKey(isUrl, item, "api", "constructor", "get");
  }

  /** A single endpoint "/api/constructor/get" makes the grouping phase as written throw. */
  lemma ConstructorEndpointThrows(isUrl: string -> bool, m: ApiModule)
    requires |m.list| == 1 && m.list[0].path == "/api/constructor/get"
    ensures ScanAsWritten(PathKey(isUrl), Entries([m])).Throws?
    ensures |GroupKeys(PathKey(isUrl), Entries([m]))| == 1
  {
    ConstructorKey(isUrl, m.list[0]);
    assert "constructor" in InheritedNames;
    assert Entries([m]) == [Entry(m.name, m.desc, m.list[0])] by {
      assert [m][..0] == [];
      assert ModuleEntries(m) == [Entry(m.name, m.desc, m.list[0])];
    }
    ScanAsWrittenThrows(PathKey(isUrl), Entries([m]), 0);
  }
}
