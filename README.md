# yapi-to-config: the generator core in Dafny

yapi-to-config turns the interface list exported by a YApi documentation server
into a JavaScript module: one descriptor `{ funcName, method, url }` per
endpoint, grouped under comment headers. This project models the core of that
transformation, the class `Main` in `src/index.ts`:

- `getPathWords` (`PathWords.GetPathWords`) derives a name from a path. When
  `isURL` accepts the path, it drops everything up to the first `/` after the
  last `//` that is followed by a `/`; for an ordinary URL that is the scheme
  and host. It then strips one leading and one trailing `/`, splits on `/`,
  keeps a slice of the segments and joins it with a divider.
- `reservedWord` (`PathWords.ReservedWord`) renames the keyword `delete` to `del`.
- `generateJsApiContent` works in two phases:
  - The grouping phase (`Grouping.CollectSymbols`) files every endpoint of
    every module under the key `getPathWords(path, "1,2")`. Keys are kept in an
    insertion-ordered sequence beside a map of buckets.
  - The rendering phase (`Render.GenerateJsApiContent`, with
    `Render.GenrSingleContent` for `genrSingleConent`) writes a prologue, one
    header and its records per bucket, and the closing `]`.

Each method is proved against a declarative specification:

- `GroupKeys`/`SpecBucket` give the keys and buckets.
- `Layout` gives the structured output: one `Section` per bucket and one
  `Record` per endpoint.
- `Document` gives the text of a layout.

Lemmas state what the code promises about these specifications:

- the buckets partition the endpoints;
- keys are distinct and kept in first-appearance order;
- a bucket takes its name from the module that created it;
- empty modules leave no trace;
- the `break` of the rendering loop never fires;
- the generated record names (`Render.FuncName`) never contain `/` and are
  never `delete`.

Files:

- `path_words.dfy`: module `PathWords`.
- `grouping.dfy`: module `Grouping`.
- `render.dfy`: module `Render`.

The model follows the code in four places where a reader might expect something else:

- The path `"/"` derives the single empty segment `[""]`. This is what
  `"".split("/")` returns; the model does not give an empty list of segments.
- The `delete` → `del` substitution applies only to a record's `funcName`. It
  is not applied to the bucket keys.
- A URL with nothing after its host, such as `"https://example.com"`, is not
  stripped. The regular expression needs a `/` after the `//`, and there is
  none. The segments are `["https:", "", "example.com"]`, and selector 1 gives
  `"_example.com"`.
- A `//` inside the path of a URL counts as a host separator too, so the strip
  removes more than the host. `"http://h/a//b/c"` strips to `"c"`, and
  selector 1 gives `""`. The bare path `"/a//b/c"` gives `"_b_c"`.

## Model

| member | source | states |
|---|---|---|
| PathWords.LastHostSep | src/index.ts:188 | finds the last "//" with a later '/' below a bound, or reports that there is none (the greedy `.*` of the regular expression) |
| PathWords.FirstSlashFrom | src/index.ts:188 | the first '/' at or after a position (the lazy `.*?\/` of the regular expression) |
| PathWords.StripHost | src/index.ts:187-189 | without a "//" followed later by '/' the string is unchanged; otherwise everything up to and including the first '/' after the last such "//" is removed |
| PathWords.TrimSlashes | src/index.ts:191-194 | at most one leading and one trailing '/' are removed, each exactly when present; "/" becomes "" |
| PathWords.Split | src/index.ts:195 | `split("/")` yields at least one segment, and no segment contains '/' |
| PathWords.SliceEnd | src/index.ts:196-206 | where `slice` stops: the end for an integer selector; otherwise the given stop, or the end when the stop lies past it |
| PathWords.Slice | src/index.ts:196-206 | the slice has exactly max(0, end - start) elements, where end is SliceEnd; its i-th element is segment start+i |
| PathWords.Join | src/index.ts:206 | definition of `join(divider)`: its properties are stated by JoinSplit, SplitJoin and JoinNoSlash |
| PathWords.Segments | src/index.ts:187-195 | the segments after the host strip (only when `isURL` accepts the path) and the slash trimming: at least one segment, none containing '/' |
| PathWords.GetPathWords | src/index.ts:185-207 | definition of `getPathWords`: the selected segments joined with the divider; its properties are stated by the lemmas below |
| PathWords.ReservedWord | src/index.ts:168-176 | "delete" becomes "del"; every other word is returned unchanged |
| PathWords.SplitNoSlash | src/index.ts:195 | a string without '/' splits to itself alone |
| PathWords.SplitAtSlash | src/index.ts:195 | splitting `a + "/" + b` is splitting a, then splitting b |
| PathWords.SplitSegmentCount | src/index.ts:195 | the segment count is the number of '/' plus one, so "" splits to [""] |
| PathWords.JoinSplit | src/index.ts:195-206 | joining the segments with "/" gives the string back |
| PathWords.SplitJoin | src/index.ts:195-206 | splitting the "/"-join of slash-free parts gives the parts back |
| PathWords.JoinNoSlash | src/index.ts:206 | joining slash-free parts with a slash-free divider gives a slash-free string |
| PathWords.PathWordsHaveNoSlash | src/index.ts:185-207 | with the "_" divider the derived name never contains '/' |
| PathWords.FromIsRangeToEnd | src/index.ts:196-206 | the integer selector i means the same as the pair "i,segmentCount" |
| PathWords.SingleSegment | src/index.ts:196-206 | the pair "s,s+1" with s below the segment count yields exactly segment s |
| PathWords.EmptySelection | src/index.ts:196-206 | a start at or past the end, or a start not below the stop, yields "" |
| PathWords.SegmentsWithoutHost | src/index.ts:187-195 | a path without "//" loses no host, whatever `isURL` answers |
| PathWords.SegmentsOfAbsolutePath | src/index.ts:191-195 | "/w0/.../wn" of non-empty, slash-free words has exactly the segments w0 … wn |
| PathWords.HostSepOfUrl | src/index.ts:188 | in "scheme//host/rest" the "//" after the scheme is the last host separator, and the first '/' after it ends the host |
| PathWords.StripHostOfUrl | src/index.ts:187-189 | "scheme//host/rest" with a non-empty, slash-free host, and a rest that has no "//" and does not begin with '/', strips to rest |
| PathWords.ThreeWordSegments | src/index.ts:191-195 | "/a/b/c" of non-empty, slash-free words has the segments a, b, c |
| PathWords.ThreeWordName | src/index.ts:185-207 | "/a/b/c" of non-empty, slash-free words with selector 1 gives "b_c" |
| PathWords.LastTwoOfThree | src/index.ts:196-206 | selecting from 1 on three segments joins the last two with "_" |
| PathWords.DocumentedExample | src/index.ts:180-206 | getPathWords('/v1/Advise/update', 1) is 'Advise_update', as documented |
| PathWords.UrlAndPathAgree | src/index.ts:185-207 | a URL "scheme//host/w0/…/wn" accepted by `isURL`, with a slash-free scheme, a non-empty slash-free host and words w0 … wn non-empty and slash-free, derives the same name as its bare path "/w0/…/wn", for every selector and divider |
| PathWords.TwoWordName | src/index.ts:185-207 | "/a/w" of non-empty, slash-free words with selector 1 gives w |
| PathWords.BareHostHasNoSeparator | src/index.ts:188 | in "scheme//host" with a slash-free host the regular expression finds no match |
| PathWords.SplitBareHost | src/index.ts:195 | "scheme//host" splits into the scheme, an empty word and the host |
| PathWords.BareHostSegments | src/index.ts:187-195 | "scheme//host" keeps its host whatever `isURL` answers: its segments are the scheme, "" and the host |
| PathWords.BareHostUrl | src/index.ts:185-207 | "scheme//host" with selector 1 gives "_" followed by the host |
| PathWords.BareHostExample | src/index.ts:185-207 | getPathWords('https://example.com', 1) is '_example.com' |
| PathWords.StripHostPastDoubleSlash | src/index.ts:188 | "http://h/a//b/c" strips to "c": the "//" in the path is the last host separator |
| PathWords.UrlWithDoubleSlashName | src/index.ts:185-207 | "http://h/a//b/c", when `isURL` accepts it, gives "" with selector 1 |
| PathWords.SplitEmptyWord | src/index.ts:195 | "a//b/c" of slash-free words splits into a, "", b, c |
| PathWords.EmptyWordName | src/index.ts:185-207 | a bare path "/a//b/c" that `isURL` rejects, with a and c non-empty, gives "_b_c" with selector 1 |
| PathWords.PathWithDoubleSlashName | src/index.ts:185-207 | "/a//b/c", which `isURL` rejects, gives "_b_c" with selector 1 |
| PathWords.RangeExample | src/index.ts:196-206 | the pair "1,2" on "/a/b/c/d" yields "b" |
| PathWords.ReservedWordNeverDelete | src/index.ts:168-176 | the result is never "delete" |
| PathWords.ReservedWordIdempotent | src/index.ts:168-176 | applying the substitution twice equals applying it once |
| PathWords.ReservedWordCollisions | src/index.ts:168-176 | two different words map to the same name only if they are "delete" and "del" |
| Grouping.ModuleEntries | src/index.ts:122-125 | definition: the items of one module, each paired with the module's name and description; nothing for an empty list |
| Grouping.Entries | src/index.ts:115-125 | definition: the module entries concatenated in module order, the order of the nested `forEach` |
| Grouping.PathKey | src/index.ts:125-126 | definition: an item's key is `getPathWords(item.path, "1,2")`, i.e. the Range(1, 2) selector with divider "_" |
| Grouping.KeyPresence | src/index.ts:124-136 | a key exists exactly when some scanned item has it, exactly when it has a first item; a key without items has an empty bucket |
| Grouping.KeysDistinct | src/index.ts:127-135 | no key is listed twice |
| Grouping.FirstWithKeyIsEarliest | src/index.ts:127-134 | the entry that names a bucket is the earliest scanned entry with that key |
| Grouping.KeysInFirstAppearanceOrder | src/index.ts:127-143 | keys are ordered by the position of their first item in the scan |
| Grouping.KeysOnlyGrow | src/index.ts:124-136 | scanning more items only appends keys, never reorders or drops them |
| Grouping.FirstWithKeyStable | src/index.ts:127-134 | a bucket's name and description never change once it exists |
| Grouping.BucketItemsAppend | src/index.ts:128 | scanning more items only appends to a bucket, in scan order |
| Grouping.ItemInItsBucket | src/index.ts:124-136 | every scanned item is in the bucket of its own key |
| Grouping.BucketsNonEmpty | src/index.ts:127-146 | every bucket holds at least one item, so the `break` never fires |
| Grouping.BucketsPartitionItems | src/index.ts:124-136 | the buckets together hold the scanned items, each exactly as often as it was scanned |
| Grouping.BucketSizesAddUp | src/index.ts:115-137 | the number of items over all buckets is the sum of the module list lengths |
| Grouping.EntriesCount | src/index.ts:115-137 | the scan meets as many items as the modules hold |
| Grouping.EntriesAppend | src/index.ts:115-137 | scanning two runs of modules is scanning one, then the other |
| Grouping.EmptyModuleIsSkipped | src/index.ts:122 | a module with an empty list contributes nothing to the scan |
| Grouping.ModuleItemIsScanned | src/index.ts:115-125 | every item of every module is scanned, with its module's name and description |
| Grouping.EveryItemInItsBucket | src/index.ts:124-136 | every item of every module has its key among the keys and lies in that key's bucket |
| Grouping.TwoEntriesOneKey | src/index.ts:127-134 | two items with the same key form one bucket, named after the first, holding both in order |
| Grouping.SharedKeyMerges | src/index.ts:127-134 | two one-item modules whose items share a key give one bucket, named after the first, holding both items in order |
| Grouping.MiddleWordKey | src/index.ts:126 | the key of "/a/w/b" is w |
| Grouping.FooKey | src/index.ts:126 | "/api/Foo/get" and "/api/Foo/list" both have the key "Foo" |
| Grouping.FooModulesMerge | src/index.ts:115-137 | modules A with "/api/Foo/get" and B with "/api/Foo/list" give the single bucket "Foo", named after A, holding A's item and then B's |
| Grouping.ScanStep | src/index.ts:125-135 | one step of the inner loop, appending or creating, keeps keys and map equal to the specification of the scanned prefix |
| Grouping.FileItem | src/index.ts:125-135 | filing one item, by appending or creating, extends the specification from the items seen so far to those items and this one |
| Grouping.FileModuleItems | src/index.ts:124-136 | filing one module's items extends the specification from the items seen so far to those items followed by the module's |
| Grouping.CollectSymbols | src/index.ts:107-137 | the key list is the distinct keys in first-appearance order; the map holds exactly those keys, each bucket named after its first module and holding all items with its key in scan order |
| Grouping.ScanAsWritten | src/index.ts:115-137 | definition of the scan as written: an item whose key is already filed joins that bucket; a new key that names a member inherited from `Object.prototype` makes the scan throw; any other new key opens a bucket named after the item's module |
| Grouping.FiledKeysNotInherited | src/index.ts:127-135 | the scan as written never files a bucket under a name inherited from `Object.prototype` |
| Grouping.ScanAsWrittenFiles | src/index.ts:115-137 | without such a key, the scan as written builds exactly the specified keys and buckets |
| Grouping.ScanAsWrittenThrows | src/index.ts:127-128 | any item whose key is an inherited name makes the scan as written throw |
| Grouping.ConstructorKey | src/index.ts:126 | "/api/constructor/get" has the key "constructor" |
| Grouping.ConstructorEndpointThrows | src/index.ts:126-128 | one endpoint "/api/constructor/get" makes the scan as written throw, although it has one well-defined key |
| Render.FuncName | src/index.ts:90 | an item's funcName, `reservedWord(getPathWords(path, 1))`, never contains '/' and is never "delete" |
| Render.DocUrl | src/index.ts:93 | the doc link begins with the configured host, followed by "/project/…/interface/api/…" |
| Render.RecordText | src/index.ts:91-99 | definition: the text of one record, title and doc comments then `{ funcName, method, url }` |
| Render.HeaderText | src/index.ts:150-157 | definition: the header comment of a bucket, its name and description between two rules |
| Render.Layout | src/index.ts:115-158 | definition: one section per key of the scanned modules, in key order, from that key's bucket |
| Render.Document | src/index.ts:139-161 | definition: the prologue (`/* eslint-disable */` and `export default [`), the section texts, then "]" |
| Render.DeleteEndpointName | src/index.ts:90 | the endpoint "/api/delete" gets the funcName "del" |
| Render.GenrSingleContent | src/index.ts:85-102 | the accumulated text is the record text of each item, in list order |
| Render.GenerateJsApiContent | src/index.ts:83-162 | the output is the prologue, the section text of every bucket in key order, then "]" |
| Render.SectionsFollowBuckets | src/index.ts:143-158 | one section per bucket, named and described after the module that created the bucket, with one record per bucket item and at least one |
| Render.RecordFields | src/index.ts:90-97 | each record's funcName is reservedWord(getPathWords(path, 1)) and never "delete"; its method, url and title are the item's own |
| Render.RecordCountMatches | src/index.ts:143-158 | sections whose record counts match the buckets hold as many records as those buckets hold items |
| Render.RecordCountIsItemCount | src/index.ts:83-162 | the output holds as many records as the modules hold items |
| Render.EmptyModuleRendersNothing | src/index.ts:122 | inserting a module with an empty list leaves the generated text unchanged |
| Render.NoItemsNoSections | src/index.ts:139-161 | without any item, the text is the prologue followed by "]" |

## Left out

- `handleSrouce` (src/index.ts:42-77) is not modelled. It is I/O plumbing:
  reading a file or fetching over the network, writing the output,
  `prettier.format` and logging.
- `run` and `yapiOptionsFormat` (src/index.ts:210-285) are not modelled. They
  resolve configuration from package.json and the environment and exit the
  process on error. `./helper` is not part of this model.
- `isURL` of the validator library is a foreign call. It is the parameter
  `isUrl` of every path operation, and no property depends on its answers
  except where a lemma states them.
- `this.options.host` is the parameter `host`.
- PathWords.StripHost treats the regular-expression dot as matching every
  character. In JavaScript `.` does not match line terminators, so a path
  containing a newline is not modelled faithfully.
- PathWords.Slice takes natural-number indices only. Negative `slice` indices
  and the `Number()` parsing of an arbitrary selector string are not modelled.
  The code only passes `1` and `"1,2"`.
- Render.GenerateJsApiContent iterates in insertion order. JavaScript's
  `for...in` lists integer-like keys such as "123" first, in ascending numeric
  order, before all other keys (section 10.1.11.1, OrdinaryOwnPropertyKeys, of
  ECMA-262). The model assumes that no bucket key is an integer-like string.
- The template literals are constants with normalised whitespace. Their
  indentation and the later `prettier` pass are not modelled.
- Buckets are values in a map that the scan reassigns. The code pushes onto the
  bucket's array in place; no array is shared between buckets, so nothing
  observable is lost.
- Grouping.CollectSymbols treats keys that name members inherited from
  `Object.prototype` as ordinary keys. The code as written throws on them; see
  Findings, where Grouping.ScanAsWritten models that behaviour.

## Findings

| source | as written | input that shows it | evidently intended | confidence | as-written member | corrected member |
|---|---|---|---|---|---|---|
| src/index.ts:127-128 | `if (symbolSource[fileName])` also finds members inherited from `Object.prototype`. A first item with key "constructor", "toString", "__proto__" and the like takes the append branch, and `.list.push` throws a TypeError | one module whose only endpoint is "/api/constructor/get" | a new bucket "constructor" is created, as for any other key (an own-property test) | high; not executed | Grouping.ConstructorEndpointThrows | Grouping.CollectSymbols |
