/**
 * Deriving names from URL paths: `Main.getPathWords` and `Main.reservedWord`
 * of src/index.ts.
 *
 * `getPathWords(path, sliceIdx, divider = "_")` drops the scheme and host of a
 * URL, strips one leading and one trailing '/', splits the rest on '/', keeps
 * the slice of segments chosen by `sliceIdx` and joins it with `divider`.
 * The `isURL` check of the validator library is not part of this model; it is
 * passed in as the predicate `isUrl`.
 */
module PathWords {

  datatype Option<T> = None | Some(value: T)

  /**
   * The `sliceIdx` argument: a number `i` selects the segments from `i` to
   * the end, a string "start,stop" selects the segments in [start, stop).
   */
  datatype Selector = From(start: nat) | Range(start: nat, stop: nat)

  // ---------------------------------------------------------------------
  // The host strip `path.replace(/.*\/\/.*?\//, "")`
  // ---------------------------------------------------------------------

  /** Position `p` holds a "//" and some '/' follows it later on. */
  predicate IsHostSep(s: string, p: int)
  {
    0 <= p && p + 2 <= |s| && s[p] == '/' && s[p + 1] == '/' && '/' in s[p + 2..]
  }

  /** The first '/' at or after position `i`. */
  function FirstSlashFrom(s: string, i: nat): (q: nat)
    requires i <= |s| && '/' in s[i..]
    ensures i <= q < |s| && s[q] == '/'
    ensures forall j :: i <= j < q ==> s[j] != '/'
    decreases |s| - i
  {
    if s[i] == '/' then i
    else
      assert s[i..] == [s[i]] + s[i + 1..];
      FirstSlashFrom(s, i + 1)
  }

  /** The last host separator below `hi`: what the greedy `.*` settles on. */
  function LastHostSep(s: string, hi: nat): (p: Option<nat>)
    requires hi <= |s|
    ensures p.Some? ==> p.value < hi && IsHostSep(s, p.value)
    ensures p.Some? ==> forall p' :: p.value < p' < hi ==> !IsHostSep(s, p')
    ensures p.None? ==> forall p' :: 0 <= p' < hi ==> !IsHostSep(s, p')
  {
    if hi == 0 then None
    else if IsHostSep(s, hi - 1) then Some(hi - 1)
    else LastHostSep(s, hi - 1)
  }

  /**
   * The regular expression matches from the start of the string: `.*` runs to
   * the last "//" that still has a '/' after it, the lazy `.*?` stops at the
   * first such '/', and the whole match is removed. Without a match the string
   * is unchanged.
   */
  function StripHost(s: string): (r: string)
    ensures (forall p :: !IsHostSep(s, p)) ==> r == s
    ensures (exists p :: IsHostSep(s, p)) ==>
      exists p, q ::
        && IsHostSep(s, p)
        && (forall p' :: p < p' ==> !IsHostSep(s, p'))
        && p + 2 <= q < |s| && s[q] == '/'
        && (forall j :: p + 2 <= j < q ==> s[j] != '/')
        && r == s[q + 1..]
  {
    match LastHostSep(s, |s|)
    case None => s
    case Some(p) =>
      var q := FirstSlashFrom(s, p + 2);
      assert forall p' :: p < p' ==> !IsHostSep(s, p');
      assert p + 2 <= q < |s| && s[q] == '/';
      assert forall j :: p + 2 <= j < q ==> s[j] != '/';
      s[q + 1..]
  }

  // ---------------------------------------------------------------------
  // Trimming, splitting, slicing and joining
  // ---------------------------------------------------------------------

  /** `path[0] === "/" ? path.substr(1) : path`, then the same at the end. */
  function TrimSlashes(s: string): (r: string)
    ensures r == s || "/" + r == s || r + "/" == s || "/" + r + "/" == s
    ensures (s == [] || (s[0] != '/' && s[|s| - 1] != '/')) ==> r == s
    ensures |s| >= 2 && s[0] == '/' && s[|s| - 1] == '/' ==> "/" + r + "/" == s
    ensures |s| >= 1 && s[0] == '/' && s[|s| - 1] != '/' ==> "/" + r == s
    ensures |s| >= 1 && s[0] != '/' && s[|s| - 1] == '/' ==> r + "/" == s
    ensures s == "/" ==> r == ""
  {
    var a := if |s| > 0 && s[0] == '/' then s[1..] else s;
    if |a| > 0 && a[|a| - 1] == '/' then a[..|a| - 1] else a
  }

  /** `s.split("/")`: never empty, and no segment holds a '/'. */
  function Split(s: string): (r: seq<string>)
    ensures |r| >= 1
    ensures forall i :: 0 <= i < |r| ==> '/' !in r[i]
  {
    if s == [] then [""]
    else if s[0] == '/' then [""] + Split(s[1..])
    else
      var rest := Split(s[1..]);
      [[s[0]] + rest[0]] + rest[1..]
  }

  /** `parts.join(divider)`. */
  function Join(parts: seq<string>, divider: string): string
  {
    if |parts| == 0 then ""
    else if |parts| == 1 then parts[0]
    else parts[0] + divider + Join(parts[1..], divider)
  }

  /** Where `slice` stops: the given stop, or the end for `From`, clamped to `len`. */
  function SliceEnd(sel: Selector, len: nat): (e: nat)
    ensures e <= len
    ensures sel.From? ==> e == len
    ensures sel.Range? ==> (e == sel.stop || e == len) && e <= sel.stop
  {
    match sel
    case From(_) => len
    case Range(_, stop) => if stop < len then stop else len
  }

  /**
   * `arr.slice(start, stop)` for non-negative indices, both clamped to the
   * length: exactly the segments from `start` up to the clamped stop.
   */
  function Slice(segs: seq<string>, sel: Selector): (r: seq<string>)
    ensures |r| == if sel.start < SliceEnd(sel, |segs|) then SliceEnd(sel, |segs|) - sel.start else 0
    ensures forall i :: 0 <= i < |r| ==> sel.start + i < |segs| && r[i] == segs[sel.start + i]
  {
    var hi := SliceEnd(sel, |segs|);
    if sel.start < hi then segs[sel.start..hi] else []
  }

  /**
   * The segments of `path` after the host strip and the slash trimming:
   * there is always at least one, and none holds a '/'.
   */
  function Segments(isUrl: string -> bool, path: string): (r: seq<string>)
    ensures |r| >= 1
    ensures forall i :: 0 <= i < |r| ==> '/' !in r[i]
  {
    Split(TrimSlashes(if isUrl(path) then StripHost(path) else path))
  }

  /** `Main.getPathWords(path, sliceIdx, divider)`. */
  function GetPathWords(isUrl: string -> bool, path: string, sel: Selector, divider: string): string
  {
    Join(Slice(Segments(isUrl, path), sel), divider)
  }

  /** `Main.reservedWord`: the keyword `delete` becomes `del`, every other word is kept. */
  function ReservedWord(word: string): (r: string)
    ensures word == "delete" ==> r == "del"
    ensures word != "delete" ==> r == word
  {
    match word
    case "delete" => "del"
    case _ => word
  }

  // ---------------------------------------------------------------------
  // Properties of splitting and joining
  // ---------------------------------------------------------------------

  lemma AppendAssoc(a: string, b: string, c: string)
    ensures (a + b) + c == a + (b + c)
  {
  }

  /** A string without '/' splits into itself alone. */
  lemma {:induction false} SplitNoSlash(s: string)
    requires '/' !in s
    ensures Split(s) == [s]
  {
    if s != [] {
      assert s == [s[0]] + s[1..];
      SplitNoSlash(s[1..]);
    }
  }

  /** Splitting at a '/' splits the two sides independently. */
  lemma {:induction false} SplitAtSlash(a: string, b: string)
    ensures Split(a + "/" + b) == Split(a) + Split(b)
  {
    if a == [] {
      assert a + "/" + b == "/" + b;
      assert ("/" + b)[1..] == b;
    } else {
      assert (a + "/" + b)[1..] == a[1..] + "/" + b;
      SplitAtSlash(a[1..], b);
    }
  }

  /** There is one more segment than there are slashes; "" splits to [""]. */
  lemma {:induction false} SplitSegmentCount(s: string)
    ensures |Split(s)| == multiset(s)['/'] + 1
  {
    if s != [] {
      assert s == [s[0]] + s[1..];
      assert multiset(s) == multiset{s[0]} + multiset(s[1..]);
      SplitSegmentCount(s[1..]);
    }
  }

  lemma JoinCons(c: char, x: string, t: seq<string>, d: string)
    ensures Join([[c] + x] + t, d) == [c] + Join([x] + t, d)
  {
    if t != [] {
      assert ([[c] + x] + t)[1..] == t;
      assert ([x] + t)[1..] == t;
    }
  }

  /** Joining the segments with "/" gives the string back. */
  lemma {:induction false} JoinSplit(s: string)
    ensures Join(Split(s), "/") == s
  {
    if s == [] {
    } else if s[0] == '/' {
      JoinSplit(s[1..]);
      assert ([""] + Split(s[1..]))[1..] == Split(s[1..]);
    } else {
      var rest := Split(s[1..]);
      JoinSplit(s[1..]);
      JoinCons(s[0], rest[0], rest[1..], "/");
      assert [rest[0]] + rest[1..] == rest;
      assert s == [s[0]] + s[1..];
    }
  }

  /** Splitting a "/"-join of slash-free parts gives the parts back. */
  lemma {:induction false} SplitJoin(parts: seq<string>)
    requires |parts| >= 1
    requires forall i :: 0 <= i < |parts| ==> '/' !in parts[i]
    ensures Split(Join(parts, "/")) == parts
  {
    SplitNoSlash(parts[0]);
    if |parts| > 1 {
      SplitJoin(parts[1..]);
      SplitAtSlash(parts[0], Join(parts[1..], "/"));
      assert [parts[0]] + parts[1..] == parts;
    }
  }

  /** Joining slash-free parts with a slash-free divider gives a slash-free string. */
  lemma {:induction false} JoinNoSlash(parts: seq<string>, divider: string)
    requires forall i :: 0 <= i < |parts| ==> '/' !in parts[i]
    requires '/' !in divider
    ensures '/' !in Join(parts, divider)
  {
    if |parts| > 1 {
      JoinNoSlash(parts[1..], divider);
      var rest := Join(parts[1..], divider);
      assert forall c :: c in parts[0] + divider + rest ==> c in parts[0] || c in divider || c in rest;
    }
  }

  // ---------------------------------------------------------------------
  // Properties of getPathWords
  // ---------------------------------------------------------------------

  /** With the default "_" divider no '/' survives in the derived name. */
  lemma PathWordsHaveNoSlash(isUrl: string -> bool, path: string, sel: Selector)
    ensures '/' !in GetPathWords(isUrl, path, sel, "_")
  {
    var segs := Segments(isUrl, path);
    JoinNoSlash(Slice(segs, sel), "_");
  }

  /** A single number `i` means the same as the pair "i,segmentCount". */
  lemma FromIsRangeToEnd(isUrl: string -> bool, path: string, i: nat, divider: string)
    ensures GetPathWords(isUrl, path, From(i), divider)
         == GetPathWords(isUrl, path, Range(i, |Segments(isUrl, path)|), divider)
  {
  }

  lemma SliceSingle(segs: seq<string>, s: nat)
    requires s < |segs|
    ensures Slice(segs, Range(s, s + 1)) == [segs[s]]
  {
  }

  /** The pair "s,s+1" picks exactly segment `s`. */
  lemma SingleSegment(isUrl: string -> bool, path: string, s: nat, divider: string)
    requires s < |Segments(isUrl, path)|
    ensures GetPathWords(isUrl, path, Range(s, s + 1), divider) == Segments(isUrl, path)[s]
  {
    SliceSingle(Segments(isUrl, path), s);
  }

  /** A start at or past the end, or a start not below the stop, gives "" and no error. */
  lemma EmptySelection(isUrl: string -> bool, path: string, sel: Selector, divider: string)
    requires sel.start >= |Segments(isUrl, path)| || (sel.Range? && sel.start >= sel.stop)
    ensures GetPathWords(isUrl, path, sel, divider) == ""
  {
  }

  /** No two '/' stand next to each other in `s`. */
  predicate NoDoubleSlash(s: string)
  {
    forall i :: 0 <= i < |s| - 1 ==> !(s[i] == '/' && s[i + 1] == '/')
  }

  lemma NoDoubleSlashConcat(x: string, y: string)
    requires NoDoubleSlash(x) && NoDoubleSlash(y)
    requires x == [] || y == [] || x[|x| - 1] != '/' || y[0] != '/'
    ensures NoDoubleSlash(x + y)
  {
    var s := x + y;
    forall i | 0 <= i < |s| - 1 ensures !(s[i] == '/' && s[i + 1] == '/') {
      if i + 1 < |x| {
        assert s[i] == x[i] && s[i + 1] == x[i + 1];
      } else if i >= |x| {
        assert s[i] == y[i - |x|] && s[i + 1] == y[i - |x| + 1];
      }
    }
  }

  lemma NoDoubleSlashTail(s: string)
    requires s != [] && NoDoubleSlash(s)
    ensures NoDoubleSlash(s[1..])
  {
    forall i | 0 <= i < |s| - 2 ensures !(s[1..][i] == '/' && s[1..][i + 1] == '/') {
      assert s[1..][i] == s[i + 1] && s[1..][i + 1] == s[i + 2];
    }
  }

  /** "/" followed by slash-free, non-empty words joined with "/" has no "//". */
  lemma {:induction false} AbsolutePathNoDoubleSlash(ws: seq<string>)
    requires |ws| >= 1
    requires forall i :: 0 <= i < |ws| ==> ws[i] != [] && '/' !in ws[i]
    ensures NoDoubleSlash("/" + Join(ws, "/"))
  {
    var w := ws[0];
    assert NoDoubleSlash("/" + w) by {
      forall i | 1 <= i < |"/" + w| ensures ("/" + w)[i] != '/' {
        assert ("/" + w)[i] == w[i - 1];
      }
    }
    if |ws| > 1 {
      AbsolutePathNoDoubleSlash(ws[1..]);
      assert ("/" + w)[|"/" + w| - 1] == w[|w| - 1];
      assert w[|w| - 1] in w;
      NoDoubleSlashConcat("/" + w, "/" + Join(ws[1..], "/"));
      assert "/" + Join(ws, "/") == ("/" + w) + ("/" + Join(ws[1..], "/"));
    }
  }

  /** A join of non-empty words does not end with '/'. */
  lemma {:induction false} JoinLastChar(ws: seq<string>)
    requires |ws| >= 1
    requires forall i :: 0 <= i < |ws| ==> ws[i] != [] && '/' !in ws[i]
    ensures Join(ws, "/") != [] && Join(ws, "/")[|Join(ws, "/")| - 1] != '/'
  {
    if |ws| == 1 {
      assert ws[0][|ws[0]| - 1] in ws[0];
    } else {
      JoinLastChar(ws[1..]);
    }
  }

  /** Without "//" no host is stripped, whatever `isUrl` says. */
  lemma SegmentsWithoutHost(isUrl: string -> bool, path: string)
    requires NoDoubleSlash(path)
    ensures Segments(isUrl, path) == Split(TrimSlashes(path))
  {
    assert forall p :: !IsHostSep(path, p);
  }

  /** An absolute path "/w0/w1/.../wn" of non-empty words has exactly those words as segments. */
  lemma SegmentsOfAbsolutePath(isUrl: string -> bool, ws: seq<string>)
    requires |ws| >= 1
    requires forall i :: 0 <= i < |ws| ==> ws[i] != [] && '/' !in ws[i]
    ensures Segments(isUrl, "/" + Join(ws, "/")) == ws
  {
    var j := Join(ws, "/");
    AbsolutePathNoDoubleSlash(ws);
    SegmentsWithoutHost(isUrl, "/" + j);
    JoinLastChar(ws);
    assert ("/" + j)[1..] == j;
    SplitJoin(ws);
  }

  /** `LastHostSep` finds the separator that no later separator follows. */
  lemma LastHostSepIs(s: string, p: nat)
    requires IsHostSep(s, p)
    requires forall p' :: p < p' ==> !IsHostSep(s, p')
    ensures LastHostSep(s, |s|) == Some(p)
  {
  }

  /** `FirstSlashFrom` finds the '/' that no earlier '/' precedes. */
  lemma FirstSlashFromIs(s: string, i: nat, q: nat)
    requires i <= q < |s| && s[q] == '/'
    requires forall j :: i <= j < q ==> s[j] != '/'
    ensures '/' in s[i..]
    ensures FirstSlashFrom(s, i) == q
  {
    assert s[i..][q - i] == '/';
  }

  /** In "scheme//host/rest" the "//" after the scheme is the last host separator. */
  lemma HostSepOfUrl(scheme: string, host: string, rest: string)
    requires '/' !in scheme && '/' !in host && host != []
    requires NoDoubleSlash(rest) && (rest == [] || rest[0] != '/')
    ensures var s := scheme + "//" + host + "/" + rest;
            && IsHostSep(s, |scheme|)
            && (forall p' :: |scheme| < p' ==> !IsHostSep(s, p'))
            && (forall j :: |scheme| + 2 <= j < |scheme| + 2 + |host| ==> s[j] != '/')
            && s[|scheme| + 2 + |host|] == '/'
            && s[|scheme| + 3 + |host|..] == rest
  {
    var s := scheme + "//" + host + "/" + rest;
    var n := |scheme|;
    var q := n + 2 + |host|;
    assert s[n] == '/' && s[n + 1] == '/' && s[q] == '/';
    assert s[q + 1..] == rest;
    forall j | n + 2 <= j < q ensures s[j] != '/' {
      assert s[j] == host[j - n - 2];
      assert host[j - n - 2] in host;
    }
    assert s[n + 2..][q - n - 2] == '/';
    forall p | n < p ensures !IsHostSep(s, p) {
      if p + 1 < |s| && p > q {
        assert s[p] == rest[p - q - 1] && s[p + 1] == rest[p - q];
      }
    }
  }

  /** A URL "scheme//host/rest" loses everything up to the slash after the host. */
  lemma StripHostOfUrl(scheme: string, host: string, rest: string)
    requires '/' !in scheme && '/' !in host && host != []
    requires NoDoubleSlash(rest) && (rest == [] || rest[0] != '/')
    ensures StripHost(scheme + "//" + host + "/" + rest) == rest
  {
    var s := scheme + "//" + host + "/" + rest;
    var n := |scheme|;
    var q := n + 2 + |host|;
    HostSepOfUrl(scheme, host, rest);
    LastHostSepIs(s, n);
    FirstSlashFromIs(s, n + 2, q);
  }

  /**
   * A "//" inside the path of a URL is a later host separator, so the strip
   * removes everything up to the first '/' after it, not only the host:
   * "http://h/a//b/c" strips to "c".
   */
  lemma StripHostPastDoubleSlash(s: string)
    requires s == "http://h/a//b/c"
    ensures StripHost(s) == "c"
  {
    assert IsHostSep(s, 10) by {
      assert s[12..][1] == '/';
    }
    assert forall p' :: 10 < p' ==> !IsHostSep(s, p') by {
      assert s[11..][2] == '/' ==> s[13] == '/';
    }
    LastHostSepIs(s, 10);
    FirstSlashFromIs(s, 12, 13);
    assert s[14..] == "c";
  }

  /** So for that URL selector 1 gives "": only the last word survives the strip. */
  lemma UrlWithDoubleSlashName(isUrl: string -> bool, url: string)
    requires url == "http://h/a//b/c" && isUrl(url)
    ensures GetPathWords(isUrl, url, From(1), "_") == ""
  {
    StripHostPastDoubleSlash(url);
    assert TrimSlashes("c") == "c";
    SplitNoSlash("c");
    assert Slice(["c"], From(1)) == [];
  }

  /** "a//b/c" of slash-free words splits with an empty word between a and b. */
  lemma SplitEmptyWord(a: string, b: string, c: string)
    requires '/' !in a && '/' !in b && '/' !in c
    ensures Split(a + "//" + b + "/" + c) == [a, "", b, c]
  {
    var bc := b + "/" + c;
    assert Split(bc) == [b, c] by {
      SplitAtSlash(b, c);
      SplitNoSlash(b);
      SplitNoSlash(c);
    }
    assert Split("/" + bc) == [""] + Split(bc) by {
      assert ("/" + bc)[1..] == bc;
    }
    assert Split(a + "//" + b + "/" + c) == Split(a) + Split("/" + bc) by {
      assert a + "//" + b + "/" + c == a + "/" + ("/" + bc);
      SplitAtSlash(a, "/" + bc);
    }
    SplitNoSlash(a);
  }

  /**
   * A bare path "/a//b/c" that `isUrl` rejects keeps an empty word, and
   * selector 1 gives "_b_c".
   */
  lemma EmptyWordName(isUrl: string -> bool, path: string, a: string, b: string, c: string, name: string)
    requires a != [] && c != []
    requires '/' !in a && '/' !in b && '/' !in c
    requires path == "/" + (a + "//" + b + "/" + c) && !isUrl(path)
    requires name == "_" + b + "_" + c
    ensures GetPathWords(isUrl, path, From(1), "_") == name
  {
    var t := a + "//" + b + "/" + c;
    assert TrimSlashes(path) == t by {
      assert path[1..] == t;
      assert t[|t| - 1] == c[|c| - 1];
    }
    assert Segments(isUrl, path) == [a, "", b, c] by {
      SplitEmptyWord(a, b, c);
    }
    var kept := ["", b, c];
    assert Slice([a, "", b, c], From(1)) == kept;
    assert Join(kept, "_") == name by {
      assert kept[1..] == [b, c];
      assert [b, c][1..] == [c];
      assert Join([b, c], "_") == b + "_" + c;
      assert "" + "_" == "_";
      AppendAssoc("_", b, "_");
      AppendAssoc("_", b + "_", c);
      AppendAssoc(b, "_", c);
    }
  }

  /** "/a//b/c", which `isUrl` rejects, gives "_b_c" with selector 1. */
  lemma PathWithDoubleSlashName(isUrl: string -> bool, path: string)
    requires path == "/a//b/c" && !isUrl(path)
    ensures GetPathWords(isUrl, path, From(1), "_") == "_b_c"
  {
    assert path == "/" + ("a" + "//" + "b" + "/" + "c");
    EmptyWordName(isUrl, path, "a", "b", "c", "_b_c");
  }

  /** The segments of "/a/b/c" for non-empty, slash-free words. */
  lemma ThreeWordSegments(isUrl: string -> bool, path: string, a: string, b: string, c: string)
    requires a != [] && b != [] && c != []
    requires '/' !in a && '/' !in b && '/' !in c
    requires path == "/" + a + "/" + b + "/" + c
    ensures Segments(isUrl, path) == [a, b, c]
  {
    var ws := [a, b, c];
    assert Join(ws, "/") == a + "/" + (b + "/" + c) by {
      assert ws[1..] == [b, c];
      assert [b, c][1..] == [c];
      assert Join([c], "/") == c;
      assert Join([b, c], "/") == b + "/" + c;
    }
    assert path == "/" + Join(ws, "/");
    SegmentsOfAbsolutePath(isUrl, ws);
  }

  /** Selecting from 1 on three segments joins the last two. */
  lemma LastTwoOfThree(isUrl: string -> bool, path: string, a: string, b: string, c: string)
    requires Segments(isUrl, path) == [a, b, c]
    ensures GetPathWords(isUrl, path, From(1), "_") == b + "_" + c
  {
    assert Slice([a, b, c], From(1)) == [b, c];
    assert [b, c][1..] == [c];
    assert Join([b, c], "_") == b + "_" + Join([c], "_");
  }

  /** "/a/b/c" of non-empty, slash-free words with selector 1 gives `name`, that is "b_c". */
  lemma ThreeWordName(isUrl: string -> bool, path: string, a: string, b: string, c: string, name: string)
    requires a != [] && b != [] && c != []
    requires '/' !in a && '/' !in b && '/' !in c
    requires path == "/" + a + "/" + b + "/" + c
    requires name == b + "_" + c
    ensures GetPathWords(isUrl, path, From(1), "_") == name
  {
    ThreeWordSegments(isUrl, path, a, b, c);
    LastTwoOfThree(isUrl, path, a, b, c);
  }

  /** The documented example: '/v1/Advise/update' with 1 gives 'Advise_update'. */
  lemma DocumentedExample(isUrl: string -> bool, path: string)
    requires path == "/v1/Advise/update"
    ensures GetPathWords(isUrl, path, From(1), "_") == "Advise_update"
  {
    ThreeWordName(isUrl, path, "v1", "Advise", "update", "Advise_update");
  }

  /** A two-word path "/a/w" with 1 gives its last word. */
  lemma TwoWordName(isUrl: string -> bool, path: string, a: string, w: string)
    requires a != [] && w != []
    requires '/' !in a && '/' !in w
    requires path == "/" + a + "/" + w
    ensures GetPathWords(isUrl, path, From(1), "_") == w
  {
    var ws := [a, w];
    assert Join(ws, "/") == a + "/" + w by {
      assert ws[1..] == [w];
      assert Join([w], "/") == w;
    }
    assert path == "/" + Join(ws, "/");
    SegmentsOfAbsolutePath(isUrl, ws);
    assert Slice(ws, From(1)) == [w];
    assert Join([w], "_") == w;
  }

  /**
   * A URL "scheme//host" with nothing after the host has no host separator
   * (no '/' follows the "//"), so nothing is stripped even when `isUrl`
   * accepts it: the segments are the scheme, an empty word and the host.
   */
  lemma BareHostSegments(isUrl: string -> bool, path: string, scheme: string, host: string)
    requires scheme != [] && host != []
    requires '/' !in scheme && '/' !in host
    requires path == scheme + "/" + "/" + host
    ensures Segments(isUrl, path) == [scheme, "", host]
  {
    assert Segments(isUrl, path) == Split(path) by {
      BareHostHasNoSeparator(path, scheme, host);
      assert StripHost(path) == path;
      assert path[0] == scheme[0];
      assert path[|path| - 1] == host[|host| - 1];
      assert TrimSlashes(path) == path;
    }
    SplitBareHost(scheme, host);
  }

  /** "scheme//host" splits into the scheme, an empty word and the host. */
  lemma SplitBareHost(scheme: string, host: string)
    requires '/' !in scheme && '/' !in host
    ensures Split(scheme + "/" + "/" + host) == [scheme, "", host]
  {
    assert scheme + "/" + "/" + host == scheme + "/" + ("/" + host);
    SplitAtSlash(scheme, "/" + host);
    assert ("/" + host)[1..] == host;
    SplitNoSlash(scheme);
    SplitNoSlash(host);
  }

  /** Selector 1 on a bare "scheme//host" gives "_" followed by the host. */
  lemma BareHostUrl(isUrl: string -> bool, path: string, scheme: string, host: string, name: string)
    requires scheme != [] && host != []
    requires '/' !in scheme && '/' !in host
    requires path == scheme + "/" + "/" + host
    requires name == "_" + host
    ensures GetPathWords(isUrl, path, From(1), "_") == name
  {
    BareHostSegments(isUrl, path, scheme, host);
    var segs := [scheme, "", host];
    assert Slice(segs, From(1)) == ["", host];
    assert Join(["", host], "_") == "" + "_" + host by {
      assert ["", host][1..] == [host];
    }
  }

  /** The only "//" in "scheme//host" has no '/' after it. */
  lemma BareHostHasNoSeparator(path: string, scheme: string, host: string)
    requires '/' !in scheme && '/' !in host
    requires path == scheme + "/" + "/" + host
    ensures forall p :: !IsHostSep(path, p)
  {
    forall p | 0 <= p && p + 2 <= |path|
      ensures !IsHostSep(path, p)
    {
      if p < |scheme| {
        assert path[p] == scheme[p];
      } else if p > |scheme| {
        assert path[p + 1] == host[p - |scheme| - 1];
      } else {
        assert path[p + 2..] == host;
      }
    }
  }

  /** "https://example.com" with 1 gives "_example.com", whether or not it counts as a URL. */
  lemma BareHostExample(isUrl: string -> bool, path: string)
    requires path == "https://example.com"
    ensures GetPathWords(isUrl, path, From(1), "_") == "_example.com"
  {
    assert path == "https:" + "/" + "/" + "example.com";
    BareHostUrl(isUrl, path, "https:", "example.com", "_example.com");
  }

  /**
   * A full URL "scheme//host/w0/.../wn" of non-empty, slash-free words
   * (so with no "//" in its path) that `isUrl` accepts yields the same
   * name as the bare path "/w0/.../wn", for every selector and divider:
   * "https://example.com/api/Advise/update" and "/api/Advise/update" agree.
   */
  lemma UrlAndPathAgree(isUrl: string -> bool, scheme: string, host: string, ws: seq<string>,
                        sel: Selector, divider: string)
    requires '/' !in scheme && '/' !in host && host != []
    requires |ws| >= 1
    requires forall i :: 0 <= i < |ws| ==> ws[i] != [] && '/' !in ws[i]
    requires isUrl(scheme + "//" + host + "/" + Join(ws, "/"))
    ensures GetPathWords(isUrl, scheme + "//" + host + "/" + Join(ws, "/"), sel, divider)
         == GetPathWords(isUrl, "/" + Join(ws, "/"), sel, divider)
  {
    var rest := Join(ws, "/");
    var url := scheme + "//" + host + "/" + rest;
    assert rest[0] != '/' by {
      if |ws| == 1 {
        assert rest == ws[0] && ws[0][0] in ws[0];
      } else {
        assert rest[0] == ws[0][0] && ws[0][0] in ws[0];
      }
    }
    assert StripHost(url) == rest by {
      AbsolutePathNoDoubleSlash(ws);
      NoDoubleSlashTail("/" + rest);
      assert ("/" + rest)[1..] == rest;
      StripHostOfUrl(scheme, host, rest);
    }
    assert Segments(isUrl, url) == ws by {
      JoinLastChar(ws);
      assert TrimSlashes(rest) == rest;
      SplitJoin(ws);
    }
    assert Segments(isUrl, "/" + rest) == ws by {
      SegmentsOfAbsolutePath(isUrl, ws);
    }
  }

  /** The pair "1,2" on a four-segment path picks the second segment only. */
  lemma RangeExample(isUrl: string -> bool, path: string)
    requires path == "/a/b/c/d"
    ensures GetPathWords(isUrl, path, Range(1, 2), "_") == "b"
  {
    var ws := ["a", "b", "c", "d"];
    assert Join(ws, "/") == "a" + "/" + ("b" + "/" + ("c" + "/" + "d")) by {
      assert ws[1..] == ["b", "c", "d"];
      assert ws[1..][1..] == ["c", "d"];
      assert ws[1..][1..][1..] == ["d"];
    }
    assert path == "/" + Join(ws, "/");
    SegmentsOfAbsolutePath(isUrl, ws);
    SingleSegment(isUrl, path, 1, "_");
  }

  // ---------------------------------------------------------------------
  // Properties of reservedWord
  // ---------------------------------------------------------------------

  /** `delete` never comes out of the substitution. */
  lemma ReservedWordNeverDelete(word: string)
    ensures ReservedWord(word) != "delete"
  {
  }

  /** Applying the substitution twice is the same as applying it once. */
  lemma ReservedWordIdempotent(word: string)
    ensures ReservedWord(ReservedWord(word)) == ReservedWord(word)
  {
  }

  /** Two words collide only when they are `delete` and `del`. */
  lemma ReservedWordCollisions(a: string, b: string)
    requires a != b && ReservedWord(a) == ReservedWord(b)
    ensures {a, b} == {"delete", "del"}
  {
  }
}
