/** The POSIX path operations the tool relies on (`os.path.basename`,
    `dirname` and `join` on strings, with `normcase` the identity) and
    `tidy_path`, the single regular-expression pass that removes
    `segment/../` pieces. */
module Paths {
  import opened Text

  /** `p.rfind('/')`: the index of the last slash, or -1. */
  function LastSlash(p: string): (i: int)
    ensures -1 <= i < |p|
    ensures i >= 0 ==> p[i] == '/'
    ensures forall j :: i < j < |p| ==> p[j] != '/'
    decreases |p|
  {
    if p == [] then -1
    else if p[|p| - 1] == '/' then |p| - 1
    else LastSlash(p[..|p| - 1])
  }

  /** `os.path.basename`: everything after the last slash. */
  function Basename(p: string): string {
    p[LastSlash(p) + 1..]
  }

  /** The basename is the part of the path after its last slash: a suffix
      holding no slash, and the whole path when there is no slash. */
  lemma BasenameShape(p: string)
    ensures var b := Basename(p);
      && '/' !in b && EndsWith(p, b)
      && ('/' !in p ==> b == p)
      && (b != p ==> p[|p| - |b| - 1] == '/')
  {
  }

  predicate AllSlashes(s: string) {
    forall i :: 0 <= i < |s| ==> s[i] == '/'
  }

  /** `os.path.dirname`: everything up to the last slash, with trailing
      slashes removed unless the head consists of slashes only. */
  function Dirname(p: string): string {
    var head := p[..LastSlash(p) + 1];
    if head != [] && !AllSlashes(head) then TrimTrailing(head, '/') else head
  }

  /** The directory part is a prefix of the path, empty when the path has no
      slash, and it ends in a slash only when it consists of slashes. */
  lemma DirnameShape(p: string)
    ensures var d := Dirname(p);
      && StartsWith(p, d)
      && ('/' !in p ==> d == [])
      && (d != [] && d[|d| - 1] == '/' ==> AllSlashes(d))
  {
  }

  /** When the path has a slash, it is the directory part, then a run of
      slashes, then the basename; the run is empty exactly when the
      directory part itself consists of slashes (`//a` keeps `//`). */
  lemma DirnameSplit(p: string)
    requires '/' in p
    ensures var d, b := Dirname(p), Basename(p);
      && d != [] && |d| + |b| <= |p|
      && p == d + p[|d|..|p| - |b|] + b
      && AllSlashes(p[|d|..|p| - |b|])
      && (|d| + |b| == |p| <==> AllSlashes(d))
  {
    var i := LastSlash(p);
    var k :| 0 <= k < |p| && p[k] == '/';
    assert i >= k;
    var head, b := p[..i + 1], p[i + 1..];
    assert p == head + b;
    if !AllSlashes(head) {
      TrimmedHead(head, TrimTrailing(head, '/'));
    }
  }

  /** Trimming the trailing slashes of a head that ends in a slash and is not
      all slashes leaves a non-empty part that is not all slashes, followed by
      slashes only. */
  lemma TrimmedHead(head: string, d: string)
    requires head != [] && head[|head| - 1] == '/' && !AllSlashes(head)
    requires |d| <= |head| && d == head[..|d|] && (d == [] || d[|d| - 1] != '/')
    requires forall i :: |d| <= i < |head| ==> head[i] == '/'
    ensures 0 < |d| < |head| && head == d + head[|d|..]
    ensures AllSlashes(head[|d|..]) && !AllSlashes(d)
  {
    var m :| 0 <= m < |head| && head[m] != '/';
    assert m < |d|;
    assert d[|d| - 1] == head[|d| - 1];
    var tail := head[|d|..];
    forall i | 0 <= i < |tail| ensures tail[i] == '/' {
      assert tail[i] == head[|d| + i];
    }
  }

  /** `os.path.join(a, b)` for two components. */
  function Join(a: string, b: string): string {
    if StartsWith(b, "/") then b
    else if a == [] || EndsWith(a, "/") then a + b
    else a + "/" + b
  }

  /** A join ends with its second component; an absolute second component
      replaces the first, and otherwise the first is kept as a prefix. */
  lemma JoinShape(a: string, b: string)
    ensures var r := Join(a, b);
      && EndsWith(r, b)
      && (StartsWith(b, "/") ==> r == b)
      && (!StartsWith(b, "/") ==> StartsWith(r, a))
    ensures !StartsWith(b, "/") && (a == [] || EndsWith(a, "/")) ==> Join(a, b) == a + b
    ensures !StartsWith(b, "/") && a != [] && !EndsWith(a, "/") ==> Join(a, b) == a + "/" + b
  {
    var r := Join(a, b);
    if !StartsWith(b, "/") {
      assert r[..|a|] == a;
    }
  }

  lemma BasenameOfJoin(dir: string, name: string)
    requires '/' !in name && name != []
    ensures Basename(Join(dir, name)) == name
  {
    var p := Join(dir, name);
    JoinShape(dir, name);
    var k := |p| - |name|;
    assert p[k..] == name;
    assert forall j :: k <= j < |p| ==> p[j] == name[j - k];
    if k > 0 {
      assert p[k - 1] == '/';
    }
    assert LastSlash(p) == k - 1;
  }

  lemma DirnameOfJoin(dir: string, name: string)
    requires '/' !in name && name != []
    requires dir != [] && dir[|dir| - 1] != '/'
    ensures Dirname(Join(dir, name)) == dir
  {
    var p := Join(dir, name);
    assert !StartsWith(name, "/") by { assert name[0] != '/'; }
    assert p == dir + "/" + name;
    assert forall j :: |dir| < j < |p| ==> p[j] == name[j - |dir| - 1];
    assert p[|dir|] == '/';
    assert LastSlash(p) == |dir|;
    var head := p[..|dir| + 1];
    assert head == dir + "/";
    assert head[|dir| - 1] == dir[|dir| - 1];
    assert TrimTrailing(head, '/') == TrimTrailing(dir, '/');
  }

  // ---------------------------------------------------------------------------
  // tidy_path: re.sub(r'[^/]+?/\.\./', '', path), scanned left to right

  /** Length of the leading run of non-slash characters. */
  function SegmentLength(p: string): (n: nat)
    ensures n <= |p|
    ensures forall i :: 0 <= i < n ==> p[i] != '/'
    ensures n < |p| ==> p[n] == '/'
    decreases |p|
  {
    if p == [] || p[0] == '/' then 0 else 1 + SegmentLength(p[1..])
  }

  /** The pattern matches at the start of `p`: a non-empty run of non-slash
      characters (the lazy `+?` still has to reach the first slash) followed
      by `/../`. */
  predicate CollapsesHere(p: string) {
    var n := SegmentLength(p);
    n > 0 && ParentRefAt(p, n)
  }

  /** The substitution pass: where the pattern matches, the match is dropped
      and scanning resumes after it; elsewhere one character is kept and
      scanning resumes at the next one. The pass is not repeated. */
  function Tidy(p: string): (r: string)
    ensures |r| <= |p|
    decreases |p|
  {
    if p == [] then []
    else if CollapsesHere(p) then Tidy(p[SegmentLength(p) + 4..])
    else [p[0]] + Tidy(p[1..])
  }

  /** `/../` starts at index `i` of `p`. */
  predicate ParentRefAt(p: string, i: nat) {
    i + 4 <= |p| && p[i] == '/' && p[i + 1] == '.' && p[i + 2] == '.' && p[i + 3] == '/'
  }

  /** `/../` starts at index `i` of `p` and follows a non-slash character,
      so the pattern can match a segment ending just before it. */
  predicate CollapsibleAt(p: string, i: nat) {
    1 <= i && ParentRefAt(p, i) && p[i - 1] != '/'
  }

  ghost predicate HasCollapsible(p: string) {
    exists i: nat :: CollapsibleAt(p, i)
  }

  lemma CollapsibleAtOne(p: string)
    ensures CollapsibleAt(p, 1) ==> CollapsesHere(p)
  {
    if CollapsibleAt(p, 1) {
      assert SegmentLength(p[1..]) == 0;
    }
  }

  lemma CollapsibleShift(p: string)
    requires p != [] && !CollapsesHere(p)
    ensures HasCollapsible(p) <==> HasCollapsible(p[1..])
  {
    var q := p[1..];
    CollapsibleAtOne(p);
    assert forall i: nat :: 2 <= i ==> (CollapsibleAt(p, i) <==> CollapsibleAt(q, i - 1)) by {
      forall i: nat | 2 <= i
        ensures CollapsibleAt(p, i) <==> CollapsibleAt(q, i - 1)
      {
        if i + 4 <= |p| {
          assert q[i - 1..i + 3] == p[i..i + 4];
        }
        if i - 1 < |q| {
          assert q[i - 2] == p[i - 1];
        }
      }
    }
    if HasCollapsible(p) {
      var i: nat :| CollapsibleAt(p, i);
      assert CollapsibleAt(q, i - 1);
    }
    if HasCollapsible(q) {
      var i: nat :| CollapsibleAt(q, i);
      assert CollapsibleAt(p, i + 1);
    }
  }

  /** tidy_path leaves a path unchanged exactly when no `/../` in it follows a
      non-slash character; otherwise it strictly shortens it. */
  lemma {:induction false} TidyUnchangedIff(p: string)
    ensures Tidy(p) == p <==> !HasCollapsible(p)
    ensures HasCollapsible(p) ==> |Tidy(p)| < |p|
    decreases |p|
  {
    if p == [] {
    } else if CollapsesHere(p) {
      var n := SegmentLength(p);
      assert CollapsibleAt(p, n);
    } else {
      TidyUnchangedIff(p[1..]);
      CollapsibleShift(p);
      assert p == [p[0]] + p[1..];
    }
  }

  /** In particular a path without any `/../` comes back unchanged. */
  lemma TidyWithoutParentRefs(p: string)
    requires forall i: nat :: !ParentRefAt(p, i)
    ensures Tidy(p) == p
  {
    TidyUnchangedIff(p);
  }

  /** A path of at most four characters has no room for a segment followed
      by `/../`, so tidy_path keeps it as it is. */
  lemma {:induction false} TidyShort(p: string)
    requires |p| <= 4
    ensures Tidy(p) == p
    decreases |p|
  {
    if p != [] {
      TidyShort(p[1..]);
      assert p == [p[0]] + p[1..];
    }
  }

  /** One pass only: in `a/b/../../c` (any one-character names, `b` may be a
      dot) the inner `b/../` goes, and the `a/../` that this exposes is not
      collapsed again. */
  lemma TidySinglePass(a: char, b: char, c: char)
    requires a != '/' && b != '/'
    ensures Tidy([a, '/', b, '/', '.', '.', '/', '.', '.', '/', c]) == [a, '/', '.', '.', '/', c]
  {
    var q := ['.', '.', '/', c];
    var inner := [b] + "/../" + q;
    TidyCollapsesSegment([b], q);
    TidyShort(q);
    TidyKeepsFirst('/', inner);
    TidyKeepsFirst(a, ['/'] + inner);
    SinglePassPieces(a, b, c);
  }

  lemma SinglePassPieces(a: char, b: char, c: char)
    ensures [a, '/', b, '/', '.', '.', '/', '.', '.', '/', c] == [a] + (['/'] + ([b] + "/../" + ['.', '.', '/', c]))
    ensures [a] + (['/'] + ['.', '.', '/', c]) == [a, '/', '.', '.', '/', c]
  {
  }

  /** Where no match can start at the first character, it is kept: the
      character is a slash, or a slash follows it that does not open
      `/../`. */
  lemma TidyKeepsFirst(x: char, rest: string)
    requires x == '/' || (rest != [] && rest[0] == '/' && !ParentRefAt(rest, 0))
    ensures Tidy([x] + rest) == [x] + Tidy(rest)
  {
    var p := [x] + rest;
    assert p[1..] == rest;
    if x != '/' {
      assert SegmentLength(rest) == 0;
    }
  }

  /** Any leading segment followed by `/../` is dropped, a `..` segment
      included: `../../x` becomes `x`. */
  lemma TidyCollapsesSegment(seg: string, rest: string)
    requires seg != [] && '/' !in seg
    ensures Tidy(seg + "/../" + rest) == Tidy(rest)
  {
    var tail := "/../" + rest;
    var p := seg + tail;
    assert seg + "/../" + rest == p;
    SegmentLengthBefore(seg, tail);
    var n := |seg|;
    assert p[n] == '/' && p[n + 1] == '.' && p[n + 2] == '.' && p[n + 3] == '/';
    assert CollapsesHere(p);
    assert p[n + 4..] == rest;
    TidyCollapses(p);
  }

  lemma TidyCollapses(p: string)
    requires CollapsesHere(p)
    ensures Tidy(p) == Tidy(p[SegmentLength(p) + 4..])
  {
  }

  lemma {:induction false} SegmentLengthBefore(seg: string, tail: string)
    requires '/' !in seg && tail != [] && tail[0] == '/'
    ensures SegmentLength(seg + tail) == |seg|
    decreases |seg|
  {
    if seg != [] {
      SegmentLengthBefore(seg[1..], tail);
      assert (seg + tail)[1..] == seg[1..] + tail;
    } else {
      assert seg + tail == tail;
    }
  }
}
