/** `search_includes`: resolving an include token to a path by an ordered
    fallback search. `os.path.exists` is abstracted as membership in the set
    `existing` of paths that exist, and it is false for the empty path. */
module Resolve {
  import opened Text
  import opened Paths

  /** `os.path.exists(p)`: the empty path never exists, whatever the set
      holds. */
  predicate Exists(existing: set<string>, p: string) {
    p != "" && p in existing
  }

  /** The first candidate tried: the token joined to the directory of the
      including file, then tidied. */
  function RelativeCandidate(token: string, including: string): string {
    Tidy(Join(Dirname(including), token))
  }

  /** The candidate tried for one extra include directory. */
  function DirCandidate(dir: string, token: string): string {
    Tidy(Join(dir, token))
  }

  /** The loop over `include_paths`: the first directory, in list order,
      whose candidate exists. */
  function FirstInDirs(dirs: seq<string>, token: string, existing: set<string>): (r: Option<string>)
    ensures r.Some? ==> Exists(existing, r.value)
    ensures r.Some? ==> exists i :: 0 <= i < |dirs| && r.value == DirCandidate(dirs[i], token)
    ensures r.None? <==> forall i :: 0 <= i < |dirs| ==> !Exists(existing, DirCandidate(dirs[i], token))
    decreases |dirs|
  {
    if dirs == [] then None
    else if Exists(existing, DirCandidate(dirs[0], token)) then Some(DirCandidate(dirs[0], token))
    else
      var r := FirstInDirs(dirs[1..], token, existing);
      assert forall i :: 1 <= i < |dirs| ==> dirs[1..][i - 1] == dirs[i];
      r
  }

  /** search_includes(incl_stmt, filename) */
  function Search(token: string, including: string, dirs: seq<string>, existing: set<string>): (r: Option<string>)
    ensures r.Some? ==> r.value in existing && r.value != ""
  {
    var rel := RelativeCandidate(token, including);
    if Exists(existing, rel) then Some(rel)
    else
      match FirstInDirs(dirs, token, existing)
      case Some(p) => Some(p)
      case None => if Exists(existing, token) then Some(token) else None
  }

  /** A candidate next to the including file wins whatever the include
      directories hold. */
  lemma RelativeWins(token: string, including: string, dirs: seq<string>, existing: set<string>)
    requires Exists(existing, RelativeCandidate(token, including))
    ensures Search(token, including, dirs, existing) == Some(RelativeCandidate(token, including))
  {
  }

  /** Among the include directories the first one in list order whose
      candidate exists wins. */
  lemma {:induction false} FirstDirWins(dirs: seq<string>, token: string, existing: set<string>, k: nat)
    requires k < |dirs| && Exists(existing, DirCandidate(dirs[k], token))
    requires forall j :: 0 <= j < k ==> !Exists(existing, DirCandidate(dirs[j], token))
    ensures FirstInDirs(dirs, token, existing) == Some(DirCandidate(dirs[k], token))
    decreases k
  {
    if k > 0 {
      assert !Exists(existing, DirCandidate(dirs[0], token));
      FirstDirWins(dirs[1..], token, existing, k - 1);
    }
  }

  lemma SearchUsesFirstDir(token: string, including: string, dirs: seq<string>, existing: set<string>, k: nat)
    requires !Exists(existing, RelativeCandidate(token, including))
    requires k < |dirs| && Exists(existing, DirCandidate(dirs[k], token))
    requires forall j :: 0 <= j < k ==> !Exists(existing, DirCandidate(dirs[j], token))
    ensures Search(token, including, dirs, existing) == Some(DirCandidate(dirs[k], token))
  {
    FirstDirWins(dirs, token, existing, k);
  }

  /** The search fails exactly when no candidate exists: not the one next to
      the including file, none under an include directory, and not the raw
      token itself. */
  lemma SearchFailsIff(token: string, including: string, dirs: seq<string>, existing: set<string>)
    ensures Search(token, including, dirs, existing).None? <==>
      && !Exists(existing, RelativeCandidate(token, including))
      && (forall i :: 0 <= i < |dirs| ==> !Exists(existing, DirCandidate(dirs[i], token)))
      && !Exists(existing, token)
  {
  }

  /** What the search returns is one of the candidates, tried in order. */
  lemma SearchResultIsCandidate(token: string, including: string, dirs: seq<string>, existing: set<string>)
    requires Search(token, including, dirs, existing).Some?
    ensures var p := Search(token, including, dirs, existing).value;
      || p == RelativeCandidate(token, including)
      || (exists i :: 0 <= i < |dirs| && p == DirCandidate(dirs[i], token))
      || p == token
  {
  }

  /** An empty candidate is passed over: `a/../` tidies to the empty path,
      which does not exist even when the set lists it, so the search goes on
      to the include directory (whose candidate `inc/../` is empty too) and
      then to the raw token. */
  lemma EmptyCandidateSkipped(existing: set<string>)
    requires "../" in existing
    ensures RelativeCandidate("../", "a/x.c") == ""
    ensures Search("../", "a/x.c", ["inc"], existing) == Some("../")
  {
    JoinedParentIsEmpty("a");
    JoinedParentIsEmpty("inc");
    SampleDirname();
    var rel := RelativeCandidate("../", "a/x.c");
    assert rel == "" && !Exists(existing, rel);
    var dirs := ["inc"];
    assert DirCandidate(dirs[0], "../") == "" && dirs[1..] == [];
    assert FirstInDirs(dirs, "../", existing) == None;
    assert Exists(existing, "../");
  }

  /** A slash-free directory joined with `../` tidies to the empty path. */
  lemma JoinedParentIsEmpty(dir: string)
    requires dir != [] && '/' !in dir
    ensures Tidy(Join(dir, "../")) == ""
  {
    assert dir[|dir| - 1] in dir;
    assert !StartsWith("../", "/") && !EndsWith(dir, "/");
    assert Join(dir, "../") == dir + "/" + "../";
    assert dir + "/" + "../" == dir + "/../" + [];
    TidyCollapsesSegment(dir, []);
  }

  lemma SampleDirname()
    ensures Dirname("a/x.c") == "a"
  {
    assert "x.c"[..1][0] == 'x' && "a"[0..][0] == 'a';
    assert !StartsWith("x.c", "/") && !EndsWith("a", "/");
    assert Join("a", "x.c") == "a/x.c";
    DirnameOfJoin("a", "x.c");
  }
}
