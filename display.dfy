/** `to_string`: the display name of a file, used as a graph node label. */
module Display {
  import opened Text
  import opened Paths

  /** The patterns `merge == 'module'` strips, one after another, in this
      order. */
  const ModuleSuffixes: seq<string> := [".c", ".cc", ".cxx", ".cpp", ".C", ".h", ".hpp", ".hxx"]

  /** `re.sub(r'\.ext$', '', s)`: `$` matches at the very end and also just
      before a final newline, which is then kept. The suffix ends in a letter,
      so at most one of the two places matches. */
  function StripAnchored(s: string, suffix: string): (r: string)
    ensures |r| <= |s|
    ensures EndsWith(s, suffix) ==> r + suffix == s
    ensures !EndsWith(s, suffix) && !EndsWith(s, suffix + "\n") ==> r == s
    ensures !EndsWith(s, suffix) && EndsWith(s, suffix + "\n") ==>
      r != [] && r[|r| - 1] == '\n' && r[..|r| - 1] + suffix + "\n" == s
  {
    if EndsWith(s, suffix) then s[..|s| - |suffix|]
    else if EndsWith(s, suffix + "\n") then s[..|s| - |suffix| - 1] + "\n"
    else s
  }

  function StripAll(s: string, sufs: seq<string>): (r: string)
    ensures |r| <= |s|
    decreases |sufs|
  {
    if sufs == [] then s else StripAll(StripAnchored(s, sufs[0]), sufs[1..])
  }

  /** `re.sub(r'/', '/\\n', s)`: a newline after every slash. */
  function BreakAtSlashes(s: string): (r: string)
    ensures |r| >= |s|
    ensures '/' !in s ==> r == s
  {
    if s == [] then []
    else (if s[0] == '/' then "/\n" else [s[0]]) + BreakAtSlashes(s[1..])
  }

  /** Every slash in `r` is followed by a newline. */
  predicate SlashesBroken(r: string) {
    forall i :: 0 <= i < |r| && r[i] == '/' ==> i + 1 < |r| && r[i + 1] == '\n'
  }

  /** Every slash of the label is followed by a newline. */
  lemma {:induction false} BreakAtSlashesBreaks(s: string)
    ensures SlashesBroken(BreakAtSlashes(s))
    decreases |s|
  {
    if s != [] {
      BreakAtSlashesBreaks(s[1..]);
      var r, t := BreakAtSlashes(s), BreakAtSlashes(s[1..]);
      var h := if s[0] == '/' then "/\n" else [s[0]];
      assert r == h + t;
      forall i | 0 <= i < |r| && r[i] == '/' ensures i + 1 < |r| && r[i + 1] == '\n' {
        if i >= |h| {
          var j := i - |h|;
          assert t[j] == '/';
          assert j + 1 < |t| && t[j + 1] == '\n';
          assert r[i + 1] == t[j + 1];
        } else {
          assert s[0] == '/' && i == 0;
        }
      }
    }
  }

  /** Removes the newline that follows each slash: the inverse of
      BreakAtSlashes. */
  function JoinAtSlashes(r: string): string {
    if r == [] then []
    else if |r| >= 2 && r[0] == '/' && r[1] == '\n' then "/" + JoinAtSlashes(r[2..])
    else [r[0]] + JoinAtSlashes(r[1..])
  }

  lemma {:induction false} BreakJoinRoundTrip(s: string)
    ensures JoinAtSlashes(BreakAtSlashes(s)) == s
  {
    if s != [] {
      BreakJoinRoundTrip(s[1..]);
      var r := BreakAtSlashes(s);
      if s[0] == '/' {
        assert r[2..] == BreakAtSlashes(s[1..]);
      } else {
        assert r[1..] == BreakAtSlashes(s[1..]);
      }
      assert s == [s[0]] + s[1..];
    }
  }

  /** to_string(filename), with the globals `paths` and `merge` passed in. */
  function DisplayName(paths: string, merge: string, filename: string): (r: string)
  {
    var name := if paths == "" then Basename(filename) else filename;
    var stem := if merge == "module" then StripAll(name, ModuleSuffixes) else name;
    BreakAtSlashes(stem)
  }

  /** Without `paths` the label is the basename (suffix-stripped under module
      merge): it holds no slash, so no newline is inserted. */
  lemma DisplayNameWithoutPaths(merge: string, filename: string)
    ensures var r := DisplayName("", merge, filename);
      && '/' !in r
      && |r| <= |Basename(filename)|
      && r == (if merge == "module" then StripAll(Basename(filename), ModuleSuffixes) else Basename(filename))
  {
    var name := Basename(filename);
    BasenameShape(filename);
    var stem := if merge == "module" then StripAll(name, ModuleSuffixes) else name;
    if '/' in stem {
      var i :| 0 <= i < |stem| && stem[i] == '/';
      StripAllAt(name, ModuleSuffixes, i);
      assert false;
    }
  }

  /** Every label can be turned back into the name it was made from by
      dropping the newlines inserted after slashes. */
  lemma DisplayNameRecoversStem(paths: string, merge: string, filename: string)
    ensures var name := if paths == "" then Basename(filename) else filename;
      JoinAtSlashes(DisplayName(paths, merge, filename)) ==
        (if merge == "module" then StripAll(name, ModuleSuffixes) else name)
  {
    var name := if paths == "" then Basename(filename) else filename;
    BreakJoinRoundTrip(if merge == "module" then StripAll(name, ModuleSuffixes) else name);
  }

  /** `r` is a prefix of `s`, or a prefix of `s` followed by one newline
      that stands where `s` had some other character. */
  predicate KeepsPrefix(r: string, s: string) {
    && |r| <= |s|
    && (|| r == s[..|r|]
        || (r != [] && r[|r| - 1] == '\n' && r[..|r| - 1] == s[..|r| - 1]))
  }

  /** Stripping keeps a prefix of the name, up to a kept final newline. */
  lemma {:induction false} StripAllPrefix(s: string, sufs: seq<string>)
    ensures var r := StripAll(s, sufs);
      r == s[..|r|] || (r != [] && r[|r| - 1] == '\n' && r[..|r| - 1] == s[..|r| - 1])
    decreases |sufs|
  {
    if sufs != [] {
      var t := StripAnchored(s, sufs[0]);
      StripAnchoredPrefix(s, sufs[0]);
      StripAllPrefix(t, sufs[1..]);
      KeepsPrefixTrans(StripAll(t, sufs[1..]), t, s);
    } else {
      assert s == s[..|s|];
    }
  }

  lemma StripAnchoredPrefix(s: string, suffix: string)
    ensures KeepsPrefix(StripAnchored(s, suffix), s)
  {
    var r := StripAnchored(s, suffix);
    if !EndsWith(s, suffix) && EndsWith(s, suffix + "\n") {
      assert r[..|r| - 1] == s[..|r| - 1];
    }
  }

  lemma KeepsPrefixTrans(r: string, t: string, s: string)
    requires KeepsPrefix(r, t) && KeepsPrefix(t, s)
    ensures KeepsPrefix(r, s)
  {
    var m := |r|;
    if m > 0 {
      assert t[..|t| - 1] == s[..|t| - 1];
      assert t[..m - 1] == s[..m - 1];
      if r == t[..m] && m < |t| {
        assert t[..m] == s[..m];
      }
    }
  }

  /** The same fact index by index: each kept character is the name's own or
      the kept newline. */
  lemma StripAllAt(s: string, sufs: seq<string>, i: nat)
    requires i < |StripAll(s, sufs)|
    ensures StripAll(s, sufs)[i] == s[i] || StripAll(s, sufs)[i] == '\n'
  {
    StripAllPrefix(s, sufs);
    var r := StripAll(s, sufs);
    if i < |r| - 1 {
      assert r[..|r| - 1][i] == r[i];
    }
  }

  /** A suffix pattern of the module list: a dot followed by letters. */
  predicate DottedSuffix(x: string) {
    |x| >= 2 && x[0] == '.' && '.' !in x[1..] && '\n' !in x
  }

  lemma EndsWithFirst(s: string, x: string)
    ensures EndsWith(s, x) && x != [] ==> s[|s| - |x|] == x[0]
  {
  }

  lemma StripAnchoredDotless(stem: string, e: string, suf: string)
    requires '.' !in stem && (e == [] || DottedSuffix(e)) && DottedSuffix(suf)
    ensures StripAnchored(stem + e, suf) == if e == suf then stem else stem + e
  {
    var s := stem + e;
    DotlessEnds(stem, e, suf);
    if e == suf {
      assert s[..|s| - |suf|] == stem;
    }
  }

  /** On a dot-free stem plus at most one dotted suffix, a dotted suffix
      matches at the end exactly when it is that suffix, and never just before
      a final newline. */
  lemma DotlessEnds(stem: string, e: string, suf: string)
    requires '.' !in stem && (e == [] || DottedSuffix(e)) && DottedSuffix(suf)
    ensures EndsWith(stem + e, suf) <==> e == suf
    ensures !EndsWith(stem + e, suf + "\n")
  {
    var s := stem + e;
    // the only dot in s is the one that starts e
    assert forall i :: 0 <= i < |s| && i != |stem| ==> s[i] != '.' by {
      forall i | 0 <= i < |s| && i != |stem| ensures s[i] != '.' {
        if i < |stem| {
          assert s[i] == stem[i];
        } else {
          assert s[i] == e[1..][i - |stem| - 1];
        }
      }
    }
    EndsWithFirst(s, suf);
    EndsWithFirst(s, suf + "\n");
    assert e != [] ==> s[|s| - 1] == e[|e| - 1] && e[|e| - 1] != '\n';
    assert EndsWith(s, suf) ==> e == suf by {
      if EndsWith(s, suf) {
        assert |s| - |suf| == |stem|;
        assert s[|stem|..] == e;
      }
    }
  }

  lemma {:induction false} StripAllCollapses(stem: string, e: string, sufs: seq<string>)
    requires '.' !in stem && (e == [] || DottedSuffix(e))
    requires forall i :: 0 <= i < |sufs| ==> DottedSuffix(sufs[i])
    requires e == [] || e in sufs
    ensures StripAll(stem + e, sufs) == stem
    decreases |sufs|
  {
    if sufs != [] {
      StripAnchoredDotless(stem, e, sufs[0]);
      if e == sufs[0] {
        assert stem + [] == stem;
        StripAllCollapses(stem, [], sufs[1..]);
      } else {
        StripAllCollapses(stem, e, sufs[1..]);
      }
    } else {
      assert e == [];
    }
  }

  /** Under module merge, without `paths`, a file `stem.ext` in any directory,
      for any of the eight extensions, is labelled `stem`: a source file and
      its header collapse into one node. */
  lemma ModuleMergeCollapses(dir: string, stem: string, ext: string)
    requires '/' !in stem && '.' !in stem && stem != []
    requires ext in ModuleSuffixes
    ensures DisplayName("", "module", Join(dir, stem + ext)) == stem
  {
    BasenameOfJoin(dir, stem + ext);
    ModuleSuffixesDotted();
    StripAllCollapses(stem, ext, ModuleSuffixes);
  }

  /** The stem must be dot-free: the list strips `.c` from `a.h.c` and then
      `.h` from what is left, so `a.h.c` is labelled `a`, not `a.h`. */
  lemma DottedStemLosesMore()
    ensures StripAll("a.h.c", ModuleSuffixes) == "a"
  {
    var rest := ModuleSuffixes[1..];
    assert EndsWith("a.h.c", ".c");
    assert StripAnchored("a.h.c", ".c") == "a" + ".h";
    ModuleSuffixesDotted();
    assert forall i :: 0 <= i < |rest| ==> rest[i] == ModuleSuffixes[i + 1];
    assert rest[4] == ".h";
    StripAllCollapses("a", ".h", rest);
  }

  lemma ModuleSuffixesDotted()
    ensures forall i :: 0 <= i < |ModuleSuffixes| ==> DottedSuffix(ModuleSuffixes[i])
  {
    forall i | 0 <= i < |ModuleSuffixes| ensures DottedSuffix(ModuleSuffixes[i]) {
    }
  }

  /** `foo.h` and `foo.cpp` in one directory share the label `foo`. */
  lemma HeaderAndSourceShareLabel(dir: string)
    ensures DisplayName("", "module", Join(dir, "foo" + ".h")) == "foo"
    ensures DisplayName("", "module", Join(dir, "foo" + ".cpp")) == "foo"
  {
    ModuleMergeCollapses(dir, "foo", ".h");
    ModuleMergeCollapses(dir, "foo", ".cpp");
  }
}
