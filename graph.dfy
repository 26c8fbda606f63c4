/** `do_it`: the walk over the source tree, the per-line classification of
    include directives, the `links` and `notfound` tallies, and the lines the
    program writes at the end. The file system is passed in: the walk as a
    sequence of directories with their file names, the existing paths as a
    set and the readable files as a map from path to lines. */
module IncludeGraph {
  import opened Text
  import opened Paths
  import opened Resolve
  import opened Display
  import opened Recognise

  /** The module-level settings `do_it` reads. `paths` is used as a
      truth value (the empty string is false); `merge` and `quoteTypes` are
      compared against fixed strings. */
  datatype Config = Config(
    includePaths: seq<string>,
    exclude: string,
    merge: string,
    paths: string,
    quoteTypes: string)

  /** One step of `os.walk`: a directory path and the file names in it. */
  datatype WalkEntry = WalkEntry(dir: string, names: seq<string>)

  // ---------------------------------------------------------------------------
  // Collecting the files

  /** The names of `names` that `keep` accepts, each joined to `dir`, in
      name order. */
  function Filtered(dir: string, names: seq<string>, keep: string -> bool): seq<string>
    decreases |names|
  {
    if names == [] then []
    else
      var last := names[|names| - 1];
      Filtered(dir, names[..|names| - 1], keep) + (if keep(last) then [Join(dir, last)] else [])
  }

  /** The filtered paths of every walk entry, entry by entry in walk order. */
  function Flattened(walk: seq<WalkEntry>, keep: string -> bool): seq<string>
    decreases |walk|
  {
    if walk == [] then []
    else
      var last := walk[|walk| - 1];
      Flattened(walk[..|walk| - 1], keep) + Filtered(last.dir, last.names, keep)
  }

  /** The whole `files` list: the C/C++ source names of every walked
      directory, joined to the directory, in walk order and name order. */
  function Collected(walk: seq<WalkEntry>): seq<string> {
    Flattened(walk, IsSourceName)
  }

  lemma FilteredSnoc(dir: string, names: seq<string>, keep: string -> bool, j: nat)
    requires j < |names|
    ensures Filtered(dir, names[..j + 1], keep) ==
      Filtered(dir, names[..j], keep) + (if keep(names[j]) then [Join(dir, names[j])] else [])
  {
    assert names[..j + 1][..j] == names[..j];
  }

  lemma FlattenedSnoc(walk: seq<WalkEntry>, keep: string -> bool, i: nat)
    requires i < |walk|
    ensures Flattened(walk[..i + 1], keep) == Flattened(walk[..i], keep) + Filtered(walk[i].dir, walk[i].names, keep)
  {
    assert walk[..i + 1][..i] == walk[..i];
  }

  /** The inner loop over the file names of one walked directory: each
      C/C++ source name is appended, joined to the directory. */
  method AppendSourceNames(files0: seq<string>, dirpath: string, names: seq<string>) returns (files: seq<string>)
    ensures files == files0 + Filtered(dirpath, names, IsSourceName)
  {
    files := files0;
    assert files0 + Filtered(dirpath, names[..0], IsSourceName) == files0 by {
      assert names[..0] == [];
    }
    for j := 0 to |names|
      invariant files == files0 + Filtered(dirpath, names[..j], IsSourceName)
    {
      FilteredSnoc(dirpath, names, IsSourceName, j);
      if IsSourceName(names[j]) {
        files := files + [Join(dirpath, names[j])];
      }
    }
    assert names[..|names|] == names;
  }

  /** The loop over `os.walk(src)` that builds `files`. */
  method CollectFiles(walk: seq<WalkEntry>) returns (files: seq<string>)
    ensures files == Collected(walk)
  {
    files := [];
    for i := 0 to |walk|
      invariant files == Flattened(walk[..i], IsSourceName)
    {
      FlattenedSnoc(walk, IsSourceName, i);
      files := AppendSourceNames(files, walk[i].dir, walk[i].names);
    }
    assert walk[..|walk|] == walk;
  }

  /** `p` is what the inner loop appends for name `j`. */
  predicate KeptAt(dir: string, names: seq<string>, keep: string -> bool, j: int, p: string) {
    0 <= j < |names| && keep(names[j]) && p == Join(dir, names[j])
  }

  lemma FilteredIff(dir: string, names: seq<string>, keep: string -> bool, p: string)
    ensures p in Filtered(dir, names, keep) <==> exists j :: KeptAt(dir, names, keep, j, p)
  {
    if p in Filtered(dir, names, keep) {
      var j := FilteredSound(dir, names, keep, p);
    }
    if exists j :: KeptAt(dir, names, keep, j, p) {
      var j :| KeptAt(dir, names, keep, j, p);
      FilteredComplete(dir, names, keep, j, p);
    }
  }

  /** Every collected path comes from some accepted name ... */
  lemma {:induction false} FilteredSound(dir: string, names: seq<string>, keep: string -> bool, p: string) returns (j: int)
    requires p in Filtered(dir, names, keep)
    ensures KeptAt(dir, names, keep, j, p)
    decreases |names|
  {
    var n := |names| - 1;
    var init := names[..n];
    if p in Filtered(dir, init, keep) {
      j := FilteredSound(dir, init, keep, p);
    } else {
      j := n;
    }
  }

  /** ... and every accepted name contributes its path. */
  lemma {:induction false} FilteredComplete(dir: string, names: seq<string>, keep: string -> bool, j: int, p: string)
    requires KeptAt(dir, names, keep, j, p)
    ensures p in Filtered(dir, names, keep)
    decreases |names|
  {
    var n := |names| - 1;
    if j < n {
      FilteredComplete(dir, names[..n], keep, j, p);
    }
  }

  lemma {:induction false} FlattenedIff(walk: seq<WalkEntry>, keep: string -> bool, p: string)
    ensures p in Flattened(walk, keep) <==> exists i :: 0 <= i < |walk| && p in Filtered(walk[i].dir, walk[i].names, keep)
    decreases |walk|
  {
    if walk != [] {
      var init := walk[..|walk| - 1];
      FlattenedIff(init, keep, p);
      assert forall i :: 0 <= i < |init| ==> init[i] == walk[i];
    }
  }

  /** `p` is what the loops append for name `j` of walk entry `i`. */
  predicate CollectedAt(walk: seq<WalkEntry>, i: int, j: int, p: string) {
    0 <= i < |walk| && 0 <= j < |walk[i].names| && IsSourceName(walk[i].names[j])
    && p == Join(walk[i].dir, walk[i].names[j])
  }

  /** A path is in `files` exactly when some walked directory holds a file
      name the source-name pattern accepts and the path is that directory
      joined with the name. */
  lemma CollectedIff(walk: seq<WalkEntry>, p: string)
    ensures p in Collected(walk) <==> exists i, j :: CollectedAt(walk, i, j, p)
  {
    FlattenedIff(walk, IsSourceName, p);
    if p in Collected(walk) {
      var i :| 0 <= i < |walk| && p in Filtered(walk[i].dir, walk[i].names, IsSourceName);
      FilteredIff(walk[i].dir, walk[i].names, IsSourceName, p);
      var j :| KeptAt(walk[i].dir, walk[i].names, IsSourceName, j, p);
      assert CollectedAt(walk, i, j, p);
    }
    if exists i, j :: CollectedAt(walk, i, j, p) {
      var i, j :| CollectedAt(walk, i, j, p);
      FilteredIff(walk[i].dir, walk[i].names, IsSourceName, p);
      assert KeptAt(walk[i].dir, walk[i].names, IsSourceName, j, p);
    }
  }

  // ---------------------------------------------------------------------------
  // What one line contributes

  /** The effect of one line of an opened file on the two tallies. */
  datatype LineEffect =
    | NotInclude
    | Unresolved(message: string)
    | SelfEdge
    | Edge(key: string, from: string, to: string)

  /** `DOT_EDGE_DEFINITION % (a, b)`. */
  function EdgeKey(a: string, b: string): string {
    "    \"" + a + "\" -> \"" + b + "\""
  }

  /** An edge is recorded under the key formatted from its two endpoints, and
      the endpoints differ. */
  predicate WellFormed(e: LineEffect) {
    e.Edge? ==> e.from != e.to && e.key == EdgeKey(e.from, e.to)
  }

  /** The pattern `do_it` compiles once for the whole run. */
  function IncludePattern(cfg: Config): Pattern {
    PatternFor(cfg.quoteTypes)
  }

  /** The path the include token of `line` resolves to, when the line is an
      include directive and `search_includes` returns a non-empty path. */
  function Target(cfg: Config, existing: set<string>, file: string, line: string): (r: Option<string>)
    ensures r.Some? ==> r.value in existing && r.value != ""
    ensures r.Some? ==> IncludeMatch(line, IncludePattern(cfg)).Some?
  {
    match IncludeMatch(line, IncludePattern(cfg))
    case None => None
    case Some(included) =>
      match Search(RawToken(included), file, cfg.includePaths, existing)
      case None => None
      case Some(p) => if p == "" then None else Some(p)
  }

  /** The two names an edge from `file` to `target` joins: the directories
      under `merge == 'directory'`, the display names otherwise. */
  function Endpoints(cfg: Config, file: string, target: string): (string, string) {
    if cfg.merge == "directory" then (Dirname(file), Dirname(target))
    else (DisplayName(cfg.paths, cfg.merge, file), DisplayName(cfg.paths, cfg.merge, target))
  }

  /** The body of the loop over the lines of `file`. */
  function Classify(cfg: Config, existing: set<string>, file: string, line: string): (e: LineEffect)
    ensures WellFormed(e)
    ensures e.NotInclude? <==> IncludeMatch(line, IncludePattern(cfg)).None?
    ensures e.Unresolved? <==> IncludeMatch(line, IncludePattern(cfg)).Some? && Target(cfg, existing, file, line).None?
    ensures e.Unresolved? ==> e.message == IncludeMatch(line, IncludePattern(cfg)).value + " from " + file
    ensures e.Edge? || e.SelfEdge? <==> Target(cfg, existing, file, line).Some?
    ensures e.Edge? ==> (e.from, e.to) == Endpoints(cfg, file, Target(cfg, existing, file, line).value)
    ensures e.SelfEdge? ==> var ends := Endpoints(cfg, file, Target(cfg, existing, file, line).value); ends.0 == ends.1
  {
    match IncludeMatch(line, IncludePattern(cfg))
    case None => NotInclude
    case Some(included) =>
      match Target(cfg, existing, file, line)
      case None => Unresolved(included + " from " + file)
      case Some(p) =>
        var (origin, to) := Endpoints(cfg, file, p);
        if origin != to then Edge(EdgeKey(origin, to), origin, to) else SelfEdge
  }

  /** The effects of the lines of one opened file, in line order. */
  function LineEffects(cfg: Config, existing: set<string>, file: string, lines: seq<string>): (es: seq<LineEffect>)
    ensures |es| == |lines|
    ensures forall i :: 0 <= i < |es| ==> WellFormed(es[i])
    decreases |lines|
  {
    if lines == [] then []
    else
      var init := LineEffects(cfg, existing, file, lines[..|lines| - 1]);
      init + [Classify(cfg, existing, file, lines[|lines| - 1])]
  }

  lemma LineEffectsSnoc(cfg: Config, existing: set<string>, file: string, lines: seq<string>, j: nat)
    requires j < |lines|
    ensures LineEffects(cfg, existing, file, lines[..j + 1]) ==
      LineEffects(cfg, existing, file, lines[..j]) + [Classify(cfg, existing, file, lines[j])]
  {
    assert lines[..j + 1][..j] == lines[..j];
  }

  /** One iteration of the loop over `files`: an excluded file, or one that
      cannot be opened, contributes nothing; otherwise every line of the path
      after cleanup contributes its effect. */
  function FileEffects(cfg: Config, existing: set<string>, contents: map<string, seq<string>>, file: string): seq<LineEffect> {
    if Excluded(cfg.exclude, file) then []
    else
      var f := CleanPath(file);
      if f in contents then LineEffects(cfg, existing, f, contents[f]) else []
  }

  /** All effects of the loop over `files`, in order. */
  function RunEffects(cfg: Config, existing: set<string>, contents: map<string, seq<string>>, files: seq<string>): (es: seq<LineEffect>)
    ensures forall i :: 0 <= i < |es| ==> WellFormed(es[i])
    decreases |files|
  {
    if files == [] then []
    else
      var init := RunEffects(cfg, existing, contents, files[..|files| - 1]);
      init + FileEffects(cfg, existing, contents, files[|files| - 1])
  }

  // ---------------------------------------------------------------------------
  // The tallies a sequence of effects produces

  /** `links[edge] += 1` when the key is present, `links[edge] = 1`
      otherwise. */
  function Bump(links: map<string, nat>, key: string): map<string, nat> {
    if key in links then links[key := links[key] + 1] else links[key := 1]
  }

  /** The `links` dictionary after a run of effects, built as the loop builds
      it. */
  function Counted(es: seq<LineEffect>): map<string, nat>
    decreases |es|
  {
    if es == [] then map[]
    else
      var last := es[|es| - 1];
      var prev := Counted(es[..|es| - 1]);
      if last.Edge? then Bump(prev, last.key) else prev
  }

  /** The key set of the `notfound` dictionary. */
  function Messages(es: seq<LineEffect>): set<string> {
    set i | 0 <= i < |es| && es[i].Unresolved? :: es[i].message
  }

  /** How many effects record an edge under `key`. */
  function Occ(es: seq<LineEffect>, key: string): nat
    decreases |es|
  {
    if es == [] then 0
    else
      var last := es[|es| - 1];
      Occ(es[..|es| - 1], key) + (if last.Edge? && last.key == key then 1 else 0)
  }

  /** The keys some effect records. */
  function EdgeKeys(es: seq<LineEffect>): set<string> {
    set i | 0 <= i < |es| && es[i].Edge? :: es[i].key
  }

  /** The count stored under `key`, zero when it is absent. */
  function CountOf(links: map<string, nat>, key: string): nat {
    if key in links then links[key] else 0
  }

  /** A bump adds one to the count of its key and changes nothing else. */
  lemma BumpCounts(links: map<string, nat>, key: string)
    ensures var r := Bump(links, key);
      && CountOf(r, key) == CountOf(links, key) + 1
      && (forall k :: k != key ==> CountOf(r, k) == CountOf(links, k))
      && r.Keys == links.Keys + {key}
  {
  }

  lemma {:induction false} OccPositiveIff(es: seq<LineEffect>, key: string)
    ensures Occ(es, key) > 0 <==> key in EdgeKeys(es)
    decreases |es|
  {
    if es != [] {
      var init := es[..|es| - 1];
      OccPositiveIff(init, key);
      assert forall i :: 0 <= i < |init| ==> init[i] == es[i];
      if key in EdgeKeys(es) && key !in EdgeKeys(init) {
        var i :| 0 <= i < |es| && es[i].Edge? && es[i].key == key;
        assert i == |es| - 1;
      }
    }
  }

  /** The dictionary agrees with a direct count: each key maps to the number
      of edge effects recorded under it, and absent keys were never
      recorded. */
  lemma {:induction false} CountedIsOccurrenceCount(es: seq<LineEffect>)
    ensures forall k :: CountOf(Counted(es), k) == Occ(es, k)
    decreases |es|
  {
    if es != [] {
      CountedIsOccurrenceCount(es[..|es| - 1]);
    }
  }

  /** The keys of `links` are exactly the keys some effect recorded. */
  lemma CountedKeys(es: seq<LineEffect>)
    ensures forall k :: k in Counted(es) <==> k in EdgeKeys(es)
  {
    CountedIsOccurrenceCount(es);
    forall k ensures k in Counted(es) <==> k in EdgeKeys(es) {
      OccPositiveIff(es, k);
      assert k in Counted(es) ==> Counted(es)[k] == Occ(es, k);
    }
  }

  lemma MessagesSnoc(es: seq<LineEffect>, e: LineEffect)
    ensures Messages(es + [e]) == Messages(es) + (if e.Unresolved? then {e.message} else {})
  {
    var es' := es + [e];
    forall m | m in Messages(es') ensures m in Messages(es) + (if e.Unresolved? then {e.message} else {}) {
      var i :| 0 <= i < |es'| && es'[i].Unresolved? && es'[i].message == m;
      if i < |es| { assert es[i] == es'[i]; }
    }
    forall m | m in Messages(es) ensures m in Messages(es') {
      var i :| 0 <= i < |es| && es[i].Unresolved? && es[i].message == m;
      assert es'[i] == es[i];
    }
    if e.Unresolved? { assert es'[|es|] == e; }
  }

  /** Appending one effect to the run: an edge bumps its key; an unresolved
      include adds its message; nothing else changes either tally. */
  lemma TallyStep(es: seq<LineEffect>, e: LineEffect)
    ensures Counted(es + [e]) == if e.Edge? then Bump(Counted(es), e.key) else Counted(es)
    ensures Messages(es + [e]) == if e.Unresolved? then Messages(es) + {e.message} else Messages(es)
  {
    assert (es + [e])[..|es|] == es;
    MessagesSnoc(es, e);
  }

  /** Each line changes `links` by adding one to exactly one key (an edge) or
      not at all (anything else); an unresolved include touches only
      `notfound`. */
  lemma LineChangesAtMostOneCount(es: seq<LineEffect>, e: LineEffect)
    ensures forall k ::
      CountOf(Counted(es + [e]), k) == CountOf(Counted(es), k) + (if e.Edge? && e.key == k then 1 else 0)
    ensures e.Unresolved? ==> Counted(es + [e]) == Counted(es) && Messages(es + [e]) == Messages(es) + {e.message}
    ensures !e.Unresolved? ==> Messages(es + [e]) == Messages(es)
  {
    TallyStep(es, e);
  }

  /** Every stored count is at least one. */
  lemma CountsPositive(es: seq<LineEffect>)
    ensures forall k :: k in Counted(es) ==> Counted(es)[k] >= 1
  {
    CountedIsOccurrenceCount(es);
    forall k | k in Counted(es) ensures Counted(es)[k] >= 1 {
      OccPositiveIff(es, k);
      assert CountOf(Counted(es), k) == Occ(es, k);
    }
  }

  /** Every key in `links` was recorded from two different endpoints: no
      self-edge is ever stored. */
  lemma KeysHaveDistinctEndpoints(cfg: Config, existing: set<string>, contents: map<string, seq<string>>, files: seq<string>)
    ensures var es := RunEffects(cfg, existing, contents, files);
      forall k :: k in Counted(es) ==>
        exists i :: 0 <= i < |es| && es[i].Edge? && es[i].key == k && es[i].from != es[i].to && k == EdgeKey(es[i].from, es[i].to)
  {
    CountedKeys(RunEffects(cfg, existing, contents, files));
  }

  // ---------------------------------------------------------------------------
  // The accumulation loop

  /** The dictionary updates for one line: `notfound[message] = 1` for an
      unresolved include, the has_key test and increment or first insertion
      for an edge. */
  method Record(links0: map<string, nat>, notFound0: set<string>, effect: LineEffect)
    returns (links: map<string, nat>, notFound: set<string>)
    ensures links == if effect.Edge? then Bump(links0, effect.key) else links0
    ensures notFound == if effect.Unresolved? then notFound0 + {effect.message} else notFound0
  {
    links, notFound := links0, notFound0;
    match effect {
      case Unresolved(message) =>
        notFound := notFound + {message};
      case Edge(edge, _, _) =>
        if edge in links {
          links := links[edge := links[edge] + 1];
        } else {
          links := links[edge := 1];
        }
      case _ =>
    }
  }

  lemma TallyNextLine(cfg: Config, existing: set<string>, file: string, lines: seq<string>, j: nat, before: seq<LineEffect>)
    requires j < |lines|
    ensures var done := before + LineEffects(cfg, existing, file, lines[..j]);
      var e := Classify(cfg, existing, file, lines[j]);
      var next := before + LineEffects(cfg, existing, file, lines[..j + 1]);
      && Counted(next) == (if e.Edge? then Bump(Counted(done), e.key) else Counted(done))
      && Messages(next) == (if e.Unresolved? then Messages(done) + {e.message} else Messages(done))
  {
    var done := before + LineEffects(cfg, existing, file, lines[..j]);
    var e := Classify(cfg, existing, file, lines[j]);
    LineEffectsSnoc(cfg, existing, file, lines, j);
    assert done + [e] == before + LineEffects(cfg, existing, file, lines[..j + 1]);
    TallyStep(done, e);
  }

  /** The loop over the lines of one opened file. `before` stands for the
      effects of the lines processed so far, which the incoming tallies
      hold. */
  method TallyLines(cfg: Config, existing: set<string>, file: string, lines: seq<string>,
                    links0: map<string, nat>, notFound0: set<string>, ghost before: seq<LineEffect>)
    returns (links: map<string, nat>, notFound: set<string>)
    requires links0 == Counted(before) && notFound0 == Messages(before)
    ensures links == Counted(before + LineEffects(cfg, existing, file, lines))
    ensures notFound == Messages(before + LineEffects(cfg, existing, file, lines))
  {
    links, notFound := links0, notFound0;
    assert before + LineEffects(cfg, existing, file, lines[..0]) == before by {
      assert lines[..0] == [];
    }
    for j := 0 to |lines|
      invariant links == Counted(before + LineEffects(cfg, existing, file, lines[..j]))
      invariant notFound == Messages(before + LineEffects(cfg, existing, file, lines[..j]))
    {
      var effect := Classify(cfg, existing, file, lines[j]);
      TallyNextLine(cfg, existing, file, lines, j, before);
      links, notFound := Record(links, notFound, effect);
    }
    assert lines[..|lines|] == lines;
  }

  /** The loop over `files` that fills `links` and `notfound`. */
  method Accumulate(cfg: Config, existing: set<string>, contents: map<string, seq<string>>, files: seq<string>)
    returns (links: map<string, nat>, notFound: set<string>)
    ensures links == Counted(RunEffects(cfg, existing, contents, files))
    ensures notFound == Messages(RunEffects(cfg, existing, contents, files))
  {
    links, notFound := map[], {};
    for i := 0 to |files|
      invariant links == Counted(RunEffects(cfg, existing, contents, files[..i]))
      invariant notFound == Messages(RunEffects(cfg, existing, contents, files[..i]))
    {
      ghost var done := RunEffects(cfg, existing, contents, files[..i]);
      assert files[..i + 1][..i] == files[..i];
      var file := files[i];
      if Excluded(cfg.exclude, file) {
        assert done + [] == done;
        continue;
      }
      file := CleanPath(file);
      if file !in contents {
        assert done + [] == done;
        continue;
      }
      links, notFound := TallyLines(cfg, existing, file, contents[file], links, notFound, done);
    }
    assert files[..|files|] == files;
  }

  // ---------------------------------------------------------------------------
  // Output

  /** The line written for an edge: the key, with ` [penwidth=N]` appended
      when it was recorded N > 1 times. */
  function EdgeLine(key: string, count: nat): string {
    if count > 1 then key + " [penwidth=" + Decimal(count) + "]" else key
  }

  /** Reads the count back from an edge line with a known key: no suffix
      stands for one. */
  function LineCount(key: string, line: string): nat {
    var n := |key| + |" [penwidth="|;
    if |line| > n && IsDigits(line[n..|line| - 1]) then ValueOf(line[n..|line| - 1]) else 1
  }

  /** The count of every recorded edge can be read back from its line, and
      the line starts with the key. */
  lemma EdgeLineRoundTrip(key: string, count: nat)
    requires count >= 1
    ensures StartsWith(EdgeLine(key, count), key)
    ensures LineCount(key, EdgeLine(key, count)) == count
    ensures EdgeLine(key, count) == key <==> count == 1
  {
    var line := EdgeLine(key, count);
    var n := |key| + |" [penwidth="|;
    if count > 1 {
      DecimalRoundTrip(count);
      assert line[n..|line| - 1] == Decimal(count);
      assert line[..|key|] == key;
    } else {
      assert line[..|key|] == key;
    }
  }

  /** The loop over `links.iterkeys()`: every key is written once, in
      whatever order the dictionary yields them; `order` is that order. */
  method EmitEdges(links: map<string, nat>) returns (order: seq<string>, lines: seq<string>)
    ensures |order| == |lines| == |links|
    ensures forall k :: k in links <==> k in order
    ensures forall i, j :: 0 <= i < j < |order| ==> order[i] != order[j]
    ensures forall i :: 0 <= i < |order| ==> order[i] in links && lines[i] == EdgeLine(order[i], links[order[i]])
  {
    order, lines := [], [];
    var remaining := links.Keys;
    while remaining != {}
      invariant remaining <= links.Keys
      invariant forall k :: k in links <==> k in order || k in remaining
      invariant forall k :: k in order ==> k !in remaining
      invariant |order| + |remaining| == |links|
      invariant |lines| == |order|
      invariant forall i, j :: 0 <= i < j < |order| ==> order[i] != order[j]
      invariant forall i :: 0 <= i < |order| ==> order[i] in links && lines[i] == EdgeLine(order[i], links[order[i]])
      decreases |remaining|
    {
      var key :| key in remaining;
      var numDep := links[key];
      var line := key;
      if numDep > 1 {
        line := line + " [penwidth=" + Decimal(numDep) + "]";
      }
      order, lines := order + [key], lines + [line];
      remaining := remaining - {key};
    }
  }

  /** The message written for an unresolved include. */
  function NotFoundLine(key: string): string {
    "Include file not found: " + key
  }

  /** The loop over `sorted(notfound.iterkeys())`: the keys in ascending
      order, each once. */
  method ReportNotFound(notFound: set<string>) returns (keys: seq<string>, lines: seq<string>)
    ensures StrictlySorted(keys) && forall k :: k in keys <==> k in notFound
    ensures keys == SortedListing(notFound)
    ensures |lines| == |keys| && forall i :: 0 <= i < |keys| ==> lines[i] == NotFoundLine(keys[i])
  {
    keys, lines := [], [];
    var remaining := notFound;
    while remaining != {}
      invariant remaining <= notFound
      invariant forall k :: k in notFound <==> k in keys || k in remaining
      invariant forall k :: k in keys ==> k !in remaining
      invariant StrictlySorted(keys)
      invariant forall i, x :: 0 <= i < |keys| && x in remaining ==> Less(keys[i], x)
      invariant |lines| == |keys| && forall i :: 0 <= i < |keys| ==> lines[i] == NotFoundLine(keys[i])
      decreases |remaining|
    {
      LeastExists(remaining);
      var least :| IsLeast(least, remaining);
      SelectionStep(keys, remaining, least);
      keys, lines := keys + [least], lines + [NotFoundLine(least)];
      remaining := remaining - {least};
    }
    SortedUnique(keys, SortedListing(notFound));
  }

  /** Appending the least remaining key keeps the listing sorted and below
      what is left. */
  lemma SelectionStep(keys: seq<string>, remaining: set<string>, least: string)
    requires StrictlySorted(keys) && IsLeast(least, remaining)
    requires forall i, x :: 0 <= i < |keys| && x in remaining ==> Less(keys[i], x)
    ensures StrictlySorted(keys + [least])
    ensures forall i, x :: 0 <= i < |keys| + 1 && x in remaining - {least} ==> Less((keys + [least])[i], x)
  {
    var next := keys + [least];
    forall i, x | 0 <= i < |next| && x in remaining - {least}
      ensures Less(next[i], x)
    {
      if i < |keys| {
        assert next[i] == keys[i];
      }
    }
  }

  // ---------------------------------------------------------------------------
  // The whole run

  /** `do_it` without the header: the edge lines followed by the closing
      brace, and the sorted report of unresolved includes. */
  method DoIt(cfg: Config, walk: seq<WalkEntry>, existing: set<string>, contents: map<string, seq<string>>)
    returns (order: seq<string>, graph: seq<string>, report: seq<string>)
    ensures var links := Counted(RunEffects(cfg, existing, contents, Collected(walk)));
      && |order| == |links| && |graph| == |links| + 1
      && (forall k :: k in links <==> k in order)
      && (forall i, j :: 0 <= i < j < |order| ==> order[i] != order[j])
      && (forall i :: 0 <= i < |order| ==> order[i] in links && graph[i] == EdgeLine(order[i], links[order[i]]))
      && graph[|links|] == "}"
    ensures var keys := SortedListing(Messages(RunEffects(cfg, existing, contents, Collected(walk))));
      |report| == |keys| && forall i :: 0 <= i < |keys| ==> report[i] == NotFoundLine(keys[i])
  {
    var files := CollectFiles(walk);
    var links, notFound := Accumulate(cfg, existing, contents, files);
    var edgeLines;
    order, edgeLines := EmitEdges(links);
    var keys;
    keys, report := ReportNotFound(notFound);
    graph := edgeLines + ["}"];
  }
}
