# cppincludes2dot: include-graph extraction, modelled in Dafny

`cppincludes2dot.py` walks a C/C++ source tree and collects the files whose
names end in one of the eight C/C++ suffixes. It reads every collected file
line by line and matches `#include` directives. Each include token is
resolved to a path by an ordered fallback search. Each resolved include
becomes an edge between two display names, or between two directories under
directory merge. It writes a Graphviz edge list in which an edge seen N > 1
times carries `[penwidth=N]`, and it reports unresolved includes in sorted
order.

The project models that core in six modules:

- `Text` holds the string helpers:
  - prefix, suffix and Python's substring test;
  - the `\s` class of Python 2 regular expressions;
  - decimal rendering of counts with its inverse;
  - the lexicographic order `sorted` uses, with the ascending listing of a set.
- `Paths` holds:
  - POSIX `os.path.basename`, `dirname` and `join` on strings (`normcase` is the identity);
  - `tidy_path`, written as the left-to-right scan of `re.sub(r'[^/]+?/\.\./', '', …)`.
- `Resolve` holds `search_includes`. `os.path.exists` becomes membership in a set `existing`, and is false for the empty path.
- `Display` holds `to_string`: basename, the eight anchored suffix substitutions under module merge (each `$` also matches before a final newline), and the newline after each slash.
- `Recognise` holds:
  - `c_file_regex`, whose `$` also matches before a final newline;
  - the three include-line patterns, as a scanner that follows the regular expressions: `^`, `\s*`, `\s+`, and greedy `\S+` backing off to the last closing delimiter;
  - the cleanup of the captured token;
  - the exclude test;
  - the `rstrip('\n')` and `./` cleanup of a file path.
- `IncludeGraph` holds `do_it`:
  - The collection loop appends to `files`.
  - The accumulation loop updates the `links` counts and the `notfound` keys in place.
  - The emission loops write the results.

  Each loop is a method proved against a specification function: `Collected`, `Counted`/`Messages` of `RunEffects`, and `SortedListing`. The properties are stated about those functions. The file system is a parameter: the walk is a sequence of (directory, file names) entries, and the readable files are a map from path to lines.

Where the code and the program's own usage text differ, the model follows the code:

- The usage text offers `-q quote` for `"..."` includes (cppincludes2dot.py:81-84), but the code tests for the value `system` (cppincludes2dot.py:188). So `quote`, like `both` and any other value, selects the default pattern. That pattern captures any non-whitespace run, with its delimiters.
- The usage text describes `-e` as a regular expression of file names (cppincludes2dot.py:70), but the code makes a single substring test of the file path against the exclude string, before `./` is stripped (cppincludes2dot.py:202). It is neither a regular expression nor a list: `a.c` is excluded by `lib/a.cpp`.
- The captured token, once `<`, `>` and `"` are removed, can be empty. `#include <>` under the default pattern leaves the empty token, which is then searched like any other.
- `os.path.exists('')` is false, so the search passes over an empty candidate (`a/../` tidies to the empty path) and never returns the empty path. The `if not include_file` test therefore only ever sees `None`.
- Under the default pattern the token is only required to be followed by whitespace or the end of the line. Under `angle` and `system`, greedy matching takes the last closing delimiter inside the non-whitespace run: `<a.h>//x` yields `a.h` and `<a>b>` yields `a>b`.

## Model

| member | source | states |
|---|---|---|
| Text.Contains | cppincludes2dot.py:202 | The substring test holds exactly when the needle occurs at some index of the haystack. |
| Text.TrimTrailing | cppincludes2dot.py:204 | `rstrip` of one character: the result is the longest prefix not ending in that character such that only copies of it follow; `dirname` uses it with `/`. |
| Text.Decimal | cppincludes2dot.py:255 | A count is rendered as a non-empty run of digits, without a leading zero when positive. |
| Text.DecimalRoundTrip | cppincludes2dot.py:255 | Reading the rendered digits back gives the count. |
| Text.LessIrreflexive | cppincludes2dot.py:259 | The string order used by `sorted` is irreflexive. |
| Text.LessTransitive | cppincludes2dot.py:259 | The string order is transitive. |
| Text.LessTotal | cppincludes2dot.py:259 | Any two distinct strings are ordered one way or the other. |
| Text.LessAsymmetric | cppincludes2dot.py:259 | The string order is asymmetric. |
| Text.LeastExists | cppincludes2dot.py:259 | A non-empty finite set of keys has a least key. |
| Text.SortedUnique | cppincludes2dot.py:259 | Two strictly ascending listings of the same keys are equal, so the sorted order is unique. |
| Text.SortedListing | cppincludes2dot.py:259 | The ascending listing of a key set is strictly sorted, has one entry per key and holds exactly the keys of the set. |
| Paths.LastSlash | cppincludes2dot.py:159 | The result is the index of the last slash, or -1 when there is none. |
| Paths.Basename | cppincludes2dot.py:159 | `os.path.basename`: the text after the last slash; BasenameShape states its shape. |
| Paths.BasenameShape | cppincludes2dot.py:159 | The basename is a slash-free suffix of the path, directly preceded by a slash when shorter than the path. |
| Paths.Dirname | cppincludes2dot.py:222-223 | `os.path.dirname`: the head up to the last slash with its trailing slashes removed, unless the head is all slashes; DirnameShape and DirnameSplit state its shape. |
| Paths.DirnameShape | cppincludes2dot.py:222-223 | The directory is a prefix of the path. It is empty when the path has no slash, and ends in a slash only when it consists of slashes. |
| Paths.DirnameSplit | cppincludes2dot.py:222-223 | A path with a slash is its non-empty directory, then a run of slashes, then its basename; the run is empty exactly when the directory consists of slashes. |
| Paths.Join | cppincludes2dot.py:136 | `os.path.join` of two parts; JoinShape states each case. |
| Paths.JoinShape | cppincludes2dot.py:136 | A join ends with its second part. An absolute second part replaces the first. Otherwise the parts are concatenated, with one `/` between them exactly when the first is non-empty and does not already end in `/`. |
| Paths.BasenameOfJoin | cppincludes2dot.py:198 | Joining a slash-free name to any directory and taking the basename gives the name back. |
| Paths.DirnameOfJoin | cppincludes2dot.py:198 | Joining a slash-free name to a directory not ending in a slash and taking the dirname gives the directory back. |
| Paths.SegmentLength | cppincludes2dot.py:129 | The result is the length of the leading slash-free run: every character before it is not a slash, and a slash follows. |
| Paths.Tidy | cppincludes2dot.py:127-129 | tidy_path never lengthens a path. |
| Paths.TidyUnchangedIff | cppincludes2dot.py:127-129 | tidy_path leaves a path unchanged exactly when no `/../` follows a non-slash character; otherwise the path gets strictly shorter. |
| Paths.TidyWithoutParentRefs | cppincludes2dot.py:127-129 | A path containing no `/../` comes back unchanged. |
| Paths.TidyShort | cppincludes2dot.py:129 | A path of at most four characters comes back unchanged. |
| Paths.TidyCollapsesSegment | cppincludes2dot.py:129 | A leading non-empty slash-free segment (`..` included) followed by `/../` is deleted. |
| Paths.TidyKeepsFirst | cppincludes2dot.py:129 | Where no match can start at the first character (it is a slash, or a slash follows it that does not open `/../`), that character is kept and the scan goes on from the next one. |
| Paths.TidySinglePass | cppincludes2dot.py:129 | The pass is not repeated: `a/b/../../c` becomes `a/../c` for any one-character names, `a/./../../c` included. |
| Resolve.RelativeCandidate | cppincludes2dot.py:136 | The candidate next to the including file: its directory joined with the token, then tidied; RelativeWins and SearchFailsIff state its role. |
| Resolve.DirCandidate | cppincludes2dot.py:143 | The candidate for one include directory: the directory joined with the token, then tidied; FirstDirWins states its role. |
| Resolve.Exists | cppincludes2dot.py:138 | `os.path.exists`: membership in the set of existing paths, and false for the empty path whatever the set holds. |
| Resolve.FirstInDirs | cppincludes2dot.py:141-147 | The include-path loop returns an existing candidate from the list. It returns nothing exactly when no directory's candidate exists. |
| Resolve.Search | cppincludes2dot.py:131-154 | Any path the search returns exists and is non-empty. |
| Resolve.RelativeWins | cppincludes2dot.py:135-139 | If the candidate next to the including file exists, it is returned, whatever the include paths hold. |
| Resolve.FirstDirWins | cppincludes2dot.py:141-147 | Among the include paths, the first one in list order whose candidate exists wins. |
| Resolve.SearchUsesFirstDir | cppincludes2dot.py:135-147 | When the relative candidate is missing, the search returns the first existing include-path candidate. |
| Resolve.EmptyCandidateSkipped | cppincludes2dot.py:136-151 | Including `../` from `a/x.c` gives the empty relative candidate and the empty `inc/../` candidate. Both are passed over even when the set lists the empty path, and the raw token `../` is returned when it exists. |
| Resolve.SearchFailsIff | cppincludes2dot.py:138-154 | The search fails exactly when the relative candidate, every include-path candidate and the raw token are all missing. |
| Resolve.SearchResultIsCandidate | cppincludes2dot.py:131-154 | A result is the relative candidate, an include-path candidate or the raw token. |
| Display.StripAnchored | cppincludes2dot.py:162 | An anchored suffix is removed at the end. A suffix found just before a final newline is removed and the newline kept. The name is left alone when the suffix is absent in both places. |
| Display.StripAll | cppincludes2dot.py:161-169 | Stripping the suffix list never lengthens the name. |
| Display.BreakAtSlashes | cppincludes2dot.py:171 | Breaking at slashes never shortens the name and leaves a slash-free name unchanged. |
| Display.BreakAtSlashesBreaks | cppincludes2dot.py:171 | Every slash of the result is followed by a newline. |
| Display.BreakJoinRoundTrip | cppincludes2dot.py:171 | Removing the newline after every slash undoes the newline insertion. |
| Display.DisplayName | cppincludes2dot.py:156-171 | `to_string`: the basename unless `paths` is set, suffix-stripped under module merge, broken after each slash; DisplayNameWithoutPaths and DisplayNameRecoversStem state its properties. |
| Display.DisplayNameWithoutPaths | cppincludes2dot.py:158-171 | Without `paths` the label has no slash and no inserted newline: it is the basename, suffix-stripped under module merge. |
| Display.DisplayNameRecoversStem | cppincludes2dot.py:156-171 | Every label maps back to the (stripped) name it was made from. |
| Display.StripAllPrefix | cppincludes2dot.py:161-169 | The stripped name is a prefix of the name, or a prefix followed by the kept final newline. |
| Display.StripAllAt | cppincludes2dot.py:161-169 | Index by index, each character of the stripped name is the name's own character or the kept newline. |
| Display.StripAnchoredDotless | cppincludes2dot.py:162-169 | On a dot-free stem plus at most one dotted suffix, one substitution removes exactly that suffix. |
| Display.StripAllCollapses | cppincludes2dot.py:161-169 | Running the whole list over a dot-free stem plus a listed suffix leaves the stem. DottedStemLosesMore shows why the stem must be dot-free. |
| Display.DottedStemLosesMore | cppincludes2dot.py:161-169 | `a.h.c` is stripped to `a`: the loop removes `.c` and then `.h`, so a stem with dots can lose more than its extension. |
| Display.ModuleMergeCollapses | cppincludes2dot.py:158-169 | Under module merge, without `paths`, `dir/stem.ext` with a non-empty, slash-free and dot-free stem is labelled `stem`, for each of the eight extensions. |
| Display.HeaderAndSourceShareLabel | cppincludes2dot.py:158-169 | `dir/foo.h` and `dir/foo.cpp` both get the label `foo`. |
| Recognise.IsSourceName | cppincludes2dot.py:197 | `c_file_regex.match(name)`, with the pattern of line 183: `.` does not cross a newline, so `x\na.c` is rejected; SourceNameIff states exactly which names it accepts. |
| Recognise.EndsWithExtensionIff | cppincludes2dot.py:183 | The alternation matches exactly when the name ends in `.` followed by one of the alternatives. |
| Recognise.SourceNameIff | cppincludes2dot.py:183 | A name is collected exactly when, apart from one final newline, it has no newline and ends in `.` followed by one of the eight extensions. |
| Recognise.EndsWithMember | cppincludes2dot.py:183 | Any single matching alternative makes the suffix test succeed. |
| Recognise.EndsWithNoMember | cppincludes2dot.py:183 | No alternative matches when none ends in the name's last character. |
| Recognise.UpperCIsSource | cppincludes2dot.py:183 | `stem.C` with a newline-free stem is a source name. |
| Recognise.UpperHIsNot | cppincludes2dot.py:183 | `stem.H` is not a source name for any stem, so the test is case-sensitive. |
| Recognise.PatternFor | cppincludes2dot.py:186-191 | `angle` selects `<...>`, `system` selects `"..."`, and every other value the default pattern; WrongDelimiterIgnored states the effect. |
| Recognise.SkipSpace | cppincludes2dot.py:187 | `\s*` consumes exactly the maximal run of whitespace. |
| Recognise.SkipNonSpace | cppincludes2dot.py:191 | `\S+` consumes exactly the maximal run of non-whitespace. |
| Recognise.LastIndexOf | cppincludes2dot.py:187 | Backtracking stops at the last closing delimiter in range, or finds none. |
| Recognise.DirectiveHead | cppincludes2dot.py:186-191 | `^#\s*include\s+` ends inside the line. |
| Recognise.TokenAt | cppincludes2dot.py:186-191 | A captured token is non-empty and holds no whitespace. |
| Recognise.IncludeMatch | cppincludes2dot.py:211-213 | A captured group is non-empty and holds no whitespace. |
| Recognise.HeadShape | cppincludes2dot.py:186-191 | An accepted head is `#`, whitespace, `include` and at least one whitespace character, followed by a non-space character or the end. |
| Recognise.HeadOf | cppincludes2dot.py:186-191 | Every such head is accepted, and the token starts right after it. |
| Recognise.EndsToken | cppincludes2dot.py:187-191 | What may follow the closing delimiter of a captured token: whitespace or the end under `(\S+)`, a non-whitespace run without a closing delimiter under `<(\S+)>` and `"(\S+)"`; TokenShape and TokenOf show it is exact. |
| Recognise.TokenShape | cppincludes2dot.py:186-191 | A token sits between the pattern's delimiters and is followed by what EndsToken allows: whitespace or the end under the default pattern, and a non-whitespace run without a closing delimiter under `<...>` and `"..."`. |
| Recognise.TokenOf | cppincludes2dot.py:186-191 | Any non-empty token without whitespace, followed by what EndsToken allows, is captured exactly, closing delimiters inside it included. |
| Recognise.MatchHasDirectiveShape | cppincludes2dot.py:186-191 | Soundness: every matched line has the directive shape, a non-empty token without whitespace, and a remainder that EndsToken allows. |
| Recognise.DirectiveMatches | cppincludes2dot.py:186-191 | Completeness, the converse: every line of that shape yields exactly its token. |
| Recognise.WrongDelimiterIgnored | cppincludes2dot.py:186-189 | `angle` ignores `"..."` directives and `system` ignores `<...>` directives. |
| Recognise.RawToken | cppincludes2dot.py:214 | `re.sub(r'[\<\>"]', '', included)`; RawTokenShape and RawTokenConcat state what it keeps. |
| Recognise.RawTokenShape | cppincludes2dot.py:214 | The cleaned token has no delimiter and keeps every other character's count. It is empty exactly when the capture is all delimiters. Cleaning splits at every index, and one character is dropped if it is a delimiter and kept otherwise, so the kept characters stay in order. |
| Recognise.RawTokenConcat | cppincludes2dot.py:214 | Cleaning a concatenation is the concatenation of the cleaned parts. |
| Recognise.RawTokenDropsDelimiters | cppincludes2dot.py:214 | No `<`, `>` or `"` remains. |
| Recognise.RawTokenKeepsCounts | cppincludes2dot.py:214 | Every other character occurs as often as in the capture. |
| Recognise.RawTokenEmptyIff | cppincludes2dot.py:214 | The cleaned token is empty exactly when the capture consists of delimiters. |
| Recognise.RawTokenWithoutDelimiters | cppincludes2dot.py:214 | A capture without delimiters is passed on unchanged. |
| Recognise.DelimiterOnlyTokenIsEmpty | cppincludes2dot.py:211-214 | `#include <>` under the default pattern captures `<>` and leaves the empty token. |
| Recognise.Excluded | cppincludes2dot.py:202 | `exclude != '' and file in exclude`; ExcludedByAnyPiece states its reach. |
| Recognise.ExcludedByAnyPiece | cppincludes2dot.py:202 | A non-empty exclude string excludes every path that occurs anywhere in it. |
| Recognise.CleanPath | cppincludes2dot.py:204-205 | Cleanup never lengthens the path. |
| Recognise.CleanPathDropsOnePrefix | cppincludes2dot.py:204-205 | Trailing newlines and exactly one leading `./` are removed: `././x` keeps `./x`. |
| Recognise.CleanPathKeepsPlain | cppincludes2dot.py:204-205 | A path without a leading `./` loses only its trailing newlines. |
| IncludeGraph.AppendSourceNames | cppincludes2dot.py:196-198 | The inner loop appends exactly the accepted names of one directory, joined to it, in order. |
| IncludeGraph.CollectFiles | cppincludes2dot.py:195-198 | The walk loop builds exactly `Collected(walk)`. |
| IncludeGraph.FilteredIff | cppincludes2dot.py:196-198 | A path is appended for a directory exactly when some accepted name joined to it gives that path. |
| IncludeGraph.FlattenedIff | cppincludes2dot.py:195-198 | A path is collected exactly when it is appended for some walk entry. |
| IncludeGraph.CollectedIff | cppincludes2dot.py:195-198 | A path is in `files` exactly when some walked directory holds a source name whose join with the directory is that path. |
| IncludeGraph.Target | cppincludes2dot.py:211-217 | A resolved target exists, is non-empty and comes from a matched line. |
| IncludeGraph.FileEffects | cppincludes2dot.py:201-208 | An excluded file, or one that cannot be opened after cleanup, yields no effects; otherwise its lines' effects. RunEffects and Accumulate use it. |
| IncludeGraph.Endpoints | cppincludes2dot.py:221-242 | The two endpoints: directories under directory merge, display names otherwise; Classify states how they decide the effect. |
| IncludeGraph.EdgeKey | cppincludes2dot.py:32 | The edge statement `    "a" -> "b"` used as the dictionary key; WellFormed ties each edge effect to it. |
| IncludeGraph.Classify | cppincludes2dot.py:210-247 | A line has one of four effects: not an include (no match); unresolved (match, no target), with the message `included from file`; self-edge, when both endpoints are equal; or an edge whose key is formatted from its two distinct endpoints. Endpoints are directories in directory mode and display names otherwise. |
| IncludeGraph.LineEffects | cppincludes2dot.py:210-247 | A file yields one well-formed effect per line. |
| IncludeGraph.RunEffects | cppincludes2dot.py:201-250 | Every effect of the run is well-formed. |
| IncludeGraph.Bump | cppincludes2dot.py:227-230 | Adds one to the count of a present key, or stores one for a new key; BumpCounts states that nothing else changes. |
| IncludeGraph.BumpCounts | cppincludes2dot.py:227-230 | After a bump the key is present with its old count plus one (zero when absent), every other count is unchanged, and the key set grows by that key only. |
| IncludeGraph.OccPositiveIff | cppincludes2dot.py:227-247 | A key is counted at least once exactly when some edge effect records it. |
| IncludeGraph.CountedIsOccurrenceCount | cppincludes2dot.py:227-247 | The dictionary maps every key to the number of edge effects recorded under it, and absent keys to zero. |
| IncludeGraph.CountedKeys | cppincludes2dot.py:227-247 | The keys of `links` are exactly the recorded edge keys. |
| IncludeGraph.TallyStep | cppincludes2dot.py:215-247 | One more effect: an edge bumps its key; an unresolved include adds its message; nothing else changes either tally. |
| IncludeGraph.LineChangesAtMostOneCount | cppincludes2dot.py:215-247 | Each line adds one to exactly one count or changes none. An unresolved include changes only `notfound`. |
| IncludeGraph.CountsPositive | cppincludes2dot.py:227-247 | Every stored count is at least one. |
| IncludeGraph.KeysHaveDistinctEndpoints | cppincludes2dot.py:224-247 | Every key in `links` was recorded from two different endpoints, so no self-edge is stored. |
| IncludeGraph.Record | cppincludes2dot.py:218-247 | The dictionary updates for one line: bump on an edge, add the message on an unresolved include. |
| IncludeGraph.TallyLines | cppincludes2dot.py:210-247 | The per-line loop leaves the tallies equal to those of the effects so far followed by the file's line effects. |
| IncludeGraph.Accumulate | cppincludes2dot.py:201-250 | The file loop leaves `links == Counted(RunEffects)` and `notfound == Messages(RunEffects)`. |
| IncludeGraph.EdgeLineRoundTrip | cppincludes2dot.py:252-256 | An edge line starts with its key and carries the suffix exactly when the count exceeds one. The count can be read back from it. |
| IncludeGraph.EdgeLine | cppincludes2dot.py:253-256 | The key, followed by ` [penwidth=N]` when the count N exceeds one; EdgeLineRoundTrip states it. |
| IncludeGraph.EmitEdges | cppincludes2dot.py:252-256 | Every key is written exactly once, as its edge line, in the order the dictionary yields. |
| IncludeGraph.ReportNotFound | cppincludes2dot.py:259-260 | The unresolved keys are written once each, in strictly ascending order, each as `Include file not found: key`. |
| IncludeGraph.NotFoundLine | cppincludes2dot.py:260 | The report line `Include file not found: key`; ReportNotFound emits one per sorted key. |
| IncludeGraph.DoIt | cppincludes2dot.py:180-262 | The run writes one edge line per key of the accumulated counts, then `}`, and the sorted not-found report. |

## Left out

- Option parsing in `main`, the usage and version texts, `setup.py`: these are command-line plumbing and packaging.
- The header line: it needs `realpath` and the clock (`get_date`).
- `log` and the debug flag: these are diagnostic output only.
- The `groups` cluster output: `groups` is never set by the program, and the output goes straight to stdout.
- Real file-system access:
  - `os.walk` is a parameter: a sequence of (directory, names) entries.
  - `os.path.exists` is membership in a set, and false for the empty path. A directory that exists therefore counts as found, as in the source.
  - `open` and line iteration are a map from path to lines. A path absent from the map is a file that could not be opened.
  - An `IOError` raised part-way through a file is not modelled: a file is read completely or not at all.
- `os.path.relpath` on collected paths and `os.path.normcase` are taken as the identity, because both depend on the working directory or the platform.
- Output streams: the model returns the lines written to stdout and stderr, without their trailing newlines and without interleaving the two streams.
- IncludeGraph.EmitEdges: Python 2 dictionary iteration order is unspecified. The method picks keys in an arbitrary order and returns that order, so no particular order is claimed.
- Paths.Tidy: `normcase` is the POSIX identity; the Windows case folding is not modelled.
- Recognise.SkipSpace: `\s` is the ASCII whitespace class of a byte-string pattern; locale- and Unicode-dependent classes are not modelled.
