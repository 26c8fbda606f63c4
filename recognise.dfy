/** The recognisers of `do_it`: which walked file names are C/C++ files, which
    lines are include directives and what token they name, and which files
    the exclude string skips. */
module Recognise {
  import opened Text

  /** The alternatives of `c_file_regex`. */
  const SourceExtensions: seq<string> := ["c", "cc", "cxx", "cpp", "C", "h", "hpp", "hxx"]

  /** `body` ends in `.` followed by one of `exts`, tried in list order as
      the regular expression tries its alternatives. */
  predicate EndsWithExtension(body: string, exts: seq<string>)
    decreases |exts|
  {
    exts != [] && (EndsWith(body, "." + exts[0]) || EndsWithExtension(body, exts[1..]))
  }

  lemma {:induction false} EndsWithExtensionIff(body: string, exts: seq<string>)
    ensures EndsWithExtension(body, exts) <==> exists e :: e in exts && EndsWith(body, "." + e)
    decreases |exts|
  {
    if exts != [] {
      EndsWithExtensionIff(body, exts[1..]);
      assert forall e :: e in exts <==> e == exts[0] || e in exts[1..];
    }
  }

  /** `c_file_regex.match(name)` for `.*\.(c|cc|cxx|cpp|C|h|hpp|hxx)$`: `.*`
      does not cross a newline, and `$` matches at the end or just before a
      final newline. */
  predicate IsSourceName(name: string) {
    var body := if name != [] && name[|name| - 1] == '\n' then name[..|name| - 1] else name;
    '\n' !in body && EndsWithExtension(body, SourceExtensions)
  }

  /** A name is collected exactly when, apart from one final newline, it holds
      no newline and ends in `.` followed by one of the eight extensions. */
  lemma SourceNameIff(name: string)
    ensures var body := if name != [] && name[|name| - 1] == '\n' then name[..|name| - 1] else name;
      IsSourceName(name) <==> '\n' !in body && exists e :: e in SourceExtensions && EndsWith(body, "." + e)
  {
    var body := if name != [] && name[|name| - 1] == '\n' then name[..|name| - 1] else name;
    EndsWithExtensionIff(body, SourceExtensions);
  }

  /** Any one matching alternative is enough. */
  lemma {:induction false} EndsWithMember(body: string, exts: seq<string>, k: nat)
    requires k < |exts| && EndsWith(body, "." + exts[k])
    ensures EndsWithExtension(body, exts)
    decreases k
  {
    if k > 0 {
      EndsWithMember(body, exts[1..], k - 1);
    }
  }

  /** No alternative matches when none of them ends in the last character of
      `body`. */
  lemma {:induction false} EndsWithNoMember(body: string, exts: seq<string>)
    requires body != []
    requires forall k :: 0 <= k < |exts| ==> exts[k] != [] && exts[k][|exts[k]| - 1] != body[|body| - 1]
    ensures !EndsWithExtension(body, exts)
    decreases |exts|
  {
    if exts != [] {
      var x := "." + exts[0];
      assert x[|x| - 1] == exts[0][|exts[0]| - 1];
      assert !EndsWith(body, x);
      EndsWithNoMember(body, exts[1..]);
    }
  }

  /** The extension test is case-sensitive: `.C` is a source name... */
  lemma UpperCIsSource(stem: string)
    requires '\n' !in stem
    ensures IsSourceName(stem + ".C")
  {
    var name := stem + ".C";
    assert SourceExtensions[4] == "C";
    assert name[|name| - 2..] == "." + "C";
    EndsWithMember(name, SourceExtensions, 4);
  }

  /** ... and `.H` is not. */
  lemma UpperHIsNot(stem: string)
    ensures !IsSourceName(stem + ".H")
  {
    var name := stem + ".H";
    assert name[|name| - 1] == 'H';
    EndsWithNoMember(name, SourceExtensions);
  }

  // ---------------------------------------------------------------------------
  // The include-line patterns

  /** Which of the three patterns `quote_types` selects. */
  datatype Pattern = AngleOnly | QuotedOnly | AnyToken

  function PatternFor(quoteTypes: string): Pattern {
    if quoteTypes == "angle" then AngleOnly
    else if quoteTypes == "system" then QuotedOnly
    else AnyToken
  }

  /** Index of the first character at or after `i` that is not whitespace. */
  function SkipSpace(line: string, i: nat): (j: nat)
    requires i <= |line|
    ensures i <= j <= |line|
    ensures forall k :: i <= k < j ==> IsSpace(line[k])
    ensures j < |line| ==> !IsSpace(line[j])
    decreases |line| - i
  {
    if i < |line| && IsSpace(line[i]) then SkipSpace(line, i + 1) else i
  }

  /** Index of the first whitespace character at or after `i`. */
  function SkipNonSpace(line: string, i: nat): (j: nat)
    requires i <= |line|
    ensures i <= j <= |line|
    ensures forall k :: i <= k < j ==> !IsSpace(line[k])
    ensures j < |line| ==> IsSpace(line[j])
    decreases |line| - i
  {
    if i < |line| && !IsSpace(line[i]) then SkipNonSpace(line, i + 1) else i
  }

  /** The largest index `k` with `lo <= k < hi` and `s[k] == c`. */
  function LastIndexOf(s: string, lo: nat, hi: nat, c: char): (r: Option<nat>)
    requires lo <= hi <= |s|
    ensures r.Some? ==> lo <= r.value < hi && s[r.value] == c
    ensures r.Some? ==> forall k :: r.value < k < hi ==> s[k] != c
    ensures r.None? ==> forall k :: lo <= k < hi ==> s[k] != c
    decreases hi
  {
    if hi == lo then None
    else if s[hi - 1] == c then Some(hi - 1)
    else LastIndexOf(s, lo, hi - 1, c)
  }

  /** `^#\s*include\s+`: where it matches, the index just after it, at which
      the token pattern starts. */
  function DirectiveHead(line: string): (r: Option<nat>)
    ensures r.Some? ==> r.value <= |line|
  {
    if line == [] || line[0] != '#' then None
    else
      var i := SkipSpace(line, 1);
      if !(i + 7 <= |line| && line[i..i + 7] == "include") then None
      else
        var j := SkipSpace(line, i + 7);
        if j == i + 7 then None else Some(j)
  }

  function Opener(pattern: Pattern): string {
    match pattern
    case AngleOnly => "<"
    case QuotedOnly => "\""
    case AnyToken => ""
  }

  function Closer(pattern: Pattern): string {
    match pattern
    case AngleOnly => ">"
    case QuotedOnly => "\""
    case AnyToken => ""
  }

  /** The token pattern at the start of `t`: `(\S+)` takes the whole
      non-whitespace run; in `<(\S+)>` and `"(\S+)"` the greedy `\S+` backs
      off to the last closing delimiter inside that run. */
  function TokenAt(t: string, pattern: Pattern): (r: Option<string>)
    ensures r.Some? ==> r.value != [] && NoSpace(r.value)
  {
    var e := SkipNonSpace(t, 0);
    if pattern == AnyToken then
      if e == 0 then None else Some(t[..e])
    else if 2 <= e && t[0] == Opener(pattern)[0] then
      match LastIndexOf(t, 2, e, Closer(pattern)[0])
      case Some(k) => Some(t[1..k])
      case None => None
    else None
  }

  /** `include_regex.match(line).group(1)`, or None when the line does not
      match. */
  function IncludeMatch(line: string, pattern: Pattern): (r: Option<string>)
    ensures r.Some? ==> r.value != [] && NoSpace(r.value)
  {
    match DirectiveHead(line)
    case None => None
    case Some(j) => TokenAt(line[j..], pattern)
  }

  lemma SkipSpaceAcross(line: string, i: nat, k: nat)
    requires i <= k <= |line|
    requires forall m :: i <= m < k ==> IsSpace(line[m])
    requires k < |line| ==> !IsSpace(line[k])
    ensures SkipSpace(line, i) == k
    decreases k - i
  {
    if i < k { SkipSpaceAcross(line, i + 1, k); }
  }

  lemma SkipNonSpaceAcross(line: string, i: nat, k: nat)
    requires i <= k <= |line|
    requires forall m :: i <= m < k ==> !IsSpace(line[m])
    requires k < |line| ==> IsSpace(line[k])
    ensures SkipNonSpace(line, i) == k
    decreases k - i
  {
    if i < k { SkipNonSpaceAcross(line, i + 1, k); }
  }

  /** What DirectiveHead accepts is `#`, optional whitespace, `include` and at
      least one whitespace character, after which comes a non-whitespace
      character or the end of the line. */
  lemma HeadShape(line: string) returns (ws1: string, ws2: string)
    requires DirectiveHead(line).Some?
    ensures var j := DirectiveHead(line).value;
      && line[..j] == "#" + ws1 + "include" + ws2
      && AllSpace(ws1) && ws2 != [] && AllSpace(ws2)
      && (j < |line| ==> !IsSpace(line[j]))
  {
    var i := SkipSpace(line, 1);
    var j := SkipSpace(line, i + 7);
    ws1 := line[1..i];
    ws2 := line[i + 7..j];
    assert line[..i] == "#" + ws1 by { assert line[..1] == "#"; assert line[..i] == line[..1] + line[1..i]; }
    assert line[..i + 7] == line[..i] + "include";
    assert line[..j] == line[..i + 7] + ws2;
  }

  lemma HeadOf(ws1: string, ws2: string, tail: string)
    requires AllSpace(ws1) && ws2 != [] && AllSpace(ws2)
    requires tail == [] || !IsSpace(tail[0])
    ensures var head := "#" + ws1 + "include" + ws2;
      DirectiveHead(head + tail) == Some(|head|)
  {
    var line := "#" + ws1 + "include" + ws2 + tail;
    var i := 1 + |ws1|;
    var j := i + 7 + |ws2|;
    assert line[1..i] == ws1;
    assert line[i..i + 7] == "include";
    assert line[i + 7..j] == ws2;
    assert line[j..] == tail;
    SkipSpaceAcross(line, 1, i);
    SkipSpaceAcross(line, i + 7, j);
  }

  /** A token found at the start of `t` sits between the pattern's delimiters,
      and with the default pattern it runs to whitespace or the end. */
  lemma TokenShape(t: string, pattern: Pattern) returns (rest: string)
    requires TokenAt(t, pattern).Some?
    ensures t == Opener(pattern) + TokenAt(t, pattern).value + Closer(pattern) + rest
    ensures EndsToken(rest, pattern)
  {
    if pattern == AnyToken {
      rest := AnyTokenShape(t);
    } else {
      rest := DelimitedTokenShape(t, pattern);
    }
  }

  lemma AnyTokenShape(t: string) returns (rest: string)
    requires TokenAt(t, AnyToken).Some?
    ensures t == TokenAt(t, AnyToken).value + rest
    ensures rest == [] || IsSpace(rest[0])
  {
    var e := SkipNonSpace(t, 0);
    rest := t[e..];
    assert t == t[..e] + rest;
  }

  lemma DelimitedTokenShape(t: string, pattern: Pattern) returns (rest: string)
    requires pattern != AnyToken && TokenAt(t, pattern).Some?
    ensures t == Opener(pattern) + TokenAt(t, pattern).value + Closer(pattern) + rest
    ensures EndsToken(rest, pattern)
  {
    var o, c := Opener(pattern), Closer(pattern);
    var e := SkipNonSpace(t, 0);
    var k := LastIndexOf(t, 2, e, c[0]).value;
    rest := t[k + 1..];
    assert o == [t[0]] && c == [t[k]];
    SplitAround(t, k);
    RunAfter(t, k + 1, e);
    forall i | 0 <= i < e - k - 1 ensures rest[i] != c[0] {
      assert rest[i] == t[k + 1 + i];
    }
  }

  /** The run of non-whitespace after index `j`, inside a run that ends at
      `e`, ends at `e` too. */
  lemma RunAfter(t: string, j: nat, e: nat)
    requires j <= e <= |t| && e == SkipNonSpace(t, 0)
    ensures SkipNonSpace(t[j..], 0) == e - j
  {
    var rest := t[j..];
    forall m | 0 <= m < e - j ensures !IsSpace(rest[m]) {
      assert rest[m] == t[j + m];
    }
    assert e < |t| ==> rest[e - j] == t[e];
    SkipNonSpaceAcross(rest, 0, e - j);
  }

  lemma SplitAround(t: string, k: nat)
    requires 1 <= k < |t|
    ensures t == [t[0]] + t[1..k] + [t[k]] + t[k + 1..]
  {
  }

  /** What may follow the closing delimiter for the token to be captured
      exactly: with `(\S+)` whitespace or the end of the line; with `<(\S+)>`
      and `"(\S+)"` anything whose leading non-whitespace run holds no closing
      delimiter (`<a.h>//x` still yields `a.h`). */
  predicate EndsToken(rest: string, pattern: Pattern) {
    if pattern == AnyToken then rest == [] || IsSpace(rest[0])
    else forall i :: 0 <= i < SkipNonSpace(rest, 0) ==> rest[i] != Closer(pattern)[0]
  }

  lemma TokenOf(token: string, pattern: Pattern, rest: string)
    requires token != [] && NoSpace(token)
    requires EndsToken(rest, pattern)
    ensures TokenAt(Opener(pattern) + token + Closer(pattern) + rest, pattern) == Some(token)
  {
    var o, c := Opener(pattern), Closer(pattern);
    var t := o + token + c + rest;
    var n := |o| + |token| + |c|;
    assert forall m :: 0 <= m < n ==> !IsSpace(t[m]) by {
      forall m | 0 <= m < n ensures !IsSpace(t[m]) {
        if m < |o| { assert t[m] == o[m]; }
        else if m < |o| + |token| { assert t[m] == token[m - |o|]; }
        else { assert t[m] == c[m - |o| - |token|]; }
      }
    }
    assert t[n..] == rest;
    RunThrough(t, n);
    var e := SkipNonSpace(t, 0);
    if pattern != AnyToken {
      var k := n - 1;
      assert t[k] == c[0];
      forall m | k < m < e ensures t[m] != c[0] {
        assert t[m] == rest[m - n];
      }
      LastIndexOfIs(t, 2, e, c[0], k);
      assert t[1..k] == token;
    } else {
      assert t[..e] == token;
    }
  }

  /** A non-whitespace prefix of length `n` extends the run by the run of
      what follows it. */
  lemma RunThrough(t: string, n: nat)
    requires n <= |t| && forall m :: 0 <= m < n ==> !IsSpace(t[m])
    ensures SkipNonSpace(t, 0) == n + SkipNonSpace(t[n..], 0)
  {
    var rest := t[n..];
    var er := SkipNonSpace(rest, 0);
    var e := n + er;
    assert forall m :: 0 <= m < e ==> !IsSpace(t[m]) by {
      forall m | 0 <= m < e ensures !IsSpace(t[m]) {
        if m >= n { assert t[m] == rest[m - n]; }
      }
    }
    if e < |t| { assert t[e] == rest[er]; }
    SkipNonSpaceAcross(t, 0, e);
  }

  lemma LastIndexOfIs(s: string, lo: nat, hi: nat, c: char, k: nat)
    requires lo <= k < hi <= |s| && s[k] == c
    requires forall m :: k < m < hi ==> s[m] != c
    ensures LastIndexOf(s, lo, hi, c) == Some(k)
  {
  }

  /** The directive shape the patterns accept. */
  function Directive(ws1: string, ws2: string, token: string, pattern: Pattern, rest: string): string {
    "#" + ws1 + "include" + ws2 + (Opener(pattern) + token + Closer(pattern) + rest)
  }

  /** Soundness: a match starts with `#` in column 0, optional whitespace,
      `include`, at least one whitespace character, and then the token in the
      pattern's delimiters; the token is a non-empty run without whitespace. */
  lemma MatchHasDirectiveShape(line: string, pattern: Pattern) returns (ws1: string, ws2: string, rest: string)
    requires IncludeMatch(line, pattern).Some?
    ensures var token := IncludeMatch(line, pattern).value;
      && line == Directive(ws1, ws2, token, pattern, rest)
      && AllSpace(ws1) && ws2 != [] && AllSpace(ws2)
      && token != [] && NoSpace(token)
      && EndsToken(rest, pattern)
  {
    var j := DirectiveHead(line).value;
    var token := IncludeMatch(line, pattern).value;
    assert token == TokenAt(line[j..], pattern).value;
    ws1, ws2 := HeadShape(line);
    rest := TokenShape(line[j..], pattern);
    SplitAt(line, j, "#" + ws1 + "include" + ws2, Opener(pattern) + token + Closer(pattern) + rest);
  }

  lemma SplitAt(s: string, j: nat, head: string, tail: string)
    requires j <= |s| && s[..j] == head && s[j..] == tail
    ensures s == head + tail
  {
    assert s == s[..j] + s[j..];
  }

  /** Completeness, the converse of MatchHasDirectiveShape: a directive whose
      token is followed by what EndsToken allows yields exactly that token.
      The token may hold closing delimiters of its own: `<a>b>` yields `a>b`. */
  lemma DirectiveMatches(ws1: string, ws2: string, token: string, pattern: Pattern, rest: string)
    requires AllSpace(ws1) && ws2 != [] && AllSpace(ws2)
    requires token != [] && NoSpace(token)
    requires EndsToken(rest, pattern)
    ensures IncludeMatch(Directive(ws1, ws2, token, pattern, rest), pattern) == Some(token)
  {
    var head := "#" + ws1 + "include" + ws2;
    var tail := Opener(pattern) + token + Closer(pattern) + rest;
    assert tail[0] == (Opener(pattern) + token)[0];
    HeadOf(ws1, ws2, tail);
    assert (head + tail)[|head|..] == tail;
    TokenOf(token, pattern, rest);
  }

  /** With `quote_types == 'angle'` a `"..."` directive yields nothing, and
      with `'system'` an `<...>` directive yields nothing. */
  lemma WrongDelimiterIgnored(ws1: string, ws2: string, token: string, rest: string)
    requires AllSpace(ws1) && ws2 != [] && AllSpace(ws2)
    ensures IncludeMatch(Directive(ws1, ws2, token, QuotedOnly, rest), AngleOnly) == None
    ensures IncludeMatch(Directive(ws1, ws2, token, AngleOnly, rest), QuotedOnly) == None
  {
    var head := "#" + ws1 + "include" + ws2;
    var q := "\"" + token + "\"" + rest;
    var a := "<" + token + ">" + rest;
    HeadOf(ws1, ws2, q);
    HeadOf(ws1, ws2, a);
    assert (head + q)[|head|..] == q;
    assert (head + a)[|head|..] == a;
  }

  // ---------------------------------------------------------------------------
  // Token cleanup, exclusion and path cleanup

  predicate IsDelimiter(c: char) {
    c == '<' || c == '>' || c == '"'
  }

  /** `re.sub(r'[\<\>"]', '', included)`: the captured token without angle
      brackets and double quotes. */
  function RawToken(included: string): string {
    if included == [] then []
    else
      var tail := RawToken(included[1..]);
      if IsDelimiter(included[0]) then tail else [included[0]] + tail
  }

  /** The cleaned token holds no delimiter, every other character keeps its
      number of occurrences, and it is empty exactly when the captured token
      consists of delimiters only. Cleaning works piecewise at every split
      point, so the kept characters stay in their order: each character is
      dropped when it is a delimiter and kept in place otherwise. */
  lemma RawTokenShape(included: string)
    ensures var r := RawToken(included);
      && (forall c :: c in r ==> !IsDelimiter(c))
      && (forall c :: !IsDelimiter(c) ==> multiset(r)[c] == multiset(included)[c])
      && (r == [] <==> forall i :: 0 <= i < |included| ==> IsDelimiter(included[i]))
    ensures forall k :: 0 <= k <= |included| ==>
      RawToken(included) == RawToken(included[..k]) + RawToken(included[k..])
    ensures forall k :: 0 <= k < |included| ==>
      RawToken(included[k..k + 1]) == if IsDelimiter(included[k]) then [] else [included[k]]
  {
    RawTokenDropsDelimiters(included);
    RawTokenKeepsCounts(included);
    RawTokenEmptyIff(included);
    RawTokenPieces(included);
  }

  lemma RawTokenPieces(included: string)
    ensures forall k :: 0 <= k <= |included| ==>
      RawToken(included) == RawToken(included[..k]) + RawToken(included[k..])
    ensures forall k :: 0 <= k < |included| ==>
      RawToken(included[k..k + 1]) == if IsDelimiter(included[k]) then [] else [included[k]]
  {
    forall k | 0 <= k <= |included|
      ensures RawToken(included) == RawToken(included[..k]) + RawToken(included[k..])
    {
      RawTokenSplit(included, k);
    }
    forall k | 0 <= k < |included|
      ensures RawToken(included[k..k + 1]) == if IsDelimiter(included[k]) then [] else [included[k]]
    {
      RawTokenSingle(included[k..k + 1]);
    }
  }

  lemma RawTokenSplit(included: string, k: nat)
    requires k <= |included|
    ensures RawToken(included) == RawToken(included[..k]) + RawToken(included[k..])
  {
    assert included == included[..k] + included[k..];
    RawTokenConcat(included[..k], included[k..]);
  }

  lemma RawTokenSingle(one: string)
    requires |one| == 1
    ensures RawToken(one) == if IsDelimiter(one[0]) then [] else [one[0]]
  {
    assert one[1..] == [];
  }

  /** Cleaning a concatenation cleans each part: RawToken is a filter that
      keeps the order of what it keeps. */
  lemma {:induction false} RawTokenConcat(a: string, b: string)
    ensures RawToken(a + b) == RawToken(a) + RawToken(b)
  {
    if a != [] {
      RawTokenConcat(a[1..], b);
      assert (a + b)[1..] == a[1..] + b;
    } else {
      assert a + b == b;
    }
  }

  lemma {:induction false} RawTokenDropsDelimiters(included: string)
    ensures forall c :: c in RawToken(included) ==> !IsDelimiter(c)
  {
    if included != [] {
      RawTokenDropsDelimiters(included[1..]);
    }
  }

  lemma {:induction false} RawTokenKeepsCounts(included: string)
    ensures forall c :: !IsDelimiter(c) ==> multiset(RawToken(included))[c] == multiset(included)[c]
  {
    if included != [] {
      RawTokenKeepsCounts(included[1..]);
      assert included == [included[0]] + included[1..];
    }
  }

  lemma {:induction false} RawTokenEmptyIff(included: string)
    ensures RawToken(included) == [] <==> forall i :: 0 <= i < |included| ==> IsDelimiter(included[i])
  {
    if included != [] {
      RawTokenEmptyIff(included[1..]);
      assert forall i :: 1 <= i < |included| ==> included[i] == included[1..][i - 1];
    }
  }

  /** The cleaned token can be empty: with the default pattern,
      `#include <>` captures `<>`, from which nothing is left. */
  lemma DelimiterOnlyTokenIsEmpty(ws1: string, ws2: string, rest: string)
    requires AllSpace(ws1) && ws2 != [] && AllSpace(ws2)
    requires rest == [] || IsSpace(rest[0])
    ensures IncludeMatch(Directive(ws1, ws2, "<>", AnyToken, rest), AnyToken) == Some("<>")
    ensures RawToken("<>") == ""
  {
    DirectiveMatches(ws1, ws2, "<>", AnyToken, rest);
    RawTokenEmptyIff("<>");
  }

  /** RawToken keeps the order of the characters it keeps: a token without
      delimiters comes back unchanged. */
  lemma {:induction false} RawTokenWithoutDelimiters(included: string)
    requires forall i :: 0 <= i < |included| ==> !IsDelimiter(included[i])
    ensures RawToken(included) == included
  {
    if included != [] {
      RawTokenWithoutDelimiters(included[1..]);
      assert included == [included[0]] + included[1..];
    }
  }

  /** `exclude != '' and file in exclude`: the file path is a substring of the
      exclude string (the string is not split into patterns). */
  predicate Excluded(exclude: string, file: string) {
    exclude != "" && Contains(exclude, file)
  }

  /** Excluding is a substring test: a non-empty exclude string skips every
      file path that occurs anywhere in it, e.g. `a.c` inside `lib/a.cpp`. */
  lemma ExcludedByAnyPiece(pre: string, file: string, post: string)
    requires pre + file + post != ""
    ensures Excluded(pre + file + post, file)
  {
    var ex := pre + file + post;
    assert ex[|pre|..|pre| + |file|] == file;
    assert OccursAt(ex, file, |pre|);
  }

  /** `file.rstrip('\n')` and then `re.sub(r'^\./', '', file)`: one leading
      `./` is removed. */
  function CleanPath(file: string): (r: string)
    ensures |r| <= |file|
  {
    var f := TrimTrailing(file, '\n');
    if StartsWith(f, "./") then f[2..] else f
  }

  /** A path without a leading `./` loses only its trailing newlines. */
  lemma CleanPathKeepsPlain(x: string, n: nat)
    requires !StartsWith(x, "./") && (x == [] || x[|x| - 1] != '\n')
    ensures CleanPath(x + seq(n, _ => '\n')) == x
  {
    var s := x + seq(n, _ => '\n');
    var r := TrimTrailing(s, '\n');
    assert x != [] ==> s[|x| - 1] == x[|x| - 1];
    assert |r| == |x|;
    assert r == x;
  }

  /** Only one leading `./` is removed, and any number of trailing
      newlines. */
  lemma CleanPathDropsOnePrefix(x: string, n: nat)
    requires x == [] || x[|x| - 1] != '\n'
    ensures CleanPath("./" + x + seq(n, _ => '\n')) == x
  {
    var s := "./" + x + seq(n, _ => '\n');
    var r := TrimTrailing(s, '\n');
    assert s[1] == '/' && (x != [] ==> s[1 + |x|] == x[|x| - 1]);
    assert |r| == 2 + |x|;
    assert r == "./" + x;
    assert r[2..] == x;
  }
}
