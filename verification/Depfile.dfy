/** Dependency files: the rule cccc writes (src/main.c:58-110), and the reader that
    rewrites its buffer in place (src/build.c:1897-1964). */
module Depfile {
  import opened Common

  predicate IsBlank(c: char) {
    c == ' ' || c == '\t' || c == '\n' || c == '\r'
  }

  // ---------- reading ----------

  /** Backslash-newline and backslash-CRLF become spaces, in place. */
  function Join(s: string): (r: string)
    ensures |r| == |s|
    decreases |s|, 1
  {
    if s == [] then []
    else if |s| >= 2 && s[0] == '\\' && s[1] == '\n' then JoinAfter("  ", s)
    else if |s| >= 3 && s[0] == '\\' && s[1] == '\r' && s[2] == '\n' then JoinAfter("   ", s)
    else JoinAfter([s[0]], s)
  }

  /** What stands for the first characters of s, and the rest joined. */
  function JoinAfter(first: string, s: string): (r: string)
    requires 0 < |first| <= |s|
    ensures |r| == |s|
    decreases |s|, 0
  {
    first + Join(s[|first|..])
  }

  /** One word with its escaped spaces collapsed, and how much text it took. */
  function ReadWord(s: string): (r: (string, nat))
    ensures r.1 <= |s| && |r.0| <= r.1
    ensures s != [] && !IsBlank(s[0]) ==> r.1 > 0 && r.0 != []
    ensures r.1 < |s| ==> IsBlank(s[r.1])
    decreases |s|, 1
  {
    if s == [] || IsBlank(s[0]) then ([], 0)
    else if |s| >= 2 && s[0] == '\\' && s[1] == ' ' then ReadAfter(' ', s, 2)
    else ReadAfter(s[0], s, 1)
  }

  /** The character c for the first k of s, and the rest of the word. */
  function ReadAfter(c: char, s: string, k: nat): (r: (string, nat))
    requires 0 < k <= |s|
    ensures 0 < r.1 <= |s| && |r.0| <= r.1 && r.0 != []
    ensures r.1 < |s| ==> IsBlank(s[r.1])
    decreases |s|, 0
  {
    var (w, n) := ReadWord(s[k..]);
    ([c] + w, n + k)
  }

  function Words(s: string): seq<string>
    decreases |s|
  {
    if s == [] then []
    else if IsBlank(s[0]) then Words(s[1..])
    else
      var (w, n) := ReadWord(s);
      [w] + Words(s[n..])
  }

  /** What follows the first colon, or nothing. */
  function AfterColon(s: string): string {
    if s == [] then [] else if s[0] == ':' then s[1..] else AfterColon(s[1..])
  }

  /** read_dep_prereqs on a file's text. */
  function Prereqs(text: string): seq<string> {
    Words(AfterColon(Join(text)))
  }

  // ---------- writing ----------

  /** Backslash-escapes the characters esc picks. */
  function Escape(esc: char -> bool, s: string): string {
    if s == [] then [] else (if esc(s[0]) then ['\\', s[0]] else [s[0]]) + Escape(esc, s[1..])
  }

  predicate Space(c: char) {
    c == ' '
  }

  /** What write_deps_file escapes. */
  predicate Special(c: char) {
    c == ' ' || c == '\t' || c == '\\' || c == '#'
  }

  /** Blanks and continuations between the paths of a rule. */
  ghost predicate IsGap(g: string) {
    g == []
    || (IsBlank(g[0]) && IsGap(g[1..]))
    || (|g| >= 2 && g[0] == '\\' && g[1] == '\n' && IsGap(g[2..]))
    || (|g| >= 3 && g[0] == '\\' && g[1] == '\r' && g[2] == '\n' && IsGap(g[3..]))
  }

  /** A path a make rule can carry: no backslash, tab or line end. */
  predicate Plain(path: string) {
    path != [] && Clean(path)
  }

  /** The part of a rule behind the colon: a gap before each path, one at the end. */
  function Rule(gaps: seq<string>, paths: seq<string>): string
    requires |gaps| == |paths| + 1
  {
    if paths == [] then gaps[0]
    else gaps[0] + Escape(Space, paths[0]) + Rule(gaps[1..], paths[1..])
  }

  // ---------- a printed rule reads back ----------

  /** s starts a new word or ends the text. */
  predicate Ends(s: string) {
    s == [] || IsBlank(s[0])
  }

  /** s is an escaped space before t. */
  lemma ReadEscaped(s: string, t: string, w: string, n: nat)
    requires s == ['\\', ' '] + t && ReadWord(t) == (w, n)
    ensures ReadWord(s) == ([' '] + w, n + 2)
  {
    assert s[2..] == t;
  }

  /** s is the character c before t. */
  lemma ReadChar(c: char, s: string, t: string, w: string, n: nat)
    requires s == [c] + t && ReadWord(t) == (w, n)
    requires !IsBlank(c) && (c != '\\' || t == [] || t[0] != ' ')
    ensures ReadWord(s) == ([c] + w, n + 1)
  {
    assert s[1..] == t;
  }

  /** No backslash, and no blank but spaces. */
  predicate Clean(s: string) {
    forall i :: 0 <= i < |s| ==> s[i] != '\\' && (IsBlank(s[i]) ==> s[i] == ' ')
  }

  lemma CleanTail(s: string)
    requires Clean(s) && s != []
    ensures Clean(s[1..]) && s[0] != '\\' && (IsBlank(s[0]) ==> s[0] == ' ') && s == [s[0]] + s[1..]
  {
  }

  /** path printed in front of rest. */
  function Onto(path: string, rest: string): string {
    if path == [] then rest
    else (if path[0] == ' ' then ['\\', ' '] else [path[0]]) + Onto(path[1..], rest)
  }

  lemma {:induction false} OntoIs(path: string, rest: string)
    ensures Onto(path, rest) == Escape(Space, path) + rest
    decreases |path|
  {
    if path == [] {
      assert [] + rest == rest;
    } else {
      OntoIs(path[1..], rest);
      Assoc(if path[0] == ' ' then ['\\', ' '] else [path[0]], Escape(Space, path[1..]), rest);
    }
  }

  /** A printed path reads back. */
  lemma {:induction false} WordReads(path: string, rest: string)
    requires Clean(path) && Ends(rest)
    ensures |rest| <= |Onto(path, rest)| && ReadWord(Onto(path, rest)) == (path, |Onto(path, rest)| - |rest|)
    decreases |path|
  {
    if path != [] {
      CleanTail(path);
      WordReads(path[1..], rest);
      var s, t := Onto(path, rest), Onto(path[1..], rest);
      if path[0] == ' ' {
        ReadEscaped(s, t, path[1..], |t| - |rest|);
      } else {
        ReadChar(path[0], s, t, path[1..], |t| - |rest|);
      }
    }
  }

  lemma {:induction false} BlanksSkip(g: string, rest: string)
    requires AllBlank(g)
    ensures Words(g + rest) == Words(rest)
    decreases |g|
  {
    if g == [] {
      assert g + rest == rest;
    } else {
      assert (g + rest)[1..] == g[1..] + rest;
      BlanksSkip(g[1..], rest);
    }
  }

  lemma JoinLf(s: string)
    ensures Join(['\\', '\n'] + s) == "  " + Join(s)
  {
    assert (['\\', '\n'] + s)[2..] == s;
  }

  lemma JoinCrLf(s: string)
    ensures Join(['\\', '\r', '\n'] + s) == "   " + Join(s)
  {
    assert (['\\', '\r', '\n'] + s)[3..] == s;
  }

  ghost predicate AllBlank(s: string) {
    forall i :: 0 <= i < |s| ==> IsBlank(s[i])
  }

  /** A gap's first piece and the rest of it. */
  lemma GapSplits(g: string) returns (h: string, t: string)
    requires IsGap(g) && g != []
    ensures g == h + t && IsGap(t) && |t| < |g|
    ensures (|h| == 1 && IsBlank(h[0])) || h == ['\\', '\n'] || h == ['\\', '\r', '\n']
  {
    var k := if IsBlank(g[0]) && IsGap(g[1..]) then 1 else if g[1] == '\n' then 2 else 3;
    h, t := g[..k], g[k..];
  }

  lemma PieceJoins(h: string, s: string) returns (b: string)
    requires (|h| == 1 && IsBlank(h[0])) || h == ['\\', '\n'] || h == ['\\', '\r', '\n']
    ensures AllBlank(b) && |b| == |h| && Join(h + s) == b + Join(s)
    ensures h == ['\\', '\n'] ==> b == "  "
    ensures h == ['\\', '\r', '\n'] ==> b == "   "
    ensures |h| == 1 ==> b == h
  {
    if |h| == 1 {
      JoinChar(h[0], s);
      assert h == [h[0]];
      b := h;
    } else if |h| == 2 {
      JoinLf(s);
      b := "  ";
    } else {
      JoinCrLf(s);
      b := "   ";
    }
  }

  lemma {:induction false} GapJoins(g: string, rest: string)
    requires IsGap(g)
    ensures Join(g + rest) == Join(g) + Join(rest) && AllBlank(Join(g))
    decreases |g|
  {
    if g == [] {
      assert g + rest == rest;
      assert [] + Join(rest) == Join(rest);
    } else {
      var h, t := GapSplits(g);
      GapJoins(t, rest);
      var b := PieceJoins(h, t + rest);
      var b' := PieceJoins(h, t);
      assert b' == b;
      Assoc(h, t, rest);
      Assoc(b, Join(t), Join(rest));
    }
  }

  lemma JoinChar(c: char, s: string)
    requires c != '\\' || (s != [] && s[0] != '\n' && s[0] != '\r')
    ensures Join([c] + s) == [c] + Join(s)
  {
    assert ([c] + s)[1..] == s;
  }

  /** A printed path has no continuation in it. */
  lemma {:induction false} PathJoins(path: string, rest: string)
    requires Clean(path)
    ensures var e := Escape(Space, path); Join(e + rest) == e + Join(rest)
    decreases |path|
  {
    if path == [] {
      assert [] + rest == rest;
    } else {
      CleanTail(path);
      var e' := Escape(Space, path[1..]);
      PathJoins(path[1..], rest);
      JoinChar(path[0], e' + rest);
      Assoc([path[0]], e', rest);
      Assoc([path[0]], e', Join(rest));
      if path[0] == ' ' {
        var es := [' '] + e';
        assert ['\\', ' '] + e' == ['\\'] + es;
        Assoc(['\\'], es, rest);
        JoinChar('\\', es + rest);
        Assoc(['\\'], es, Join(rest));
      }
    }
  }

  lemma EscapeFirst(path: string)
    requires Plain(path)
    ensures var e := Escape(Space, path); e != [] && !IsBlank(e[0])
  {
    CleanTail(path);
  }

  /** The first word of a text that starts with a printed path. */
  lemma FirstWord(path: string, rest: string)
    requires Plain(path) && Ends(rest)
    ensures Words(Escape(Space, path) + rest) == [path] + Words(rest)
  {
    var e, s := Escape(Space, path), Onto(path, rest);
    OntoIs(path, rest);
    WordReads(path, rest);
    EscapeFirst(path);
    assert s[0] == e[0] && s[|e|..] == rest;
  }

  /** Gaps may hold continuations; only the first and the last may be empty. */
  ghost predicate Gaps(gaps: seq<string>) {
    && (forall i :: 0 <= i < |gaps| ==> IsGap(gaps[i]))
    && (forall i :: 0 < i < |gaps| - 1 ==> gaps[i] != [])
  }

  ghost predicate AllPlain(paths: seq<string>) {
    forall i :: 0 <= i < |paths| ==> Plain(paths[i])
  }

  lemma RuleStarts(gaps: seq<string>, paths: seq<string>)
    requires |gaps| == |paths| + 1 && IsGap(gaps[0]) && (gaps[0] == [] ==> paths == [])
    ensures Ends(Join(Rule(gaps, paths)))
  {
    var g, r := gaps[0], if paths == [] then [] else Escape(Space, paths[0]) + Rule(gaps[1..], paths[1..]);
    assert Rule(gaps, paths) == g + r;
    GapJoins(g, r);
    if g != [] {
      assert (Join(g) + Join(r))[0] == Join(g)[0];
    }
  }

  /** What stands behind the colon of a rule reads as the rule's paths. */
  lemma {:induction false} RuleReads(gaps: seq<string>, paths: seq<string>)
    requires |gaps| == |paths| + 1 && Gaps(gaps) && AllPlain(paths)
    ensures Words(Join(Rule(gaps, paths))) == paths
    decreases |paths|
  {
    var g := gaps[0];
    if paths == [] {
      GapJoins(g, []);
      assert g + [] == g;
      BlanksSkip(Join(g), []);
      assert Join(g) + [] == Join(g);
    } else {
      var e, r := Escape(Space, paths[0]), Rule(gaps[1..], paths[1..]);
      RuleReads(gaps[1..], paths[1..]);
      RuleStarts(gaps[1..], paths[1..]);
      Assoc(g, e, r);
      GapJoins(g, e + r);
      PathJoins(paths[0], r);
      BlanksSkip(Join(g), e + Join(r));
      FirstWord(paths[0], Join(r));
      assert paths == [paths[0]] + paths[1..];
    }
  }

  lemma ColonHere(rest: string)
    ensures AfterColon(Join([':'] + rest)) == Join(rest)
  {
    JoinChar(':', rest);
    assert ([':'] + Join(rest))[1..] == Join(rest);
  }

  /** Continuations in the target do not move the colon. */
  lemma {:induction false} TargetSkips(target: string, rest: string)
    requires ':' !in target
    ensures AfterColon(Join(target + [':'] + rest)) == Join(rest)
    decreases |target|
  {
    var s := target + [':'] + rest;
    if target == [] {
      assert s == [':'] + rest;
      ColonHere(rest);
    } else if LfAt(target, 0) {
      TargetSkips(target[2..], rest);
      assert s == ['\\', '\n'] + (target[2..] + [':'] + rest);
      JoinLf(target[2..] + [':'] + rest);
      SkipPlain("  ", Join(target[2..] + [':'] + rest));
    } else if CrLfAt(target, 0) {
      TargetSkips(target[3..], rest);
      assert s == ['\\', '\r', '\n'] + (target[3..] + [':'] + rest);
      JoinCrLf(target[3..] + [':'] + rest);
      SkipPlain("   ", Join(target[3..] + [':'] + rest));
    } else {
      TargetSkips(target[1..], rest);
      OneChar(target, rest);
      SkipPlain([target[0]], Join(target[1..] + [':'] + rest));
    }
  }

  lemma OneChar(target: string, rest: string)
    requires target != [] && !LfAt(target, 0) && !CrLfAt(target, 0)
    ensures Join(target + [':'] + rest) == [target[0]] + Join(target[1..] + [':'] + rest)
  {
    var s := target + [':'] + rest;
    assert s[1..] == target[1..] + [':'] + rest;
    assert s[0] == target[0] && (|target| >= 2 ==> s[1] == target[1]) && (|target| == 1 ==> s[1] == ':');
    assert |target| == 2 ==> s[2] == ':';
    assert |target| >= 3 ==> s[2] == target[2];
  }

  lemma {:induction false} SkipPlain(a: string, b: string)
    requires ':' !in a
    ensures AfterColon(a + b) == AfterColon(b)
    decreases |a|
  {
    if a == [] {
      assert a + b == b;
    } else {
      assert (a + b)[1..] == a[1..] + b;
      SkipPlain(a[1..], b);
    }
  }

  /** Any make rule over plain paths, with spaces escaped and continuations between
      them, reads back as exactly its paths. */
  lemma RuleRoundTrip(target: string, gaps: seq<string>, paths: seq<string>)
    requires ':' !in target && |gaps| == |paths| + 1 && Gaps(gaps) && AllPlain(paths)
    ensures Prereqs(target + [':'] + Rule(gaps, paths)) == paths
  {
    TargetSkips(target, Rule(gaps, paths));
    RuleReads(gaps, paths);
  }

  // ---------- the rule cccc writes ----------

  /** write_deps_file's list: each name behind a space, special characters escaped. */
  function Listing(names: seq<string>): string {
    if names == [] then [] else Listing(names[..|names| - 1]) + [' '] + Escape(Special, names[|names| - 1])
  }

  function DepsText(target: string, names: seq<string>): string {
    target + [':'] + (Listing(names) + ['\n'])
  }

  predicate Safe(name: string) {
    Clean(name) && '#' !in name
  }

  ghost predicate AllSafe(names: seq<string>) {
    forall i :: 0 <= i < |names| ==> names[i] != [] && Safe(names[i])
  }

  lemma {:induction false} SafeEscape(s: string)
    requires Safe(s)
    ensures Escape(Special, s) == Escape(Space, s)
    decreases |s|
  {
    if s != [] {
      CleanTail(s);
      assert s[0] in s;
      assert forall c :: c in s[1..] ==> c in s;
      SafeEscape(s[1..]);
    }
  }

  lemma ListingSplits(names: seq<string>, tail: string)
    requires names != []
    ensures var k := |names| - 1;
            Listing(names) + tail == Listing(names[..k]) + ([' '] + Escape(Special, names[k]) + tail)
  {
    var k := |names| - 1;
    Assoc(Listing(names[..k]), [' '], Escape(Special, names[k]));
    Assoc(Listing(names[..k]), [' '] + Escape(Special, names[k]), tail);
  }

  lemma Snoc(names: seq<string>, x: seq<string>)
    requires names != []
    ensures names[..|names| - 1] + ([names[|names| - 1]] + x) == names + x
  {
  }

  lemma {:induction false} ListingReads(names: seq<string>, tail: string)
    requires AllSafe(names) && tail != [] && IsBlank(tail[0])
    ensures Words(Join(Listing(names) + tail)) == names + Words(Join(tail))
    decreases |names|
  {
    if names == [] {
      assert Listing(names) + tail == tail;
      assert names + Words(Join(tail)) == Words(Join(tail));
    } else {
      LastReads(names, tail);
      var k := |names| - 1;
      ListingReads(names[..k], [' '] + Escape(Special, names[k]) + tail);
      ListingSplits(names, tail);
      Snoc(names, Words(Join(tail)));
    }
  }

  lemma LastReads(names: seq<string>, tail: string)
    requires AllSafe(names) && names != [] && tail != [] && IsBlank(tail[0])
    ensures var name := names[|names| - 1];
            Words(Join([' '] + Escape(Special, name) + tail)) == [name] + Words(Join(tail))
  {
    var name := names[|names| - 1];
    SafeEscape(name);
    NameReads(name, tail);
  }

  lemma NameReads(name: string, tail: string)
    requires name != [] && Safe(name) && tail != [] && IsBlank(tail[0])
    ensures Words(Join([' '] + Escape(Space, name) + tail)) == [name] + Words(Join(tail))
  {
    var e := Escape(Space, name);
    Assoc([' '], e, tail);
    JoinChar(' ', e + tail);
    PathJoins(name, tail);
    BlanksSkip([' '], e + Join(tail));
    JoinChar(tail[0], tail[1..]);
    assert tail == [tail[0]] + tail[1..];
    FirstWord(name, Join(tail));
  }

  lemma JoinNewline()
    ensures Words(Join(['\n'])) == []
  {
    var s := ['\n'];
    assert s[1..] == [];
    assert Join(s) == ['\n'] + [];
  }

  lemma SafeReadsBack(target: string, names: seq<string>)
    requires ':' !in target && AllSafe(names)
    ensures Prereqs(DepsText(target, names)) == names
  {
    TargetSkips(target, Listing(names) + ['\n']);
    ListingReads(names, ['\n']);
    JoinNewline();
    assert names + [] == names;
  }

  // ---------- where that rule does not read back ----------

  function Count(c: char, s: string): nat {
    if s == [] then 0 else (if s[0] == c then 1 else 0) + Count(c, s[1..])
  }

  function CountAll(c: char, ss: seq<string>): nat {
    if ss == [] then 0 else CountAll(c, ss[..|ss| - 1]) + Count(c, ss[|ss| - 1])
  }

  lemma {:induction false} CountAppend(c: char, a: string, b: string)
    ensures Count(c, a + b) == Count(c, a) + Count(c, b)
    decreases |a|
  {
    if a == [] {
      assert a + b == b;
    } else {
      assert (a + b)[1..] == a[1..] + b;
      CountAppend(c, a[1..], b);
    }
  }

  lemma {:induction false} CountZero(c: char, s: string)
    ensures Count(c, s) == 0 <==> c !in s
    decreases |s|
  {
    if s != [] {
      CountZero(c, s[1..]);
      assert s == [s[0]] + s[1..];
    }
  }

  lemma {:induction false} CountAllCons(c: char, w: string, ss: seq<string>)
    ensures CountAll(c, [w] + ss) == Count(c, w) + CountAll(c, ss)
    decreases |ss|
  {
    var all := [w] + ss;
    var n := |all| - 1;
    if ss == [] {
      assert all[..0] == [];
      assert CountAll(c, all[..0]) == 0;
    } else {
      assert all[..n] == [w] + ss[..|ss| - 1];
      CountAllCons(c, w, ss[..|ss| - 1]);
    }
  }

  /** What a prefix adds to the backslashes of a text and of a word with its spaces. */
  lemma PrefixCounts(h: string, t: string, c: char, w: string)
    ensures Count('\\', h + t) == Count('\\', h) + Count('\\', t)
    ensures Count('\\', [c] + w) + Count(' ', [c] + w)
         == (if c == '\\' || c == ' ' then 1 else 0) + Count('\\', w) + Count(' ', w)
  {
    CountAppend('\\', h, t);
    assert ([c] + w)[1..] == w;
  }

  /** Reading a word drops a backslash for each space it keeps, and nothing else. */
  lemma {:induction false} WordCounts(s: string)
    ensures var (w, n) := ReadWord(s); Count('\\', w) + Count(' ', w) == Count('\\', s[..n])
    decreases |s|
  {
    if s != [] && !IsBlank(s[0]) {
      if |s| >= 2 && s[0] == '\\' && s[1] == ' ' {
        WordCounts(s[2..]);
        var (w, n) := ReadWord(s[2..]);
        assert s[..n + 2] == ['\\', ' '] + s[2..][..n];
        EscapedCounts(s[2..][..n], w);
      } else {
        WordCounts(s[1..]);
        var (w, n) := ReadWord(s[1..]);
        assert s[..n + 1] == [s[0]] + s[1..][..n];
        PrefixCounts([s[0]], s[1..][..n], s[0], w);
        assert [s[0]][1..] == [];
      }
    }
  }

  lemma EscapedCounts(t: string, w: string)
    requires Count('\\', w) + Count(' ', w) == Count('\\', t)
    ensures Count('\\', [' '] + w) + Count(' ', [' '] + w) == Count('\\', ['\\', ' '] + t)
  {
    PrefixCounts(['\\', ' '], t, ' ', w);
    assert ['\\', ' '][1..] == [' '] && [' '][1..] == [];
  }

  lemma {:induction false} WordsCount(s: string)
    ensures CountAll('\\', Words(s)) + CountAll(' ', Words(s)) == Count('\\', s)
    decreases |s|
  {
    if s != [] {
      if IsBlank(s[0]) {
        WordsCount(s[1..]);
      } else {
        var (w, n) := ReadWord(s);
        WordsCount(s[n..]);
        WordCounts(s);
        assert s == s[..n] + s[n..];
        CountAppend('\\', s[..n], s[n..]);
        CountAllCons('\\', w, Words(s[n..]));
        CountAllCons(' ', w, Words(s[n..]));
      }
    }
  }

  /** A word read never holds a tab or a line end. */
  lemma {:induction false} WordBlanks(s: string)
    ensures OnlySpaces(ReadWord(s).0)
    decreases |s|
  {
    if s != [] && !IsBlank(s[0]) {
      if |s| >= 2 && s[0] == '\\' && s[1] == ' ' { WordBlanks(s[2..]); } else { WordBlanks(s[1..]); }
    }
  }

  lemma {:induction false} WordsBlanks(s: string, i: nat)
    requires i < |Words(s)|
    ensures Words(s)[i] != [] && OnlySpaces(Words(s)[i])
    decreases |s|
  {
    if IsBlank(s[0]) {
      WordsBlanks(s[1..], i);
    } else {
      WordBlanks(s);
      if i > 0 { WordsBlanks(s[ReadWord(s).1..], i - 1); }
    }
  }

  lemma {:induction false} EscapeCounts(s: string)
    requires forall c :: c in s && IsBlank(c) ==> c == ' '
    ensures Count('\\', Escape(Special, s)) == Count(' ', s) + 2 * Count('\\', s) + Count('#', s)
    ensures '\n' !in Escape(Special, s) && '\r' !in Escape(Special, s)
    decreases |s|
  {
    if s != [] {
      EscapeCounts(s[1..]);
      var h := if Special(s[0]) then ['\\', s[0]] else [s[0]];
      CountAppend('\\', h, Escape(Special, s[1..]));
      assert s[0] in s;
      assert h[1..] == if Special(s[0]) then [s[0]] else [];
    }
  }

  /** The final newline joins only with a backslash right before it. */
  lemma {:induction false} JoinLine(x: string)
    requires '\n' !in x && '\r' !in x
    ensures Join(x + ['\n']) ==
            if x != [] && x[|x| - 1] == '\\' then x[..|x| - 1] + "  " else x + ['\n']
    decreases |x|
  {
    if x == [] {
      assert [] + ['\n'] == ['\n'] + [];
      JoinChar('\n', []);
    } else if x == ['\\'] {
      assert x + ['\n'] == ['\\', '\n'] + [];
      JoinLf([]);
    } else {
      var t := x[1..];
      assert x == [x[0]] + t;
      Assoc([x[0]], t, ['\n']);
      JoinLine(t);
      assert t != [] ==> t[0] in x && (t + ['\n'])[0] == t[0];
      JoinChar(x[0], t + ['\n']);
      assert t != [] && t[|t| - 1] == '\\' ==> [x[0]] + (t[..|t| - 1] + "  ") == x[..|x| - 1] + "  ";
    }
  }

  lemma {:induction false} ListingCounts(names: seq<string>)
    requires forall i :: 0 <= i < |names| ==> OnlySpaces(names[i])
    ensures Count('\\', Listing(names)) == CountAll(' ', names) + 2 * CountAll('\\', names) + CountAll('#', names)
    ensures '\n' !in Listing(names) && '\r' !in Listing(names)
    decreases |names|
  {
    if names != [] {
      var k := |names| - 1;
      ListingCounts(names[..k]);
      EscapeCounts(names[k]);
      CountAppend('\\', Listing(names[..k]) + [' '], Escape(Special, names[k]));
      CountAppend('\\', Listing(names[..k]), [' ']);
    }
  }

  ghost predicate OnlySpaces(s: string) {
    forall c :: c in s && IsBlank(c) ==> c == ' '
  }

  lemma {:induction false} CountAllZero(c: char, names: seq<string>, i: nat)
    requires CountAll(c, names) == 0 && i < |names|
    ensures c !in names[i]
    decreases |names|
  {
    var k := |names| - 1;
    CountZero(c, names[k]);
    if i < k { CountAllZero(c, names[..k], i); }
  }

  lemma NoneIsSafe(names: seq<string>)
    requires forall i :: 0 <= i < |names| ==> names[i] != [] && OnlySpaces(names[i])
    requires CountAll('\\', names) == 0 && CountAll('#', names) == 0
    ensures AllSafe(names)
  {
    forall i | 0 <= i < |names| ensures Safe(names[i]) {
      CountAllZero('\\', names, i);
      CountAllZero('#', names, i);
    }
  }

  lemma {:induction false} EscapeAppend(s: string, c: char)
    ensures Escape(Special, s + [c]) == Escape(Special, s) + if Special(c) then ['\\', c] else [c]
    decreases |s|
  {
    if s == [] {
      assert s + [c] == [c];
      assert [c][1..] == [];
    } else {
      assert (s + [c])[1..] == s[1..] + [c];
      EscapeAppend(s[1..], c);
    }
  }

  /** A last name ending in a backslash reads as one ending in a space. */
  lemma TrailingBackslash(pre: string)
    requires Safe(pre)
    ensures Words(Join([' '] + Escape(Special, pre + ['\\']) + ['\n'])) == [pre + [' ']]
  {
    var e := Escape(Space, pre);
    SafeEscape(pre);
    EscapeAppend(pre, '\\');
    var tail := ['\\', '\\', '\n'];
    assert [' '] + (e + ['\\', '\\']) + ['\n'] == [' '] + (e + tail);
    JoinChar(' ', e + tail);
    PathJoins(pre, tail);
    assert tail == ['\\', '\\'] + ['\n'];
    JoinLine(['\\', '\\']);
    assert ['\\', '\\'][..1] == ['\\'];
    var joined := ['\\', ' ', ' '];
    assert Join(tail) == joined;
    BlanksSkip([' '], e + joined);
    EndsInSpace(pre, e);
  }

  lemma EndsInSpace(pre: string, e: string)
    requires Clean(pre) && e == Escape(Space, pre)
    ensures Words(e + ['\\', ' ', ' ']) == [pre + [' ']]
  {
    var name := pre + [' '];
    EscapeSpace(pre);
    Assoc(e, ['\\', ' '], [' ']);
    assert ['\\', ' '] + [' '] == ['\\', ' ', ' '];
    FirstWord(name, [' ']);
    BlanksSkip([' '], []);
    assert [' '] + [] == [' '];
  }

  lemma {:induction false} EscapeSpace(s: string)
    ensures Escape(Space, s + [' ']) == Escape(Space, s) + ['\\', ' ']
    decreases |s|
  {
    if s == [] {
      assert s + [' '] == [' '];
      assert [' '][1..] == [];
    } else {
      assert (s + [' '])[1..] == s[1..] + [' '];
      EscapeSpace(s[1..]);
    }
  }

  /** The rule cccc writes reads back as its names exactly when the target holds no colon
      and no name is empty or holds a tab, a line end, a backslash or a hash. */
  lemma ReadsBackExactly(target: string, names: seq<string>)
    ensures Prereqs(DepsText(target, names)) == names <==> ':' !in target && AllSafe(names)
  {
    if ':' !in target && AllSafe(names) { SafeReadsBack(target, names); }
    if Prereqs(DepsText(target, names)) == names {
      forall i | 0 <= i < |names| ensures names[i] != [] && OnlySpaces(names[i]) {
        WordsBlanks(AfterColon(Join(DepsText(target, names))), i);
      }
      if ':' in target {
        ColonReadsMore(target, names);
      } else {
        TargetSkips(target, Listing(names) + ['\n']);
        ReadBackIsSafe(names);
      }
    }
  }

  predicate EndsInBackslash(x: string) {
    x != [] && x[|x| - 1] == '\\'
  }

  lemma LineCounts(x: string)
    requires '\n' !in x && '\r' !in x
    ensures Count('\\', Join(x + ['\n'])) == Count('\\', x) - if EndsInBackslash(x) then 1 else 0
  {
    JoinLine(x);
    if EndsInBackslash(x) {
      var n := |x| - 1;
      assert x == x[..n] + ['\\'];
      CountAppend('\\', x[..n], ['\\']);
      CountAppend('\\', x[..n], "  ");
    } else {
      CountAppend('\\', x, ['\n']);
    }
  }

  lemma Balance(names: seq<string>, x: string, text: string)
    requires forall i :: 0 <= i < |names| ==> OnlySpaces(names[i])
    requires x == Listing(names) && text == Join(x + ['\n']) && Words(text) == names
    ensures CountAll('\\', names) + CountAll('#', names) == if EndsInBackslash(x) then 1 else 0
  {
    ListingCounts(names);
    LineCounts(x);
    WordsCount(text);
  }

  lemma ReadBackIsSafe(names: seq<string>)
    requires forall i :: 0 <= i < |names| ==> names[i] != []
    requires Words(Join(Listing(names) + ['\n'])) == names
    ensures AllSafe(names)
  {
    var x := Listing(names);
    var text := Join(x + ['\n']);
    forall i | 0 <= i < |names| ensures OnlySpaces(names[i]) { WordsBlanks(text, i); }
    Balance(names, x, text);
    if !EndsInBackslash(x) {
      NoneIsSafe(names);
    } else {
      LastReadsWrong(names);
    }
  }

  /** A listing ends in the last character of its last name. */
  lemma LastCharacter(names: seq<string>) returns (pre: string)
    requires (forall i :: 0 <= i < |names| ==> names[i] != []) && EndsInBackslash(Listing(names))
    ensures names != [] && names[|names| - 1] == pre + ['\\']
  {
    var name := names[|names| - 1];
    var m := |name| - 1;
    pre := name[..m];
    assert name == pre + [name[m]];
    EscapeAppend(pre, name[m]);
  }

  lemma RestIsSafe(names: seq<string>, init: seq<string>, pre: string)
    requires forall i :: 0 <= i < |names| ==> names[i] != [] && OnlySpaces(names[i])
    requires names != [] && init == names[..|names| - 1] && names[|names| - 1] == pre + ['\\']
    requires CountAll('\\', names) + CountAll('#', names) == 1
    ensures AllSafe(init) && Safe(pre)
  {
    CountAppend('\\', pre, ['\\']);
    CountAppend('#', pre, ['\\']);
    NoneIsSafe(init);
    CountZero('\\', pre);
    CountZero('#', pre);
    forall i | 0 <= i < |pre| ensures pre[i] != '\\' && (IsBlank(pre[i]) ==> pre[i] == ' ') {
      assert pre[i] in pre + ['\\'];
    }
  }

  lemma LastReadsWrong(names: seq<string>)
    requires forall i :: 0 <= i < |names| ==> names[i] != [] && OnlySpaces(names[i])
    requires CountAll('\\', names) + CountAll('#', names) == 1 && EndsInBackslash(Listing(names))
    ensures Words(Join(Listing(names) + ['\n'])) != names
  {
    var pre := LastCharacter(names);
    var k := |names| - 1;
    RestIsSafe(names, names[..k], pre);
    ReadsWrong(names, names[..k], names[k], pre);
    Differs(names, pre);
  }

  lemma Differs(names: seq<string>, pre: string)
    requires names != [] && names[|names| - 1] == pre + ['\\']
    ensures names[..|names| - 1] + [pre + [' ']] != names
  {
    var k := |names| - 1;
    assert (names[..k] + [pre + [' ']])[k] == pre + [' '];
    assert (pre + [' '])[|pre|] != (pre + ['\\'])[|pre|];
  }

  lemma ReadsWrong(names: seq<string>, init: seq<string>, name: string, pre: string)
    requires names != [] && init == names[..|names| - 1] && name == names[|names| - 1]
    requires AllSafe(init) && Safe(pre) && name == pre + ['\\']
    ensures Words(Join(Listing(names) + ['\n'])) == init + [pre + [' ']]
  {
    ListingSplits(names, ['\n']);
    ListingReads(init, [' '] + Escape(Special, name) + ['\n']);
    TrailingBackslash(pre);
  }

  // ---------- a colon in the target ----------

  /** How many characters of s are not blank. */
  function Ink(s: string): nat {
    if s == [] then 0 else (if IsBlank(s[0]) then 0 else 1) + Ink(s[1..])
  }

  function Lengths(ss: seq<string>): nat {
    if ss == [] then 0 else Lengths(ss[..|ss| - 1]) + |ss[|ss| - 1]|
  }

  lemma {:induction false} InkAppend(a: string, b: string)
    ensures Ink(a + b) == Ink(a) + Ink(b)
    decreases |a|
  {
    if a == [] {
      assert a + b == b;
    } else {
      assert (a + b)[1..] == a[1..] + b;
      InkAppend(a[1..], b);
    }
  }

  lemma {:induction false} LengthsCons(w: string, ss: seq<string>)
    ensures Lengths([w] + ss) == |w| + Lengths(ss)
    decreases |ss|
  {
    var all := [w] + ss;
    var n := |all| - 1;
    if ss == [] {
      assert all[..0] == [];
      assert Lengths(all[..0]) == 0;
    } else {
      assert all[..n] == [w] + ss[..|ss| - 1];
      LengthsCons(w, ss[..|ss| - 1]);
    }
  }

  /** A word has one character for each character of its text that is not blank. */
  lemma {:induction false} WordInk(s: string)
    ensures var (w, n) := ReadWord(s); |w| == Ink(s[..n])
    decreases |s|
  {
    if s != [] && !IsBlank(s[0]) {
      if |s| >= 2 && s[0] == '\\' && s[1] == ' ' {
        WordInk(s[2..]);
        var (w, n) := ReadWord(s[2..]);
        assert s[..n + 2] == ['\\', ' '] + s[2..][..n];
        InkAppend(['\\', ' '], s[2..][..n]);
        assert ['\\', ' '][1..] == [' '] && [' '][1..] == [];
      } else {
        WordInk(s[1..]);
        var (w, n) := ReadWord(s[1..]);
        assert s[..n + 1] == [s[0]] + s[1..][..n];
        InkAppend([s[0]], s[1..][..n]);
        assert [s[0]][1..] == [];
      }
    }
  }

  lemma {:induction false} WordsInk(s: string)
    ensures Lengths(Words(s)) == Ink(s)
    decreases |s|
  {
    if s != [] {
      if IsBlank(s[0]) {
        WordsInk(s[1..]);
      } else {
        var (w, n) := ReadWord(s);
        WordsInk(s[n..]);
        WordInk(s);
        assert s == s[..n] + s[n..];
        InkAppend(s[..n], s[n..]);
        LengthsCons(w, Words(s[n..]));
      }
    }
  }

  lemma {:induction false} EscapeInk(s: string)
    requires OnlySpaces(s)
    ensures Ink(Escape(Special, s)) == |s| + Count('\\', s) + Count('#', s)
    decreases |s|
  {
    if s != [] {
      EscapeInk(s[1..]);
      var h := if Special(s[0]) then ['\\', s[0]] else [s[0]];
      InkAppend(h, Escape(Special, s[1..]));
      assert s[0] in s;
      assert h[1..] == if Special(s[0]) then [s[0]] else [];
    }
  }

  lemma {:induction false} ListingInk(names: seq<string>)
    requires forall i :: 0 <= i < |names| ==> OnlySpaces(names[i])
    ensures Ink(Listing(names)) == Lengths(names) + CountAll('\\', names) + CountAll('#', names)
    decreases |names|
  {
    if names != [] {
      var k := |names| - 1;
      ListingInk(names[..k]);
      EscapeInk(names[k]);
      InkAppend(Listing(names[..k]) + [' '], Escape(Special, names[k]));
      InkAppend(Listing(names[..k]), [' ']);
    }
  }

  lemma LineInk(x: string)
    requires '\n' !in x && '\r' !in x
    ensures Ink(Join(x + ['\n'])) == Ink(x) - if EndsInBackslash(x) then 1 else 0
  {
    JoinLine(x);
    if EndsInBackslash(x) {
      var n := |x| - 1;
      assert x == x[..n] + ['\\'];
      InkAppend(x[..n], ['\\']);
      InkAppend(x[..n], "  ");
    } else {
      InkAppend(x, ['\n']);
    }
  }

  /** A listing holds at least the characters of its names, whatever its last line end
      takes. */
  lemma ListingCovers(names: seq<string>)
    requires forall i :: 0 <= i < |names| ==> names[i] != [] && OnlySpaces(names[i])
    ensures Lengths(names) <= Ink(Join(Listing(names) + ['\n']))
  {
    ListingInk(names);
    ListingCounts(names);
    LineInk(Listing(names));
    if EndsInBackslash(Listing(names)) {
      var pre := LastCharacter(names);
      CountAppend('\\', pre, ['\\']);
    }
  }

  /** What a colon behind q leaves of the text. */
  lemma {:induction false} ColonInk(q: string, rest: string)
    ensures Ink(Join(q + [':'] + rest)) >= 1 + Ink(Join(rest))
    decreases |q|
  {
    var s := q + [':'] + rest;
    if q == [] {
      assert s == [':'] + rest;
      JoinChar(':', rest);
      InkAppend([':'], Join(rest));
    } else if LfAt(q, 0) {
      ColonInk(q[2..], rest);
      assert s == ['\\', '\n'] + (q[2..] + [':'] + rest);
      JoinLf(q[2..] + [':'] + rest);
      InkAppend("  ", Join(q[2..] + [':'] + rest));
    } else if CrLfAt(q, 0) {
      ColonInk(q[3..], rest);
      assert s == ['\\', '\r', '\n'] + (q[3..] + [':'] + rest);
      JoinCrLf(q[3..] + [':'] + rest);
      InkAppend("   ", Join(q[3..] + [':'] + rest));
    } else {
      ColonInk(q[1..], rest);
      OneChar(q, rest);
      InkAppend([q[0]], Join(q[1..] + [':'] + rest));
    }
  }

  lemma {:induction false} FirstColon(target: string) returns (p: string, q: string)
    requires ':' in target
    ensures target == p + [':'] + q && ':' !in p
    decreases |target|
  {
    if target[0] == ':' {
      p, q := [], target[1..];
    } else {
      assert target == [target[0]] + target[1..];
      var p': string;
      p', q := FirstColon(target[1..]);
      p := [target[0]] + p';
    }
  }

  /** A target with a colon leaves more to read than any names have characters. */
  lemma ColonReadsMore(target: string, names: seq<string>)
    requires ':' in target && forall i :: 0 <= i < |names| ==> names[i] != [] && OnlySpaces(names[i])
    ensures Prereqs(DepsText(target, names)) != names
  {
    var line := Listing(names) + ['\n'];
    var p, q := FirstColon(target);
    Assoc(p + [':'], q, [':']);
    Assoc(p + [':'], q + [':'], line);
    TargetSkips(p, q + [':'] + line);
    WordsInk(Join(q + [':'] + line));
    ColonInk(q, line);
    ListingCovers(names);
  }

  // ---------- the reader ----------

  /** A C string of n characters in buf. */
  ghost predicate CString(buf: array<char>, n: nat)
    reads buf
  {
    n < buf.Length && buf[n] == '\0' && '\0' !in buf[..n]
  }

  predicate LfAt(s: string, p: nat) {
    p + 1 < |s| && s[p] == '\\' && s[p + 1] == '\n'
  }

  predicate CrLfAt(s: string, p: nat) {
    p + 2 < |s| && s[p] == '\\' && s[p + 1] == '\r' && s[p + 2] == '\n'
  }

  lemma LfPoint(s: string, p: nat, t: string)
    requires LfAt(s, p) && t == s[p := ' '][p + 1 := ' ']
    ensures s[..p] + Join(s[p..]) == t[..p + 1] + Join(t[p + 1..])
  {
    var rest := s[p + 2..];
    assert s[p..] == ['\\', '\n'] + rest && t[p + 1..] == [' '] + rest && t[..p + 1] == s[..p] + [' '];
    JoinLf(rest);
    JoinChar(' ', rest);
  }

  lemma CrLfPoint(s: string, p: nat, t: string)
    requires CrLfAt(s, p) && t == s[p := ' '][p + 1 := ' '][p + 2 := ' ']
    ensures s[..p] + Join(s[p..]) == t[..p + 1] + Join(t[p + 1..])
  {
    var rest := s[p + 3..];
    assert s[p..] == ['\\', '\r', '\n'] + rest && t[p + 1..] == [' '] + ([' '] + rest) && t[..p + 1] == s[..p] + [' '];
    JoinCrLf(rest);
    JoinChar(' ', rest);
    JoinChar(' ', [' '] + rest);
  }

  lemma JoinPoint(s: string, p: nat, t: string)
    requires p < |s|
    requires t == if LfAt(s, p) then s[p := ' '][p + 1 := ' ']
                  else if CrLfAt(s, p) then s[p := ' '][p + 1 := ' '][p + 2 := ' '] else s
    ensures |t| == |s| && s[..p] + Join(s[p..]) == t[..p + 1] + Join(t[p + 1..])
  {
    if LfAt(s, p) {
      LfPoint(s, p, t);
    } else if CrLfAt(s, p) {
      CrLfPoint(s, p, t);
    } else {
      assert s[p..][1..] == s[p + 1..];
      assert s[..p + 1] == s[..p] + [s[p]];
    }
  }

  method JoinInPlace(buf: array<char>, n: nat)
    requires CString(buf, n)
    modifies buf
    ensures buf[..n] == Join(old(buf[..n])) && buf[n] == '\0'
  {
    for p := 0 to n
      invariant buf[n] == '\0' && '\0' !in buf[..n]
      invariant buf[..p] + Join(buf[p..n]) == Join(old(buf[..n]))
    {
      ghost var s := buf[..n];
      assert s[..p] == buf[..p] && s[p..] == buf[p..n];
      assert s[p] == buf[p] && (p + 1 < n ==> s[p + 1] == buf[p + 1]) && (p + 2 < n ==> s[p + 2] == buf[p + 2]);
      if buf[p] == '\\' && buf[p + 1] == '\n' {
        buf[p], buf[p + 1] := ' ', ' ';
        assert buf[..n] == s[p := ' '][p + 1 := ' '];
      } else if buf[p] == '\\' && buf[p + 1] == '\r' && buf[p + 2] == '\n' {
        buf[p], buf[p + 1], buf[p + 2] := ' ', ' ', ' ';
        assert buf[..n] == s[p := ' '][p + 1 := ' '][p + 2 := ' '];
      }
      ghost var t := buf[..n];
      JoinPoint(s, p, t);
      assert t[..p + 1] == buf[..p + 1] && t[p + 1..] == buf[p + 1..n];
    }
  }

  lemma ColonAt(s: string, c: nat)
    requires c <= |s| && ':' !in s[..c] && (c < |s| ==> s[c] == ':')
    ensures AfterColon(s) == if c < |s| then s[c + 1..] else []
  {
    assert s == s[..c] + s[c..];
    SkipPlain(s[..c], s[c..]);
  }

  method FindColon(buf: array<char>, n: nat) returns (c: nat)
    requires CString(buf, n)
    ensures c <= n && ':' !in buf[..c] && (c < n ==> buf[c] == ':')
    ensures AfterColon(buf[..n]) == if c < n then buf[c + 1..n] else []
  {
    c := 0;
    while c < n && buf[c] != ':'
      invariant c <= n && ':' !in buf[..c]
    {
      assert buf[..c + 1] == buf[..c] + [buf[c]];
      c := c + 1;
    }
    ghost var s := buf[..n];
    assert s[..c] == buf[..c];
    ColonAt(s, c);
    if c < n { assert s[c + 1..] == buf[c + 1..n]; }
  }

  /** Scanning j from p on, with tok of the word read so far. */
  ghost predicate Scanning(j: string, tok: string, p: nat, word: (string, nat), start: nat) {
    p <= |j| && tok + ReadWord(j[p..]).0 == word.0 && p + ReadWord(j[p..]).1 == start + word.1
  }

  lemma ScanStep(j: string, tok: string, p: nat, word: (string, nat), start: nat)
    requires p < |j| && !IsBlank(j[p]) && Scanning(j, tok, p, word, start)
    ensures if p + 1 < |j| && j[p] == '\\' && j[p + 1] == ' ' then Scanning(j, tok + [' '], p + 2, word, start)
            else Scanning(j, tok + [j[p]], p + 1, word, start)
  {
    var s := j[p..];
    if p + 1 < |j| && j[p] == '\\' && j[p + 1] == ' ' {
      var t := j[p + 2..];
      var (w, n) := ReadWord(t);
      assert s == ['\\', ' '] + t;
      ReadEscaped(s, t, w, n);
      Assoc(tok, [' '], w);
    } else {
      var t := j[p + 1..];
      var (w, n) := ReadWord(t);
      assert s == [j[p]] + t;
      ReadChar(j[p], s, t, w, n);
      Assoc(tok, [j[p]], w);
    }
  }

  lemma ScanEnds(j: string, tok: string, p: nat, word: (string, nat), start: nat)
    requires Scanning(j, tok, p, word, start) && (p < |j| ==> IsBlank(j[p]))
    ensures tok == word.0 && p == start + word.1
  {
    if p < |j| { assert j[p..][0] == j[p]; }
    assert tok + [] == tok;
  }

  /** b holds the word collapsed so far in [start, w), and the text from p on. */
  ghost predicate Collapsing(b: string, j: string, start: nat, w: nat, p: nat, word: (string, nat)) {
    && start <= w <= p <= |j| < |b| && b[|j|] == '\0' && (forall k :: p <= k < |j| ==> b[k] == j[k])
    && Scanning(j, b[start..w], p, word, start)
  }

  lemma CollapseStep(b: string, j: string, start: nat, w: nat, p: nat, word: (string, nat), c: char, step: nat)
    requires Collapsing(b, j, start, w, p, word) && p < |j| && !IsBlank(j[p])
    requires if b[p] == '\\' && b[p + 1] == ' ' then c == ' ' && step == 2 else c == j[p] && step == 1
    ensures Collapsing(b[w := c], j, start, w + 1, p + step, word)
  {
    var tok, b' := b[start..w], b[w := c];
    ScanStep(j, tok, p, word, start);
    assert b'[start..w + 1] == tok + [c];
    assert b[p] == j[p] && (p + 1 < |j| ==> b[p + 1] == j[p + 1]);
  }

  /** One word, collapsed in place: what is written never passes what is read. */
  method CollapseWord(buf: array<char>, n: nat, start: nat, ghost j: string) returns (w: nat, p: nat)
    requires n == |j| && start < n < buf.Length && !IsBlank(j[start]) && buf[n] == '\0'
    requires forall k :: start <= k < n ==> buf[k] == j[k]
    modifies buf
    ensures start < w <= p <= n && buf[n] == '\0' && (forall k :: p <= k < n ==> buf[k] == j[k])
    ensures (buf[start..w], p - start) == ReadWord(j[start..])
  {
    w, p := start, start;
    ghost var word := ReadWord(j[start..]);
    CollapseStart(buf[..], j, start);
    while p < n && !IsBlank(buf[p])
      invariant w <= p <= n && Collapsing(buf[..], j, start, w, p, word)
      decreases n - p
    {
      p := CollapseChar(buf, w, p, start, j, word);
      w := w + 1;
    }
    ghost var b := buf[..];
    CollapseEnd(b, j, start, w, p, word);
    assert b[start..w] == buf[start..w];
    assert forall k :: p <= k <= n ==> buf[k] == b[k];
  }

  method CollapseChar(buf: array<char>, w: nat, p: nat, ghost start: nat, ghost j: string, ghost word: (string, nat))
    returns (p': nat)
    requires p < |j| && Collapsing(buf[..], j, start, w, p, word) && !IsBlank(buf[p])
    modifies buf
    ensures p < p' <= |j| && Collapsing(buf[..], j, start, w + 1, p', word)
  {
    ghost var b := buf[..];
    var escaped := buf[p] == '\\' && buf[p + 1] == ' ';
    var c := if escaped then ' ' else buf[p];
    p' := if escaped then p + 2 else p + 1;
    CollapseStep(b, j, start, w, p, word, c, p' - p);
    buf[w] := c;
    assert buf[..] == b[w := c];
  }

  lemma CollapseEnd(b: string, j: string, start: nat, w: nat, p: nat, word: (string, nat))
    requires Collapsing(b, j, start, w, p, word) && (p < |j| ==> IsBlank(b[p]))
    requires start < |j| && !IsBlank(j[start]) && word == ReadWord(j[start..])
    ensures start < w && (b[start..w], p - start) == word
  {
    ScanEnds(j, b[start..w], p, word, start);
    assert j[start..][0] == j[start];
  }

  lemma CollapseStart(b: string, j: string, start: nat)
    requires start <= |j| < |b| && b[|j|] == '\0' && forall k :: start <= k < |j| ==> b[k] == j[k]
    ensures Collapsing(b, j, start, start, start, ReadWord(j[start..]))
  {
    assert b[start..start] == [];
    assert [] + ReadWord(j[start..]).0 == ReadWord(j[start..]).0;
  }

  /** The tokenizer behind the colon. */
  method ReadWords(buf: array<char>, n: nat, from: nat, ghost j: string) returns (out: seq<string>)
    requires n == |j| && from <= n < buf.Length && buf[n] == '\0' && forall k :: from <= k < n ==> buf[k] == j[k]
    modifies buf
    ensures out == Words(j[from..])
  {
    out := [];
    var p := from;
    while p < n
      invariant from <= p <= n && buf[n] == '\0' && forall k :: p <= k < n ==> buf[k] == j[k]
      invariant out + Words(j[p..]) == Words(j[from..])
      decreases n - p
    {
      ghost var s := j[p..];
      if IsBlank(buf[p]) {
        assert s[1..] == j[p + 1..];
        p := p + 1;
      } else {
        var start := p;
        var w: nat;
        w, p := CollapseWord(buf, n, start, j);
        WordAt(j, start, p, buf[start..w]);
        Snoc2(out, buf[start..w], Words(j[p..]));
        out := out + [buf[start..w]];
      }
    }
    assert j[n..] == [];
    assert out + [] == out;
  }

  lemma WordAt(j: string, start: nat, p: nat, w: string)
    requires start < p <= |j| && !IsBlank(j[start]) && ReadWord(j[start..]) == (w, p - start)
    ensures Words(j[start..]) == [w] + Words(j[p..])
  {
    assert j[start..][p - start..] == j[p..];
    assert j[start..][0] == j[start];
  }

  lemma Snoc2(out: seq<string>, w: string, rest: seq<string>)
    ensures out + ([w] + rest) == out + [w] + rest
  {
  }

  /** read_dep_prereqs over the file's text in buf. */
  method ReadDepPrereqs(buf: array<char>, n: nat) returns (out: seq<string>)
    requires CString(buf, n)
    modifies buf
    ensures out == Prereqs(old(buf[..n]))
  {
    JoinInPlace(buf, n);
    ghost var j := buf[..n];
    JoinNoNul(old(buf[..n]));
    var c := FindColon(buf, n);
    if c == n { return []; }
    assert j[c + 1..] == buf[c + 1..n];
    out := ReadWords(buf, n, c + 1, j);
  }

  lemma {:induction false} JoinNoNul(s: string)
    requires '\0' !in s
    ensures '\0' !in Join(s)
    decreases |s|
  {
    if s != [] {
      if LfAt(s, 0) { JoinNoNul(s[2..]); } else if CrLfAt(s, 0) { JoinNoNul(s[3..]); } else { JoinNoNul(s[1..]); }
    }
  }

  // ---------- the writer ----------

  /** The non-empty names, each where it first occurs. */
  function Uniq(files: seq<string>): seq<string> {
    if files == [] then []
    else
      var k := |files| - 1;
      var u := Uniq(files[..k]);
      if files[k] == [] || files[k] in u then u else u + [files[k]]
  }

  lemma {:induction false} UniqIs(files: seq<string>)
    ensures forall f :: f in Uniq(files) <==> f in files && f != []
    ensures forall i, j :: 0 <= i < j < |Uniq(files)| ==> Uniq(files)[i] != Uniq(files)[j]
    decreases |files|
  {
    if files != [] {
      var k := |files| - 1;
      UniqIs(files[..k]);
      assert files == files[..k] + [files[k]];
    }
  }

  /** write_deps_file. */
  method WriteDeps(target: string, files: seq<string>) returns (text: string)
    ensures text == DepsText(target, Uniq(files))
  {
    text := target + [':'];
    var seen: seq<string> := [];
    for i := 0 to |files|
      invariant seen == Uniq(files[..i]) && text == target + [':'] + Listing(seen)
    {
      assert files[..i + 1][..i] == files[..i];
      if files[i] == [] || files[i] in seen { continue; }
      var name := WriteName(files[i]);
      assert (seen + [files[i]])[..|seen|] == seen;
      Assoc(target + [':'], Listing(seen), [' ']);
      Assoc(target + [':'], Listing(seen) + [' '], name);
      seen := seen + [files[i]];
      text := text + [' '] + name;
    }
    assert files[..|files|] == files;
    Assoc(target + [':'], Listing(seen), ['\n']);
    text := text + ['\n'];
  }

  method WriteName(name: string) returns (e: string)
    ensures e == Escape(Special, name)
  {
    e := [];
    for i := 0 to |name|
      invariant e == Escape(Special, name[..i])
    {
      assert name[..i + 1] == name[..i] + [name[i]];
      EscapeAppend(name[..i], name[i]);
      if Special(name[i]) { e := e + ['\\']; }
      e := e + [name[i]];
      assert name[..i + 1] == name[..i] + [name[i]];
    }
    assert name[..|name|] == name;
  }

  /** What cccc writes, read back: each file once, exactly when the target is free of
      colons and every name of tabs, line ends, backslashes and hashes. */
  lemma WriteReadExactly(target: string, files: seq<string>)
    ensures Prereqs(DepsText(target, Uniq(files))) == Uniq(files) <==>
            ':' !in target && forall f :: f in files && f != [] ==> Safe(f)
  {
    UniqIs(files);
    var u := Uniq(files);
    ReadsBackExactly(target, u);
    if AllSafe(u) {
      forall f | f in files && f != [] ensures Safe(f) {
        assert f in u;
        var i :| 0 <= i < |u| && u[i] == f;
      }
    }
    if forall f :: f in files && f != [] ==> Safe(f) {
      forall i | 0 <= i < |u| ensures u[i] != [] && Safe(u[i]) { assert u[i] in u; }
    }
  }
}
