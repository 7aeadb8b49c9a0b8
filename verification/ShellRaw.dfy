/** Every tree the build shell's parser can return (src/build_shell.c:786-954), broken
    ones included: exactly which tokens give which tree, and which of them give a pipe
    without a right side. */
module ShellRaw {
  import opened ShellParser

  /** What _pipe and full_command build: the right side of a pipe or a list may be missing. */
  predicate IsRawPipeline(a: Ast) {
    if a.Pipe? then IsCommand(a.left) && (a.right.Nil? || IsRawPipeline(a.right)) else IsCommand(a)
  }

  predicate IsRaw(a: Ast) {
    if IsList(a) then IsRawPipeline(a.left) && (a.right.Nil? || IsRaw(a.right)) else IsRawPipeline(a)
  }

  // ---------- what is refused ----------

  /** Command x is printed at c, up to an operator at j that wants a word and gets none;
      the cursor is left at k. */
  ghost predicate BrokenAt(ts: seq<Token>, c: nat, x: Ast, k: nat) {
    && IsCommand(x) && At(ts, c, PrintCommand(x))
    && var j := c + |PrintCommand(x)|;
       j < |ts| && (IsRedirect(ts[j]) || ts[j].PipeTok?) && k == Next(ts, j) && !ts[k].Atom?
  }

  /** The pipeline at c is refused at k. */
  ghost predicate Broken(ts: seq<Token>, c: nat, k: nat) {
    exists x :: BrokenAt(ts, c, x, k)
  }

  lemma {:induction false} RedirsBreak(ts: seq<Token>, e: nat, had: seq<Redirect>, rs: seq<Redirect>, w: Ast, k: nat)
    requires ts != [] && IsWords(w) && At(ts, e, PrintAll(rs))
    requires var j := e + |PrintAll(rs)|; j < |ts| && IsRedirect(ts[j]) && k == Next(ts, j) && !ts[k].Atom?
    ensures e < |ts| && Redirections(ts, e, Wrap(had, w)) == (Nil, k)
    decreases |rs|
  {
    if rs != [] {
      RedirHead(ts, e, rs);
      SpliceAppends(had, w, rs[0].0, rs[0].1);
      RedirsBreak(ts, e + 2, had + [rs[0]], rs[1..], w, k);
    }
  }

  lemma {:induction false} RedirsBroke(ts: seq<Token>, e: nat, had: seq<Redirect>, w: Ast,
                                       k: nat) returns (rs: seq<Redirect>)
    requires ts != [] && e <= |ts| && IsWords(w) && (e == |ts| ==> !IsRedirect(ts[e - 1]))
    requires Redirections(ts, Sat(ts, e), Wrap(had, w)) == (Nil, k)
    ensures At(ts, e, PrintAll(rs))
    ensures var j := e + |PrintAll(rs)|; j < |ts| && IsRedirect(ts[j]) && k == Next(ts, j) && !ts[k].Atom?
    decreases |ts| - e
  {
    WrapIsCommand(had, w);
    if !IsRedirect(ts[Sat(ts, e)]) || !ts[Next(ts, e)].Atom? {
      rs := [];
    } else {
      var d, f := DirectionOf(ts[e]), ts[e + 1].text;
      SpliceAppends(had, w, d, f);
      var more := RedirsBroke(ts, e + 2, had + [(d, f)], w, k);
      rs := [(d, f)] + more;
      assert rs[1..] == more;
      RedirHead(ts, e, rs);
    }
  }

  lemma CommandBreaks(ts: seq<Token>, c: nat, x: Ast, k: nat)
    requires BrokenAt(ts, c, x, k) && IsRedirect(ts[c + |PrintCommand(x)|])
    ensures c < |ts| && Command(ts, c) == (Nil, k)
  {
    CommandPrint(x);
    var w, rs := Words(x), Redirs(x);
    var m := c + |PrintWords(w)|;
    AtSplit(ts, c, PrintWords(w), PrintAll(rs));
    WordsEnd(w);
    RedirsEnd(rs);
    if rs != [] { AtLast(ts, m, PrintAll(rs)); }
    WordsParse(ts, c, w);
    RedirsBreak(ts, m, [], rs, w, k);
  }

  lemma CommandBroke(ts: seq<Token>, c: nat, k: nat)
    requires c < |ts| && ts[c].Atom? && Command(ts, c) == (Nil, k)
    ensures Broken(ts, c, k)
  {
    WordsRead(ts, c);
    var w := SimpleCommand(ts, c).0;
    var m := c + |PrintWords(w)|;
    WordsEnd(w);
    AtLast(ts, c, PrintWords(w));
    var rs := RedirsBroke(ts, m, [], w, k);
    var x := Wrap(rs, w);
    WrapIsCommand(rs, w);
    CommandPrint(x);
    AtSplit(ts, c, PrintWords(w), PrintAll(rs));
    assert BrokenAt(ts, c, x, k);
  }

  lemma PipeBreaks(ts: seq<Token>, c: nat, x: Ast, k: nat)
    requires BrokenAt(ts, c, x, k) && ts[c + |PrintCommand(x)|].PipeTok?
    ensures c < |ts| && Pipeline(ts, c) == (Nil, k)
  {
    CommandEnds(x);
    CommandParse(ts, c, x);
  }

  lemma PipeBroke(ts: seq<Token>, c: nat, k: nat)
    requires c < |ts| && !Command(ts, c).0.Nil? && Pipeline(ts, c) == (Nil, k)
    ensures Broken(ts, c, k)
  {
    var (x, m) := Command(ts, c);
    CommandRead(ts, c);
    CommandEnds(x);
    AtLast(ts, c, PrintCommand(x));
    assert ts[m].PipeTok?;
    assert BrokenAt(ts, c, x, k);
  }

  lemma BrokenStarts(ts: seq<Token>, c: nat, k: nat)
    requires Broken(ts, c, k)
    ensures c < |ts| && ts[c].Atom?
  {
    var x :| BrokenAt(ts, c, x, k);
    CommandEnds(x);
    AtLast(ts, c, PrintCommand(x));
  }

  /** A pipeline that starts with a word is refused exactly when its first command runs
      into a redirection or a pipe that lacks its word. */
  lemma PipelineRefuses(ts: seq<Token>, c: nat, k: nat)
    requires c < |ts|
    ensures Pipeline(ts, c) == (Nil, k) && ts[c].Atom? <==> Broken(ts, c, k)
  {
    if Pipeline(ts, c) == (Nil, k) && ts[c].Atom? {
      if Command(ts, c).0.Nil? { CommandBroke(ts, c, k); } else { PipeBroke(ts, c, k); }
    }
    if Broken(ts, c, k) {
      BrokenStarts(ts, c, k);
      var x :| BrokenAt(ts, c, x, k);
      if ts[c + |PrintCommand(x)|].PipeTok? { PipeBreaks(ts, c, x, k); } else { CommandBreaks(ts, c, x, k); }
    }
  }

  // ---------- pipelines ----------

  /** Command a is printed at c and the token behind it ends it as a pipeline's last. */
  ghost predicate LastAt(ts: seq<Token>, c: nat, a: Ast, k: nat)
    requires ts != []
  {
    var e := c + |PrintCommand(a)|;
    At(ts, c, PrintCommand(a)) && k == Sat(ts, e) && (e < |ts| ==> EndsCommand(a, ts[e]) && !ts[e].PipeTok?)
  }

  /** Pipeline a is read at c up to k: commands between pipes, the last of them ended or,
      if a has none, refused. */
  ghost predicate PipesAt(ts: seq<Token>, c: nat, a: Ast, k: nat)
    requires ts != []
    decreases a
  {
    if a.Pipe? then
      var m := c + |PrintCommand(a.left)|;
      && At(ts, c, PrintCommand(a.left)) && m < |ts| && ts[m].PipeTok?
      && if a.right.Nil? then Broken(ts, m + 1, k) else PipesAt(ts, m + 1, a.right, k)
    else LastAt(ts, c, a, k)
  }

  lemma PipesStart(ts: seq<Token>, c: nat, a: Ast, k: nat)
    requires ts != [] && IsRawPipeline(a) && PipesAt(ts, c, a, k)
    ensures c < |ts| && ts[c].Atom?
  {
    var x := if a.Pipe? then a.left else a;
    CommandEnds(x);
    AtLast(ts, c, PrintCommand(x));
  }

  lemma PipeLeft(ts: seq<Token>, c: nat, x: Ast, m: nat)
    requires IsCommand(x) && At(ts, c, PrintCommand(x)) && m == c + |PrintCommand(x)| && m < |ts| && ts[m].PipeTok?
    ensures c < |ts| && Command(ts, c) == (x, m) && !x.Nil?
  {
    CommandEnds(x);
    CommandParse(ts, c, x);
  }

  lemma {:induction false} PipesParse(ts: seq<Token>, c: nat, a: Ast, k: nat)
    requires c < |ts| && IsRawPipeline(a) && PipesAt(ts, c, a, k)
    ensures Pipeline(ts, c) == (a, k)
    decreases a
  {
    if a.Pipe? {
      var m := c + |PrintCommand(a.left)|;
      PipeLeft(ts, c, a.left, m);
      if a.right.Nil? {
        BrokenStarts(ts, m + 1, k);
        PipelineRefuses(ts, m + 1, k);
      } else {
        PipesStart(ts, m + 1, a.right, k);
        PipesParse(ts, m + 1, a.right, k);
      }
    } else {
      CommandEnds(a);
      AtLast(ts, c, PrintCommand(a));
      CommandParse(ts, c, a);
    }
  }

  lemma {:induction false} PipesRead(ts: seq<Token>, c: nat, a: Ast, k: nat)
    requires c < |ts| && Pipeline(ts, c) == (a, k) && !a.Nil?
    ensures IsRawPipeline(a) && PipesAt(ts, c, a, k)
    decreases |ts| - c
  {
    var (l, m) := Command(ts, c);
    CommandOpen(ts, c, l, m);
    CommandRead(ts, c);
    if ts[m].PipeTok? {
      PipeCase(ts, c, l, m);
      if a.right.Nil? {
        PipelineRefuses(ts, m + 1, k);
      } else {
        PipesRead(ts, m + 1, a.right, k);
      }
    }
  }

  /** Exactly which tokens _pipe reads as pipeline a. */
  lemma PipelineExactly(ts: seq<Token>, c: nat, a: Ast, k: nat)
    requires c < |ts| && IsRawPipeline(a)
    ensures Pipeline(ts, c) == (a, k) <==> PipesAt(ts, c, a, k)
  {
    if Pipeline(ts, c) == (a, k) { PipesRead(ts, c, a, k); }
    if PipesAt(ts, c, a, k) { PipesParse(ts, c, a, k); }
  }

  // ---------- lists ----------

  predicate WantsWord(t: Token) {
    t.AndTok? || t.OrTok?
  }

  /** A pipeline is read at c up to an and- or or-operator at m that wants a word and gets
      none. */
  ghost predicate OperatorBroken(ts: seq<Token>, c: nat, p: Ast, m: nat, k: nat) {
    && m < |ts| && IsRawPipeline(p) && PipesAt(ts, c, p, m)
    && WantsWord(ts[m]) && k == Next(ts, m) && !ts[k].Atom?
  }

  /** The list at c is refused at k. */
  ghost predicate Refused(ts: seq<Token>, c: nat, k: nat) {
    && c < |ts|
    && ((!ts[c].Atom? && k == c) || Broken(ts, c, k) || exists p, m: nat :: OperatorBroken(ts, c, p, m, k))
  }

  lemma StartsWithWord(ts: seq<Token>, c: nat)
    requires c < |ts| && !ts[c].Atom?
    ensures Pipeline(ts, c) == (Nil, c)
  {
  }

  /** Exactly which tokens full_command refuses, and where it leaves the cursor. */
  lemma RefusedExactly(ts: seq<Token>, c: nat, k: nat)
    requires c < |ts|
    ensures FullCommand(ts, c) == (Nil, k) <==> Refused(ts, c, k)
  {
    var (p, m) := Pipeline(ts, c);
    if !ts[c].Atom? {
      StartsWithWord(ts, c);
      if Refused(ts, c, k) { NotRefusedElsewhere(ts, c, k); }
    } else if p.Nil? {
      PipelineRefuses(ts, c, m);
      PipelineRefuses(ts, c, k);
      if exists q, n: nat :: OperatorBroken(ts, c, q, n, k) { NoOperator(ts, c, k); }
    } else {
      PipesRead(ts, c, p, m);
      PipelineRefuses(ts, c, k);
      OperatorExactly(ts, c, p, m, k);
    }
  }

  lemma NotRefusedElsewhere(ts: seq<Token>, c: nat, k: nat)
    requires c < |ts| && !ts[c].Atom?
    ensures !Broken(ts, c, k) && !exists p, m: nat :: OperatorBroken(ts, c, p, m, k)
  {
    if Broken(ts, c, k) { BrokenStarts(ts, c, k); }
    if p, m: nat :| OperatorBroken(ts, c, p, m, k) { PipesStart(ts, c, p, m); }
  }

  lemma NoOperator(ts: seq<Token>, c: nat, k: nat)
    requires c < |ts| && Pipeline(ts, c).0.Nil?
    ensures !exists p, m: nat :: OperatorBroken(ts, c, p, m, k)
  {
    if p, m: nat :| OperatorBroken(ts, c, p, m, k) { PipesParse(ts, c, p, m); }
  }

  lemma OperatorExactly(ts: seq<Token>, c: nat, p: Ast, m: nat, k: nat)
    requires c < |ts| && Pipeline(ts, c) == (p, m) && !p.Nil? && PipesAt(ts, c, p, m) && IsRawPipeline(p)
    ensures (exists q, n: nat :: OperatorBroken(ts, c, q, n, k)) <==>
            WantsWord(ts[m]) && k == Next(ts, m) && !ts[k].Atom?
  {
    if q, n: nat :| OperatorBroken(ts, c, q, n, k) { PipesParse(ts, c, q, n); }
    if WantsWord(ts[m]) && k == Next(ts, m) && !ts[k].Atom? { assert OperatorBroken(ts, c, p, m, k); }
  }

  /** What follows the operator of list a at m, with the cursor left at k. */
  ghost predicate TailAt(ts: seq<Token>, a: Ast, m: nat, k: nat)
    requires m < |ts| && IsList(a)
    decreases a, 0
  {
    if m + 1 >= |ts| then a.right.Nil? && MayTrail(a) && k == m
    else if a.right.Nil? then (MayTrail(a) || ts[m + 1].Atom?) && Refused(ts, m + 1, k)
    else ListAt(ts, m + 1, a.right, k)
  }

  /** List a is read at c up to k. */
  ghost predicate ListAt(ts: seq<Token>, c: nat, a: Ast, k: nat)
    requires ts != []
    decreases a, 1
  {
    if IsList(a) then exists m: nat :: m < |ts| && ListTo(ts, c, a, m) && TailAt(ts, a, m, k)
    else PipesAt(ts, c, a, k) && k < |ts| && !IsListOperator(ts[k])
  }

  /** The first pipeline of list a, up to its operator at m. */
  ghost predicate ListTo(ts: seq<Token>, c: nat, a: Ast, m: nat)
    requires m < |ts| && IsList(a)
  {
    PipesAt(ts, c, a.left, m) && ts[m] == ListOperator(a)
  }

  lemma ListStarts(ts: seq<Token>, c: nat, a: Ast, k: nat)
    requires ts != [] && IsRaw(a) && ListAt(ts, c, a, k)
    ensures c < |ts| && ts[c].Atom?
  {
    if IsList(a) {
      var m: nat :| m < |ts| && ListTo(ts, c, a, m) && TailAt(ts, a, m, k);
      PipesStart(ts, c, a.left, m);
    } else {
      PipesStart(ts, c, a, k);
    }
  }

  lemma ListOpens(ts: seq<Token>, c: nat, a: Ast, k: nat) returns (m: nat)
    requires c < |ts| && IsRaw(a) && IsList(a) && ListAt(ts, c, a, k)
    ensures m < |ts| && Pipeline(ts, c) == (a.left, m) && !a.left.Nil? && ts[m] == ListOperator(a)
        && TailAt(ts, a, m, k)
    ensures !a.right.Nil? ==> IsRaw(a.right) && m + 1 < |ts| && ListAt(ts, m + 1, a.right, k)
  {
    m :| m < |ts| && ListTo(ts, c, a, m) && TailAt(ts, a, m, k);
    PipesParse(ts, c, a.left, m);
  }

  lemma ListCloses(ts: seq<Token>, c: nat, a: Ast, m: nat, k: nat)
    requires c < |ts| && IsList(a) && Pipeline(ts, c) == (a.left, m) && !a.left.Nil? && ts[m] == ListOperator(a)
    requires if a.right.Nil? then TailAt(ts, a, m, k)
             else m + 1 < |ts| && ts[m + 1].Atom? && FullCommand(ts, m + 1) == (a.right, k)
    ensures FullCommand(ts, c) == (a, k)
  {
    if m + 1 < |ts| && a.right.Nil? { RefusedExactly(ts, m + 1, k); }
    ListCase(ts, c, a, m);
  }

  lemma {:induction false} ListParses(ts: seq<Token>, c: nat, a: Ast, k: nat)
    requires c < |ts| && IsRaw(a) && ListAt(ts, c, a, k)
    ensures FullCommand(ts, c) == (a, k)
    decreases a
  {
    if IsList(a) {
      var m := ListOpens(ts, c, a, k);
      if !a.right.Nil? {
        ListStarts(ts, m + 1, a.right, k);
        ListParses(ts, m + 1, a.right, k);
      }
      ListCloses(ts, c, a, m, k);
    } else {
      PipesParse(ts, c, a, k);
    }
  }

  lemma {:induction false} ListReads(ts: seq<Token>, c: nat, a: Ast, k: nat)
    requires c < |ts| && FullCommand(ts, c) == (a, k) && !a.Nil?
    ensures IsRaw(a) && ListAt(ts, c, a, k)
    decreases |ts| - c
  {
    var (p, m) := Pipeline(ts, c);
    ListShape(ts, c, a, k, p, m);
    PipesRead(ts, c, p, m);
    if IsList(a) {
      if m + 1 < |ts| {
        if a.right.Nil? {
          RefusedExactly(ts, m + 1, k);
        } else {
          ListReads(ts, m + 1, a.right, k);
        }
      }
      assert ListTo(ts, c, a, m) && TailAt(ts, a, m, k);
    }
  }

  lemma ParsedReads(ts: seq<Token>, a: Ast)
    requires ts != [] && !a.Nil? && Parse(ts) == a
    ensures IsRaw(a) && ListAt(ts, 0, a, |ts| - 1)
  {
    ListReads(ts, 0, a, |ts| - 1);
  }

  lemma ReadParses(ts: seq<Token>, a: Ast)
    requires ts != [] && IsRaw(a) && ListAt(ts, 0, a, |ts| - 1)
    ensures Parse(ts) == a
  {
    ListParses(ts, 0, a, |ts| - 1);
  }

  /** Exactly which token arrays parse to tree a, whatever a is. */
  lemma ParsesExactlyRaw(ts: seq<Token>, a: Ast)
    requires ts != [] && !a.Nil?
    ensures Parse(ts) == a <==> IsRaw(a) && ListAt(ts, 0, a, |ts| - 1)
  {
    if Parse(ts) == a { ParsedReads(ts, a); }
    if IsRaw(a) && ListAt(ts, 0, a, |ts| - 1) { ReadParses(ts, a); }
  }

  // ---------- pipes without a right side ----------

  /** Trees the evaluator can walk: no pipe lacks its right side. */
  predicate Evaluable(a: Ast) {
    a.Nil? || if IsList(a) then IsPipeline(a.left) && Evaluable(a.right) else IsPipeline(a)
  }

  lemma {:induction false} FullEvaluable(a: Ast)
    requires IsFull(a)
    ensures Evaluable(a)
  {
    if IsList(a) && !a.right.Nil? { FullEvaluable(a.right); }
  }

  /** The pipe at m is followed by a command that runs into an operator lacking its word. */
  ghost predicate HalfAt(ts: seq<Token>, m: nat) {
    m < |ts| && ts[m].PipeTok? && BreaksOff(ts, m + 1)
  }

  ghost predicate BreaksOff(ts: seq<Token>, c: nat) {
    exists k: nat :: Broken(ts, c, k)
  }

  lemma {:induction false} WordsPlain(a: Ast, i: nat)
    requires i < |PrintWords(a)|
    ensures PrintWords(a)[i].Atom?
    decreases a
  {
    match a
    case Cmd(_, n) => if i > 0 { WordsPlain(n, i - 1); }
    case Redir(_, _, b) => WordsPlain(b, i);
    case _ =>
  }

  lemma {:induction false} RedirsPlain(a: Ast, i: nat)
    requires i < |PrintRedirs(a)|
    ensures !PrintRedirs(a)[i].PipeTok?
    decreases a
  {
    if a.Redir? && i >= 2 { RedirsPlain(a.body, i - 2); }
  }

  /** No pipe stands inside a printed command. */
  lemma NoPipeInside(ts: seq<Token>, c: nat, x: Ast, m: nat)
    requires At(ts, c, PrintCommand(x)) && c <= m < c + |PrintCommand(x)|
    ensures m < |ts| && !ts[m].PipeTok?
  {
    var i, n := m - c, |PrintWords(x)|;
    AtIsSlice(ts, c, PrintCommand(x));
    assert ts[m] == ts[c..c + |PrintCommand(x)|][i];
    if i < n { WordsPlain(x, i); } else { RedirsPlain(x, i - n); }
  }

  /** A pipeline is whole exactly when none of the pipes it was read from is followed by a
      broken command. */
  lemma {:induction false} PipelineWhole(ts: seq<Token>, c: nat, a: Ast, k: nat)
    requires c < |ts| && IsRawPipeline(a) && PipesAt(ts, c, a, k)
    ensures IsPipeline(a) <==> forall m: nat :: c <= m < k ==> !HalfAt(ts, m)
    decreases a
  {
    if a.Pipe? {
      var j := c + |PrintCommand(a.left)|;
      if a.right.Nil? {
        BrokenGoesOn(ts, j + 1, k);
        assert HalfAt(ts, j);
      } else {
        PipesStart(ts, j + 1, a.right, k);
        PipelineWhole(ts, j + 1, a.right, k);
        forall m: nat | c <= m <= j ensures !HalfAt(ts, m) {
          if m < j { NoPipeInside(ts, c, a.left, m); } else { GoodPipe(ts, j, a.right, k); }
        }
        if IsPipeline(a) {
          forall m: nat | c <= m < k ensures !HalfAt(ts, m) {}
        } else {
          var m: nat :| j + 1 <= m < k && HalfAt(ts, m);
        }
      }
    } else {
      forall m: nat | c <= m < k ensures !HalfAt(ts, m) { NoPipeInside(ts, c, a, m); }
    }
  }

  lemma BrokenGoesOn(ts: seq<Token>, c: nat, k: nat)
    requires Broken(ts, c, k)
    ensures c <= k
  {
    var x :| BrokenAt(ts, c, x, k);
  }

  lemma GoodPipe(ts: seq<Token>, j: nat, r: Ast, k: nat)
    requires j + 1 < |ts| && IsRawPipeline(r) && PipesAt(ts, j + 1, r, k)
    ensures !HalfAt(ts, j)
  {
    PipesParse(ts, j + 1, r, k);
    NotBroken(ts, j + 1);
  }

  lemma NotBroken(ts: seq<Token>, c: nat)
    requires c < |ts| && !Pipeline(ts, c).0.Nil?
    ensures !BreaksOff(ts, c)
  {
    forall n: nat ensures !Broken(ts, c, n) { PipelineRefuses(ts, c, n); }
  }

  /** Position m lies in a pipeline that the list read at c kept. */
  ghost predicate Kept(ts: seq<Token>, c: nat, m: nat)
    requires c < |ts|
    decreases |ts| - c
  {
    && !FullCommand(ts, c).0.Nil?
    && var n := Pipeline(ts, c).1;
       c <= m < n || (IsListOperator(ts[n]) && n + 1 < |ts| && Kept(ts, n + 1, m))
  }

  lemma {:induction false} ListWhole(ts: seq<Token>, c: nat, a: Ast, k: nat)
    requires c < |ts| && FullCommand(ts, c) == (a, k) && !a.Nil?
    ensures Evaluable(a) <==> forall m: nat :: Kept(ts, c, m) ==> !HalfAt(ts, m)
    decreases |ts| - c
  {
    var n := FirstWhole(ts, c, a, k);
    if IsList(a) {
      if n + 1 < |ts| && !a.right.Nil? { ListWhole(ts, n + 1, a.right, k); }
      if n + 1 < |ts| { SplitWhole(ts, c, n); }
    }
  }

  /** The first pipeline of the list, ended at n. */
  lemma FirstWhole(ts: seq<Token>, c: nat, a: Ast, k: nat) returns (n: nat)
    requires c < |ts| && FullCommand(ts, c) == (a, k) && !a.Nil?
    ensures c <= n < |ts| && n == Pipeline(ts, c).1 && (IsListOperator(ts[n]) <==> IsList(a))
    ensures IsPipeline(if IsList(a) then a.left else a) <==> forall m: nat :: c <= m < n ==> !HalfAt(ts, m)
    ensures IsList(a) ==> if n + 1 < |ts| then FullCommand(ts, n + 1) == (a.right, k) else a.right.Nil?
  {
    var p := Pipeline(ts, c).0;
    n := Pipeline(ts, c).1;
    ListShape(ts, c, a, k, p, n);
    PipesRead(ts, c, p, n);
    PipelineWhole(ts, c, p, n);
  }

  /** A list read at c is its first pipeline, its operator and the rest. */
  lemma ListShape(ts: seq<Token>, c: nat, a: Ast, k: nat, p: Ast, n: nat)
    requires c < |ts| && FullCommand(ts, c) == (a, k) && !a.Nil? && Pipeline(ts, c) == (p, n)
    ensures c <= n < |ts| && !p.Nil? && p == (if IsList(a) then a.left else a)
    ensures IsListOperator(ts[n]) <==> IsList(a)
    ensures if IsList(a) then ts[n] == ListOperator(a) else n == k
    ensures IsList(a) ==>
        if n + 1 < |ts| then FullCommand(ts, n + 1) == (a.right, k) && (MayTrail(a) || ts[n + 1].Atom?)
                          else a.right.Nil? && MayTrail(a) && k == n
  {
    PipelineNotList(ts, c);
    if IsList(a) { ListCase(ts, c, a, n); }
  }

  lemma SplitWhole(ts: seq<Token>, c: nat, n: nat)
    requires c < |ts| && !FullCommand(ts, c).0.Nil? && n == Pipeline(ts, c).1 && IsListOperator(ts[n]) && n + 1 < |ts|
    ensures (forall m: nat :: Kept(ts, c, m) ==> !HalfAt(ts, m)) <==>
            && (forall m: nat :: c <= m < n ==> !HalfAt(ts, m))
            && (forall m: nat :: Kept(ts, n + 1, m) ==> !HalfAt(ts, m))
  {
    forall m: nat ensures Kept(ts, c, m) <==> c <= m < n || Kept(ts, n + 1, m) {}
  }

  /** A parsed tree can be evaluated exactly when no pipe the parser kept is followed by a
      command that runs into an operator lacking its word. */
  lemma EvaluableExactly(ts: seq<Token>)
    requires ts != [] && !Parse(ts).Nil?
    ensures Evaluable(Parse(ts)) <==> forall m: nat :: Kept(ts, 0, m) ==> !HalfAt(ts, m)
  {
    ListWhole(ts, 0, Parse(ts), |ts| - 1);
  }

  /** The text of a whole tree holds no such pipe. */
  lemma PrintedIsWhole(a: Ast)
    requires IsFull(a)
    ensures forall m: nat :: Kept(Print(a), 0, m) ==> !HalfAt(Print(a), m)
  {
    RoundTrip(a);
    FullEvaluable(a);
    EvaluableExactly(Print(a));
  }

  /** A command, a pipe, a command and one more operator at the end, as in `a | b >` and
      `a | b |`. */
  ghost predicate HalfPrinted(ts: seq<Token>, x: Ast, y: Ast) {
    && IsCommand(x) && IsCommand(y) && |ts| == |PrintCommand(x)| + |PrintCommand(y)| + 2
    && At(ts, 0, PrintCommand(x)) && ts[|PrintCommand(x)|].PipeTok?
    && At(ts, |PrintCommand(x)| + 1, PrintCommand(y)) && (IsRedirect(ts[|ts| - 1]) || ts[|ts| - 1].PipeTok?)
  }

  lemma HalfPipeReads(ts: seq<Token>, x: Ast, y: Ast, a: Ast)
    requires HalfPrinted(ts, x, y) && a == Pipe(x, Nil)
    ensures IsRaw(a) && !Evaluable(a) && PipesAt(ts, 0, a, |ts| - 1)
  {
    assert BrokenAt(ts, |PrintCommand(x)| + 1, y, |ts| - 1);
    assert !IsCommand(Nil) && !IsPipeline(Nil);
  }

  /** They are accepted as a pipe without a right side. */
  lemma HalfPipe(ts: seq<Token>, x: Ast, y: Ast, a: Ast)
    requires HalfPrinted(ts, x, y) && a == Pipe(x, Nil)
    ensures Parse(ts) == a && !Evaluable(a)
  {
    HalfPipeReads(ts, x, y, a);
    HalfPipeParses(ts, a);
  }

  lemma HalfPipeParses(ts: seq<Token>, a: Ast)
    requires ts != [] && IsRaw(a) && a.Pipe? && PipesAt(ts, 0, a, |ts| - 1) && !IsListOperator(ts[|ts| - 1])
    ensures Parse(ts) == a
  {
    ListParses(ts, 0, a, |ts| - 1);
  }
}
