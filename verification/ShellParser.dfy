/** The build shell's recursive-descent parser (src/build_shell.c:786-954), from
    tokens to trees. Its cursor never moves past the last token. */
module ShellParser {

  datatype Token = Atom(text: string) | PipeTok | Ampersand | Greater | Lesser | Semicolon | AndTok | OrTok

  datatype Direction = In | Out

  /** A tree as linked nodes; Nil is the null pointer. The words of a command are a
      chain of Cmd nodes. */
  datatype Ast =
    | Nil
    | Cmd(word: string, next: Ast)
    | Redir(dir: Direction, file: string, body: Ast)
    | Pipe(left: Ast, right: Ast)
    | Background(left: Ast, right: Ast)
    | Seq(left: Ast, right: Ast)
    | And(left: Ast, right: Ast)
    | Or(left: Ast, right: Ast)

  // ---------- parsing ----------

  /** parser_next: the cursor afterwards; it stays on the last token. */
  function Next(ts: seq<Token>, c: nat): (r: nat)
    requires c < |ts|
    ensures c <= r < |ts|
  {
    if c + 1 >= |ts| then c else c + 1
  }

  /** simple_command. */
  function SimpleCommand(ts: seq<Token>, c: nat): (r: (Ast, nat))
    requires c < |ts|
    ensures c <= r.1 < |ts|
    decreases |ts| - c
  {
    if !ts[c].Atom? then (Nil, c)
    else if c + 1 >= |ts| then (Cmd(ts[c].text, Nil), c)
    else
      var (rest, c') := SimpleCommand(ts, c + 1);
      (Cmd(ts[c].text, rest), c')
  }

  predicate IsRedirect(t: Token) {
    t.Greater? || t.Lesser?
  }

  function DirectionOf(t: Token): Direction {
    if t.Greater? then Out else In
  }

  /** A new redirection spliced just above the command, below earlier ones. */
  function Splice(root: Ast, dir: Direction, file: string): Ast {
    match root
    case Redir(d, f, body) => Redir(d, f, Splice(body, dir, file))
    case _ => Redir(dir, file, root)
  }

  /** The redirection loop of command. */
  function Redirections(ts: seq<Token>, c: nat, root: Ast): (r: (Ast, nat))
    requires c < |ts|
    ensures c <= r.1 < |ts|
    decreases |ts| - c
  {
    if !IsRedirect(ts[c]) then (root, c)
    else
      var c1 := Next(ts, c);
      if !ts[c1].Atom? then (Nil, c1)
      else Redirections(ts, Next(ts, c1), Splice(root, DirectionOf(ts[c]), ts[c1].text))
  }

  /** command. */
  function Command(ts: seq<Token>, c: nat): (r: (Ast, nat))
    requires c < |ts|
    ensures c <= r.1 < |ts|
  {
    var (root, c1) := SimpleCommand(ts, c);
    if root.Nil? then (Nil, c1) else Redirections(ts, c1, root)
  }

  /** _pipe. */
  function Pipeline(ts: seq<Token>, c: nat): (r: (Ast, nat))
    requires c < |ts|
    ensures c <= r.1 < |ts|
    decreases |ts| - c
  {
    var (left, c1) := Command(ts, c);
    if left.Nil? then (Nil, c1)
    else if ts[c1].PipeTok? then
      var c2 := Next(ts, c1);
      if !ts[c2].Atom? then (Nil, c2)
      else
        var (right, c3) := Pipeline(ts, c2);
        (Pipe(left, right), c3)
    else (left, c1)
  }

  /** full_command. */
  function FullCommand(ts: seq<Token>, c: nat): (r: (Ast, nat))
    requires c < |ts|
    ensures c <= r.1 < |ts|
    decreases |ts| - c, 1
  {
    var (left, c1) := Pipeline(ts, c);
    if left.Nil? then (Nil, c1) else ListAfter(ts, left, c1)
  }

  /** The operator behind the pipeline left, at c, and what follows it. */
  function ListAfter(ts: seq<Token>, left: Ast, c: nat): (r: (Ast, nat))
    requires c < |ts|
    ensures c <= r.1 < |ts|
    decreases |ts| - c, 0
  {
    match ts[c]
    case Ampersand =>
      if c + 1 >= |ts| then (Background(left, Nil), c)
      else var (right, c2) := FullCommand(ts, c + 1); (Background(left, right), c2)
    case Semicolon =>
      if c + 1 >= |ts| then (Seq(left, Nil), c)
      else var (right, c2) := FullCommand(ts, c + 1); (Seq(left, right), c2)
    case AndTok =>
      var c2 := Next(ts, c);
      if !ts[c2].Atom? then (Nil, c2)
      else var (right, c3) := FullCommand(ts, c2); (And(left, right), c3)
    case OrTok =>
      var c2 := Next(ts, c);
      if !ts[c2].Atom? then (Nil, c2)
      else var (right, c3) := FullCommand(ts, c2); (Or(left, right), c3)
    case _ => (left, c)
  }

  /** shell_eval_parser. Its callers have rejected an empty token array. */
  function Parse(ts: seq<Token>): Ast
    requires ts != []
  {
    var (result, c) := FullCommand(ts, 0);
    if c == |ts| - 1 then result else Nil
  }

  // ---------- printing ----------

  predicate IsWords(a: Ast) {
    a.Cmd? && (a.next.Nil? || IsWords(a.next))
  }

  predicate IsCommand(a: Ast) {
    if a.Redir? then IsCommand(a.body) else IsWords(a)
  }

  predicate IsPipeline(a: Ast) {
    if a.Pipe? then IsCommand(a.left) && IsPipeline(a.right) else IsCommand(a)
  }

  /** A well-formed tree: what the grammar of the parser describes. */
  predicate IsFull(a: Ast) {
    match a
    case Background(l, r) => IsPipeline(l) && (r.Nil? || IsFull(r))
    case Seq(l, r) => IsPipeline(l) && (r.Nil? || IsFull(r))
    case And(l, r) => IsPipeline(l) && IsFull(r)
    case Or(l, r) => IsPipeline(l) && IsFull(r)
    case _ => IsPipeline(a)
  }

  /** Words first, then the redirections from the outermost in. */
  function PrintWords(a: Ast): seq<Token> {
    match a
    case Cmd(w, n) => [Atom(w)] + PrintWords(n)
    case Redir(_, _, b) => PrintWords(b)
    case _ => []
  }

  function PrintRedirs(a: Ast): seq<Token> {
    match a
    case Redir(d, f, b) => [if d.Out? then Greater else Lesser, Atom(f)] + PrintRedirs(b)
    case _ => []
  }

  function PrintCommand(a: Ast): seq<Token> {
    PrintWords(a) + PrintRedirs(a)
  }

  function PrintPipeline(a: Ast): seq<Token> {
    match a
    case Pipe(l, r) => PrintCommand(l) + [PipeTok] + PrintPipeline(r)
    case _ => PrintCommand(a)
  }

  function Print(a: Ast): seq<Token> {
    match a
    case Nil => []
    case Background(l, r) => PrintPipeline(l) + [Ampersand] + Print(r)
    case Seq(l, r) => PrintPipeline(l) + [Semicolon] + Print(r)
    case And(l, r) => PrintPipeline(l) + [AndTok] + Print(r)
    case Or(l, r) => PrintPipeline(l) + [OrTok] + Print(r)
    case _ => PrintPipeline(a)
  }

  // ---------- printed trees parse back ----------

  /** ts reads p from position c on. */
  ghost predicate At(ts: seq<Token>, c: nat, p: seq<Token>)
    decreases |p|, 1
  {
    if p == [] then c <= |ts| else Starts(ts, c, p)
  }

  ghost predicate Starts(ts: seq<Token>, c: nat, p: seq<Token>)
    requires p != []
    decreases |p|, 0
  {
    c < |ts| && ts[c] == p[0] && At(ts, c + 1, p[1..])
  }

  lemma {:induction false} AtIsSlice(ts: seq<Token>, c: nat, p: seq<Token>)
    ensures At(ts, c, p) <==> c + |p| <= |ts| && ts[c..c + |p|] == p
    decreases |p|
  {
    if p != [] {
      AtIsSlice(ts, c + 1, p[1..]);
      if c + |p| <= |ts| {
        assert ts[c..c + |p|] == [ts[c]] + ts[c + 1..c + 1 + |p[1..]|];
        assert p == [p[0]] + p[1..];
      }
    }
  }

  /** Where the cursor stands once everything before e was consumed. */
  function Sat(ts: seq<Token>, e: nat): nat
    requires ts != []
  {
    if e >= |ts| then |ts| - 1 else e
  }

  lemma {:induction false} AtSplit(ts: seq<Token>, c: nat, p: seq<Token>, q: seq<Token>)
    ensures At(ts, c, p + q) <==> At(ts, c, p) && At(ts, c + |p|, q)
    decreases |p|
  {
    if p == [] {
      assert p + q == q;
      AtIsSlice(ts, c, q);
    } else {
      AtSplit(ts, c + 1, p[1..], q);
      assert (p + q)[1..] == p[1..] + q;
    }
  }

  lemma AtHead(ts: seq<Token>, c: nat, t: Token, q: seq<Token>)
    ensures At(ts, c, [t] + q) <==> c < |ts| && ts[c] == t && At(ts, c + 1, q)
  {
    assert ([t] + q)[1..] == q;
  }

  lemma {:induction false} WordsParse(ts: seq<Token>, c: nat, a: Ast)
    requires c < |ts| && IsWords(a) && At(ts, c, PrintWords(a))
    requires c + |PrintWords(a)| < |ts| ==> !ts[c + |PrintWords(a)|].Atom?
    ensures SimpleCommand(ts, c) == (a, Sat(ts, c + |PrintWords(a)|))
    decreases a
  {
    AtHead(ts, c, Atom(a.word), PrintWords(a.next));
    if c + 1 < |ts| {
      if a.next.Nil? {
        assert !ts[c + 1].Atom?;
      } else {
        WordsParse(ts, c + 1, a.next);
      }
    }
  }

  /** A redirection and the file it names. */
  type Redirect = (Direction, string)

  function Wrap(rs: seq<Redirect>, w: Ast): Ast {
    if rs == [] then w else Redir(rs[0].0, rs[0].1, Wrap(rs[1..], w))
  }

  function Redirs(a: Ast): seq<Redirect> {
    if a.Redir? then [(a.dir, a.file)] + Redirs(a.body) else []
  }

  function Words(a: Ast): Ast {
    if a.Redir? then Words(a.body) else a
  }

  lemma {:induction false} CommandIsWrap(a: Ast)
    requires IsCommand(a)
    ensures IsWords(Words(a)) && a == Wrap(Redirs(a), Words(a))
  {
    if a.Redir? {
      CommandIsWrap(a.body);
      assert Redirs(a)[1..] == Redirs(a.body);
    }
  }

  lemma {:induction false} WrapIsCommand(rs: seq<Redirect>, w: Ast)
    requires IsWords(w)
    ensures IsCommand(Wrap(rs, w)) && Redirs(Wrap(rs, w)) == rs && Words(Wrap(rs, w)) == w
    ensures PrintWords(Wrap(rs, w)) == PrintWords(w)
    ensures Wrap(rs, w).Redir? <==> rs != []
    decreases |rs|
  {
    if rs != [] {
      WrapIsCommand(rs[1..], w);
    }
  }

  lemma {:induction false} SpliceAppends(rs: seq<Redirect>, w: Ast, d: Direction, f: string)
    requires IsWords(w)
    ensures Splice(Wrap(rs, w), d, f) == Wrap(rs + [(d, f)], w)
    decreases |rs|
  {
    if rs != [] {
      SpliceAppends(rs[1..], w, d, f);
      assert (rs + [(d, f)])[1..] == rs[1..] + [(d, f)];
    } else {
      assert rs + [(d, f)] == [(d, f)];
      assert Wrap([(d, f)], w) == Redir(d, f, Wrap([], w));
    }
  }

  function Operator(d: Direction): Token {
    if d.Out? then Greater else Lesser
  }

  function PrintAll(rs: seq<Redirect>): seq<Token> {
    if rs == [] then [] else [Operator(rs[0].0), Atom(rs[0].1)] + PrintAll(rs[1..])
  }

  lemma {:induction false} PrintRedirsIsPrintAll(a: Ast)
    ensures PrintRedirs(a) == PrintAll(Redirs(a))
  {
    if a.Redir? {
      PrintRedirsIsPrintAll(a.body);
      assert Redirs(a)[1..] == Redirs(a.body);
    }
  }

  /** One redirection and what follows, read at e. */
  lemma RedirHead(ts: seq<Token>, e: nat, rs: seq<Redirect>)
    requires rs != []
    ensures At(ts, e, PrintAll(rs)) <==>
            e + 1 < |ts| && ts[e] == Operator(rs[0].0) && ts[e + 1] == Atom(rs[0].1)
            && At(ts, e + 2, PrintAll(rs[1..]))
  {
    var t, u := Operator(rs[0].0), Atom(rs[0].1);
    assert PrintAll(rs) == [t] + ([u] + PrintAll(rs[1..]));
    AtHead(ts, e, t, [u] + PrintAll(rs[1..]));
    AtHead(ts, e + 1, u, PrintAll(rs[1..]));
  }

  /** The redirection loop reads printed redirections and splices them in order. */
  lemma {:induction false} RedirsParse(ts: seq<Token>, e: nat, had: seq<Redirect>, rs: seq<Redirect>, w: Ast)
    requires ts != [] && IsWords(w) && At(ts, e, PrintAll(rs))
    requires !IsRedirect(ts[Sat(ts, e + |PrintAll(rs)|)])
    ensures Redirections(ts, Sat(ts, e), Wrap(had, w))
         == (Wrap(had + rs, w), Sat(ts, e + |PrintAll(rs)|))
    decreases |rs|
  {
    if rs == [] {
      assert had + rs == had;
    } else {
      RedirHead(ts, e, rs);
      SpliceAppends(had, w, rs[0].0, rs[0].1);
      RedirsParse(ts, e + 2, had + [rs[0]], rs[1..], w);
      assert had + [rs[0]] + rs[1..] == had + rs;
    }
  }

  /** What the redirection loop returned was printed there. */
  lemma {:induction false} RedirsRead(ts: seq<Token>, e: nat, had: seq<Redirect>, w: Ast) returns (rs: seq<Redirect>)
    requires ts != [] && e <= |ts| && IsWords(w)
    requires e == |ts| ==> !IsRedirect(ts[e - 1])
    requires !Redirections(ts, Sat(ts, e), Wrap(had, w)).0.Nil?
    ensures At(ts, e, PrintAll(rs))
    ensures Redirections(ts, Sat(ts, e), Wrap(had, w))
         == (Wrap(had + rs, w), Sat(ts, e + |PrintAll(rs)|))
    ensures !IsRedirect(ts[Sat(ts, e + |PrintAll(rs)|)])
    decreases |ts| - e
  {
    if !IsRedirect(ts[Sat(ts, e)]) {
      rs := [];
      assert had + rs == had;
    } else {
      var d, f := DirectionOf(ts[e]), ts[e + 1].text;
      SpliceAppends(had, w, d, f);
      var more := RedirsRead(ts, e + 2, had + [(d, f)], w);
      rs := [(d, f)] + more;
      assert rs[1..] == more;
      RedirHead(ts, e, rs);
      assert had + [(d, f)] + more == had + rs;
    }
  }

  lemma {:induction false} WordsRead(ts: seq<Token>, c: nat)
    requires c < |ts| && ts[c].Atom?
    ensures var a := SimpleCommand(ts, c).0;
            IsWords(a) && At(ts, c, PrintWords(a))
            && SimpleCommand(ts, c).1 == Sat(ts, c + |PrintWords(a)|)
            && (c + |PrintWords(a)| < |ts| ==> !ts[c + |PrintWords(a)|].Atom?)
    decreases |ts| - c
  {
    var a := SimpleCommand(ts, c).0;
    if c + 1 < |ts| && ts[c + 1].Atom? {
      WordsRead(ts, c + 1);
    }
    AtHead(ts, c, ts[c], PrintWords(a.next));
  }

  // ---------- commands ----------

  lemma {:induction false} WordsEnd(a: Ast)
    requires IsWords(a)
    ensures var p := PrintWords(a); p != [] && p[0].Atom? && p[|p| - 1].Atom?
  {
    if !a.next.Nil? { WordsEnd(a.next); }
  }

  lemma {:induction false} RedirsEnd(rs: seq<Redirect>)
    ensures var p := PrintAll(rs); (p == [] <==> rs == []) && (p != [] ==> IsRedirect(p[0]) && p[|p| - 1].Atom?)
    decreases |rs|
  {
    if rs != [] { RedirsEnd(rs[1..]); }
  }

  lemma CommandEnds(a: Ast)
    requires IsCommand(a)
    ensures var p := PrintCommand(a); p != [] && p[0].Atom? && p[|p| - 1].Atom?
  {
    CommandPrint(a);
    WordsEnd(Words(a));
    RedirsEnd(Redirs(a));
  }

  lemma CommandPrint(a: Ast)
    requires IsCommand(a)
    ensures IsWords(Words(a)) && a == Wrap(Redirs(a), Words(a))
    ensures PrintCommand(a) == PrintWords(Words(a)) + PrintAll(Redirs(a))
    ensures a.Redir? <==> Redirs(a) != []
  {
    CommandIsWrap(a);
    WrapIsCommand(Redirs(a), Words(a));
    PrintRedirsIsPrintAll(a);
  }

  /** The token after a printed command does not continue it. */
  predicate EndsCommand(a: Ast, t: Token) {
    !IsRedirect(t) && (t.Atom? ==> a.Redir?)
  }

  lemma AtLast(ts: seq<Token>, c: nat, p: seq<Token>)
    requires At(ts, c, p) && p != []
    ensures c + |p| <= |ts| && ts[c] == p[0] && ts[c + |p| - 1] == p[|p| - 1]
  {
    AtIsSlice(ts, c, p);
    assert ts[c + |p| - 1] == ts[c..c + |p|][|p| - 1];
  }

  /** Words and redirections printed one after the other. */
  lemma WrapParse(ts: seq<Token>, c: nat, w: Ast, rs: seq<Redirect>, m: nat, e: nat)
    requires c < |ts| && IsWords(w) && At(ts, c, PrintWords(w)) && m == c + |PrintWords(w)|
    requires At(ts, m, PrintAll(rs)) && e == m + |PrintAll(rs)|
    requires e < |ts| ==> !IsRedirect(ts[e]) && (ts[e].Atom? ==> rs != [])
    ensures Command(ts, c) == (Wrap(rs, w), Sat(ts, e))
  {
    RedirsEnd(rs);
    WordsEnd(w);
    AtLast(ts, c, PrintWords(w));
    if rs != [] {
      AtLast(ts, m, PrintAll(rs));
    }
    WordsParse(ts, c, w);
    RedirsParse(ts, m, [], rs, w);
    assert [] + rs == rs;
  }

  lemma CommandParse(ts: seq<Token>, c: nat, a: Ast)
    requires c < |ts| && IsCommand(a) && At(ts, c, PrintCommand(a))
    requires var e := c + |PrintCommand(a)|; e < |ts| ==> EndsCommand(a, ts[e])
    ensures Command(ts, c) == (a, Sat(ts, c + |PrintCommand(a)|))
  {
    CommandPrint(a);
    var w, rs := Words(a), Redirs(a);
    AtSplit(ts, c, PrintWords(w), PrintAll(rs));
    WrapParse(ts, c, w, rs, c + |PrintWords(w)|, c + |PrintCommand(a)|);
  }

  lemma WrapRead(ts: seq<Token>, c: nat) returns (w: Ast, rs: seq<Redirect>, m: nat, e: nat)
    requires c < |ts| && !Command(ts, c).0.Nil?
    ensures IsWords(w) && At(ts, c, PrintWords(w)) && m == c + |PrintWords(w)|
    ensures At(ts, m, PrintAll(rs)) && e == m + |PrintAll(rs)|
    ensures e < |ts| ==> !IsRedirect(ts[e]) && (ts[e].Atom? ==> rs != [])
    ensures Command(ts, c) == (Wrap(rs, w), Sat(ts, e))
  {
    WordsRead(ts, c);
    w := SimpleCommand(ts, c).0;
    m := c + |PrintWords(w)|;
    WordsEnd(w);
    AtLast(ts, c, PrintWords(w));
    rs := RedirsRead(ts, m, [], w);
    e := m + |PrintAll(rs)|;
    assert [] + rs == rs;
  }

  /** What Command returned was printed there, and the next token ends it. */
  lemma CommandRead(ts: seq<Token>, c: nat)
    requires c < |ts| && !Command(ts, c).0.Nil?
    ensures var a := Command(ts, c).0; var e := c + |PrintCommand(a)|;
            IsCommand(a) && At(ts, c, PrintCommand(a))
            && Command(ts, c).1 == Sat(ts, e)
            && (e < |ts| ==> EndsCommand(a, ts[e]))
  {
    var w, rs, m, e := WrapRead(ts, c);
    WrapIsCommand(rs, w);
    CommandPrint(Wrap(rs, w));
    AtSplit(ts, c, PrintWords(w), PrintAll(rs));
  }

  // ---------- pipelines ----------

  /** The last command of a pipeline. */
  function LastCommand(a: Ast): Ast {
    if a.Pipe? then LastCommand(a.right) else a
  }

  lemma {:induction false} PipelineEnds(a: Ast)
    requires IsPipeline(a)
    ensures IsCommand(LastCommand(a))
    ensures var p := PrintPipeline(a); p != [] && p[0].Atom? && p[|p| - 1].Atom?
  {
    if a.Pipe? {
      CommandEnds(a.left);
      PipelineEnds(a.right);
    } else {
      CommandEnds(a);
    }
  }

  predicate EndsPipeline(a: Ast, t: Token) {
    !t.PipeTok? && EndsCommand(LastCommand(a), t)
  }

  /** A left operand, an operator and what follows. */
  lemma AtInfix(ts: seq<Token>, c: nat, p: seq<Token>, t: Token, q: seq<Token>)
    ensures At(ts, c, p + [t] + q) <==>
            At(ts, c, p) && c + |p| < |ts| && ts[c + |p|] == t && At(ts, c + |p| + 1, q)
  {
    assert p + [t] + q == p + ([t] + q);
    AtSplit(ts, c, p, [t] + q);
    AtHead(ts, c + |p|, t, q);
  }

  /** What a tree printed at c ends with, as Pipeline leaves it. */
  ghost predicate PipelineAt(ts: seq<Token>, c: nat, a: Ast, k: nat)
    requires ts != []
  {
    var e := c + |PrintPipeline(a)|;
    At(ts, c, PrintPipeline(a)) && k == Sat(ts, e) && (e < |ts| ==> EndsPipeline(a, ts[e]))
  }

  lemma PipeAt(ts: seq<Token>, c: nat, l: Ast, r: Ast, m: nat, k: nat)
    requires At(ts, c, PrintCommand(l)) && m == c + |PrintCommand(l)|
    requires m < |ts| && ts[m].PipeTok? && PipelineAt(ts, m + 1, r, k)
    ensures PipelineAt(ts, c, Pipe(l, r), k)
  {
    AtInfix(ts, c, PrintCommand(l), PipeTok, PrintPipeline(r));
  }

  /** A pipe read up to its operator at m. */
  lemma PipeOpen(ts: seq<Token>, c: nat, a: Ast, k: nat) returns (m: nat)
    requires c < |ts| && a.Pipe? && IsPipeline(a) && PipelineAt(ts, c, a, k)
    ensures m + 1 < |ts| && Command(ts, c) == (a.left, m) && ts[m].PipeTok? && ts[m + 1].Atom?
    ensures PipelineAt(ts, m + 1, a.right, k)
  {
    m := c + |PrintCommand(a.left)|;
    AtInfix(ts, c, PrintCommand(a.left), PipeTok, PrintPipeline(a.right));
    CommandParse(ts, c, a.left);
    PipelineEnds(a.right);
    AtLast(ts, m + 1, PrintPipeline(a.right));
  }

  lemma {:induction false} PipelineParse(ts: seq<Token>, c: nat, a: Ast, k: nat)
    requires c < |ts| && IsPipeline(a) && PipelineAt(ts, c, a, k)
    ensures Pipeline(ts, c) == (a, k)
    decreases a
  {
    if a.Pipe? {
      var m := PipeOpen(ts, c, a, k);
      PipelineParse(ts, m + 1, a.right, k);
    } else {
      CommandParse(ts, c, a);
      CommandEnds(a);
      AtLast(ts, c, PrintCommand(a));
    }
  }

  /** The pipe branch of Pipeline, over the results of its two calls. */
  lemma PipeCase(ts: seq<Token>, c: nat, l: Ast, m: nat)
    requires c < |ts| && Command(ts, c) == (l, m) && !l.Nil? && ts[m].PipeTok?
    requires !Pipeline(ts, c).0.Nil?
    ensures c <= m && m + 1 < |ts| && ts[m + 1].Atom?
    ensures Pipeline(ts, c) == (Pipe(l, Pipeline(ts, m + 1).0), Pipeline(ts, m + 1).1)
  {
  }

  lemma CommandOpen(ts: seq<Token>, c: nat, l: Ast, m: nat)
    requires c < |ts| && Command(ts, c) == (l, m) && !l.Nil?
    ensures IsCommand(l) && At(ts, c, PrintCommand(l))
    ensures ts[m].PipeTok? ==> m == c + |PrintCommand(l)|
    ensures !ts[m].PipeTok? ==> PipelineAt(ts, c, l, m)
  {
    CommandRead(ts, c);
    CommandEnds(l);
    AtLast(ts, c, PrintCommand(l));
  }

  lemma {:induction false} PipelineRead(ts: seq<Token>, c: nat)
    requires c < |ts| && IsPipeline(Pipeline(ts, c).0)
    ensures PipelineAt(ts, c, Pipeline(ts, c).0, Pipeline(ts, c).1)
    decreases |ts| - c
  {
    var (l, m) := Command(ts, c);
    CommandOpen(ts, c, l, m);
    if ts[m].PipeTok? {
      PipeCase(ts, c, l, m);
      PipelineRead(ts, m + 1);
      PipeAt(ts, c, l, Pipeline(ts, m + 1).0, m, Pipeline(ts, m + 1).1);
    }
  }

  // ---------- lists ----------

  /** The tree ends in `&` or `;` with nothing after it. */
  predicate Trailing(a: Ast) {
    match a
    case Background(_, r) => r.Nil? || Trailing(r)
    case Seq(_, r) => r.Nil? || Trailing(r)
    case And(_, r) => Trailing(r)
    case Or(_, r) => Trailing(r)
    case _ => false
  }

  predicate EndsInRedirect(a: Ast) {
    match a
    case Background(_, r) => EndsInRedirect(r)
    case Seq(_, r) => EndsInRedirect(r)
    case And(_, r) => EndsInRedirect(r)
    case Or(_, r) => EndsInRedirect(r)
    case _ => LastCommand(a).Redir?
  }

  /** The parse of what follows position e; with nothing there, the cursor rests on
      the last token. */
  function Rest(ts: seq<Token>, e: nat): (Ast, nat)
    requires ts != []
  {
    if e >= |ts| then (Nil, |ts| - 1) else FullCommand(ts, e)
  }

  /** What may stand unread or misread behind a printed tree, from e on, with the
      cursor left at k and rest the parse from e: nothing; one word after a last
      redirection; or, after a trailing `&` or `;`, anything refused at k. */
  predicate Leftover(ts: seq<Token>, a: Ast, e: nat, k: nat, rest: (Ast, nat)) {
    if Trailing(a) then rest == (Nil, k)
    else if e >= |ts| then k == |ts| - 1
    else EndsInRedirect(a) && ts[e].Atom? && k == e
  }

  ghost predicate FullAt(ts: seq<Token>, c: nat, a: Ast, e: nat, k: nat, rest: (Ast, nat)) {
    e == c + |Print(a)| && At(ts, c, Print(a)) && Leftover(ts, a, e, k, rest)
  }

  predicate IsList(a: Ast) {
    a.Background? || a.Seq? || a.And? || a.Or?
  }

  function ListOperator(a: Ast): Token
    requires IsList(a)
  {
    match a case Background(_, _) => Ampersand case Seq(_, _) => Semicolon case And(_, _) => AndTok case Or(_,
      _) => OrTok
  }

  predicate MayTrail(a: Ast) {
    a.Background? || a.Seq?
  }

  function WithRight(a: Ast, r: Ast): Ast
    requires IsList(a)
  {
    match a
    case Background(l, _) => Background(l, r)
    case Seq(l, _) => Seq(l, r)
    case And(l, _) => And(l, r)
    case Or(l, _) => Or(l, r)
  }

  /** What FullCommand returns for a's operator at m. */
  function ListResult(ts: seq<Token>, a: Ast, m: nat): (Ast, nat)
    requires m < |ts| && IsList(a)
  {
    if m + 1 >= |ts| then (if MayTrail(a) then WithRight(a, Nil) else Nil, m)
    else if MayTrail(a) || ts[m + 1].Atom? then
      (WithRight(a, FullCommand(ts, m + 1).0), FullCommand(ts, m + 1).1)
    else (Nil, m + 1)
  }

  /** The four list branches of FullCommand, over the results of its two calls. */
  lemma ListCase(ts: seq<Token>, c: nat, a: Ast, m: nat)
    requires c < |ts| && IsList(a) && Pipeline(ts, c) == (a.left, m) && !a.left.Nil?
    requires ts[m] == ListOperator(a)
    ensures c <= m < |ts|
    ensures FullCommand(ts, c) == ListResult(ts, a, m)
  {
  }

  lemma PrintList(a: Ast)
    requires IsList(a)
    ensures Print(a) == PrintPipeline(a.left) + [ListOperator(a)] + Print(a.right)
    ensures |Print(a)| == |PrintPipeline(a.left)| + 1 + |Print(a.right)|
    ensures Trailing(a) <==> (MayTrail(a) && a.right.Nil?) || Trailing(a.right)
    ensures EndsInRedirect(a) <==> EndsInRedirect(a.right)
  {
  }

  /** What follows a list's operator at m. */
  ghost predicate RightAt(ts: seq<Token>, a: Ast, m: nat, e: nat, k: nat, rest: (Ast, nat))
    requires IsList(a)
  {
    if a.right.Nil? && MayTrail(a) then e == m + 1 && rest == (Nil, k)
    else FullAt(ts, m + 1, a.right, e, k, rest)
  }

  lemma PrintSplits(ts: seq<Token>, c: nat, a: Ast, m: nat)
    requires IsList(a) && m == c + |PrintPipeline(a.left)|
    ensures At(ts, c, Print(a)) <==>
            At(ts, c, PrintPipeline(a.left)) && m < |ts| && ts[m] == ListOperator(a) && At(ts, m + 1, Print(a.right))
  {
    var p, t, q := PrintPipeline(a.left), ListOperator(a), Print(a.right);
    assert Print(a) == p + [t] + q by { PrintList(a); }
    AtInfix(ts, c, p, t, q);
  }

  /** A list printed at c is its left pipeline, its operator and its right. */
  lemma ListSplits(ts: seq<Token>, c: nat, a: Ast, m: nat, e: nat, k: nat, rest: (Ast, nat))
    requires IsList(a) && m == c + |PrintPipeline(a.left)| && FullAt(ts, c, a, e, k, rest)
    ensures At(ts, c, PrintPipeline(a.left)) && m < |ts| && ts[m] == ListOperator(a)
    ensures RightAt(ts, a, m, e, k, rest)
  {
    PrintSplits(ts, c, a, m);
    PrintList(a);
  }

  lemma ListJoins(ts: seq<Token>, c: nat, a: Ast, m: nat, e: nat, k: nat, rest: (Ast, nat))
    requires IsList(a) && m == c + |PrintPipeline(a.left)|
    requires At(ts, c, PrintPipeline(a.left)) && m < |ts| && ts[m] == ListOperator(a)
    requires RightAt(ts, a, m, e, k, rest)
    ensures FullAt(ts, c, a, e, k, rest)
  {
    PrintSplits(ts, c, a, m);
    PrintList(a);
  }

  lemma LeafAt(ts: seq<Token>, c: nat, a: Ast, e: nat, k: nat, rest: (Ast, nat))
    requires c < |ts| && IsPipeline(a) && FullAt(ts, c, a, e, k, rest)
    ensures PipelineAt(ts, c, a, k) && ts[k].Atom?
  {
    PipelineEnds(a);
    AtLast(ts, c, PrintPipeline(a));
  }

  lemma ListLeft(ts: seq<Token>, c: nat, a: Ast, m: nat)
    requires c < |ts| && IsList(a) && IsPipeline(a.left) && At(ts, c, PrintPipeline(a.left))
    requires m == c + |PrintPipeline(a.left)| && m < |ts| && ts[m] == ListOperator(a)
    ensures Pipeline(ts, c) == (a.left, m)
  {
    PipelineParse(ts, c, a.left, m);
  }

  lemma FullFirst(a: Ast)
    requires IsFull(a)
    ensures Print(a) != [] && Print(a)[0].Atom?
  {
    if IsList(a) {
      PrintList(a);
      PipelineEnds(a.left);
    } else {
      PipelineEnds(a);
    }
  }

  lemma ListJoin(ts: seq<Token>, c: nat, a: Ast, m: nat, k: nat)
    requires c < |ts| && IsList(a) && Pipeline(ts, c) == (a.left, m) && !a.left.Nil? && ts[m] == ListOperator(a)
    requires if a.right.Nil? then MayTrail(a) else m + 1 < |ts| && ts[m + 1].Atom?
    requires Rest(ts, m + 1) == (a.right, k)
    ensures FullCommand(ts, c) == (a, k)
  {
    ListCase(ts, c, a, m);
  }

  lemma ListParts(a: Ast)
    requires IsFull(a) && IsList(a)
    ensures IsPipeline(a.left) && !a.left.Nil?
    ensures if a.right.Nil? then MayTrail(a) else IsFull(a.right)
  {
  }

  lemma RightStart(ts: seq<Token>, c: nat, a: Ast)
    requires IsFull(a) && At(ts, c, Print(a))
    ensures c < |ts| && ts[c].Atom?
  {
    FullFirst(a);
    AtLast(ts, c, Print(a));
  }

  /** A list read up to its operator at m. */
  lemma ListOpen(ts: seq<Token>, c: nat, a: Ast, e: nat, k: nat, rest: (Ast, nat)) returns (m: nat)
    requires c < |ts| && IsList(a) && FullAt(ts, c, a, e, k, rest) && IsPipeline(a.left)
    ensures m < |ts| && Pipeline(ts, c) == (a.left, m) && ts[m] == ListOperator(a)
    ensures RightAt(ts, a, m, e, k, rest)
  {
    m := c + |PrintPipeline(a.left)|;
    ListSplits(ts, c, a, m, e, k, rest);
    ListLeft(ts, c, a, m);
  }

  /** A printed tree parses back, whatever harmless tokens follow it. */
  lemma {:induction false} FullParse(ts: seq<Token>, c: nat, a: Ast, e: nat, k: nat)
    requires c < |ts| && IsFull(a) && FullAt(ts, c, a, e, k, Rest(ts, e))
    ensures FullCommand(ts, c) == (a, k)
    decreases a
  {
    var rest := Rest(ts, e);
    if IsList(a) {
      ListParts(a);
      var m := ListOpen(ts, c, a, e, k, rest);
      if !a.right.Nil? {
        RightOpen(ts, a, m, e, k, rest);
        FullParse(ts, m + 1, a.right, e, k);
      }
      ListJoin(ts, c, a, m, k);
    } else {
      LeafParse(ts, c, a, e, k, rest);
    }
  }

  lemma RightOpen(ts: seq<Token>, a: Ast, m: nat, e: nat, k: nat, rest: (Ast, nat))
    requires IsList(a) && IsFull(a.right) && RightAt(ts, a, m, e, k, rest)
    ensures m + 1 < |ts| && ts[m + 1].Atom? && FullAt(ts, m + 1, a.right, e, k, rest)
  {
    RightStart(ts, m + 1, a.right);
  }

  lemma LeafParse(ts: seq<Token>, c: nat, a: Ast, e: nat, k: nat, rest: (Ast, nat))
    requires c < |ts| && IsPipeline(a) && FullAt(ts, c, a, e, k, rest)
    ensures FullCommand(ts, c) == (a, k)
  {
    LeafAt(ts, c, a, e, k, rest);
    PipelineParse(ts, c, a, k);
  }

  lemma PipelineNotList(ts: seq<Token>, c: nat)
    requires c < |ts|
    ensures !IsList(Pipeline(ts, c).0)
  {
    if !Command(ts, c).0.Nil? { CommandRead(ts, c); }
  }

  predicate IsListOperator(t: Token) {
    t.Ampersand? || t.Semicolon? || t.AndTok? || t.OrTok?
  }

  lemma PipelinePart(ts: seq<Token>, c: nat, a: Ast, k: nat)
    requires c < |ts| && FullCommand(ts, c) == (a, k) && IsFull(a)
    ensures var (l, m) := Pipeline(ts, c);
            if IsList(a) then l == a.left && IsPipeline(l) && ts[m] == ListOperator(a)
            else l == a && IsPipeline(l) && m == k && !IsListOperator(ts[m])
  {
    PipelineNotList(ts, c);
  }

  lemma LeafRead(ts: seq<Token>, c: nat, a: Ast, k: nat, rest: (Ast, nat))
    requires c < |ts| && Pipeline(ts, c) == (a, k) && IsPipeline(a) && !IsListOperator(ts[k])
    ensures FullAt(ts, c, a, c + |Print(a)|, k, rest)
  {
    PipelineRead(ts, c);
    PipelineEnds(a);
    AtLast(ts, c, PrintPipeline(a));
    PipelineNotList(ts, c);
  }

  lemma ListLeftRead(ts: seq<Token>, c: nat, l: Ast, m: nat)
    requires c < |ts| && Pipeline(ts, c) == (l, m) && IsPipeline(l) && !ts[m].Atom?
    ensures !l.Nil? && At(ts, c, PrintPipeline(l)) && m == c + |PrintPipeline(l)|
  {
    PipelineRead(ts, c);
    PipelineEnds(l);
    AtLast(ts, c, PrintPipeline(l));
  }

  lemma ListRight(ts: seq<Token>, c: nat, a: Ast, m: nat, k: nat)
    requires c < |ts| && IsList(a) && FullCommand(ts, c) == (a, k)
    requires Pipeline(ts, c) == (a.left, m) && !a.left.Nil? && ts[m] == ListOperator(a)
    ensures c <= m && Rest(ts, m + 1) == (a.right, k)
  {
    ListCase(ts, c, a, m);
  }

  lemma ListClose(ts: seq<Token>, c: nat, a: Ast, m: nat, e: nat, k: nat, rest: (Ast, nat))
    requires c < |ts| && IsList(a) && IsPipeline(a.left) && Pipeline(ts, c) == (a.left, m)
    requires ts[m] == ListOperator(a) && RightAt(ts, a, m, e, k, rest)
    ensures FullAt(ts, c, a, e, k, rest)
  {
    ListLeftRead(ts, c, a.left, m);
    ListJoins(ts, c, a, m, e, k, rest);
  }

  lemma ListHead(ts: seq<Token>, c: nat, a: Ast, k: nat) returns (m: nat)
    requires c < |ts| && FullCommand(ts, c) == (a, k) && IsFull(a) && IsList(a)
    ensures c <= m < |ts| && Pipeline(ts, c) == (a.left, m) && IsPipeline(a.left) && ts[m] == ListOperator(a)
    ensures Rest(ts, m + 1) == (a.right, k)
    ensures if a.right.Nil? then MayTrail(a) else IsFull(a.right)
  {
    PipelinePart(ts, c, a, k);
    m := Pipeline(ts, c).1;
    ListParts(a);
    ListRight(ts, c, a, m, k);
  }

  /** What FullCommand returned was printed there. */
  lemma {:induction false} FullRead(ts: seq<Token>, c: nat, a: Ast, k: nat) returns (e: nat)
    requires c < |ts| && FullCommand(ts, c) == (a, k) && IsFull(a)
    ensures FullAt(ts, c, a, e, k, Rest(ts, e))
    decreases |ts| - c
  {
    if IsList(a) {
      var m := ListHead(ts, c, a, k);
      if a.right.Nil? {
        e := m + 1;
        ListClose(ts, c, a, m, e, k, (Nil, k));
      } else {
        e := FullRead(ts, m + 1, a.right, k);
        ListClose(ts, c, a, m, e, k, Rest(ts, e));
      }
    } else {
      PipelinePart(ts, c, a, k);
      e := c + |Print(a)|;
      LeafRead(ts, c, a, k, Rest(ts, e));
    }
  }

  lemma FullExactly(ts: seq<Token>, a: Ast, n: nat, k: nat)
    requires ts != [] && IsFull(a) && n == |Print(a)|
    ensures FullCommand(ts, 0) == (a, k) <==> FullAt(ts, 0, a, n, k, Rest(ts, n))
  {
    if FullCommand(ts, 0) == (a, k) {
      var _ := FullRead(ts, 0, a, k);
    }
    if FullAt(ts, 0, a, n, k, Rest(ts, n)) {
      FullParse(ts, 0, a, n, k);
    }
  }

  /** Exactly which token arrays parse to a given well-formed tree. */
  lemma ParsesExactly(ts: seq<Token>, a: Ast, n: nat)
    requires ts != [] && IsFull(a) && n == |Print(a)|
    ensures Parse(ts) == a <==>
            n <= |ts| && ts[..n] == Print(a) && Leftover(ts, a, n, |ts| - 1, Rest(ts, n))
  {
    FullFirst(a);
    FullExactly(ts, a, n, |ts| - 1);
    AtIsSlice(ts, 0, Print(a));
  }

  /** Printing any well-formed tree and parsing the tokens gives the tree back, with
      the cursor on the last token. */
  lemma RoundTrip(a: Ast)
    requires IsFull(a)
    ensures Print(a) != [] && Parse(Print(a)) == a
    ensures FullCommand(Print(a), 0) == (a, |Print(a)| - 1)
  {
    FullFirst(a);
    AtIsSlice(Print(a), 0, Print(a));
    FullParse(Print(a), 0, a, |Print(a)|, |Print(a)| - 1);
  }

  // ---------- what the end-of-input test lets through ----------

  lemma {:induction false} RedirectDoesNotTrail(a: Ast)
    requires EndsInRedirect(a)
    ensures !Trailing(a)
  {
    if IsList(a) { RedirectDoesNotTrail(a.right); }
  }

  /** A word behind a last redirection is accepted and dropped, as in `a > f b`. */
  lemma DropsWord(a: Ast, w: string)
    requires IsFull(a) && EndsInRedirect(a)
    ensures Parse(Print(a) + [Atom(w)]) == a
  {
    RedirectDoesNotTrail(a);
    var ts := Print(a) + [Atom(w)];
    assert ts[..|Print(a)|] == Print(a);
    ParsesExactly(ts, a, |Print(a)|);
  }

  lemma RefusedAtEnd(ts: seq<Token>, n: nat)
    requires n + 2 == |ts| && ts[n].Atom? && ts[n + 1].Greater?
    ensures FullCommand(ts, n) == (Nil, n + 1)
  {
    assert SimpleCommand(ts, n + 1) == (Nil, n + 1);
    assert SimpleCommand(ts, n) == (Cmd(ts[n].text, Nil), n + 1);
    assert Command(ts, n) == (Nil, n + 1);
  }

  /** A broken command behind a trailing `;` or `&` is accepted and dropped, as in
      `a ; b >`. */
  lemma DropsCommand(a: Ast, w: string)
    requires IsFull(a) && Trailing(a)
    ensures Parse(Print(a) + [Atom(w), Greater]) == a
  {
    var n := |Print(a)|;
    var ts := Print(a) + [Atom(w), Greater];
    assert ts[..n] == Print(a);
    RefusedAtEnd(ts, n);
    ParsesExactly(ts, a, |Print(a)|);
  }

  // ---------- the parser object ----------

  class Parser {
    const tokens: seq<Token>
    var cursor: nat

    ghost predicate Valid()
      reads this
    {
      cursor < |tokens|
    }

    constructor (ts: seq<Token>)
      requires ts != []
      ensures Valid() && tokens == ts && cursor == 0
    {
      tokens, cursor := ts, 0;
    }

    /** parser_next: whether there was a next token. */
    method Advance() returns (moved: bool)
      requires Valid()
      modifies this
      ensures Valid() && cursor == Next(tokens, old(cursor))
      ensures moved <==> old(cursor) + 1 < |tokens|
    {
      moved := cursor + 1 < |tokens|;
      if moved { cursor := cursor + 1; }
    }

    method ParseWords() returns (a: Ast)
      requires Valid()
      modifies this
      ensures Valid() && (a, cursor) == SimpleCommand(tokens, old(cursor))
      decreases |tokens| - cursor
    {
      if !tokens[cursor].Atom? { return Nil; }
      var w := tokens[cursor].text;
      var rest := Nil;
      var moved := Advance();
      if moved { rest := ParseWords(); }
      a := Cmd(w, rest);
    }

    /** command: each redirection read is spliced just above the words. */
    method ParseCommand() returns (a: Ast)
      requires Valid()
      modifies this
      ensures Valid() && (a, cursor) == Command(tokens, old(cursor))
    {
      a := ParseWords();
      if a.Nil? { return; }
      ghost var result := Redirections(tokens, cursor, a);
      while IsRedirect(tokens[cursor])
        invariant Valid() && Redirections(tokens, cursor, a) == result
        decreases |tokens| - cursor
      {
        var d := DirectionOf(tokens[cursor]);
        var _ := Advance();
        if !tokens[cursor].Atom? { return Nil; }
        a := Splice(a, d, tokens[cursor].text);
        var _ := Advance();
      }
    }

    method ParsePipeline() returns (a: Ast)
      requires Valid()
      modifies this
      ensures Valid() && (a, cursor) == Pipeline(tokens, old(cursor))
      decreases |tokens| - cursor
    {
      a := ParseCommand();
      if a.Nil? || !tokens[cursor].PipeTok? { return; }
      var _ := Advance();
      if !tokens[cursor].Atom? { return Nil; }
      var right := ParsePipeline();
      a := Pipe(a, right);
    }

    method ParseFull() returns (a: Ast)
      requires Valid()
      modifies this
      ensures Valid() && (a, cursor) == FullCommand(tokens, old(cursor))
      decreases |tokens| - cursor
    {
      a := ParsePipeline();
      if a.Nil? { return; }
      var t := tokens[cursor];
      if t.Ampersand? || t.Semicolon? {
        var right := Nil;
        var moved := Advance();
        if moved { right := ParseFull(); }
        a := if t.Ampersand? then Background(a, right) else Seq(a, right);
      } else if t.AndTok? || t.OrTok? {
        var _ := Advance();
        if !tokens[cursor].Atom? { return Nil; }
        var right := ParseFull();
        a := if t.AndTok? then And(a, right) else Or(a, right);
      }
    }
  }

  /** shell_eval_parser over the parser object: a well-formed tree comes back exactly
      when the tokens are its print, up to the leftovers above. */
  method EvalParser(ts: seq<Token>) returns (a: Ast)
    requires ts != []
    ensures a == Parse(ts)
    ensures forall x :: IsFull(x) && ts == Print(x) ==> a == x
    ensures IsFull(a) ==> |Print(a)| <= |ts| && ts[..|Print(a)|] == Print(a)
  {
    var p := new Parser(ts);
    a := p.ParseFull();
    if p.cursor != |ts| - 1 { a := Nil; }
    forall x | IsFull(x) && ts == Print(x) ensures a == x { RoundTrip(x); }
    if IsFull(a) { ParsesExactly(ts, a, |Print(a)|); }
  }
}
