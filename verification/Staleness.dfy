/** The mtime fast path of incremental builds (src/build.c:1966-2018, 2944-2954): over
    any run of edits and builds, an object accepted as current is what compiling now
    would give. */
module Staleness {

  type Path = string
  type Contents = map<Path, string>

  datatype File = File(content: string, mtime: nat)
  datatype Object = Object(code: string, mtime: nat)

  /** A fixed target and toolchain: what compiling a source gives and which files it
      reports reading, the target's declared inputs, and the name an object is filed
      under. */
  datatype Target = Target(
    compile: (Path, Contents) -> (string, seq<Path>),
    inputs: seq<Path>,
    stem: Path -> string,
    sources: set<Path>)

  /** The files, the objects and dependency lists in the object directory, and the
      time of the latest change. */
  datatype State = State(
    files: map<Path, File>,
    objects: map<string, Object>,
    deps: map<string, seq<Path>>,
    now: nat)

  function ContentsOf(files: map<Path, File>): Contents {
    map p | p in files :: files[p].content
  }

  /** Files a compile of src depends on, given its dependency list. */
  predicate Reads(t: Target, src: Path, deps: seq<Path>, p: Path) {
    p == src || p in deps || p in t.inputs
  }

  /** What a compile may look at: its source, the files it reports and the inputs declared
      for its target. */
  function Sees(t: Target, src: Path, deps: seq<Path>): (r: set<Path>)
    ensures src in r && (forall p :: p in deps ==> p in r) && forall p :: p in t.inputs ==> p in r
  {
    {src} + (set p | p in deps) + (set p | p in t.inputs)
  }

  ghost predicate Agree(t: Target, src: Path, deps: seq<Path>, a: Contents, b: Contents) {
    forall p :: p in Sees(t, src, deps) && p in a && p in b ==> a[p] == b[p]
  }

  ghost predicate Covers(t: Target, src: Path, deps: seq<Path>, a: Contents) {
    forall p :: p in Sees(t, src, deps) ==> p in a
  }

  /** A compile depends on nothing but the files it reports and the declared inputs:
      where those agree, so do the results. */
  ghost predicate Reproducible(t: Target) {
    forall src: Path, a: Contents, b: Contents {:trigger t.compile(src, a), t.compile(src, b)} ::
      var deps := t.compile(src, a).1;
      Covers(t, src, deps, a) && Covers(t, src, deps, b) && Agree(t, src, deps, a, b)
      ==> t.compile(src, a) == t.compile(src, b)
  }

  ghost predicate DistinctStems(t: Target) {
    forall a, b :: a in t.sources && b in t.sources && t.stem(a) == t.stem(b) ==> a == b
  }

  /** ofile_is_current: object, source and every prerequisite exist, and none is newer
      than the object. */
  ghost predicate Current(t: Target, s: State, src: Path) {
    var k := t.stem(src);
    && k in s.objects && k in s.deps
    && forall p :: Reads(t, src, s.deps[k], p) ==> p in s.files && s.files[p].mtime <= s.objects[k].mtime
  }

  // ---------- runs ----------

  /** An edit, a deletion, a build of one source, a compile that failed after writing
      its dependency list, and removals from the object directory. */
  datatype Event =
    | Edit(path: Path, content: string, at: nat)
    | Delete(path: Path)
    | Make(src: Path, at: nat)
    | FailedCompile(src: Path)
    | DropObject(stem: string)
    | DropDeps(stem: string)

  /** An edit is later than everything before it; a build is not earlier. */
  predicate Allowed(t: Target, s: State, e: Event) {
    match e
    case Edit(_, _, at) => at > s.now
    case Make(src, at) => at >= s.now && src in t.sources
    case FailedCompile(src) => src in t.sources
    case _ => true
  }

  ghost function Compiled(t: Target, s: State, src: Path, at: nat): State {
    var r := t.compile(src, ContentsOf(s.files));
    s.(objects := s.objects[t.stem(src) := Object(r.0, at)], deps := s.deps[t.stem(src) := r.1], now := at)
  }

  ghost function Apply(t: Target, s: State, e: Event): State {
    match e
    case Edit(p, c, at) => s.(files := s.files[p := File(c, at)], now := at)
    case Delete(p) => s.(files := s.files - {p})
    case Make(src, at) => if Current(t, s, src) then s else Compiled(t, s, src, at)
    case FailedCompile(src) => s.(deps := s.deps[t.stem(src) := t.compile(src, ContentsOf(s.files)).1])
    case DropObject(k) => s.(objects := s.objects - {k})
    case DropDeps(k) => s.(deps := s.deps - {k})
  }

  // ---------- the invariant ----------

  /** What the files held when an object was compiled, and when its dependency list was
      last written. */
  datatype History = History(built: map<string, Contents>, listed: map<string, Contents>)

  ghost predicate ClockOk(s: State) {
    && (forall p :: p in s.files ==> s.files[p].mtime <= s.now)
    && (forall k :: k in s.objects ==> s.objects[k].mtime <= s.now)
  }

  /** A file not newer than the object still holds what it held in c. */
  ghost predicate Unchanged(s: State, k: string, c: Contents)
    requires k in s.objects
  {
    forall p {:trigger p in s.files} :: p in s.files && s.files[p].mtime <= s.objects[k].mtime ==>
      p in c && c[p] == s.files[p].content
  }

  ghost predicate ObjectOk(t: Target, s: State, h: History, src: Path)
    requires t.stem(src) in s.objects
  {
    var k := t.stem(src);
    && k in h.built && s.objects[k].code == t.compile(src, h.built[k]).0 && Unchanged(s, k, h.built[k])
    && (k in s.deps ==>
          k in h.listed && s.deps[k] == t.compile(src, h.listed[k]).1 && Unchanged(s, k, h.listed[k]))
  }

  ghost predicate Inv(t: Target, s: State, h: History) {
    && ClockOk(s)
    && forall src :: src in t.sources && t.stem(src) in s.objects ==> ObjectOk(t, s, h, src)
  }

  /** Contents that agree with the present files on everything compile reads give the
      present result. */
  lemma SameResult(t: Target, src: Path, c: Contents, now: Contents)
    requires Reproducible(t)
    requires forall p :: Reads(t, src, t.compile(src, c).1, p) ==> p in c && p in now && c[p] == now[p]
    ensures t.compile(src, c) == t.compile(src, now)
  {
    var deps := t.compile(src, c).1;
    assert Covers(t, src, deps, c) && Covers(t, src, deps, now) && Agree(t, src, deps, c, now);
  }

  /** An object accepted as current is what compiling now would give. */
  lemma CurrentIsRight(t: Target, s: State, h: History, src: Path)
    requires Reproducible(t) && Inv(t, s, h) && src in t.sources && Current(t, s, src)
    ensures s.objects[t.stem(src)].code == t.compile(src, ContentsOf(s.files)).0
  {
    var k := t.stem(src);
    var listed, built, now := h.listed[k], h.built[k], ContentsOf(s.files);
    assert ObjectOk(t, s, h, src);
    SameResult(t, src, listed, now);
    SameResult(t, src, listed, built);
  }

  ghost function Recorded(t: Target, s: State, h: History, e: Event): History {
    match e
    case Make(src, _) =>
      if Current(t, s, src) then h
      else h.(built := h.built[t.stem(src) := ContentsOf(s.files)],
        listed := h.listed[t.stem(src) := ContentsOf(s.files)])
    case FailedCompile(src) => h.(listed := h.listed[t.stem(src) := ContentsOf(s.files)])
    case _ => h
  }

  lemma EditKeeps(t: Target, s: State, h: History, p: Path, c: string, at: nat)
    requires Inv(t, s, h) && at > s.now
    ensures Inv(t, Apply(t, s, Edit(p, c, at)), h)
  {
    var s' := Apply(t, s, Edit(p, c, at));
    forall src | src in t.sources && t.stem(src) in s'.objects ensures ObjectOk(t, s', h, src) {
      assert ObjectOk(t, s, h, src);
      var k := t.stem(src);
      UnchangedByEdit(s, s', k, h.built[k], p);
      if k in s.deps { UnchangedByEdit(s, s', k, h.listed[k], p); }
    }
  }

  lemma UnchangedByEdit(s: State, s': State, k: string, c: Contents, p: Path)
    requires k in s.objects && s'.objects == s.objects && Unchanged(s, k, c)
    requires forall q :: q in s'.files && q != p ==> q in s.files && s'.files[q] == s.files[q]
    requires p in s'.files ==> s'.files[p].mtime > s.objects[k].mtime
    ensures Unchanged(s', k, c)
  {
  }

  lemma DeleteKeeps(t: Target, s: State, h: History, p: Path)
    requires Inv(t, s, h)
    ensures Inv(t, Apply(t, s, Delete(p)), h)
  {
    var s' := Apply(t, s, Delete(p));
    forall src | src in t.sources && t.stem(src) in s'.objects ensures ObjectOk(t, s', h, src) {
      assert ObjectOk(t, s, h, src);
      var k := t.stem(src);
      UnchangedByEdit(s, s', k, h.built[k], p);
      if k in s.deps { UnchangedByEdit(s, s', k, h.listed[k], p); }
    }
  }

  lemma CompileKeeps(t: Target, s: State, h: History, src: Path, at: nat)
    requires Inv(t, s, h) && DistinctStems(t) && src in t.sources && at >= s.now
    ensures var k, c := t.stem(src), ContentsOf(s.files);
            Inv(t, Compiled(t, s, src, at), h.(built := h.built[k := c], listed := h.listed[k := c]))
  {
    var k, c := t.stem(src), ContentsOf(s.files);
    var s', h' := Compiled(t, s, src, at), h.(built := h.built[k := c], listed := h.listed[k := c]);
    forall x | x in t.sources && t.stem(x) in s'.objects ensures ObjectOk(t, s', h', x) {
      if x == src {
        assert Unchanged(s', k, c);
      } else {
        assert t.stem(x) != k;
        assert ObjectOk(t, s, h, x);
      }
    }
  }

  lemma FailKeeps(t: Target, s: State, h: History, src: Path)
    requires Inv(t, s, h) && DistinctStems(t) && src in t.sources
    ensures Inv(t, Apply(t, s, FailedCompile(src)), Recorded(t, s, h, FailedCompile(src)))
  {
    var e := FailedCompile(src);
    var s', h' := Apply(t, s, e), Recorded(t, s, h, e);
    forall x | x in t.sources && t.stem(x) in s'.objects ensures ObjectOk(t, s', h', x) {
      assert ObjectOk(t, s, h, x);
      if x == src {
        assert Unchanged(s', t.stem(src), ContentsOf(s.files));
      } else {
        assert t.stem(x) != t.stem(src);
      }
    }
  }

  lemma DropKeeps(t: Target, s: State, h: History, s': State)
    requires Inv(t, s, h) && s'.files == s.files && s'.now == s.now
    requires forall k :: k in s'.objects ==> k in s.objects && s'.objects[k] == s.objects[k]
    requires forall k :: k in s'.deps ==> k in s.deps && s'.deps[k] == s.deps[k]
    ensures Inv(t, s', h)
  {
    forall x | x in t.sources && t.stem(x) in s'.objects ensures ObjectOk(t, s', h, x) {
      assert ObjectOk(t, s, h, x);
    }
  }

  lemma StepKeeps(t: Target, s: State, h: History, e: Event)
    requires Inv(t, s, h) && DistinctStems(t) && Allowed(t, s, e)
    ensures Inv(t, Apply(t, s, e), Recorded(t, s, h, e))
  {
    match e
    case Edit(p, c, at) => EditKeeps(t, s, h, p, c, at);
    case Delete(p) => DeleteKeeps(t, s, h, p);
    case Make(src, at) => if !Current(t, s, src) { CompileKeeps(t, s, h, src, at); }
    case FailedCompile(src) => FailKeeps(t, s, h, src);
    case DropObject(_) => DropKeeps(t, s, h, Apply(t, s, e));
    case DropDeps(_) => DropKeeps(t, s, h, Apply(t, s, e));
  }

  /** states runs through the events, each allowed. */
  ghost predicate IsRun(t: Target, states: seq<State>, events: seq<Event>) {
    && |states| == |events| + 1
    && forall i {:trigger events[i]} :: 0 <= i < |events| ==>
         Allowed(t, states[i], events[i]) && states[i + 1] == Apply(t, states[i], events[i])
  }

  /** Nothing built yet. */
  ghost predicate Fresh(s: State) {
    ClockOk(s) && s.objects == map[]
  }

  lemma {:induction false} RunInv(t: Target, states: seq<State>, events: seq<Event>, n: nat) returns (h: History)
    requires DistinctStems(t) && IsRun(t, states, events) && Fresh(states[0]) && n <= |events|
    ensures Inv(t, states[n], h)
    decreases n
  {
    if n == 0 {
      h := History(map[], map[]);
    } else {
      var h' := RunInv(t, states, events, n - 1);
      StepKeeps(t, states[n - 1], h', events[n - 1]);
      h := Recorded(t, states[n - 1], h', events[n - 1]);
    }
  }

  /** Incremental agrees with clean: after any run from an empty object directory, an
      object accepted as current is what compiling the present files would give. */
  lemma IncrementalIsClean(t: Target, states: seq<State>, events: seq<Event>, n: nat, src: Path)
    requires Reproducible(t) && DistinctStems(t) && IsRun(t, states, events) && Fresh(states[0])
    requires n <= |events| && src in t.sources && Current(t, states[n], src)
    ensures states[n].objects[t.stem(src)].code == t.compile(src, ContentsOf(states[n].files)).0
  {
    var h := RunInv(t, states, events, n);
    CurrentIsRight(t, states[n], h, src);
  }

  /** An edit of a file a current object depends on goes unnoticed exactly when it is not
      later than the object: an edit in the build's own tick does. */
  lemma SameTickIsMissed(t: Target, s: State, src: Path, p: Path, c: string, at: nat)
    requires Current(t, s, src) && Reads(t, src, s.deps[t.stem(src)], p)
    ensures Current(t, Apply(t, s, Edit(p, c, at)), src) <==> at <= s.objects[t.stem(src)].mtime
  {
    var k, s' := t.stem(src), Apply(t, s, Edit(p, c, at));
    if at <= s.objects[k].mtime {
      forall q | Reads(t, src, s'.deps[k], q) ensures q in s'.files && s'.files[q].mtime <= s'.objects[k].mtime {
        assert q != p ==> q in s.files;
      }
    }
  }

  /** With two sources filed under one stem, building b makes a look built exactly when
      the files a is taken to read exist; its object is then b's, so it is right exactly
      when both compile to the same. */
  lemma SharedStemIsMissed(t: Target, s: State, a: Path, b: Path, at: nat)
    requires ClockOk(s) && t.stem(a) == t.stem(b) && !Current(t, s, b) && at >= s.now
    ensures var s', now := Apply(t, s, Make(b, at)), ContentsOf(s.files);
      && (Current(t, s', a) <==> forall p :: Reads(t, a, t.compile(b, now).1, p) ==> p in s.files)
      && (Right(t, s', a) <==> t.compile(a, now).0 == t.compile(b, now).0)
  {
    var s' := Apply(t, s, Make(b, at));
    assert s'.files == s.files;
  }

  // ---------- the program ----------

  /** ofile_is_current. */
  method OfileIsCurrent(t: Target, s: State, src: Path) returns (current: bool)
    ensures current <==> Current(t, s, src)
  {
    var k := t.stem(src);
    if k !in s.objects || src !in s.files { return false; }
    if s.objects[k].mtime < s.files[src].mtime { return false; }
    if k !in s.deps { return false; }
    var prereqs := s.deps[k] + t.inputs;
    for i := 0 to |prereqs|
      invariant forall j :: 0 <= j < i ==> prereqs[j] in s.files && s.files[prereqs[j]].mtime <= s.objects[k].mtime
    {
      if prereqs[i] !in s.files || s.objects[k].mtime < s.files[prereqs[i]].mtime {
        assert Reads(t, src, s.deps[k], prereqs[i]);
        return false;
      }
    }
    forall p | Reads(t, src, s.deps[k], p) ensures p in s.files && s.files[p].mtime <= s.objects[k].mtime {
      if p != src {
        assert p in prereqs;
      }
    }
    current := true;
  }

  /** An object directory that sources are compiled into. */
  class Objdir {
    const t: Target
    var state: State
    ghost var history: History

    constructor (target: Target, files: map<Path, File>, now: nat)
      requires forall p :: p in files ==> files[p].mtime <= now
      ensures t == target && state.files == files && state.now == now && Inv(t, state, history)
    {
      t := target;
      state := State(files, map[], map[], now);
      history := History(map[], map[]);
    }

    /** Level 1 of compile_sources, serially: each compile at the time of its turn, until
        one fails. Every object the loop got past is what a clean build would give; one that
        was current is left alone, and when all were nothing happens at all. */
    method CompileSources(sources: seq<Path>) returns (ok: bool, done: nat)
      requires Inv(t, state, history) && Reproducible(t) && DistinctStems(t)
      requires forall i :: 0 <= i < |sources| ==> sources[i] in t.sources
      modifies this
      ensures Inv(t, state, history) && state.files == old(state.files)
      ensures done <= |sources| && (ok <==> done == |sources|)
      ensures forall i :: 0 <= i < done ==> Right(t, state, sources[i])
      ensures forall x :: x in t.sources && Current(t, old(state), x) ==> LeftAlone(t, old(state), state, x)
      ensures (forall i :: 0 <= i < |sources| ==> Current(t, old(state), sources[i])) ==> ok && state == old(state)
    {
      ok, done := true, 0;
      while done < |sources| && ok
        invariant Inv(t, state, history) && state.files == old(state.files)
        invariant done <= |sources| && (!ok ==> done < |sources|)
        invariant forall j :: 0 <= j < done ==> Right(t, state, sources[j])
        invariant forall x :: x in t.sources && Current(t, old(state), x) ==> LeftAlone(t, old(state), state, x)
        invariant (forall i :: 0 <= i < |sources| ==> Current(t, old(state), sources[i])) ==> ok && state == old(state)
        decreases |sources| - done, ok
      {
        ghost var before := state;
        ok := CompileOne(sources[done]);
        forall x | x in t.sources && Current(t, old(state), x) ensures LeftAlone(t, old(state), state, x) {
          OthersLeftAlone(t, before, state, sources[done], x);
        }
        if ok { done := done + 1; }
      }
    }

    /** One source: left alone when current, else compiled. A compile that fails leaves the
        object as it was, whether or not it rewrote the dependency list. */
    method CompileOne(src: Path) returns (ok: bool)
      requires Inv(t, state, history) && Reproducible(t) && DistinctStems(t) && src in t.sources
      modifies this
      ensures Inv(t, state, history) && state.files == old(state.files)
      ensures ok ==> Right(t, state, src)
      ensures !ok ==> state.objects == old(state.objects)
      ensures Tried(t, old(state), state, src, ok)
      ensures forall x :: x in t.sources && Right(t, old(state), x) ==> Right(t, state, x)
    {
      var current := OfileIsCurrent(t, state, src);
      if current {
        CurrentIsRight(t, state, history, src);
        return true;
      }
      var r := t.compile(src, ContentsOf(state.files));
      var fails: bool, lists: bool := *, *;
      if fails {
        if lists {
          FailKeeps(t, state, history, src);
          history := Recorded(t, state, history, FailedCompile(src));
          state := state.(deps := state.deps[t.stem(src) := r.1]);
        }
        return false;
      }
      var at: nat :| at >= state.now;
      CompileKeeps(t, state, history, src, at);
      ghost var c := ContentsOf(state.files);
      history := history.(built := history.built[t.stem(src) := c], listed := history.listed[t.stem(src) := c]);
      state := state.(objects := state.objects[t.stem(src) := Object(r.0, at)],
                      deps := state.deps[t.stem(src) := r.1], now := at);
      return true;
    }
  }

  /** One turn of the loop: nothing for a current object; otherwise a compile, which leaves
      its object and list, or fails, perhaps leaving a list. */
  ghost predicate Tried(t: Target, s: State, s': State, src: Path, ok: bool) {
    if Current(t, s, src) then ok && s' == s
    else if ok then s'.now >= s.now && s' == Compiled(t, s, src, s'.now)
    else s' == s || s' == Apply(t, s, FailedCompile(src))
  }

  /** The object of x and its list are what they were, and x is still current. */
  ghost predicate LeftAlone(t: Target, s: State, s': State, x: Path) {
    && Current(t, s', x) && Current(t, s, x)
    && s'.objects[t.stem(x)] == s.objects[t.stem(x)] && s'.deps[t.stem(x)] == s.deps[t.stem(x)]
  }

  lemma OthersLeftAlone(t: Target, s: State, s': State, src: Path, x: Path)
    requires DistinctStems(t) && src in t.sources && x in t.sources && Current(t, s, x)
    requires exists ok :: Tried(t, s, s', src, ok)
    ensures LeftAlone(t, s, s', x)
  {
    assert t.stem(src) == t.stem(x) ==> src == x;
  }

  ghost predicate Right(t: Target, s: State, src: Path) {
    t.stem(src) in s.objects && s.objects[t.stem(src)].code == t.compile(src, ContentsOf(s.files)).0
  }
}
