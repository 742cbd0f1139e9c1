/** cacheBeforeEach and addSnapshotBeforeRestoreAfterEach of utils/test/testingUtils.ts, and the test runner
    that drives them. One stack of snapshot identifiers is shared by the cached hooks of every suite, so an
    outer hook usually pops a snapshot that an inner hook pushed. */
module SnapshotCache {
  import opened ChainModel

  /** Cached: registered with cacheBeforeEach. Guard: registered with addSnapshotBeforeRestoreAfterEach.
      Ordinary: any other beforeEach. */
  datatype Kind = Cached | Guard | Ordinary

  /** A hook that runs around every test of its suite and of the suites inside it. A guard has no effect
      of its own on the state. */
  datatype Declared<!S> = Declared(name: nat, kind: Kind, effect: S -> S)
  {
    function Apply(s: S): S {
      if kind.Guard? then s else effect(s)
    }
  }

  /** A registered hook with the `initialized` flag of its closure. */
  datatype Hook<!S> = Hook(decl: Declared<S>, initialized: bool)

  /** A describe block: its hooks in order of registration, its own tests, its nested blocks. */
  datatype Suite<!S> = Suite(hooks: seq<Declared<S>>, tests: seq<Test<S>>, children: seq<Suite<S>>)

  /** The chain, SNAPSHOTS, and what a run leaves on record: the state every test body started from, the
      names of the initialisers executed, and whether a cached hook popped nothing or had its revert refused. */
  datatype World<S> = World(chain: Chain<S>, snapshots: seq<nat>, starts: seq<S>, executed: seq<nat>, faulted: bool)

  // ---------------------------------------------------------------------------------------------
  // The hooks
  // ---------------------------------------------------------------------------------------------

  function Push<S>(w: World<S>): World<S> {
    w.(chain := TakeSnapshot(w.chain), snapshots := w.snapshots + [w.chain.next])
  }

  function Initialize<S>(w: World<S>, d: Declared<S>): World<S> {
    Push(w.(chain := Mutate(w.chain, d.effect), executed := w.executed + [d.name]))
  }

  /** Popping an empty array would hand the chain no identifier at all; the run is marked faulted. */
  function Restore<S>(w: World<S>): World<S> {
    if w.snapshots == [] then w.(faulted := true)
    else
      var last := |w.snapshots| - 1;
      var id := w.snapshots[last];
      Push(w.(chain := RevertTo(w.chain, id), snapshots := w.snapshots[..last],
              faulted := w.faulted || id !in w.chain.saved))
  }

  function BeforeEach<S>(w: World<S>, h: Hook<S>): (World<S>, Hook<S>) {
    match h.decl.kind
    case Ordinary => (w.(chain := Mutate(w.chain, h.decl.effect)), h)
    case Guard => (w.(chain := TakeSnapshot(w.chain)), h)
    case Cached =>
      if !h.initialized then (Initialize(w, h.decl), h.(initialized := true)) else (Restore(w), h)
  }

  /** `slot` is the identifier the guard's client remembers. Whether the chain accepts it is ignored. */
  function AfterEach<S>(w: World<S>, h: Hook<S>, slot: nat): World<S> {
    if h.decl.kind.Guard? then w.(chain := RevertTo(w.chain, slot)) else w
  }

  function After<S>(w: World<S>, h: Hook<S>): World<S> {
    if !h.initialized then w
    else if w.snapshots == [] then w.(faulted := true)
    else w.(snapshots := w.snapshots[..|w.snapshots| - 1])
  }

  // ---------------------------------------------------------------------------------------------
  // The runner: hooks of outer suites first, a suite's own tests before its children, `after` on exit
  // ---------------------------------------------------------------------------------------------

  /** One test with the hooks around it. */
  function RunTest<S>(w: World<S>, hooks: seq<Hook<S>>, t: Test<S>): (r: (World<S>, seq<Hook<S>>))
    ensures |r.1| == |hooks|
    decreases |hooks|
  {
    if hooks == [] then
      (w.(chain := RunBody(w.chain, t), starts := w.starts + [w.chain.state]), [])
    else
      var (v, h) := BeforeEach(w, hooks[0]);
      var (u, rest) := RunTest(v, hooks[1..], t);
      (AfterEach(u, h, w.chain.next), [h] + rest)
  }

  function AfterAll<S>(w: World<S>, hooks: seq<Hook<S>>): World<S>
    decreases |hooks|
  {
    if hooks == [] then w else AfterAll(After(w, hooks[0]), hooks[1..])
  }

  function RunTests<S>(w: World<S>, hooks: seq<Hook<S>>, tests: seq<Test<S>>): (r: (World<S>, seq<Hook<S>>))
    ensures |r.1| == |hooks|
    decreases |tests|
  {
    if tests == [] then (w, hooks)
    else
      var (w1, hooks1) := RunTest(w, hooks, tests[0]);
      RunTests(w1, hooks1, tests[1..])
  }

  function Registered<S>(declared: seq<Declared<S>>): seq<Hook<S>> {
    seq(|declared|, i requires 0 <= i < |declared| => Hook(declared[i], false))
  }

  /** Runs a suite below the given enclosing hooks; hands back those hooks with their flags. */
  function RunSuite<S>(w: World<S>, enclosing: seq<Hook<S>>, suite: Suite<S>): (r: (World<S>, seq<Hook<S>>))
    ensures |r.1| == |enclosing|
    decreases suite, 1
  {
    var (w1, hooks1) := RunTests(w, enclosing + Registered(suite.hooks), suite.tests);
    var (w2, hooks2) := RunChildren(w1, hooks1, suite.children);
    (AfterAll(w2, hooks2[|enclosing|..]), hooks2[..|enclosing|])
  }

  function RunChildren<S>(w: World<S>, hooks: seq<Hook<S>>, children: seq<Suite<S>>): (r: (World<S>, seq<Hook<S>>))
    ensures |r.1| == |hooks|
    decreases children, 0
  {
    if children == [] then (w, hooks)
    else
      var (w1, hooks1) := RunSuite(w, hooks, children[0]);
      RunChildren(w1, hooks1, children[1..])
  }

  // ---------------------------------------------------------------------------------------------
  // Reference: no cache and no flags. Before each test the chain is put back to where it was when the
  // outermost suite with a cached hook was entered, and every enclosing hook runs, outermost first.
  // Without a cached hook around it a test simply continues from wherever the chain is. A guard puts the
  // chain back to where its own beforeEach found it.
  // ---------------------------------------------------------------------------------------------

  datatype Outcome<S> = Outcome(starts: seq<S>, final: S)

  predicate HasCached<S>(hooks: seq<Declared<S>>)
    decreases |hooks|
  {
    hooks != [] && (hooks[0].kind.Cached? || HasCached(hooks[1..]))
  }

  predicate Guarded<S>(hooks: seq<Declared<S>>)
    decreases |hooks|
  {
    hooks != [] && (hooks[0].kind.Guard? || Guarded(hooks[1..]))
  }

  /** The effects of the hooks in order. */
  function Compose<S>(hooks: seq<Declared<S>>, s: S): S
    decreases |hooks|
  {
    if hooks == [] then s else Compose(hooks[1..], hooks[0].Apply(s))
  }

  /** What the hooks outside the outermost guard make of the state. */
  function Prepared<S>(hooks: seq<Declared<S>>, s: S): S
    decreases |hooks|
  {
    if hooks == [] || hooks[0].kind.Guard? then s else Prepared(hooks[1..], hooks[0].Apply(s))
  }

  /** The state a test below the hooks leaves behind when its hooks start from s. */
  function Left<S>(hooks: seq<Declared<S>>, s: S, t: Test<S>): S {
    if Guarded(hooks) then Prepared(hooks, s) else t.body(Compose(hooks, s))
  }

  function ReferenceTests<S>(hooks: seq<Declared<S>>, anchor: S, current: S, tests: seq<Test<S>>): Outcome<S>
    decreases |tests|
  {
    if tests == [] then Outcome([], current)
    else
      var base := if HasCached(hooks) then anchor else current;
      var rest := ReferenceTests(hooks, anchor, Left(hooks, base, tests[0]), tests[1..]);
      Outcome([Compose(hooks, base)] + rest.starts, rest.final)
  }

  function ReferenceSuite<S>(enclosing: seq<Declared<S>>, anchor: S, current: S, suite: Suite<S>): Outcome<S>
    decreases suite, 1
  {
    var hooks := enclosing + suite.hooks;
    var anchor' := if HasCached(enclosing) then anchor else current;
    var own := ReferenceTests(hooks, anchor', current, suite.tests);
    var nested := ReferenceChildren(hooks, anchor', own.final, suite.children);
    Outcome(own.starts + nested.starts, nested.final)
  }

  function ReferenceChildren<S>(hooks: seq<Declared<S>>, anchor: S, current: S, children: seq<Suite<S>>): Outcome<S>
    decreases children, 0
  {
    if children == [] then Outcome([], current)
    else
      var first := ReferenceSuite(hooks, anchor, current, children[0]);
      var rest := ReferenceChildren(hooks, anchor, first.final, children[1..]);
      Outcome(first.starts + rest.starts, rest.final)
  }

  /** How many tests the runner finds in a suite, at all depths. */
  function CountTests<S>(suite: Suite<S>): nat
    decreases suite, 1
  {
    |suite.tests| + CountAll(suite.children)
  }

  function CountAll<S>(children: seq<Suite<S>>): nat
    decreases children, 0
  {
    if children == [] then 0 else CountTests(children[0]) + CountAll(children[1..])
  }

  function CachedNames<S>(hooks: seq<Declared<S>>): seq<nat>
    decreases |hooks|
  {
    if hooks == [] then []
    else (if hooks[0].kind.Cached? then [hooks[0].name] else []) + CachedNames(hooks[1..])
  }

  /** Every cached hook of a suite with a test in it, once, outer suites before inner ones. */
  function InitOrder<S>(suite: Suite<S>): seq<nat>
    decreases suite, 1
  {
    if CountTests(suite) == 0 then [] else CachedNames(suite.hooks) + InitOrders(suite.children)
  }

  function InitOrders<S>(children: seq<Suite<S>>): seq<nat>
    decreases children, 0
  {
    if children == [] then [] else InitOrder(children[0]) + InitOrders(children[1..])
  }

  /** A guard lies outside a cached hook. */
  predicate Broken<S>(hooks: seq<Declared<S>>)
    decreases |hooks|
  {
    hooks != [] && if hooks[0].kind.Guard? then HasCached(hooks[1..]) else Broken(hooks[1..])
  }

  /** Somewhere in the tree a guard lies outside a cached hook that two tests share. */
  predicate Misplaced<S>(enclosing: seq<Declared<S>>, suite: Suite<S>)
    decreases suite, 1
  {
    var hooks := enclosing + suite.hooks;
    (Broken(hooks) && CountTests(suite) >= 2) || AnyMisplaced(hooks, suite.children)
  }

  predicate AnyMisplaced<S>(hooks: seq<Declared<S>>, children: seq<Suite<S>>)
    decreases children, 0
  {
    children != [] && (Misplaced(hooks, children[0]) || AnyMisplaced(hooks, children[1..]))
  }
}
