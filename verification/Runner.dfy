/** The test framework's side of utils/test/testingUtils.ts: registered hooks run around each test,
    outermost first; a suite's own tests run before its children; `after` hooks run when it is left. */
module Runner {
  import opened ChainModel
  import opened BlockchainUtils
  import opened SnapshotCache
  import opened SnapshotCacheProof
  import opened TestingUtils

  /** A registered hook with the closures behind it. */
  datatype Entry<!S> =
    | Caching(hook: CacheHook<S>)
    | Guarding(decl: Declared<S>, guard: SnapshotGuard<S>)
    | Plain(decl: Declared<S>)
  {
    function Value(): Hook<S>
      reads Owned()
    {
      if Caching? then hook.Value() else Hook(decl, false)
    }

    /** The objects only this hook changes. */
    function Owned(): set<object> {
      match this
      case Caching(hook) => {hook, hook.blockchain}
      case Guarding(_, guard) => {guard.blockchain}
      case Plain(_) => {}
    }

    /** The closures talk to the session's provider and are of the declared kind. */
    ghost predicate Fits(session: Session<S>) {
      match this
      case Caching(hook) => hook.decl.kind.Cached? && hook.blockchain.provider == session.provider
      case Guarding(decl, guard) => decl.kind.Guard? && guard.blockchain.provider == session.provider
      case Plain(decl) => decl.kind.Ordinary?
    }
  }

  /** The objects the hooks of a path may change, beside the session. */
  ghost function Objects<S>(path: seq<Entry<S>>): set<object>
    decreases |path|
  {
    if path == [] then {} else path[0].Owned() + Objects(path[1..])
  }

  lemma {:induction false} ObjectsAllocated<S>(path: seq<Entry<S>>)
    ensures forall o :: o in Objects(path) ==> allocated(o)
    decreases |path|
  {
    if path != [] { ObjectsAllocated(path[1..]); }
  }

  /** Closures of one process, none shared. */
  ghost predicate Wired<S>(session: Session<S>, path: seq<Entry<S>>)
    decreases |path|
  {
    && Objects(path) !! {session, session.provider, session.snapshots}
    && (path == [] || (path[0].Fits(session) && path[0].Owned() !! Objects(path[1..]) && Wired(session, path[1..])))
  }

  ghost predicate Mirrors<S>(path: seq<Entry<S>>, hooks: seq<Hook<S>>)
    reads Objects(path)
    decreases |path|
  {
    && |path| == |hooks|
    && (path == [] || (path[0].Value() == hooks[0] && Mirrors(path[1..], hooks[1..])))
  }

  lemma {:induction false} WiredConcat<S>(session: Session<S>, a: seq<Entry<S>>, b: seq<Entry<S>>)
    requires Wired(session, a) && Wired(session, b) && Objects(a) !! Objects(b)
    ensures Wired(session, a + b) && Objects(a + b) == Objects(a) + Objects(b)
    decreases |a|
  {
    if a == [] {
      assert a + b == b;
    } else {
      assert (a + b)[1..] == a[1..] + b;
      WiredConcat(session, a[1..], b);
    }
  }

  lemma {:induction false} MirrorsConcat<S>(a: seq<Entry<S>>, b: seq<Entry<S>>, ha: seq<Hook<S>>, hb: seq<Hook<S>>)
    requires Mirrors(a, ha) && Mirrors(b, hb)
    ensures Mirrors(a + b, ha + hb)
    decreases |a|
  {
    if a == [] {
      assert a + b == b && ha + hb == hb;
    } else {
      assert (a + b)[1..] == a[1..] + b && (ha + hb)[1..] == ha[1..] + hb;
      MirrorsConcat(a[1..], b, ha[1..], hb);
    }
  }

  lemma {:induction false} MirrorsSplit<S>(a: seq<Entry<S>>, b: seq<Entry<S>>, hooks: seq<Hook<S>>)
    requires Mirrors(a + b, hooks)
    ensures |a| <= |hooks| && Mirrors(a, hooks[..|a|]) && Mirrors(b, hooks[|a|..])
    decreases |a|
  {
    if a == [] {
      assert a + b == b && hooks[0..] == hooks;
    } else {
      assert (a + b)[1..] == a[1..] + b;
      MirrorsSplit(a[1..], b, hooks[1..]);
      assert hooks[1..][..|a| - 1] == hooks[..|a|][1..] && hooks[1..][|a| - 1..] == hooks[|a|..];
    }
  }

  /** One test with the closures around it. */
  method RunOne<S>(session: Session<S>, path: seq<Entry<S>>, t: Test<S>, ghost hooks: seq<Hook<S>>)
    requires Wired(session, path) && Mirrors(path, hooks)
    modifies session, session.provider, session.snapshots, Objects(path)
    ensures session.Value() == RunTest(old(session.Value()), hooks, t).0
    ensures Mirrors(path, RunTest(old(session.Value()), hooks, t).1)
    decreases |path|
  {
    if path == [] {
      var start := session.provider.chain.state;
      session.provider.chain := RunBody(session.provider.chain, t);
      session.starts := session.starts + [start];
    } else {
      var rest := path[1..];
      ghost var tail := hooks[1..];
      ObjectsAllocated(rest);
      match path[0]
      case Caching(hook) =>
        hook.BeforeEach(session);
        RunOne(session, rest, t, tail);
      case Guarding(_, guard) =>
        guard.BeforeEach();
        RunOne(session, rest, t, tail);
        guard.AfterEach();
      case Plain(decl) =>
        session.provider.chain := Mutate(session.provider.chain, decl.effect);
        RunOne(session, rest, t, tail);
    }
  }

  method RunOwnTests<S>(session: Session<S>, path: seq<Entry<S>>, tests: seq<Test<S>>, ghost hooks: seq<Hook<S>>)
    returns (ghost hooks1: seq<Hook<S>>)
    requires Wired(session, path) && Mirrors(path, hooks)
    modifies session, session.provider, session.snapshots, Objects(path)
    ensures (session.Value(), hooks1) == RunTests(old(session.Value()), hooks, tests)
    ensures Mirrors(path, hooks1)
  {
    hooks1 := hooks;
    ghost var done := RunTests(session.Value(), hooks, tests);
    assert tests[0..] == tests;
    for i := 0 to |tests|
      invariant RunTests(session.Value(), hooks1, tests[i..]) == done
      invariant Mirrors(path, hooks1)
    {
      assert tests[i..][0] == tests[i] && tests[i..][1..] == tests[i + 1..];
      ghost var w := session.Value();
      RunOne(session, path, tests[i], hooks1);
      hooks1 := RunTest(w, hooks1, tests[i]).1;
    }
  }

  method RunAfterAll<S>(session: Session<S>, path: seq<Entry<S>>, ghost hooks: seq<Hook<S>>)
    requires Wired(session, path) && Mirrors(path, hooks)
    modifies session, session.snapshots
    ensures session.Value() == AfterAll(old(session.Value()), hooks)
    decreases |path|
  {
    if path != [] {
      ObjectsAllocated(path[1..]);
      if path[0].Caching? { path[0].hook.After(session); }
      RunAfterAll(session, path[1..], hooks[1..]);
    }
  }

  /** Registers the hooks of a suite: every cached one and every guard gets a closure of its own. */
  method Register<S>(session: Session<S>, declared: seq<Declared<S>>) returns (own: seq<Entry<S>>)
    ensures Wired(session, own) && Mirrors(own, Registered(declared))
    ensures fresh(Objects(own))
    decreases |declared|
  {
    if declared == [] {
      own := [];
    } else {
      var entry := RegisterOne(session, declared[0]);
      var rest := Register(session, declared[1..]);
      own := [entry] + rest;
      assert own[1..] == rest && Registered(declared)[1..] == Registered(declared[1..]);
    }
  }

  method RegisterOne<S>(session: Session<S>, declared: Declared<S>) returns (entry: Entry<S>)
    ensures entry.Fits(session) && entry.Value() == Hook(declared, false)
    ensures fresh(entry.Owned())
  {
    match declared.kind
    case Cached =>
      var hook := new CacheHook(declared, session.provider);
      entry := Caching(hook);
    case Guard =>
      var guard := new SnapshotGuard(session.provider);
      entry := Guarding(declared, guard);
    case Ordinary =>
      entry := Plain(declared);
  }

  /** Runs a suite on the registered closures, exactly as the specification function does. */
  method RunDescribe<S>(session: Session<S>, enclosing: seq<Entry<S>>, suite: Suite<S>, ghost hooks: seq<Hook<S>>)
    returns (ghost hooks1: seq<Hook<S>>)
    requires Wired(session, enclosing) && Mirrors(enclosing, hooks)
    modifies session, session.provider, session.snapshots, Objects(enclosing)
    ensures (session.Value(), hooks1) == RunSuite(old(session.Value()), hooks, suite)
    ensures Mirrors(enclosing, hooks1)
    decreases suite, 1
  {
    ObjectsAllocated(enclosing);
    var own := Register(session, suite.hooks);
    var path := enclosing + own;
    WiredConcat(session, enclosing, own);
    MirrorsConcat(enclosing, own, hooks, Registered(suite.hooks));
    ghost var all := RunOwnTests(session, path, suite.tests, hooks + Registered(suite.hooks));
    all := RunNested(session, path, suite.children, all);
    MirrorsSplit(enclosing, own, all);
    RunAfterAll(session, own, all[|enclosing|..]);
    hooks1 := all[..|enclosing|];
  }

  method RunNested<S>(session: Session<S>, path: seq<Entry<S>>, children: seq<Suite<S>>, ghost hooks: seq<Hook<S>>)
    returns (ghost hooks1: seq<Hook<S>>)
    requires Wired(session, path) && Mirrors(path, hooks)
    modifies session, session.provider, session.snapshots, Objects(path)
    ensures (session.Value(), hooks1) == RunChildren(old(session.Value()), hooks, children)
    ensures Mirrors(path, hooks1)
    decreases children, 0
  {
    hooks1 := hooks;
    ghost var done := RunChildren(session.Value(), hooks, children);
    assert children[0..] == children;
    for i := 0 to |children|
      invariant RunChildren(session.Value(), hooks1, children[i..]) == done
      invariant Mirrors(path, hooks1)
    {
      assert children[i..][0] == children[i] && children[i..][1..] == children[i + 1..];
      hooks1 := RunDescribe(session, path, children[i], hooks1);
    }
  }

  /** A whole run in a new process. A pop or revert fails exactly when the tree misplaces a guard. Otherwise
      each initialiser that has a test runs once, every body starts where the reference starts it, SNAPSHOTS
      ends empty, and below a cached hook at the root every body starts from its enclosing hooks applied to
      the initial state. */
  method RunAll<S>(suite: Suite<S>, initial: S) returns (session: Session<S>)
    ensures session.faulted <==> Misplaced([], suite)
    ensures !session.faulted ==>
              && session.snapshots.ids == [] && session.executed == InitOrder(suite)
              && session.starts == ReferenceSuite([], initial, initial, suite).starts
              && (HasCached(suite.hooks) ==> session.starts == FreshStarts([], initial, suite))
  {
    var provider := new Provider(Chain(initial, map[], 1));
    session := new Session(provider);
    ghost var w := session.Value();
    CacheRefinesReinitialisation(w, suite);
    if HasCached(suite.hooks) && !Misplaced([], suite) { EveryTestStartsFresh(w, suite); }
    assert w.starts + ReferenceSuite([], initial, initial, suite).starts
        == ReferenceSuite([], initial, initial, suite).starts;
    assert w.executed + InitOrder(suite) == InitOrder(suite);
    ghost var _ := RunDescribe(session, [], suite, []);
  }
}
