/** What goes wrong where a guard lies outside a cached hook that two tests share: where the test that faults
    starts from, and that every such tree has hooks for which this is the wrong state. */
module MisplacedGuards {
  import opened ChainModel
  import opened SnapshotCache
  import opened SnapshotCacheProof

  // ---------------------------------------------------------------------------------------------
  // The test that faults
  // ---------------------------------------------------------------------------------------------

  /** Where a test starts that runs the hooks from state c with dead entries on the stack. The first
      initialised hook is refused its revert, saves the state it finds, and every later one goes back there. */
  function Adrift<S>(hooks: seq<Hook<S>>, c: S): S
    decreases |hooks|
  {
    if hooks == [] then c
    else if hooks[0].initialized then AdriftFrom(hooks[1..], c, c)
    else Adrift(hooks[1..], hooks[0].decl.Apply(c))
  }

  /** The same once the top of the stack denotes `top`. */
  function AdriftFrom<S>(hooks: seq<Hook<S>>, top: S, c: S): S
    decreases |hooks|
  {
    if hooks == [] then c
    else if hooks[0].initialized then AdriftFrom(hooks[1..], top, top)
    else
      var c1 := hooks[0].decl.Apply(c);
      AdriftFrom(hooks[1..], if hooks[0].decl.kind.Cached? then c1 else top, c1)
  }

  predicate DeadTop<S>(w: World<S>) {
    w.snapshots != [] && var top := w.snapshots[|w.snapshots| - 1]; top !in w.chain.saved && top < w.chain.next
  }

  ghost predicate LiveTop<S>(w: World<S>, s: S) {
    w.snapshots != [] && var top := w.snapshots[|w.snapshots| - 1]; top in w.chain.saved && w.chain.saved[top] == s
  }

  lemma {:induction false} AdriftFromStarts<S>(w: World<S>, hooks: seq<Hook<S>>, top: S, t: Test<S>)
    requires WellFormed(w.chain) && LiveTop(w, top)
    requires forall i :: 0 <= i < |hooks| && hooks[i].initialized ==> hooks[i].decl.kind.Cached?
    ensures RunTest(w, hooks, t).0.starts == w.starts + [AdriftFrom(hooks, top, w.chain.state)]
    decreases |hooks|
  {
    if hooks != [] {
      var h, v := hooks[0], BeforeEach(w, hooks[0]).0;
      var top1 := if h.decl.kind.Cached? && !h.initialized then v.chain.state else top;
      AdriftFromStarts(v, hooks[1..], top1, t);
    }
  }

  lemma {:induction false} AdriftStarts<S>(w: World<S>, hooks: seq<Hook<S>>, t: Test<S>)
    requires WellFormed(w.chain) && DeadTop(w) && Ordered(hooks) && AnyInitialized(hooks)
    ensures RunTest(w, hooks, t).0.starts == w.starts + [Adrift(hooks, w.chain.state)]
    decreases |hooks|
  {
    var h, rest, v := hooks[0], hooks[1..], BeforeEach(w, hooks[0]).0;
    if h.initialized {
      OrderedKinds(rest);
      AdriftFromStarts(v, rest, w.chain.state, t);
    } else {
      AdriftStarts(v, rest, t);
    }
  }

  lemma {:induction false} OrderedKinds<S>(hooks: seq<Hook<S>>)
    requires Ordered(hooks)
    ensures forall i :: 0 <= i < |hooks| && hooks[i].initialized ==> hooks[i].decl.kind.Cached?
    decreases |hooks|
  {
    if hooks != [] {
      OrderedKinds(hooks[1..]);
      assert forall i :: 0 < i < |hooks| ==> hooks[i] == hooks[1..][i - 1];
    }
  }

  /** The exact start of a test that faults, from any reachable state and for every body: adrift from where
      the outermost guard put the chain back. The reference starts it from Compose instead. */
  lemma FaultyTestStarts<S>(w: World<S>, hooks: seq<Hook<S>>, s: S, below: seq<S>, t: Test<S>)
    requires Holds(w, hooks, s, below) && Doomed(hooks)
    ensures var w1 := RunTest(w, hooks, t).0;
            w1.faulted && w1.starts == w.starts + [Adrift(hooks, Prepared(Decls(hooks), s))]
  {
    OrderedFacts(hooks);
    CleanSaved(hooks, s);
    DeadTopFaults(w, hooks, t);
    AdriftStarts(w, hooks, t);
  }

  /** Two tests under a guard and a cached hook inside it: the second starts without the hook's effect. */
  lemma GuardOutsideCacheLeavesUninitialised<S>(w: World<S>, guard: Declared<S>, cached: Declared<S>,
                                                t1: Test<S>, t2: Test<S>)
    requires Disciplined(w) && guard.kind.Guard? && cached.kind.Cached?
    ensures var w1 := RunSuite(w, [], Suite([guard, cached], [t1, t2], [])).0;
            w1.faulted && w1.starts == w.starts + [cached.effect(w.chain.state), w.chain.state]
  {
    var s, below, own := w.chain.state, Denotes(w), [guard, cached];
    var hooks := Registered(own);
    RegisteredHold(w, own);
    GuardThenCached(guard, cached, s);
    RunTestRan(w, hooks, s, below, t1);
    var (w1, hooks1) := RunTest(w, hooks, t1);
    WarmFacts(hooks);
    FaultyTestStarts(w1, hooks1, s, below, t2);
    OnlyTwoTests(w, own, t1, t2);
    assert w.starts + [cached.effect(s)] + [s] == w.starts + [cached.effect(s), s];
  }

  lemma GuardThenCached<S>(guard: Declared<S>, cached: Declared<S>, s: S)
    requires guard.kind.Guard? && cached.kind.Cached?
    ensures var own := [guard, cached];
            && Broken(own) && Compose(own, s) == cached.effect(s) && Prepared(own, s) == s
            && Adrift(Warm(Registered(own)), s) == s
  {
    var own, hooks := [guard, cached], Registered([guard, cached]);
    assert own[1..] == [cached] && [cached][1..] == [];
    assert Compose(own[1..], s) == cached.effect(s);
    assert hooks == [Hook(guard, false), Hook(cached, false)];
    assert hooks[1..] == [Hook(cached, false)] && hooks[1..][1..] == [];
    assert Warm(hooks)[1..] == Warm(hooks[1..]) == [Hook(cached, true)];
    assert Adrift(Warm(hooks)[1..], s) == AdriftFrom([], s, s);
  }

  lemma RegisteredHold<S>(w: World<S>, own: seq<Declared<S>>)
    requires Disciplined(w)
    ensures var hooks := Registered(own);
            Holds(w, hooks, w.chain.state, Denotes(w)) && !AnyInitialized(hooks) && Decls(hooks) == own
  {
    var none: seq<Hook<S>> := [];
    NoHooksHold(w, none);
    EnterSuite(w, none, own, w.chain.state, Denotes(w));
    JustRegistered(own);
    assert none + Registered(own) == Registered(own);
  }

  lemma OnlyTwoTests<S>(w: World<S>, own: seq<Declared<S>>, t1: Test<S>, t2: Test<S>)
    ensures var (w1, hooks1) := RunTest(w, Registered(own), t1);
            var w2 := RunTest(w1, hooks1, t2).0;
            var w3 := RunSuite(w, [], Suite(own, [t1, t2], [])).0;
            w3.starts == w2.starts && (w2.faulted ==> w3.faulted)
  {
    var (w1, hooks1) := RunTest(w, Registered(own), t1);
    var (w2, hooks2) := RunTest(w1, hooks1, t2);
    assert [] + Registered(own) == Registered(own);
    assert [t1, t2][1..] == [t2] && [t2][1..] == [];
    assert RunTests(w1, hooks1, [t2]) == (w2, hooks2);
    AfterAllKeepsRecord(w2, hooks2[0..]);
  }

  // ---------------------------------------------------------------------------------------------
  // Hooks that count: each cached hook adds one, the others change nothing
  // ---------------------------------------------------------------------------------------------

  ghost predicate Counts(d: Declared<int>) {
    forall x :: d.Apply(x) == if d.kind.Cached? then x + 1 else x
  }

  ghost predicate Counting(hooks: seq<Declared<int>>)
    decreases |hooks|
  {
    hooks == [] || (Counts(hooks[0]) && Counting(hooks[1..]))
  }

  /** Cached hooks among all of them, and among those still to be initialised. */
  function CachedIn<S>(hooks: seq<Declared<S>>): nat
    decreases |hooks|
  {
    if hooks == [] then 0 else (if hooks[0].kind.Cached? then 1 else 0) + CachedIn(hooks[1..])
  }

  lemma {:induction false} CountingComposes(hooks: seq<Declared<int>>, s: int)
    requires Counting(hooks)
    ensures Compose(hooks, s) == s + CachedIn(hooks)
    decreases |hooks|
  {
    if hooks != [] { CountingComposes(hooks[1..], hooks[0].Apply(s)); }
  }

  /** Adrift, a hook counts only if it is initialised now. */
  lemma {:induction false} CountingAdriftFrom(hooks: seq<Hook<int>>, c: int)
    requires Counting(Decls(hooks)) && Ordered(hooks)
    ensures AdriftFrom(hooks, c, c) == c + |Pending(hooks)|
    decreases |hooks|
  {
    if hooks != [] {
      var h := hooks[0];
      assert Decls(hooks)[0] == h.decl && Decls(hooks)[1..] == Decls(hooks[1..]);
      CountingAdriftFrom(hooks[1..], if h.initialized then c else h.decl.Apply(c));
    }
  }

  lemma {:induction false} PendingIsFewer<S>(hooks: seq<Hook<S>>)
    requires Ordered(hooks)
    ensures |Pending(hooks)| <= CachedIn(Decls(hooks))
    ensures AnyInitialized(hooks) ==> |Pending(hooks)| < CachedIn(Decls(hooks))
    decreases |hooks|
  {
    if hooks != [] { PendingIsFewer(hooks[1..]); }
  }

  lemma {:induction false} CountingAdrift(hooks: seq<Hook<int>>, c: int)
    requires Counting(Decls(hooks)) && Ordered(hooks) && AnyInitialized(hooks)
    ensures Adrift(hooks, c) == c + |Pending(hooks)|
    decreases |hooks|
  {
    var h := hooks[0];
    assert Decls(hooks)[0] == h.decl && Decls(hooks)[1..] == Decls(hooks[1..]);
    if h.initialized { CountingAdriftFrom(hooks[1..], c); } else { CountingAdrift(hooks[1..], c); }
  }

  /** What is outside the outermost guard and what is still pending fall short of the whole. */
  lemma {:induction false} CountingFallsShort(hooks: seq<Hook<int>>, s: int)
    requires Counting(Decls(hooks)) && Ordered(hooks) && Doomed(hooks)
    ensures Prepared(Decls(hooks), s) + |Pending(hooks)| < s + CachedIn(Decls(hooks))
    decreases |hooks|
  {
    var h, rest := hooks[0], hooks[1..];
    assert Decls(hooks)[0] == h.decl && Decls(hooks)[1..] == Decls(rest);
    if h.decl.kind.Guard? {
      PendingIsFewer(rest);
    } else {
      OrderedFacts(rest);
      CountingFallsShort(rest, h.decl.Apply(s));
    }
  }

  lemma CountingTestStrays(w: World<int>, hooks: seq<Hook<int>>, s: int, below: seq<int>, t: Test<int>)
    requires Holds(w, hooks, s, below) && Counting(Decls(hooks)) && Doomed(hooks)
    ensures exists x :: RunTest(w, hooks, t).0.starts == w.starts + [x] && x < Compose(Decls(hooks), s)
  {
    OrderedFacts(hooks);
    FaultyTestStarts(w, hooks, s, below, t);
    CountingAdrift(hooks, Prepared(Decls(hooks), s));
    CountingFallsShort(hooks, s);
    CountingComposes(Decls(hooks), s);
  }

  // ---------------------------------------------------------------------------------------------
  // Whole runs: once a body has started from the wrong state the record says so for good
  // ---------------------------------------------------------------------------------------------

  lemma {:induction false} RunTestGrows<S>(w: World<S>, hooks: seq<Hook<S>>, t: Test<S>)
    ensures w.starts <= RunTest(w, hooks, t).0.starts
    decreases |hooks|
  {
    if hooks != [] { RunTestGrows(BeforeEach(w, hooks[0]).0, hooks[1..], t); }
  }

  lemma {:induction false} RunTestsGrow<S>(w: World<S>, hooks: seq<Hook<S>>, tests: seq<Test<S>>)
    ensures w.starts <= RunTests(w, hooks, tests).0.starts
    decreases |tests|
  {
    if tests != [] {
      RunTestGrows(w, hooks, tests[0]);
      var (w1, hooks1) := RunTest(w, hooks, tests[0]);
      RunTestsGrow(w1, hooks1, tests[1..]);
    }
  }

  lemma {:induction false} RunSuiteGrows<S>(w: World<S>, enclosing: seq<Hook<S>>, suite: Suite<S>)
    ensures w.starts <= RunSuite(w, enclosing, suite).0.starts
    decreases suite, 1
  {
    var hooks := enclosing + Registered(suite.hooks);
    RunTestsGrow(w, hooks, suite.tests);
    var (w1, hooks1) := RunTests(w, hooks, suite.tests);
    RunChildrenGrow(w1, hooks1, suite.children);
    var (w2, hooks2) := RunChildren(w1, hooks1, suite.children);
    AfterAllKeepsRecord(w2, hooks2[|enclosing|..]);
  }

  lemma {:induction false} RunChildrenGrow<S>(w: World<S>, hooks: seq<Hook<S>>, children: seq<Suite<S>>)
    ensures w.starts <= RunChildren(w, hooks, children).0.starts
    decreases children, 0
  {
    if children != [] {
      RunSuiteGrows(w, hooks, children[0]);
      var (w1, hooks1) := RunSuite(w, hooks, children[0]);
      RunChildrenGrow(w1, hooks1, children[1..]);
    }
  }

  /** From the n-th start on the record differs somewhere from what was expected. */
  ghost predicate Strays<S>(n: nat, starts: seq<S>, expected: seq<S>) {
    exists k :: 0 <= k < |expected| && n + k < |starts| && starts[n + k] != expected[k]
  }

  lemma StraysForGood<S>(n: nat, starts: seq<S>, longer: seq<S>, expected: seq<S>, more: seq<S>)
    requires Strays(n, starts, expected) && starts <= longer
    ensures Strays(n, longer, expected + more)
  {
    var k :| 0 <= k < |expected| && n + k < |starts| && starts[n + k] != expected[k];
    assert longer[n + k] != (expected + more)[k];
  }

  lemma StraysLater<S>(before: seq<S>, starts: seq<S>, e1: seq<S>, e2: seq<S>)
    requires Strays(|before + e1|, starts, e2)
    ensures Strays(|before|, starts, e1 + e2)
  {
    var k :| 0 <= k < |e2| && |before + e1| + k < |starts| && starts[|before + e1| + k] != e2[k];
    assert (e1 + e2)[|e1| + k] == e2[k];
  }

  lemma StraysDiffers<S>(before: seq<S>, starts: seq<S>, expected: seq<S>)
    requires Strays(|before|, starts, expected)
    ensures starts != before + expected
  {
    var k :| 0 <= k < |expected| && |before| + k < |starts| && starts[|before| + k] != expected[k];
    assert (before + expected)[|before| + k] == expected[k];
  }

  lemma CountingFirstStrays(w: World<int>, hooks: seq<Hook<int>>, s: int, below: seq<int>, t: Test<int>)
    requires Holds(w, hooks, s, below) && Counting(Decls(hooks)) && RunTest(w, hooks, t).0.faulted
    ensures Strays(|w.starts|, RunTest(w, hooks, t).0.starts, [Compose(Decls(hooks), s)])
  {
    RunTestRan(w, hooks, s, below, t);
    CountingTestStrays(w, hooks, s, below, t);
    var x :| RunTest(w, hooks, t).0.starts == w.starts + [x] && x < Compose(Decls(hooks), s);
    assert (w.starts + [x])[|w.starts| + 0] != [Compose(Decls(hooks), s)][0];
  }

  lemma {:induction false} CountingTestsStray(w: World<int>, hooks: seq<Hook<int>>, s: int, below: seq<int>,
                                              tests: seq<Test<int>>)
    requires Holds(w, hooks, s, below) && Counting(Decls(hooks)) && RunTests(w, hooks, tests).0.faulted
    ensures tests != []
    ensures Strays(|w.starts|, RunTests(w, hooks, tests).0.starts,
                   ReferenceTests(Decls(hooks), s, w.chain.state, tests).starts)
    decreases |tests|
  {
    RunTestsRan(w, hooks, s, below, tests);
    OrderedFacts(hooks);
    var (w1, hooks1) := RunTest(w, hooks, tests[0]);
    var left := Left(Decls(hooks), s, tests[0]);
    var first := [Compose(Decls(hooks), s)];
    var rest := ReferenceTests(Decls(hooks), s, left, tests[1..]).starts;
    RunTestRan(w, hooks, s, below, tests[0]);
    if w1.faulted {
      CountingFirstStrays(w, hooks, s, below, tests[0]);
      RunTestsGrow(w1, hooks1, tests[1..]);
      StraysForGood(|w.starts|, w1.starts, RunTests(w1, hooks1, tests[1..]).0.starts, first, rest);
    } else {
      WarmFacts(hooks);
      var s1 := Anchor(hooks, s, w1.chain.state);
      CountingTestsStray(w1, hooks1, s1, below, tests[1..]);
      if !HasCached(Decls(hooks)) { TestsIgnoreAnchor(Decls(hooks), s, s1, left, tests[1..]); }
      StraysLater(w.starts, RunTests(w1, hooks1, tests[1..]).0.starts, first, rest);
    }
  }

  ghost predicate CountingSuite(suite: Suite<int>)
    decreases suite, 1
  {
    Counting(suite.hooks) && CountingChildren(suite.children)
  }

  ghost predicate CountingChildren(children: seq<Suite<int>>)
    decreases children, 0
  {
    children == [] || (CountingSuite(children[0]) && CountingChildren(children[1..]))
  }

  lemma {:induction false} CountingConcat(a: seq<Declared<int>>, b: seq<Declared<int>>)
    requires Counting(a) && Counting(b)
    ensures Counting(a + b)
    decreases |a|
  {
    if a == [] {
      assert a + b == b;
    } else {
      assert (a + b)[1..] == a[1..] + b;
      CountingConcat(a[1..], b);
    }
  }

  lemma {:induction false} CountingSuiteStrays(w: World<int>, enclosing: seq<Hook<int>>, s: int, below: seq<int>,
                                               suite: Suite<int>)
    requires Holds(w, enclosing, s, below) && Counting(Decls(enclosing)) && CountingSuite(suite)
    requires RunSuite(w, enclosing, suite).0.faulted
    ensures Strays(|w.starts|, RunSuite(w, enclosing, suite).0.starts,
                   ReferenceSuite(Decls(enclosing), s, w.chain.state, suite).starts)
    decreases suite, 1
  {
    var hooks := enclosing + Registered(suite.hooks);
    EnterSuite(w, enclosing, suite.hooks, s, below);
    OrderedFacts(enclosing);
    CountingConcat(Decls(enclosing), suite.hooks);
    var (w1, hooks1) := RunTests(w, hooks, suite.tests);
    var (w2, hooks2) := RunChildren(w1, hooks1, suite.children);
    AfterAllKeepsRecord(w2, hooks2[|enclosing|..]);
    if !w2.faulted {
      RunInsideAgrees(w, hooks, s, below, suite.tests, suite.children);
      ExitAgrees(w, enclosing, w2, hooks2, s, below, suite, ReferenceSuite(Decls(enclosing), s, w.chain.state, suite));
    }
    CountingInsideStrays(w, hooks, s, below, suite.tests, suite.children);
  }

  lemma {:induction false} CountingInsideStrays(w: World<int>, hooks: seq<Hook<int>>, s: int, below: seq<int>,
                                                tests: seq<Test<int>>, children: seq<Suite<int>>)
    requires Holds(w, hooks, s, below) && Counting(Decls(hooks)) && CountingChildren(children)
    requires var (w1, hooks1) := RunTests(w, hooks, tests); RunChildren(w1, hooks1, children).0.faulted
    ensures var (w1, hooks1) := RunTests(w, hooks, tests);
            var r1 := ReferenceTests(Decls(hooks), s, w.chain.state, tests);
            var r2 := ReferenceChildren(Decls(hooks), s, r1.final, children);
            Strays(|w.starts|, RunChildren(w1, hooks1, children).0.starts, r1.starts + r2.starts)
    decreases children, 1
  {
    var (w1, hooks1) := RunTests(w, hooks, tests);
    var r1 := ReferenceTests(Decls(hooks), s, w.chain.state, tests);
    RunTestsRan(w, hooks, s, below, tests);
    if w1.faulted {
      CountingTestsStray(w, hooks, s, below, tests);
    } else {
      WarmFacts(hooks);
      CountingChildrenStray(w1, hooks1, Anchor(hooks, s, w1.chain.state), below, children);
    }
    StraysThenChildren(w, hooks, w1, hooks1, s, r1, children);
  }

  /** Children continue a stretch that has strayed, or stray themselves. */
  lemma StraysThenChildren(w: World<int>, hooks: seq<Hook<int>>, w1: World<int>, hooks1: seq<Hook<int>>, s: int,
                           r1: Outcome<int>, children: seq<Suite<int>>)
    requires w1.faulted ==> Strays(|w.starts|, w1.starts, r1.starts)
    requires !w1.faulted ==>
               && w1.starts == w.starts + r1.starts && w1.chain.state == r1.final && Decls(hooks1) == Decls(hooks)
               && Strays(|w1.starts|, RunChildren(w1, hooks1, children).0.starts,
                         ReferenceChildren(Decls(hooks1), Anchor(hooks, s, w1.chain.state), w1.chain.state,
                                           children).starts)
    ensures Strays(|w.starts|, RunChildren(w1, hooks1, children).0.starts,
                   r1.starts + ReferenceChildren(Decls(hooks), s, r1.final, children).starts)
  {
    var rest := ReferenceChildren(Decls(hooks), s, r1.final, children).starts;
    var starts := RunChildren(w1, hooks1, children).0.starts;
    if w1.faulted {
      RunChildrenGrow(w1, hooks1, children);
      StraysForGood(|w.starts|, w1.starts, starts, r1.starts, rest);
    } else {
      AnchorIgnored(hooks, s, w1.chain.state, children);
      StraysLater(w.starts, starts, r1.starts, rest);
    }
  }

  lemma {:induction false} CountingChildrenStray(w: World<int>, hooks: seq<Hook<int>>, s: int, below: seq<int>,
                                                 children: seq<Suite<int>>)
    requires Holds(w, hooks, s, below) && Counting(Decls(hooks)) && CountingChildren(children)
    requires RunChildren(w, hooks, children).0.faulted
    ensures Strays(|w.starts|, RunChildren(w, hooks, children).0.starts,
                   ReferenceChildren(Decls(hooks), s, w.chain.state, children).starts)
    decreases children, 0
  {
    RunChildrenAgree(w, hooks, s, below, children);
    OrderedFacts(hooks);
    var (w1, hooks1) := RunSuite(w, hooks, children[0]);
    RunSuiteAgrees(w, hooks, s, below, children[0]);
    if w1.faulted {
      CountingSuiteStrays(w, hooks, s, below, children[0]);
    } else {
      WarmFacts(hooks);
      CountingChildrenStray(w1, hooks1, Anchor(hooks, s, w1.chain.state), below, children[1..]);
    }
    StraysThenChildren(w, hooks, w1, hooks1, s, ReferenceSuite(Decls(hooks), s, w.chain.state, children[0]),
                       children[1..]);
  }

  // ---------------------------------------------------------------------------------------------
  // The results
  // ---------------------------------------------------------------------------------------------

  /** With hooks that count, whatever the bodies do, every body starts where the reference starts it exactly
      when no guard is misplaced. */
  lemma CountingTreeAgreesExactly(w: World<int>, suite: Suite<int>)
    requires Disciplined(w) && CountingSuite(suite)
    ensures RunSuite(w, [], suite).0.starts == w.starts + ReferenceSuite([], w.chain.state, w.chain.state, suite).starts
            <==> !Misplaced([], suite)
  {
    CacheRefinesReinitialisation(w, suite);
    var w1 := RunSuite(w, [], suite).0;
    if w1.faulted {
      NoHooksHold(w, []);
      CountingSuiteStrays(w, [], w.chain.state, Denotes(w), suite);
      StraysDiffers(w.starts, w1.starts, ReferenceSuite([], w.chain.state, w.chain.state, suite).starts);
    }
  }

  /** Two trees with the same kinds of hooks, the same number of tests and the same nesting. */
  predicate SameKinds<S, T>(a: seq<Declared<S>>, b: seq<Declared<T>>) {
    |a| == |b| && forall i :: 0 <= i < |a| ==> a[i].kind == b[i].kind
  }

  predicate SameShape<S, T>(a: Suite<S>, b: Suite<T>)
    decreases a, 1
  {
    SameKinds(a.hooks, b.hooks) && |a.tests| == |b.tests| && SameShapes(a.children, b.children)
  }

  predicate SameShapes<S, T>(a: seq<Suite<S>>, b: seq<Suite<T>>)
    decreases a, 0
  {
    |a| == |b| && (a == [] || (SameShape(a[0], b[0]) && SameShapes(a[1..], b[1..])))
  }

  lemma {:induction false} SameKindsBreak<S, T>(a: seq<Declared<S>>, b: seq<Declared<T>>)
    requires SameKinds(a, b)
    ensures HasCached(a) == HasCached(b) && Broken(a) == Broken(b)
    decreases |a|
  {
    if a != [] { SameKindsBreak(a[1..], b[1..]); }
  }

  lemma {:induction false} SameShapeCounts<S, T>(a: Suite<S>, b: Suite<T>)
    requires SameShape(a, b)
    ensures CountTests(a) == CountTests(b)
    decreases a, 1
  {
    SameShapesCount(a.children, b.children);
  }

  lemma {:induction false} SameShapesCount<S, T>(a: seq<Suite<S>>, b: seq<Suite<T>>)
    requires SameShapes(a, b)
    ensures CountAll(a) == CountAll(b)
    decreases a, 0
  {
    if a != [] {
      SameShapeCounts(a[0], b[0]);
      SameShapesCount(a[1..], b[1..]);
    }
  }

  lemma {:induction false} SameShapeMisplaces<S, T>(outerA: seq<Declared<S>>, a: Suite<S>,
                                                    outerB: seq<Declared<T>>, b: Suite<T>)
    requires SameKinds(outerA, outerB) && SameShape(a, b)
    ensures Misplaced(outerA, a) == Misplaced(outerB, b)
    decreases a, 1
  {
    SameKindsBreak(outerA + a.hooks, outerB + b.hooks);
    SameShapeCounts(a, b);
    SameShapesMisplace(outerA + a.hooks, a.children, outerB + b.hooks, b.children);
  }

  lemma {:induction false} SameShapesMisplace<S, T>(hooksA: seq<Declared<S>>, a: seq<Suite<S>>,
                                                    hooksB: seq<Declared<T>>, b: seq<Suite<T>>)
    requires SameKinds(hooksA, hooksB) && SameShapes(a, b)
    ensures AnyMisplaced(hooksA, a) == AnyMisplaced(hooksB, b)
    decreases a, 0
  {
    if a != [] {
      SameShapeMisplaces(hooksA, a[0], hooksB, b[0]);
      SameShapesMisplace(hooksA, a[1..], hooksB, b[1..]);
    }
  }

  /** The tree with its hooks replaced by hooks that count, and its bodies by bodies that do nothing. */
  function Counted<S>(suite: Suite<S>): Suite<int>
    decreases suite, 1
  {
    var idle := Test((x: int) => x, (x: int) => []);
    Suite(CountedHooks(suite.hooks), seq(|suite.tests|, i => idle), CountedAll(suite.children))
  }

  function CountedAll<S>(children: seq<Suite<S>>): seq<Suite<int>>
    decreases children, 0
  {
    if children == [] then [] else [Counted(children[0])] + CountedAll(children[1..])
  }

  function CountedHooks<S>(hooks: seq<Declared<S>>): seq<Declared<int>>
    decreases |hooks|
  {
    if hooks == [] then []
    else
      var cached := hooks[0].kind.Cached?;
      [Declared(hooks[0].name, hooks[0].kind, (x: int) => if cached then x + 1 else x)] + CountedHooks(hooks[1..])
  }

  lemma {:induction false} CountedHooksCount<S>(hooks: seq<Declared<S>>)
    ensures Counting(CountedHooks(hooks)) && SameKinds(hooks, CountedHooks(hooks))
    decreases |hooks|
  {
    if hooks != [] {
      CountedHooksCount(hooks[1..]);
      assert CountedHooks(hooks)[1..] == CountedHooks(hooks[1..]);
    }
  }

  lemma {:induction false} CountedCounts<S>(suite: Suite<S>)
    ensures CountingSuite(Counted(suite)) && SameShape(suite, Counted(suite))
    decreases suite, 1
  {
    CountedHooksCount(suite.hooks);
    CountedAllCount(suite.children);
  }

  lemma {:induction false} CountedAllCount<S>(children: seq<Suite<S>>)
    ensures CountingChildren(CountedAll(children)) && SameShapes(children, CountedAll(children))
    decreases children, 0
  {
    if children != [] {
      CountedCounts(children[0]);
      CountedAllCount(children[1..]);
      assert CountedAll(children)[1..] == CountedAll(children[1..]);
    }
  }

  /** From every start, every tree of this shape starts its bodies where the reference does. */
  ghost predicate SafeShape<S>(suite: Suite<S>) {
    forall tree: Suite<int>, w: World<int> :: SameShape(suite, tree) && Disciplined(w) ==>
      RunSuite(w, [], tree).0.starts
        == w.starts + ReferenceSuite([], w.chain.state, w.chain.state, tree).starts
  }

  /** Whether a tree can rely on the cache is a matter of its shape alone: a shape is safe for all effects and
      all bodies exactly when it misplaces no guard. */
  lemma SafeExactlyWhenNotMisplaced<S>(suite: Suite<S>)
    ensures SafeShape(suite) <==> !Misplaced([], suite)
  {
    var none: seq<Declared<S>> := [];
    CountedCounts(suite);
    SameShapeMisplaces(none, suite, [], Counted(suite));
    CountingTreeAgreesExactly(World(Chain(0, map[], 1), [], [], [], false), Counted(suite));
    if !Misplaced([], suite) {
      forall tree: Suite<int>, w: World<int> | SameShape(suite, tree) && Disciplined(w)
        ensures RunSuite(w, [], tree).0.starts
             == w.starts + ReferenceSuite([], w.chain.state, w.chain.state, tree).starts
      {
        SameShapeMisplaces(none, suite, [], tree);
        CacheRefinesReinitialisation(w, tree);
      }
    }
  }
}
