/** The cache agrees with re-initialisation, on every tree of suites in which it can. */
module SnapshotCacheProof {
  import opened ChainModel
  import opened SnapshotCache

  // ---------------------------------------------------------------------------------------------
  // First layer: identifiers are forgotten, the stack is a stack of chain states
  // ---------------------------------------------------------------------------------------------

  /** Every identifier on the stack is live, they strictly increase, and nothing has gone wrong yet. */
  ghost predicate Disciplined<S>(w: World<S>) {
    && !w.faulted
    && WellFormed(w.chain)
    && (forall i :: 0 <= i < |w.snapshots| ==> w.snapshots[i] in w.chain.saved)
    && (forall i, j :: 0 <= i < j < |w.snapshots| ==> w.snapshots[i] < w.snapshots[j])
  }

  /** The states the stack denotes. */
  ghost function Denotes<S>(w: World<S>): (r: seq<S>)
    requires Disciplined(w)
    ensures |r| == |w.snapshots|
  {
    seq(|w.snapshots|, i requires 0 <= i < |w.snapshots| => w.chain.saved[w.snapshots[i]])
  }

  lemma PushDenotes<S>(w: World<S>)
    requires Disciplined(w)
    ensures Disciplined(Push(w)) && Denotes(Push(w)) == Denotes(w) + [w.chain.state]
  {
  }

  lemma DropDenotes<S>(w: World<S>, n: nat)
    requires Disciplined(w) && n <= |w.snapshots|
    ensures var d := w.(snapshots := w.snapshots[..n]);
            Disciplined(d) && Denotes(d) == Denotes(w)[..n]
  {
  }

  /** Restoring puts the chain into the state on top of the stack and leaves the stack's meaning and
      everything below its top unchanged; the identifier it reverts to is live. */
  lemma RestoreDenotes<S>(w: World<S>)
    requires Disciplined(w) && w.snapshots != []
    ensures var r := Restore(w);
            && Disciplined(r) && Denotes(r) == Denotes(w)
            && r.chain.state == Denotes(w)[|w.snapshots| - 1]
            && r.snapshots[..|w.snapshots| - 1] == w.snapshots[..|w.snapshots| - 1]
            && r.starts == w.starts && r.executed == w.executed
  {
    var last := |w.snapshots| - 1;
    var id := w.snapshots[last];
    var popped := w.(chain := RevertTo(w.chain, id), snapshots := w.snapshots[..last]);
    assert Disciplined(popped) && Denotes(popped) == Denotes(w)[..last];
    PushDenotes(popped);
    assert Denotes(w)[..last] + [Denotes(w)[last]] == Denotes(w);
  }

  lemma MutateDenotes<S>(w: World<S>, f: S -> S)
    requires Disciplined(w)
    ensures var v := w.(chain := Mutate(w.chain, f));
            Disciplined(v) && Denotes(v) == Denotes(w)
  {
  }

  /** A guard's snapshot is none of the stack's. */
  lemma GuardDenotes<S>(w: World<S>)
    requires Disciplined(w)
    ensures var v := w.(chain := TakeSnapshot(w.chain));
            Disciplined(v) && Denotes(v) == Denotes(w)
  {
  }

  lemma InitializeDenotes<S>(w: World<S>, d: Declared<S>)
    requires Disciplined(w)
    ensures var i := Initialize(w, d);
            && Disciplined(i) && Denotes(i) == Denotes(w) + [d.effect(w.chain.state)]
            && i.chain.state == d.effect(w.chain.state)
            && i.snapshots == w.snapshots + [w.chain.next]
            && Preserves(w.chain, i.chain) && i.chain.next == w.chain.next + 1
  {
    var moved := w.(chain := Mutate(w.chain, d.effect), executed := w.executed + [d.name]);
    assert Denotes(moved) == Denotes(w);
    PushDenotes(moved);
  }

  // ---------------------------------------------------------------------------------------------
  // Second layer: what the stack denotes, read off the flags of the enclosing hooks
  // ---------------------------------------------------------------------------------------------

  function Decls<S>(hooks: seq<Hook<S>>): seq<Declared<S>>
    decreases |hooks|
  {
    if hooks == [] then [] else [hooks[0].decl] + Decls(hooks[1..])
  }

  predicate AnyInitialized<S>(hooks: seq<Hook<S>>)
    decreases |hooks|
  {
    hooks != [] && (hooks[0].initialized || AnyInitialized(hooks[1..]))
  }

  /** Only cached hooks are ever initialised, and an outer one before any inner one. */
  predicate Ordered<S>(hooks: seq<Hook<S>>)
    decreases |hooks|
  {
    hooks == [] || (
      && (hooks[0].initialized ==> hooks[0].decl.kind.Cached?)
      && (hooks[0].decl.kind.Cached? && !hooks[0].initialized ==> !AnyInitialized(hooks[1..]))
      && Ordered(hooks[1..]))
  }

  /** The hooks outside the outermost guard. */
  function Clean<S>(hooks: seq<Hook<S>>): seq<Hook<S>>
    decreases |hooks|
  {
    if hooks == [] || hooks[0].decl.kind.Guard? then [] else [hooks[0]] + Clean(hooks[1..])
  }

  /** A cached hook inside a guard has been initialised: its snapshot went with the guard's revert. */
  predicate Doomed<S>(hooks: seq<Hook<S>>)
    decreases |hooks|
  {
    hooks != [] && if hooks[0].decl.kind.Guard? then AnyInitialized(hooks[1..]) else Doomed(hooks[1..])
  }

  /** The states saved for the initialised hooks, from anchor state s: all effects up to each of them. */
  function Saved<S>(hooks: seq<Hook<S>>, s: S): seq<S>
    decreases |hooks|
  {
    if hooks == [] then [] else SavedOne(hooks[0], s) + Saved(hooks[1..], hooks[0].decl.Apply(s))
  }

  function SavedOne<S>(h: Hook<S>, s: S): seq<S> {
    if h.initialized then [h.decl.Apply(s)] else []
  }

  function WarmOne<S>(h: Hook<S>): Hook<S> {
    Hook(h.decl, h.decl.kind.Cached?)
  }

  function Warm<S>(hooks: seq<Hook<S>>): seq<Hook<S>>
    decreases |hooks|
  {
    if hooks == [] then [] else [WarmOne(hooks[0])] + Warm(hooks[1..])
  }

  /** The initialisers a round of hooks still has to run. */
  function Pending<S>(hooks: seq<Hook<S>>): seq<nat>
    decreases |hooks|
  {
    if hooks == [] then [] else PendingOne(hooks[0]) + Pending(hooks[1..])
  }

  function PendingOne<S>(h: Hook<S>): seq<nat> {
    if h.decl.kind.Cached? && !h.initialized then [h.decl.name] else []
  }

  /** The world with only the first n entries of the stack. */
  function Lower<S>(w: World<S>, n: nat): World<S>
    requires n <= |w.snapshots|
  {
    w.(snapshots := w.snapshots[..n])
  }

  /** The bottom of the stack denotes `live`; the rest of its `total` entries are dead. */
  ghost predicate Layered<S>(w: World<S>, live: seq<S>, total: nat) {
    && |live| <= |w.snapshots| == total
    && Disciplined(Lower(w, |live|)) && Denotes(Lower(w, |live|)) == live
    && forall i :: |live| <= i < total ==> w.snapshots[i] !in w.chain.saved && w.snapshots[i] < w.chain.next
  }

  lemma LowerLayered<S>(w: World<S>, kept: seq<S>, dropped: seq<S>, total: nat, m: nat)
    requires Layered(w, kept + dropped, total) && m <= total
    requires |kept| == m || (|kept| < m && dropped == [])
    ensures Layered(Lower(w, m), kept, m)
  {
    var n := |kept + dropped|;
    if |kept| == m {
      DropDenotes(Lower(w, n), m);
      assert Lower(Lower(w, n), m) == Lower(w, m) == Lower(Lower(w, m), m);
    } else {
      assert Lower(Lower(w, m), n) == Lower(w, n);
    }
  }

  /** Above `below` the stack denotes, from anchor s, what the flags say of the hooks outside the outermost
      guard. Entries of initialised hooks inside it follow, and are dead. */
  ghost predicate Stacked<S>(w: World<S>, hooks: seq<Hook<S>>, s: S, below: seq<S>) {
    Layered(w, below + Saved(Clean(hooks), s), |below| + |Saved(hooks, s)|)
  }

  /** Until the first hook is initialised the chain is still at the anchor. Once entries are dead it is where
      the outermost guard put it back. */
  ghost predicate Rests<S>(hooks: seq<Hook<S>>, s: S, current: S) {
    && (AnyInitialized(hooks) || current == s)
    && (Doomed(hooks) ==> current == Prepared(Decls(hooks), s))
  }

  /** The invariant between tests. */
  ghost predicate Holds<S>(w: World<S>, hooks: seq<Hook<S>>, s: S, below: seq<S>) {
    Ordered(hooks) && Stacked(w, hooks, s, below) && Rests(hooks, s, w.chain.state)
  }

  /** The invariant within a test, and between tests where no entry is dead. */
  ghost predicate Intact<S>(w: World<S>, hooks: seq<Hook<S>>, s: S, below: seq<S>) {
    && Ordered(hooks) && !Doomed(hooks)
    && Disciplined(w) && Denotes(w) == below + Saved(hooks, s)
    && (AnyInitialized(hooks) || w.chain.state == s)
  }

  lemma {:induction false} NothingSaved<S>(hooks: seq<Hook<S>>, s: S)
    requires !AnyInitialized(hooks)
    ensures Saved(hooks, s) == [] && !Doomed(hooks) && !AnyInitialized(Clean(hooks))
    decreases |hooks|
  {
    if hooks != [] {
      NothingSaved(hooks[1..], hooks[0].decl.Apply(s));
    }
  }

  lemma {:induction false} CleanSaved<S>(hooks: seq<Hook<S>>, s: S)
    requires Ordered(hooks)
    ensures Doomed(hooks) ==> |Saved(Clean(hooks), s)| < |Saved(hooks, s)| && AnyInitialized(hooks)
    ensures !Doomed(hooks) ==> Saved(Clean(hooks), s) == Saved(hooks, s)
    decreases |hooks|
  {
    if hooks != [] {
      var h, rest := hooks[0], hooks[1..];
      if h.decl.kind.Guard? {
        if AnyInitialized(rest) { SomethingSaved(rest, h.decl.Apply(s)); } else { NothingSaved(rest, h.decl.Apply(s)); }
      } else {
        CleanSaved(rest, h.decl.Apply(s));
        assert Clean(hooks)[1..] == Clean(rest);
      }
    }
  }

  lemma {:induction false} SomethingSaved<S>(hooks: seq<Hook<S>>, s: S)
    requires AnyInitialized(hooks)
    ensures |Saved(hooks, s)| > 0
    decreases |hooks|
  {
    if !hooks[0].initialized { SomethingSaved(hooks[1..], hooks[0].decl.Apply(s)); }
  }

  lemma HoldsIsIntact<S>(w: World<S>, hooks: seq<Hook<S>>, s: S, below: seq<S>)
    requires !Doomed(hooks)
    ensures Holds(w, hooks, s, below) <==> Intact(w, hooks, s, below)
  {
    if Ordered(hooks) {
      CleanSaved(hooks, s);
      assert w.snapshots[..|w.snapshots|] == w.snapshots;
      assert Lower(w, |w.snapshots|) == w;
    }
  }

  // ---------------------------------------------------------------------------------------------
  // One test
  // ---------------------------------------------------------------------------------------------

  /** What is below the remaining hooks once `h` has run from anchor s. */
  function Below<S>(below: seq<S>, h: Hook<S>, s: S): seq<S> {
    below + SavedOne(h, s)
  }

  lemma SavedCons<S>(h: Hook<S>, rest: seq<Hook<S>>, s: S, below: seq<S>)
    ensures below + Saved([h] + rest, s) == Below(below, h, s) + Saved(rest, h.decl.Apply(s))
  {
    assert ([h] + rest)[1..] == rest;
  }

  lemma PrefixOfPrefix<T>(a: seq<T>, b: seq<T>, m: nat, n: nat)
    requires m <= n <= |a| && n <= |b| && a[..n] == b[..n]
    ensures a[..m] == b[..m]
  {
  }

  /** One hook's beforeEach carries the invariant on to the hooks inside it. */
  lemma BeforeEachIntact<S>(w: World<S>, hooks: seq<Hook<S>>, s: S, below: seq<S>)
    requires hooks != [] && Intact(w, hooks, s, below)
    ensures var h := hooks[0];
            var (v, h1) := BeforeEach(w, h);
            && Intact(v, hooks[1..], h.decl.Apply(s), Below(below, h1, s))
            && |below| <= |w.snapshots| && v.snapshots[..|below|] == w.snapshots[..|below|]
  {
    if hooks[0].initialized { RestoreIntact(w, hooks, s, below); } else { ColdIntact(w, hooks, s, below); }
  }

  lemma RestoreIntact<S>(w: World<S>, hooks: seq<Hook<S>>, s: S, below: seq<S>)
    requires hooks != [] && Intact(w, hooks, s, below) && hooks[0].initialized
    ensures var h, v := hooks[0], Restore(w);
            && Intact(v, hooks[1..], h.decl.Apply(s), Below(below, h, s))
            && |below| < |w.snapshots| && v.snapshots[..|below|] == w.snapshots[..|below|]
  {
    var h, rest := hooks[0], hooks[1..];
    if !AnyInitialized(rest) { NothingSaved(rest, h.decl.Apply(s)); }
    SavedCons(h, rest, s, below);
    assert [h] + rest == hooks;
    RestoreDenotes(w);
    PrefixOfPrefix(Restore(w).snapshots, w.snapshots, |below|, |w.snapshots| - 1);
  }

  lemma ColdIntact<S>(w: World<S>, hooks: seq<Hook<S>>, s: S, below: seq<S>)
    requires hooks != [] && Intact(w, hooks, s, below) && !hooks[0].initialized
    ensures var h := hooks[0];
            var (v, h1) := BeforeEach(w, h);
            && Intact(v, hooks[1..], h.decl.Apply(s), Below(below, h1, s))
            && |below| <= |w.snapshots| && v.snapshots[..|below|] == w.snapshots[..|below|]
  {
    var h, rest := hooks[0], hooks[1..];
    var s1 := h.decl.Apply(s);
    if !AnyInitialized(rest) { NothingSaved(rest, s1); }
    assert Saved(hooks, s) == Saved(rest, s1);
    assert below + [] == below && Below(below, h, s) == below;
    match h.decl.kind
    case Cached =>
      InitializeDenotes(w, h.decl);
      assert Below(below, Hook(h.decl, true), s) + [] == below + [h.decl.effect(s)];
    case Guard => GuardDenotes(w);
    case Ordinary => MutateDenotes(w, h.decl.effect);
  }

  lemma BeforeEachRecords<S>(w: World<S>, h: Hook<S>)
    requires h.initialized ==> h.decl.kind.Cached?
    ensures var (v, h1) := BeforeEach(w, h);
            && h1 == WarmOne(h)
            && v.starts == w.starts && v.executed == w.executed + PendingOne(h)
  {
  }

  /** One test initialises every cached hook around it, runs just the initialisers still pending, and
      records nothing else but its own start. */
  lemma {:induction false} RunTestRecords<S>(w: World<S>, hooks: seq<Hook<S>>, t: Test<S>)
    requires Ordered(hooks)
    ensures var (w1, hooks1) := RunTest(w, hooks, t);
            hooks1 == Warm(hooks) && w1.executed == w.executed + Pending(hooks)
    decreases |hooks|
  {
    if hooks != [] {
      var (v, h1) := BeforeEach(w, hooks[0]);
      BeforeEachRecords(w, hooks[0]);
      RunTestRecords(v, hooks[1..], t);
      Regroup(w.executed, PendingOne(hooks[0]), [], Pending(hooks[1..]), []);
    }
  }

  /** What a test below the hooks, whose anchor is s, does to the world. */
  ghost predicate TestRan<S>(w: World<S>, hooks: seq<Hook<S>>, s: S, below: seq<S>, t: Test<S>, w1: World<S>) {
    Landed(w, hooks, s, below, t, w1) && (AnyInitialized(hooks) || KeepsEarlier(w, |below|, w1))
  }

  ghost predicate Landed<S>(w: World<S>, hooks: seq<Hook<S>>, s: S, below: seq<S>, t: Test<S>, w1: World<S>) {
    && Stacked(w1, Warm(hooks), s, below)
    && w1.chain.state == Left(Decls(hooks), s, t)
    && w1.starts == w.starts + [Compose(Decls(hooks), s)]
    && |below| <= |w.snapshots| && w1.snapshots[..|below|] == w.snapshots[..|below|]
  }

  /** Nothing saved before is touched, and every entry of the stack from n on is later than all of it. */
  ghost predicate KeepsEarlier<S>(w: World<S>, n: nat, w1: World<S>) {
    && Preserves(w.chain, w1.chain) && w.chain.next <= w1.chain.next
    && forall i :: n <= i < |w1.snapshots| ==> w1.snapshots[i] >= w.chain.next
  }

  lemma BodyRan<S>(w: World<S>, none: seq<Hook<S>>, s: S, below: seq<S>, t: Test<S>)
    requires none == [] && Intact(w, none, s, below)
    ensures TestRan(w, none, s, below, t, RunTest(w, none, t).0)
  {
    BodyPreserves(w.chain, t);
    var w1 := RunTest(w, none, t).0;
    assert Denotes(w1) == Denotes(w);
    assert below + [] == below;
    assert Lower(w1, |below|) == w1;
  }

  lemma StackedCons<S>(w: World<S>, h: Hook<S>, rest: seq<Hook<S>>, s: S, below: seq<S>)
    requires !h.decl.kind.Guard? && Stacked(w, rest, h.decl.Apply(s), Below(below, h, s))
    ensures Stacked(w, [h] + rest, s, below)
  {
    assert ([h] + rest)[1..] == rest;
    SavedCons(h, rest, s, below);
    SavedCons(h, Clean(rest), s, below);
  }

  lemma UnguardedLanded<S>(w: World<S>, hooks: seq<Hook<S>>, s: S, below: seq<S>, t: Test<S>, v: World<S>, u: World<S>)
    requires hooks != [] && !hooks[0].decl.kind.Guard? && v.starts == w.starts
    requires |below| <= |w.snapshots| && |below| <= |v.snapshots| && v.snapshots[..|below|] == w.snapshots[..|below|]
    requires Landed(v, hooks[1..], hooks[0].decl.Apply(s), Below(below, WarmOne(hooks[0]), s), t, u)
    ensures Landed(w, hooks, s, below, t, u)
  {
    var h, rest := hooks[0], hooks[1..];
    StackedCons(u, WarmOne(h), Warm(rest), s, below);
    PrefixOfPrefix(u.snapshots, v.snapshots, |below|, |Below(below, WarmOne(h), s)|);
    assert Decls(hooks)[0] == h.decl && Decls(hooks)[1..] == Decls(rest);
  }

  lemma UnguardedKeepsEarlier<S>(w: World<S>, hooks: seq<Hook<S>>, s: S, below: seq<S>, t: Test<S>,
                                 v: World<S>, u: World<S>)
    requires hooks != [] && Intact(w, hooks, s, below) && !hooks[0].decl.kind.Guard? && !AnyInitialized(hooks)
    requires v == BeforeEach(w, hooks[0]).0
    requires TestRan(v, hooks[1..], hooks[0].decl.Apply(s), Below(below, WarmOne(hooks[0]), s), t, u)
    ensures KeepsEarlier(w, |below|, u)
  {
    if hooks[0].decl.kind.Cached? {
      NothingSaved(hooks, s);
      assert |w.snapshots| == |Denotes(w)| == |below|;
      assert v.snapshots[..|below| + 1] == v.snapshots;
      InitializedFirst(w, hooks[0].decl, u);
    }
  }

  /** What keeps everything saved since an initialiser ran keeps everything saved before it. */
  lemma InitializedFirst<S>(w: World<S>, d: Declared<S>, u: World<S>)
    requires Disciplined(w)
    requires var v := Initialize(w, d);
             && KeepsEarlier(v, |v.snapshots|, u)
             && |v.snapshots| <= |u.snapshots| && u.snapshots[..|v.snapshots|] == v.snapshots
    ensures KeepsEarlier(w, |w.snapshots|, u)
  {
    InitializeDenotes(w, d);
    var n := |w.snapshots|;
    assert u.snapshots[n] == u.snapshots[..n + 1][n] == w.chain.next;
  }

  /** A guard's revert puts the chain back, keeps what is outside it, and kills every entry made inside. */
  lemma GuardRan<S>(w: World<S>, hooks: seq<Hook<S>>, s: S, below: seq<S>, t: Test<S>, u: World<S>)
    requires hooks != [] && Intact(w, hooks, s, below) && hooks[0].decl.kind.Guard?
    requires TestRan(w.(chain := TakeSnapshot(w.chain)), hooks[1..], s, below, t, u)
    ensures TestRan(w, hooks, s, below, t, u.(chain := RevertTo(u.chain, w.chain.next)))
  {
    var rest := hooks[1..];
    var id := w.chain.next;
    NothingSaved(hooks, s);
    assert below + [] == below;
    assert Decls(hooks)[0] == hooks[0].decl;
    var w1 := u.(chain := RevertTo(u.chain, id));
    assert id in u.chain.saved && u.chain.saved[id] == s;
    assert |w.snapshots| == |below| && w.snapshots[..|below|] == w.snapshots;
    var low := Lower(w1, |below|);
    assert low.snapshots == w.snapshots;
    GuardLower(w, u, low);
    assert Warm(hooks) == [WarmOne(hooks[0])] + Warm(rest);
    assert Warm(hooks)[1..] == Warm(rest);
    forall i | |below| <= i < |u.snapshots| ensures u.snapshots[i] < u.chain.next {
      StackedIds(u, Warm(rest), s, below, i);
    }
  }

  lemma GuardLower<S>(w: World<S>, u: World<S>, low: World<S>)
    requires Disciplined(w) && WellFormed(u.chain) && !u.faulted
    requires Preserves(TakeSnapshot(w.chain), u.chain)
    requires low == u.(chain := RevertTo(u.chain, w.chain.next), snapshots := w.snapshots)
    ensures Disciplined(low) && Denotes(low) == Denotes(w)
  {
  }

  lemma StackedIds<S>(w: World<S>, hooks: seq<Hook<S>>, s: S, below: seq<S>, i: nat)
    requires Stacked(w, hooks, s, below) && i < |w.snapshots|
    ensures w.snapshots[i] < w.chain.next
  {
    var n := |below| + |Saved(Clean(hooks), s)|;
    if i < n { assert Lower(w, n).snapshots[i] == w.snapshots[i]; }
  }

  /** Whatever the chain had become, a test starts from the composed state; the stack keeps its meaning and
      gains what was still uninitialised, dead or alive. */
  lemma {:induction false} RunTestComposes<S>(w: World<S>, hooks: seq<Hook<S>>, s: S, below: seq<S>, t: Test<S>)
    requires Intact(w, hooks, s, below)
    ensures TestRan(w, hooks, s, below, t, RunTest(w, hooks, t).0)
    decreases |hooks|
  {
    if hooks == [] {
      BodyRan(w, hooks, s, below, t);
    } else {
      var h, rest := hooks[0], hooks[1..];
      var (v, h1) := BeforeEach(w, h);
      BeforeEachIntact(w, hooks, s, below);
      BeforeEachRecords(w, h);
      RunTestComposes(v, rest, h.decl.Apply(s), Below(below, h1, s), t);
      var u := RunTest(v, rest, t).0;
      if h.decl.kind.Guard? {
        assert Below(below, h1, s) == below;
        GuardRan(w, hooks, s, below, t, u);
      } else {
        UnguardedLanded(w, hooks, s, below, t, v, u);
        if !AnyInitialized(hooks) { UnguardedKeepsEarlier(w, hooks, s, below, t, v, u); }
      }
    }
  }

  lemma {:induction false} RunTestSticks<S>(w: World<S>, hooks: seq<Hook<S>>, t: Test<S>)
    requires w.faulted
    ensures RunTest(w, hooks, t).0.faulted
    decreases |hooks|
  {
    if hooks != [] { RunTestSticks(BeforeEach(w, hooks[0]).0, hooks[1..], t); }
  }

  /** With a dead entry on top, the first initialised hook that a test meets is refused its revert. */
  lemma {:induction false} DeadTopFaults<S>(w: World<S>, hooks: seq<Hook<S>>, t: Test<S>)
    requires Ordered(hooks) && AnyInitialized(hooks)
    requires w.snapshots != []
    requires var top := w.snapshots[|w.snapshots| - 1]; top !in w.chain.saved && top < w.chain.next
    ensures RunTest(w, hooks, t).0.faulted
    decreases |hooks|
  {
    var v := BeforeEach(w, hooks[0]).0;
    if hooks[0].initialized {
      RunTestSticks(v, hooks[1..], t);
    } else {
      DeadTopFaults(v, hooks[1..], t);
    }
  }

  lemma Regroup<T>(base: seq<T>, a: seq<T>, b: seq<T>, c: seq<T>, d: seq<T>)
    ensures c == [] ==> base + a + b + c + d == base + a + (b + d)
    ensures a == [] && b == [] ==> base + a + b + c + d == base + c + (b + d)
    ensures b == [] && d == [] ==> base + a + c == base + (a + c)
    ensures base + (a + b) + ([] + c) == base + a + (b + c)
  {
  }

  // ---------------------------------------------------------------------------------------------
  // Stretches of a run
  // ---------------------------------------------------------------------------------------------

  /** The state tests go back to: fixed as soon as a cached hook is in force. */
  function Anchor<S>(hooks: seq<Hook<S>>, s: S, current: S): S {
    if HasCached(Decls(hooks)) then s else current
  }

  /** n tests more below the hooks are too many for a cached hook inside a guard. */
  predicate TooMany<S>(hooks: seq<Hook<S>>, n: nat) {
    Broken(Decls(hooks)) && n + (if Doomed(hooks) then 1 else 0) >= 2
  }

  /** A faultless stretch of n tests that agrees with the reference outcome r; `inits` are the initialisers
      of inner suites it executed. */
  ghost predicate Agrees<S>(w: World<S>, hooks: seq<Hook<S>>, w1: World<S>, hooks1: seq<Hook<S>>,
                            s: S, below: seq<S>, r: Outcome<S>, n: nat, inits: seq<nat>)
  {
    && hooks1 == (if n > 0 then Warm(hooks) else hooks)
    && Holds(w1, hooks1, Anchor(hooks, s, w1.chain.state), below)
    && |below| <= |w.snapshots| && w1.snapshots[..|below|] == w.snapshots[..|below|]
    && w1.starts == w.starts + r.starts && w1.chain.state == r.final
    && w1.executed == w.executed + (if n > 0 then Pending(hooks) else []) + inits
    && (n == 0 ==> inits == [])
  }

  /** A stretch faults exactly when it has too many tests or a suite inside it does; otherwise it agrees. */
  ghost predicate Ran<S>(w: World<S>, hooks: seq<Hook<S>>, w1: World<S>, hooks1: seq<Hook<S>>,
                         s: S, below: seq<S>, r: Outcome<S>, n: nat, misplaced: bool, inits: seq<nat>)
  {
    && (w1.faulted <==> TooMany(hooks, n) || misplaced)
    && (!w1.faulted ==> Agrees(w, hooks, w1, hooks1, s, below, r, n, inits))
  }

  lemma {:induction false} WarmFacts<S>(hooks: seq<Hook<S>>)
    ensures Decls(Warm(hooks)) == Decls(hooks) && Warm(Warm(hooks)) == Warm(hooks) && Ordered(Warm(hooks))
    ensures |Warm(hooks)| == |hooks| && Pending(Warm(hooks)) == []
    ensures AnyInitialized(Warm(hooks)) <==> HasCached(Decls(hooks))
    ensures Doomed(Warm(hooks)) <==> Broken(Decls(hooks))
    decreases |hooks|
  {
    if hooks != [] { WarmFacts(hooks[1..]); }
  }

  lemma {:induction false} OrderedFacts<S>(hooks: seq<Hook<S>>)
    requires Ordered(hooks)
    ensures AnyInitialized(hooks) ==> HasCached(Decls(hooks))
    ensures Doomed(hooks) ==> Broken(Decls(hooks)) && AnyInitialized(hooks)
    decreases |hooks|
  {
    if hooks != [] { OrderedFacts(hooks[1..]); }
  }

  lemma NothingHappens<S>(w: World<S>, hooks: seq<Hook<S>>, s: S, below: seq<S>)
    requires Holds(w, hooks, s, below)
    ensures Ran(w, hooks, w, hooks, s, below, Outcome([], w.chain.state), 0, false, [])
  {
    OrderedFacts(hooks);
  }

  /** Stretches compose. Once the first has faulted the second cannot undo it. */
  lemma RanThen<S>(w: World<S>, hooks: seq<Hook<S>>, w1: World<S>, hooks1: seq<Hook<S>>,
                   w2: World<S>, hooks2: seq<Hook<S>>, s: S, below: seq<S>,
                   r1: Outcome<S>, r2: Outcome<S>, n1: nat, n2: nat, m1: bool, m2: bool, i1: seq<nat>, i2: seq<nat>)
    requires Ordered(hooks)
    requires Ran(w, hooks, w1, hooks1, s, below, r1, n1, m1, i1)
    requires w1.faulted ==> w2.faulted
    requires !w1.faulted ==> Ran(w1, hooks1, w2, hooks2, Anchor(hooks, s, w1.chain.state), below, r2, n2, m2, i2)
    ensures Ran(w, hooks, w2, hooks2, s, below, Outcome(r1.starts + r2.starts, r2.final), n1 + n2, m1 || m2, i1 + i2)
  {
    WarmFacts(hooks);
    OrderedFacts(hooks);
    if !w1.faulted {
      assert Decls(hooks1) == Decls(hooks);
      assert Broken(Decls(hooks)) ==> (Doomed(hooks1) <==> n1 > 0 || Doomed(hooks));
      if !w2.faulted { AgreesThen(w, hooks, w1, hooks1, w2, hooks2, s, below, r1, r2, n1, n2, i1, i2); }
    }
  }

  lemma AgreesThen<S>(w: World<S>, hooks: seq<Hook<S>>, w1: World<S>, hooks1: seq<Hook<S>>,
                      w2: World<S>, hooks2: seq<Hook<S>>, s: S, below: seq<S>,
                      r1: Outcome<S>, r2: Outcome<S>, n1: nat, n2: nat, i1: seq<nat>, i2: seq<nat>)
    requires Agrees(w, hooks, w1, hooks1, s, below, r1, n1, i1)
    requires Agrees(w1, hooks1, w2, hooks2, Anchor(hooks, s, w1.chain.state), below, r2, n2, i2)
    ensures Agrees(w, hooks, w2, hooks2, s, below, Outcome(r1.starts + r2.starts, r2.final), n1 + n2, i1 + i2)
  {
    WarmFacts(hooks);
    assert Decls(hooks1) == Decls(hooks);
    Regroup(w.starts, r1.starts, [], r2.starts, []);
    if n1 > 0 {
      Regroup(w.executed, Pending(hooks), i1, [], i2);
    } else {
      Regroup(w.executed, [], [], Pending(hooks1), i2);
      Regroup(w.executed, [], [], [], i2);
    }
  }

  /** One test: it faults exactly when an entry it needs is dead. */
  lemma RunTestRan<S>(w: World<S>, hooks: seq<Hook<S>>, s: S, below: seq<S>, t: Test<S>)
    requires Holds(w, hooks, s, below)
    ensures var (w1, hooks1) := RunTest(w, hooks, t);
            Ran(w, hooks, w1, hooks1, s, below,
                Outcome([Compose(Decls(hooks), s)], Left(Decls(hooks), s, t)), 1, false, [])
  {
    OrderedFacts(hooks);
    if Doomed(hooks) {
      CleanSaved(hooks, s);
      DeadTopFaults(w, hooks, t);
    } else {
      HoldsIsIntact(w, hooks, s, below);
      RunTestComposes(w, hooks, s, below, t);
      RunTestRecords(w, hooks, t);
      LandedHolds(w, hooks, s, below, t, RunTest(w, hooks, t).0);
    }
  }

  lemma LandedHolds<S>(w: World<S>, hooks: seq<Hook<S>>, s: S, below: seq<S>, t: Test<S>, w1: World<S>)
    requires Landed(w, hooks, s, below, t, w1)
    ensures Holds(w1, Warm(hooks), Anchor(hooks, s, w1.chain.state), below)
  {
    WarmFacts(hooks);
    if Broken(Decls(hooks)) { BrokenFacts(Decls(hooks)); }
    if !HasCached(Decls(hooks)) { StackedAnywhere(w1, Warm(hooks), s, w1.chain.state, below); }
  }

  /** Without an initialised hook the anchor does not matter to the stack. */
  lemma StackedAnywhere<S>(w: World<S>, hooks: seq<Hook<S>>, s: S, s': S, below: seq<S>)
    requires Stacked(w, hooks, s, below) && !AnyInitialized(hooks)
    ensures Stacked(w, hooks, s', below)
  {
    NothingSaved(hooks, s);
    NothingSaved(hooks, s');
    NothingSaved(Clean(hooks), s);
    NothingSaved(Clean(hooks), s');
  }

  lemma {:induction false} TestsIgnoreAnchor<S>(hooks: seq<Declared<S>>, a: S, b: S, current: S, tests: seq<Test<S>>)
    requires !HasCached(hooks)
    ensures ReferenceTests(hooks, a, current, tests) == ReferenceTests(hooks, b, current, tests)
    decreases |tests|
  {
    if tests != [] { TestsIgnoreAnchor(hooks, a, b, Left(hooks, current, tests[0]), tests[1..]); }
  }

  lemma {:induction false} ChildrenIgnoreAnchor<S>(hooks: seq<Declared<S>>, a: S, b: S, current: S,
                                                   children: seq<Suite<S>>)
    requires !HasCached(hooks)
    ensures ReferenceChildren(hooks, a, current, children) == ReferenceChildren(hooks, b, current, children)
    decreases |children|
  {
    if children != [] {
      ChildrenIgnoreAnchor(hooks, a, b, ReferenceSuite(hooks, a, current, children[0]).final, children[1..]);
    }
  }

  lemma {:induction false} RunTestsStick<S>(w: World<S>, hooks: seq<Hook<S>>, tests: seq<Test<S>>)
    requires w.faulted
    ensures RunTests(w, hooks, tests).0.faulted
    decreases |tests|
  {
    if tests != [] {
      RunTestSticks(w, hooks, tests[0]);
      var (w1, hooks1) := RunTest(w, hooks, tests[0]);
      RunTestsStick(w1, hooks1, tests[1..]);
    }
  }

  lemma {:induction false} RunTestsRan<S>(w: World<S>, hooks: seq<Hook<S>>, s: S, below: seq<S>, tests: seq<Test<S>>)
    requires Holds(w, hooks, s, below)
    ensures var (w1, hooks1) := RunTests(w, hooks, tests);
            Ran(w, hooks, w1, hooks1, s, below, ReferenceTests(Decls(hooks), s, w.chain.state, tests),
                |tests|, false, [])
    decreases |tests|
  {
    if tests == [] {
      NothingHappens(w, hooks, s, below);
    } else {
      var (w1, hooks1) := RunTest(w, hooks, tests[0]);
      var final := Left(Decls(hooks), s, tests[0]);
      var r1 := Outcome([Compose(Decls(hooks), s)], final);
      RunTestRan(w, hooks, s, below, tests[0]);
      OrderedFacts(hooks);
      var s1 := Anchor(hooks, s, w1.chain.state);
      var (w2, hooks2) := RunTests(w1, hooks1, tests[1..]);
      if w1.faulted {
        RunTestsStick(w1, hooks1, tests[1..]);
      } else {
        RunTestsRan(w1, hooks1, s1, below, tests[1..]);
        WarmFacts(hooks);
        if !HasCached(Decls(hooks)) { TestsIgnoreAnchor(Decls(hooks), s, s1, final, tests[1..]); }
      }
      RanThen(w, hooks, w1, hooks1, w2, hooks2, s, below, r1,
              ReferenceTests(Decls(hooks), s, final, tests[1..]), 1, |tests| - 1, false, false, [], []);
    }
  }

  // ---------------------------------------------------------------------------------------------
  // Suites
  // ---------------------------------------------------------------------------------------------

  lemma {:induction false} SavedConcat<S>(a: seq<Hook<S>>, b: seq<Hook<S>>, s: S)
    ensures Saved(a + b, s) == Saved(a, s) + Saved(b, Compose(Decls(a), s))
    decreases |a|
  {
    if a == [] {
      assert a + b == b;
    } else {
      assert (a + b)[1..] == a[1..] + b;
      SavedConcat(a[1..], b, a[0].decl.Apply(s));
    }
  }

  /** Enclosing hooks followed by a suite's own. */
  lemma {:induction false} HooksConcat<S>(a: seq<Hook<S>>, b: seq<Hook<S>>)
    ensures Decls(a + b) == Decls(a) + Decls(b)
    ensures Warm(a + b) == Warm(a) + Warm(b)
    ensures Pending(a + b) == Pending(a) + Pending(b)
    decreases |a|
  {
    if a == [] {
      assert a + b == b;
    } else {
      var h, rest := a[0], a[1..];
      assert (a + b)[1..] == rest + b;
      HooksConcat(rest, b);
      Associative([h.decl], Decls(rest), Decls(b));
      Associative([WarmOne(h)], Warm(rest), Warm(b));
      Associative(PendingOne(h), Pending(rest), Pending(b));
    }
  }

  lemma Associative<T>(a: seq<T>, b: seq<T>, c: seq<T>)
    ensures a + (b + c) == a + b + c
  {
  }

  lemma {:induction false} FlagsConcat<S>(a: seq<Hook<S>>, b: seq<Hook<S>>)
    ensures AnyInitialized(a + b) <==> AnyInitialized(a) || AnyInitialized(b)
    ensures Ordered(a + b) <==>
            Ordered(a) && Ordered(b) && (AnyInitialized(b) ==> Pending(a) == [])
    ensures !AnyInitialized(b) ==> (Doomed(a + b) <==> Doomed(a))
    decreases |a|
  {
    if a == [] {
      assert a + b == b;
      if !AnyInitialized(b) { ColdIsSafe(b); }
    } else {
      assert (a + b)[1..] == a[1..] + b;
      FlagsConcat(a[1..], b);
    }
  }

  lemma {:induction false} CleanConcat<S>(a: seq<Hook<S>>, b: seq<Hook<S>>)
    ensures Guarded(Decls(a)) ==> Clean(a + b) == Clean(a)
    ensures !Guarded(Decls(a)) ==> Clean(a) == a && Clean(a + b) == a + Clean(b)
    decreases |a|
  {
    if a == [] {
      assert a + b == b;
      assert a + Clean(b) == Clean(b);
    } else {
      assert (a + b)[1..] == a[1..] + b;
      CleanConcat(a[1..], b);
      Associative([a[0]], a[1..], Clean(b));
      assert a == [a[0]] + a[1..];
    }
  }

  lemma {:induction false} ColdIsSafe<S>(hooks: seq<Hook<S>>)
    requires !AnyInitialized(hooks)
    ensures !Doomed(hooks) && !AnyInitialized(Clean(hooks))
    decreases |hooks|
  {
    if hooks != [] { ColdIsSafe(hooks[1..]); }
  }

  /** Hooks just registered: nothing initialised, everything cached pending. */
  lemma {:induction false} JustRegistered<S>(own: seq<Declared<S>>)
    ensures var hooks := Registered(own);
            Decls(hooks) == own && !AnyInitialized(hooks) && Ordered(hooks) && Pending(hooks) == CachedNames(own)
    decreases |own|
  {
    if own != [] {
      assert Registered(own)[1..] == Registered(own[1..]);
      JustRegistered(own[1..]);
    }
  }

  lemma {:induction false} CachedConcat<S>(a: seq<Declared<S>>, b: seq<Declared<S>>)
    ensures HasCached(a + b) <==> HasCached(a) || HasCached(b)
    ensures Broken(a + b) <==> Broken(a) || Broken(b) || (Guarded(a) && HasCached(b))
    decreases |a|
  {
    if a == [] {
      assert a + b == b;
    } else {
      assert (a + b)[1..] == a[1..] + b;
      CachedConcat(a[1..], b);
      if Broken(b) { BrokenFacts(b); }
    }
  }

  lemma {:induction false} BrokenFacts<S>(hooks: seq<Declared<S>>)
    requires Broken(hooks)
    ensures HasCached(hooks) && Guarded(hooks)
    decreases |hooks|
  {
    if !hooks[0].kind.Guard? { BrokenFacts(hooks[1..]); }
  }

  lemma EnterSuite<S>(w: World<S>, enclosing: seq<Hook<S>>, own: seq<Declared<S>>, s: S, below: seq<S>)
    requires Holds(w, enclosing, s, below)
    ensures Holds(w, enclosing + Registered(own), s, below)
    ensures Doomed(enclosing + Registered(own)) <==> Doomed(enclosing)
    ensures Decls(enclosing + Registered(own)) == Decls(enclosing) + own
    ensures Pending(enclosing + Registered(own)) == Pending(enclosing) + CachedNames(own)
  {
    var added := Registered(own);
    var inner := Compose(Decls(enclosing), s);
    JustRegistered(own);
    HooksConcat(enclosing, added);
    FlagsConcat(enclosing, added);
    CleanConcat(enclosing, added);
    NothingSaved(added, inner);
    NothingSaved(Clean(added), inner);
    SavedConcat(enclosing, added, s);
    if !Guarded(Decls(enclosing)) { SavedConcat(enclosing, Clean(added), s); }
    assert Saved(enclosing, s) + [] == Saved(enclosing, s);
    if Doomed(enclosing) { DoomedConcat(enclosing, added, s); }
  }

  /** The `after` hooks pop one identifier for each initialised hook, whatever order they run in. */
  lemma {:induction false} AfterAllPops<S>(w: World<S>, hooks: seq<Hook<S>>, s: S)
    requires |Saved(hooks, s)| <= |w.snapshots|
    ensures AfterAll(w, hooks) == w.(snapshots := w.snapshots[..|w.snapshots| - |Saved(hooks, s)|])
    decreases |hooks|
  {
    if hooks == [] {
      assert w.snapshots[..|w.snapshots|] == w.snapshots;
    } else {
      var v := After(w, hooks[0]);
      AfterAllPops(v, hooks[1..], hooks[0].decl.Apply(s));
      assert v.snapshots[..|v.snapshots| - |Saved(hooks[1..], hooks[0].decl.Apply(s))|]
          == w.snapshots[..|w.snapshots| - |Saved(hooks, s)|];
    }
  }

  /** Leaving a suite drops exactly its own entries: the stack denotes again what the enclosing hooks say. */
  lemma LeaveSuite<S>(w: World<S>, enclosing: seq<Hook<S>>, own: seq<Hook<S>>, s: S, s': S, below: seq<S>)
    requires Holds(w, enclosing + own, s, below)
    requires s' == Anchor(enclosing, s, w.chain.state)
    ensures var v := AfterAll(w, own);
            && Holds(v, enclosing, s', below)
            && |below| <= |v.snapshots| <= |w.snapshots| && v.snapshots[..|below|] == w.snapshots[..|below|]
            && v == w.(snapshots := v.snapshots)
  {
    AfterOwn(w, enclosing, own, s, below);
    LeaveStack(w, enclosing, own, s, below);
    LeaveFlags(enclosing, own, s, s', w.chain.state);
    HoldsAbove(Lower(w, |below| + |Saved(enclosing, s)|), enclosing, s, s', below);
  }

  lemma HoldsAbove<S>(w: World<S>, hooks: seq<Hook<S>>, s: S, s': S, below: seq<S>)
    requires Ordered(hooks) && Stacked(w, hooks, s, below)
    requires Rests(hooks, s', w.chain.state) && (s' == s || !AnyInitialized(hooks))
    ensures Holds(w, hooks, s', below) && |below| <= |w.snapshots|
  {
    if s' != s { StackedAnywhere(w, hooks, s, s', below); }
  }

  lemma AfterOwn<S>(w: World<S>, enclosing: seq<Hook<S>>, own: seq<Hook<S>>, s: S, below: seq<S>)
    requires |w.snapshots| == |below| + |Saved(enclosing + own, s)|
    ensures var m := |below| + |Saved(enclosing, s)|;
            && m <= |w.snapshots| && AfterAll(w, own) == Lower(w, m)
            && Lower(w, m).snapshots[..|below|] == w.snapshots[..|below|]
  {
    SavedConcat(enclosing, own, s);
    AfterAllPops(w, own, Compose(Decls(enclosing), s));
  }

  lemma LeaveStack<S>(w: World<S>, enclosing: seq<Hook<S>>, own: seq<Hook<S>>, s: S, below: seq<S>)
    requires Stacked(w, enclosing + own, s, below)
    ensures var m := |below| + |Saved(enclosing, s)|;
            m <= |w.snapshots| && Stacked(Lower(w, m), enclosing, s, below)
  {
    var dropped := LeaveLive(enclosing, own, s, below);
    StackedLower(w, enclosing, s, below, below + Saved(Clean(enclosing + own), s), dropped,
                 |below| + |Saved(enclosing + own, s)|);
  }

  lemma StackedLower<S>(w: World<S>, enclosing: seq<Hook<S>>, s: S, below: seq<S>,
                        live: seq<S>, dropped: seq<S>, total: nat)
    requires Layered(w, live, total)
    requires live == below + Saved(Clean(enclosing), s) + dropped
    requires |Saved(Clean(enclosing), s)| == |Saved(enclosing, s)|
         || (|Saved(Clean(enclosing), s)| < |Saved(enclosing, s)| && dropped == [])
    requires |below| + |Saved(enclosing, s)| <= total
    ensures var m := |below| + |Saved(enclosing, s)|; Stacked(Lower(w, m), enclosing, s, below)
  {
    LowerLayered(w, below + Saved(Clean(enclosing), s), dropped, total, |below| + |Saved(enclosing, s)|);
  }

  lemma LeaveLive<S>(enclosing: seq<Hook<S>>, own: seq<Hook<S>>, s: S, below: seq<S>) returns (dropped: seq<S>)
    ensures below + Saved(Clean(enclosing + own), s) == below + Saved(Clean(enclosing), s) + dropped
    ensures |Saved(Clean(enclosing), s)| == |Saved(enclosing, s)|
         || (|Saved(Clean(enclosing), s)| < |Saved(enclosing, s)| && dropped == [])
    ensures |Saved(enclosing, s)| <= |Saved(enclosing + own, s)|
  {
    SavedConcat(enclosing, own, s);
    CleanConcat(enclosing, own);
    if Guarded(Decls(enclosing)) {
      dropped := [];
      CleanIsShorter(enclosing, s);
    } else {
      dropped := Saved(Clean(own), Compose(Decls(enclosing), s));
      SavedConcat(enclosing, Clean(own), s);
      Associative(below, Saved(enclosing, s), dropped);
    }
  }

  lemma {:induction false} CleanIsShorter<S>(hooks: seq<Hook<S>>, s: S)
    ensures |Saved(Clean(hooks), s)| <= |Saved(hooks, s)|
    decreases |hooks|
  {
    if hooks != [] && !hooks[0].decl.kind.Guard? {
      CleanIsShorter(hooks[1..], hooks[0].decl.Apply(s));
      assert Clean(hooks)[1..] == Clean(hooks[1..]);
    }
  }

  lemma LeaveFlags<S>(enclosing: seq<Hook<S>>, own: seq<Hook<S>>, s: S, s': S, current: S)
    requires Ordered(enclosing + own) && Rests(enclosing + own, s, current)
    requires s' == Anchor(enclosing, s, current)
    ensures Ordered(enclosing) && Rests(enclosing, s', current)
    ensures s' == s || !AnyInitialized(enclosing)
  {
    FlagsConcat(enclosing, own);
    OrderedFacts(enclosing);
    if HasCached(Decls(enclosing)) && AnyInitialized(own) {
      NothingPending(enclosing);
      WarmFacts(enclosing);
    }
    if Doomed(enclosing) { DoomedConcat(enclosing, own, s); }
  }

  lemma {:induction false} DoomedConcat<S>(a: seq<Hook<S>>, b: seq<Hook<S>>, s: S)
    requires Doomed(a)
    ensures Doomed(a + b) && Prepared(Decls(a + b), s) == Prepared(Decls(a), s)
    decreases |a|
  {
    assert (a + b)[1..] == a[1..] + b;
    if a[0].decl.kind.Guard? {
      FlagsConcat(a[1..], b);
    } else {
      DoomedConcat(a[1..], b, a[0].decl.Apply(s));
      assert Decls(a)[1..] == Decls(a[1..]) && Decls(a + b)[1..] == Decls(a[1..] + b);
    }
  }

  lemma {:induction false} NothingPending<S>(hooks: seq<Hook<S>>)
    requires Ordered(hooks) && Pending(hooks) == []
    ensures Warm(hooks) == hooks
    decreases |hooks|
  {
    if hooks != [] {
      NothingPending(hooks[1..]);
      assert hooks == [hooks[0]] + hooks[1..];
    }
  }

  lemma {:induction false} AfterAllKeepsRecord<S>(w: World<S>, hooks: seq<Hook<S>>)
    ensures var v := AfterAll(w, hooks); (w.faulted ==> v.faulted) && v.starts == w.starts
    decreases |hooks|
  {
    if hooks != [] { AfterAllKeepsRecord(After(w, hooks[0]), hooks[1..]); }
  }

  lemma {:induction false} RunSuiteSticks<S>(w: World<S>, enclosing: seq<Hook<S>>, suite: Suite<S>)
    requires w.faulted
    ensures RunSuite(w, enclosing, suite).0.faulted
    decreases suite, 1
  {
    var hooks := enclosing + Registered(suite.hooks);
    RunTestsStick(w, hooks, suite.tests);
    var (w1, hooks1) := RunTests(w, hooks, suite.tests);
    RunChildrenStick(w1, hooks1, suite.children);
    var (w2, hooks2) := RunChildren(w1, hooks1, suite.children);
    AfterAllKeepsRecord(w2, hooks2[|enclosing|..]);
  }

  lemma {:induction false} RunChildrenStick<S>(w: World<S>, hooks: seq<Hook<S>>, children: seq<Suite<S>>)
    requires w.faulted
    ensures RunChildren(w, hooks, children).0.faulted
    decreases children, 0
  {
    if children != [] {
      RunSuiteSticks(w, hooks, children[0]);
      var (w1, hooks1) := RunSuite(w, hooks, children[0]);
      RunChildrenStick(w1, hooks1, children[1..]);
    }
  }

  /** At any depth and from any reachable point, a suite faults exactly when the enclosing hooks cannot bear
      its tests or it misplaces a guard itself; otherwise it agrees with the reference. */
  lemma {:induction false} RunSuiteAgrees<S>(w: World<S>, enclosing: seq<Hook<S>>, s: S, below: seq<S>, suite: Suite<S>)
    requires Holds(w, enclosing, s, below)
    ensures var (w1, enclosing1) := RunSuite(w, enclosing, suite);
            Ran(w, enclosing, w1, enclosing1, s, below,
                ReferenceSuite(Decls(enclosing), s, w.chain.state, suite),
                CountTests(suite), Misplaced(Decls(enclosing), suite), InitOrder(suite))
    decreases suite, 1
  {
    var hooks := enclosing + Registered(suite.hooks);
    EnterSuite(w, enclosing, suite.hooks, s, below);
    OrderedFacts(enclosing);
    RunInsideAgrees(w, hooks, s, below, suite.tests, suite.children);
    var (w1, hooks1) := RunTests(w, hooks, suite.tests);
    var (w2, hooks2) := RunChildren(w1, hooks1, suite.children);
    ExitRan(w, enclosing, w2, hooks2, s, below, suite, ReferenceSuite(Decls(enclosing), s, w.chain.state, suite));
  }

  /** A suite's own tests and then its children, between entering and leaving it. */
  lemma {:induction false} RunInsideAgrees<S>(w: World<S>, hooks: seq<Hook<S>>, s: S, below: seq<S>,
                                              tests: seq<Test<S>>, children: seq<Suite<S>>)
    requires Holds(w, hooks, s, below)
    ensures var decls := Decls(hooks);
            var (w1, hooks1) := RunTests(w, hooks, tests);
            var (w2, hooks2) := RunChildren(w1, hooks1, children);
            var r1 := ReferenceTests(decls, s, w.chain.state, tests);
            var r2 := ReferenceChildren(decls, s, r1.final, children);
            Ran(w, hooks, w2, hooks2, s, below, Outcome(r1.starts + r2.starts, r2.final),
                |tests| + CountAll(children), AnyMisplaced(decls, children), [] + InitOrders(children))
    decreases children, 1
  {
    var (w1, hooks1) := RunTests(w, hooks, tests);
    RunTestsRan(w, hooks, s, below, tests);
    if !w1.faulted { RunChildrenAgree(w1, hooks1, Anchor(hooks, s, w1.chain.state), below, children); }
    ThenChildren(w, hooks, w1, hooks1, s, below, ReferenceTests(Decls(hooks), s, w.chain.state, tests),
                 |tests|, false, [], children);
  }

  /** Children continue a stretch. */
  lemma ThenChildren<S>(w: World<S>, hooks: seq<Hook<S>>, w1: World<S>, hooks1: seq<Hook<S>>, s: S, below: seq<S>,
                        r1: Outcome<S>, n1: nat, m1: bool, i1: seq<nat>, children: seq<Suite<S>>)
    requires Holds(w, hooks, s, below)
    requires Ran(w, hooks, w1, hooks1, s, below, r1, n1, m1, i1)
    requires var (w2, hooks2) := RunChildren(w1, hooks1, children);
             !w1.faulted ==> Ran(w1, hooks1, w2, hooks2, Anchor(hooks, s, w1.chain.state), below,
                                 ReferenceChildren(Decls(hooks1), Anchor(hooks, s, w1.chain.state), w1.chain.state,
                                                   children),
                                 CountAll(children), AnyMisplaced(Decls(hooks1), children), InitOrders(children))
    ensures var (w2, hooks2) := RunChildren(w1, hooks1, children);
            var r2 := ReferenceChildren(Decls(hooks), s, r1.final, children);
            Ran(w, hooks, w2, hooks2, s, below, Outcome(r1.starts + r2.starts, r2.final),
                n1 + CountAll(children), m1 || AnyMisplaced(Decls(hooks), children), i1 + InitOrders(children))
  {
    var (w2, hooks2) := RunChildren(w1, hooks1, children);
    if w1.faulted {
      RunChildrenStick(w1, hooks1, children);
    } else {
      WarmFacts(hooks);
      assert Decls(hooks1) == Decls(hooks);
      AnchorIgnored(hooks, s, w1.chain.state, children);
    }
    RanThen(w, hooks, w1, hooks1, w2, hooks2, s, below, r1, ReferenceChildren(Decls(hooks), s, r1.final, children),
            n1, CountAll(children), m1, AnyMisplaced(Decls(hooks), children), i1, InitOrders(children));
  }

  lemma AnchorIgnored<S>(hooks: seq<Hook<S>>, s: S, current: S, children: seq<Suite<S>>)
    ensures var decls := Decls(hooks);
            ReferenceChildren(decls, Anchor(hooks, s, current), current, children)
              == ReferenceChildren(decls, s, current, children)
  {
    if !HasCached(Decls(hooks)) { ChildrenIgnoreAnchor(Decls(hooks), s, current, current, children); }
  }

  lemma ExitRan<S>(w: World<S>, enclosing: seq<Hook<S>>, w2: World<S>, hooks2: seq<Hook<S>>,
                   s: S, below: seq<S>, suite: Suite<S>, r: Outcome<S>)
    requires Holds(w, enclosing, s, below)
    requires |hooks2| == |enclosing| + |suite.hooks|
    requires Ran(w, enclosing + Registered(suite.hooks), w2, hooks2, s, below, r, CountTests(suite),
                 AnyMisplaced(Decls(enclosing) + suite.hooks, suite.children), [] + InitOrders(suite.children))
    ensures Ran(w, enclosing, AfterAll(w2, hooks2[|enclosing|..]), hooks2[..|enclosing|], s, below, r,
                CountTests(suite), Misplaced(Decls(enclosing), suite), InitOrder(suite))
  {
    EnterSuite(w, enclosing, suite.hooks, s, below);
    CachedConcat(Decls(enclosing), suite.hooks);
    OrderedFacts(enclosing);
    if w2.faulted {
      AfterAllKeepsRecord(w2, hooks2[|enclosing|..]);
    } else {
      ExitAgrees(w, enclosing, w2, hooks2, s, below, suite, r);
    }
  }

  lemma ExitAgrees<S>(w: World<S>, enclosing: seq<Hook<S>>, w2: World<S>, hooks2: seq<Hook<S>>,
                      s: S, below: seq<S>, suite: Suite<S>, r: Outcome<S>)
    requires Holds(w, enclosing, s, below) && !w2.faulted
    requires |hooks2| == |enclosing| + |suite.hooks|
    requires Agrees(w, enclosing + Registered(suite.hooks), w2, hooks2, s, below, r,
                    CountTests(suite), [] + InitOrders(suite.children))
    ensures var v := AfterAll(w2, hooks2[|enclosing|..]);
            && !v.faulted
            && Agrees(w, enclosing, v, hooks2[..|enclosing|], s, below, r, CountTests(suite), InitOrder(suite))
  {
    var hooks := enclosing + Registered(suite.hooks);
    EnterSuite(w, enclosing, suite.hooks, s, below);
    HooksConcat(enclosing, Registered(suite.hooks));
    WarmFacts(enclosing);
    var outer, inner := hooks2[..|enclosing|], hooks2[|enclosing|..];
    assert hooks2 == outer + inner;
    assert outer == if CountTests(suite) > 0 then Warm(enclosing) else enclosing;
    CachedConcat(Decls(enclosing), suite.hooks);
    var s2 := Anchor(hooks, s, w2.chain.state);
    assert Anchor(outer, s2, w2.chain.state) == Anchor(enclosing, s, w2.chain.state);
    LeaveSuite(w2, outer, inner, s2, Anchor(outer, s2, w2.chain.state), below);
    if CountTests(suite) > 0 {
      Regroup(w.executed, Pending(enclosing), CachedNames(suite.hooks), InitOrders(suite.children), []);
    } else {
      Regroup(w.executed, [], [], [], []);
    }
  }

  lemma {:induction false} RunChildrenAgree<S>(w: World<S>, hooks: seq<Hook<S>>, s: S, below: seq<S>,
                                               children: seq<Suite<S>>)
    requires Holds(w, hooks, s, below)
    ensures var (w1, hooks1) := RunChildren(w, hooks, children);
            Ran(w, hooks, w1, hooks1, s, below, ReferenceChildren(Decls(hooks), s, w.chain.state, children),
                CountAll(children), AnyMisplaced(Decls(hooks), children), InitOrders(children))
    decreases children, 0
  {
    if children == [] {
      NothingHappens(w, hooks, s, below);
    } else {
      var (w1, hooks1) := RunSuite(w, hooks, children[0]);
      RunSuiteAgrees(w, hooks, s, below, children[0]);
      if !w1.faulted { RunChildrenAgree(w1, hooks1, Anchor(hooks, s, w1.chain.state), below, children[1..]); }
      ThenChildren(w, hooks, w1, hooks1, s, below, ReferenceSuite(Decls(hooks), s, w.chain.state, children[0]),
                   CountTests(children[0]), Misplaced(Decls(hooks), children[0]), InitOrder(children[0]),
                   children[1..]);
    }
  }

  // ---------------------------------------------------------------------------------------------
  // The results
  // ---------------------------------------------------------------------------------------------

  lemma NoHooksHold<S>(w: World<S>, none: seq<Hook<S>>)
    requires none == []
    ensures Disciplined(w) ==> Holds(w, none, w.chain.state, Denotes(w))
    ensures forall s, below :: Holds(w, none, s, below) ==> Disciplined(w) && below == Denotes(w)
  {
    assert w.snapshots[..|w.snapshots|] == w.snapshots;
    assert Lower(w, |w.snapshots|) == w;
    forall s: S, below: seq<S> | Holds(w, none, s, below) ensures Disciplined(w) && below == Denotes(w) {
      assert below + [] == below;
    }
    if Disciplined(w) { assert Denotes(w) + [] == Denotes(w); }
  }

  /** For every tree of suites and every test body, from any disciplined starting point, a pop or a revert
      fails exactly when the tree misplaces a guard. Otherwise every body starts from the state the reference
      gives it, each initialiser of a suite with tests is executed once and no other is, and the stack is
      left with the identifiers it had, denoting the states they denoted. */
  lemma CacheRefinesReinitialisation<S>(w: World<S>, suite: Suite<S>)
    requires Disciplined(w)
    ensures var w1 := RunSuite(w, [], suite).0;
            var r := ReferenceSuite([], w.chain.state, w.chain.state, suite);
            && (w1.faulted <==> Misplaced([], suite))
            && (!Misplaced([], suite) ==>
                  && Disciplined(w1)
                  && w1.starts == w.starts + r.starts
                  && w1.chain.state == r.final
                  && w1.executed == w.executed + InitOrder(suite)
                  && w1.snapshots == w.snapshots && Denotes(w1) == Denotes(w))
  {
    var below := Denotes(w);
    var none: seq<Hook<S>> := [];
    NoHooksHold(w, none);
    RunSuiteAgrees(w, none, w.chain.state, below, suite);
    var (w1, hooks1) := RunSuite(w, none, suite);
    if !w1.faulted {
      assert w1.executed == w.executed + InitOrder(suite) by {
        assert w.executed + [] == w.executed;
      }
      NoHooksHold(w1, hooks1);
      assert w1.snapshots[..|below|] == w1.snapshots && w.snapshots[..|below|] == w.snapshots;
    }
  }

  /** No hook of a suite, at any depth, is a guard. */
  predicate Unguarded<S>(suite: Suite<S>)
    decreases suite, 1
  {
    !Guarded(suite.hooks) && AllUnguarded(suite.children)
  }

  predicate AllUnguarded<S>(children: seq<Suite<S>>)
    decreases children, 0
  {
    children == [] || (Unguarded(children[0]) && AllUnguarded(children[1..]))
  }

  lemma {:induction false} GuardedConcat<S>(a: seq<Declared<S>>, b: seq<Declared<S>>)
    ensures Guarded(a + b) <==> Guarded(a) || Guarded(b)
    ensures !Guarded(a) ==> !Broken(a)
    decreases |a|
  {
    if a == [] {
      assert a + b == b;
    } else {
      assert (a + b)[1..] == a[1..] + b;
      GuardedConcat(a[1..], b);
    }
  }

  /** Without guards the cache never fails. */
  lemma {:induction false} UnguardedIsNotMisplaced<S>(enclosing: seq<Declared<S>>, suite: Suite<S>)
    requires !Guarded(enclosing) && Unguarded(suite)
    ensures !Misplaced(enclosing, suite)
    decreases suite, 1
  {
    GuardedConcat(enclosing, suite.hooks);
    GuardedConcat(enclosing + suite.hooks, []);
    UnguardedAreNotMisplaced(enclosing + suite.hooks, suite.children);
  }

  lemma {:induction false} UnguardedAreNotMisplaced<S>(hooks: seq<Declared<S>>, children: seq<Suite<S>>)
    requires !Guarded(hooks) && AllUnguarded(children)
    ensures !AnyMisplaced(hooks, children)
    decreases children, 0
  {
    if children != [] {
      UnguardedIsNotMisplaced(hooks, children[0]);
      UnguardedAreNotMisplaced(hooks, children[1..]);
    }
  }

  /** What each test should start from: every enclosing hook applied, outermost first, to s. Test bodies
      do not enter into it. */
  function FreshStarts<S>(enclosing: seq<Declared<S>>, s: S, suite: Suite<S>): seq<S>
    decreases suite, 1
  {
    var hooks := enclosing + suite.hooks;
    seq(|suite.tests|, i => Compose(hooks, s)) + FreshStartsOf(hooks, s, suite.children)
  }

  function FreshStartsOf<S>(hooks: seq<Declared<S>>, s: S, children: seq<Suite<S>>): seq<S>
    decreases children, 0
  {
    if children == [] then [] else FreshStarts(hooks, s, children[0]) + FreshStartsOf(hooks, s, children[1..])
  }

  lemma {:induction false} AnchoredTests<S>(hooks: seq<Declared<S>>, s: S, current: S, tests: seq<Test<S>>)
    requires HasCached(hooks)
    ensures ReferenceTests(hooks, s, current, tests).starts == seq(|tests|, i => Compose(hooks, s))
    decreases |tests|
  {
    if tests != [] { AnchoredTests(hooks, s, Left(hooks, s, tests[0]), tests[1..]); }
  }

  lemma {:induction false} AnchoredSuite<S>(enclosing: seq<Declared<S>>, s: S, current: S, suite: Suite<S>)
    requires HasCached(enclosing + suite.hooks)
    requires !HasCached(enclosing) ==> current == s
    ensures ReferenceSuite(enclosing, s, current, suite).starts == FreshStarts(enclosing, s, suite)
    decreases suite, 1
  {
    var hooks := enclosing + suite.hooks;
    AnchoredTests(hooks, s, current, suite.tests);
    AnchoredChildren(hooks, s, ReferenceTests(hooks, s, current, suite.tests).final, suite.children);
  }

  lemma {:induction false} AnchoredChildren<S>(hooks: seq<Declared<S>>, s: S, current: S, children: seq<Suite<S>>)
    requires HasCached(hooks)
    ensures ReferenceChildren(hooks, s, current, children).starts == FreshStartsOf(hooks, s, children)
    decreases children, 0
  {
    if children != [] {
      CachedConcat(hooks, children[0].hooks);
      AnchoredSuite(hooks, s, current, children[0]);
      AnchoredChildren(hooks, s, ReferenceSuite(hooks, s, current, children[0]).final, children[1..]);
    }
  }

  /** A tree with a cached hook at its root and no misplaced guard behaves as if every enclosing hook were
      run again from the state at entry before each test, whatever the bodies do. */
  lemma EveryTestStartsFresh<S>(w: World<S>, suite: Suite<S>)
    requires Disciplined(w) && HasCached(suite.hooks) && !Misplaced([], suite)
    ensures var w1 := RunSuite(w, [], suite).0;
            !w1.faulted && w1.starts == w.starts + FreshStarts([], w.chain.state, suite)
  {
    CacheRefinesReinitialisation(w, suite);
    var none: seq<Declared<S>> := [];
    assert none + suite.hooks == suite.hooks;
    AnchoredSuite(none, w.chain.state, w.chain.state, suite);
  }

  /** Leaving any suite, at any depth, restores the stack: if the enclosing hooks had all run, or the suite
      had nothing to run, the stack has its old length and denotes its old states, unless a guard has already
      killed some. Identifiers at or above the enclosing hooks' own may differ; those further down do not. */
  lemma LeavingRestoresStack<S>(w: World<S>, enclosing: seq<Hook<S>>, s: S, below: seq<S>, suite: Suite<S>)
    requires Holds(w, enclosing, s, below) && !RunSuite(w, enclosing, suite).0.faulted
    requires Pending(enclosing) == [] || CountTests(suite) == 0
    ensures var (w1, enclosing1) := RunSuite(w, enclosing, suite);
            && enclosing1 == enclosing && |w1.snapshots| == |w.snapshots|
            && w1.snapshots[..|below|] == w.snapshots[..|below|]
            && (!Doomed(enclosing) ==> Disciplined(w) && Disciplined(w1) && Denotes(w1) == Denotes(w))
  {
    RunSuiteAgrees(w, enclosing, s, below, suite);
    if CountTests(suite) > 0 { NothingPending(enclosing); }
    var w1 := RunSuite(w, enclosing, suite).0;
    OrderedFacts(enclosing);
    if !HasCached(Decls(enclosing)) {
      NothingSaved(enclosing, s);
      NothingSaved(enclosing, w1.chain.state);
    }
    if !Doomed(enclosing) {
      HoldsIsIntact(w, enclosing, s, below);
      HoldsIsIntact(w1, enclosing, Anchor(enclosing, s, w1.chain.state), below);
    }
  }
}
