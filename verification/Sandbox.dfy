/** What addSnapshotBeforeRestoreAfterEach of utils/test/testingUtils.ts promises on its own: guards nested
    to any depth and mixed with ordinary beforeEach hooks. */
module Sandbox {
  import opened ChainModel
  import opened BlockchainUtils
  import opened SnapshotCache
  import opened SnapshotCacheProof

  /** A guarded test leaves the chain as the hooks outside the outermost guard left it, with exactly the
      snapshots that were live before, whatever its body and the inner hooks did. An unguarded one leaves
      the body's state behind. Earlier snapshots and the stack of the cache survive either way. */
  lemma {:induction false} SandboxRestores<S>(w: World<S>, hooks: seq<Hook<S>>, t: Test<S>)
    requires WellFormed(w.chain) && !HasCached(Decls(hooks))
    ensures var w1 := RunTest(w, hooks, t).0;
            var c, d, decls := w.chain, w1.chain, Decls(hooks);
            && w1 == World(d, w.snapshots, w.starts + [Compose(decls, c.state)], w.executed, w.faulted)
            && WellFormed(d) && c.next <= d.next && Preserves(c, d)
            && (forall id :: id in d.saved && id < c.next ==> id in c.saved)
            && (Guarded(decls) ==> d.saved == c.saved && d.state == Prepared(decls, c.state))
            && (!Guarded(decls) ==> d.state == t.body(Compose(decls, c.state)))
    decreases |hooks|
  {
    if hooks == [] {
      BodyPreserves(w.chain, t);
    } else {
      var v := BeforeEach(w, hooks[0]).0;
      SandboxRestores(v, hooks[1..], t);
      assert Decls(hooks)[1..] == Decls(hooks[1..]);
      if hooks[0].decl.kind.Guard? { SnapshotThenRevert(w.chain, RunTest(v, hooks[1..], t).0.chain); }
    }
  }
}
