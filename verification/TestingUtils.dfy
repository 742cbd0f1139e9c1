/** utils/test/testingUtils.ts on objects: the shared SNAPSHOTS array and the closures that cacheBeforeEach
    and addSnapshotBeforeRestoreAfterEach register. Runner calls them as the test framework does. */
module TestingUtils {
  import opened Arithmetic
  import opened ChainModel
  import opened BlockchainUtils
  import opened SnapshotCache

  /** The module-level array. */
  class SnapshotStack {
    var ids: seq<nat>

    constructor ()
      ensures ids == []
    {
      ids := [];
    }

    method Push(id: nat)
      modifies this
      ensures ids == old(ids) + [id]
    {
      ids := ids + [id];
    }

    method Pop() returns (id: Option<nat>)
      modifies this
      ensures old(ids) == [] ==> id == None && ids == []
      ensures old(ids) != [] ==> id == Some(old(ids)[|old(ids)| - 1]) && ids == old(ids)[..|old(ids)| - 1]
    {
      if ids == [] {
        id := None;
      } else {
        id := Some(ids[|ids| - 1]);
        ids := ids[..|ids| - 1];
      }
    }
  }

  /** One test process: the provider, SNAPSHOTS, and the record of the run. */
  class Session<S> {
    const provider: Provider<S>
    const snapshots: SnapshotStack
    var starts: seq<S>
    var executed: seq<nat>
    var faulted: bool

    constructor (provider: Provider<S>)
      ensures this.provider == provider && fresh(snapshots)
      ensures Value() == World(provider.chain, [], [], [], false)
    {
      this.provider := provider;
      snapshots := new SnapshotStack();
      starts, executed, faulted := [], [], false;
    }

    function Value(): World<S>
      reads this, provider, snapshots
    {
      World(provider.chain, snapshots.ids, starts, executed, faulted)
    }
  }

  /** The closures of one addSnapshotBeforeRestoreAfterEach call: their own client, hence their own slot. */
  class SnapshotGuard<S> {
    const blockchain: Blockchain<S>

    constructor (provider: Provider<S>)
      ensures fresh(blockchain) && blockchain.provider == provider
    {
      blockchain := new Blockchain(provider);
    }

    method BeforeEach()
      modifies blockchain`snapshotId, blockchain.provider
      ensures blockchain.provider.chain == TakeSnapshot(old(blockchain.provider.chain))
      ensures blockchain.snapshotId == old(blockchain.provider.chain).next
    {
      var _ := blockchain.SaveSnapshot();
    }

    method AfterEach()
      modifies blockchain.provider
      ensures blockchain.provider.chain == RevertTo(old(blockchain.provider.chain), blockchain.snapshotId)
    {
      blockchain.Revert();
    }
  }

  /** The closure of one cacheBeforeEach call. */
  class CacheHook<S> {
    const decl: Declared<S>
    const blockchain: Blockchain<S>
    var initialized: bool

    constructor (decl: Declared<S>, provider: Provider<S>)
      requires decl.kind.Cached?
      ensures this.decl == decl && !initialized
      ensures fresh(blockchain) && blockchain.provider == provider
    {
      this.decl := decl;
      initialized := false;
      blockchain := new Blockchain(provider);
    }

    function Value(): Hook<S>
      reads this
    {
      Hook(decl, initialized)
    }

    method BeforeEach(session: Session<S>)
      requires decl.kind.Cached? && blockchain.provider == session.provider
      modifies this`initialized, blockchain`snapshotId, session, session.provider, session.snapshots
      ensures (session.Value(), Value()) == SnapshotCache.BeforeEach(old(session.Value()), old(Value()))
    {
      if !initialized {
        session.provider.chain := Mutate(session.provider.chain, decl.effect);
        session.executed := session.executed + [decl.name];
        var id := blockchain.SaveSnapshot();
        session.snapshots.Push(id);
        initialized := true;
      } else {
        var popped := session.snapshots.Pop();
        if popped == None {
          session.faulted := true;
        } else {
          session.faulted := session.faulted || popped.value !in session.provider.chain.saved;
          blockchain.RevertById(popped.value);
          var id := blockchain.SaveSnapshot();
          session.snapshots.Push(id);
        }
      }
    }

    method After(session: Session<S>)
      modifies session, session.snapshots
      ensures session.Value() == SnapshotCache.After(old(session.Value()), Value())
    {
      if initialized {
        var popped := session.snapshots.Pop();
        if popped == None {
          session.faulted := true;
        }
      }
    }
  }
}
