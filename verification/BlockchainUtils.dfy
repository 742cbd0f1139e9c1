/** utils/common/blockchainUtils.ts: the client that takes snapshots and reverts to them. */
module BlockchainUtils {
  import opened ChainModel

  /** The JSON-RPC provider, reduced to the two requests that matter here. */
  class Provider<S> {
    var chain: Chain<S>

    constructor (chain: Chain<S>)
      ensures this.chain == chain
    {
      this.chain := chain;
    }

    method SendSnapshot() returns (id: nat)
      modifies this
      ensures chain == TakeSnapshot(old(chain)) && id == old(chain).next
    {
      id := chain.next;
      chain := TakeSnapshot(chain);
    }

    method SendRevert(id: nat) returns (accepted: bool)
      modifies this
      ensures chain == RevertTo(old(chain), id)
      ensures accepted == (id in old(chain).saved)
    {
      accepted := id in chain.saved;
      chain := RevertTo(chain, id);
    }
  }

  class Blockchain<S> {
    const provider: Provider<S>
    var snapshotId: nat

    constructor (provider: Provider<S>)
      ensures this.provider == provider && snapshotId == 0
    {
      this.provider := provider;
      snapshotId := 0;
    }

    method SaveSnapshot() returns (response: nat)
      modifies this`snapshotId, provider
      ensures provider.chain == TakeSnapshot(old(provider.chain))
      ensures response == old(provider.chain).next && snapshotId == response
    {
      response := provider.SendSnapshot();
      snapshotId := response;
    }

    /** Like the original, ignores whether the chain accepted the identifier. */
    method Revert()
      modifies provider
      ensures provider.chain == RevertTo(old(provider.chain), snapshotId)
    {
      var _ := provider.SendRevert(snapshotId);
    }

    method RevertById(id: nat)
      modifies provider
      ensures provider.chain == RevertTo(old(provider.chain), id)
    {
      var _ := provider.SendRevert(id);
    }

    /** Identifiers start at one, so this goes back to the first snapshot if it is still live. */
    method Reset()
      modifies provider
      ensures provider.chain == RevertTo(old(provider.chain), 1)
    {
      var _ := provider.SendRevert(1);
    }
  }

  /** Taking a snapshot and reverting to it, whatever happens to the state in between, gives back the
      state and exactly the snapshots that were live. */
  lemma SnapshotThenRevert<S>(c: Chain<S>, between: Chain<S>)
    requires WellFormed(c) && Preserves(TakeSnapshot(c), between)
    requires forall id :: id in between.saved && id < c.next ==> id in c.saved
    ensures RevertTo(between, c.next) == Chain(c.state, c.saved, between.next)
  {
  }

  /** What clients of one chain may do: save, revert to an identifier, or work and leave snapshots behind. */
  datatype Request<!S> = Save | Back(id: nat) | Work(t: Test<S>)

  function Serve<S>(c: Chain<S>, requests: seq<Request<S>>): Chain<S>
    decreases |requests|
  {
    if requests == [] then c
    else
      var d := match requests[0]
        case Save => TakeSnapshot(c)
        case Back(id) => RevertTo(c, id)
        case Work(t) => RunBody(c, t);
      Serve(d, requests[1..])
  }

  predicate GoesBackTo<S>(requests: seq<Request<S>>, id: nat)
    decreases |requests|
  {
    requests != [] && (requests[0] == Back(id) || GoesBackTo(requests[1..], id))
  }

  /** While the first snapshot is live, a reset returns to it unless someone has reverted to it before; from
      then on a reset does nothing. A cached hook's second test is such a revert. */
  lemma {:induction false} ResetExactly<S>(c: Chain<S>, requests: seq<Request<S>>)
    requires WellFormed(c) && 1 in c.saved && 0 !in c.saved
    ensures var d := Serve(c, requests);
            RevertTo(d, 1) == if GoesBackTo(requests, 1) then d else Chain(c.saved[1], map[], d.next)
    decreases |requests|
  {
    if requests != [] {
      match requests[0]
      case Save => ResetExactly(TakeSnapshot(c), requests[1..]);
      case Back(id) =>
        if id == 1 {
          GoneStaysGone(RevertTo(c, 1), 1, requests[1..]);
        } else {
          ResetExactly(RevertTo(c, id), requests[1..]);
        }
      case Work(t) =>
        BodyPreserves(c, t);
        ResetExactly(RunBody(c, t), requests[1..]);
    }
  }

  /** Identifiers are never handed out twice. */
  lemma {:induction false} GoneStaysGone<S>(c: Chain<S>, id: nat, requests: seq<Request<S>>)
    requires WellFormed(c) && id < c.next && id !in c.saved
    ensures id !in Serve(c, requests).saved
    decreases |requests|
  {
    if requests != [] {
      match requests[0]
      case Save => GoneStaysGone(TakeSnapshot(c), id, requests[1..]);
      case Back(other) => GoneStaysGone(RevertTo(c, other), id, requests[1..]);
      case Work(t) =>
        BodyPreserves(c, t);
        GoneStaysGone(RunBody(c, t), id, requests[1..]);
    }
  }
}
