/** The development chain behind utils/common/blockchainUtils.ts: its state and its snapshots. */
module ChainModel {

  /** `saved` holds the live snapshots; identifiers are handed out in increasing order. */
  datatype Chain<S> = Chain(state: S, saved: map<nat, S>, next: nat)

  /** Every live identifier has been handed out. */
  predicate WellFormed<S>(c: Chain<S>) {
    forall id :: id in c.saved ==> id < c.next
  }

  /** evm_snapshot: saves the state under the identifier `next`. */
  function TakeSnapshot<S>(c: Chain<S>): Chain<S> {
    Chain(c.state, c.saved[c.next := c.state], c.next + 1)
  }

  /** evm_revert: restores a live snapshot and discards it and every later one; on any other
      identifier it answers false and changes nothing. */
  function RevertTo<S>(c: Chain<S>, id: nat): Chain<S> {
    if id in c.saved then Chain(c.saved[id], map i | i in c.saved && i < id :: c.saved[i], c.next)
    else c
  }

  function Mutate<S>(c: Chain<S>, f: S -> S): Chain<S> {
    c.(state := f(c.state))
  }

  /** A test body: an arbitrary change of state that may leave snapshots of its own behind, one for each
      state in `leaves`, and does not touch earlier ones. */
  datatype Test<!S> = Test(body: S -> S, leaves: S -> seq<S>)

  function LeaveSnapshots<S>(c: Chain<S>, states: seq<S>): Chain<S>
    decreases |states|
  {
    if states == [] then c
    else LeaveSnapshots(Chain(c.state, c.saved[c.next := states[0]], c.next + 1), states[1..])
  }

  function RunBody<S>(c: Chain<S>, t: Test<S>): Chain<S> {
    LeaveSnapshots(Mutate(c, t.body), t.leaves(c.state))
  }

  /** `after` still has every snapshot of `before`, unchanged. */
  ghost predicate Preserves<S>(before: Chain<S>, after: Chain<S>) {
    forall id :: id in before.saved ==> id in after.saved && after.saved[id] == before.saved[id]
  }

  lemma {:induction false} LeavingPreserves<S>(c: Chain<S>, states: seq<S>)
    requires WellFormed(c)
    ensures var d := LeaveSnapshots(c, states);
            && WellFormed(d) && d.state == c.state && Preserves(c, d) && c.next <= d.next
            && forall id :: id in d.saved && id < c.next ==> id in c.saved
    decreases |states|
  {
    if states != [] {
      LeavingPreserves(Chain(c.state, c.saved[c.next := states[0]], c.next + 1), states[1..]);
    }
  }

  lemma BodyPreserves<S>(c: Chain<S>, t: Test<S>)
    requires WellFormed(c)
    ensures var d := RunBody(c, t);
            && WellFormed(d) && d.state == t.body(c.state) && Preserves(c, d) && c.next <= d.next
            && forall id :: id in d.saved && id < c.next ==> id in c.saved
  {
    LeavingPreserves(Mutate(c, t.body), t.leaves(c.state));
  }

  /** Reverts in the order given. */
  function RevertAll<S>(c: Chain<S>, ids: seq<nat>): Chain<S>
    decreases |ids|
  {
    if ids == [] then c else RevertAll(RevertTo(c, ids[0]), ids[1..])
  }

  function Earliest(ids: seq<nat>): nat
    requires ids != []
    decreases |ids|
  {
    if |ids| == 1 || ids[0] <= Earliest(ids[1..]) then ids[0] else Earliest(ids[1..])
  }

  /** Reverting to several live snapshots, in any order, comes to reverting to the earliest. */
  lemma {:induction false} RevertOrderIsImmaterial<S>(c: Chain<S>, ids: seq<nat>)
    requires ids != [] && forall i :: 0 <= i < |ids| ==> ids[i] in c.saved
    ensures RevertAll(c, ids) == RevertTo(c, Earliest(ids))
    decreases |ids|
  {
    if |ids| == 1 {
      assert RevertAll(RevertTo(c, ids[0]), ids[1..]) == RevertTo(c, ids[0]);
    } else {
      var a, b := ids[0], ids[1];
      var joined := [if a <= b then a else b] + ids[2..];
      RevertTwice(c, a, b);
      RevertOrderIsImmaterial(c, joined);
      assert ids[1..][1..] == ids[2..] == joined[1..];
      EarliestJoined(ids);
    }
  }

  lemma RevertTwice<S>(c: Chain<S>, a: nat, b: nat)
    requires a in c.saved && b in c.saved
    ensures RevertTo(RevertTo(c, a), b) == RevertTo(c, if a <= b then a else b)
  {
  }

  lemma EarliestJoined(ids: seq<nat>)
    requires |ids| >= 2
    ensures Earliest([if ids[0] <= ids[1] then ids[0] else ids[1]] + ids[2..]) == Earliest(ids)
  {
    var joined := [if ids[0] <= ids[1] then ids[0] else ids[1]] + ids[2..];
    assert ids[1..][1..] == ids[2..] == joined[1..];
    if |ids| > 2 { assert |joined| > 1; }
  }
}
