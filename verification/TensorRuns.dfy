/**
Every run of serialize, read, deallocate and hand-overs to `call` on one tensor.
*/
module TensorRuns {
  import opened Options
  import opened LittleEndian
  import opened TensorWire
  import opened TensorStates

  datatype Op = Serialize(luck: Luck) | Read(numBytes: int, transfer: bool) | Deallocate | HandToCall

  predicate Enabled(t: State, m: Memory, op: Op)
    requires Within(t, m)
  {
    match op
    case Serialize(luck) => |luck.junk| == t.size
    case Read(numBytes, transfer) => Readable(t, m, numBytes, transfer)
    case Deallocate => true
    case HandToCall => t.data.Some? || t.view.Some?
  }

  function Step(h: Host, t: State, m: Memory, op: Op): Result<Option<seq<Byte>>>
    requires Within(t, m) && Enabled(t, m, op)
  {
    match op
    case Serialize(luck) => SerializeStep(h, t, m, luck)
    case Read(numBytes, transfer) => ReadStep(t, m, numBytes, transfer)
    case Deallocate => var r := DeallocateStep(t, m); Result(None, r.tensor, r.memory)
    case HandToCall => var r := HandOverStep(t, m); Result(None, r.tensor, r.memory)
  }

  lemma StepStaysWithin(h: Host, t: State, m: Memory, op: Op)
    requires Within(t, m) && Enabled(t, m, op)
    ensures var r := Step(h, t, m, op); Within(r.tensor, r.memory) && r.tensor.size == t.size
  {
  }

  /** The operations are enabled one after the other. */
  ghost predicate Run(h: Host, t: State, m: Memory, ops: seq<Op>)
    requires Within(t, m)
    decreases |ops|
  {
    ops == []
    || (&& Enabled(t, m, ops[0])
        && var r := Step(h, t, m, ops[0]);
           StepStaysWithin(h, t, m, ops[0]);
           Run(h, r.tensor, r.memory, ops[1..]))
  }

  /** The results of the operations, and where they end. */
  ghost function Outcome(h: Host, t: State, m: Memory, ops: seq<Op>): (r: Result<seq<Option<seq<Byte>>>>)
    requires Within(t, m) && Run(h, t, m, ops)
    ensures Within(r.tensor, r.memory) && |r.value| == |ops|
    decreases |ops|
  {
    if ops == [] then Result([], t, m)
    else
      var first := Step(h, t, m, ops[0]);
      StepStaysWithin(h, t, m, ops[0]);
      var others := Outcome(h, first.tensor, first.memory, ops[1..]);
      Result([first.value] + others.value, others.tensor, others.memory)
  }

  // ----- host blocks and view references

  /** The blocks a tensor built in state `t0` may own: the one it was built with and
      those allocated since. */
  predicate OwnBlock(t0: State, m0: Memory, i: nat) {
    i >= |m0.frees| || (t0.data.Some? && t0.data.value.id == i)
  }

  /** A just constructed tensor: its own block has not been freed. */
  predicate Constructed(t0: State, m0: Memory) {
    Within(t0, m0) && (t0.data.Some? ==> m0.frees[t0.data.value.id] == 0)
  }

  /** `releases` with `n` more releases of the view, if there is one. */
  function Bumped(releases: seq<nat>, view: Option<nat>, n: nat): seq<nat>
    requires view.Some? ==> view.value < |releases|
  {
    if view.None? then releases else releases[view.value := releases[view.value] + n]
  }

  /** Own blocks are unfreed while held and freed once otherwise, other blocks are left
      alone; the view was released once per hand-over, and once more if it is not held. */
  ghost predicate Balanced(t0: State, m0: Memory, t: State, m: Memory, handOvers: nat)
    requires Within(t0, m0)
  {
    && Within(t, m) && m.views == m0.views && |m.frees| >= |m0.frees|
    && (t.data.Some? ==> OwnBlock(t0, m0, t.data.value.id))
    && (forall i :: 0 <= i < |m.frees| && OwnBlock(t0, m0, i) ==>
          m.frees[i] == if t.data.Some? && t.data.value.id == i then 0 else 1)
    && (forall i :: 0 <= i < |m0.frees| && !OwnBlock(t0, m0, i) ==> m.frees[i] == m0.frees[i])
    && (t.view == t0.view || t.view.None?)
    && m.releases == Bumped(m0.releases, t0.view, handOvers + if t.view == t0.view then 0 else 1)
  }

  function OneIf(b: bool): nat { if b then 1 else 0 }

  lemma StepStaysBalanced(h: Host, t0: State, m0: Memory, t: State, m: Memory, handOvers: nat, op: Op)
    requires Constructed(t0, m0) && Balanced(t0, m0, t, m, handOvers) && Enabled(t, m, op)
    ensures var r := Step(h, t, m, op);
      && Balanced(t0, m0, r.tensor, r.memory, handOvers + OneIf(op.HandToCall? && t.view.Some?))
      && r.tensor.view == if op.Deallocate? then None else t.view
  {
  }

  /** The hand-overs in a run that are made while the view is held. */
  function HandOvers(view: Option<nat>, ops: seq<Op>): nat {
    if ops == [] || view.None? || ops[0].Deallocate? then 0
    else OneIf(ops[0].HandToCall?) + HandOvers(view, ops[1..])
  }

  lemma {:induction false} RunStaysBalanced(h: Host, t0: State, m0: Memory, t: State, m: Memory, handOvers: nat,
                                            ops: seq<Op>)
    requires Constructed(t0, m0) && Balanced(t0, m0, t, m, handOvers) && Run(h, t, m, ops)
    ensures var r := Outcome(h, t, m, ops);
      && Balanced(t0, m0, r.tensor, r.memory, handOvers + HandOvers(t.view, ops))
      && r.tensor.view == if Deallocate in ops then None else t.view
    decreases |ops|
  {
    if ops != [] {
      StepStaysBalanced(h, t0, m0, t, m, handOvers, ops[0]);
      var r := Step(h, t, m, ops[0]);
      RunStaysBalanced(h, t0, m0, r.tensor, r.memory, handOvers + OneIf(ops[0].HandToCall? && t.view.Some?), ops[1..]);
      assert Deallocate in ops <==> ops[0] == Deallocate || Deallocate in ops[1..];
    }
  }

  /**
  Whatever is done to a tensor, with whatever luck, in any order and any number of
  times: no own block is ever freed twice, and the view is released once for each
  hand-over made while it is held and once by the first deallocate.  The destructor
  leaves every own block freed once, one more release of a view that was still held,
  and nothing else touched.
  */
  lemma EverythingReleased(h: Host, t0: State, m0: Memory, ops: seq<Op>)
    requires Constructed(t0, m0) && Run(h, t0, m0, ops)
    ensures var r := Outcome(h, t0, m0, ops);
      && (forall i :: 0 <= i < |r.memory.frees| && OwnBlock(t0, m0, i) ==> r.memory.frees[i] <= 1)
      && r.memory.releases
         == Bumped(m0.releases, t0.view, HandOvers(t0.view, ops) + OneIf(t0.view.Some? && Deallocate in ops))
    ensures var r := Outcome(h, t0, m0, ops);
      var end := DeallocateStep(r.tensor, r.memory).memory;
      && |end.frees| >= |m0.frees|
      && (forall i :: 0 <= i < |end.frees| && OwnBlock(t0, m0, i) ==> end.frees[i] == 1)
      && (forall i :: 0 <= i < |m0.frees| && !OwnBlock(t0, m0, i) ==> end.frees[i] == m0.frees[i])
      && end.releases == Bumped(m0.releases, t0.view, HandOvers(t0.view, ops) + 1)
  {
    RunStaysBalanced(h, t0, m0, t0, m0, 0, ops);
    var r := Outcome(h, t0, m0, ops);
    StepStaysBalanced(h, t0, m0, r.tensor, r.memory, HandOvers(t0.view, ops), Deallocate);
  }

  /** The view is released at most once in a run exactly when no hand-over is made while it is
      held, or one is made and neither another nor a deallocate follows it; with the
      destructor at the end, exactly when no hand-over is made while it is held. */
  lemma ReleasedOnceIff(h: Host, t0: State, m0: Memory, ops: seq<Op>)
    requires Constructed(t0, m0) && Run(h, t0, m0, ops) && t0.view.Some?
    ensures var r := Outcome(h, t0, m0, ops);
      var once := m0.releases[t0.view.value] + 1;
      && |r.memory.releases| == |m0.releases|
      && (r.memory.releases[t0.view.value] <= once
          <==> HandOvers(t0.view, ops) == 0 || (HandOvers(t0.view, ops) == 1 && Deallocate !in ops))
      && |DeallocateStep(r.tensor, r.memory).memory.releases| == |m0.releases|
      && (DeallocateStep(r.tensor, r.memory).memory.releases[t0.view.value] <= once <==> HandOvers(t0.view, ops) == 0)
  {
    EverythingReleased(h, t0, m0, ops);
  }

  /** Handing a device tensor to a call and then deallocating it releases the view twice. */
  lemma HandOverThenDeallocate(h: Host, t0: State, m0: Memory)
    requires Constructed(t0, m0) && t0.view.Some?
    ensures Run(h, t0, m0, [HandToCall, Deallocate])
    ensures Outcome(h, t0, m0, [HandToCall, Deallocate]).memory.releases
         == m0.releases[t0.view.value := m0.releases[t0.view.value] + 2]
  {
    var ops := [HandToCall, Deallocate];
    var r := Step(h, t0, m0, HandToCall);
    assert ops[1..] == [Deallocate] && ops[1..][1..] == [];
    assert Run(h, r.tensor, r.memory, ops[1..]);
    EverythingReleased(h, t0, m0, ops);
    assert HandOvers(t0.view, ops) == 1 + HandOvers(t0.view, ops[1..]);
  }

  // ----- host-backed and device-backed tensors look alike

  /** The tensor stands for the value `v`, on the host, on the device, or both. */
  predicate Represents(t: State, m: Memory, v: Tensor) {
    && Within(t, m)
    && t.elementType == v.elementType && t.dims == v.dims && t.size == |v.data|
    && (t.data.Some? || t.view.Some?)
    && (t.data.Some? ==> t.data.value.bytes == v.data)
    && (t.view.Some? ==> Shown(m.views[t.view.value]) == v)
  }

  /** An observation of a tensor of value `v` that stays within it and all of whose library
      and device calls succeed. */
  predicate Succeeds(v: Tensor, op: Op) {
    match op
    case Serialize(luck) => luck.malloc && luck.transfer
    case Read(numBytes, transfer) => transfer && -1 <= numBytes <= |v.data|
    case _ => false
  }

  /** What an observation shows of the value. */
  function Observed(h: Host, v: Tensor, op: Op): seq<Byte> {
    if op.Serialize? then Serialized(h, v)
    else if op.Read? && 0 <= op.numBytes <= |v.data| then v.data[..op.numBytes]
    else v.data
  }

  lemma StepObserves(h: Host, t: State, m: Memory, v: Tensor, op: Op)
    requires Represents(t, m, v) && Enabled(t, m, op) && Succeeds(v, op)
    ensures var r := Step(h, t, m, op);
      r.value == Some(Observed(h, v, op)) && Represents(r.tensor, r.memory, v)
  {
    if t.view.Some? {
      var view := m.views[t.view.value];
      assert view.buffer[..t.size] == v.data;
      assert op.Read? ==> view.buffer[..ReadCount(t, op.numBytes)] == v.data[..ReadCount(t, op.numBytes)];
    }
    if op.Read? && op.numBytes == -1 { assert v.data[..|v.data|] == v.data; }
  }

  /** Every successful observation in a run is a function of the value alone. */
  lemma {:induction false} RunObserves(h: Host, t: State, m: Memory, v: Tensor, ops: seq<Op>)
    requires Represents(t, m, v) && Run(h, t, m, ops)
    requires forall i :: 0 <= i < |ops| ==> Succeeds(v, ops[i])
    ensures forall i :: 0 <= i < |ops| ==> Outcome(h, t, m, ops).value[i] == Some(Observed(h, v, ops[i]))
    ensures var r := Outcome(h, t, m, ops); Represents(r.tensor, r.memory, v)
    decreases |ops|
  {
    if ops != [] {
      assert Succeeds(v, ops[0]);
      StepObserves(h, t, m, v, ops[0]);
      var r := Step(h, t, m, ops[0]);
      RunObserves(h, r.tensor, r.memory, v, ops[1..]);
      assert forall i :: 1 <= i < |ops| ==> ops[i] == ops[1..][i - 1];
    }
  }

  /** Two tensors that stand for the same value cannot be told apart. */
  lemma Indistinguishable(h: Host, t: State, m: Memory, t': State, m': Memory, v: Tensor, ops: seq<Op>)
    requires Represents(t, m, v) && Represents(t', m', v)
    requires Run(h, t, m, ops) && Run(h, t', m', ops)
    requires forall i :: 0 <= i < |ops| ==> Succeeds(v, ops[i])
    ensures Outcome(h, t, m, ops).value == Outcome(h, t', m', ops).value
  {
    RunObserves(h, t, m, v, ops);
    RunObserves(h, t', m', v, ops);
  }

  /** The reads in a run. */
  function Reads(ops: seq<Op>): nat {
    if ops == [] then 0 else OneIf(ops[0].Read?) + Reads(ops[1..])
  }

  predicate Serializes(ops: seq<Op>) {
    exists i :: 0 <= i < |ops| && ops[i].Serialize?
  }

  /** What a run of observations transfers: every read of a tensor with a view, and the
      first serialize if there is no host data; the serializes after it transfer nothing. */
  lemma {:induction false} ObservationsTransfer(h: Host, t: State, m: Memory, v: Tensor, ops: seq<Op>)
    requires Represents(t, m, v) && Run(h, t, m, ops)
    requires forall i :: 0 <= i < |ops| ==> Succeeds(v, ops[i])
    ensures Outcome(h, t, m, ops).memory.transfers
         == m.transfers + (if t.view.Some? then Reads(ops) else 0) + OneIf(t.data.None? && Serializes(ops))
    decreases |ops|
  {
    if ops != [] {
      assert Succeeds(v, ops[0]);
      StepObserves(h, t, m, v, ops[0]);
      var r := Step(h, t, m, ops[0]);
      ObservationsTransfer(h, r.tensor, r.memory, v, ops[1..]);
      FirstSerialize(ops);
    }
  }

  lemma FirstSerialize(ops: seq<Op>)
    requires ops != []
    ensures Serializes(ops) <==> ops[0].Serialize? || Serializes(ops[1..])
  {
    assert forall i :: 0 <= i < |ops[1..]| ==> ops[1..][i] == ops[i + 1];
    assert forall i :: 1 <= i < |ops| ==> ops[i] == ops[1..][i - 1];
  }

  /** A failed transfer leaves its block behind as the cache: the tensor still stands for
      its value after a serialize exactly when the transfer was not needed, did not get
      as far as a block, succeeded, or the block held the right bytes by accident. */
  lemma SerializeKeepsValueIff(h: Host, t: State, m: Memory, v: Tensor, luck: Luck)
    requires Represents(t, m, v) && |luck.junk| == t.size
    ensures var r := SerializeStep(h, t, m, luck);
      Represents(r.tensor, r.memory, v)
      <==> t.data.Some? || !luck.malloc || luck.transfer || luck.junk == v.data
  {
    if t.view.Some? { assert m.views[t.view.value].buffer[..t.size] == v.data; }
  }
}
