/**
Calling a compiled function on tensors, and the byte-level call built on it.

The compiled module is an arbitrary function from tensor values to buffer views.
*/
module Calls {
  import opened Options
  import opened LittleEndian
  import opened TensorWire
  import opened TensorStates
  import opened Tensors
  import TensorRuns

  /** `None` where a step of the invocation reports an error. */
  type Vm = seq<Tensor> -> Option<seq<View>>

  function Repeat<T>(x: T, n: nat): (s: seq<T>)
    ensures |s| == n && forall i :: 0 <= i < n ==> s[i] == x
  {
    seq(n, i => x)
  }

  // ----- call

  predicate Callable(t: State, m: Memory) {
    Within(t, m) && (t.data.Some? || t.view.Some?)
  }

  /** What the function is given for an input: the view itself, or a device copy of the
      host bytes with the tensor's own type and dimensions. */
  function Argument(t: State, m: Memory): Tensor
    requires Callable(t, m)
  {
    if t.view.Some? then Shown(m.views[t.view.value])
    else Tensor(t.elementType, t.dims, t.data.value.bytes)
  }

  predicate AllCallable(ts: seq<State>, m: Memory) {
    forall i :: 0 <= i < |ts| ==> Callable(ts[i], m)
  }

  function Arguments(ts: seq<State>, m: Memory): (args: seq<Tensor>)
    requires AllCallable(ts, m)
    ensures |args| == |ts| && forall i :: 0 <= i < |ts| ==> args[i] == Argument(ts[i], m)
  {
    seq(|ts|, i requires 0 <= i < |ts| => Argument(ts[i], m))
  }

  ghost function FieldsOf(tensors: seq<IreeTensor>): (ts: seq<State>)
    reads tensors
    ensures |ts| == |tensors| && forall i :: 0 <= i < |tensors| ==> ts[i] == tensors[i].Fields()
  {
    seq(|tensors|, i requires 0 <= i < |tensors| reads tensors => tensors[i].Fields())
  }

  /** The memory after the argument list is released: each view that came with an input has
      lost the reference the input held. */
  function HandedOver(ts: seq<State>, m: Memory): (r: Memory)
    requires Sound(m) && AllCallable(ts, m)
    ensures r == m.(releases := r.releases) && |r.releases| == |m.releases|
  {
    if ts == [] then m
    else
      var last := |ts| - 1;
      HandOverStep(ts[last], HandedOver(ts[..last], m)).memory
  }

  /** A view is released once for each input that holds it. */
  lemma {:induction false} HandedOverCounts(ts: seq<State>, m: Memory, v: nat)
    requires Sound(m) && AllCallable(ts, m) && v < |m.releases|
    ensures HandedOver(ts, m).releases[v] == m.releases[v] + multiset(ViewsOf(ts))[Some(v)]
    decreases |ts|
  {
    if ts != [] {
      var last := |ts| - 1;
      HandedOverCounts(ts[..last], m, v);
      assert ViewsOf(ts) == ViewsOf(ts[..last]) + [ts[last].view];
    }
  }

  function ViewsOf(ts: seq<State>): (views: seq<Option<nat>>)
    ensures |views| == |ts| && forall i :: 0 <= i < |ts| ==> views[i] == ts[i].view
  {
    seq(|ts|, i requires 0 <= i < |ts| => ts[i].view)
  }

  lemma {:induction false} HostInputsKeepMemory(ts: seq<State>, m: Memory)
    requires Sound(m) && AllCallable(ts, m) && forall i :: 0 <= i < |ts| ==> ts[i].view.None?
    ensures HandedOver(ts, m) == m
    decreases |ts|
  {
    if ts != [] { HostInputsKeepMemory(ts[..|ts| - 1], m); }
  }

  /** A result tensor around the view `id`. */
  function ResultState(v: View, id: nat): State {
    State(v.elementType, v.byteLength, v.dims, None, Some(id))
  }

  /** The memory with the result views, each with one reference. */
  function WithResults(m: Memory, outs: seq<View>): Memory {
    m.(views := m.views + outs, releases := m.releases + Repeat(0, |outs|))
  }

  ghost predicate Results(tensors: seq<IreeTensor>, outs: seq<View>, base: nat)
    reads tensors
  {
    && |tensors| <= |outs|
    && (forall i :: 0 <= i < |tensors| ==> tensors[i].Fields() == ResultState(outs[i], base + i))
    && (forall i, j :: 0 <= i < j < |tensors| ==> tensors[i] != tensors[j])
  }

  /** A tensor around the view `id`; its dimensions are copied from the view once more. */
  method MakeResult(id: nat, machine: Machine) returns (tensor: IreeTensor)
    requires Sound(machine.memory) && id < |machine.memory.views|
    ensures fresh(tensor) && tensor.Fields() == ResultState(machine.memory.views[id], id)
  {
    var out := machine.memory.views[id];
    tensor := new IreeTensor.FromView(id, out.elementType, machine);
    tensor.dims := [];
    for j := 0 to |out.dims|
      invariant tensor.Fields() == ResultState(out, id).(dims := out.dims[..j])
    {
      tensor.dims := tensor.dims + [out.dims[j]];
    }
    assert out.dims[..|out.dims|] == out.dims;
  }

  method MakeResults(outs: seq<View>, base: nat, machine: Machine) returns (results: seq<IreeTensor>)
    requires Sound(machine.memory) && base + |outs| <= |machine.memory.views|
    requires forall i :: 0 <= i < |outs| ==> machine.memory.views[base + i] == outs[i]
    ensures |results| == |outs| && Results(results, outs, base) && fresh(results)
  {
    results := [];
    for i := 0 to |outs|
      invariant |results| == i && Results(results, outs, base)
      invariant forall k :: 0 <= k < |results| ==> fresh(results[k])
    {
      var tensor := MakeResult(base + i, machine);
      results := results + [tensor];
    }
  }

  /** Collects the arguments, one per input. */
  method GatherArguments(inputs: seq<IreeTensor>, machine: Machine) returns (args: seq<Tensor>)
    requires AllCallable(FieldsOf(inputs), machine.memory)
    ensures args == Arguments(FieldsOf(inputs), machine.memory)
  {
    args := [];
    for i := 0 to |inputs|
      invariant args == Arguments(FieldsOf(inputs), machine.memory)[..i]
    {
      var input := inputs[i];
      assert input.Fields() == FieldsOf(inputs)[i];
      if input.view.Some? {
        args := args + [Shown(machine.memory.views[input.view.value])];
      } else {
        args := args + [Tensor(input.elementType, input.dims, input.data.value.bytes)];
      }
    }
  }

  lemma ResultRepresents(m: Memory, v: View, id: nat)
    requires Sound(m) && id < |m.views| && m.views[id] == v
    ensures TensorRuns.Represents(ResultState(v, id), m, Shown(v))
  {
  }

  /** `iree_vm_list_release` on the arguments. */
  method ReleaseArguments(inputs: seq<IreeTensor>, machine: Machine)
    requires Sound(machine.memory) && AllCallable(FieldsOf(inputs), machine.memory)
    modifies machine
    ensures machine.memory == HandedOver(old(FieldsOf(inputs)), old(machine.memory))
  {
    ghost var ts, m := FieldsOf(inputs), machine.memory;
    for i := 0 to |inputs|
      invariant FieldsOf(inputs) == ts
      invariant machine.memory == HandedOver(ts[..i], m)
    {
      assert ts[..i + 1][..i] == ts[..i] && ts[i] == inputs[i].Fields();
      if inputs[i].view.Some? {
        var v := inputs[i].view.value;
        machine.memory := machine.memory.(releases := machine.memory.releases[v := machine.memory.releases[v] + 1]);
      }
    }
    assert ts[..|inputs|] == ts;
  }

  lemma StillCallable(ts: seq<State>, m: Memory, outs: seq<View>)
    requires Sound(m) && AllCallable(ts, m)
    ensures Sound(WithResults(m, outs)) && AllCallable(ts, WithResults(m, outs))
  {
  }

  /** The inputs keep pointing at their views, whose references are gone after a call. */
  method Call(inputs: seq<IreeTensor>, vm: Vm, machine: Machine) returns (r: Option<seq<IreeTensor>>)
    requires Sound(machine.memory) && AllCallable(FieldsOf(inputs), machine.memory)
    modifies machine
    ensures var ts, m := old(FieldsOf(inputs)), old(machine.memory);
      var outs := vm(Arguments(ts, m));
      && (r.None? <==> outs.None?)
      && (r.None? ==> machine.memory == m)
      && (r.Some? ==> Sound(WithResults(m, outs.value)) && AllCallable(ts, WithResults(m, outs.value)))
      && (r.Some? ==> machine.memory == HandedOver(ts, WithResults(m, outs.value)))
      && (r.Some? ==> |r.value| == |outs.value| && Results(r.value, outs.value, |m.views|))
      && (r.Some? ==> forall i :: 0 <= i < |r.value| ==>
            TensorRuns.Represents(r.value[i].Fields(), machine.memory, Shown(outs.value[i])))
    ensures r.Some? ==> fresh(r.value)
  {
    hide HandedOver, Argument;
    var args := GatherArguments(inputs, machine);
    var invoked := vm(args);
    if invoked.None? { return None; }
    var base := |machine.memory.views|;
    StillCallable(FieldsOf(inputs), machine.memory, invoked.value);
    machine.memory := WithResults(machine.memory, invoked.value);
    var results := MakeResults(invoked.value, base, machine);
    ReleaseArguments(inputs, machine);
    forall i | 0 <= i < |results|
      ensures TensorRuns.Represents(results[i].Fields(), machine.memory, Shown(invoked.value[i]))
    {
      ResultRepresents(machine.memory, invoked.value[i], base + i);
    }
    return Some(results);
  }

  /** A call sees only the values its inputs stand for. */
  lemma CallSeesValues(ts: seq<State>, m: Memory, values: seq<Tensor>)
    requires |ts| == |values| && forall i :: 0 <= i < |ts| ==> TensorRuns.Represents(ts[i], m, values[i])
    ensures AllCallable(ts, m) && Arguments(ts, m) == values
  {
  }

  // ----- the byte-level call

  predicate AllParse(h: Host, buffers: seq<seq<Byte>>) {
    forall i :: 0 <= i < |buffers| ==> Parse(h, buffers[i]).Some?
  }

  function Decoded(h: Host, buffers: seq<seq<Byte>>): (ts: seq<Tensor>)
    requires AllParse(h, buffers)
    ensures |ts| == |buffers| && forall i :: 0 <= i < |buffers| ==> ts[i] == Parse(h, buffers[i]).value.value
  {
    seq(|buffers|, i requires 0 <= i < |buffers| => Parse(h, buffers[i]).value.value)
  }

  /** Enough results for the outputs that are asked for. */
  predicate Provides(h: Host, vm: Vm, inputs: seq<seq<Byte>>, numOutputs: nat) {
    AllParse(h, inputs) && var outs := vm(Decoded(h, inputs)); outs.Some? ==> numOutputs <= |outs.value|
  }

  /** The abstract call, printed: output i is the serialization of result i. */
  function CallBytes(h: Host, vm: Vm, inputs: seq<seq<Byte>>, numOutputs: nat): Option<seq<seq<Byte>>>
    requires Provides(h, vm, inputs, numOutputs)
  {
    var outs :- vm(Decoded(h, inputs));
    Some(seq(numOutputs, i requires 0 <= i < numOutputs => Serialized(h, Shown(outs[i]))))
  }

  /** A deserialized input in host block `id`. */
  function InputState(t: Tensor, id: nat): State {
    State(t.elementType, |t.data|, t.dims, Some(Block(id, t.data)), None)
  }

  lemma InputsCallable(states: seq<State>, ts: seq<Tensor>, base: nat, m: Memory)
    requires Sound(m) && |states| == |ts| && base + |ts| <= |m.frees|
    requires forall j :: 0 <= j < |ts| ==> states[j] == InputState(ts[j], base + j)
    ensures AllCallable(states, m) && Arguments(states, m) == ts
    ensures forall j :: 0 <= j < |states| ==> states[j].view.None?
  {
  }

  /** The memory after `n` more inputs. */
  function WithInputs(m: Memory, n: nat): Memory {
    m.(frees := m.frees + Repeat(0, n))
  }

  lemma OneMoreInput(m: Memory, n: nat)
    ensures WithInputs(m, n).(frees := WithInputs(m, n).frees + [0]) == WithInputs(m, n + 1)
    ensures m == WithInputs(m, 0)
  {
    assert m.frees + Repeat(0, n) + [0] == m.frees + Repeat(0, n + 1);
  }

  ghost predicate AreInputs(inputs: seq<IreeTensor>, ts: seq<Tensor>, base: nat)
    reads inputs
  {
    |inputs| <= |ts| && forall j :: 0 <= j < |inputs| ==> inputs[j].Fields() == InputState(ts[j], base + j)
  }

  predicate ParsesTo(h: Host, buffer: seq<Byte>, t: Tensor) {
    Parse(h, buffer).Some? && Parse(h, buffer).value.value == t
  }

  method DeserializeInput(h: Host, buffer: seq<Byte>, ghost t: Tensor, machine: Machine) returns (input: IreeTensor)
    requires Sound(machine.memory) && ParsesTo(h, buffer, t)
    modifies machine
    ensures fresh(input) && input.Fields() == InputState(t, |old(machine.memory).frees|)
    ensures machine.memory == old(machine.memory).(frees := old(machine.memory).frees + [0])
  {
    input := new IreeTensor.Deserialize(buffer, h, machine);
  }

  /** The input loop. */
  method DeserializeInputs(h: Host, buffers: seq<seq<Byte>>, ghost ts: seq<Tensor>, machine: Machine)
    returns (inputs: seq<IreeTensor>)
    requires Sound(machine.memory)
    requires |ts| == |buffers|
    requires forall i {:trigger buffers[i]} :: 0 <= i < |buffers| ==> ParsesTo(h, buffers[i], ts[i])
    modifies machine
    ensures |inputs| == |ts| && AreInputs(inputs, ts, |old(machine.memory).frees|)
    ensures machine.memory == WithInputs(old(machine.memory), |buffers|)
  {
    hide Parse;
    ghost var m := machine.memory;
    OneMoreInput(m, 0);
    inputs := [];
    for i := 0 to |buffers|
      invariant |inputs| == i && forall j :: 0 <= j < i ==> fresh(inputs[j])
      invariant machine.memory == WithInputs(m, i)
      invariant AreInputs(inputs, ts, |m.frees|)
    {
      var input := DeserializeInput(h, buffers[i], ts[i], machine);
      assert input.Fields() == InputState(ts[i], |m.frees| + i);
      assert AreInputs(inputs, ts, |m.frees|);
      inputs := inputs + [input];
      OneMoreInput(m, i);
    }
  }

  /** Serializes a result tensor and deletes it. */
  method EmitOutput(h: Host, tensor: IreeTensor, ghost v: View, ghost id: nat, machine: Machine)
    returns (bytes: seq<Byte>)
    requires Sound(machine.memory) && id < |machine.memory.views| && machine.memory.views[id] == v
    requires tensor.Fields() == ResultState(v, id)
    modifies tensor, machine
    ensures bytes == Serialized(h, Shown(v))
    ensures machine.memory == Emitted(old(machine.memory), id)
  {
    ghost var m := machine.memory;
    var serialized := tensor.Serialize(h, Luck(true, Repeat(0, tensor.size), true), machine);
    bytes := serialized.value;
    tensor.Deallocate(machine);
    assert (m.frees + [0])[|m.frees| := 1] == m.frees + [1];
  }

  /** One output emitted: a block allocated and freed, a transfer made, the view released. */
  function Emitted(m: Memory, id: nat): Memory
    requires id < |m.releases|
  {
    m.(frees := m.frees + [1], releases := m.releases[id := m.releases[id] + 1], transfers := m.transfers + 1)
  }

  /** The first `i` of `n` outputs emitted, whose views follow those of `before`. */
  function EmittedAll(m: Memory, before: seq<nat>, n: nat, i: nat): Memory
    requires i <= n
  {
    m.(frees := m.frees + Repeat(1, i), releases := before + Repeat(1, i) + Repeat(0, n - i),
       transfers := m.transfers + i)
  }

  lemma OneMoreOutput(m: Memory, before: seq<nat>, n: nat, i: nat)
    requires i < n && |m.views| == |before| + n
    ensures Sound(EmittedAll(m, before, n, i)) && EmittedAll(m, before, n, i).views == m.views
    ensures Emitted(EmittedAll(m, before, n, i), |before| + i) == EmittedAll(m, before, n, i + 1)
  {
    assert m.frees + Repeat(1, i) + [1] == m.frees + Repeat(1, i + 1);
    NextRelease(before, i, n);
  }

  lemma NextRelease(releases: seq<nat>, i: nat, n: nat)
    requires i < n
    ensures (releases + Repeat(1, i) + Repeat(0, n - i))[|releases| + i := 1]
         == releases + Repeat(1, i + 1) + Repeat(0, n - i - 1)
    ensures (releases + Repeat(1, i) + Repeat(0, n - i))[|releases| + i] == 0
  {
  }

  /** The output loop, over results whose views follow those counted in `before`. */
  method EmitOutputs(h: Host, result: seq<IreeTensor>, numOutputs: nat, outputByteSizes: array<nat>, machine: Machine,
                     ghost outs: seq<View>, ghost before: seq<nat>, ghost expected: seq<seq<Byte>>)
    returns (serializedOutputs: seq<seq<Byte>>)
    requires numOutputs <= |result| == |outs| && numOutputs <= outputByteSizes.Length
    requires Sound(machine.memory) && Results(result, outs, |before|)
    requires |machine.memory.views| == |before| + |outs| && machine.memory.views[|before|..] == outs
    requires machine.memory.releases == before + Repeat(0, |outs|)
    requires |expected| == numOutputs
    requires forall i {:trigger expected[i]} :: 0 <= i < numOutputs ==> expected[i] == Serialized(h, Shown(outs[i]))
    modifies machine, outputByteSizes, result
    ensures serializedOutputs == expected
    ensures forall j :: 0 <= j < numOutputs ==> outputByteSizes[j] == |expected[j]|
    ensures outputByteSizes[numOutputs..] == old(outputByteSizes[numOutputs..])
    ensures machine.memory == EmittedAll(old(machine.memory), before, |outs|, numOutputs)
  {
    hide Serialized, Shown;
    ghost var m := machine.memory;
    assert m == EmittedAll(m, before, |outs|, 0);
    serializedOutputs := [];
    for i := 0 to numOutputs
      invariant machine.memory == EmittedAll(m, before, |outs|, i)
      invariant forall j :: i <= j < |result| ==> result[j].Fields() == ResultState(outs[j], |before| + j)
      invariant serializedOutputs == expected[..i]
      invariant forall j :: 0 <= j < i ==> outputByteSizes[j] == |expected[j]|
      invariant outputByteSizes[numOutputs..] == old(outputByteSizes[numOutputs..])
    {
      OneMoreOutput(m, before, |outs|, i);
      ghost var id := |before| + i;
      assert m.views[id] == outs[i] by { assert m.views[id] == m.views[|before|..][i]; }
      var serialized := EmitOutput(h, result[i], outs[i], id, machine);
      assert serialized == expected[i];
      serializedOutputs := serializedOutputs + [serialized];
      outputByteSizes[i] := |serialized|;
    }
  }

  /** Deserializes the inputs and calls the function on them. */
  method CallSerialized(h: Host, vm: Vm, serializedInputs: seq<seq<Byte>>, machine: Machine)
    returns (r: Option<seq<IreeTensor>>)
    requires Sound(machine.memory) && AllParse(h, serializedInputs)
    modifies machine
    ensures var outs, m := vm(Decoded(h, serializedInputs)), WithInputs(old(machine.memory), |serializedInputs|);
      && (r.None? <==> outs.None?)
      && (r.Some? ==> machine.memory == WithResults(m, outs.value))
      && (r.Some? ==> |r.value| == |outs.value| && Results(r.value, outs.value, |m.views|))
    ensures r.Some? ==> fresh(r.value)
  {
    hide Parse, HandedOver, Argument, Shown, TensorRuns.Represents;
    ghost var m, ts := machine.memory, Decoded(h, serializedInputs);
    var inputs := DeserializeInputs(h, serializedInputs, ts, machine);
    ghost var states := FieldsOf(inputs);
    InputsCallable(states, ts, |m.frees|, machine.memory);
    r := Call(inputs, vm, machine);
    if r.Some? { HostInputsKeepMemory(states, WithResults(WithInputs(m, |serializedInputs|), vm(ts).value)); }
  }

  /**
  `nx_iree_call` on runs whose allocations and transfers succeed: it refines the
  function on tensors.  The memory it leaves: the blocks of the deserialized inputs
  stay allocated, and each output's block is freed and its view released.
  */
  method NxIreeCall(h: Host, vm: Vm, serializedInputs: seq<seq<Byte>>, numOutputs: nat,
                    outputByteSizes: array<nat>, machine: Machine)
    returns (r: Option<seq<seq<Byte>>>)
    requires Sound(machine.memory) && Provides(h, vm, serializedInputs, numOutputs)
    requires numOutputs <= outputByteSizes.Length
    modifies machine, outputByteSizes
    ensures r == CallBytes(h, vm, serializedInputs, numOutputs)
    ensures r.Some? <==> vm(Decoded(h, serializedInputs)).Some?
    ensures r.Some? ==> |r.value| == numOutputs
    ensures r.Some? ==> forall i :: 0 <= i < numOutputs ==>
      && r.value[i] == Serialized(h, Shown(vm(Decoded(h, serializedInputs)).value[i]))
      && outputByteSizes[i] == |r.value[i]|
    ensures outputByteSizes[numOutputs..] == old(outputByteSizes[numOutputs..])
    ensures r.Some? ==>
      var outs, m := vm(Decoded(h, serializedInputs)).value, WithInputs(old(machine.memory), |serializedInputs|);
      machine.memory == EmittedAll(WithResults(m, outs), m.releases, |outs|, numOutputs)
  {
    ghost var before := machine.memory.releases;
    var called := CallSerialized(h, vm, serializedInputs, machine);
    if called.None? { return None; }
    ghost var outs := vm(Decoded(h, serializedInputs)).value;
    ghost var expected := CallBytes(h, vm, serializedInputs, numOutputs).value;
    var outputs := EmitOutputs(h, called.value, numOutputs, outputByteSizes, machine, outs, before, expected);
    return Some(outputs);
  }

  // ----- chaining calls through bytes

  /** First `f`, then `g` on the first `n` results of `f`. */
  function Compose(f: Vm, g: Vm, n: nat): Vm {
    (args: seq<Tensor>) =>
      match f(args)
      case None => None
      case Some(outs) => if n <= |outs| then g(seq(n, i requires 0 <= i < n => Shown(outs[i]))) else None
  }

  /** Feeding the serialized outputs of one call to another computes the composition. */
  lemma CallsCompose(h: Host, f: Vm, g: Vm, inputs: seq<seq<Byte>>, n: nat, k: nat)
    requires Provides(h, f, inputs, n) && CallBytes(h, f, inputs, n).Some?
    requires var outs := f(Decoded(h, inputs)).value; forall i :: 0 <= i < n ==> Representable(h, Shown(outs[i]))
    requires Provides(h, Compose(f, g, n), inputs, k)
    ensures var between := CallBytes(h, f, inputs, n).value;
      && Provides(h, g, between, k)
      && CallBytes(h, g, between, k) == CallBytes(h, Compose(f, g, n), inputs, k)
    ensures var outs, between := f(Decoded(h, inputs)).value, CallBytes(h, f, inputs, n).value;
      var last := g(seq(n, i requires 0 <= i < n => Shown(outs[i])));
      && (CallBytes(h, g, between, k).Some? <==> last.Some?)
      && (last.Some? ==> |last.value| >= k && |CallBytes(h, g, between, k).value| == k)
      && (last.Some? ==> forall i :: 0 <= i < k ==>
            CallBytes(h, g, between, k).value[i] == Serialized(h, Shown(last.value[i])))
  {
    var outs, between := f(Decoded(h, inputs)).value, CallBytes(h, f, inputs, n).value;
    forall i | 0 <= i < n
      ensures Parse(h, between[i]) == Some(Read(Shown(outs[i]), []))
    {
      RoundTrip(h, Shown(outs[i]), []);
      assert between[i] + [] == between[i];
    }
    assert Decoded(h, between) == seq(n, i requires 0 <= i < n => Shown(outs[i]));
  }
}
