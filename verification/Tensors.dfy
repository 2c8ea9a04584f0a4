/**
The tensor object: a host block that caches a device buffer.

A tensor is built from host bytes, from a serialization, or around a device buffer
view.  Its host block is filled on the first `serialize`.  Host blocks and view
references are counted, so that leaks and double frees are visible.
*/
module TensorStates {
  import opened Options
  import opened LittleEndian
  import opened TensorWire

  /** A device buffer view; the buffer may be longer than the bytes the view shows. */
  datatype ViewRecord = ViewRecord(elementType: nat, dims: seq<nat>, buffer: seq<Byte>, byteLength: nat)

  type View = v: ViewRecord | v.byteLength <= |v.buffer| witness ViewRecord(0, [], [], 0)

  function Shown(v: View): Tensor {
    Tensor(v.elementType, v.dims, v.buffer[..v.byteLength])
  }

  /**
  `frees[i]` counts the frees of host block `i`, `views` are the device's buffer views,
  `releases[v]` counts the releases of the reference a tensor holds on view `v`, and
  `transfers` counts the device-to-host transfers.
  */
  datatype Memory = Memory(frees: seq<nat>, views: seq<View>, releases: seq<nat>, transfers: nat)

  predicate Sound(m: Memory) { |m.releases| == |m.views| }

  datatype Block = Block(id: nat, bytes: seq<Byte>)

  /** The fields of `IREETensor`. */
  datatype State = State(elementType: nat, size: nat, dims: seq<nat>, data: Option<Block>, view: Option<nat>)

  /** The pointers point to blocks and views that exist, of the right size. */
  predicate Within(t: State, m: Memory) {
    && Sound(m)
    && (t.data.Some? ==> t.data.value.id < |m.frees| && |t.data.value.bytes| == t.size)
    && (t.view.Some? ==> t.view.value < |m.views| && m.views[t.view.value].byteLength == t.size)
  }

  /** What the C library and the device do during one `serialize`: whether `malloc`
      succeeds, what the block holds at first, whether the transfer succeeds. */
  datatype Luck = Luck(malloc: bool, junk: seq<Byte>, transfer: bool)

  datatype Result<+R> = Result(value: R, tensor: State, memory: Memory)

  /** The bytes written for a tensor whose host block holds `bytes`. */
  function Written(h: Host, t: State, bytes: seq<Byte>): seq<Byte> {
    Serialized(h, Tensor(t.elementType, t.dims, bytes))
  }

  /** `serialize`: fills the host block if there is none; `read_buffer` without a view
      reports success and writes nothing. */
  function SerializeStep(h: Host, t: State, m: Memory, luck: Luck): Result<Option<seq<Byte>>>
    requires Within(t, m) && |luck.junk| == t.size
  {
    if t.data.Some? then Result(Some(Written(h, t, t.data.value.bytes)), t, m)
    else if !luck.malloc then Result(None, t, m)
    else
      var id, grown := |m.frees|, m.(frees := m.frees + [0]);
      if t.view.None? then Result(Some(Written(h, t, luck.junk)), t.(data := Some(Block(id, luck.junk))), grown)
      else
        var bytes := if luck.transfer then m.views[t.view.value].buffer[..t.size] else luck.junk;
        Result(if luck.transfer then Some(Written(h, t, bytes)) else None,
               t.(data := Some(Block(id, bytes))),
               grown.(transfers := m.transfers + 1))
  }

  /** `deallocate`. */
  function DeallocateStep(t: State, m: Memory): Result<()>
    requires Within(t, m)
  {
    var m1 := if t.data.None? then m else m.(frees := m.frees[t.data.value.id := m.frees[t.data.value.id] + 1]);
    var m2 := if t.view.None? then m1 else m1.(releases := m.releases[t.view.value := m.releases[t.view.value] + 1]);
    Result((), t.(data := None, view := None), m2)
  }

  /** `call` with the tensor as an input: the reference on a view moves to the argument
      list, which releases it, while the field keeps the pointer. */
  function HandOverStep(t: State, m: Memory): Result<()>
    requires Within(t, m)
  {
    Result((), t, if t.view.None? then m
                  else m.(releases := m.releases[t.view.value := m.releases[t.view.value] + 1]))
  }

  /** The bytes `read_buffer_nif` asks for, -1 standing for all of the tensor. */
  function ReadCount(t: State, numBytes: int): int {
    if numBytes == -1 then t.size else numBytes
  }

  /** A host block is not read past its end, and no transfer past the end of a device
      buffer succeeds. */
  predicate Readable(t: State, m: Memory, numBytes: int, transfer: bool)
    requires Within(t, m)
  {
    var n := ReadCount(t, numBytes);
    && 0 <= n
    && if t.view.None? then t.data.Some? && n <= t.size else transfer ==> n <= |m.views[t.view.value].buffer|
  }

  function ReadStep(t: State, m: Memory, numBytes: int, transfer: bool): Result<Option<seq<Byte>>>
    requires Within(t, m) && Readable(t, m, numBytes, transfer)
  {
    var n := ReadCount(t, numBytes);
    if t.view.None? then Result(Some(t.data.value.bytes[..n]), t, m)
    else Result(if transfer then Some(m.views[t.view.value].buffer[..n]) else None, t, m.(transfers := m.transfers + 1))
  }
}

module Tensors {
  import opened Options
  import opened Words
  import opened LittleEndian
  import opened TensorWire
  import opened TensorStates
  import opened TensorRuns

  /** The host heap and the device. */
  class Machine {
    var memory: Memory

    constructor ()
      ensures memory == Memory([], [], [], 0)
    {
      memory := Memory([], [], [], 0);
    }

    /** `malloc`, with the contents it happens to have. */
    method Allocate(contents: seq<Byte>) returns (block: Block)
      modifies this
      ensures block == Block(|old(memory).frees|, contents)
      ensures memory == old(memory).(frees := old(memory).frees + [0])
    {
      block := Block(|memory.frees|, contents);
      memory := memory.(frees := memory.frees + [0]);
    }

    /** The bytes a transfer from the view is to copy, -1 standing for the whole buffer. */
    function TransferCount(view: nat, numBytes: int): int
      requires view < |memory.views|
      reads this
    {
      if numBytes == -1 then |memory.views[view].buffer| else numBytes
    }

    /** `read_buffer` into memory that holds `contents`. */
    method ReadBuffer(view: Option<nat>, contents: seq<Byte>, numBytes: int, transfer: bool)
      returns (ok: bool, bytes: seq<Byte>)
      requires numBytes >= -1 && (view.Some? ==> view.value < |memory.views|)
      requires view.Some? && transfer ==> TransferCount(view.value, numBytes) <= |memory.views[view.value].buffer|
      modifies this
      ensures view.None? ==> ok && bytes == contents && memory == old(memory)
      ensures view.Some? ==> ok == transfer && memory == old(memory).(transfers := old(memory).transfers + 1)
      ensures view.Some? ==>
        bytes == if transfer then memory.views[view.value].buffer[..TransferCount(view.value, numBytes)] else contents
    {
      if view.None? { return true, contents; }
      memory := memory.(transfers := memory.transfers + 1);
      ok := transfer;
      bytes := if transfer then memory.views[view.value].buffer[..TransferCount(view.value, numBytes)] else contents;
    }
  }

  class IreeTensor {
    var elementType: nat
    var size: nat
    var dims: seq<nat>
    var data: Option<Block>
    var view: Option<nat>

    function Fields(): State
      reads this
    {
      State(elementType, size, dims, data, view)
    }

    /** Around a buffer view, whose reference it takes over. */
    constructor FromView(view: nat, elementType: nat, machine: Machine)
      requires Sound(machine.memory) && view < |machine.memory.views|
      ensures var v := machine.memory.views[view];
        && Fields() == State(elementType, v.byteLength, v.dims, None, Some(view))
        && (elementType == v.elementType ==> Represents(Fields(), machine.memory, Shown(v)))
      ensures Constructed(Fields(), machine.memory)
    {
      var v := machine.memory.views[view];
      var copied := [];
      for i := 0 to |v.dims|
        invariant copied == v.dims[..i]
      {
        copied := copied + [v.dims[i]];
      }
      this.view := Some(view);
      this.elementType := elementType;
      size := v.byteLength;
      dims := copied;
      data := None;
    }

    /** From host bytes; the signed dimensions are cast to words. */
    constructor FromHost(bytes: seq<Byte>, inDims: seq<int>, elementType: nat, h: Host, machine: Machine)
      requires Sound(machine.memory)
      modifies machine
      ensures Constructed(Fields(), machine.memory)
      ensures Represents(Fields(), machine.memory, TensorWire.Tensor(elementType, dims, bytes))
      ensures machine.memory == old(machine.memory).(frees := old(machine.memory).frees + [0])
      ensures Fields() == State(elementType, |bytes|,
                                seq(|inDims|, i requires 0 <= i < |inDims| => Wrap(inDims[i], 8 * h.wordBytes)),
                                Some(Block(|old(machine.memory).frees|, bytes)), None)
    {
      var copied := [];
      for i := 0 to |inDims|
        invariant |copied| == i && forall j :: 0 <= j < i ==> copied[j] == Wrap(inDims[j], 8 * h.wordBytes)
      {
        copied := copied + [Wrap(inDims[i], 8 * h.wordBytes)];
      }
      var block := machine.Allocate(bytes);
      size := |bytes|;
      this.elementType := elementType;
      dims := copied;
      data := Some(block);
      view := None;
    }

    /** From a serialization; the buffer must be long enough for what it announces. */
    constructor Deserialize(buffer: seq<Byte>, h: Host, machine: Machine)
      requires Sound(machine.memory) && Parse(h, buffer).Some?
      modifies machine
      ensures Constructed(Fields(), machine.memory)
      ensures Represents(Fields(), machine.memory, Parse(h, buffer).value.value)
      ensures machine.memory == old(machine.memory).(frees := old(machine.memory).frees + [0])
      ensures var t := Parse(h, buffer).value.value;
        Fields() == State(t.elementType, |t.data|, t.dims, Some(Block(|old(machine.memory).frees|, t.data)), None)
      ensures data.Some? && HasLayout(h, buffer, TensorWire.Tensor(elementType, dims, data.value.bytes))
    {
      hide NativeValue, ReadArray, HasLayout;
      ParsedLayout(h, buffer);
      ghost var r0 := ReadValue(h.order, buffer, 4).value;
      ghost var r1 := ReadWord(h, r0.rest).value;
      ghost var r2 := ReadBytes(r1.rest, r1.value).value;
      ghost var r3 := ReadWord(h, r2.rest).value;
      var offset := 0;
      var ty := NativeValue(h.order, buffer[offset..offset + 4]);
      offset := offset + 4;
      assert r0.rest == buffer[offset..] && r0.rest[..h.wordBytes] == buffer[offset..offset + h.wordBytes];
      var sz := NativeValue(h.order, buffer[offset..offset + h.wordBytes]);
      offset := offset + h.wordBytes;
      assert r1.rest == buffer[offset..] && r1.rest[..sz] == buffer[offset..offset + sz];
      var block := machine.Allocate(buffer[offset..offset + sz]);
      offset := offset + sz;
      assert r2.rest == buffer[offset..] && r2.rest[..h.wordBytes] == buffer[offset..offset + h.wordBytes];
      var rank := NativeValue(h.order, buffer[offset..offset + h.wordBytes]);
      offset := offset + h.wordBytes;
      assert r3.rest == buffer[offset..];
      var read := ReadDims(h, buffer[offset..], rank);
      elementType := ty;
      size := sz;
      dims := read.value.value;
      data := Some(block);
      view := None;
    }

    method Serialize(h: Host, luck: Luck, machine: Machine) returns (r: Option<seq<Byte>>)
      requires Within(Fields(), machine.memory) && |luck.junk| == size
      modifies this, machine
      ensures Result(r, Fields(), machine.memory) == SerializeStep(h, old(Fields()), old(machine.memory), luck)
      ensures unchanged(`elementType, `size, `dims, `view)
      ensures r.Some? <==> old(data).Some? || (luck.malloc && (view.None? || luck.transfer))
      ensures old(data).Some? || !luck.malloc ==> data == old(data) && machine.memory == old(machine.memory)
      ensures old(data).None? && luck.malloc ==>
        && data == Some(Block(|old(machine.memory).frees|,
                              if view.Some? && luck.transfer then machine.memory.views[view.value].buffer[..size]
                              else luck.junk))
        && machine.memory == old(machine.memory).(frees := old(machine.memory).frees + [0],
                                                  transfers := old(machine.memory).transfers + OneIf(view.Some?))
      ensures r.Some? ==> data.Some? && r.value == Serialized(h, TensorWire.Tensor(elementType, dims, data.value.bytes))
      ensures r.Some? && Representable(h, TensorWire.Tensor(elementType, dims, data.value.bytes)) ==>
        HasLayout(h, r.value, TensorWire.Tensor(elementType, dims, data.value.bytes))
    {
      hide NativeBytes, ArrayBytes, HasLayout;
      var buffer := NativeBytes(h.order, elementType, 4);
      buffer := buffer + WordBytes(h, size);
      if data.None? {
        if !luck.malloc { return None; }
        var block := machine.Allocate(luck.junk);
        var ok, bytes := machine.ReadBuffer(view, block.bytes, size, luck.transfer);
        data := Some(block.(bytes := bytes));
        if !ok { return None; }
      }
      buffer := buffer + data.value.bytes;
      buffer := buffer + WordBytes(h, |dims|);
      buffer := buffer + DimBytes(h, dims);
      ghost var t := TensorWire.Tensor(elementType, dims, data.value.bytes);
      if Representable(h, t) { SerializedLayout(h, t); }
      return Some(buffer);
    }

    method Deallocate(machine: Machine)
      requires Within(Fields(), machine.memory)
      modifies this, machine
      ensures Result((), Fields(), machine.memory) == DeallocateStep(old(Fields()), old(machine.memory))
      ensures unchanged(`elementType, `size, `dims) && data.None? && view.None?
      ensures var m, m' := old(machine.memory), machine.memory;
        && m'.views == m.views && m'.transfers == m.transfers
        && m'.frees == (if old(data).None? then m.frees
                        else m.frees[old(data).value.id := m.frees[old(data).value.id] + 1])
        && m'.releases == (if old(view).None? then m.releases
                           else m.releases[old(view).value := m.releases[old(view).value] + 1])
    {
      if data.Some? {
        var id := data.value.id;
        machine.memory := machine.memory.(frees := machine.memory.frees[id := machine.memory.frees[id] + 1]);
        data := None;
      }
      if view.Some? {
        var v := view.value;
        machine.memory := machine.memory.(releases := machine.memory.releases[v := machine.memory.releases[v] + 1]);
        view := None;
      }
    }

    method Read(numBytes: int, transfer: bool, machine: Machine) returns (r: Option<seq<Byte>>)
      requires Within(Fields(), machine.memory) && Readable(Fields(), machine.memory, numBytes, transfer)
      modifies machine
      ensures Result(r, Fields(), machine.memory) == ReadStep(old(Fields()), old(machine.memory), numBytes, transfer)
      ensures var n := if numBytes == -1 then size else numBytes;
        if view.None? then r == Some(data.value.bytes[..n])
        else r == if transfer then Some(machine.memory.views[view.value].buffer[..n]) else None
    {
      var n := if numBytes == -1 then size else numBytes;
      if view.None? {
        r := Some(data.value.bytes[..n]);
      } else {
        var ok, bytes := machine.ReadBuffer(view, [], n, transfer);
        r := if ok then Some(bytes) else None;
      }
    }
  }
}
