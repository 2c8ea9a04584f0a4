/**
Allocation statistics: cumulative byte counters and running peaks, in words of
`w` bits that wrap.
*/
module AllocatorStatistics {
  import opened Words

  const HOST_VISIBLE: nat := 0x02
  const HOST_COHERENT: nat := 0x04
  const HOST_LOCAL: nat := HOST_VISIBLE + HOST_COHERENT + 0x40

  /** `iree_all_bits_set(memory_type, IREE_HAL_MEMORY_TYPE_HOST_LOCAL)`. */
  predicate IsHostLocal(memoryType: nat) {
    And(memoryType, HOST_LOCAL) == HOST_LOCAL
  }

  /** Host memory is visible to the host, coherent, and has the bit of its own. */
  predicate HostClass(memoryType: nat) {
    Bit(memoryType, 1) && Bit(memoryType, 2) && Bit(memoryType, 6)
  }

  /** The mask test looks at all three bits of host-local memory and at no other. */
  lemma HostLocalBits(memoryType: nat)
    ensures IsHostLocal(memoryType) <==> HostClass(memoryType)
  {
    hide And, Bit;
    var a0 := memoryType;
    var a1 := Halved(a0, 0x46);
    var a2 := Halved(a1, 0x23);
    var a3 := Halved(a2, 0x11);
    var a4 := Halved(a3, 0x08);
    var a5 := Halved(a4, 0x04);
    var a6 := Halved(a5, 0x02);
    var a7 := Halved(a6, 0x01);
    NoBits(a7);
  }

  lemma Halved(a: nat, b: nat) returns (half: nat)
    ensures And(a, b) == 2 * And(half, b / 2) + if Bit(a, 0) && b % 2 == 1 then 1 else 0
    ensures forall i: nat :: Bit(a, i + 1) == Bit(half, i)
  {
    half := a / 2;
    AndHalves(a, b);
  }

  lemma NoBits(a: nat)
    ensures And(a, 0) == 0
  {
  }

  /** The counters of one class of memory. */
  datatype Counters = Counters(bytesPeak: nat, bytesAllocated: nat, bytesFreed: nat)

  datatype Statistics = Statistics(host: Counters, device: Counters)

  datatype Event = Alloc(memoryType: nat, size: nat) | Free(memoryType: nat, size: nat)

  function Max(a: int, b: int): int { if a <= b then b else a }

  // ----- recording

  function Allocated(c: Counters, size: nat, w: nat): Counters {
    var total := Wrap(c.bytesAllocated + size, w);
    Counters(Max(c.bytesPeak, Wrap(total - c.bytesFreed, w)), total, c.bytesFreed)
  }

  function Freed(c: Counters, size: nat, w: nat): Counters {
    c.(bytesFreed := Wrap(c.bytesFreed + size, w))
  }

  /** The six fields of `iree_hal_allocator_statistics_t`. */
  class Recorder {
    const w: nat
    var hostPeak: nat
    var hostAllocated: nat
    var hostFreed: nat
    var devicePeak: nat
    var deviceAllocated: nat
    var deviceFreed: nat

    constructor (w: nat)
      ensures this.w == w && Contents() == Nothing()
    {
      this.w := w;
      hostPeak, hostAllocated, hostFreed := 0, 0, 0;
      devicePeak, deviceAllocated, deviceFreed := 0, 0, 0;
    }

    function Contents(): Statistics
      reads this
    {
      Statistics(Counters(hostPeak, hostAllocated, hostFreed), Counters(devicePeak, deviceAllocated, deviceFreed))
    }

    method RecordAlloc(memoryType: nat, size: nat)
      modifies this
      ensures Contents() == Record(old(Contents()), Alloc(memoryType, size), w)
      ensures if Bit(memoryType, 1) && Bit(memoryType, 2) && Bit(memoryType, 6) then
          && hostAllocated == Wrap(old(hostAllocated) + size, w) && hostFreed == old(hostFreed)
          && hostPeak == Max(old(hostPeak), Wrap(old(hostAllocated) + size - old(hostFreed), w))
          && unchanged(`devicePeak, `deviceAllocated, `deviceFreed)
        else
          && deviceAllocated == Wrap(old(deviceAllocated) + size, w) && deviceFreed == old(deviceFreed)
          && devicePeak == Max(old(devicePeak), Wrap(old(deviceAllocated) + size - old(deviceFreed), w))
          && unchanged(`hostPeak, `hostAllocated, `hostFreed)
    {
      hide Bit, Wrap;
      HostLocalBits(memoryType);
      WrapAbsorbsMinus(hostAllocated + size, hostFreed, w);
      WrapAbsorbsMinus(deviceAllocated + size, deviceFreed, w);
      if IsHostLocal(memoryType) {
        hostAllocated := Wrap(hostAllocated + size, w);
        var live := Wrap(hostAllocated - hostFreed, w);
        hostPeak := if hostPeak <= live then live else hostPeak;
      } else {
        deviceAllocated := Wrap(deviceAllocated + size, w);
        var live := Wrap(deviceAllocated - deviceFreed, w);
        devicePeak := if devicePeak <= live then live else devicePeak;
      }
    }

    method RecordFree(memoryType: nat, size: nat)
      modifies this
      ensures Contents() == Record(old(Contents()), Free(memoryType, size), w)
      ensures if Bit(memoryType, 1) && Bit(memoryType, 2) && Bit(memoryType, 6) then
          && hostFreed == Wrap(old(hostFreed) + size, w)
          && unchanged(`hostPeak, `hostAllocated, `devicePeak, `deviceAllocated, `deviceFreed)
        else
          && deviceFreed == Wrap(old(deviceFreed) + size, w)
          && unchanged(`devicePeak, `deviceAllocated, `hostPeak, `hostAllocated, `hostFreed)
    {
      hide Bit, Wrap;
      HostLocalBits(memoryType);
      if IsHostLocal(memoryType) {
        hostFreed := Wrap(hostFreed + size, w);
      } else {
        deviceFreed := Wrap(deviceFreed + size, w);
      }
    }
  }

  function Nothing(): Statistics {
    Statistics(Counters(0, 0, 0), Counters(0, 0, 0))
  }

  function Record(s: Statistics, e: Event, w: nat): Statistics {
    var c := if IsHostLocal(e.memoryType) then s.host else s.device;
    var c' := if e.Alloc? then Allocated(c, e.size, w) else Freed(c, e.size, w);
    if IsHostLocal(e.memoryType) then s.(host := c') else s.(device := c')
  }

  function RecordAll(history: seq<Event>, w: nat): Statistics {
    if history == [] then Nothing()
    else Record(RecordAll(history[..|history| - 1], w), history[|history| - 1], w)
  }

  // ----- what the history says

  datatype Block = Block(memoryType: nat, size: nat)

  function RemoveFirst(blocks: seq<Block>, b: Block): seq<Block> {
    if blocks == [] then []
    else if blocks[0] == b then blocks[1..]
    else [blocks[0]] + RemoveFirst(blocks[1..], b)
  }

  /** The blocks that are allocated and not yet freed after the history. */
  function Outstanding(history: seq<Event>): seq<Block> {
    if history == [] then []
    else
      var e, before := history[|history| - 1], Outstanding(history[..|history| - 1]);
      var b := Block(e.memoryType, e.size);
      if e.Alloc? then before + [b] else RemoveFirst(before, b)
  }

  /** Each free gives back a block that is outstanding. */
  predicate FreesMatch(history: seq<Event>) {
    history == []
    || (var e := history[|history| - 1];
        && FreesMatch(history[..|history| - 1])
        && (e.Free? ==> Block(e.memoryType, e.size) in Outstanding(history[..|history| - 1])))
  }

  function Contribution(b: Block, host: bool): nat {
    if HostClass(b.memoryType) == host then b.size else 0
  }

  function Bytes(blocks: seq<Block>, host: bool): nat {
    if blocks == [] then 0 else Contribution(blocks[0], host) + Bytes(blocks[1..], host)
  }

  /** Live bytes of a class after the history. */
  function Live(history: seq<Event>, host: bool): nat {
    Bytes(Outstanding(history), host)
  }

  /** `m` is the greatest number of live bytes over all prefixes of the history. */
  ghost predicate IsPeak(m: nat, history: seq<Event>, host: bool) {
    && (exists n :: 0 <= n <= |history| && Live(history[..n], host) == m)
    && (forall n :: 0 <= n <= |history| ==> Live(history[..n], host) <= m)
  }

  // ----- live bytes, step by step

  lemma {:induction false} BytesAppend(blocks: seq<Block>, b: Block, host: bool)
    ensures Bytes(blocks + [b], host) == Bytes(blocks, host) + Contribution(b, host)
  {
    if blocks == [] {
      assert blocks + [b] == [b];
    } else {
      BytesAppend(blocks[1..], b, host);
      assert (blocks + [b])[1..] == blocks[1..] + [b];
    }
  }

  lemma {:induction false} BytesRemove(blocks: seq<Block>, b: Block, host: bool)
    requires b in blocks
    ensures Bytes(RemoveFirst(blocks, b), host) == Bytes(blocks, host) - Contribution(b, host)
  {
    if blocks[0] != b { BytesRemove(blocks[1..], b, host); }
  }

  lemma LiveStep(history: seq<Event>, host: bool)
    requires history != [] && FreesMatch(history)
    ensures var e, before := history[|history| - 1], Live(history[..|history| - 1], host);
            var size := Contribution(Block(e.memoryType, e.size), host);
            Live(history, host) == if e.Alloc? then before + size else before - size
  {
    var e, before := history[|history| - 1], Outstanding(history[..|history| - 1]);
    var b := Block(e.memoryType, e.size);
    if e.Alloc? { BytesAppend(before, b, host); } else { BytesRemove(before, b, host); }
  }

  // ----- peaks

  function MaxLive(history: seq<Event>, host: bool): nat {
    if history == [] then 0 else Max(MaxLive(history[..|history| - 1], host), Live(history, host))
  }

  lemma {:induction false} MaxLiveBounds(history: seq<Event>, host: bool, n: nat)
    requires n <= |history|
    ensures Live(history[..n], host) <= MaxLive(history, host)
  {
    if n == |history| {
      assert history[..n] == history;
    } else {
      MaxLiveBounds(history[..|history| - 1], host, n);
      assert history[..|history| - 1][..n] == history[..n];
    }
  }

  lemma {:induction false} MaxLiveReached(history: seq<Event>, host: bool) returns (n: nat)
    ensures n <= |history| && Live(history[..n], host) == MaxLive(history, host)
  {
    n := |history|;
    assert history[..n] == history;
    if history != [] && MaxLive(history, host) != Live(history, host) {
      n := MaxLiveReached(history[..|history| - 1], host);
      assert history[..|history| - 1][..n] == history[..n];
    }
  }

  lemma MaxLiveIsPeak(history: seq<Event>, host: bool)
    ensures IsPeak(MaxLive(history, host), history, host)
  {
    var n := MaxLiveReached(history, host);
    forall n | 0 <= n <= |history|
      ensures Live(history[..n], host) <= MaxLive(history, host)
    {
      MaxLiveBounds(history, host, n);
    }
  }

  // ----- the counters agree with the history

  function Class(s: Statistics, host: bool): Counters {
    if host then s.host else s.device
  }

  /** Adding to the counters adds to what their difference is congruent to. */
  lemma DifferenceAfterAlloc(a: int, f: int, l: int, d: int, w: nat)
    requires Wrap(a - f, w) == Wrap(l, w)
    ensures Wrap(Wrap(a + d, w) - f, w) == Wrap(l + d, w)
  {
    hide Wrap;
    WrapAbsorbsMinus(a + d, f, w);
    SameWrap(a - f, l, d, w);
  }

  lemma DifferenceAfterFree(a: int, f: int, l: int, d: int, w: nat)
    requires Wrap(a - f, w) == Wrap(l, w)
    ensures Wrap(a - Wrap(f + d, w), w) == Wrap(l - d, w)
  {
    hide Wrap;
    WrapAbsorbsNegated(f + d, a, w);
    SameWrap(a - f, l, -d, w);
  }

  /** Whatever wrapped on the way, the difference of the counters is the live bytes. */
  lemma {:induction false} DifferenceIsLive(history: seq<Event>, w: nat, host: bool)
    requires FreesMatch(history)
    ensures var c := Class(RecordAll(history, w), host);
      Wrap(c.bytesAllocated - c.bytesFreed, w) == Wrap(Live(history, host), w)
  {
    hide Wrap, IsHostLocal, HostClass;
    if history != [] {
      var h, e := history[..|history| - 1], history[|history| - 1];
      HostLocalBits(e.memoryType);
      DifferenceIsLive(h, w, host);
      LiveStep(history, host);
      var c := Class(RecordAll(h, w), host);
      if IsHostLocal(e.memoryType) == host {
        DifferenceAfterAlloc(c.bytesAllocated, c.bytesFreed, Live(h, host), e.size, w);
        DifferenceAfterFree(c.bytesAllocated, c.bytesFreed, Live(h, host), e.size, w);
      }
    }
  }

  lemma {:induction false} PeakIsMaxLive(history: seq<Event>, w: nat, host: bool)
    requires FreesMatch(history)
    ensures Class(RecordAll(history, w), host).bytesPeak < Pow2(w)
    ensures MaxLive(history, host) < Pow2(w) ==> Class(RecordAll(history, w), host).bytesPeak == MaxLive(history, host)
  {
    hide Wrap, IsHostLocal, HostClass, Live, Outstanding;
    if history != [] {
      var h, e := history[..|history| - 1], history[|history| - 1];
      HostLocalBits(e.memoryType);
      PeakIsMaxLive(h, w, host);
      LiveStep(history, host);
      MaxLiveBounds(h, host, |h|);
      assert h[..|h|] == h;
      DifferenceIsLive(history, w, host);
      if Live(history, host) < Pow2(w) { WrapSmall(Live(history, host), w); }
    }
  }

  /** For each class of memory: allocated minus freed is the live bytes if those fit the
      word, and the recorded peak is the true peak if and only if that fits the word,
      however often the cumulative counters wrapped. */
  lemma CountersAgreeWithHistory(history: seq<Event>, w: nat, host: bool, m: nat)
    requires FreesMatch(history) && IsPeak(m, history, host)
    ensures var c := Class(RecordAll(history, w), host);
      && (Wrap(c.bytesAllocated - c.bytesFreed, w) == Live(history, host) <==> Live(history, host) < Pow2(w))
      && (c.bytesPeak == m <==> m < Pow2(w))
  {
    MaxLiveIsPeak(history, host);
    assert m == MaxLive(history, host);
    DifferenceIsLive(history, w, host);
    PeakIsMaxLive(history, w, host);
    if Live(history, host) < Pow2(w) { WrapSmall(Live(history, host), w); }
  }
}
