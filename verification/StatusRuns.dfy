/**
Every run of `Status` and `StatusOr<T>` operations.

A state holds the word of each live `Status`, `iree_status_t` variable and
`StatusOr`, the in-place values, and the payload heap.  A step is one C++
operation.  The theorems say what holds after every finite sequence of steps.
*/
module StatusRuns {
  import opened Options
  import opened StatusWords
  import opened PayloadHeaps

  datatype Slot = Object(id: nat) | Variable(id: nat) | Either(id: nat)

  datatype State<T> = State(
    words: map<Slot, Word>,
    values: map<nat, Cell<T>>,
    heap: Heap,
    lifetimes: Lifetimes)

  /** `Aborted` is the call to `iree_status_abort` in `EnsureNotOk`. */
  datatype Outcome<T> = Running(state: State<T>) | Aborted

  datatype Op<T> =
    | StatusDefault(x: nat)
    | StatusFromVariable(x: nat, r: nat)
    | StatusMove(x: nat, y: nat)
    | StatusMoveAssign(x: nat, y: nat)
    | StatusFromCode(x: nat, code: Code)
    | StatusAssignCode(x: nat, code: Code)
    | StatusMessage(x: nat, code: Code, emptyMessage: bool, storage: Option<nat>)
    | StatusIgnore(x: nat)
    | StatusRelease(x: nat, r: nat)
    | StatusToVariable(x: nat, r: nat)
    | StatusDestroy(x: nat)
    | VariableAllocate(r: nat, code: Code, storage: Option<nat>)
    | VariableFree(r: nat)
    | EitherDefault(o: nat)
    | EitherFromValue(o: nat, value: T)
    | EitherFromStatus(o: nat, x: nat)
    | EitherMove(o: nat, p: nat)
    | EitherAssignValue(o: nat, value: T)
    | EitherAssignStatus(o: nat, x: nat)
    | EitherMoveAssign(o: nat, p: nat)
    | EitherTakeStatus(x: nat, o: nat)
    | EitherDestroy(o: nat)

  function Initial<T>(): State<T> {
    State(map[], map[], EMPTY_HEAP, Lifetimes(0, 0, false))
  }

  // ----- steps

  /** Objects are constructed where none is, and used while they live; the
      allocator returns unused aligned addresses. */
  predicate Enabled<T(!new)>(s: State<T>, op: Op<T>) {
    match op
    case StatusDefault(x) => Object(x) !in s.words
    case StatusFromVariable(x, r) => Object(x) !in s.words && Variable(r) in s.words
    case StatusMove(x, y) => Object(x) !in s.words && Object(y) in s.words
    case StatusMoveAssign(x, y) => Object(x) in s.words && Object(y) in s.words
    case StatusFromCode(x, _) => Object(x) !in s.words
    case StatusAssignCode(x, _) => Object(x) in s.words
    case StatusMessage(x, code, _, storage) =>
      Object(x) !in s.words && (code != OK ==> Allocatable(s.heap, code, storage))
    case StatusIgnore(x) => Object(x) in s.words
    case StatusRelease(x, r) => Object(x) in s.words && Variable(r) !in s.words
    case StatusToVariable(x, r) => Object(x) in s.words && Variable(r) !in s.words
    case StatusDestroy(x) => Object(x) in s.words
    case VariableAllocate(r, code, storage) => Variable(r) !in s.words && Allocatable(s.heap, code, storage)
    case VariableFree(r) => Variable(r) in s.words
    case EitherDefault(o) => Either(o) !in s.words
    case EitherFromValue(o, _) => Either(o) !in s.words
    case EitherFromStatus(o, x) => Either(o) !in s.words && Object(x) in s.words
    case EitherMove(o, p) => Either(o) !in s.words && Either(p) in s.words
    case EitherAssignValue(o, _) => Either(o) in s.words
    case EitherAssignStatus(o, x) => Either(o) in s.words && Object(x) in s.words
    case EitherMoveAssign(o, p) => Either(o) in s.words && Either(p) in s.words
    case EitherTakeStatus(x, o) => Object(x) !in s.words && Either(o) in s.words
    case EitherDestroy(o) => Either(o) in s.words
  }

  function Put<T>(s: State<T>, slot: Slot, word: Word): State<T> {
    s.(words := s.words[slot := word])
  }

  /** The word of `source` goes to `target`; the source keeps its code. */
  function MoveWord<T>(s: State<T>, target: Slot, source: Slot): State<T>
    requires source in s.words
  {
    s.(words := s.words[target := s.words[source]][source := Residue(s.words[source])])
  }

  function FreeWord<T>(s: State<T>, slot: Slot): State<T>
    requires slot in s.words
  {
    s.(heap := Free(s.heap, s.words[slot]))
  }

  function Drop<T>(s: State<T>, slot: Slot): State<T> {
    s.(words := s.words - {slot})
  }

  function PutAllocated<T>(s: State<T>, slot: Slot, code: Code, storage: Option<nat>): State<T> {
    var (heap, word) := Allocate(s.heap, code, storage);
    Put(s.(heap := heap), slot, word)
  }

  function MakeValue<T>(s: State<T>, o: nat, value: Cell<T>): State<T> {
    s.(values := s.values[o := value], lifetimes := s.lifetimes.Construct(o in s.values))
  }

  function DestroyValue<T>(s: State<T>, o: nat): State<T> {
    s.(values := s.values - {o}, lifetimes := s.lifetimes.Destroy(o in s.values))
  }

  predicate OkAt<T>(s: State<T>, slot: Slot) {
    slot in s.words && IsOk(s.words[slot])
  }

  function ClearValue<T>(s: State<T>, o: nat): State<T> {
    if OkAt(s, Either(o)) then DestroyValue(s, o) else s
  }

  function AssignValue<T>(s: State<T>, o: nat, value: Cell<T>): State<T>
    requires Either(o) in s.words
  {
    Put(MakeValue(FreeWord(ClearValue(s, o), Either(o)), o, value), Either(o), FromCode(OK))
  }

  function AssignWord<T>(s: State<T>, o: nat, source: Slot): State<T>
    requires Either(o) in s.words && source in s.words
  {
    MoveWord(FreeWord(ClearValue(s, o), Either(o)), Either(o), source)
  }

  /** The value at `o`, taken by a move. */
  function ValueAt<T>(s: State<T>, o: nat): Cell<T> {
    if o in s.values then s.values[o] else MovedFrom
  }

  function MoveOut<T>(s: State<T>, o: nat): State<T> {
    s.(values := s.values[o := MovedFrom])
  }

  function MoveEither<T>(s: State<T>, o: nat, p: nat): State<T>
    requires Either(p) in s.words
  {
    if OkAt(s, Either(p)) then Put(MakeValue(MoveOut(s, p), o, ValueAt(s, p)), Either(o), FromCode(OK))
    else MoveWord(s, Either(o), Either(p))
  }

  function MoveAssignEither<T>(s: State<T>, o: nat, p: nat): State<T>
    requires Either(o) in s.words && Either(p) in s.words
  {
    if o == p then s
    else if OkAt(s, Either(p)) then AssignValue(MoveOut(s, p), o, ValueAt(s, p))
    else AssignWord(s, o, Either(p))
  }

  function TakeWord<T>(s: State<T>, x: nat, o: nat): State<T>
    requires Either(o) in s.words
  {
    if OkAt(s, Either(o)) then Put(s, Object(x), FromCode(OK)) else MoveWord(s, Object(x), Either(o))
  }

  function DestroyEither<T>(s: State<T>, o: nat): State<T>
    requires Either(o) in s.words
  {
    Drop(FreeWord(ClearValue(s, o), Either(o)), Either(o))
  }

  function Step<T(!new)>(s: State<T>, op: Op<T>): Outcome<T>
    requires Enabled(s, op)
  {
    match op
    case StatusDefault(x) => Running(Put(s, Object(x), FromCode(OK)))
    case StatusFromVariable(x, r) => Running(MoveWord(s, Object(x), Variable(r)))
    case StatusMove(x, y) => Running(MoveWord(s, Object(x), Object(y)))
    case StatusMoveAssign(x, y) =>
      Running(if x == y then s else MoveWord(FreeWord(s, Object(x)), Object(x), Object(y)))
    case StatusFromCode(x, code) => Running(Put(s, Object(x), FromCode(code)))
    case StatusAssignCode(x, code) => Running(Put(FreeWord(s, Object(x)), Object(x), FromCode(code)))
    case StatusMessage(x, code, emptyMessage, storage) =>
      Running(if code == OK then Put(s, Object(x), FromCode(OK))
              else PutAllocated(s, Object(x), code, if emptyMessage then None else storage))
    case StatusIgnore(x) => Running(Put(FreeWord(s, Object(x)), Object(x), FromCode(OK)))
    case StatusRelease(x, r) => Running(Put(MoveWord(s, Variable(r), Object(x)), Object(x), FromCode(OK)))
    case StatusToVariable(x, r) => Running(MoveWord(s, Variable(r), Object(x)))
    case StatusDestroy(x) => Running(Drop(FreeWord(s, Object(x)), Object(x)))
    case VariableAllocate(r, code, storage) => Running(PutAllocated(s, Variable(r), code, storage))
    case VariableFree(r) => Running(Drop(FreeWord(s, Variable(r)), Variable(r)))
    case EitherDefault(o) => Running(Put(s, Either(o), FromCode(UNKNOWN)))
    case EitherFromValue(o, value) => Running(Put(MakeValue(s, o, Full(value)), Either(o), FromCode(OK)))
    case EitherFromStatus(o, x) =>
      if OkAt(s, Object(x)) then Aborted else Running(MoveWord(s, Either(o), Object(x)))
    case EitherMove(o, p) => Running(MoveEither(s, o, p))
    case EitherAssignValue(o, value) => Running(AssignValue(s, o, Full(value)))
    case EitherAssignStatus(o, x) =>
      if OkAt(s, Object(x)) then Aborted else Running(AssignWord(s, o, Object(x)))
    case EitherMoveAssign(o, p) => Running(MoveAssignEither(s, o, p))
    case EitherTakeStatus(x, o) => Running(TakeWord(s, x, o))
    case EitherDestroy(o) => Running(DestroyEither(s, o))
  }

  /** `ops`, each enabled in turn, lead from `s` to `out`; nothing follows an abort. */
  ghost predicate Leads<T(!new)>(s: State<T>, ops: seq<Op<T>>, out: Outcome<T>)
    decreases |ops|
  {
    if ops == [] then out == Running(s)
    else
      && Enabled(s, ops[0])
      && var next := Step(s, ops[0]);
         if next.Aborted? then |ops| == 1 && out == Aborted else Leads(next.state, ops[1..], out)
  }

  // ----- the invariant

  /** The payload address in each slot, zero for none. */
  function Addresses(words: map<Slot, Word>): map<Slot, nat> {
    map s | s in words :: words[s].address
  }

  predicate Holds(addresses: map<Slot, nat>, slot: Slot, a: nat) {
    slot in addresses && addresses[slot] == a
  }

  /** Live blocks have distinct allocation numbers, and an allocation was freed
      once if it is no longer live and never otherwise. */
  ghost predicate HeapInvariant(h: Heap) {
    && !h.fault
    && (forall a :: a in h.live ==> a > 0 && h.live[a] < |h.frees| && h.frees[h.live[a]] == 0)
    && (forall a, b :: a in h.live && b in h.live && a != b ==> h.live[a] != h.live[b])
    && (forall i :: 0 <= i < |h.frees| && h.frees[i] != 1 ==> h.frees[i] == 0 && Numbers(h.live, i))
  }

  /** Allocation `i` is live. */
  ghost predicate Numbers(live: map<nat, nat>, i: nat) {
    exists a :: a in live && live[a] == i
  }

  /** Every live block is in exactly one slot and every address in a slot is live. */
  ghost predicate Owned(m: map<Slot, nat>, live: set<nat>) {
    && (forall s :: s in m && m[s] != 0 ==> m[s] in live)
    && (forall s, t :: s in m && t in m && s != t && m[s] == m[t] ==> m[s] == 0)
    && (forall a :: a in live ==> a > 0 && exists s :: Holds(m, s, a))
  }

  predicate AllWellFormed(words: map<Slot, Word>) {
    forall s :: s in words ==> WellFormed(words[s])
  }

  ghost predicate OwnershipInvariant(words: map<Slot, Word>, h: Heap) {
    && HeapInvariant(h)
    && Owned(Addresses(words), h.live.Keys)
    && AllWellFormed(words)
  }

  /** A value is alive exactly where a `StatusOr` is OK, and the counts agree. */
  ghost predicate ValueInvariant<T>(s: State<T>) {
    && (forall o :: o in s.values <==> OkAt(s, Either(o)))
    && !s.lifetimes.fault
    && s.lifetimes.constructed == s.lifetimes.destroyed + |s.values|
  }

  ghost predicate Invariant<T>(s: State<T>) {
    OwnershipInvariant(s.words, s.heap) && ValueInvariant(s)
  }

  lemma InitialInvariant<T>()
    ensures Invariant(Initial<T>())
  {
  }

  // ----- ownership, primitive by primitive

  lemma OwnedPutNone(m: map<Slot, nat>, live: set<nat>, slot: Slot)
    requires Owned(m, live) && (slot in m ==> m[slot] == 0)
    ensures Owned(m[slot := 0], live)
  {
    var m' := m[slot := 0];
    forall a | a in live
      ensures exists s :: Holds(m', s, a)
    {
      var s :| Holds(m, s, a);
      assert Holds(m', s, a);
    }
  }

  lemma OwnedMove(m: map<Slot, nat>, live: set<nat>, target: Slot, source: Slot)
    requires Owned(m, live) && source in m && target != source && (target in m ==> m[target] == 0)
    ensures Owned(m[target := m[source]][source := 0], live)
  {
    var m' := m[target := m[source]][source := 0];
    forall a | a in live
      ensures exists s :: Holds(m', s, a)
    {
      var s :| Holds(m, s, a);
      assert Holds(m', if s == source then target else s, a);
    }
  }

  lemma OwnedFree(m: map<Slot, nat>, live: set<nat>, slot: Slot)
    requires Owned(m, live) && slot in m
    ensures Owned(m[slot := 0], live - {m[slot]})
  {
    var m' := m[slot := 0];
    forall a | a in live - {m[slot]}
      ensures exists s :: Holds(m', s, a)
    {
      var s :| Holds(m, s, a);
      assert Holds(m', s, a);
    }
  }

  lemma OwnedDrop(m: map<Slot, nat>, live: set<nat>, slot: Slot)
    requires Owned(m, live) && slot in m && m[slot] == 0
    ensures Owned(m - {slot}, live)
  {
    var m' := m - {slot};
    forall a | a in live
      ensures exists s :: Holds(m', s, a)
    {
      var s :| Holds(m, s, a);
      assert Holds(m', s, a);
    }
  }

  lemma OwnedAllocate(m: map<Slot, nat>, live: set<nat>, slot: Slot, address: nat)
    requires Owned(m, live) && slot !in m && address > 0 && address !in live
    ensures Owned(m[slot := address], live + {address})
  {
    var m' := m[slot := address];
    assert Holds(m', slot, address);
    forall a | a in live
      ensures exists s :: Holds(m', s, a)
    {
      var s :| Holds(m, s, a);
      assert Holds(m', s, a);
    }
  }

  lemma NumbersAfterFree(live: map<nat, nat>, address: nat, i: nat)
    requires address in live && live[address] != i && Numbers(live, i)
    ensures Numbers(live - {address}, i)
  {
    var a :| a in live && live[a] == i;
    assert a in live - {address};
  }

  lemma NumbersAfterAllocate(live: map<nat, nat>, address: nat, n: nat, i: nat)
    requires address !in live && (i == n || Numbers(live, i))
    ensures Numbers(live[address := n], i)
  {
    if i == n {
      assert live[address := n][address] == i;
    } else {
      var a :| a in live && live[a] == i;
      assert a in live[address := n];
    }
  }

  lemma HeapFree(h: Heap, word: Word)
    requires HeapInvariant(h) && (word.address != 0 ==> word.address in h.live)
    ensures HeapInvariant(Free(h, word))
    ensures Free(h, word).live.Keys == h.live.Keys - {word.address}
  {
    hide Numbers;
    var address, h' := word.address, Free(h, word);
    if address != 0 {
      forall i | 0 <= i < |h'.frees| && h'.frees[i] != 1
        ensures h'.frees[i] == 0 && Numbers(h'.live, i)
      {
        NumbersAfterFree(h.live, address, i);
      }
    }
  }

  lemma HeapAllocate(h: Heap, address: nat)
    requires HeapInvariant(h) && address > 0 && address !in h.live
    ensures HeapInvariant(h.(live := h.live[address := |h.frees|], frees := h.frees + [0]))
  {
    hide Numbers;
    var h' := h.(live := h.live[address := |h.frees|], frees := h.frees + [0]);
    forall i | 0 <= i < |h'.frees| && h'.frees[i] != 1
      ensures h'.frees[i] == 0 && Numbers(h'.live, i)
    {
      NumbersAfterAllocate(h.live, address, |h.frees|, i);
    }
  }

  // ----- the same for words

  lemma AddressesPut(words: map<Slot, Word>, slot: Slot, word: Word)
    ensures Addresses(words[slot := word]) == Addresses(words)[slot := word.address]
  {
  }

  lemma PutCode(words: map<Slot, Word>, h: Heap, slot: Slot, word: Word)
    requires OwnershipInvariant(words, h)
    requires slot in words ==> words[slot].address == 0
    requires word == FromCode(word.code)
    ensures OwnershipInvariant(words[slot := word], h)
  {
    OwnedPutNone(Addresses(words), h.live.Keys, slot);
    AddressesPut(words, slot, word);
  }

  lemma MoveKeepsOwnership(words: map<Slot, Word>, h: Heap, target: Slot, source: Slot)
    requires OwnershipInvariant(words, h) && source in words && target != source
    requires target in words ==> words[target].address == 0
    ensures OwnershipInvariant(words[target := words[source]][source := Residue(words[source])], h)
  {
    OwnedMove(Addresses(words), h.live.Keys, target, source);
    AddressesPut(words, target, words[source]);
    AddressesPut(words[target := words[source]], source, Residue(words[source]));
  }

  lemma FreeThenPut(words: map<Slot, Word>, h: Heap, slot: Slot, word: Word)
    requires OwnershipInvariant(words, h) && slot in words && word == FromCode(word.code)
    ensures OwnershipInvariant(words[slot := word], Free(h, words[slot]))
  {
    assert Addresses(words)[slot] == words[slot].address;
    HeapFree(h, words[slot]);
    OwnedFree(Addresses(words), h.live.Keys, slot);
    AddressesPut(words, slot, word);
  }

  lemma FreeThenDrop(words: map<Slot, Word>, h: Heap, slot: Slot)
    requires OwnershipInvariant(words, h) && slot in words
    ensures OwnershipInvariant(words - {slot}, Free(h, words[slot]))
  {
    assert Addresses(words)[slot] == words[slot].address;
    HeapFree(h, words[slot]);
    var m, live := Addresses(words), h.live.Keys;
    OwnedFree(m, live, slot);
    OwnedDrop(m[slot := 0], live - {m[slot]}, slot);
    assert Addresses(words - {slot}) == m[slot := 0] - {slot};
  }

  lemma FreeThenMove(words: map<Slot, Word>, h: Heap, target: Slot, source: Slot)
    requires OwnershipInvariant(words, h) && source in words && target in words && target != source
    ensures OwnershipInvariant(words[target := words[source]][source := Residue(words[source])], Free(h, words[target]))
  {
    FreeThenPut(words, h, target, FromCode(OK));
    MoveKeepsOwnership(words[target := FromCode(OK)], Free(h, words[target]), target, source);
    assert words[target := FromCode(OK)][target := words[source]] == words[target := words[source]];
  }

  lemma AllocateKeepsOwnership(words: map<Slot, Word>, h: Heap, slot: Slot, code: Code, storage: Option<nat>)
    requires OwnershipInvariant(words, h) && slot !in words && Allocatable(h, code, storage)
    ensures var (h', word) := Allocate(h, code, storage); OwnershipInvariant(words[slot := word], h')
  {
    if storage.None? {
      PutCode(words, h, slot, FromCode(code));
    } else {
      var address := storage.value;
      HeapAllocate(h, address);
      OwnedAllocate(Addresses(words), h.live.Keys, slot, address);
      AddressesPut(words, slot, Word(address, code));
      assert h.live[address := |h.frees|].Keys == h.live.Keys + {address};
    }
  }

  // ----- every step keeps the invariant

  /** The operations that construct, assign, move or destroy a `StatusOr`. */
  predicate OnEither<T>(op: Op<T>) {
    || op.EitherDefault? || op.EitherFromValue? || op.EitherFromStatus? || op.EitherMove?
    || op.EitherAssignValue? || op.EitherAssignStatus? || op.EitherMoveAssign? || op.EitherDestroy?
  }

  lemma StatusStepKeepsOwnership<T(!new)>(s: State<T>, op: Op<T>)
    requires Invariant(s) && Enabled(s, op) && Step(s, op).Running? && !OnEither(op)
    ensures var s' := Step(s, op).state; OwnershipInvariant(s'.words, s'.heap)
  {
    hide ValueInvariant, HeapInvariant, Owned, AllWellFormed, Free, Allocate;
    match op
    case StatusDefault(x) => PutCode(s.words, s.heap, Object(x), FromCode(OK));
    case StatusFromVariable(x, r) => MoveKeepsOwnership(s.words, s.heap, Object(x), Variable(r));
    case StatusMove(x, y) => MoveKeepsOwnership(s.words, s.heap, Object(x), Object(y));
    case StatusMoveAssign(x, y) => if x != y { FreeThenMove(s.words, s.heap, Object(x), Object(y)); }
    case StatusFromCode(x, code) => PutCode(s.words, s.heap, Object(x), FromCode(code));
    case StatusAssignCode(x, code) => FreeThenPut(s.words, s.heap, Object(x), FromCode(code));
    case StatusMessage(x, code, emptyMessage, storage) =>
      if code == OK { PutCode(s.words, s.heap, Object(x), FromCode(OK)); }
      else { AllocateKeepsOwnership(s.words, s.heap, Object(x), code, if emptyMessage then None else storage); }
    case StatusIgnore(x) => FreeThenPut(s.words, s.heap, Object(x), FromCode(OK));
    case StatusRelease(x, r) =>
      MoveKeepsOwnership(s.words, s.heap, Variable(r), Object(x));
      PutCode(MoveWord(s, Variable(r), Object(x)).words, s.heap, Object(x), FromCode(OK));
    case StatusToVariable(x, r) => MoveKeepsOwnership(s.words, s.heap, Variable(r), Object(x));
    case StatusDestroy(x) => FreeThenDrop(s.words, s.heap, Object(x));
    case VariableAllocate(r, code, storage) => AllocateKeepsOwnership(s.words, s.heap, Variable(r), code, storage);
    case VariableFree(r) => FreeThenDrop(s.words, s.heap, Variable(r));
    case EitherTakeStatus(x, o) =>
      if OkAt(s, Either(o)) { PutCode(s.words, s.heap, Object(x), FromCode(OK)); }
      else { MoveKeepsOwnership(s.words, s.heap, Object(x), Either(o)); }
  }

  lemma EitherMoveKeepsOwnership<T>(s: State<T>, o: nat, p: nat)
    requires Invariant(s) && Either(o) !in s.words && Either(p) in s.words
    ensures var s' := MoveEither(s, o, p); OwnershipInvariant(s'.words, s'.heap)
  {
    hide ValueInvariant, HeapInvariant, Owned, AllWellFormed, Free;
    if OkAt(s, Either(p)) { PutCode(s.words, s.heap, Either(o), FromCode(OK)); }
    else { MoveKeepsOwnership(s.words, s.heap, Either(o), Either(p)); }
  }

  lemma EitherMoveAssignKeepsOwnership<T>(s: State<T>, o: nat, p: nat)
    requires Invariant(s) && Either(o) in s.words && Either(p) in s.words
    ensures var s' := MoveAssignEither(s, o, p); OwnershipInvariant(s'.words, s'.heap)
  {
    hide ValueInvariant, HeapInvariant, Owned, AllWellFormed, Free;
    if o == p { }
    else if OkAt(s, Either(p)) { FreeThenPut(s.words, s.heap, Either(o), FromCode(OK)); }
    else { FreeThenMove(s.words, s.heap, Either(o), Either(p)); }
  }

  lemma EitherStepKeepsOwnership<T(!new)>(s: State<T>, op: Op<T>)
    requires Invariant(s) && Enabled(s, op) && Step(s, op).Running? && OnEither(op)
    ensures var s' := Step(s, op).state; OwnershipInvariant(s'.words, s'.heap)
  {
    hide ValueInvariant, HeapInvariant, Owned, AllWellFormed, Free, Allocate, MoveEither, MoveAssignEither;
    match op
    case EitherDefault(o) => PutCode(s.words, s.heap, Either(o), FromCode(UNKNOWN));
    case EitherFromValue(o, _) => PutCode(s.words, s.heap, Either(o), FromCode(OK));
    case EitherFromStatus(o, x) => MoveKeepsOwnership(s.words, s.heap, Either(o), Object(x));
    case EitherMove(o, p) => EitherMoveKeepsOwnership(s, o, p);
    case EitherAssignValue(o, _) => FreeThenPut(s.words, s.heap, Either(o), FromCode(OK));
    case EitherAssignStatus(o, x) => FreeThenMove(s.words, s.heap, Either(o), Object(x));
    case EitherMoveAssign(o, p) => EitherMoveAssignKeepsOwnership(s, o, p);
    case EitherDestroy(o) => FreeThenDrop(s.words, s.heap, Either(o));
  }

  /** Only the words of `StatusOr` objects matter to the values. */
  lemma SameEithers<T>(s: State<T>, s': State<T>)
    requires ValueInvariant(s) && s'.values == s.values && s'.lifetimes == s.lifetimes
    requires forall o :: OkAt(s', Either(o)) <==> OkAt(s, Either(o))
    ensures ValueInvariant(s')
  {
  }

  lemma StepKeepsStatusValues<T(!new)>(s: State<T>, op: Op<T>)
    requires ValueInvariant(s) && AllWellFormed(s.words) && Enabled(s, op) && Step(s, op).Running?
    requires !OnEither(op)
    ensures ValueInvariant(Step(s, op).state)
  {
    SameEithers(s, Step(s, op).state);
  }

  lemma MakeKeepsValues<T>(s: State<T>, o: nat, value: Cell<T>, s': State<T>)
    requires ValueInvariant(s) && o !in s.values
    requires s'.values == s.values[o := value] && s'.lifetimes == s.lifetimes.Construct(false)
    requires forall p :: OkAt(s', Either(p)) <==> p == o || OkAt(s, Either(p))
    ensures ValueInvariant(s')
  {
  }

  lemma DestroyKeepsValues<T>(s: State<T>, o: nat, s': State<T>)
    requires ValueInvariant(s) && o in s.values
    requires s'.values == s.values - {o} && s'.lifetimes == s.lifetimes.Destroy(true)
    requires forall p :: OkAt(s', Either(p)) <==> p != o && OkAt(s, Either(p))
    ensures ValueInvariant(s')
  {
    assert s'.values.Keys == s.values.Keys - {o};
  }

  /** Clearing, with the status then set to some error. */
  lemma ClearKeepsValues<T>(s: State<T>, o: nat, s': State<T>)
    requires ValueInvariant(s)
    requires s'.values == ClearValue(s, o).values && s'.lifetimes == ClearValue(s, o).lifetimes
    requires forall p :: OkAt(s', Either(p)) <==> p != o && OkAt(s, Either(p))
    ensures ValueInvariant(s')
  {
    if o in s.values { DestroyKeepsValues(s, o, s'); } else { SameEithers(s, s'); }
  }

  lemma AssignKeepsValues<T>(s: State<T>, o: nat, value: Cell<T>)
    requires ValueInvariant(s) && Either(o) in s.words
    ensures ValueInvariant(AssignValue(s, o, value))
  {
    hide Free;
    var cleared := Put(ClearValue(s, o), Either(o), FromCode(UNKNOWN));
    ClearKeepsValues(s, o, cleared);
    MakeKeepsValues(cleared, o, value, AssignValue(s, o, value));
  }

  lemma AssignWordKeepsValues<T>(s: State<T>, o: nat, source: Slot)
    requires ValueInvariant(s) && AllWellFormed(s.words) && Either(o) in s.words && source in s.words
    requires !OkAt(s, source) && source != Either(o)
    ensures ValueInvariant(AssignWord(s, o, source))
  {
    ClearKeepsValues(s, o, AssignWord(s, o, source));
  }

  lemma MoveOutKeepsValues<T>(s: State<T>, p: nat)
    requires ValueInvariant(s) && p in s.values
    ensures ValueInvariant(MoveOut(s, p)) && MoveOut(s, p).values.Keys == s.values.Keys
  {
  }

  /** Moving from an ill-formed word leaves an OK source without a value; every other
      move keeps a value exactly where a `StatusOr` is OK. */
  lemma MoveKeepsValuesIff<T(!new)>(s: State<T>, o: nat, p: nat)
    requires ValueInvariant(s) && Enabled(s, EitherMove(o, p))
    ensures ValueInvariant(Step(s, EitherMove(o, p)).state) <==> WellFormed(s.words[Either(p)])
  {
    var s' := Step(s, EitherMove(o, p)).state;
    if OkAt(s, Either(p)) {
      MoveOutKeepsValues(s, p);
      MakeKeepsValues(MoveOut(s, p), o, ValueAt(s, p), s');
    } else if WellFormed(s.words[Either(p)]) {
      SameEithers(s, s');
    } else {
      assert OkAt(s', Either(p)) && p !in s'.values;
    }
  }

  lemma MoveAssignKeepsValues<T(!new)>(s: State<T>, o: nat, p: nat)
    requires ValueInvariant(s) && AllWellFormed(s.words) && Enabled(s, EitherMoveAssign(o, p))
    ensures ValueInvariant(Step(s, EitherMoveAssign(o, p)).state)
  {
    if o == p {
    } else if OkAt(s, Either(p)) {
      MoveOutKeepsValues(s, p);
      AssignKeepsValues(MoveOut(s, p), o, ValueAt(s, p));
    } else {
      AssignWordKeepsValues(s, o, Either(p));
    }
  }

  lemma NewEitherKeepsValues<T>(s: State<T>, o: nat, word: Word)
    requires ValueInvariant(s) && Either(o) !in s.words && !IsOk(word)
    ensures ValueInvariant(Put(s, Either(o), word))
  {
    SameEithers(s, Put(s, Either(o), word));
  }

  lemma FromValueKeepsValues<T>(s: State<T>, o: nat, value: Cell<T>)
    requires ValueInvariant(s) && Either(o) !in s.words
    ensures ValueInvariant(Put(MakeValue(s, o, value), Either(o), FromCode(OK)))
  {
    assert o !in s.values;
    MakeKeepsValues(s, o, value, Put(MakeValue(s, o, value), Either(o), FromCode(OK)));
  }

  lemma FromStatusKeepsValues<T>(s: State<T>, o: nat, x: nat)
    requires ValueInvariant(s) && Either(o) !in s.words && Object(x) in s.words && !IsOk(s.words[Object(x)])
    ensures ValueInvariant(MoveWord(s, Either(o), Object(x)))
  {
    SameEithers(s, MoveWord(s, Either(o), Object(x)));
  }

  lemma DestroyEitherKeepsValues<T>(s: State<T>, o: nat)
    requires ValueInvariant(s) && Either(o) in s.words
    ensures ValueInvariant(DestroyEither(s, o))
  {
    hide Free;
    ClearKeepsValues(s, o, DestroyEither(s, o));
  }

  lemma StepKeepsEitherValues<T(!new)>(s: State<T>, op: Op<T>)
    requires ValueInvariant(s) && AllWellFormed(s.words) && Enabled(s, op) && Step(s, op).Running?
    requires OnEither(op)
    ensures ValueInvariant(Step(s, op).state)
  {
    hide ValueInvariant, Put, MakeValue, MoveWord, AssignValue, AssignWord, MoveEither, MoveAssignEither, DestroyEither;
    match op
    case EitherDefault(o) => NewEitherKeepsValues(s, o, FromCode(UNKNOWN));
    case EitherFromValue(o, value) => FromValueKeepsValues(s, o, Full(value));
    case EitherFromStatus(o, x) => FromStatusKeepsValues(s, o, x);
    case EitherMove(o, p) => MoveKeepsValuesIff(s, o, p);
    case EitherAssignValue(o, value) => AssignKeepsValues(s, o, Full(value));
    case EitherAssignStatus(o, x) => AssignWordKeepsValues(s, o, Object(x));
    case EitherMoveAssign(o, p) => MoveAssignKeepsValues(s, o, p);
    case EitherDestroy(o) => DestroyEitherKeepsValues(s, o);
  }

  lemma StepKeepsInvariant<T(!new)>(s: State<T>, op: Op<T>)
    requires Invariant(s) && Enabled(s, op) && Step(s, op).Running?
    ensures Invariant(Step(s, op).state)
  {
    if OnEither(op) {
      EitherStepKeepsOwnership(s, op);
      StepKeepsEitherValues(s, op);
    } else {
      StatusStepKeepsOwnership(s, op);
      StepKeepsStatusValues(s, op);
    }
  }

  /** Every state a run reaches satisfies the invariant. */
  lemma {:induction false} RunsKeepInvariant<T(!new)>(s: State<T>, ops: seq<Op<T>>, out: Outcome<T>)
    requires Invariant(s) && Leads(s, ops, out)
    ensures out.Running? ==> Invariant(out.state)
    decreases |ops|
  {
    if ops != [] && Step(s, ops[0]).Running? {
      StepKeepsInvariant(s, ops[0]);
      RunsKeepInvariant(Step(s, ops[0]).state, ops[1..], out);
    }
  }

  // ----- what every run guarantees

  /** The `StatusOr` objects that are alive and OK. */
  function OkEithers<T>(s: State<T>): set<nat> {
    set slot | slot in s.words && slot.Either? && IsOk(s.words[slot]) :: slot.id
  }

  /**
  No payload was freed twice or after its block was gone; each payload in a word is
  live and in that word only; `ok()` and `code() == kOk` agree; and a value is alive
  in exactly the OK `StatusOr` objects, which is the balance of the counts.
  */
  ghost predicate Safe<T>(s: State<T>) {
    && !s.heap.fault && (forall i :: 0 <= i < |s.heap.frees| ==> s.heap.frees[i] <= 1)
    && (forall x :: x in s.words && s.words[x].address != 0 ==> s.words[x].address in s.heap.live)
    && (forall x, y :: x in s.words && y in s.words && s.words[x].address == s.words[y].address != 0 ==> x == y)
    && (forall x :: x in s.words ==> (IsOk(s.words[x]) <==> s.words[x].code == OK))
    && !s.lifetimes.fault && s.values.Keys == OkEithers(s)
    && s.lifetimes.constructed - s.lifetimes.destroyed == |OkEithers(s)|
  }

  lemma InvariantIsSafe<T>(s: State<T>)
    requires Invariant(s)
    ensures Safe(s)
  {
    PayloadsOwned(s.words, s.heap);
    assert forall o :: o in OkEithers(s) <==> OkAt(s, Either(o));
    assert s.values.Keys == OkEithers(s);
  }

  lemma PayloadsOwned(words: map<Slot, Word>, h: Heap)
    requires Owned(Addresses(words), h.live.Keys)
    ensures forall x :: x in words && words[x].address != 0 ==> words[x].address in h.live
    ensures forall x, y :: x in words && y in words && words[x].address == words[y].address != 0 ==> x == y
  {
    var m := Addresses(words);
    assert forall x :: x in words ==> m[x] == words[x].address;
  }

  /** Every state that a run reaches from the empty program is safe. */
  lemma RunsAreSafe<T(!new)>(ops: seq<Op<T>>, s: State<T>)
    requires Leads(Initial(), ops, Running(s))
    ensures Safe(s)
  {
    RunsKeepInvariant(Initial(), ops, Running(s));
    InvariantIsSafe(s);
  }

  /** Once no word holds a payload, every payload ever allocated was freed exactly once. */
  lemma PayloadsFreedExactlyOnce<T(!new)>(ops: seq<Op<T>>, s: State<T>)
    requires Leads(Initial(), ops, Running(s))
    requires forall x :: x in s.words ==> s.words[x].address == 0
    ensures s.heap.live == map[]
    ensures forall i :: 0 <= i < |s.heap.frees| ==> s.heap.frees[i] == 1
  {
    RunsKeepInvariant(Initial(), ops, Running(s));
    NoneHeld(s);
  }

  lemma NoneHeld<T>(s: State<T>)
    requires Invariant(s)
    requires forall x :: x in s.words ==> s.words[x].address == 0
    ensures s.heap.live == map[]
  {
    var m := Addresses(s.words);
    assert forall a, x :: Holds(m, x, a) ==> a == 0;
    assert s.heap.live.Keys == {};
  }
}
