/**
What each operation on `Status` and `StatusOr` does, said once for all of them: an
operation has a target and, if it moves, a source.  The target takes the word of the
source, which keeps its code, or is given a word; the payload that the target held is
freed and nothing else is; all other objects stay as they were.
*/
module StatusEffects {
  import opened Options
  import opened StatusWords
  import opened PayloadHeaps
  import opened StatusRuns

  /** The object that an operation constructs, changes or destroys, or moves into. */
  function Target<T>(op: Op<T>): Slot {
    match op
    case StatusRelease(_, r) => Variable(r)
    case StatusToVariable(_, r) => Variable(r)
    case VariableAllocate(r, _, _) => Variable(r)
    case VariableFree(r) => Variable(r)
    case EitherDefault(o) => Either(o)
    case EitherFromValue(o, _) => Either(o)
    case EitherFromStatus(o, _) => Either(o)
    case EitherMove(o, _) => Either(o)
    case EitherAssignValue(o, _) => Either(o)
    case EitherAssignStatus(o, _) => Either(o)
    case EitherMoveAssign(o, _) => Either(o)
    case EitherDestroy(o) => Either(o)
    case _ => Object(op.x)
  }

  /** The object that it moves from. */
  function Source<T>(op: Op<T>): Option<Slot> {
    match op
    case StatusFromVariable(_, r) => Some(Variable(r))
    case StatusMove(_, y) => Some(Object(y))
    case StatusMoveAssign(_, y) => Some(Object(y))
    case StatusRelease(x, _) => Some(Object(x))
    case StatusToVariable(x, _) => Some(Object(x))
    case EitherFromStatus(_, x) => Some(Object(x))
    case EitherMove(_, p) => Some(Either(p))
    case EitherAssignStatus(_, x) => Some(Object(x))
    case EitherMoveAssign(_, p) => Some(Either(p))
    case EitherTakeStatus(_, o) => Some(Either(o))
    case _ => None
  }

  predicate Destroys<T>(op: Op<T>) { op.StatusDestroy? || op.VariableFree? || op.EitherDestroy? }

  /** The operations that change an object which must exist already. */
  predicate Changes<T>(op: Op<T>) {
    || op.StatusMoveAssign? || op.StatusAssignCode? || op.StatusIgnore?
    || op.EitherAssignValue? || op.EitherAssignStatus? || op.EitherMoveAssign?
  }

  /** The word given to the target of an operation that does not move. */
  function Given<T>(op: Op<T>): Word {
    match op
    case StatusFromCode(_, code) => Word(0, code)
    case StatusAssignCode(_, code) => Word(0, code)
    case StatusMessage(_, code, emptyMessage, storage) =>
      Word(if code == OK || emptyMessage || storage.None? then 0 else storage.value, code)
    case VariableAllocate(_, code, storage) => Word(if storage.None? then 0 else storage.value, code)
    case EitherDefault(_) => Word(0, UNKNOWN)
    case _ => Word(0, OK)
  }

  // ----- words

  ghost predicate WordsEffect<T>(s: State<T>, op: Op<T>, s': State<T>) {
    var target := Target(op);
    && (forall slot :: slot != target && Some(slot) != Source(op) ==> (slot in s'.words <==> slot in s.words))
    && (forall slot :: slot != target && Some(slot) != Source(op) && slot in s.words ==>
          s'.words[slot] == s.words[slot])
    && (target in s'.words <==> !Destroys(op))
    && match Source(op)
       case None => !Destroys(op) ==> s'.words[target] == Given(op)
       case Some(source) =>
         && source in s.words && source in s'.words
         && target in s'.words && s'.words[target] == s.words[source]
         && (source != target ==> s'.words[source] == Word(0, if op.StatusRelease? then OK else s.words[source].code))
  }

  lemma StatusMoveWords<T(!new)>(s: State<T>, op: Op<T>)
    requires Enabled(s, op) && Step(s, op).Running? && Source(op).Some? && !OnEither(op)
    ensures WordsEffect(s, op, Step(s, op).state)
  {
    hide Free;
  }

  lemma StatusGivenWords<T(!new)>(s: State<T>, op: Op<T>)
    requires Enabled(s, op) && Step(s, op).Running? && Source(op).None? && !OnEither(op)
    ensures WordsEffect(s, op, Step(s, op).state)
  {
    hide Free, Allocatable;
  }

  lemma EitherMoveWords<T(!new)>(s: State<T>, op: Op<T>)
    requires Enabled(s, op) && Step(s, op).Running? && Source(op).Some? && OnEither(op)
    ensures WordsEffect(s, op, Step(s, op).state)
  {
    hide Free, DestroyEither;
  }

  lemma EitherGivenWords<T(!new)>(s: State<T>, op: Op<T>)
    requires Enabled(s, op) && Step(s, op).Running? && Source(op).None? && OnEither(op)
    ensures WordsEffect(s, op, Step(s, op).state)
  {
    hide Free, MoveEither, MoveAssignEither, AssignWord, MoveWord;
  }

  lemma StepWordsEffect<T(!new)>(s: State<T>, op: Op<T>)
    requires Enabled(s, op) && Step(s, op).Running?
    ensures WordsEffect(s, op, Step(s, op).state)
  {
    hide Step, Enabled, WordsEffect, OnEither, Source;
    if OnEither(op) {
      if Source(op).Some? { EitherMoveWords(s, op); } else { EitherGivenWords(s, op); }
    } else {
      if Source(op).Some? { StatusMoveWords(s, op); } else { StatusGivenWords(s, op); }
    }
  }

  /** Every object that lives on keeps its code, but for the target and a released source; the
      target of a move has the word its source had, and the source has no payload then. */
  ghost predicate KeepsCodes<T>(words: map<Slot, Word>, op: Op<T>, words': map<Slot, Word>) {
    && (forall slot :: slot in words && slot in words' && slot != Target(op) ==>
          words'[slot].code == if op.StatusRelease? && slot == Object(op.x) then OK else words[slot].code)
    && (Source(op).Some? ==>
          var target, source := Target(op), Source(op).value;
          && source in words && source in words' && target in words'
          && words'[target] == words[source]
          && (source != target ==> words'[source].address == 0))
  }

  lemma MovesKeepCodes<T(!new)>(s: State<T>, op: Op<T>)
    requires Enabled(s, op) && Step(s, op).Running?
    ensures KeepsCodes(s.words, op, Step(s, op).state.words)
  {
    hide Step, Enabled;
    StepWordsEffect(s, op);
  }

  // ----- payloads

  /** `h'` is `h` with the block at `replaced` freed, if that is not zero, and a new block at
      `added`, if that is not zero. */
  ghost predicate HeapEffect(h: Heap, h': Heap, replaced: nat, added: nat) {
    && h'.fault == h.fault
    && h'.live.Keys == h.live.Keys - {replaced} + (if added == 0 then {} else {added})
    && (forall a :: a in h.live && a != replaced && a != added ==> h'.live[a] == h.live[a])
    && |h'.frees| == |h.frees| + (if added == 0 then 0 else 1)
    && (forall i :: 0 <= i < |h.frees| ==>
          h'.frees[i] == h.frees[i] + if replaced in h.live && h.live[replaced] == i then 1 else 0)
    && (added != 0 ==> h'.live[added] == |h.frees| && h'.frees[|h.frees|] == 0)
  }

  /** The payload that the target held before it is changed or destroyed; assigning an
      object to itself replaces nothing. */
  function Replaced<T>(s: State<T>, op: Op<T>): nat {
    if Target(op) in s.words && Source(op) != Some(Target(op)) then s.words[Target(op)].address else 0
  }

  /** The payload that is allocated. */
  function Added<T>(op: Op<T>): nat {
    if Source(op).Some? || Destroys(op) then 0 else Given(op).address
  }

  lemma HeapKept(h: Heap)
    requires HeapInvariant(h)
    ensures HeapEffect(h, h, 0, 0)
  {
    assert 0 !in h.live;
  }

  lemma HeapFreed(h: Heap, word: Word)
    requires HeapInvariant(h) && (word.address != 0 ==> word.address in h.live)
    ensures HeapEffect(h, Free(h, word), word.address, 0)
  {
    if word.address == 0 { HeapKept(h); }
  }

  lemma HeapAllocated(h: Heap, code: Code, storage: Option<nat>)
    requires HeapInvariant(h) && Allocatable(h, code, storage)
    ensures HeapEffect(h, Allocate(h, code, storage).0, 0, if storage.None? then 0 else storage.value)
  {
    assert 0 !in h.live;
  }

  /** The payload of a live word can be freed. */
  lemma TargetFreed<T>(s: State<T>, slot: Slot)
    requires OwnershipInvariant(s.words, s.heap)
    ensures HeapEffect(s.heap, s.heap, 0, 0)
    ensures slot in s.words ==> HeapEffect(s.heap, Free(s.heap, s.words[slot]), s.words[slot].address, 0)
  {
    HeapKept(s.heap);
    if slot in s.words {
      PayloadsOwned(s.words, s.heap);
      HeapFreed(s.heap, s.words[slot]);
    }
  }

  lemma StatusHeapEffect<T(!new)>(s: State<T>, op: Op<T>)
    requires Invariant(s) && Enabled(s, op) && !OnEither(op)
    ensures HeapEffect(s.heap, Step(s, op).state.heap, Replaced(s, op), Added(op))
  {
    hide ValueInvariant, OwnershipInvariant, Free, Allocate, HeapEffect;
    TargetFreed(s, Target(op));
    if op.VariableAllocate? { AllocationEffect(s, op.code, op.storage); }
    if op.StatusMessage? && op.code != OK {
      AllocationEffect(s, op.code, if op.emptyMessage then None else op.storage);
    }
  }

  lemma AllocationEffect<T>(s: State<T>, code: Code, storage: Option<nat>)
    requires OwnershipInvariant(s.words, s.heap) && Allocatable(s.heap, code, storage)
    ensures HeapEffect(s.heap, Allocate(s.heap, code, storage).0, 0, if storage.None? then 0 else storage.value)
  {
    HeapAllocated(s.heap, code, storage);
  }

  lemma EitherHeapEffect<T(!new)>(s: State<T>, op: Op<T>)
    requires Invariant(s) && Enabled(s, op) && Step(s, op).Running? && OnEither(op)
    ensures HeapEffect(s.heap, Step(s, op).state.heap, Replaced(s, op), Added(op))
  {
    hide ValueInvariant, OwnershipInvariant, Free, HeapEffect;
    TargetFreed(s, Target(op));
  }

  // ----- values

  /** The value that an operation brings into its target, if any. */
  function Brought<T>(s: State<T>, op: Op<T>): Option<Cell<T>> {
    match op
    case EitherFromValue(_, value) => Some(Full(value))
    case EitherAssignValue(_, value) => Some(Full(value))
    case EitherMove(_, p) => if p in s.values then Some(s.values[p]) else None
    case EitherMoveAssign(_, p) => if p in s.values then Some(s.values[p]) else None
    case _ => None
  }

  /** Moving one `StatusOr` into another. */
  predicate Moves<T>(op: Op<T>) { op.EitherMove? || (op.EitherMoveAssign? && op.o != op.p) }

  /** The target has the value that is brought and no other, a source that had a value has
      a moved-from one, and all other values stay. */
  ghost predicate ValuesEffect<T>(s: State<T>, op: Op<T>, s': State<T>) {
    && (OnEither(op) ==> (op.o in s'.values <==> Brought(s, op).Some?))
    && (OnEither(op) && Brought(s, op).Some? ==> s'.values[op.o] == Brought(s, op).value)
    && (Moves(op) ==> (op.p in s'.values <==> op.p in s.values))
    && (Moves(op) && op.p in s.values ==> s'.values[op.p] == MovedFrom)
    && (forall q :: !(OnEither(op) && q == op.o) && !(Moves(op) && q == op.p) ==>
          && (q in s'.values <==> q in s.values)
          && (q in s.values ==> s'.values[q] == s.values[q]))
    && s'.lifetimes.constructed == s.lifetimes.constructed
         + if Brought(s, op).Some? && !(op.EitherMoveAssign? && op.o == op.p) then 1 else 0
  }

  lemma StatusValuesEffect<T(!new)>(s: State<T>, op: Op<T>)
    requires Enabled(s, op) && Step(s, op).Running? && !OnEither(op)
    ensures ValuesEffect(s, op, Step(s, op).state)
  {
    hide Free, Allocate, Allocatable;
  }

  lemma MoveValuesEffect<T(!new)>(s: State<T>, op: Op<T>)
    requires ValueInvariant(s) && Enabled(s, op) && Step(s, op).Running?
    requires op.EitherMove?
    ensures ValuesEffect(s, op, Step(s, op).state)
  {
    hide Free;
    assert op.o in s.values <==> OkAt(s, Either(op.o));
    assert op.p in s.values <==> OkAt(s, Either(op.p));
  }

  lemma MoveAssignValuesEffect<T(!new)>(s: State<T>, op: Op<T>)
    requires ValueInvariant(s) && Enabled(s, op) && Step(s, op).Running?
    requires op.EitherMoveAssign?
    ensures ValuesEffect(s, op, Step(s, op).state)
  {
    hide Free;
    assert op.o in s.values <==> OkAt(s, Either(op.o));
    assert op.p in s.values <==> OkAt(s, Either(op.p));
  }

  lemma NewValuesEffect<T(!new)>(s: State<T>, op: Op<T>)
    requires ValueInvariant(s) && Enabled(s, op) && Step(s, op).Running?
    requires op.EitherDefault? || op.EitherFromValue? || op.EitherFromStatus?
    ensures ValuesEffect(s, op, Step(s, op).state)
  {
    hide Free, AssignValue, AssignWord, MoveEither, MoveAssignEither, DestroyEither;
    assert op.o in s.values <==> OkAt(s, Either(op.o));
  }

  lemma ClearedValue<T>(s: State<T>, o: nat)
    requires ValueInvariant(s)
    ensures var s' := ClearValue(s, o);
      s'.words == s.words && s'.values == s.values - {o} && s'.lifetimes.constructed == s.lifetimes.constructed
  {
    assert o in s.values <==> OkAt(s, Either(o));
  }

  lemma ChangedValuesEffect<T(!new)>(s: State<T>, op: Op<T>)
    requires ValueInvariant(s) && Enabled(s, op) && Step(s, op).Running?
    requires op.EitherAssignValue? || op.EitherAssignStatus? || op.EitherDestroy?
    ensures ValuesEffect(s, op, Step(s, op).state)
  {
    hide Free, ClearValue, ValueInvariant;
    ClearedValue(s, op.o);
  }

  // ----- all of it

  ghost predicate Effect<T>(s: State<T>, op: Op<T>, s': State<T>) {
    && WordsEffect(s, op, s')
    && HeapEffect(s.heap, s'.heap, Replaced(s, op), Added(op))
    && ValuesEffect(s, op, s')
  }

  /** Every step has the effect of its operation. */
  lemma StepHasEffect<T(!new)>(s: State<T>, op: Op<T>)
    requires Invariant(s) && Enabled(s, op) && Step(s, op).Running?
    ensures Effect(s, op, Step(s, op).state)
  {
    hide Step, Enabled, WordsEffect, HeapEffect, ValuesEffect, OwnershipInvariant, ValueInvariant;
    StepWordsEffect(s, op);
    if OnEither(op) { EitherHeapEffect(s, op); } else { StatusHeapEffect(s, op); }
    if !OnEither(op) {
      StatusValuesEffect(s, op);
    } else if op.EitherMove? {
      MoveValuesEffect(s, op);
    } else if op.EitherMoveAssign? {
      MoveAssignValuesEffect(s, op);
    } else if op.EitherDefault? || op.EitherFromValue? || op.EitherFromStatus? {
      NewValuesEffect(s, op);
    } else {
      ChangedValuesEffect(s, op);
    }
  }

  /** An operation can be carried out exactly when its target exists already, or does not yet
      where it constructs one, its source exists, and the allocator can serve it. */
  lemma EnabledIff<T(!new)>(s: State<T>, op: Op<T>)
    ensures Enabled(s, op)
       <==> && (Target(op) in s.words <==> Changes(op) || Destroys(op))
            && (Source(op).Some? ==> Source(op).value in s.words)
            && (op.VariableAllocate? ==> Allocatable(s.heap, op.code, op.storage))
            && (op.StatusMessage? && op.code != OK ==> Allocatable(s.heap, op.code, op.storage))
  {
    hide Allocatable;
  }

  /** A step aborts exactly when it would give an OK status to a `StatusOr`. */
  lemma AbortsIff<T(!new)>(s: State<T>, op: Op<T>)
    requires Enabled(s, op)
    ensures Step(s, op).Aborted? <==> (op.EitherFromStatus? || op.EitherAssignStatus?) && IsOk(s.words[Object(op.x)])
  {
    hide Free, Allocate, Allocatable;
  }
}
