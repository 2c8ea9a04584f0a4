/**
Programs over the objects of `StatusObjects`: executing an operation on the objects is
the step of `StatusRuns`, so what holds over every run holds of the objects.
*/
module StatusPrograms {
  import opened Options
  import opened StatusWords
  import opened PayloadHeaps
  import opened StatusRuns
  import opened StatusEffects
  import Objects = StatusObjects

  /** The live objects by name, and the variable that holds the word of each. */
  datatype Store<T> = Store(
    objects: map<nat, Objects.Status>,
    variables: map<nat, Objects.Variable>,
    eithers: map<nat, Objects.StatusOr<T>>,
    cells: map<Slot, Objects.Variable>)

  function NoObjects<T>(): Store<T> { Store(map[], map[], map[], map[]) }

  // ----- the store

  ghost predicate Linked<T>(store: Store<T>) {
    && (forall x :: Object(x) in store.cells <==> x in store.objects)
    && (forall x :: x in store.objects ==> store.cells[Object(x)] == store.objects[x].value)
    && (forall r :: Variable(r) in store.cells <==> r in store.variables)
    && (forall r :: r in store.variables ==> store.cells[Variable(r)] == store.variables[r])
    && (forall o :: Either(o) in store.cells <==> o in store.eithers)
    && (forall o :: o in store.eithers ==> store.cells[Either(o)] == store.eithers[o].status.value)
  }

  /** No two objects share a word. */
  predicate Distinct(cells: map<Slot, Objects.Variable>) {
    forall slot, other :: slot in cells && other in cells && slot != other ==> cells[slot] != cells[other]
  }

  ghost predicate Connected<T>(store: Store<T>) {
    Linked(store) && Distinct(store.cells)
  }

  function AddObject<T>(store: Store<T>, x: nat, status: Objects.Status): Store<T> {
    store.(objects := store.objects[x := status], cells := store.cells[Object(x) := status.value])
  }

  function AddVariable<T>(store: Store<T>, r: nat, variable: Objects.Variable): Store<T> {
    store.(variables := store.variables[r := variable], cells := store.cells[Variable(r) := variable])
  }

  function AddEither<T>(store: Store<T>, o: nat, either: Objects.StatusOr<T>): Store<T> {
    store.(eithers := store.eithers[o := either], cells := store.cells[Either(o) := either.status.value])
  }

  function DropObject<T>(store: Store<T>, x: nat): Store<T> {
    store.(objects := store.objects - {x}, cells := store.cells - {Object(x)})
  }

  function DropVariable<T>(store: Store<T>, r: nat): Store<T> {
    store.(variables := store.variables - {r}, cells := store.cells - {Variable(r)})
  }

  function DropEither<T>(store: Store<T>, o: nat): Store<T> {
    store.(eithers := store.eithers - {o}, cells := store.cells - {Either(o)})
  }

  lemma ObjectLinked<T>(store: Store<T>, x: nat)
    requires Linked(store)
    ensures Object(x) in store.cells <==> x in store.objects
    ensures x in store.objects ==> store.cells[Object(x)] == store.objects[x].value
  {
  }

  lemma VariableLinked<T>(store: Store<T>, r: nat)
    requires Linked(store)
    ensures Variable(r) in store.cells <==> r in store.variables
    ensures r in store.variables ==> store.cells[Variable(r)] == store.variables[r]
  {
  }

  lemma EitherLinked<T>(store: Store<T>, o: nat)
    requires Linked(store)
    ensures Either(o) in store.cells <==> o in store.eithers
    ensures o in store.eithers ==> store.cells[Either(o)] == store.eithers[o].status.value
  {
  }

  lemma AddObjectLinked<T>(store: Store<T>, x: nat, status: Objects.Status)
    requires Linked(store)
    ensures Linked(AddObject(store, x, status))
  {
  }

  lemma AddVariableLinked<T>(store: Store<T>, r: nat, variable: Objects.Variable)
    requires Linked(store)
    ensures Linked(AddVariable(store, r, variable))
  {
  }

  lemma AddEitherLinked<T>(store: Store<T>, o: nat, either: Objects.StatusOr<T>)
    requires Linked(store)
    ensures Linked(AddEither(store, o, either))
  {
  }

  lemma DropObjectLinked<T>(store: Store<T>, x: nat)
    requires Linked(store)
    ensures Linked(DropObject(store, x))
  {
  }

  lemma DropVariableLinked<T>(store: Store<T>, r: nat)
    requires Linked(store)
    ensures Linked(DropVariable(store, r))
  {
  }

  lemma DropEitherLinked<T>(store: Store<T>, o: nat)
    requires Linked(store)
    ensures Linked(DropEither(store, o))
  {
  }

  lemma AddDistinct(cells: map<Slot, Objects.Variable>, slot: Slot, cell: Objects.Variable)
    requires Distinct(cells) && cell !in cells.Values
    ensures Distinct(cells[slot := cell])
  {
  }

  lemma DropDistinct(cells: map<Slot, Objects.Variable>, slot: Slot)
    requires Distinct(cells)
    ensures Distinct(cells - {slot})
  {
  }

  lemma Apart(cells: map<Slot, Objects.Variable>, slot: Slot)
    requires Distinct(cells) && slot in cells
    ensures forall other :: other in cells && other != slot ==> cells[other] != cells[slot]
  {
  }

  lemma EithersApart<T>(store: Store<T>, o: nat)
    requires Connected(store) && o in store.eithers
    ensures forall other :: other in store.eithers && other != o ==> store.eithers[other] != store.eithers[o]
  {
    hide Linked, Distinct;
    EitherLinked(store, o);
    Apart(store.cells, Either(o));
    forall other | other in store.eithers && other != o
      ensures store.eithers[other] != store.eithers[o]
    {
      EitherLinked(store, other);
    }
  }

  // ----- the state it stands for

  ghost function WordsIn(cells: map<Slot, Objects.Variable>): (words: map<Slot, Word>)
    reads cells.Values
    ensures words.Keys == cells.Keys && forall slot :: slot in cells ==> words[slot] == cells[slot].word
  {
    map slot | slot in cells :: cells[slot].word
  }

  ghost function ValuesIn<T>(eithers: map<nat, Objects.StatusOr<T>>): (values: map<nat, Cell<T>>)
    reads eithers.Values
    ensures forall o :: o in values <==> o in eithers && eithers[o].data.Some?
    ensures forall o :: o in values ==> values[o] == eithers[o].data.value
  {
    map o | o in eithers && eithers[o].data.Some? :: eithers[o].data.value
  }

  ghost function Abs<T>(store: Store<T>, memory: Objects.Memory): State<T>
    reads memory, store.cells.Values, store.eithers.Values
  {
    State(WordsIn(store.cells), ValuesIn(store.eithers), memory.heap, memory.lifetimes)
  }

  function PutData<T>(values: map<nat, Cell<T>>, o: nat, data: Option<Cell<T>>): map<nat, Cell<T>> {
    match data
    case None => values - {o}
    case Some(value) => values[o := value]
  }

  lemma Wrote(cells: map<Slot, Objects.Variable>, before: map<Slot, Word>, slot: Slot)
    requires slot in cells && before.Keys == cells.Keys
    requires forall other :: other in cells && other != slot ==> cells[other].word == before[other]
    ensures WordsIn(cells) == before[slot := cells[slot].word]
  {
  }

  lemma WroteTwo(cells: map<Slot, Objects.Variable>, before: map<Slot, Word>, a: Slot, b: Slot)
    requires a in cells && b in cells && before.Keys == cells.Keys
    requires forall other :: other in cells && other != a && other != b ==> cells[other].word == before[other]
    ensures WordsIn(cells) == before[a := cells[a].word][b := cells[b].word]
  {
  }

  /** Two writes commute, and the last write to a slot counts. */
  lemma Reorder(words: map<Slot, Word>, a: Slot, v: Word, b: Slot, w: Word, overwritten: Word)
    requires a != b
    ensures words[a := v][b := w] == words[b := w][a := v] == words[b := w][a := overwritten][a := v]
  {
  }

  lemma Unchanged(words: map<Slot, Word>, slot: Slot)
    requires slot in words
    ensures words[slot := words[slot]] == words == words[slot := words[slot]][slot := words[slot]]
  {
  }

  lemma AddedObject<T>(store: Store<T>, memory: Objects.Memory, x: nat, status: Objects.Status)
    requires Connected(store) && status.value !in store.cells.Values
    ensures var next := AddObject(store, x, status);
      Connected(next) && Abs(next, memory) == Put(Abs(store, memory), Object(x), status.value.word)
  {
    hide Linked, Distinct;
    AddObjectLinked(store, x, status);
    AddDistinct(store.cells, Object(x), status.value);
  }

  lemma AddedVariable<T>(store: Store<T>, memory: Objects.Memory, r: nat, variable: Objects.Variable)
    requires Connected(store) && variable !in store.cells.Values
    ensures var next := AddVariable(store, r, variable);
      Connected(next) && Abs(next, memory) == Put(Abs(store, memory), Variable(r), variable.word)
  {
    hide Linked, Distinct;
    AddVariableLinked(store, r, variable);
    AddDistinct(store.cells, Variable(r), variable);
  }

  lemma AddedData<T>(eithers: map<nat, Objects.StatusOr<T>>, o: nat, either: Objects.StatusOr<T>)
    ensures ValuesIn(eithers[o := either]) == PutData(ValuesIn(eithers), o, either.data)
    ensures ValuesIn(eithers - {o}) == ValuesIn(eithers) - {o}
  {
  }

  lemma AddedEither<T>(store: Store<T>, memory: Objects.Memory, o: nat, either: Objects.StatusOr<T>)
    requires Connected(store) && either.status.value !in store.cells.Values
    ensures var next, s := AddEither(store, o, either), Abs(store, memory);
      && Connected(next)
      && Abs(next, memory) == Put(s.(values := PutData(s.values, o, either.data)), Either(o), either.status.value.word)
  {
    hide Linked, Distinct, ValuesIn, PutData;
    AddEitherLinked(store, o, either);
    AddDistinct(store.cells, Either(o), either.status.value);
    AddedData(store.eithers, o, either);
  }

  lemma DroppedObject<T>(store: Store<T>, memory: Objects.Memory, x: nat)
    requires Connected(store)
    ensures var next := DropObject(store, x);
      Connected(next) && Abs(next, memory) == Drop(Abs(store, memory), Object(x))
  {
    hide Linked, Distinct;
    DropObjectLinked(store, x);
    DropDistinct(store.cells, Object(x));
  }

  lemma DroppedVariable<T>(store: Store<T>, memory: Objects.Memory, r: nat)
    requires Connected(store)
    ensures var next := DropVariable(store, r);
      Connected(next) && Abs(next, memory) == Drop(Abs(store, memory), Variable(r))
  {
    hide Linked, Distinct;
    DropVariableLinked(store, r);
    DropDistinct(store.cells, Variable(r));
  }

  lemma DroppedEither<T>(store: Store<T>, memory: Objects.Memory, o: nat)
    requires Connected(store)
    ensures var next, s := DropEither(store, o), Abs(store, memory);
      Connected(next) && Abs(next, memory) == Drop(s.(values := s.values - {o}), Either(o))
  {
    hide Linked, Distinct;
    DropEitherLinked(store, o);
    DropDistinct(store.cells, Either(o));
  }

  // ----- operations on statuses and variables

  /** Every object of `next` was in `store` or is new. */
  twostate predicate Grown<T>(store: Store<T>, new next: Store<T>) {
    && (forall slot :: slot in next.cells && next.cells[slot] !in store.cells.Values ==> fresh(next.cells[slot]))
    && (forall o :: o in next.eithers && next.eithers[o] !in store.eithers.Values ==> fresh(next.eithers[o]))
  }

  method DefaultStatus<T(!new)>(store: Store<T>, memory: Objects.Memory, x: nat) returns (next: Store<T>)
    requires Connected(store)
    ensures Connected(next) && Grown(store, next)
    ensures Abs(next, memory) == Put(old(Abs(store, memory)), Object(x), FromCode(OK))
  {
    hide Linked, Distinct, WordsIn, ValuesIn, Free;
    var status := new Objects.Status();
    AddedObject(store, memory, x, status);
    next := AddObject(store, x, status);
  }

  method CodeStatus<T(!new)>(store: Store<T>, memory: Objects.Memory, x: nat, code: Code) returns (next: Store<T>)
    requires Connected(store)
    ensures Connected(next) && Grown(store, next)
    ensures Abs(next, memory) == Put(old(Abs(store, memory)), Object(x), FromCode(code))
  {
    hide Linked, Distinct, WordsIn, ValuesIn, Free;
    var status := new Objects.Status.OfCode(code);
    AddedObject(store, memory, x, status);
    next := AddObject(store, x, status);
  }

  method MessageStatus<T(!new)>(store: Store<T>, memory: Objects.Memory, x: nat, code: Code, emptyMessage: bool,
                                storage: Option<nat>)
    returns (next: Store<T>)
    requires Connected(store) && (code != OK ==> Allocatable(memory.heap, code, storage))
    modifies memory`heap
    ensures Connected(next) && Grown(store, next)
    ensures Abs(next, memory)
         == if code == OK then Put(old(Abs(store, memory)), Object(x), FromCode(OK))
            else PutAllocated(old(Abs(store, memory)), Object(x), code, if emptyMessage then None else storage)
  {
    hide Linked, Distinct, WordsIn, ValuesIn, Free;
    var status := new Objects.Status.WithMessage(code, emptyMessage, storage, memory);
    AddedObject(store, memory, x, status);
    next := AddObject(store, x, status);
  }

  method MoveStatus<T(!new)>(store: Store<T>, memory: Objects.Memory, x: nat, y: nat) returns (next: Store<T>)
    requires Connected(store) && Object(x) !in store.cells && Object(y) in store.cells
    modifies store.cells.Values
    ensures Connected(next) && Grown(store, next)
    ensures Abs(next, memory) == MoveWord(old(Abs(store, memory)), Object(x), Object(y))
  {
    hide Linked, Distinct, WordsIn, ValuesIn;
    ghost var words := WordsIn(store.cells);
    ObjectLinked(store, x);
    ObjectLinked(store, y);
    Apart(store.cells, Object(y));
    var status := new Objects.Status.Move(store.objects[y]);
    Wrote(store.cells, words, Object(y));
    AddedObject(store, memory, x, status);
    next := AddObject(store, x, status);
    Reorder(words, Object(y), Residue(words[Object(y)]), Object(x), words[Object(y)], FromCode(OK));
  }

  method WrapVariable<T(!new)>(store: Store<T>, memory: Objects.Memory, x: nat, r: nat) returns (next: Store<T>)
    requires Connected(store) && Object(x) !in store.cells && Variable(r) in store.cells
    modifies store.cells.Values
    ensures Connected(next) && Grown(store, next)
    ensures Abs(next, memory) == MoveWord(old(Abs(store, memory)), Object(x), Variable(r))
  {
    hide Linked, Distinct, WordsIn, ValuesIn;
    ghost var words := WordsIn(store.cells);
    ObjectLinked(store, x);
    VariableLinked(store, r);
    Apart(store.cells, Variable(r));
    var status := new Objects.Status.FromVariable(store.variables[r]);
    Wrote(store.cells, words, Variable(r));
    AddedObject(store, memory, x, status);
    next := AddObject(store, x, status);
    Reorder(words, Variable(r), Residue(words[Variable(r)]), Object(x), words[Variable(r)], FromCode(OK));
  }

  method ReleaseStatus<T(!new)>(store: Store<T>, memory: Objects.Memory, x: nat, r: nat) returns (next: Store<T>)
    requires Connected(store) && Object(x) in store.cells && Variable(r) !in store.cells
    modifies store.cells.Values
    ensures Connected(next) && Grown(store, next)
    ensures Abs(next, memory) == Put(MoveWord(old(Abs(store, memory)), Variable(r), Object(x)), Object(x), FromCode(OK))
  {
    hide Linked, Distinct, WordsIn, ValuesIn;
    ghost var words := WordsIn(store.cells);
    ObjectLinked(store, x);
    VariableLinked(store, r);
    Apart(store.cells, Object(x));
    var word := store.objects[x].Release();
    Wrote(store.cells, words, Object(x));
    var variable := new Objects.Variable(word);
    AddedVariable(store, memory, r, variable);
    next := AddVariable(store, r, variable);
    Reorder(words, Object(x), FromCode(OK), Variable(r), word, Residue(word));
  }

  method UnwrapStatus<T(!new)>(store: Store<T>, memory: Objects.Memory, x: nat, r: nat) returns (next: Store<T>)
    requires Connected(store) && Object(x) in store.cells && Variable(r) !in store.cells
    modifies store.cells.Values
    ensures Connected(next) && Grown(store, next)
    ensures Abs(next, memory) == MoveWord(old(Abs(store, memory)), Variable(r), Object(x))
  {
    hide Linked, Distinct, WordsIn, ValuesIn;
    ghost var words := WordsIn(store.cells);
    ObjectLinked(store, x);
    VariableLinked(store, r);
    Apart(store.cells, Object(x));
    var word := store.objects[x].ToVariable();
    Wrote(store.cells, words, Object(x));
    var variable := new Objects.Variable(word);
    AddedVariable(store, memory, r, variable);
    next := AddVariable(store, r, variable);
    Reorder(words, Object(x), Residue(word), Variable(r), word, Residue(word));
  }

  method AssignCode<T(!new)>(store: Store<T>, memory: Objects.Memory, x: nat, code: Code)
    requires Connected(store) && Object(x) in store.cells
    modifies store.cells.Values, memory`heap
    ensures Abs(store, memory) == Put(FreeWord(old(Abs(store, memory)), Object(x)), Object(x), FromCode(code))
  {
    hide Linked, Distinct, WordsIn, ValuesIn, Free;
    ghost var words := WordsIn(store.cells);
    ObjectLinked(store, x);
    Apart(store.cells, Object(x));
    store.objects[x].AssignCode(code, memory);
    Wrote(store.cells, words, Object(x));
  }

  method IgnoreError<T(!new)>(store: Store<T>, memory: Objects.Memory, x: nat)
    requires Connected(store) && Object(x) in store.cells
    modifies store.cells.Values, memory`heap
    ensures Abs(store, memory) == Put(FreeWord(old(Abs(store, memory)), Object(x)), Object(x), FromCode(OK))
  {
    hide Linked, Distinct, WordsIn, ValuesIn, Free;
    ghost var words := WordsIn(store.cells);
    ObjectLinked(store, x);
    Apart(store.cells, Object(x));
    store.objects[x].IgnoreError(memory);
    Wrote(store.cells, words, Object(x));
  }

  method MoveAssignStatus<T(!new)>(store: Store<T>, memory: Objects.Memory, x: nat, y: nat)
    requires Connected(store) && Object(x) in store.cells && Object(y) in store.cells
    modifies store.cells.Values, memory`heap
    ensures Abs(store, memory) == if x == y then old(Abs(store, memory))
         else MoveWord(FreeWord(old(Abs(store, memory)), Object(x)), Object(x), Object(y))
  {
    hide Linked, Distinct, WordsIn, ValuesIn, Free;
    ghost var words := WordsIn(store.cells);
    ObjectLinked(store, x);
    ObjectLinked(store, y);
    Apart(store.cells, Object(x));
    Apart(store.cells, Object(y));
    store.objects[x].MoveAssign(store.objects[y], memory);
    WroteTwo(store.cells, words, Object(x), Object(y));
    Unchanged(words, Object(x));
  }

  method AllocateVariable<T(!new)>(store: Store<T>, memory: Objects.Memory, r: nat, code: Code, storage: Option<nat>)
    returns (next: Store<T>)
    requires Connected(store) && Allocatable(memory.heap, code, storage)
    modifies memory`heap
    ensures Connected(next) && Grown(store, next)
    ensures Abs(next, memory) == PutAllocated(old(Abs(store, memory)), Variable(r), code, storage)
  {
    hide Linked, Distinct, WordsIn, ValuesIn, Free;
    var word := memory.Allocate(code, storage);
    var variable := new Objects.Variable(word);
    AddedVariable(store, memory, r, variable);
    next := AddVariable(store, r, variable);
  }

  method DestroyStatus<T(!new)>(store: Store<T>, memory: Objects.Memory, x: nat) returns (next: Store<T>)
    requires Connected(store) && Object(x) in store.cells
    modifies memory`heap
    ensures Connected(next) && Grown(store, next)
    ensures Abs(next, memory) == Drop(FreeWord(old(Abs(store, memory)), Object(x)), Object(x))
  {
    hide Linked, Distinct, WordsIn, ValuesIn, Free;
    ObjectLinked(store, x);
    store.objects[x].Destroy(memory);
    DroppedObject(store, memory, x);
    next := DropObject(store, x);
  }

  method FreeVariable<T(!new)>(store: Store<T>, memory: Objects.Memory, r: nat) returns (next: Store<T>)
    requires Connected(store) && Variable(r) in store.cells
    modifies memory`heap
    ensures Connected(next) && Grown(store, next)
    ensures Abs(next, memory) == Drop(FreeWord(old(Abs(store, memory)), Variable(r)), Variable(r))
  {
    hide Linked, Distinct, WordsIn, ValuesIn, Free;
    VariableLinked(store, r);
    var _ := memory.Ignore(store.variables[r].word);
    DroppedVariable(store, memory, r);
    next := DropVariable(store, r);
  }

  // ----- operations on `StatusOr`

  lemma EitherTagged<T>(store: Store<T>, memory: Objects.Memory, o: nat)
    requires Connected(store) && ValueInvariant(Abs(store, memory)) && o in store.eithers
    ensures store.eithers[o].Tagged()
    ensures OkAt(Abs(store, memory), Either(o)) <==> store.eithers[o].status.Ok()
  {
    hide Linked, Distinct, WordsIn, ValuesIn;
    EitherLinked(store, o);
    var s := Abs(store, memory);
    assert o in s.values <==> OkAt(s, Either(o));
  }

  lemma WroteData<T>(eithers: map<nat, Objects.StatusOr<T>>, before: map<nat, Cell<T>>, o: nat)
    requires o in eithers && before.Keys <= eithers.Keys
    requires forall p :: p in eithers && p != o ==> (p in before <==> eithers[p].data.Some?)
    requires forall p :: p in eithers && p != o && p in before ==> before[p] == eithers[p].data.value
    ensures ValuesIn(eithers) == PutData(before, o, eithers[o].data)
  {
  }

  /** What the assignments, moves and destructors of `StatusRuns` leave, field by field. */
  lemma AssignedValue<T>(s: State<T>, o: nat, value: Cell<T>)
    requires ValueInvariant(s) && Either(o) in s.words
    ensures AssignValue(s, o, value)
         == State(s.words[Either(o) := FromCode(OK)], s.values[o := value], Free(s.heap, s.words[Either(o)]),
                  Objects.Assigned(s.lifetimes, OkAt(s, Either(o)), true))
  {
    hide Free;
    assert o in s.values <==> OkAt(s, Either(o));
    assert (s.values - {o})[o := value] == s.values[o := value];
  }

  lemma AssignedWord<T>(s: State<T>, o: nat, source: Slot)
    requires ValueInvariant(s) && Either(o) in s.words && source in s.words
    ensures AssignWord(s, o, source)
         == State(s.words[Either(o) := s.words[source]][source := Residue(s.words[source])], s.values - {o},
                  Free(s.heap, s.words[Either(o)]), Objects.Assigned(s.lifetimes, OkAt(s, Either(o)), false))
  {
    hide Free;
    assert o in s.values <==> OkAt(s, Either(o));
    assert o !in s.values ==> s.values - {o} == s.values;
  }

  lemma DestroyedEither<T>(s: State<T>, o: nat)
    requires ValueInvariant(s) && Either(o) in s.words
    ensures DestroyEither(s, o)
         == State(s.words - {Either(o)}, s.values - {o}, Free(s.heap, s.words[Either(o)]),
                  Objects.Assigned(s.lifetimes, OkAt(s, Either(o)), false))
  {
    hide Free;
    assert o in s.values <==> OkAt(s, Either(o));
    assert o !in s.values ==> s.values - {o} == s.values;
  }

  lemma NoValue<T>(store: Store<T>, memory: Objects.Memory, o: nat)
    requires o !in store.eithers
    ensures o !in Abs(store, memory).values
    ensures Abs(store, memory).values - {o} == Abs(store, memory).values
  {
  }

  method DefaultEither<T(!new)>(store: Store<T>, memory: Objects.Memory, o: nat) returns (next: Store<T>)
    requires Connected(store) && Either(o) !in store.cells
    ensures Connected(next) && Grown(store, next)
    ensures Abs(next, memory) == Put(old(Abs(store, memory)), Either(o), FromCode(UNKNOWN))
  {
    hide Linked, Distinct, WordsIn, ValuesIn;
    EitherLinked(store, o);
    NoValue(store, memory, o);
    var either := new Objects.StatusOr<T>();
    AddedEither(store, memory, o, either);
    next := AddEither(store, o, either);
  }

  method ValueEither<T(!new)>(store: Store<T>, memory: Objects.Memory, o: nat, value: T) returns (next: Store<T>)
    requires Connected(store) && Either(o) !in store.cells
    modifies memory`lifetimes
    ensures Connected(next) && Grown(store, next)
    ensures Abs(next, memory) == Put(MakeValue(old(Abs(store, memory)), o, Full(value)), Either(o), FromCode(OK))
  {
    hide Linked, Distinct, WordsIn, ValuesIn;
    EitherLinked(store, o);
    NoValue(store, memory, o);
    var either := new Objects.StatusOr<T>.FromValue(value, memory);
    AddedEither(store, memory, o, either);
    next := AddEither(store, o, either);
  }

  /** False where the constructor aborts. */
  method StatusEither<T(!new)>(store: Store<T>, memory: Objects.Memory, o: nat, x: nat)
    returns (alive: bool, next: Store<T>)
    requires Connected(store) && Either(o) !in store.cells && Object(x) in store.cells
    modifies store.cells.Values, memory`heap
    ensures alive <==> !OkAt(old(Abs(store, memory)), Object(x))
    ensures alive ==> Connected(next) && Grown(store, next)
    ensures alive ==> Abs(next, memory) == MoveWord(old(Abs(store, memory)), Either(o), Object(x))
  {
    hide Linked, Distinct, WordsIn, ValuesIn;
    ghost var words := WordsIn(store.cells);
    ObjectLinked(store, x);
    EitherLinked(store, o);
    Apart(store.cells, Object(x));
    NoValue(store, memory, o);
    var either := new Objects.StatusOr<T>.FromStatus(store.objects[x], memory);
    alive := !either.status.Ok();
    Wrote(store.cells, words, Object(x));
    AddedEither(store, memory, o, either);
    next := AddEither(store, o, either);
    Reorder(words, Object(x), Residue(words[Object(x)]), Either(o), words[Object(x)], FromCode(OK));
  }

  lemma MovedEither<T>(s: State<T>, o: nat, p: nat)
    requires ValueInvariant(s) && Either(p) in s.words && o != p && o !in s.values
    ensures MoveEither(s, o, p)
         == State(s.words[Either(p) := Residue(s.words[Either(p)])][Either(o) := s.words[Either(p)]],
                  PutData(PutData(s.values, p, MovedData(s, p)), o, DataAt(s, p)), s.heap,
                  if OkAt(s, Either(p)) then s.lifetimes.Construct(false) else s.lifetimes)
  {
    assert p in s.values <==> OkAt(s, Either(p));
    var w := s.words[Either(p)];
    Reorder(s.words, Either(p), Residue(w), Either(o), w, w);
    Unchanged(s.words, Either(p));
    if !OkAt(s, Either(p)) { assert (s.values - {p}) - {o} == s.values; }
  }

  function DataAt<T>(s: State<T>, p: nat): Option<Cell<T>> {
    if p in s.values then Some(s.values[p]) else None
  }

  function MovedData<T>(s: State<T>, p: nat): Option<Cell<T>> {
    if OkAt(s, Either(p)) then Some(MovedFrom) else None
  }

  method MoveFromEither<T(!new)>(store: Store<T>, memory: Objects.Memory, o: nat, p: nat) returns (next: Store<T>)
    requires Connected(store) && ValueInvariant(Abs(store, memory))
    requires Either(o) !in store.cells && Either(p) in store.cells
    modifies store.cells.Values, store.eithers.Values, memory
    ensures Connected(next) && Grown(store, next)
    ensures Abs(next, memory) == MoveEither(old(Abs(store, memory)), o, p)
  {
    hide Linked, Distinct, WordsIn, ValuesIn, ValueInvariant, MoveEither, PutData;
    ghost var s := Abs(store, memory);
    EitherLinked(store, o);
    EitherLinked(store, p);
    EitherTagged(store, memory, p);
    EithersApart(store, p);
    Apart(store.cells, Either(p));
    MovedEither(s, o, p);
    var either := new Objects.StatusOr<T>.Move(store.eithers[p], memory);
    Wrote(store.cells, s.words, Either(p));
    WroteData(store.eithers, s.values, p);
    AddedEither(store, memory, o, either);
    next := AddEither(store, o, either);
  }

  method AssignEither<T(!new)>(store: Store<T>, memory: Objects.Memory, o: nat, value: T)
    requires Connected(store) && ValueInvariant(Abs(store, memory)) && Either(o) in store.cells
    modifies store.cells.Values, store.eithers.Values, memory
    ensures Abs(store, memory) == AssignValue(old(Abs(store, memory)), o, Full(value))
  {
    hide Linked, Distinct, WordsIn, ValuesIn, ValueInvariant, AssignValue, Free;
    ghost var s := Abs(store, memory);
    EitherLinked(store, o);
    EitherTagged(store, memory, o);
    EithersApart(store, o);
    Apart(store.cells, Either(o));
    AssignedValue(s, o, Full(value));
    store.eithers[o].AssignValue(Full(value), memory);
    Wrote(store.cells, s.words, Either(o));
    WroteData(store.eithers, s.values, o);
  }

  /** False where the assignment aborts. */
  method AssignStatusEither<T(!new)>(store: Store<T>, memory: Objects.Memory, o: nat, x: nat) returns (alive: bool)
    requires Connected(store) && ValueInvariant(Abs(store, memory))
    requires Either(o) in store.cells && Object(x) in store.cells
    modifies store.cells.Values, store.eithers.Values, memory
    ensures alive <==> !OkAt(old(Abs(store, memory)), Object(x))
    ensures alive ==> Abs(store, memory) == AssignWord(old(Abs(store, memory)), o, Object(x))
  {
    hide Linked, Distinct, WordsIn, ValuesIn, ValueInvariant, AssignWord, Free;
    ghost var s := Abs(store, memory);
    EitherLinked(store, o);
    ObjectLinked(store, x);
    EitherTagged(store, memory, o);
    EithersApart(store, o);
    Apart(store.cells, Either(o));
    Apart(store.cells, Object(x));
    AssignedWord(s, o, Object(x));
    alive := store.eithers[o].AssignStatus(store.objects[x], memory);
    WroteTwo(store.cells, s.words, Either(o), Object(x));
    WroteData(store.eithers, s.values, o);
  }

  method EndEither<T(!new)>(store: Store<T>, memory: Objects.Memory, o: nat) returns (next: Store<T>)
    requires Connected(store) && ValueInvariant(Abs(store, memory)) && Either(o) in store.cells
    modifies store.eithers.Values, memory
    ensures Connected(next) && Grown(store, next)
    ensures Abs(next, memory) == DestroyEither(old(Abs(store, memory)), o)
  {
    hide Linked, Distinct, WordsIn, ValuesIn, ValueInvariant, DestroyEither, Free;
    ghost var s := Abs(store, memory);
    EitherLinked(store, o);
    EitherTagged(store, memory, o);
    EithersApart(store, o);
    DestroyedEither(s, o);
    store.eithers[o].Destroy(memory);
    WroteData(store.eithers, s.values, o);
    DroppedEither(store, memory, o);
    next := DropEither(store, o);
    assert s.values - {o} - {o} == s.values - {o};
  }

  method TakeStatus<T(!new)>(store: Store<T>, memory: Objects.Memory, x: nat, o: nat) returns (next: Store<T>)
    requires Connected(store) && ValueInvariant(Abs(store, memory))
    requires Object(x) !in store.cells && Either(o) in store.cells
    modifies store.cells.Values, memory`heap
    ensures Connected(next) && Grown(store, next)
    ensures Abs(next, memory) == TakeWord(old(Abs(store, memory)), x, o)
  {
    hide Linked, Distinct, WordsIn, ValuesIn, ValueInvariant;
    ghost var words := WordsIn(store.cells);
    EitherLinked(store, o);
    ObjectLinked(store, x);
    EitherTagged(store, memory, o);
    Apart(store.cells, Either(o));
    var status := store.eithers[o].TakeStatus(memory);
    Wrote(store.cells, words, Either(o));
    AddedObject(store, memory, x, status);
    next := AddObject(store, x, status);
    Reorder(words, Either(o), Residue(words[Either(o)]), Object(x), words[Either(o)], FromCode(OK));
    Unchanged(words, Either(o));
  }

  lemma WroteDataTwo<T>(eithers: map<nat, Objects.StatusOr<T>>, before: map<nat, Cell<T>>, o: nat, p: nat)
    requires o in eithers && p in eithers && before.Keys <= eithers.Keys
    requires forall q :: q in eithers && q != o && q != p ==> (q in before <==> eithers[q].data.Some?)
    requires forall q :: q in eithers && q != o && q != p && q in before ==> before[q] == eithers[q].data.value
    ensures ValuesIn(eithers) == PutData(PutData(before, p, eithers[p].data), o, eithers[o].data)
  {
  }

  lemma MovedOut<T>(s: State<T>, p: nat)
    requires ValueInvariant(s) && OkAt(s, Either(p))
    ensures p in s.values && ValueInvariant(MoveOut(s, p)) && forall slot :: OkAt(MoveOut(s, p), slot) == OkAt(s, slot)
  {
    MoveOutKeepsValues(s, p);
  }

  lemma MoveAssigned<T>(s: State<T>, o: nat, p: nat)
    requires ValueInvariant(s) && Either(o) in s.words && Either(p) in s.words && o != p
    ensures MoveAssignEither(s, o, p)
         == State(s.words[Either(o) := s.words[Either(p)]][Either(p) := Residue(s.words[Either(p)])],
                  PutData(PutData(s.values, p, MovedData(s, p)), o, DataAt(s, p)), Free(s.heap, s.words[Either(o)]),
                  Objects.Assigned(s.lifetimes, OkAt(s, Either(o)), OkAt(s, Either(p))))
  {
    hide Free, AssignValue, AssignWord, Objects.Assigned, ValueInvariant;
    if OkAt(s, Either(p)) {
      MovedOut(s, p);
      AssignedValue(MoveOut(s, p), o, ValueAt(s, p));
      Unchanged(s.words, Either(p));
      Reorder(s.words, Either(p), FromCode(OK), Either(o), FromCode(OK), FromCode(OK));
    } else {
      NotOk(s, p);
      AssignedWord(s, o, Either(p));
    }
  }

  lemma NotOk<T>(s: State<T>, p: nat)
    requires ValueInvariant(s) && !OkAt(s, Either(p))
    ensures p !in s.values && s.values - {p} == s.values
  {
  }

  method MoveAssignToEither<T(!new)>(store: Store<T>, memory: Objects.Memory, o: nat, p: nat)
    requires Connected(store) && ValueInvariant(Abs(store, memory))
    requires Either(o) in store.cells && Either(p) in store.cells
    modifies store.cells.Values, store.eithers.Values, memory
    ensures Abs(store, memory) == MoveAssignEither(old(Abs(store, memory)), o, p)
  {
    hide Linked, Distinct, WordsIn, ValuesIn, ValueInvariant, AssignWord, AssignValue, PutData, Free;
    ghost var s := Abs(store, memory);
    EitherLinked(store, o);
    EitherLinked(store, p);
    EitherTagged(store, memory, o);
    EitherTagged(store, memory, p);
    EithersApart(store, o);
    EithersApart(store, p);
    Apart(store.cells, Either(o));
    Apart(store.cells, Either(p));
    store.eithers[o].MoveAssign(store.eithers[p], memory);
    WroteTwo(store.cells, s.words, Either(o), Either(p));
    WroteDataTwo(store.eithers, s.values, o, p);
    if o == p {
      Unchanged(s.words, Either(o));
      SameData(s, o);
    } else {
      MoveAssigned(s, o, p);
    }
  }

  lemma SameData<T>(s: State<T>, o: nat)
    ensures PutData(s.values, o, DataAt(s, o)) == s.values
  {
  }

  // ----- every operation

  ghost predicate Valid<T>(store: Store<T>, memory: Objects.Memory)
    reads memory, store.cells.Values, store.eithers.Values
  {
    Connected(store) && Invariant(Abs(store, memory))
  }

  method ExecuteOnStatus<T(!new)>(store: Store<T>, memory: Objects.Memory, op: Op<T>) returns (next: Store<T>)
    requires Connected(store) && ValueInvariant(Abs(store, memory)) && Enabled(Abs(store, memory), op) && !OnEither(op)
    modifies store.cells.Values, memory
    ensures Step(old(Abs(store, memory)), op) == Running(Abs(next, memory))
    ensures Connected(next) && Grown(store, next)
  {
    hide Linked, Distinct, ValuesIn, ValueInvariant, Put, MoveWord, FreeWord, PutAllocated, TakeWord;
    next := store;
    match op {
      case StatusDefault(x) => next := DefaultStatus(store, memory, x);
      case StatusFromVariable(x, r) => next := WrapVariable(store, memory, x, r);
      case StatusMove(x, y) => next := MoveStatus(store, memory, x, y);
      case StatusMoveAssign(x, y) => MoveAssignStatus(store, memory, x, y);
      case StatusFromCode(x, code) => next := CodeStatus(store, memory, x, code);
      case StatusAssignCode(x, code) => AssignCode(store, memory, x, code);
      case StatusMessage(x, code, emptyMessage, storage) =>
        next := MessageStatus(store, memory, x, code, emptyMessage, storage);
      case StatusIgnore(x) => IgnoreError(store, memory, x);
      case StatusRelease(x, r) => next := ReleaseStatus(store, memory, x, r);
      case StatusToVariable(x, r) => next := UnwrapStatus(store, memory, x, r);
      case StatusDestroy(x) => next := DestroyStatus(store, memory, x);
      case VariableAllocate(r, code, storage) => next := AllocateVariable(store, memory, r, code, storage);
      case VariableFree(r) => next := FreeVariable(store, memory, r);
      case EitherTakeStatus(x, o) => next := TakeStatus(store, memory, x, o);
    }
  }

  predicate GivesStatus<T>(op: Op<T>) { op.EitherFromStatus? || op.EitherAssignStatus? }

  method ExecuteOnEither<T(!new)>(store: Store<T>, memory: Objects.Memory, op: Op<T>) returns (next: Store<T>)
    requires Connected(store) && ValueInvariant(Abs(store, memory)) && Enabled(Abs(store, memory), op)
    requires OnEither(op) && !GivesStatus(op)
    modifies store.cells.Values, store.eithers.Values, memory
    ensures Step(old(Abs(store, memory)), op) == Running(Abs(next, memory))
    ensures Connected(next) && Grown(store, next)
  {
    hide Linked, Distinct, ValuesIn, ValueInvariant, Put, MakeValue, AssignValue, MoveEither, MoveAssignEither,
         DestroyEither;
    next := store;
    match op {
      case EitherDefault(o) => next := DefaultEither(store, memory, o);
      case EitherFromValue(o, value) => next := ValueEither(store, memory, o, value);
      case EitherMove(o, p) => next := MoveFromEither(store, memory, o, p);
      case EitherAssignValue(o, value) => AssignEither(store, memory, o, value);
      case EitherMoveAssign(o, p) => MoveAssignToEither(store, memory, o, p);
      case EitherDestroy(o) => next := EndEither(store, memory, o);
    }
  }

  method ExecuteGivingStatus<T(!new)>(store: Store<T>, memory: Objects.Memory, op: Op<T>)
    returns (alive: bool, next: Store<T>)
    requires Connected(store) && ValueInvariant(Abs(store, memory)) && Enabled(Abs(store, memory), op)
    requires GivesStatus(op)
    modifies store.cells.Values, store.eithers.Values, memory
    ensures Step(old(Abs(store, memory)), op) == if alive then Running(Abs(next, memory)) else Aborted
    ensures alive ==> Connected(next) && Grown(store, next)
  {
    hide Linked, Distinct, ValuesIn, ValueInvariant, OkAt, MoveWord, AssignWord;
    if op.EitherFromStatus? {
      alive, next := StatusEither(store, memory, op.o, op.x);
    } else {
      alive := AssignStatusEither(store, memory, op.o, op.x);
      next := store;
    }
  }

  lemma AbsWords<T>(store: Store<T>, memory: Objects.Memory)
    ensures Abs(store, memory).words == WordsIn(store.cells)
  {
  }

  /** Executing an operation on the objects is the step of the run, and keeps the store valid;
      false is returned exactly where the program aborts.  Its effect on the words of the
      objects: the target of a move has the word of the source, whose payload is gone; and
      every object that lives on keeps its code, but for the target and a released source. */
  method Execute<T(!new)>(store: Store<T>, memory: Objects.Memory, op: Op<T>) returns (alive: bool, next: Store<T>)
    requires Valid(store, memory) && Enabled(Abs(store, memory), op)
    modifies store.cells.Values, store.eithers.Values, memory
    ensures alive <==> Step(old(Abs(store, memory)), op).Running?
    ensures alive ==> Valid(next, memory) && Grown(store, next)
    ensures alive ==> Abs(next, memory) == Step(old(Abs(store, memory)), op).state
    ensures alive ==> Effect(old(Abs(store, memory)), op, Abs(next, memory))
    ensures alive ==> KeepsCodes(old(WordsIn(store.cells)), op, WordsIn(next.cells))
  {
    hide Connected, Abs, OwnershipInvariant, ValueInvariant, Enabled, Step, OnEither, GivesStatus, Effect, WordsIn;
    ghost var s := Abs(store, memory);
    AbsWords(store, memory);
    alive := true;
    if GivesStatus(op) {
      alive, next := ExecuteGivingStatus(store, memory, op);
    } else if OnEither(op) {
      next := ExecuteOnEither(store, memory, op);
    } else {
      next := ExecuteOnStatus(store, memory, op);
    }
    if alive {
      StepKeepsInvariant(s, op);
      StepHasEffect(s, op);
      MovesKeepCodes(s, op);
      AbsWords(next, memory);
    }
  }

  lemma NothingYet<T>(memory: Objects.Memory)
    requires memory.heap == EMPTY_HEAP && memory.lifetimes == Lifetimes(0, 0, false)
    ensures Valid(NoObjects<T>(), memory) && Abs(NoObjects<T>(), memory) == Initial()
  {
    hide HeapInvariant, Owned;
    assert Abs(NoObjects<T>(), memory) == Initial();
    InitialInvariant<T>();
  }

  /** Every run, executed on the objects, ends where the run leads, in a safe state. */
  method Run<T(!new)>(ops: seq<Op<T>>, ghost out: Outcome<T>)
    returns (alive: bool, store: Store<T>, memory: Objects.Memory)
    requires Leads(Initial(), ops, out)
    ensures alive <==> out.Running?
    ensures alive ==> Valid(store, memory) && Abs(store, memory) == out.state && Safe(Abs(store, memory))
  {
    hide Linked, Distinct, Abs, Invariant, Enabled, Step, Safe;
    memory := new Objects.Memory();
    store := NoObjects();
    alive := true;
    NothingYet<T>(memory);
    for i := 0 to |ops|
      invariant alive && Valid(store, memory) && Leads(Abs(store, memory), ops[i..], out)
      invariant fresh(memory) && fresh(store.cells.Values) && fresh(store.eithers.Values)
    {
      alive, store := Execute(store, memory, ops[i]);
      if !alive { return; }
    }
    InvariantIsSafe(Abs(store, memory));
  }
}
