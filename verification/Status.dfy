/**
Status words and the objects that own their payloads.

A status is one word: the low five bits are a code and the other bits are the
address of an optional, owned payload block.  `Status` and `StatusOr` move that
word around; the methods here follow the C++ bodies and state the words, the
payload heap and the in-place values they leave behind.
*/
module StatusWords {
  import opened Words

  const CODE_MASK: nat := 0x1F

  type Code = c: nat | c <= 0x1F

  const OK: Code := 0
  const UNKNOWN: Code := 2

  /** A status word, taken apart; `Encode` puts it together. */
  datatype Word = Word(address: nat, code: Code)

  /** `iree_status_from_code`. */
  function FromCode(code: Code): Word { Word(0, code) }

  /** `iree_status_is_ok`: the whole word is zero. */
  predicate IsOk(word: Word) { word == Word(0, OK) }

  /** What an exchange leaves in the source of a move: the code alone. */
  function Residue(word: Word): Word { FromCode(word.code) }

  /** Only the zero word has the OK code. */
  predicate WellFormed(word: Word) { word.code == OK ==> IsOk(word) }

  /** Moving turns exactly the ill-formed words, such as the OK code with a payload at
      32, from not OK into OK. */
  lemma ResidueKeepsOkIff(word: Word)
    ensures (IsOk(Residue(word)) <==> IsOk(word)) <==> WellFormed(word)
    ensures !WellFormed(Word(32, OK)) && !IsOk(Word(32, OK)) && IsOk(Residue(Word(32, OK)))
  {
  }

  /** Payload blocks are aligned so that a code fits below their address. */
  predicate IsBlockAddress(address: nat) { address > 0 && address % 32 == 0 }

  // ----- the machine word

  function Encode(word: Word): nat { Or(word.code, word.address) }

  predicate Encodable(word: Word, w: nat) {
    word.address % 32 == 0 && word.address + word.code < Pow2(w)
  }

  /** The header's masks and comparisons on the machine word do what the operations
      above do on its parts. */
  lemma EncodingAgrees(word: Word, w: nat)
    requires 5 <= w && Encodable(word, w)
    ensures CODE_MASK < Pow2(w) && Encode(word) < Pow2(w)
    ensures And(Encode(word), CODE_MASK) == word.code
    ensures And(Encode(word), Complement(CODE_MASK, w)) == word.address
    ensures Encode(word) == 0 <==> IsOk(word)
    ensures Encode(Residue(word)) == And(And(Encode(word), CODE_MASK), CODE_MASK)
    ensures Encode(FromCode(word.code)) == And(word.code, CODE_MASK)
  {
    EncodeIsSum(word);
    EncodeIsSum(Residue(word));
    CodeMask(Encode(word), w);
    CodeMask(word.code, w);
    SplitSum(word.address, word.code);
  }

  lemma CodeMask(v: nat, w: nat)
    requires 5 <= w && v < Pow2(w)
    ensures CODE_MASK < Pow2(w)
    ensures And(v, CODE_MASK) == v % 32 && And(v, Complement(CODE_MASK, w)) == v - v % 32
  {
    assert Pow2(5) == 32;
    LowMask(v, 5);
    HighMask(v, 5, w);
  }

  lemma SplitSum(address: nat, code: Code)
    requires address % 32 == 0
    ensures (address + code) % 32 == code && code % 32 == code
  {
  }

  lemma EncodeIsSum(word: Word)
    requires word.address % 32 == 0
    ensures Encode(word) == word.address + word.code
  {
    assert Pow2(5) == 32;
    OrDisjoint(word.code, word.address / 32, 5);
  }

  /** Every machine word is the encoding of exactly one pair. */
  lemma EveryWordDecodes(v: nat, w: nat) returns (word: Word)
    requires 5 <= w && v < Pow2(w)
    ensures Encodable(word, w) && Encode(word) == v
    ensures forall other: Word :: Encodable(other, w) && Encode(other) == v ==> other == word
  {
    word := Word(v - v % 32, v % 32);
    EncodeIsSum(word);
    forall other: Word | Encodable(other, w) && Encode(other) == v
      ensures other == word
    {
      EncodeIsSum(other);
      SplitSum(other.address, other.code);
    }
  }
}

module PayloadHeaps {
  import opened Options
  import opened StatusWords

  /**
  The payload blocks.  Addresses may be reused after a free, so a block is
  identified by its allocation number: `live` maps the address of each live block
  to it, and `frees[i]` counts how often allocation `i` was freed.  `fault` records
  a free of an address that is not live.
  */
  datatype Heap = Heap(live: map<nat, nat>, frees: seq<nat>, fault: bool)

  const EMPTY_HEAP := Heap(map[], [], false)

  /** `iree_status_free`: frees the payload of a word, if it has one. */
  function Free(h: Heap, word: Word): Heap {
    var address := word.address;
    if address == 0 then h
    else if address in h.live && h.live[address] < |h.frees| then
      var i := h.live[address];
      h.(live := h.live - {address}, frees := h.frees[i := h.frees[i] + 1])
    else h.(fault := true)
  }

  /** `iree_status_allocate` at the address the allocator picks; with no storage
      the status is the bare code. */
  function Allocate(h: Heap, code: Code, storage: Option<nat>): (r: (Heap, Word))
    ensures r.1.code == code && r.1.address == if storage.Some? then storage.value else 0
    ensures r.0.live.Keys == h.live.Keys + if storage.Some? then {storage.value} else {}
  {
    match storage
    case None => (h, FromCode(code))
    case Some(address) => (h.(live := h.live[address := |h.frees|], frees := h.frees + [0]), Word(address, code))
  }

  /** What an allocator may return for a failing code. */
  predicate Allocatable(h: Heap, code: Code, storage: Option<nat>) {
    && code != OK
    && (storage.Some? ==> IsBlockAddress(storage.value) && storage.value !in h.live)
  }

  /** A value stored in place; moving out of it leaves it alive. */
  datatype Cell<T> = Full(value: T) | MovedFrom

  /** Constructions and destructions of in-place values; `fault` records a
      construction over a live value or a destruction of a dead one. */
  datatype Lifetimes = Lifetimes(constructed: nat, destroyed: nat, fault: bool) {
    function Construct(alive: bool): Lifetimes {
      Lifetimes(constructed + 1, destroyed, fault || alive)
    }
    function Destroy(alive: bool): Lifetimes {
      Lifetimes(constructed, destroyed + 1, fault || !alive)
    }
  }
}

module StatusObjects {
  import opened Options
  import opened StatusWords
  import opened PayloadHeaps

  /** The payload heap and the in-place value counts, shared by all objects. */
  class Memory {
    var heap: Heap
    var lifetimes: Lifetimes

    constructor ()
      ensures heap == EMPTY_HEAP && lifetimes == Lifetimes(0, 0, false)
    {
      heap := EMPTY_HEAP;
      lifetimes := Lifetimes(0, 0, false);
    }

    /** `iree_status_allocate`. */
    method Allocate(code: Code, storage: Option<nat>) returns (word: Word)
      requires Allocatable(heap, code, storage)
      modifies this`heap
      ensures (heap, word) == PayloadHeaps.Allocate(old(heap), code, storage)
    {
      var (heap', word') := PayloadHeaps.Allocate(heap, code, storage);
      heap, word := heap', word';
    }

    /** `iree_status_ignore`. */
    method Ignore(word: Word) returns (ok: Word)
      modifies this`heap
      ensures IsOk(ok) && heap == Free(old(heap), word)
    {
      heap := Free(heap, word);
      ok := FromCode(OK);
    }
  }

  /** A variable of type `iree_status_t`. */
  class Variable {
    var word: Word

    constructor (word: Word)
      ensures this.word == word
    {
      this.word := word;
    }

    /** `status_impl::exchange`. */
    method Exchange(word: Word) returns (previous: Word)
      modifies this
      ensures previous == old(this.word) && this.word == word
    {
      previous := this.word;
      this.word := word;
    }
  }

  class Status {
    /** The member `value_`. */
    const value: Variable

    constructor ()
      ensures fresh(value) && IsOk(value.word)
    {
      value := new Variable(FromCode(OK));
    }

    constructor FromVariable(variable: Variable)
      modifies variable
      ensures fresh(value) && value.word == old(variable.word) && variable.word == Residue(old(variable.word))
    {
      var previous := variable.Exchange(FromCode(variable.word.code));
      value := new Variable(previous);
    }

    constructor Move(other: Status)
      modifies other.value
      ensures fresh(value) && value.word == old(other.value.word) && other.value.word == Residue(old(other.value.word))
    {
      var previous := other.value.Exchange(FromCode(other.GetCode()));
      value := new Variable(previous);
    }

    constructor OfCode(code: Code)
      ensures fresh(value) && value.word == FromCode(code)
    {
      value := new Variable(FromCode(code));
    }

    /** A message is ignored for the OK code; an empty one needs no storage. */
    constructor WithMessage(code: Code, emptyMessage: bool, storage: Option<nat>, memory: Memory)
      requires code != OK ==> Allocatable(memory.heap, code, storage)
      modifies memory`heap
      ensures fresh(value)
      ensures code == OK ==> IsOk(value.word) && memory.heap == old(memory.heap)
      ensures code != OK ==>
        (memory.heap, value.word) == Allocate(old(memory.heap), code, if emptyMessage then None else storage)
    {
      var word := FromCode(OK);
      if code != OK {
        if emptyMessage {
          word := FromCode(code);
        } else {
          word := memory.Allocate(code, storage);
        }
      }
      value := new Variable(word);
    }

    predicate Ok()
      reads value
    {
      IsOk(value.word)
    }

    function GetCode(): Code
      reads value
    {
      value.word.code
    }

    method MoveAssign(other: Status, memory: Memory)
      requires this != other ==> value != other.value
      modifies value, other.value, memory`heap
      ensures this == other ==> value.word == old(value.word) && memory.heap == old(memory.heap)
      ensures this != other ==> value.word == old(other.value.word)
      ensures this != other ==> other.value.word == Residue(old(other.value.word))
      ensures this != other ==> memory.heap == Free(old(memory.heap), old(value.word))
    {
      if this != other {
        if !IsOk(value.word) { var _ := memory.Ignore(value.word); }
        var previous := other.value.Exchange(FromCode(other.GetCode()));
        value.word := previous;
      }
    }

    method AssignCode(code: Code, memory: Memory)
      modifies value, memory`heap
      ensures value.word == FromCode(code) && memory.heap == Free(old(memory.heap), old(value.word))
    {
      if !IsOk(value.word) { var _ := memory.Ignore(value.word); }
      value.word := FromCode(code);
    }

    /** The destructor. */
    method Destroy(memory: Memory)
      modifies memory`heap
      ensures memory.heap == Free(old(memory.heap), value.word)
    {
      if value.word.address != 0 { memory.heap := Free(memory.heap, value.word); }
    }

    method IgnoreError(memory: Memory)
      modifies value, memory`heap
      ensures IsOk(value.word) && memory.heap == Free(old(memory.heap), old(value.word))
    {
      value.word := memory.Ignore(value.word);
    }

    /** `operator iree_status_t() &&`. */
    method ToVariable() returns (word: Word)
      modifies value
      ensures word == old(value.word) && value.word == Residue(old(value.word))
    {
      word := value.Exchange(FromCode(GetCode()));
    }

    method Release() returns (word: Word)
      modifies value
      ensures word == old(value.word) && IsOk(value.word)
    {
      word := value.Exchange(FromCode(OK));
    }

    /** `status_impl::exchange(*this, this->code())`: a move out, then an assignment of the code. */
    method ExchangeWithCode(memory: Memory) returns (previous: Status)
      modifies value, memory`heap
      ensures fresh(previous) && fresh(previous.value) && previous.value.word == old(value.word)
      ensures value.word == Residue(old(value.word)) && memory.heap == old(memory.heap)
    {
      var code := GetCode();
      previous := new Status.Move(this);
      AssignCode(code, memory);
    }
  }

  /**
  `StatusOr<T>`: a status and, in a union, a value that is alive exactly when the
  status is OK.  `data` is the union member, `None` when it is not alive.  A word
  that pairs the OK code with a payload breaks this: it is not OK, but the residue
  of moving it is, so a move leaves its source tagged exactly when the word was
  well formed.  The operations that check `EnsureNotOk` return false where the
  program aborts.
  */
  class StatusOr<T> {
    const status: Status
    var data: Option<Cell<T>>

    /** The value is alive exactly when the status is OK. */
    ghost predicate Tagged()
      reads this, status.value
    {
      data.Some? <==> status.Ok()
    }

    ghost predicate Valid()
      reads this, status.value
    {
      WellFormed(status.value.word) && Tagged()
    }

    /** `StatusOr()`: an unknown error without a message. */
    constructor ()
      ensures fresh(status) && fresh(status.value) && Valid()
      ensures status.value.word == FromCode(UNKNOWN) && data == None
    {
      var unknown := new Status.OfCode(UNKNOWN);
      status := new Status.Move(unknown);
      data := None;
    }

    constructor FromValue(value: T, memory: Memory)
      modifies memory`lifetimes
      ensures fresh(status) && fresh(status.value) && Valid()
      ensures IsOk(status.value.word) && data == Some(Full(value))
      ensures memory.lifetimes == old(memory.lifetimes).Construct(false)
    {
      status := new Status();
      data := Some(Full(value));
      memory.lifetimes := memory.lifetimes.Construct(false);
    }

    /** Aborts on an OK status; `Tagged` is false then. */
    constructor FromStatus(source: Status, memory: Memory)
      modifies source.value, memory`heap
      ensures fresh(status) && fresh(status.value) && status.value.word == old(source.value.word)
      ensures source.value.word == Residue(old(source.value.word))
      ensures data == None && memory.heap == old(memory.heap)
      ensures Tagged() <==> !IsOk(old(source.value.word))
    {
      var temporary := source.ExchangeWithCode(memory);
      status := new Status.Move(temporary);
      data := None;
      new;
      temporary.Destroy(memory);
    }

    constructor Move(other: StatusOr<T>, memory: Memory)
      requires other.Tagged()
      modifies other, other.status.value, memory
      ensures fresh(status) && fresh(status.value) && Tagged() && memory.heap == old(memory.heap)
      ensures other.Tagged() <==> WellFormed(old(other.status.value.word))
      ensures status.value.word == old(other.status.value.word) && data == old(other.data)
      ensures other.status.value.word == Residue(old(other.status.value.word))
      ensures other.data == if old(other.status.Ok()) then Some(MovedFrom) else None
      ensures memory.lifetimes
           == if old(other.status.Ok()) then old(memory.lifetimes).Construct(false) else old(memory.lifetimes)
    {
      if other.status.Ok() {
        data := Some(other.data.value);
        other.data := Some(MovedFrom);
        memory.lifetimes := memory.lifetimes.Construct(false);
        status := new Status();
      } else {
        var temporary := other.status.ExchangeWithCode(memory);
        status := new Status.Move(temporary);
        temporary.Destroy(memory);
        data := None;
      }
    }

    method AssignValue(value: Cell<T>, memory: Memory)
      requires Tagged()
      modifies this, status.value, memory
      ensures Valid() && IsOk(status.value.word) && data == Some(value)
      ensures memory.heap == Free(old(memory.heap), old(status.value.word))
      ensures memory.lifetimes == Assigned(old(memory.lifetimes), old(status.Ok()), true)
    {
      if status.Ok() {
        memory.lifetimes := memory.lifetimes.Destroy(data.Some?);
        data := None;
        memory.lifetimes := memory.lifetimes.Construct(data.Some?);
        data := Some(value);
      } else {
        memory.lifetimes := memory.lifetimes.Construct(data.Some?);
        data := Some(value);
        status.AssignCode(OK, memory);
      }
    }

    /** Clears the value first, then takes the status; false where `EnsureNotOk` aborts. */
    method AssignStatus(source: Status, memory: Memory) returns (alive: bool)
      requires Tagged() && source != status && source.value != status.value
      modifies this, status.value, source.value, memory
      ensures alive <==> !IsOk(old(source.value.word))
      ensures alive <==> Tagged()
      ensures status.value.word == old(source.value.word) && data == None
      ensures source.value.word == Residue(old(source.value.word))
      ensures memory.heap == Free(old(memory.heap), old(status.value.word))
      ensures memory.lifetimes == Assigned(old(memory.lifetimes), old(status.Ok()), false)
    {
      if status.Ok() {
        memory.lifetimes := memory.lifetimes.Destroy(data.Some?);
        data := None;
      }
      var temporary := source.ExchangeWithCode(memory);
      status.MoveAssign(temporary, memory);
      temporary.Destroy(memory);
      alive := !status.Ok();
    }

    method MoveAssign(other: StatusOr<T>, memory: Memory)
      requires Tagged() && other.Tagged()
      requires this != other ==> status != other.status && status.value != other.status.value
      modifies this, status.value, other, other.status.value, memory
      ensures Tagged()
      ensures this == other ==> data == old(data) && status.value.word == old(status.value.word)
      ensures this == other ==> memory.heap == old(memory.heap) && memory.lifetimes == old(memory.lifetimes)
      ensures this != other ==> (other.Tagged() <==> WellFormed(old(other.status.value.word)))
      ensures this != other ==> status.value.word == old(other.status.value.word) && data == old(other.data)
      ensures this != other ==> other.status.value.word == Residue(old(other.status.value.word))
      ensures this != other ==> other.data == if old(other.status.Ok()) then Some(MovedFrom) else None
      ensures this != other ==> memory.heap == Free(old(memory.heap), old(status.value.word))
      ensures this != other ==>
        memory.lifetimes == Assigned(old(memory.lifetimes), old(status.Ok()), old(other.status.Ok()))
    {
      if this != other {
        if other.status.Ok() {
          var value := other.data.value;
          other.data := Some(MovedFrom);
          AssignValue(value, memory);
        } else {
          var temporary := other.status.ExchangeWithCode(memory);
          var _ := AssignStatus(temporary, memory);
          temporary.Destroy(memory);
        }
      }
    }

    /** `Status status() &&`. */
    method TakeStatus(memory: Memory) returns (taken: Status)
      requires Tagged()
      modifies status.value, memory`heap
      ensures fresh(taken) && fresh(taken.value) && taken.value.word == old(status.value.word)
      ensures status.value.word == Residue(old(status.value.word)) && memory.heap == old(memory.heap)
      ensures Tagged() <==> WellFormed(old(status.value.word))
    {
      if status.Ok() {
        taken := new Status();
      } else {
        taken := status.ExchangeWithCode(memory);
      }
    }

    /** The destructor; the value goes with an OK status. */
    method Destroy(memory: Memory)
      requires Tagged()
      modifies this, memory
      ensures memory.heap == Free(old(memory.heap), status.value.word) && data == None
      ensures memory.lifetimes == Assigned(old(memory.lifetimes), status.Ok(), false)
    {
      if status.Ok() {
        status.Destroy(memory);
        memory.lifetimes := memory.lifetimes.Destroy(data.Some?);
        data := None;
      } else {
        status.Destroy(memory);
      }
    }
  }

  /** The value that is replaced, if any, is destroyed and the one that is taken, if any,
      is constructed. */
  function Assigned(l: Lifetimes, targetOk: bool, sourceOk: bool): Lifetimes {
    var cleared := if targetOk then l.Destroy(true) else l;
    if sourceOk then cleared.Construct(false) else cleared
  }
}
