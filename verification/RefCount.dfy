/**
Reference-counted HAL resources.

`Protocol` is the concurrent protocol: any number of threads, each step one atomic
action.  `Resource` is the object; each of its operations takes it along the protocol.
The count is a 32-bit integer and wraps, so it names the number of references only
modulo 2^32.
*/
module RefCount {

  const MODULUS := 0x1_0000_0000

  /** The value an `int32` holds after exact arithmetic gave `x`. */
  function Int32(x: int): (r: int)
    ensures -0x8000_0000 <= r < 0x8000_0000
    ensures (x - r) % MODULUS == 0
  {
    var low := x % MODULUS;
    if low < 0x8000_0000 then low else low - MODULUS
  }

  lemma Int32Step(x: int, d: int)
    ensures Int32(Int32(x) + d) == Int32(x + d)
  {
  }

  lemma Int32IsOne(x: int)
    ensures Int32(x) == 1 <==> x % MODULUS == 1
  {
  }

  // ----- the protocol

  type Thread = nat

  /** `refs` has one occurrence of a thread per reference it holds; `pending` the
      threads that saw the count drop from one and have yet to call destroy. */
  datatype Protocol = Protocol(count: int, refs: multiset<Thread>, pending: multiset<Thread>, destroys: nat)

  datatype Action =
    | Increment(t: Thread)
    | HandOver(t: Thread, to: Thread)
    | Decrement(t: Thread)
    | CallDestroy(t: Thread)

  function Created(t: Thread): Protocol {
    Protocol(1, multiset{t}, multiset{}, 0)
  }

  /** Only a thread that holds a reference retains, hands over or releases. */
  predicate Enabled(p: Protocol, a: Action) {
    if a.CallDestroy? then a.t in p.pending else a.t in p.refs
  }

  function Next(p: Protocol, a: Action): Protocol
    requires Enabled(p, a)
  {
    match a
    case Increment(t) => p.(count := Int32(p.count + 1), refs := p.refs + multiset{t})
    case HandOver(t, to) => p.(refs := p.refs - multiset{t} + multiset{to})
    case Decrement(t) =>
      p.(count := Int32(p.count - 1),
         refs := p.refs - multiset{t},
         pending := if p.count == 1 then p.pending + multiset{t} else p.pending)
    case CallDestroy(t) => p.(pending := p.pending - multiset{t}, destroys := p.destroys + 1)
  }

  // ----- the object

  class Resource {
    var refCount: int
    var destroys: nat

    /** The object is in the state the protocol is in. */
    predicate In(p: Protocol)
      reads this
    {
      refCount == p.count && destroys == p.destroys
    }

    /** `iree_hal_resource_initialize`, by the thread `t` that gets the first reference. */
    constructor (ghost t: Thread)
      ensures In(Created(t))
    {
      refCount := 1;
      destroys := 0;
    }

    /** `iree_atomic_ref_count_inc`. */
    method Increment(ghost p: Protocol, ghost t: Thread)
      requires In(p) && Enabled(p, Action.Increment(t))
      modifies this
      ensures In(Next(p, Action.Increment(t)))
    {
      refCount := Int32(refCount + 1);
    }

    /** `iree_atomic_ref_count_dec`: returns the count before the decrement, which is one
        exactly when the destroy is now due from this thread. */
    method Decrement(ghost p: Protocol, ghost t: Thread) returns (previous: int)
      requires In(p) && Enabled(p, Action.Decrement(t))
      modifies this
      ensures previous == old(refCount)
      ensures var p' := Next(p, Action.Decrement(t));
        In(p') && p'.pending == if previous == 1 then p.pending + multiset{t} else p.pending
    {
      previous := refCount;
      refCount := Int32(refCount - 1);
    }
  }

  /** The typed retain of a thread that holds a reference; null is ignored. */
  method Retain(resource: Resource?, ghost p: Protocol, ghost t: Thread)
    requires resource != null ==> resource.In(p) && Enabled(p, Increment(t))
    modifies resource
    ensures resource != null ==> resource.In(Next(p, Increment(t)))
  {
    if resource != null {
      resource.Increment(p, t);
    }
  }

  /** The typed destroy, by a thread from which it is due; null is ignored. */
  method Destroy(resource: Resource?, ghost p: Protocol, ghost t: Thread)
    requires resource != null ==> resource.In(p) && Enabled(p, CallDestroy(t))
    modifies resource
    ensures resource != null ==> resource.In(Next(p, CallDestroy(t)))
  {
    if resource != null {
      resource.destroys := resource.destroys + 1;
    }
  }

  /** What `Release` does when no other thread comes in between: the decrement and, if
      that made the destroy due, the destroy. */
  function Released(p: Protocol, t: Thread): Protocol
    requires t in p.refs
  {
    var p' := Next(p, Decrement(t));
    if p'.pending == p.pending then p' else Next(p', CallDestroy(t))
  }

  method Release(resource: Resource?, ghost p: Protocol, ghost t: Thread)
    requires resource != null ==> resource.In(p) && t in p.refs
    modifies resource
    ensures resource != null ==> resource.In(Released(p, t))
  {
    if resource != null {
      var previous := resource.Decrement(p, t);
      if previous == 1 {
        assert (p.pending + multiset{t})[t] == p.pending[t] + 1;
        Destroy(resource, Next(p, Decrement(t)), t);
      }
    }
  }

  /** One action of the interleaving, carried out on the object.  `due` are the threads whose
      decrement read one and that have not called destroy yet. */
  method Perform(resource: Resource, ghost p: Protocol, a: Action, due: multiset<Thread>)
    returns (nowDue: multiset<Thread>)
    requires resource.In(p) && due == p.pending && Enabled(p, a)
    modifies resource
    ensures resource.In(Next(p, a)) && nowDue == Next(p, a).pending
  {
    nowDue := due;
    match a
    case Increment(t) => Retain(resource, p, t);
    case HandOver(_, _) =>
    case Decrement(t) =>
      var previous := resource.Decrement(p, t);
      if previous == 1 { nowDue := due + multiset{t}; }
    case CallDestroy(t) =>
      Destroy(resource, p, t);
      nowDue := due - multiset{t};
  }

  /** Each action of the interleaving is enabled when its turn comes. */
  ghost predicate Run(p: Protocol, actions: seq<Action>)
    decreases |actions|
  {
    actions == [] || (Enabled(p, actions[0]) && Run(Next(p, actions[0]), actions[1..]))
  }

  /** The state after the first `n` actions. */
  ghost function After(p: Protocol, actions: seq<Action>, n: nat): Protocol
    requires Run(p, actions) && n <= |actions|
    decreases |actions|
  {
    if n == 0 then p else After(Next(p, actions[0]), actions[1..], n - 1)
  }

  /** Destroy is due or done only when no reference is left, and once at most. */
  predicate Safe(p: Protocol) {
    && |p.pending| + p.destroys <= 1
    && (|p.pending| + p.destroys > 0 ==> |p.refs| == 0)
  }

  /** A release at which the wrapped count reads one although other references remain. */
  predicate Overflows(p: Protocol, a: Action) {
    a.Decrement? && |p.refs| > 1 && |p.refs| % MODULUS == 1
  }

  /** The count names the references modulo 2^32; once the last one went, exactly
      one destroy is due or done. */
  predicate Invariant(p: Protocol) {
    && p.count == Int32(|p.refs|)
    && |p.pending| + p.destroys == if |p.refs| == 0 then 1 else 0
  }

  lemma NextKeepsInvariant(p: Protocol, a: Action)
    requires Invariant(p) && Enabled(p, a) && !Overflows(p, a)
    ensures Invariant(Next(p, a))
  {
    match a
    case Increment(t) => Int32Step(|p.refs|, 1);
    case HandOver(t, to) =>
    case Decrement(t) => DecrementKeepsInvariant(p, t);
    case CallDestroy(t) => assert |p.pending - multiset{t}| == |p.pending| - 1;
  }

  lemma DecrementKeepsInvariant(p: Protocol, t: Thread)
    requires Invariant(p) && t in p.refs && !Overflows(p, Decrement(t))
    ensures Invariant(Next(p, Decrement(t)))
  {
    var n := |p.refs|;
    assert |p.refs - multiset{t}| == n - 1;
    Int32Step(n, -1);
    Int32IsOne(n);
    if 1 < n && n % MODULUS == 1 { } else if n == 1 { } else { assert p.count != 1; }
  }

  lemma OverflowIsUnsafe(p: Protocol, a: Action)
    requires Invariant(p) && Enabled(p, a) && Overflows(p, a)
    ensures !Safe(Next(p, a))
  {
    Int32IsOne(|p.refs|);
    assert |p.refs - multiset{a.t}| == |p.refs| - 1;
  }

  lemma {:induction false} RunKeepsInvariant(p: Protocol, actions: seq<Action>, n: nat)
    requires Invariant(p) && Run(p, actions) && n <= |actions|
    requires forall i :: 0 <= i < n ==> !Overflows(After(p, actions, i), actions[i])
    ensures Invariant(After(p, actions, n))
    decreases n
  {
    if n > 0 {
      assert !Overflows(After(p, actions, 0), actions[0]);
      NextKeepsInvariant(p, actions[0]);
      forall i | 0 <= i < n - 1
        ensures !Overflows(After(Next(p, actions[0]), actions[1..], i), actions[1..][i])
      {
        assert !Overflows(After(p, actions, i + 1), actions[i + 1]);
      }
      RunKeepsInvariant(Next(p, actions[0]), actions[1..], n - 1);
    }
  }

  lemma {:induction false} AfterStep(p: Protocol, actions: seq<Action>, n: nat)
    requires Run(p, actions) && n < |actions|
    ensures Enabled(After(p, actions, n), actions[n])
    ensures After(p, actions, n + 1) == Next(After(p, actions, n), actions[n])
    decreases n
  {
    if n > 0 { AfterStep(Next(p, actions[0]), actions[1..], n - 1); }
  }

  /** `u` gets a reference, or gives one up. */
  predicate Gains(a: Action, u: Thread) {
    (a.Increment? && a.t == u) || (a.HandOver? && a.to == u)
  }

  predicate GivesUp(a: Action, u: Thread) {
    (a.Decrement? || a.HandOver?) && a.t == u
  }

  function Count(actions: seq<Action>, counted: Action -> bool): nat {
    if actions == [] then 0 else (if counted(actions[0]) then 1 else 0) + Count(actions[1..], counted)
  }

  lemma NextReferences(p: Protocol, a: Action, u: Thread)
    requires Enabled(p, a)
    ensures Next(p, a).refs[u] + (if GivesUp(a, u) then 1 else 0) == p.refs[u] + if Gains(a, u) then 1 else 0
    ensures Next(p, a).destroys == p.destroys + if a.CallDestroy? then 1 else 0
  {
  }

  /** Each thread holds what it retained or was handed, less what it released or handed on;
      a destroy is counted for each call. */
  lemma {:induction false} ReferencesFollowHistory(p: Protocol, actions: seq<Action>, u: Thread)
    requires Run(p, actions)
    ensures var q := After(p, actions, |actions|);
      && q.refs[u] + Count(actions, a => GivesUp(a, u)) == p.refs[u] + Count(actions, a => Gains(a, u))
      && q.destroys == p.destroys + Count(actions, (a: Action) => a.CallDestroy?)
    decreases |actions|
  {
    hide Next, Enabled, Gains, GivesUp;
    if actions != [] {
      NextReferences(p, actions[0], u);
      ReferencesFollowHistory(Next(p, actions[0]), actions[1..], u);
    }
  }

  /** An interleaving is safe throughout exactly when no release in it meets
      1 + k * 2^32 references with k > 0. */
  lemma SafeIffNoOverflow(t: Thread, actions: seq<Action>)
    requires Run(Created(t), actions)
    ensures (forall n :: 0 <= n <= |actions| ==> Safe(After(Created(t), actions, n)))
       <==> (forall i :: 0 <= i < |actions| ==> !Overflows(After(Created(t), actions, i), actions[i]))
  {
    var p := Created(t);
    if forall i :: 0 <= i < |actions| ==> !Overflows(After(p, actions, i), actions[i]) {
      forall n | 0 <= n <= |actions|
        ensures Safe(After(p, actions, n))
      {
        RunKeepsInvariant(p, actions, n);
      }
    } else {
      var i := FirstOverflow(p, actions);
      RunKeepsInvariant(p, actions, i);
      AfterStep(p, actions, i);
      OverflowIsUnsafe(After(p, actions, i), actions[i]);
    }
  }

  lemma FirstOverflow(p: Protocol, actions: seq<Action>) returns (i: nat)
    requires Run(p, actions)
    requires exists i :: 0 <= i < |actions| && Overflows(After(p, actions, i), actions[i])
    ensures i < |actions| && Overflows(After(p, actions, i), actions[i])
    ensures forall j :: 0 <= j < i ==> !Overflows(After(p, actions, j), actions[j])
  {
    hide After, Overflows;
    i := 0;
    while !Overflows(After(p, actions, i), actions[i])
      invariant i < |actions|
      invariant forall j :: 0 <= j < i ==> !Overflows(After(p, actions, j), actions[j])
      decreases |actions| - i
    {
      i := i + 1;
    }
  }

  /**
  With at most 2^32 references at any time, any interleaving keeps the count equal to
  the references as an int32, which below 2^31 is their number, destroys at most once
  and never while a reference is held, and has destroyed exactly once when all
  references and pending calls are gone.
  */
  lemma InterleavingsAreSafe(t: Thread, actions: seq<Action>)
    requires Run(Created(t), actions)
    requires forall n :: 0 <= n <= |actions| ==> |After(Created(t), actions, n).refs| <= MODULUS
    ensures forall n :: 0 <= n <= |actions| ==>
      var p := After(Created(t), actions, n);
      && p.count == Int32(|p.refs|)
      && (|p.refs| < 0x8000_0000 ==> p.count == |p.refs|)
      && Safe(p)
      && (|p.refs| == 0 && |p.pending| == 0 ==> p.destroys == 1)
  {
    hide After, Run, Invariant;
    forall n | 0 <= n <= |actions|
      ensures var p := After(Created(t), actions, n);
        && p.count == Int32(|p.refs|)
        && (|p.refs| < 0x8000_0000 ==> p.count == |p.refs|)
        && Safe(p)
        && (|p.refs| == 0 && |p.pending| == 0 ==> p.destroys == 1)
    {
      CreatedInvariant(t);
      RunKeepsInvariant(Created(t), actions, n);
      InvariantIsSafe(After(Created(t), actions, n));
    }
  }

  lemma CreatedInvariant(t: Thread)
    ensures Invariant(Created(t))
  {
  }

  lemma InvariantIsSafe(p: Protocol)
    requires Invariant(p)
    ensures p.count == Int32(|p.refs|) && (|p.refs| < 0x8000_0000 ==> p.count == |p.refs|)
    ensures Safe(p) && (|p.refs| == 0 && |p.pending| == 0 ==> p.destroys == 1)
  {
  }

  /** Every interleaving, carried out on one object, takes it where the protocol goes; with at
      most 2^32 references it is destroyed at most once, and once when all have let go. */
  method Interleave(t: Thread, actions: seq<Action>) returns (resource: Resource)
    requires Run(Created(t), actions)
    ensures var p := After(Created(t), actions, |actions|);
      && resource.In(p)
      && ((forall n :: 0 <= n <= |actions| ==> |After(Created(t), actions, n).refs| <= MODULUS) ==>
            resource.destroys <= 1 && (|p.refs| == 0 && |p.pending| == 0 ==> resource.destroys == 1))
  {
    hide Enabled, Next;
    resource := new Resource(t);
    var due := multiset{};
    for i := 0 to |actions|
      invariant fresh(resource) && resource.In(After(Created(t), actions, i))
      invariant due == After(Created(t), actions, i).pending
    {
      AfterStep(Created(t), actions, i);
      due := Perform(resource, After(Created(t), actions, i), actions[i], due);
    }
    if forall n :: 0 <= n <= |actions| ==> |After(Created(t), actions, n).refs| <= MODULUS {
      InterleavingsAreSafe(t, actions);
    }
  }

  /** After the destroy no thread can touch the resource any more. */
  lemma NothingFollowsDestroy(p: Protocol, a: Action)
    requires Invariant(p) && p.destroys > 0
    ensures !Enabled(p, a)
  {
    assert |p.pending| == 0;
  }

  // ----- the overflow is reachable

  /** `n` retains by `t`, then one release. */
  function RetainsThenRelease(t: Thread, n: nat): (actions: seq<Action>)
    ensures |actions| == n + 1 && actions[n] == Decrement(t)
  {
    if n == 0 then [Decrement(t)] else [Increment(t)] + RetainsThenRelease(t, n - 1)
  }

  lemma {:induction false} RetainsCount(p: Protocol, t: Thread, n: nat)
    requires t in p.refs && Invariant(p)
    ensures Run(p, RetainsThenRelease(t, n))
    ensures var q := After(p, RetainsThenRelease(t, n), n); Invariant(q) && |q.refs| == |p.refs| + n
    decreases n
  {
    if n > 0 {
      NextKeepsInvariant(p, Increment(t));
      RetainsCount(Next(p, Increment(t)), t, n - 1);
      assert RetainsThenRelease(t, n)[1..] == RetainsThenRelease(t, n - 1);
    }
  }

  /** The creator can retain k * 2^32 times; its next release then destroys the
      resource while the others are still held. */
  lemma OverflowIsReachable(t: Thread, k: nat, n: nat)
    requires k > 0 && n == k * MODULUS
    ensures Run(Created(t), RetainsThenRelease(t, n))
    ensures !Safe(After(Created(t), RetainsThenRelease(t, n), n + 1))
  {
    RetainsCount(Created(t), t, n);
    AfterStep(Created(t), RetainsThenRelease(t, n), n);
    OverflowIsUnsafe(After(Created(t), RetainsThenRelease(t, n), n), Decrement(t));
  }
}
