/** mbed-os/platform/CircularBuffer.h: a ring of fixed size whose head and tail are counters of a
    chosen integer type, and the bounded queue it represents. */
module CircularBuffer {
  import opened Arithmetic

  /** What the ring represents: push on a full queue forgets the oldest element. */
  function PushSpec<T>(capacity: nat, q: seq<T>, x: T): seq<T> {
    (if |q| == capacity && q != [] then q[1..] else q) + [x]
  }

  lemma PushWithRoom<T>(capacity: nat, q: seq<T>, x: T)
    requires |q| < capacity
    ensures PushSpec(capacity, q, x) == q + [x]
  {
  }

  /** The elements from the tail to the head, going round. */
  function Ring<T>(s: seq<T>, head: nat, tail: nat, full: bool): seq<T>
    requires head < |s| && tail < |s|
  {
    if full || head < tail then s[tail..] + s[..head] else s[tail..head]
  }

  function NextIndex(size: nat, i: nat): nat {
    if i + 1 == size then 0 else i + 1
  }

  lemma RingPush<T>(s: seq<T>, head: nat, tail: nat, full: bool, x: T)
    requires head < |s| && tail < |s| && (full ==> head == tail)
    ensures var head', tail' := NextIndex(|s|, head), if full then NextIndex(|s|, tail) else tail;
            Ring(s[head := x], head', tail', head' == tail') == PushSpec(|s|, Ring(s, head, tail, full), x)
  {
    var r := s[head := x];
    if full {
      assert r[..head + 1] == s[..head] + [x];
    } else if head < tail {
      assert r[..head + 1] == s[..head] + [x];
    } else {
      assert r[tail..head + 1] == s[tail..head] + [x];
    }
  }

  lemma ModMinus(x: nat, d: nat, gap: nat)
    requires 0 < gap <= d <= x
    ensures (x - gap) % d == if gap <= x % d then x % d - gap else d + x % d - gap
  {
    var q, r := x / d, x % d;
    assert x == q * d + r;
    if gap <= r {
      DivUnique(x - gap, d, q, r - gap);
    } else {
      assert (q - 1) * d == q * d - d;
      assert q >= 1;
      DivUnique(x - gap, d, q - 1, d + r - gap);
    }
  }

  /** BufferSize minus `gap` is the length of a ring that goes round, in CounterType, exactly if
      BufferSize fits it or reduces to nothing. */
  lemma WrongLength(size: nat, modulus: nat, gap: nat)
    requires 0 < gap < size && gap < modulus
    ensures size <= modulus ==> (size - gap) % modulus == size - gap
    ensures size >= modulus ==> ((size - gap) % modulus == modulus - gap <==> size % modulus == 0)
  {
    if size <= modulus {
      DivUnique(size - gap, modulus, 0, size - gap);
    }
    if size >= modulus {
      ModMinus(size, modulus, gap);
    }
  }

  class CircularBuffer<T(0)> {
    /** The template parameters; CounterType holds 0 .. counterModulus - 1, and nothing relates the
        two. */
    const bufferSize: nat
    const counterModulus: nat
    const pool: array<T>
    var head: nat
    var tail: nat
    var isFull: bool

    /** How many elements fit: the indices go round at whichever limit comes first. */
    function Capacity(): nat {
      if bufferSize <= counterModulus then bufferSize else counterModulus
    }

    ghost predicate Valid()
      reads this
    {
      && 0 < bufferSize && 0 < counterModulus
      && pool.Length == bufferSize
      && head < Capacity() && tail < Capacity()
      && (isFull ==> head == tail)
    }

    /** The queue, oldest element first. */
    ghost function Contents(): (q: seq<T>)
      requires Valid()
      reads this, pool
      ensures |q| <= Capacity()
    {
      Ring(pool[..Capacity()], head, tail, isFull)
    }

    constructor (bufferSize: nat, counterModulus: nat)
      requires 0 < bufferSize && 0 < counterModulus
      ensures Valid() && Contents() == [] && fresh(pool)
      ensures this.bufferSize == bufferSize && this.counterModulus == counterModulus
    {
      this.bufferSize, this.counterModulus := bufferSize, counterModulus;
      pool := new T[bufferSize];
      head, tail, isFull := 0, 0, false;
    }

    /** What CounterType keeps of a number. */
    function Truncated(x: nat): nat
      requires 0 < counterModulus
    {
      x % counterModulus
    }

    /** `counter++; counter %= BufferSize` in CounterType. */
    function Advance(counter: nat): nat
      requires 0 < bufferSize && 0 < counterModulus
    {
      Truncated(counter + 1) % bufferSize
    }

    lemma TruncatedIs(x: nat)
      requires 0 < counterModulus && x <= counterModulus
      ensures Truncated(x) == if x == counterModulus then 0 else x
    {
    }

    lemma AdvanceIs(counter: nat)
      requires 0 < bufferSize && counter < Capacity()
      ensures 0 < counterModulus && Advance(counter) == NextIndex(Capacity(), counter)
    {
      hide Truncated;
      TruncatedIs(counter + 1);
      assert 0 % bufferSize == 0;
    }

    method Push(data: T)
      requires Valid()
      modifies this`head, this`tail, this`isFull, pool
      ensures Valid() && Contents() == PushSpec(Capacity(), old(Contents()), data)
    {
      hide Advance, PushSpec, Ring;
      AdvanceIs(tail);
      AdvanceIs(head);
      RingPush(pool[..Capacity()], head, tail, isFull, data);
      if isFull {
        tail := Advance(tail);
      }
      pool[head] := data;
      head := Advance(head);
      if head == tail {
        isFull := true;
      }
    }

    method Pop() returns (popped: bool, data: T)
      requires Valid()
      modifies this`tail, this`isFull
      ensures Valid() && popped == (old(Contents()) != [])
      ensures popped ==> data == old(Contents())[0] && Contents() == old(Contents())[1..]
      ensures !popped ==> Contents() == []
    {
      hide Advance;
      AdvanceIs(tail);
      popped, data := false, *;
      var empty := Empty();
      if !empty {
        assert Contents()[0] == pool[tail];
        data := pool[tail];
        tail := Advance(tail);
        isFull := false;
        popped := true;
      }
    }

    method Empty() returns (empty: bool)
      requires Valid()
      ensures empty <==> Contents() == []
    {
      empty := head == tail && !isFull;
    }

    method Full() returns (full: bool)
      requires Valid()
      ensures full <==> |Contents()| == Capacity()
    {
      full := isFull;
    }

    method Reset()
      requires Valid()
      modifies this`head, this`tail, this`isFull
      ensures Valid() && Contents() == []
    {
      head := 0;
      tail := 0;
      isFull := false;
    }

    /** The length, truncated to CounterType. As long as the elements do not go round the end of the
        pool it is right; beyond that exactly if the size fits CounterType, or the buffer is not full
        and the size is a multiple of what CounterType can count to. */
    method Size() returns (elements: nat)
      requires Valid()
      ensures elements == |Contents()| <==>
                || bufferSize < counterModulus
                || !(isFull || head < tail)
                || (!isFull && bufferSize % counterModulus == 0)
      ensures isFull ==> elements == Truncated(bufferSize)
      ensures bufferSize <= counterModulus ==> elements == if |Contents()| == counterModulus then 0 else |Contents()|
    {
      if !isFull {
        if head < tail {
          elements := Truncated(bufferSize + head - tail);
          WrongLength(bufferSize, counterModulus, tail - head);
        } else {
          elements := Truncated(head - tail);
          TruncatedIs(head - tail);
        }
      } else {
        elements := Truncated(bufferSize);
        TruncatedIs(Capacity());
      }
    }
  }

  // ---------------------------------------------------------------- whole histories

  datatype Op<T> = Push(x: T) | Pop | Reset

  /** A queue with its history: what was taken out by pop, and what push or reset threw away. */
  datatype History<T> = History(queue: seq<T>, popped: seq<T>, gone: seq<T>, lost: nat)

  ghost function Apply<T>(capacity: nat, h: History<T>, op: Op<T>): History<T> {
    match op
    case Push(x) =>
      if |h.queue| == capacity && h.queue != []
      then History(PushSpec(capacity, h.queue, x), h.popped, h.gone + [h.queue[0]], h.lost + 1)
      else h.(queue := PushSpec(capacity, h.queue, x))
    case Pop =>
      if h.queue == [] then h
      else History(h.queue[1..], h.popped + [h.queue[0]], h.gone + [h.queue[0]], h.lost)
    case Reset => History([], h.popped, h.gone + h.queue, h.lost + |h.queue|)
  }

  ghost function Run<T>(capacity: nat, ops: seq<Op<T>>): History<T> {
    if ops == [] then History([], [], [], 0)
    else Apply(capacity, Run(capacity, ops[..|ops| - 1]), ops[|ops| - 1])
  }

  ghost function Pushed<T>(ops: seq<Op<T>>): seq<T> {
    if ops == [] then []
    else
      Pushed(ops[..|ops| - 1]) + if ops[|ops| - 1].Push? then [ops[|ops| - 1].x] else []
  }

  /** In every history elements leave in the order they came, none twice: what was pushed is what
      left followed by what is queued; and if nothing was thrown away, what left was popped. */
  lemma {:induction false} StreamConservation<T>(capacity: nat, ops: seq<Op<T>>)
    requires capacity > 0
    ensures Balanced(capacity, Run(capacity, ops), Pushed(ops))
  {
    if ops != [] {
      hide Balanced, Apply;
      var before, op := ops[..|ops| - 1], ops[|ops| - 1];
      StreamConservation(capacity, before);
      StepBalanced(capacity, Run(capacity, before), op, Pushed(before));
      assert Pushed(ops) == Pushed(before) + if op.Push? then [op.x] else [];
    }
  }

  ghost predicate Balanced<T>(capacity: nat, h: History<T>, pushed: seq<T>) {
    && pushed == h.gone + h.queue && |h.queue| <= capacity
    && |h.gone| == |h.popped| + h.lost
    && (h.lost == 0 ==> h.popped == h.gone)
  }

  lemma StepBalanced<T>(capacity: nat, h: History<T>, op: Op<T>, pushed: seq<T>)
    requires capacity > 0 && Balanced(capacity, h, pushed)
    ensures Balanced(capacity, Apply(capacity, h, op), pushed + if op.Push? then [op.x] else [])
  {
    if h.queue != [] {
      assert h.gone + h.queue == h.gone + [h.queue[0]] + h.queue[1..];
    }
  }

  function Newest<T>(capacity: nat, s: seq<T>): seq<T> {
    if |s| <= capacity then s else s[|s| - capacity..]
  }

  /** Pushing alone keeps the newest elements: the last `capacity` of them. */
  lemma {:induction false} KeepsNewest<T>(capacity: nat, ops: seq<Op<T>>)
    requires capacity > 0 && forall i :: 0 <= i < |ops| ==> ops[i].Push?
    ensures |Pushed(ops)| == |ops| && Run(capacity, ops).queue == Newest(capacity, Pushed(ops))
  {
    if ops != [] {
      hide PushSpec, Newest;
      KeepsNewest(capacity, ops[..|ops| - 1]);
      PushNewest(capacity, Pushed(ops[..|ops| - 1]), ops[|ops| - 1].x);
    }
  }

  lemma PushNewest<T>(capacity: nat, s: seq<T>, x: T)
    requires capacity > 0
    ensures PushSpec(capacity, Newest(capacity, s), x) == Newest(capacity, s + [x])
  {
  }
}
