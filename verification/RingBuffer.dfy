/** ringbuffer.c: a byte FIFO in a wrapped array, proved to be a bounded FIFO over every run. */
module RingBuffer {
  import opened MachineWords

  // ---- the bounded FIFO ----

  /** What a queue of at most `size` bytes accepts of `data`: the longest prefix that fits. */
  function Accepted(queue: seq<byte>, size: nat, data: seq<byte>): (a: seq<byte>)
    requires |queue| <= size
    ensures a <= data && |queue| + |a| <= size
    ensures a == data || |queue| + |a| == size
  {
    data[..Min(|data|, size - |queue|)]
  }

  datatype Op = In(data: seq<byte>) | Out(len: nat)

  /** Queue, everything accepted so far, everything removed so far. */
  datatype Run = Run(queue: seq<byte>, accepted: seq<byte>, removed: seq<byte>)

  function Step(r: Run, size: nat, op: Op): (r': Run)
    requires |r.queue| <= size
    ensures |r'.queue| <= size
  {
    match op
    case In(data) => var a := Accepted(r.queue, size, data); Run(r.queue + a, r.accepted + a, r.removed)
    case Out(len) => var n := Min(len, |r.queue|); Run(r.queue[n..], r.accepted, r.removed + r.queue[..n])
  }

  /** An `Out` takes the first bytes: as many as asked for, or all there are. */
  lemma OutTakesFirst(r: Run, size: nat, len: nat) returns (taken: seq<byte>)
    requires |r.queue| <= size
    ensures taken <= r.queue && |taken| <= len && (|taken| == len || taken == r.queue)
    ensures Step(r, size, Out(len)) == Run(r.queue[|taken|..], r.accepted, r.removed + taken)
  {
    taken := r.queue[..Min(len, |r.queue|)];
  }

  function Steps(r: Run, size: nat, ops: seq<Op>): (r': Run)
    requires |r.queue| <= size
    ensures |r'.queue| <= size
    decreases |ops|
  {
    if ops == [] then r else Steps(Step(r, size, ops[0]), size, ops[1..])
  }

  /** Over every run no byte is lost, invented or reordered: what was accepted is what was removed,
      followed by what is still queued. */
  lemma {:induction false} BytesConserved(r: Run, size: nat, ops: seq<Op>)
    requires |r.queue| <= size && r.accepted == r.removed + r.queue
    ensures var r' := Steps(r, size, ops); r'.accepted == r'.removed + r'.queue
    decreases |ops|
  {
    if ops != [] {
      var r1 := Step(r, size, ops[0]);
      match ops[0] {
        case In(data) =>
          assert r1.accepted == r1.removed + r1.queue;
        case Out(len) =>
          var n := Min(len, |r.queue|);
          assert r.queue == r.queue[..n] + r.queue[n..];
      }
      BytesConserved(r1, size, ops[1..]);
    }
  }

  // ---- the wrapped array ----

  /** Index `i` of the array, one turn at most past its end. */
  function Wrap(i: nat, size: nat): nat { if i < size then i else i - size }

  /** The new index, in 32-bit arithmetic. */
  function Advance(i: nat, n: nat, size: nat): nat
    requires size > 0
  {
    ((i + n) % TWO_32) % size
  }

  /** The index wraps once, as it should, exactly when the 32-bit sum does not overflow; for arrays of
      up to 2^31 bytes it never does. */
  lemma AdvanceWrapsIff(i: nat, n: nat, size: nat)
    requires 0 < size < TWO_32 && i < size && n <= size
    ensures Advance(i, n, size) == Wrap(i + n, size) <==> i + n < TWO_32
    ensures size <= TWO_31 ==> i + n < TWO_32
  {
    if i + n < TWO_32 {
      WrapIsMod(i + n, size);
    } else {
      var m := i + n - TWO_32;
      assert (i + n) % TWO_32 == m;
      WrapIsMod(m, size);
    }
  }

  lemma WrapIsMod(i: nat, size: nat)
    requires size > 0 && i < 2 * size
    ensures i % size == Wrap(i, size)
  {
    var q := i / size;
    assert i == size * q + i % size;
    assert q >= 2 ==> size * q >= size * 2;
    assert q <= 0 ==> size * q <= 0;
    assert 0 <= q <= 1;
  }

  /** The `n` bytes of the array from index `at` on, once around at most. */
  function Ring(a: seq<byte>, at: nat, n: nat): (s: seq<byte>)
    requires at <= |a| && n <= |a|
    ensures |s| == n
    ensures forall k :: 0 <= k < n ==> s[k] == a[Wrap(at + k, |a|)]
  {
    seq(n, k requires 0 <= k < n => a[Wrap(at + k, |a|)])
  }

  /** Index `i` is one of those `n`. */
  predicate OnArc(i: nat, at: nat, n: nat, size: nat) { at <= i < at + n || i + size < at + n }

  lemma RingSplit(a: seq<byte>, at: nat, n: nat, m: nat)
    requires at < |a| && n + m <= |a|
    ensures Wrap(at + n, |a|) <= |a|
    ensures Ring(a, at, n + m) == Ring(a, at, n) + Ring(a, Wrap(at + n, |a|), m)
  {
    var r, mid := Ring(a, at, n + m), Wrap(at + n, |a|);
    forall k | 0 <= k < m ensures r[n + k] == Ring(a, mid, m)[k] {
      assert Wrap(at + (n + k), |a|) == Wrap(mid + k, |a|);
    }
  }

  /** Writing behind the queue leaves the queue alone. */
  lemma RingKept(a: seq<byte>, a': seq<byte>, at: nat, n: nat, m: nat)
    requires at < |a| && |a'| == |a| && n + m <= |a|
    requires forall i :: 0 <= i < |a| && !OnArc(i, Wrap(at + n, |a|), m, |a|) ==> a'[i] == a[i]
    ensures Ring(a', at, n) == Ring(a, at, n)
  {
    forall k | 0 <= k < n ensures Ring(a', at, n)[k] == Ring(a, at, n)[k] {
      assert !OnArc(Wrap(at + k, |a|), Wrap(at + n, |a|), m, |a|);
    }
  }

  /** Bytes that change sides, and bytes that come in. */
  lemma Moved(removed: seq<byte>, queue: seq<byte>, n: nat)
    requires n <= |queue|
    ensures removed + queue == (removed + queue[..n]) + queue[n..]
  {
  }

  lemma Grown(removed: seq<byte>, queue: seq<byte>, more: seq<byte>)
    ensures (removed + queue) + more == removed + (queue + more)
  {
  }

  /** `memcpy` into the array. */
  method CopyIn(a: array<byte>, at: nat, data: seq<byte>)
    requires at + |data| <= a.Length
    modifies a
    ensures forall i :: 0 <= i < a.Length ==> a[i] == if at <= i < at + |data| then data[i - at] else old(a[i])
  {
    forall k | 0 <= k < |data| {
      a[at + k] := data[k];
    }
  }

  class Fifo {
    const buffer: array<byte>
    var write: nat
    var read: nat
    var dataLen: nat
    ghost var accepted: seq<byte>  // everything since the last reset
    ghost var removed: seq<byte>

    ghost predicate Shaped()
      reads this`write, this`read, this`dataLen
    {
      && buffer.Length <= TWO_31
      && dataLen <= buffer.Length
      && (buffer.Length == 0 ==> read == 0)
      && (buffer.Length > 0 ==>
            read < buffer.Length && write < buffer.Length && write == Wrap(read + dataLen, buffer.Length))
    }

    /** The bytes queued, oldest first. */
    ghost function Queue(): (q: seq<byte>)
      requires Shaped()
      reads this`write, this`read, this`dataLen, buffer
      ensures |q| == dataLen <= buffer.Length
    {
      Ring(buffer[..], read, dataLen)
    }

    /** What was accepted is what was removed, followed by what the array holds. */
    ghost predicate Valid()
      reads this, buffer
    {
      Shaped() && accepted == removed + Queue()
    }

    /** The state of the bounded FIFO that the array stands for. */
    ghost function Abstract(): Run
      requires Shaped()
      reads this, buffer
    {
      Run(Queue(), accepted, removed)
    }

    constructor (buffer: array<byte>)
      requires buffer.Length <= TWO_31
      ensures Valid() && Queue() == [] && accepted == [] && removed == [] && this.buffer == buffer
    {
      this.buffer := buffer;
      write, read, dataLen := 0, 0, 0;
      accepted, removed := [], [];
    }

    /** `ringbuffer_reset`. */
    method Reset()
      requires buffer.Length <= TWO_31
      modifies this
      ensures Valid() && Queue() == [] && accepted == [] && removed == []
    {
      write, read, dataLen := 0, 0, 0;
      accepted, removed := [], [];
    }

    /** `ringbuffer_avail`. */
    function Avail(): (n: nat)
      requires Shaped()
      reads this, buffer
      ensures n == buffer.Length - |Queue()|
    {
      buffer.Length - dataLen
    }

    predicate IsEmpty()
      requires Shaped()
      reads this, buffer
      ensures IsEmpty() <==> Queue() == []
    {
      dataLen == 0
    }

    predicate IsFull()
      requires Shaped()
      reads this, buffer
      ensures IsFull() <==> |Queue()| == buffer.Length
    {
      Avail() == 0
    }

    /** The copies of `ringbuffer_in`: one piece, or two around the end of the array. */
    method CopyAround(data: seq<byte>)
      requires Shaped() && |data| <= buffer.Length - dataLen && buffer.Length > 0
      modifies buffer
      ensures Ring(buffer[..], write, |data|) == data
      ensures forall i :: 0 <= i < buffer.Length && !OnArc(i, write, |data|, buffer.Length) ==>
        buffer[i] == old(buffer[i])
    {
      var tail := buffer.Length - write;
      if write < read || |data| <= tail {
        CopyIn(buffer, write, data);
      } else {
        CopyIn(buffer, write, data[..tail]);
        CopyIn(buffer, 0, data[tail..]);
      }
      assert Ring(buffer[..], write, |data|) == data;
    }

    /** The body of `ringbuffer_in`. */
    method Enqueue(data: seq<byte>) returns (n: nat)
      requires Shaped()
      modifies this`write, this`dataLen, buffer
      ensures Shaped() && n == |Accepted(old(Queue()), buffer.Length, data)|
      ensures Queue() == old(Queue()) + Accepted(old(Queue()), buffer.Length, data)
    {
      hide Advance;
      if IsFull() {
        assert data[..0] == [];
        return 0;
      }
      n := Min(|data|, buffer.Length - dataLen);
      CopyAround(data[..n]);
      RingKept(old(buffer[..]), buffer[..], read, dataLen, n);
      RingSplit(buffer[..], read, dataLen, n);
      AdvanceWrapsIff(write, n, buffer.Length);
      write := Advance(write, n, buffer.Length);
      dataLen := dataLen + n;
    }

    /** `ringbuffer_in`. */
    method In(data: seq<byte>) returns (n: nat)
      requires Valid()
      modifies this`write, this`dataLen, this`accepted, buffer
      ensures Valid() && n == |Accepted(old(Queue()), buffer.Length, data)|
      ensures Queue() == old(Queue()) + Accepted(old(Queue()), buffer.Length, data)
      ensures accepted == old(accepted) + Accepted(old(Queue()), buffer.Length, data)
      ensures Abstract() == Step(old(Abstract()), buffer.Length, Op.In(data))
    {
      hide Shaped, Queue;
      ghost var was, a := Queue(), Accepted(Queue(), buffer.Length, data);
      n := Enqueue(data);
      Grown(removed, was, a);
      accepted := accepted + a;
    }

    /** The copies of `ringbuffer_out`. */
    method CopyOut(dst: array<byte>, n: nat)
      requires Shaped() && dst != buffer && n <= dst.Length && n <= dataLen && buffer.Length > 0
      modifies dst
      ensures dst[..n] == Ring(buffer[..], read, n)
      ensures forall i :: n <= i < dst.Length ==> dst[i] == old(dst[i])
    {
      var tail := buffer.Length - read;
      if n <= tail {
        CopyIn(dst, 0, buffer[read..read + n]);
      } else {
        CopyIn(dst, 0, buffer[read..]);
        CopyIn(dst, tail, buffer[..n - tail]);
      }
    }

    /** The body of `ringbuffer_out`; a null destination discards. */
    method Dequeue(dst: array?<byte>, len: nat) returns (n: nat)
      requires Shaped() && dst != buffer && (dst != null ==> dst.Length >= Min(len, dataLen))
      modifies this`read, this`dataLen, dst
      ensures Shaped() && n == Min(len, |old(Queue())|)
      ensures Queue() == old(Queue())[n..]
      ensures dst != null ==>
        dst[..n] == old(Queue())[..n] && forall i :: n <= i < dst.Length ==> dst[i] == old(dst[i])
    {
      hide Advance;
      if IsEmpty() {
        return 0;
      }
      n := Min(len, dataLen);
      if dst != null {
        CopyOut(dst, n);
      }
      RingSplit(buffer[..], read, n, dataLen - n);
      AdvanceWrapsIff(read, n, buffer.Length);
      read := Advance(read, n, buffer.Length);
      dataLen := dataLen - n;
    }

    /** `ringbuffer_out`. */
    method Out(dst: array?<byte>, len: nat) returns (n: nat)
      requires Valid() && dst != buffer && (dst != null ==> dst.Length >= Min(len, dataLen))
      modifies this`read, this`dataLen, this`removed, dst
      ensures Valid() && n == Min(len, |old(Queue())|)
      ensures Queue() == old(Queue())[n..] && removed == old(removed) + old(Queue())[..n]
      ensures Abstract() == Step(old(Abstract()), buffer.Length, Op.Out(len))
      ensures dst != null ==>
        dst[..n] == old(Queue())[..n] && forall i :: n <= i < dst.Length ==> dst[i] == old(dst[i])
    {
      hide Shaped, Queue;
      ghost var was := Queue();
      n := Dequeue(dst, len);
      Moved(removed, was, n);
      removed := removed + was[..n];
    }
  }
}
