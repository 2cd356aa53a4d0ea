/**
 * The fixed-capacity circular byte queue `Q_t` and its operations, with the
 * drop-oldest receive policy the UART interrupt handler builds on top of it.
 */
module CircularQueue {
  import opened Bytes
  import opened Utils

  /** `Q_SIZE`: the capacity of every queue. */
  const QSize: nat := 50

  /** Index of the `k`-th slot after `head`, going round the ring once at most. */
  function Slot(head: nat, k: nat): (i: nat)
    requires head < QSize && k <= QSize
    ensures i == (head + k) % QSize
  {
    if head + k < QSize then head + k else head + k - QSize
  }

  /** How far slot `i` lies after `head` going round the ring: the inverse of Slot. */
  function Offset(head: nat, i: nat): (k: nat)
    requires head < QSize && i < QSize
    ensures k < QSize && Slot(head, k) == i
  {
    if head <= i then i - head else i + QSize - head
  }

  /** Two different offsets inside one turn of the ring name two different slots. */
  lemma SlotInjective(head: nat, j: nat, k: nat)
    requires head < QSize && j < QSize && k < QSize && j != k
    ensures Slot(head, j) != Slot(head, k)
  {
  }

  /** Moving `head` one slot on shortens every offset by one, except the old head's, which wraps. */
  lemma OffsetAdvance(head: nat, i: nat)
    requires head < QSize && i < QSize
    ensures Offset(Slot(head, 1), i) == if i == head then QSize - 1 else Offset(head, i) - 1
  {
  }

  /** Counting `k` slots from the slot after `head` is counting `k + 1` from `head`. */
  lemma SlotAdvance(head: nat, k: nat)
    requires head < QSize && k < QSize
    ensures Slot(Slot(head, 1), k) == Slot(head, k + 1)
  {
  }

  class Queue {
    /** `Data`: the backing storage. */
    const data: array<byte>
    /** `Head`: index of the oldest element. */
    var head: nat
    /** `Tail`: index of the next free slot. */
    var tail: nat
    /** `Size`: number of elements held. */
    var size: nat
    /** The bytes held, oldest first. */
    ghost var Contents: seq<byte>

    /**
     * The queue invariant: indices in range, `Tail` is `Size` slots after `Head`,
     * the window of `Size` slots from `Head` holds Contents in order, and every
     * slot outside that window is zero.
     */
    ghost predicate Valid()
      reads this, data
    {
      data.Length == QSize &&
      head < QSize && tail < QSize && size <= QSize &&
      tail == Slot(head, size) &&
      |Contents| == size &&
      (forall k :: 0 <= k < size ==> Contents[k] == data[Slot(head, k)]) &&
      (forall i :: 0 <= i < QSize && Offset(head, i) >= size ==> data[i] == 0)
    }

    /** A queue object with its storage; `Q_init` then sets it up. */
    constructor ()
      ensures Valid() && fresh(data)
      ensures head == 0 && tail == 0 && size == 0 && Contents == []
      ensures forall i :: 0 <= i < QSize ==> data[i] == 0
    {
      data := new byte[QSize];
      new;
      Init();
    }

    /** `Q_init`: zero every slot and empty the queue. */
    method Init()
      requires data.Length == QSize
      modifies this, data
      ensures Valid()
      ensures head == 0 && tail == 0 && size == 0 && Contents == []
      ensures forall i :: 0 <= i < QSize ==> data[i] == 0
    {
      for i := 0 to QSize
        invariant forall j :: 0 <= j < i ==> data[j] == 0
      {
        data[i] := 0;
      }
      head := 0;
      tail := 0;
      size := 0;
      Contents := [];
    }

    /** `Q_isEmpty`. */
    predicate IsEmpty()
      reads this, data
      requires Valid()
      ensures IsEmpty() <==> Contents == []
    {
      size == 0
    }

    /** `Q_isFull`. */
    predicate IsFull()
      reads this, data
      requires Valid()
      ensures IsFull() <==> |Contents| == QSize
    {
      size == QSize
    }

    /**
     * `Q_enqueue`: on a full queue, reject the byte (result 0) and change
     * nothing; otherwise store it at `Tail`, advance `Tail` round the ring,
     * count it and return 1.
     */
    method Enqueue(d: byte) returns (r: int)
      requires Valid()
      modifies this, data
      ensures Valid()
      ensures old(size) == QSize ==>
        r == 0 && head == old(head) && tail == old(tail) && size == old(size) &&
        data[..] == old(data[..]) && Contents == old(Contents)
      ensures old(size) < QSize ==>
        r == 1 && data[..] == old(data[..])[old(tail) := d] &&
        head == old(head) && tail == (old(tail) + 1) % QSize && size == old(size) + 1 &&
        Contents == old(Contents) + [d]
    {
      if !IsFull() {
        data[tail] := d;
        tail := tail + 1;
        tail := tail % QSize;
        size := size + 1;
        Contents := Contents + [d];
        forall k | 0 <= k < size - 1
          ensures Contents[k] == data[Slot(head, k)]
        {
          SlotInjective(head, k, size - 1);
        }
        r := 1;
      } else {
        r := 0;
      }
    }

    /**
     * `Q_dequeue`: on an empty queue return the sentinel 0 and change nothing;
     * otherwise return the byte at `Head`, zero its slot, advance `Head` round
     * the ring and uncount it.
     */
    method Dequeue() returns (t: byte)
      requires Valid()
      modifies this, data
      ensures Valid()
      ensures old(size) == 0 ==>
        t == 0 && head == old(head) && tail == old(tail) && size == old(size) &&
        data[..] == old(data[..]) && Contents == old(Contents)
      ensures old(size) > 0 ==>
        t == old(data[head]) && t == old(Contents)[0] &&
        data[..] == old(data[..])[old(head) := 0] &&
        head == (old(head) + 1) % QSize && tail == old(tail) && size == old(size) - 1 &&
        Contents == old(Contents)[1..]
    {
      t := 0;
      if !IsEmpty() {
        t := data[head];
        data[head] := 0;
        ghost var h := head;
        head := head + 1;
        head := head % QSize;
        assert head == Slot(h, 1);
        size := size - 1;
        Contents := Contents[1..];
        SlotAdvance(h, size);
        forall k | 0 <= k < size
          ensures Contents[k] == data[Slot(head, k)]
        {
          SlotAdvance(h, k);
          SlotInjective(h, 0, k + 1);
        }
        forall i | 0 <= i < QSize && Offset(head, i) >= size
          ensures data[i] == 0
        {
          OffsetAdvance(h, i);
        }
      }
    }

    /**
     * The receive path of the UART interrupt handler: enqueue the byte, and
     * when the queue is full first drop the oldest byte to make room, so the
     * queue keeps the most recent bytes.
     */
    method ReceiveDropOldest(d: byte)
      requires Valid()
      modifies this, data
      ensures Valid()
      ensures size == if old(size) == QSize then QSize else old(size) + 1
      ensures Contents ==
        if old(size) == QSize then old(Contents)[1..] + [d] else old(Contents) + [d]
    {
      if !IsFull() {
        var ok := Enqueue(d);
      } else {
        var oldest := Dequeue();
        var ok := Enqueue(d);
      }
    }
  }

  /** Dequeue until the queue is empty; the bytes come out oldest first. */
  method Drain(q: Queue) returns (ys: seq<byte>)
    requires q.Valid()
    modifies q, q.data
    ensures q.Valid() && q.Contents == []
    ensures ys == old(q.Contents)
  {
    ys := [];
    while !q.IsEmpty()
      invariant q.Valid()
      invariant ys + q.Contents == old(q.Contents)
      decreases q.size
    {
      ghost var before := q.Contents;
      var y := q.Dequeue();
      assert before == [y] + q.Contents;
      ys := ys + [y];
    }
  }

  /** The length of the C string held in `xs`: the bytes before its first zero, or all of them. */
  function StringLength(xs: seq<byte>): (n: nat)
    ensures n <= |xs|
    ensures forall i :: 0 <= i < n ==> xs[i] != 0
    ensures n < |xs| ==> xs[n] == 0
    decreases |xs|
  {
    if xs == [] || xs[0] == 0 then 0 else 1 + StringLength(xs[1..])
  }

  /**
   * The transmit path: enqueue the bytes of the string `xs` up to its first
   * zero into a fresh queue, then drain it. The queue's own full policy keeps
   * the first `QSize` bytes of the string, in order, and rejects the rest;
   * nothing from the first zero byte on is sent.
   */
  method TransmitString(xs: seq<byte>) returns (ys: seq<byte>)
    ensures ys == xs[..Min(StringLength(xs), QSize)]
  {
    var q := new Queue();
    var i := 0;
    while i < |xs| && xs[i] != 0
      invariant i <= StringLength(xs)
      invariant q.Valid()
      invariant q.Contents == xs[..Min(i, QSize)]
    {
      var ok := q.Enqueue(xs[i]);
      assert Min(i + 1, QSize) <= QSize;
      assert i < QSize ==> xs[..i] + [xs[i]] == xs[..i + 1];
      i := i + 1;
    }
    assert i == StringLength(xs);
    ys := Drain(q);
  }

  /**
   * Feed every byte of `xs` through the drop-oldest receive path into a fresh
   * queue, then drain it: the queue ends up holding the last `QSize` bytes, in
   * order.
   */
  method FillDropOldest(xs: seq<byte>) returns (ys: seq<byte>)
    ensures ys == xs[|xs| - Min(|xs|, QSize)..]
  {
    var q := new Queue();
    for i := 0 to |xs|
      invariant q.Valid()
      invariant q.Contents == xs[i - Min(i, QSize)..i]
    {
      ghost var lo := i - Min(i, QSize);
      ghost var window := xs[lo..i];
      q.ReceiveDropOldest(xs[i]);
      if i < QSize {
        assert lo == 0 && i + 1 - Min(i + 1, QSize) == 0;
        assert q.Contents == window + [xs[i]] == xs[0..i + 1];
      } else {
        assert i + 1 - Min(i + 1, QSize) == lo + 1;
        assert window[1..] == xs[lo + 1..i];
        assert q.Contents == window[1..] + [xs[i]] == xs[lo + 1..i + 1];
      }
    }
    ys := Drain(q);
    assert xs[|xs| - Min(|xs|, QSize)..|xs|] == xs[|xs| - Min(|xs|, QSize)..];
  }
}
