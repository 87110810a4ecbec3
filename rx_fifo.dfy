/**
 * The receive buffer of a socket, `TinyGsmFifo<uint8_t, N>`, as a bounded queue value.
 * `TinyGsmFifo.h` is not part of this model: the queue below keeps up to `capacity` bytes,
 * and `put` on a full queue drops the byte (an assumption about that file).
 */
module RxFifo {
  import opened Arduino

  datatype Queue = Queue(items: seq<Byte>, capacity: nat)

  type Fifo = q: Queue | |q.items| <= q.capacity witness Queue([], 0)

  function Empty(capacity: nat): (q: Fifo)
    ensures q.items == [] && q.capacity == capacity
  {
    Queue([], capacity)
  }

  /** `size()`. */
  function Size(q: Fifo): (n: nat)
    ensures n <= q.capacity
  {
    |q.items|
  }

  /** `free()`: room left before the queue is full. */
  function Free(q: Fifo): (n: nat)
    ensures Size(q) + n == q.capacity
  {
    q.capacity - |q.items|
  }

  /** `put(b)`: appends `b`, or leaves a full queue as it is. */
  function Put(q: Fifo, b: Byte): (r: Fifo)
    ensures r.capacity == q.capacity
    ensures Free(q) > 0 ==> r.items == q.items + [b]
    ensures Free(q) == 0 ==> r == q
  {
    if |q.items| < q.capacity then Queue(q.items + [b], q.capacity) else q
  }

  /** `put` of each byte in turn. */
  function PutAll(q: Fifo, bs: seq<Byte>): (r: Fifo)
    ensures r.capacity == q.capacity
    decreases |bs|
  {
    if bs == [] then q else Put(PutAll(q, bs[..|bs| - 1]), bs[|bs| - 1])
  }

  /** `get(buf, n)`: the first `n` bytes, and the queue without them. */
  function Get(q: Fifo, n: nat): (r: (seq<Byte>, Fifo))
    requires n <= Size(q)
    ensures r.0 + r.1.items == q.items && |r.0| == n
    ensures r.1.capacity == q.capacity
  {
    (q.items[..n], Queue(q.items[n..], q.capacity))
  }

  /** `clear()`. */
  function Clear(q: Fifo): (r: Fifo)
    ensures Size(r) == 0 && r.capacity == q.capacity
  {
    Queue([], q.capacity)
  }

  function Min(a: int, b: int): int { if a <= b then a else b }

  /** Putting a run of bytes and then one more is putting the longer run. */
  lemma PutAllSnoc(q: Fifo, bs: seq<Byte>, b: Byte)
    ensures PutAll(q, bs + [b]) == Put(PutAll(q, bs), b)
  {
    assert (bs + [b])[..|bs|] == bs;
  }

  /** Putting a run of bytes keeps what was queued and appends as many of them as fit,
      in arrival order. */
  lemma {:induction false} PutAllKeepsOrder(q: Fifo, bs: seq<Byte>)
    ensures PutAll(q, bs).items == q.items + bs[..Min(|bs|, Free(q))]
    decreases |bs|
  {
    if bs != [] {
      var init := bs[..|bs| - 1];
      PutAllKeepsOrder(q, init);
      if |bs| <= Free(q) {
        assert bs[..Min(|bs|, Free(q))] == init[..Min(|init|, Free(q))] + [bs[|bs| - 1]];
      } else {
        assert init[..Min(|init|, Free(q))] == bs[..Min(|bs|, Free(q))];
      }
    }
  }

  /** Bytes put into an empty queue that has room for them come back out in the same order. */
  lemma PutThenGet(capacity: nat, bs: seq<Byte>)
    requires |bs| <= capacity
    ensures |PutAll(Empty(capacity), bs).items| == |bs|
    ensures Get(PutAll(Empty(capacity), bs), |bs|).0 == bs
  {
    PutAllKeepsOrder(Empty(capacity), bs);
    assert bs[..|bs|] == bs;
  }

  /** The bytes of a run that do not fit are dropped: the queue is then full. */
  lemma PutAllFills(q: Fifo, bs: seq<Byte>)
    requires |bs| >= Free(q)
    ensures Free(PutAll(q, bs)) == 0
  {
    PutAllKeepsOrder(q, bs);
  }
}
