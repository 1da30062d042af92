/** The rings of src/net.c: sixteen cells, of which at most fifteen are in use. */
module Ring {

  const CELLS: nat := 16

  datatype Ring<T> = Ring(cells: seq<T>, head: nat, tail: nat)

  predicate Valid<T>(r: Ring<T>) {
    |r.cells| == CELLS && r.head < CELLS && r.tail < CELLS
  }

  /** x % 16 for the sums that occur here. */
  function Wrap(x: nat): (r: nat)
    requires x < 2 * CELLS
    ensures r < CELLS && r == x % CELLS
  {
    if x < CELLS then x else x - CELLS
  }

  function Count<T>(r: Ring<T>): (n: nat)
    requires Valid(r)
    ensures n < CELLS
  {
    Wrap(r.head + CELLS - r.tail)
  }

  /** What is queued, the oldest first. */
  function Contents<T>(r: Ring<T>): (q: seq<T>)
    requires Valid(r)
    ensures |q| == Count(r)
  {
    seq(Count(r), i requires 0 <= i < CELLS => r.cells[Wrap(r.tail + i)])
  }

  /** `enqueue_msg`, `enqueue_pending` */
  function Enqueue<T>(r: Ring<T>, x: T): Ring<T>
    requires Valid(r)
  {
    var next := Wrap(r.head + 1);
    if next == r.tail then r else Ring(r.cells[r.head := x], next, r.tail)
  }

  /** `dequeue_msg`, `dequeue_pending` once the ring is known not to be empty */
  function Dequeue<T>(r: Ring<T>): Ring<T>
    requires Valid(r)
  {
    Ring(r.cells, r.head, Wrap(r.tail + 1))
  }

  /** A ring is a queue that refuses what comes while fifteen are waiting. */
  lemma EnqueueLaw<T>(r: Ring<T>, x: T)
    requires Valid(r)
    ensures Valid(Enqueue(r, x))
    ensures Contents(Enqueue(r, x)) == if |Contents(r)| < CELLS - 1 then Contents(r) + [x] else Contents(r)
  {
    var e := Enqueue(r, x);
    if Wrap(r.head + 1) != r.tail {
      assert Count(e) == Count(r) + 1;
      forall i | 0 <= i < Count(e) ensures Contents(e)[i] == (Contents(r) + [x])[i] {
        assert Wrap(r.tail + i) == r.head <==> i == Count(r);
      }
    }
  }

  lemma DequeueLaw<T>(r: Ring<T>)
    requires Valid(r)
    ensures r.tail == r.head <==> Contents(r) == []
    ensures r.tail != r.head ==> Valid(Dequeue(r)) && Contents(r) == [r.cells[r.tail]] + Contents(Dequeue(r))
  {
    var d := Dequeue(r);
    if r.tail != r.head {
      assert Count(d) == Count(r) - 1;
      forall i | 0 <= i < Count(d) ensures Contents(d)[i] == Contents(r)[i + 1] {
        assert Wrap(Wrap(r.tail + 1) + i) == Wrap(r.tail + i + 1);
      }
      assert Wrap(r.tail + 0) == r.tail;
    }
  }
}
