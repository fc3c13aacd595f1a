/**
 A bounded single-producer/single-consumer pipe, seen through the operations a
 stage uses: the reader side exposes the readable elements (`rd`, `readable`)
 and consumes a prefix of them (`read`); the writer side exposes a window of
 free slots (`wr`, `writable`) and commits a prefix of it (`written`).

 The pipe is abstract: `items` are the elements written and not yet read, in
 stream order, and `capacity` is the fixed storage size. Asking to read or to
 commit more than is available is a fatal programming error in the source, so
 both are preconditions here.
 */
module Pipes {

  datatype Pipe<T> = Pipe(items: seq<T>, capacity: nat)

  /** The pipe never holds more elements than its storage. */
  predicate Valid<T>(p: Pipe<T>) {
    |p.items| <= p.capacity
  }

  /** Number of elements written and not yet read. */
  function Readable<T>(p: Pipe<T>): nat {
    |p.items|
  }

  /** Number of free slots the writer may fill. */
  function Writable<T>(p: Pipe<T>): nat
    requires Valid(p)
  {
    p.capacity - |p.items|
  }

  /**
   The reader's view: the readable elements, oldest first. Reading `n`
   elements leaves exactly the part of the view after its first `n` elements,
   so the view is the order in which the reader consumes.
   */
  function Rd<T>(p: Pipe<T>): (view: seq<T>)
    ensures |view| == Readable(p)
    ensures Valid(p) ==> forall n: nat :: n <= |view| ==> Read(p, n).items == view[n..]
  {
    p.items
  }

  /** The reader consumes the `n` oldest readable elements. */
  function Read<T>(p: Pipe<T>, n: nat): (q: Pipe<T>)
    requires Valid(p)
    requires n <= Readable(p)
    ensures Valid(q)
    ensures q.capacity == p.capacity
    ensures p.items == p.items[..n] + q.items
    ensures Readable(q) == Readable(p) - n
    ensures Writable(q) == Writable(p) + n
  {
    Pipe(p.items[n..], p.capacity)
  }

  /**
   The writer commits the first `n` slots of the window it filled. The window
   is at most `Writable(p)` long, like the cursor `wr()` hands out; slots of the
   window beyond `n` are not committed.
   */
  function Written<T>(p: Pipe<T>, window: seq<T>, n: nat): (q: Pipe<T>)
    requires Valid(p)
    requires n <= |window| <= Writable(p)
    ensures Valid(q)
    ensures q.capacity == p.capacity
    ensures Readable(q) == Readable(p) + n
    ensures q.items[..Readable(p)] == p.items
    ensures q.items[Readable(p)..] == window[..n]
    ensures Writable(q) == Writable(p) - n
  {
    Pipe(p.items + window[..n], p.capacity)
  }

  /**
   A law of the pipe abstraction, kept as documentation of the reader side: two
   consecutive reads consume the same as one read of the combined count.
   */
  lemma ReadRead<T>(p: Pipe<T>, a: nat, b: nat)
    requires Valid(p)
    requires a + b <= Readable(p)
    ensures b <= Readable(Read(p, a))
    ensures Read(Read(p, a), b) == Read(p, a + b)
  {
  }

  /**
   A law of the pipe abstraction, kept as documentation of the single-producer,
   single-consumer discipline: the consumer and the producer touch disjoint
   ends of the pipe, so reading `k` elements and committing `n` elements give
   the same pipe in either order.
   */
  lemma ReadWrittenCommute<T>(p: Pipe<T>, k: nat, window: seq<T>, n: nat)
    requires Valid(p)
    requires k <= Readable(p)
    requires n <= |window| <= Writable(p)
    ensures k <= Readable(Written(p, window, n))
    ensures n <= |window| <= Writable(Read(p, k))
    ensures Read(Written(p, window, n), k) == Written(Read(p, k), window, n)
  {
  }
}
