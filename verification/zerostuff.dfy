/**
 Zero-stuffing by an integer factor `d`: every input element is followed by
 `d - 1` copies of a designated zero element, so the output is exactly `d`
 times as long as the input. This is the sample stream the interpolator stage
 hands to its output pipe.
 */
module ZeroStuff {

  /** `n` copies of the designated zero element. */
  function Zeros<T>(n: nat, zero: T): seq<T>
  {
    seq(n, _ => zero)
  }

  /** The zero-stuffed stream: each element of `xs` followed by `d - 1` zeros. */
  function Stuff<T>(xs: seq<T>, d: nat, zero: T): (ys: seq<T>)
    requires d >= 1
    ensures |ys| == |xs| * d
    decreases |xs|
  {
    if |xs| == 0 then [] else [xs[0]] + Zeros(d - 1, zero) + Stuff(xs[1..], d, zero)
  }

  /**
   Independent, pointwise description of a zero-stuffed stream: slot `i` holds
   input element `i / d` when `i` is a multiple of `d`, and zero otherwise.
   */
  ghost predicate IsStuffing<T>(ys: seq<T>, xs: seq<T>, d: nat, zero: T)
    requires d >= 1
  {
    && |ys| == |xs| * d
    && forall i :: 0 <= i < |ys| ==> i / d < |xs| && ys[i] == (if i % d == 0 then xs[i / d] else zero)
  }

  /** Keeps the first slot of every complete block of `d` slots. */
  function Pick<T>(ys: seq<T>, d: nat): (xs: seq<T>)
    requires d >= 1
    ensures |xs| == |ys| / d
    decreases |ys|
  {
    if |ys| < d then [] else DivShift(|ys|, d); [ys[0]] + Pick(ys[d..], d)
  }

  /** At least one copy of `d` fits in any positive multiple of `d`. */
  lemma MulAtLeast(a: int, d: int)
    requires a >= 1 && d >= 0
    ensures a * d >= d
  {
    assert a * d == (a - 1) * d + d;
  }

  /** Euclidean division is the unique quotient and remainder. */
  lemma DivUnique(i: int, d: int, q: int, r: int)
    requires d >= 1 && 0 <= r < d
    requires i == q * d + r
    ensures i / d == q && i % d == r
  {
    var q0, r0 := i / d, i % d;
    assert i == q0 * d + r0;
    assert (q - q0) * d == r0 - r;
    if q0 < q {
      MulAtLeast(q - q0, d);
    } else if q < q0 {
      MulAtLeast(q0 - q, d);
    }
  }

  /** Euclidean division of `i` by `d` is one less after subtracting one `d`. */
  lemma DivShift(i: nat, d: nat)
    requires 1 <= d <= i
    ensures (i - d) / d == i / d - 1
    ensures (i - d) % d == i % d
  {
    assert i == (i / d) * d + i % d;
    DivUnique(i - d, d, i / d - 1, i % d);
  }

  /** Division recovers block `k` and offset `j` from slot `k * d + j`. */
  lemma DivSlot(k: nat, j: nat, d: nat)
    requires j < d
    ensures (k * d + j) / d == k
    ensures (k * d + j) % d == j
  {
    DivUnique(k * d + j, d, k, j);
  }

  /** `Stuff` meets the pointwise description. */
  lemma {:induction false} StuffIsStuffing<T>(xs: seq<T>, d: nat, zero: T)
    requires d >= 1
    ensures IsStuffing(Stuff(xs, d, zero), xs, d, zero)
  {
    if |xs| > 0 {
      var ys := Stuff(xs, d, zero);
      var rest := Stuff(xs[1..], d, zero);
      StuffIsStuffing(xs[1..], d, zero);
      assert ys == [xs[0]] + Zeros(d - 1, zero) + rest;
      forall i | 0 <= i < |ys|
        ensures i / d < |xs| && ys[i] == (if i % d == 0 then xs[i / d] else zero)
      {
        if i < d {
          DivSlot(0, i, d);
        } else {
          DivShift(i, d);
          assert ys[i] == rest[i - d];
        }
      }
    }
  }

  /** The pointwise description determines the stream: it holds of `Stuff` and of nothing else. */
  lemma StuffingIsStuff<T>(ys: seq<T>, xs: seq<T>, d: nat, zero: T)
    requires d >= 1
    ensures IsStuffing(ys, xs, d, zero) <==> ys == Stuff(xs, d, zero)
  {
    StuffIsStuffing(xs, d, zero);
    if IsStuffing(ys, xs, d, zero) {
      var zs := Stuff(xs, d, zero);
      assert forall i :: 0 <= i < |ys| ==> ys[i] == zs[i];
    }
  }

  /** Slot `k * d` holds input element `k`; slots `k * d + j` with `0 < j < d` hold zero. */
  lemma StuffSlot<T>(xs: seq<T>, d: nat, zero: T, k: nat, j: nat)
    requires d >= 1
    requires k < |xs| && j < d
    ensures k * d + j < |Stuff(xs, d, zero)|
    ensures Stuff(xs, d, zero)[k * d + j] == if j == 0 then xs[k] else zero
  {
    StuffIsStuffing(xs, d, zero);
    DivSlot(k, j, d);
  }

  /** Stuffing distributes over concatenation, so it may be done chunk by chunk. */
  lemma {:induction false} StuffAppend<T>(a: seq<T>, b: seq<T>, d: nat, zero: T)
    requires d >= 1
    ensures Stuff(a + b, d, zero) == Stuff(a, d, zero) + Stuff(b, d, zero)
    decreases |a|
  {
    if |a| > 0 {
      assert (a + b)[1..] == a[1..] + b;
      StuffAppend(a[1..], b, d, zero);
    } else {
      assert a + b == b;
    }
  }

  /**
   If the stream delivered so far followed by the pending part is the stuffing
   of what was consumed, appending the stuffing of newly consumed elements to
   the pending part keeps it so.
   */
  lemma StuffExtend<T>(consumed: seq<T>, delivered: seq<T>, pending: seq<T>, taken: seq<T>, d: nat, zero: T)
    requires d >= 1
    requires delivered + pending == Stuff(consumed, d, zero)
    ensures delivered + (pending + Stuff(taken, d, zero)) == Stuff(consumed + taken, d, zero)
  {
    StuffAppend(consumed, taken, d, zero);
    assert delivered + (pending + Stuff(taken, d, zero)) == (delivered + pending) + Stuff(taken, d, zero);
  }

  /** Stuffing one more element appends one more block of `d` slots. */
  lemma StuffSnoc<T>(xs: seq<T>, x: T, d: nat, zero: T)
    requires d >= 1
    ensures Stuff(xs + [x], d, zero) == Stuff(xs, d, zero) + [x] + Zeros(d - 1, zero)
  {
    StuffAppend(xs, [x], d, zero);
    assert Stuff([x], d, zero) == [x] + Zeros(d - 1, zero) + Stuff([], d, zero);
  }

  /** With factor one nothing is inserted: the output is a verbatim copy. */
  lemma {:induction false} StuffByOne<T>(xs: seq<T>, zero: T)
    ensures Stuff(xs, 1, zero) == xs
    decreases |xs|
  {
    if |xs| > 0 {
      StuffByOne(xs[1..], zero);
      assert Zeros(0, zero) == [];
    }
  }

  /** Keeping every `d`-th slot undoes zero-stuffing. */
  lemma {:induction false} PickStuff<T>(xs: seq<T>, d: nat, zero: T)
    requires d >= 1
    ensures Pick(Stuff(xs, d, zero), d) == xs
    decreases |xs|
  {
    if |xs| > 0 {
      var ys := Stuff(xs, d, zero);
      assert ys[d..] == Stuff(xs[1..], d, zero);
      PickStuff(xs[1..], d, zero);
    }
  }
}
