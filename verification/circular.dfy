/** Circular stepping over the indices 0 .. len-1, the arithmetic shared by the
    gallery carousel, the lightbox, the creator card and the rotating text:
    `(i + 1) % len` forward and `(i - 1 + len) % len` backward, with JavaScript's
    truncating `%`. */
module Circular {
  import opened JsNumber

  /** Which way a step goes: Forward is `handleNext`, Backward is `handlePrev`. */
  datatype Direction = Forward | Backward

  function Delta(d: Direction): int {
    if d == Forward then 1 else -1
  }

  predicate InRange(i: int, len: int) {
    0 <= i < len
  }

  /** `(i + 1) % len`: the following index, wrapping from the last to the first. */
  function Next(i: int, len: int): (r: int)
    requires InRange(i, len)
    ensures InRange(r, len)
    ensures r == if i == len - 1 then 0 else i + 1
  {
    Rem(i + 1, len)
  }

  /** `(i - 1 + len) % len`: the preceding index, wrapping from the first to the last. */
  function Prev(i: int, len: int): (r: int)
    requires InRange(i, len)
    ensures InRange(r, len)
    ensures r == if i == 0 then len - 1 else i - 1
  {
    Rem(i - 1 + len, len)
  }

  function Step(i: int, len: int, d: Direction): (r: int)
    requires InRange(i, len)
    ensures InRange(r, len)
    ensures r == (i + Delta(d)) % len
  {
    if d == Forward then Next(i, len) else Prev(i, len)
  }

  lemma PrevAfterNext(i: int, len: int)
    requires InRange(i, len)
    ensures Prev(Next(i, len), len) == i
    ensures Next(Prev(i, len), len) == i
  {
  }

  /** `k` successive steps in one direction. */
  function Walk(i: int, len: int, d: Direction, k: nat): (r: int)
    requires InRange(i, len)
    ensures InRange(r, len)
    decreases k
  {
    if k == 0 then i else Walk(Step(i, len, d), len, d, k - 1)
  }

  /** A walk of `k` steps lands where modular arithmetic says it does. */
  lemma {:induction false} WalkIsModular(i: int, len: int, d: Direction, k: nat)
    requires InRange(i, len)
    ensures Walk(i, len, d, k) == (i + Delta(d) * k) % len
    decreases k
  {
    if k > 0 {
      var j := Step(i, len, d);
      WalkIsModular(j, len, d, k - 1);
      ModShift(i + Delta(d), Delta(d) * (k - 1), len);
    }
  }

  /** Reducing the first summand modulo `len` does not change the sum modulo `len`. */
  lemma ModShift(a: int, b: int, len: int)
    requires len > 0
    ensures (a % len + b) % len == (a + b) % len
  {
    var q := a / len;
    assert a == q * len + a % len;
    assert a + b == (a % len + b) + q * len;
    ModAddMultiple(a % len + b, q, len);
  }

  lemma ModAddMultiple(x: int, q: int, len: int)
    requires len > 0
    ensures (x + q * len) % len == x % len
  {
    var a := x + q * len;
    assert a == (x / len + q) * len + x % len;
    ModUnique(a, len, x / len + q, x % len);
  }

  /** Going all the way round returns to the start. */
  lemma FullCircle(i: int, len: int, d: Direction)
    requires InRange(i, len)
    ensures Walk(i, len, d, len) == i
  {
    var n: nat := len;
    WalkIsModular(i, len, d, n);
    var e := Delta(d);
    ModAddMultiple(i, e, len);
    assert (i + e * n) % len == i % len;
    ModUnique(i, len, 0, i);
  }
}
