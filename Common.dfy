/** Shared value types: bytes, bits, and the Option/Result wrappers used for
    the source's `None` returns and raised exceptions. */
module Common {

  /** An unsigned 8-bit value, as held in a Python `bytes` object. */
  type byte = x: int | 0 <= x < 256

  /** A single random bit, as produced by `secrets.randbits(1)`. */
  type Bit = x: int | 0 <= x <= 1

  datatype Option<+T> = None | Some(value: T)

  datatype Result<+T, +E> = Success(value: T) | Failure(error: E)

  /** Number of 1-bits in `s`. */
  function Sum(s: seq<Bit>): (r: nat)
    ensures r <= |s|
  {
    if s == [] then 0 else Sum(s[..|s| - 1]) + s[|s| - 1]
  }

  /** All-zero and all-one sequences have the extreme sums. */
  lemma {:induction false} SumConstant(s: seq<Bit>, b: Bit)
    requires forall i :: 0 <= i < |s| ==> s[i] == b
    ensures Sum(s) == b * |s|
  {
    if s != [] {
      SumConstant(s[..|s| - 1], b);
    }
  }

  /** The arithmetic mean of a non-empty bit sequence, exactly, as a real. */
  function Mean(s: seq<Bit>): (m: real)
    requires |s| > 0
    ensures 0.0 <= m <= 1.0
  {
    Sum(s) as real / |s| as real
  }

  /** Python's `s[start:]` for an integer `start`, negative counting from the end. */
  function SliceFrom<T>(s: seq<T>, start: int): (r: seq<T>)
    ensures start >= 0 ==> r == s[if start <= |s| then start else |s|..]
    ensures start < 0 ==> r == s[if -start <= |s| then |s| + start else 0..]
  {
    var k := if start < 0 then (if -start <= |s| then |s| + start else 0)
             else (if start <= |s| then start else |s|);
    s[k..]
  }

  /** `sqrt` is a square root on the non-negative reals: the contract the
      numeric library's `sqrt` and `** 0.5` are relied on for. Its value is
      zero exactly at zero (a consequence of the first two conjuncts that is
      written out because the solver does not derive it). */
  ghost predicate IsSqrt(sqrt: real -> real)
  {
    forall x :: 0.0 <= x ==>
      0.0 <= sqrt(x) && sqrt(x) * sqrt(x) == x && (sqrt(x) == 0.0 <==> x == 0.0)
  }
}
