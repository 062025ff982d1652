/** Small helpers shared by the other modules: an option type for C's
    "pointer or NULL" results, and the 32-bit integer conversions that the
    server's unsigned/int arithmetic performs implicitly. */
module Util {

  datatype Option<+T> = None | Some(value: T)

  /** A `uint8_t`. */
  newtype byte = b: int | 0 <= b < 256

  const U32_MODULUS: int := 0x1_0000_0000
  const I32_MIN: int := -0x8000_0000
  const I32_MAX: int := 0x7FFF_FFFF

  /** The value an `unsigned` variable holds after being assigned `v`. */
  function U32(v: int): (r: nat)
    ensures r < U32_MODULUS
    ensures 0 <= v < U32_MODULUS ==> r == v
  {
    v % U32_MODULUS
  }

  /** The value an `int` variable holds after being assigned the 32-bit
      pattern of `v` (two's complement, as every compiler the server targets does). */
  function ToInt32(v: int): (r: int)
    ensures I32_MIN <= r <= I32_MAX
    ensures I32_MIN <= v <= I32_MAX ==> r == v
  {
    var u := v % U32_MODULUS;
    if u <= I32_MAX then u else u - U32_MODULUS
  }

  /** The position of the first element of `s` that satisfies `p`: the
      linear searches of the server, which stop at the first hit. */
  function FirstMatch<T>(s: seq<T>, p: T -> bool): (r: Option<nat>)
    ensures r.Some? ==> r.value < |s| && p(s[r.value])
    ensures r.Some? ==> forall k :: 0 <= k < r.value ==> !p(s[k])
    ensures r.None? <==> forall k :: 0 <= k < |s| ==> !p(s[k])
  {
    if s == [] then None
    else if p(s[0]) then Some(0)
    else match FirstMatch(s[1..], p)
      case None => None
      case Some(k) => Some(k + 1)
  }

  /** No value occurs twice in `s`. */
  ghost predicate Distinct(s: seq<int>)
  {
    forall i, j :: 0 <= i < j < |s| ==> s[i] != s[j]
  }

  /** Every entry of `s` indexes an `n`-element array. */
  ghost predicate InRange(s: seq<int>, n: int)
  {
    forall k :: 0 <= k < |s| ==> 0 <= s[k] < n
  }

  /** Quotient and remainder of a natural number by a positive divisor. */
  lemma DivMod(a: int, d: int)
    requires a >= 0 && d > 0
    ensures a == (a / d) * d + a % d && 0 <= a % d < d && a / d >= 0
  {
  }

  lemma MulMono(k: int, l: int, d: int)
    requires k <= l && d >= 0
    ensures k * d <= l * d
  {
  }

  /** Division by a positive number is determined by quotient and remainder. */
  lemma DivUnique(a: int, d: int, q: int, r: int)
    requires d > 0 && 0 <= r < d && a == q * d + r
    ensures a / d == q && a % d == r
  {
    var q0, r0 := a / d, a % d;
    assert a == q0 * d + r0 && 0 <= r0 < d;
    if q0 > q {
      MulMono(q + 1, q0, d);
    } else if q0 < q {
      MulMono(q0 + 1, q, d);
    }
  }
}
