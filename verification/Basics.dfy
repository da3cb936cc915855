/** Result types, machine-integer bounds and C++ integer division, shared by every component. */
module Basics {
  datatype Option<+T> = None | Some(value: T)

  datatype Result<+T, +E> = Ok(value: T) | Err(error: E)

  /** The error codes of `grib::Error`; messages are not modelled. */
  datatype ErrorCode =
    | NetworkError | RateLimited | ServerError | NotFound | InvalidRequest
    | ParseError | Timeout | DecodeError | FeedUnavailable | Unknown

  type byte = x: int | 0 <= x < 256

  type u64 = x: int | 0 <= x <= 0xFFFF_FFFF_FFFF_FFFF

  type i64 = x: int | -0x8000_0000_0000_0000 <= x <= 0x7FFF_FFFF_FFFF_FFFF

  newtype int64 = x: int | -0x8000_0000_0000_0000 <= x <= 0x7FFF_FFFF_FFFF_FFFF

  newtype uint16 = x: int | 0 <= x <= 0xFFFF

  const U32_MAX: int := 0xFFFF_FFFF
  const U64_MAX: int := 0xFFFF_FFFF_FFFF_FFFF
  const U64_MOD: int := 0x1_0000_0000_0000_0000
  const I32_MAX: int := 0x7FFF_FFFF
  const I64_MAX: int := 0x7FFF_FFFF_FFFF_FFFF

  function Min(a: int, b: int): int {
    if a <= b then a else b
  }

  function Max(a: int, b: int): int {
    if a >= b then a else b
  }

  function RealMin(a: real, b: real): real {
    if a <= b then a else b
  }

  function RealMax(a: real, b: real): real {
    if a >= b then a else b
  }

  /** C++ integer division: the quotient is truncated toward zero. */
  function TruncDiv(a: int, b: int): int
    requires b > 0
  {
    if a >= 0 then a / b else -((-a) / b)
  }

  lemma ProductIsMonotone(a: int, b: int, d: int)
    requires a <= b && d >= 0
    ensures a * d <= b * d
  {
    assert (b - a) * d >= 0;
  }

  lemma QuotientIsUnique(a: int, d: int, q: int)
    requires d > 0 && q * d <= a < (q + 1) * d
    ensures a / d == q && a % d == a - q * d
  {
    var r := a - q * d;
    assert 0 <= r < d;
    assert a == q * d + r;
    var p := a / d;
    assert a == p * d + a % d;
    if p < q {
      ProductIsMonotone(p + 1, q, d);
    } else if p > q {
      ProductIsMonotone(q + 1, p, d);
    }
  }

  /** A product compared with a product: the common positive factor cancels. */
  lemma FactorCancels(a: int, b: int, d: int)
    requires d > 0
    ensures a * d <= b * d <==> a <= b
    ensures a * d < b * d <==> a < b
  {
    if a <= b {
      ProductIsMonotone(a, b, d);
    }
    if b <= a {
      ProductIsMonotone(b, a, d);
    }
    if a < b {
      ProductIsMonotone(a + 1, b, d);
    }
    if b < a {
      ProductIsMonotone(b + 1, a, d);
    }
  }

  /** Rounding down twice, first by `b` and then by `c`, is rounding down once by `c * b`. */
  lemma NestedFloor(a: int, b: int, c: int)
    requires a >= 0 && b > 0 && c > 0
    ensures c * b > 0 && (a / b) / c == a / (c * b)
  {
    var m := a / b;
    var q := m / c;
    assert q * c <= m < (q + 1) * c;
    assert m * b <= a < (m + 1) * b;
    assert c * b > 0;
    ProductIsMonotone(q * c, m, b);
    ProductIsMonotone(m + 1, (q + 1) * c, b);
    assert q * c * b == q * (c * b);
    assert (q + 1) * c * b == (q + 1) * (c * b);
    QuotientIsUnique(a, c * b, q);
  }
}
