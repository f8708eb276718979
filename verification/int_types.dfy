/**
  The bounded integer types a generated field type can be based on, named
  after the Rust primitive the generator emits for them, and Rust's `as`
  conversion between them.
 */
module IntTypes {

  datatype IntType = I8 | U8 | I16 | U16 | I32 | U32 | I64 | U64

  predicate Signed(t: IntType) {
    t.I8? || t.I16? || t.I32? || t.I64?
  }

  /** Number of distinct values of `t`, i.e. 2 to the power of its width. */
  function Modulus(t: IntType): nat {
    match t
    case I8 | U8 => 0x100
    case I16 | U16 => 0x1_0000
    case I32 | U32 => 0x1_0000_0000
    case I64 | U64 => 0x1_0000_0000_0000_0000
  }

  function Min(t: IntType): int {
    if Signed(t) then -(Modulus(t) / 2) else 0
  }

  function Max(t: IntType): int {
    if Signed(t) then Modulus(t) / 2 - 1 else Modulus(t) - 1
  }

  predicate InRange(t: IntType, v: int) {
    Min(t) <= v <= Max(t)
  }

  /**
    Rust's `v as t` for an integer `v` of any width: keep the low bits of
    the two's-complement representation and reinterpret them as `t`.
   */
  function Cast(t: IntType, v: int): (r: int)
    ensures InRange(t, r)
    ensures InRange(t, v) ==> r == v
    ensures !InRange(t, v) ==> r != v
  {
    (v - Min(t)) % Modulus(t) + Min(t)
  }

  /** Euclidean division is unique: a decomposition `x == m * q + r` with `0 <= r < m` is the one `/` and `%` compute. */
  lemma DivModUnique(x: int, m: int, q: int, r: int)
    requires m > 0 && 0 <= r < m && x == m * q + r
    ensures x / m == q && x % m == r
  {
    var q', r' := x / m, x % m;
    assert x == m * q' + r';
    var d := q - q';
    assert m * q == m * q' + m * d;
    assert m * d == r' - r;
    if d >= 1 {
      MulAtLeast(m, d);
    } else if d <= -1 {
      MulAtLeast(m, -d);
    }
  }

  lemma MulAtLeast(m: int, k: int)
    requires m > 0 && k >= 1
    ensures m * k >= m
  {
    assert m * k == m + m * (k - 1);
  }

  /** Shifting the input by the modulus does not change the cast. */
  lemma CastPeriodic(t: IntType, v: int)
    ensures Cast(t, v + Modulus(t)) == Cast(t, v)
    ensures Cast(t, v - Modulus(t)) == Cast(t, v)
  {
    var m, lo := Modulus(t), Min(t);
    var q, r := (v - lo) / m, (v - lo) % m;
    DivModUnique(v - lo, m, q, r);
    DivModUnique(v + m - lo, m, q + 1, r);
    DivModUnique(v - m - lo, m, q - 1, r);
  }

  /**
    Every base type fits in 64 bits: widening a value of `t` to `i64` and
    casting it back yields the value itself, even for `u64` values above
    `i64::MAX`, which wrap to negative numbers on the way.
   */
  lemma CastThroughI64(t: IntType, v: int)
    requires InRange(t, v)
    ensures InRange(I64, Cast(I64, v))
    ensures Cast(t, Cast(I64, v)) == v
    ensures t != U64 ==> Cast(I64, v) == v
  {
    if !InRange(I64, v) {
      assert t == U64;
      CastPeriodic(I64, v - Modulus(I64));
      assert Cast(I64, v) == v - Modulus(I64);
      CastPeriodic(U64, v - Modulus(U64));
    }
  }
}
