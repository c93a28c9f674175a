/** 8-bit fixed-point arithmetic of the FastLED "lib8tion" header for the
    Cortex-M0 target: scaling by a fraction of 256, the "video" scale that
    never dims a lit pixel to black, saturating add and subtract, and the
    binary-search integer square root.

    Only the plain-C branches are modelled (SCALE8_C, QADD8_C, QSUB8_C);
    the inline-assembly branches are machine code for other cores.
    C integers are unbounded `int`s here. Where an expression narrows an `int`
    to `uint8_t` it is written with `U8`, which wraps modulo 2^8 exactly as the
    C conversion does; where a statement assigns to a `uint8_t` or `uint16_t`
    variable, the Dafny variable has the matching subset type. Either way the
    verifier shows that the narrowing never changes the value. */
module FastLed {

  type uint8 = x: int | 0 <= x < 0x100
  type uint16 = x: int | 0 <= x < 0x1_0000
  type int8 = x: int | -0x80 <= x < 0x80
  type int16 = x: int | -0x8000 <= x < 0x8000

  /** Unsigned 256ths: the value `v` stands for v/256, so 1.0 is not representable. */
  type fract8 = uint8
  /** Signed 128ths. */
  type sfract7 = int8
  /** Unsigned 65536ths. */
  type fract16 = uint16
  /** Signed 32768ths. */
  type sfract15 = int16

  /** C conversion of an `int` to `uint8_t`: reduction modulo 256. */
  function U8(x: int): (r: uint8)
    ensures (x - r) % 0x100 == 0
    ensures 0 <= x < 0x100 ==> r == x
  {
    x % 0x100
  }

  /** The smaller of two integers. */
  function Min(a: int, b: int): (m: int)
    ensures m <= a && m <= b
    ensures m == a || m == b
  {
    if a <= b then a else b
  }

  /** The larger of two integers. */
  function Max(a: int, b: int): (m: int)
    ensures m >= a && m >= b
    ensures m == a || m == b
  {
    if a >= b then a else b
  }

  // ---------------------------------------------------------------------
  // Helper facts of non-linear arithmetic
  // ---------------------------------------------------------------------

  lemma MulMonotone(a: nat, b: nat, c: nat, d: nat)
    requires a <= c && b <= d
    ensures a * b <= c * d
  {
    assert a * b <= a * d by { assert a * (d - b) >= 0; }
    assert a * d <= c * d by { assert (c - a) * d >= 0; }
  }

  lemma MulCancel(a: nat, b: nat, d: nat)
    ensures a * d < b * d ==> a < b
  {
    if a >= b { MulMonotone(b, d, a, d); }
  }

  lemma DivMonotone(a: nat, b: nat, d: nat)
    requires a <= b && d > 0
    ensures a / d <= b / d
  {
    var p, q := a / d, b / d;
    assert p * d <= a;
    assert b < (q + 1) * d;
    MulCancel(p, q + 1, d);
  }

  // ---------------------------------------------------------------------
  // scale8
  // ---------------------------------------------------------------------

  /** The widened products behind both variants: i * scale is at most 255 * i
      and 255 * scale, and the fixed variant's product exceeds it by i. */
  lemma Scale8Products(i: uint8, scale: fract8)
    ensures 0 <= i * scale <= 255 * i
    ensures i * scale <= 255 * scale
    ensures i * (1 + scale) == i * scale + i
  {
    MulMonotone(i, scale, i, 255);
    MulMonotone(i, scale, 255, scale);
  }

  /** scale8 with FASTLED_SCALE8_FIXED == 1: i * (scale+1) / 256, truncated.
      The +1 bias makes a full scale of 255 the identity. */
  function Scale8Fixed(i: uint8, scale: fract8): (r: uint8)
    ensures r == i * (1 + scale) / 0x100
    ensures r <= i
    ensures scale == 255 ==> r == i
    ensures scale == 0 ==> r == 0
  {
    Scale8Products(i, scale);
    U8((i * (1 + scale)) / 0x100)
  }

  /** scale8 without FASTLED_SCALE8_FIXED: (i * scale) >> 8. */
  function Scale8Plain(i: uint8, scale: fract8): (r: uint8)
    ensures r == i * scale / 0x100
    ensures r <= i && r <= scale
    ensures (i == 0 || scale == 0) ==> r == 0
  {
    Scale8Products(i, scale);
    U8((i * scale) / 0x100)
  }

  /** Both variants approximate the exact product i * (scale/256): their
      results times 256 lie within 256 of i * scale. */
  lemma Scale8Approximates(i: uint8, scale: fract8)
    ensures i * scale - 0x100 < Scale8Fixed(i, scale) * 0x100 <= i * scale + i
    ensures i * scale - 0x100 < Scale8Plain(i, scale) * 0x100 <= i * scale
  {
    Scale8Products(i, scale);
    var p := i * scale;
    assert Scale8Fixed(i, scale) == (p + i) / 0x100;
    assert Scale8Plain(i, scale) == p / 0x100;
  }

  /** The truncating variant loses one step at full scale for every
      non-zero input, which is what the fixed variant repairs. */
  lemma Scale8PlainFullScaleLosesOne(i: uint8)
    requires i > 0
    ensures Scale8Plain(i, 255) == i - 1
    ensures Scale8Fixed(i, 255) == i
  {
    assert i * 255 == (i - 1) * 0x100 + (0x100 - i);
  }

  /** The plain variant never exceeds the fixed one, and is at most one below it. */
  lemma Scale8PlainAtMostFixed(i: uint8, scale: fract8)
    ensures Scale8Plain(i, scale) <= Scale8Fixed(i, scale) <= Scale8Plain(i, scale) + 1
  {
    Scale8Products(i, scale);
    var p := i * scale;
    assert Scale8Fixed(i, scale) == (p + i) / 0x100;
    assert Scale8Plain(i, scale) == p / 0x100;
  }

  lemma {:induction false} Scale8FixedMonotoneInScale(i: uint8, s1: fract8, s2: fract8)
    requires s1 <= s2
    ensures Scale8Fixed(i, s1) <= Scale8Fixed(i, s2)
  {
    Scale8Products(i, s1);
    Scale8Products(i, s2);
    MulMonotone(i, s1, i, s2);
    DivMonotone(i * s1 + i, i * s2 + i, 0x100);
  }

  lemma {:induction false} Scale8FixedMonotoneInInput(i1: uint8, i2: uint8, scale: fract8)
    requires i1 <= i2
    ensures Scale8Fixed(i1, scale) <= Scale8Fixed(i2, scale)
  {
    Scale8Products(i1, scale);
    Scale8Products(i2, scale);
    MulMonotone(i1, scale, i2, scale);
    DivMonotone(i1 * scale + i1, i2 * scale + i2, 0x100);
  }

  lemma {:induction false} Scale8PlainMonotone(i1: uint8, i2: uint8, s1: fract8, s2: fract8)
    requires i1 <= i2 && s1 <= s2
    ensures Scale8Plain(i1, s1) <= Scale8Plain(i2, s2)
  {
    Scale8Products(i1, s1);
    Scale8Products(i2, s2);
    MulMonotone(i1, s1, i2, s2);
    DivMonotone(i1 * s1, i2 * s2, 0x100);
  }

  // ---------------------------------------------------------------------
  // scale8_video
  // ---------------------------------------------------------------------

  /** scale8_video: ((i * scale) >> 8) + (i && scale ? 1 : 0), narrowed to a byte.
      Zero exactly when one of the inputs is zero, and never more than `i`,
      so the narrowing never wraps. */
  function Scale8Video(i: uint8, scale: fract8): (r: uint8)
    ensures r == 0 <==> (i == 0 || scale == 0)
    ensures i != 0 && scale != 0 ==> r >= 1
    ensures r <= i
    ensures r == Scale8Plain(i, scale) + (if i != 0 && scale != 0 then 1 else 0)
  {
    Scale8VideoNoWrap(i, scale);
    U8((i * scale) / 0x100 + (if i != 0 && scale != 0 then 1 else 0))
  }

  /** The widened sum in scale8_video stays below `i` + 1: when both inputs are
      non-zero the product is at most 254 + 1 steps below i * 256. */
  lemma Scale8VideoNoWrap(i: uint8, scale: fract8)
    ensures (i * scale) / 0x100 + (if i != 0 && scale != 0 then 1 else 0) <= i
  {
    Scale8Products(i, scale);
    if i != 0 && scale != 0 {
      assert 255 * i == (i - 1) * 0x100 + (0x100 - i);
      DivMonotone(i * scale, 255 * i, 0x100);
    }
  }

  /** scale8_video_LEAVING_R1_DIRTY: on the C path its body is the same
      expression as scale8_video; the register left dirty on AVR has no
      value-level meaning. */
  function Scale8VideoLeavingR1Dirty(i: uint8, scale: fract8): (r: uint8)
    ensures r == Scale8Video(i, scale)
  {
    Scale8VideoNoWrap(i, scale);
    U8((i * scale) / 0x100 + (if i != 0 && scale != 0 then 1 else 0))
  }

  /** The video scale sits between the fixed scale8 and one step above it. */
  lemma Scale8VideoNearFixed(i: uint8, scale: fract8)
    ensures Scale8Fixed(i, scale) <= Scale8Video(i, scale) <= Scale8Fixed(i, scale) + 1
  {
    Scale8PlainAtMostFixed(i, scale);
    if scale == 0 || i == 0 {
      Scale8Products(i, scale);
      assert Scale8Fixed(i, scale) == 0;
    }
  }

  // ---------------------------------------------------------------------
  // qadd8 / qsub8
  // ---------------------------------------------------------------------

  /** qadd8: the sum of two bytes, capped at 0xFF. */
  function QAdd8(i: uint8, j: uint8): (r: uint8)
    ensures r == Min(i + j, 255)
    ensures r >= i && r >= j
  {
    var t := i + j;
    U8(if t > 255 then 255 else t)
  }

  /** qsub8: the difference of two bytes, with a floor of 0. */
  function QSub8(i: uint8, j: uint8): (r: uint8)
    ensures r == Max(i - j, 0)
    ensures r <= i
  {
    var t := i - j;
    U8(if t < 0 then 0 else t)
  }

  lemma QAdd8Commutative(i: uint8, j: uint8)
    ensures QAdd8(i, j) == QAdd8(j, i)
  {
  }

  lemma QAdd8Identity(i: uint8)
    ensures QAdd8(i, 0) == i && QAdd8(0, i) == i
  {
  }

  lemma QSub8Identity(i: uint8)
    ensures QSub8(i, 0) == i && QSub8(i, i) == 0
  {
  }

  /** Subtracting back what was added restores the input unless the add saturated. */
  lemma QSub8UndoesQAdd8(i: uint8, j: uint8)
    ensures QSub8(QAdd8(i, j), j) == i <==> i + j <= 255
  {
  }

  /** Adding back what was subtracted gives the larger of the two operands. */
  lemma QAdd8AfterQSub8(i: uint8, j: uint8)
    ensures QAdd8(QSub8(i, j), j) == Max(i, j)
  {
  }

  // ---------------------------------------------------------------------
  // sqrt16
  // ---------------------------------------------------------------------

  /** Reference floor square root, by counting up. */
  function FloorSqrt(x: nat): (r: nat)
    ensures r * r <= x < (r + 1) * (r + 1)
    decreases x
  {
    if x == 0 then 0
    else
      var p := FloorSqrt(x - 1);
      if (p + 1) * (p + 1) <= x then
        assert (p + 2) * (p + 2) == (p + 1) * (p + 1) + 2 * p + 3;
        p + 1
      else p
  }

  /** Squaring is monotone on naturals, and a smaller square has a smaller root. */
  lemma SquareMonotone(a: nat, b: nat)
    ensures a <= b ==> a * a <= b * b
    ensures a * a < b * b ==> a < b
  {
    if a <= b { MulMonotone(a, a, b, b); } else { MulMonotone(b, b, a, a); }
  }

  /** Any r with r^2 <= x < (r+1)^2 is the floor square root. */
  lemma FloorSqrtUnique(x: nat, r: nat)
    requires r * r <= x < (r + 1) * (r + 1)
    ensures r == FloorSqrt(x)
  {
    var q := FloorSqrt(x);
    SquareMonotone(r, q + 1);
    SquareMonotone(q, r + 1);
  }

  /** sqrt16's initial upper bound for the search: 255 above 7904, else (x >> 5) + 8. */
  function InitialHi(x: uint16): (hi: uint8)
    ensures x <= 7904 ==> hi == x / 32 + 8
  {
    if x > 7904 then 255 else U8(x / 32 + 8)
  }

  /** (x >> 5) + 8 over-estimates sqrt(x) for every x: with q = x >> 5,
      (q + 9)^2 - (32 * q + 31) = (q - 7)^2 + 1 > 0. */
  lemma LinearEstimateAboveRoot(x: nat)
    ensures x < (x / 32 + 9) * (x / 32 + 9)
  {
    var q := x / 32;
    assert x <= 32 * q + 31;
    var e := q - 7;
    assert e * e >= 0;
    assert (q + 9) * (q + 9) == (e + 16) * (e + 16);
    assert (e + 16) * (e + 16) == e * e + 32 * e + 256;
  }

  /** The initial upper bound fits in a byte without wrapping and lies above
      the root, in both branches. */
  lemma InitialHiBracketsRoot(x: uint16)
    ensures x <= 7904 ==> InitialHi(x) == x / 32 + 8
    ensures x < (InitialHi(x) + 1) * (InitialHi(x) + 1)
  {
    var hi: int := InitialHi(x);
    if x <= 7904 {
      LinearEstimateAboveRoot(x);
      assert hi + 1 == x / 32 + 9;
    } else {
      assert (hi + 1) * (hi + 1) == 0x1_0000;
    }
  }

  /** The initial upper bound is never below the floor square root. */
  lemma InitialHiAtLeastRoot(x: uint16)
    ensures FloorSqrt(x) <= InitialHi(x)
  {
    InitialHiBracketsRoot(x);
    SquareMonotone(FloorSqrt(x), InitialHi(x) + 1);
  }

  /** A candidate m is at most the root exactly when m * m does not exceed x.
      This is why the search's test `mid * mid > x` never discards the root;
      `Sqrt16` itself is proved from its bracket invariant instead, which keeps
      the recursive `FloorSqrt` out of the loop's proof. */
  lemma SquareVersusRoot(x: nat, m: nat)
    ensures m * m <= x <==> m <= FloorSqrt(x)
  {
    var root := FloorSqrt(x);
    SquareMonotone(m, root);
    SquareMonotone(root, m);
    SquareMonotone(m, root + 1);
  }

  /** Equal numbers have equal squares. `Sqrt16` calls it after each assignment
      so that the solver sees the square of the new variable, not only the
      square of the expression assigned to it. */
  lemma SameSquare(a: int, b: int)
    requires a == b
    ensures a * a == b * b
  {
  }

  /** `mid * mid` of a byte fits in 16 bits, so `(uint16_t)(mid * mid)` is exact. */
  lemma ByteSquareFits(m: uint8)
    ensures m * m <= 255 * 255
  {
    MulMonotone(m, m, 255, 255);
  }

  /** sqrt16: binary search for the floor square root of a 16-bit value.
      `low` starts at 1 and stays at least 1, `mid * mid` fits in 16 bits,
      and the early return at mid == 255 keeps `low = mid + 1` from wrapping
      to 0. Each C narrowing to `uint8_t` / `uint16_t` is an assignment to a
      variable of that type, so the verifier shows that none of them wraps
      (without the mid == 255 test, `low := mid + 1` would not verify). */
  method Sqrt16(x: uint16) returns (r: uint8)
    ensures r * r <= x < (r + 1) * (r + 1)
    ensures x <= 1 ==> r == x
  {
    if x <= 1 {
      r := x;
      SameSquare(r, x);
      return;
    }

    // Each SameSquare call below restates a square in terms of the variable
    // just assigned; it is a hint for the non-linear arithmetic, not a step of the C.
    var low: uint8 := 1;
    var hi: uint8 := InitialHi(x);
    InitialHiBracketsRoot(x);
    SameSquare(hi + 1, InitialHi(x) + 1);
    SameSquare(low - 1, 0);
    assert low < hi;

    // The do-while's first test is skipped in C; here it holds anyway (hi >= 8 > low).
    while hi >= low
      invariant 1 <= low <= hi + 1
      invariant (low - 1) * (low - 1) <= x < (hi + 1) * (hi + 1)
      decreases hi + 1 - low
    {
      var mid: uint8 := (low + hi) / 2;
      ByteSquareFits(mid);
      var square: uint16 := mid * mid;
      if square > x {
        hi := mid - 1;
        SameSquare(hi + 1, mid);
      } else {
        if mid == 255 {
          r := 255;
          SameSquare(r, mid);
          return;
        }
        low := mid + 1;
        SameSquare(low - 1, mid);
      }
    }

    r := low - 1;
    SameSquare(r, low - 1);
    SameSquare(r + 1, hi + 1);
  }

  /** The boundary values exercised for sqrt16. */
  lemma FloorSqrtBoundaries()
    ensures FloorSqrt(0) == 0 && FloorSqrt(1) == 1
    ensures FloorSqrt(7904) == 88 && FloorSqrt(7905) == 88
    ensures FloorSqrt(65535) == 255
  {
    FloorSqrtUnique(0, 0);
    FloorSqrtUnique(1, 1);
    FloorSqrtUnique(7904, 88);
    FloorSqrtUnique(7905, 88);
    FloorSqrtUnique(65535, 255);
  }

  /** The floor square root of a 16-bit value always fits in a byte. */
  lemma FloorSqrtOfUint16IsByte(x: uint16)
    ensures FloorSqrt(x) <= 255
  {
    SquareMonotone(FloorSqrt(x), 256);
  }
}
