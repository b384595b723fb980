/** The array semantics the segmentation overlay relies on: TensorFlow's
    `decode_raw` to int32 and `reshape`, numpy's int32 floor division, the
    uint8 store of an integer, and `np.fromstring(line, sep=",", dtype=int)`. */
module Arrays {
  import opened Errors
  import opened Imaging
  import Config
  import Text

  const Int32Min: int := -0x8000_0000
  const Int32Modulus: int := 0x1_0000_0000

  /** The int32 stored little-endian in bytes `b0` (least significant) to `b3`. */
  function Int32Of(b0: Byte, b1: Byte, b2: Byte, b3: Byte): (v: Config.Int32)
  {
    var u := b0 + 256 * (b1 + 256 * (b2 + 256 * b3));
    if u >= 0x8000_0000 then u - Int32Modulus else u
  }

  /** The four little-endian bytes of an int32, in two's complement. */
  function Int32Bytes(v: Config.Int32): (r: Bytes)
    ensures |r| == 4
  {
    var u := if v < 0 then v + Int32Modulus else v;
    var u1 := u / 256;
    var u2 := u1 / 256;
    [u % 256, u1 % 256, u2 % 256, u2 / 256]
  }

  /** Reading back the bytes of an int32 gives the int32. */
  lemma Int32OfBytes(v: Config.Int32)
    ensures var r := Int32Bytes(v); Int32Of(r[0], r[1], r[2], r[3]) == v
  {
    var u := if v < 0 then v + Int32Modulus else v;
    var u1 := u / 256;
    var u2 := u1 / 256;
    assert u == u % 256 + 256 * u1;
    assert u1 == u1 % 256 + 256 * u2;
    assert u2 == u2 % 256 + 256 * (u2 / 256);
    assert u2 / 256 < 256;
  }

  /** Element `i` of a buffer read as int32 values. */
  function Int32At(buf: Bytes, i: nat): Config.Int32
    requires 4 * i + 4 <= |buf|
  {
    Int32Of(buf[4 * i], buf[4 * i + 1], buf[4 * i + 2], buf[4 * i + 3])
  }

  /** `tf.io.decode_raw(buf, out_type=tf.int32)`, little-endian: one value per
      four bytes, InvalidArgumentError when the length is not a multiple of 4. */
  function DecodeRaw(buf: Bytes): (r: Result<seq<Config.Int32>>)
    ensures r.Ok? <==> |buf| % 4 == 0
    ensures r.Ok? ==> 4 * |r.value| == |buf|
    ensures r.Ok? ==> forall i | 0 <= i < |r.value| :: r.value[i] == Int32At(buf, i)
    ensures r.Err? ==> r.error == InvalidArgumentError
  {
    if |buf| % 4 != 0 then Err(InvalidArgumentError)
    else Ok(seq(|buf| / 4, i requires 0 <= i < |buf| / 4 => Int32At(buf, i)))
  }

  /** The bytes a writer of raw int32 masks produces: each value in turn, as
      four little-endian bytes. */
  function EncodeRaw(vs: seq<Config.Int32>): (r: Bytes)
    ensures |r| == 4 * |vs|
  {
    if vs == [] then [] else Int32Bytes(vs[0]) + EncodeRaw(vs[1..])
  }

  lemma {:induction false} EncodeRawAt(vs: seq<Config.Int32>, i: nat)
    requires i < |vs|
    ensures EncodeRaw(vs)[4 * i .. 4 * i + 4] == Int32Bytes(vs[i])
  {
    if i > 0 {
      EncodeRawAt(vs[1..], i - 1);
      assert EncodeRaw(vs)[4 * i .. 4 * i + 4] == EncodeRaw(vs[1..])[4 * (i - 1) .. 4 * (i - 1) + 4];
    }
  }

  /** Decoding raw bytes is the inverse of writing them. */
  lemma DecodeEncodeRaw(vs: seq<Config.Int32>)
    ensures DecodeRaw(EncodeRaw(vs)) == Ok(vs)
  {
    var buf := EncodeRaw(vs);
    assert |buf| % 4 == 0;
    var r := DecodeRaw(buf);
    assert |r.value| == |vs|;
    forall i | 0 <= i < |vs|
      ensures r.value[i] == vs[i]
    {
      EncodeRawAt(vs, i);
      var b := Int32Bytes(vs[i]);
      assert buf[4 * i] == b[0] && buf[4 * i + 1] == b[1] && buf[4 * i + 2] == b[2] && buf[4 * i + 3] == b[3];
      Int32OfBytes(vs[i]);
    }
    assert r.value == vs;
  }

  /** Rows `r < h` of width `w` start and end inside `h * w` elements. */
  lemma RowInside(r: nat, h: nat, w: nat)
    requires r < h
    ensures r * w + w <= h * w
  {
    MulLe(r + 1, h, w);
  }

  /** The `w` values of `flat` from index `start` on. */
  function Row(flat: seq<Config.Int32>, start: nat, w: nat): (row: seq<int>)
    requires start + w <= |flat|
    ensures start + w <= |flat|
    ensures |row| == w && forall c | 0 <= c < w :: row[c] == flat[start + c]
  {
    seq(w, c requires 0 <= c < w => flat[start + c] as int)
  }

  /** The rows of `flat`, each `w` values long. */
  function Rows(flat: seq<Config.Int32>, h: nat, w: nat): (cells: seq<seq<int>>)
    requires |flat| == h * w
    ensures |cells| == h
    ensures forall r | 0 <= r < h :: r * w + w <= |flat| && cells[r] == Row(flat, r * w, w)
  {
    var cells := seq(h, r requires 0 <= r < h => RowInside(r, h, w); Row(flat, r * w, w));
    assert forall r | 0 <= r < h :: r * w + w <= |flat| && cells[r] == Row(flat, r * w, w) by {
      forall r | 0 <= r < h
        ensures r * w + w <= |flat| && cells[r] == Row(flat, r * w, w)
      {
        RowInside(r, h, w);
      }
    }
    cells
  }

  /** `tf.reshape(flat, [h, w, 1])[:, :, 0]`: `h` rows of `w` values, row-major. */
  function Reshape(flat: seq<Config.Int32>, h: nat, w: nat): (m: Mask)
    requires |flat| == h * w
    ensures m.height == h && m.width == w
    ensures forall r, c | 0 <= r < h && 0 <= c < w ::
              r * w + c < |flat| && m.cells[r][c] == flat[r * w + c]
  {
    Grid(h, w, Rows(flat, h, w))
  }

  /** Multiplying by a non-negative factor keeps the order. */
  lemma MulLe(x: int, y: int, k: int)
    requires x <= y && 0 <= k
    ensures x * k <= y * k
  {
    assert y * k - x * k == (y - x) * k;
  }

  /** Two's-complement wrap-around of an integer into int32. */
  function Wrap32(x: int): (v: Config.Int32)
    ensures (v - x) % Int32Modulus == 0
    ensures Int32Min <= x < -Int32Min ==> v == x
  {
    (x - Int32Min) % Int32Modulus + Int32Min
  }

  /** numpy's `a // d` on int32: rounds toward negative infinity, gives 0 for
      a zero divisor, and wraps the one overflowing quotient,
      `-2**31 // -1`, back to `-2**31`. */
  function FloorDiv32(a: Config.Int32, d: Config.Int32): (q: Config.Int32)
    ensures d == 0 ==> q == 0
    ensures d > 0 ==> q * d <= a < q * d + d
    ensures d < 0 && !(a == Int32Min && d == -1) ==> q * d + d < a <= q * d
    ensures a == Int32Min && d == -1 ==> q == Int32Min
  {
    if d == 0 then 0
    else if d > 0 then
      FloorDivPositive(a, d);
      a / d
    else
      var n: int := -(a as int);
      var e: int := -(d as int);
      FloorDivNegative(a, d);
      Wrap32(n / e)
  }

  /** Euclidean division by a positive divisor is floor division, and its
      quotient lies between 0 and the dividend. */
  lemma DivBounds(n: int, e: int)
    requires e > 0
    ensures (n / e) * e <= n < (n / e) * e + e
    ensures n >= 0 ==> 0 <= n / e <= n
    ensures n < 0 ==> n <= n / e < 0
  {
    var q, r := n / e, n % e;
    assert n == q * e + r && 0 <= r < e;
    if n >= 0 {
      if q < 0 { MulLe(q, -1, e); }
      MulLe(1, e, q);
    } else {
      if q >= 0 { MulLe(0, q, e); }
      MulLe(1, e, -(q + 1));
      assert (q + 1) * e == q * e + e;
    }
  }

  lemma FloorDivPositive(a: Config.Int32, d: Config.Int32)
    requires d > 0
    ensures (a / d) * d <= a < (a / d) * d + d
    ensures Int32Min <= a / d < -Int32Min
  {
    DivBounds(a, d);
  }

  lemma FloorDivNegative(a: Config.Int32, d: Config.Int32)
    requires d < 0
    ensures var q := (-(a as int)) / (-(d as int));
      && (!(a == Int32Min && d == -1) ==> Int32Min <= q < -Int32Min && q * d + d < a <= q * d)
      && (a == Int32Min && d == -1 ==> Wrap32(q) == Int32Min)
  {
    var n: int := -(a as int);
    var e: int := -(d as int);
    var q := n / e;
    DivBounds(n, e);
    assert q * d == -(q * e);
    if !(a == Int32Min && d == -1) && n >= 0 && e > 1 {
      MulLe(2, e, q);
    }
  }

  // ----- `np.fromstring(line, sep=",", dtype=int)` -----

  /** The characters CPython's `Py_ISSPACE` and C's `isspace` accept: space,
      tab, newline, vertical tab, form feed and carriage return. */
  predicate IsCSpace(c: char)
  {
    c == ' ' || 9 <= c as int <= 13
  }

  /** The number of whitespace characters of `s` from position `i` on. */
  function SpaceRun(s: string, i: nat): (k: nat)
    requires i <= |s|
    ensures i + k <= |s|
    ensures i + k < |s| ==> !IsCSpace(s[i + k])
    decreases |s| - i
  {
    if i == |s| || !IsCSpace(s[i]) then 0 else 1 + SpaceRun(s, i + 1)
  }

  /** The number of decimal digits of `s` from position `i` on. */
  function DigitRun(s: string, i: nat): (k: nat)
    requires i <= |s|
    ensures i + k <= |s|
    ensures i + k < |s| ==> !Text.IsDigit(s[i + k])
    decreases |s| - i
  {
    if i == |s| || !Text.IsDigit(s[i]) then 0 else 1 + DigitRun(s, i + 1)
  }

  const Int64Min: int := -0x8000_0000_0000_0000
  const Int64Max: int := 0x7fff_ffff_ffff_ffff
  const UInt64Max: int := 0xffff_ffff_ffff_ffff

  /** Where the digits start for `PyOS_strtol` reading from position `i`:
      past whitespace, an optional sign, and whitespace again. */
  function NumberStart(s: string, i: nat): (j: nat)
    requires i <= |s|
    ensures i <= j <= |s|
  {
    var i0 := i + SpaceRun(s, i);
    var i1 := if i0 < |s| && (s[i0] == '-' || s[i0] == '+') then i0 + 1 else i0;
    i1 + SpaceRun(s, i1)
  }

  /** The C long `PyOS_strtol` makes of a sign and a magnitude: a magnitude
      beyond the unsigned 64-bit range is clamped to it; one beyond the
      signed range gives LONG_MAX whatever the sign, except 2^63 after a minus
      sign, which gives LONG_MIN. */
  function LongOf(negative: bool, magnitude: nat): (v: int)
    ensures Int64Min <= v <= Int64Max
    ensures magnitude <= Int64Max ==> v == (if negative then -(magnitude as int) else magnitude)
    ensures magnitude > Int64Max ==> v == (if negative && magnitude == Int64Max + 1 then Int64Min else Int64Max)
  {
    var u := if magnitude > UInt64Max then UInt64Max else magnitude;
    if u <= Int64Max then (if negative then -u else u)
    else if negative && u == Int64Max + 1 then Int64Min
    else Int64Max
  }

  /** The value of the `k` characters of `s` from position `j`, read as
      decimal digits. */
  function ValueAt(s: string, j: nat, k: nat): nat
    requires j + k <= |s|
  {
    if k == 0 then 0
    else
      var c := s[j + k - 1];
      ValueAt(s, j, k - 1) * 10 + (if Text.IsDigit(c) then c as int - '0' as int else 0)
  }

  /** On digits, this is the value of their text. */
  lemma {:induction false} ValueAtDigits(s: string, j: nat, k: nat)
    requires j + k <= |s| && forall m | j <= m < j + k :: Text.IsDigit(s[m])
    ensures ValueAt(s, j, k) == Text.DigitsValue(s[j..j + k])
  {
    if k > 0 {
      ValueAtDigits(s, j, k - 1);
      var t := s[j..j + k];
      assert t[..k - 1] == s[j..j + k - 1];
      assert t[k - 1] == s[j + k - 1];
    }
  }

  /** CPython's `PyOS_strtol(s + i, &end, 10)` for a 64-bit C long, the
      parser numpy uses for each `dtype=int` element: the value read and the
      number of characters consumed. Whitespace, an optional sign and more
      whitespace are consumed even when no digit follows, and the value is
      then 0. */
  function StrToL(s: string, i: nat): (r: (int, nat))
    requires i <= |s|
    ensures Int64Min <= r.0 <= Int64Max && i + r.1 <= |s|
  {
    var i0 := i + SpaceRun(s, i);
    var j := NumberStart(s, i);
    var k := DigitRun(s, j);
    (LongOf(i0 < |s| && s[i0] == '-', ValueAt(s, j, k)), j - i + k)
  }

  /** numpy's separator match at position `i` for `sep=","`, which it
      normalises to `" ,"`: whitespace, then the comma. The number of
      characters matched, or None when the text ends first or something else
      stands there; reaching the end of the text right after the comma also
      ends the parse. */
  function SkipSeparator(s: string, i: nat): (r: Option<nat>)
    requires i <= |s|
    ensures r.Some? ==> 1 <= r.value && i + r.value < |s|
  {
    var c := i + SpaceRun(s, i);
    if c == |s| || s[c] != ',' || c + 1 == |s| then None else Some(c + 1 - i)
  }

  /** One step of `np.fromstring` at a position: nothing read, an element
      read with no separator after it, or an element and the position after
      its separator. */
  datatype Step = Stop | Last(value: int) | More(value: int, next: nat)

  /** numpy's step at position `i`: an element read with `PyOS_strtol`,
      then `SkipSeparator`. */
  function StepAt(s: string, i: nat): (r: Step)
    ensures i <= |s| && r.More? ==> i < r.next < |s|
  {
    if i > |s| then Stop
    else
      var e := StrToL(s, i);
      if e.1 == 0 then Stop
      else
        var sep := SkipSeparator(s, i + e.1);
        if sep.None? then Last(e.0) else More(e.0, i + e.1 + sep.value)
  }

  /** The elements read from position `i` on, taking steps with `step`, until
      one reads nothing or finds no separator. A step that does not move
      forward ends the parse; `StepAt` always moves forward. */
  function Elements(step: (string, nat) -> Step, s: string, i: nat): seq<int>
    decreases |s| - i
  {
    if i > |s| then []
    else match step(s, i)
      case Stop => []
      case Last(v) => [v]
      case More(v, j) => if i < j then [v] + Elements(step, s, j) else [v]
  }

  /** `np.fromstring(line, sep=",", dtype=int)`: numpy stops reading, and
      returns what it has, at an element that consumes nothing or when no
      separator follows an element. */
  function FromString(line: string): seq<int>
  {
    Elements(StepAt, line, 0)
  }

  /** The uint8 an integer becomes when stored in a uint8 array: its value
      modulo 256. */
  function ToUint8(v: int): (b: Byte)
    ensures (b - v) % 256 == 0
    ensures 0 <= v < 256 ==> b == v
  {
    v % 256
  }

  /** `n` digits from position `i`, then a non-digit or the end. */
  predicate DigitsAt(s: string, i: nat, n: nat)
  {
    i + n <= |s| && (forall j | i <= j < i + n :: Text.IsDigit(s[j])) && (i + n == |s| || !Text.IsDigit(s[i + n]))
  }

  lemma {:induction false} DigitRunOfDigits(s: string, i: nat, n: nat)
    requires DigitsAt(s, i, n)
    ensures DigitRun(s, i) == n
    decreases n
  {
    if n > 0 {
      DigitRunOfDigits(s, i + 1, n - 1);
    }
  }

  /** Digits with no sign or whitespace before them. */
  lemma StrToLOfUnsigned(s: string, i: nat, n: nat)
    requires n >= 1 && DigitsAt(s, i, n)
    ensures StrToL(s, i) == (LongOf(false, ValueAt(s, i, n)), n)
  {
    assert Text.IsDigit(s[i]) && !IsCSpace(s[i]);
    assert SpaceRun(s, i) == 0 && NumberStart(s, i) == i;
    DigitRunOfDigits(s, i, n);
  }

  /** Digits right after a minus sign. */
  lemma StrToLOfNegative(s: string, i: nat, n: nat)
    requires i < |s| && s[i] == '-' && n >= 1 && DigitsAt(s, i + 1, n)
    ensures StrToL(s, i) == (LongOf(true, ValueAt(s, i + 1, n)), n + 1)
  {
    assert !IsCSpace(s[i]) && SpaceRun(s, i) == 0;
    assert Text.IsDigit(s[i + 1]) && !IsCSpace(s[i + 1]) && SpaceRun(s, i + 1) == 0;
    assert NumberStart(s, i) == i + 1;
    DigitRunOfDigits(s, i + 1, n);
  }

  /** A run of digits followed by a non-digit is read as its value, when the
      value fits, and consumes exactly the digits. */
  lemma StrToLOfDigits(s: string, i: nat, n: nat)
    requires n >= 1 && DigitsAt(s, i, n)
    requires Text.DigitsValue(s[i..i + n]) <= Int64Max
    ensures StrToL(s, i) == (Text.DigitsValue(s[i..i + n]), n)
  {
    StrToLOfUnsigned(s, i, n);
    ValueAtDigits(s, i, n);
  }

  /** `PyOS_strtol` reads the decimal text of a natural number back whole,
      wherever it stands and whatever non-digit follows it. */
  lemma StrToLOfNatToString(n: nat, s: string, i: nat)
    requires n <= Int64Max
    requires i + |Text.NatToString(n)| <= |s| && s[i..i + |Text.NatToString(n)|] == Text.NatToString(n)
    requires i + |Text.NatToString(n)| == |s| || !Text.IsDigit(s[i + |Text.NatToString(n)|])
    ensures StrToL(s, i) == (n, |Text.NatToString(n)|)
  {
    var d := Text.NatToString(n);
    Text.DigitsValueOfNatToString(n);
    assert DigitsAt(s, i, |d|) by {
      forall j | i <= j < i + |d| ensures Text.IsDigit(s[j]) { assert s[j] == d[j - i]; }
    }
    StrToLOfDigits(s, i, |d|);
  }

  lemma {:induction false} SpaceRunOfBlank(s: string, i: nat)
    requires i <= |s| && forall k | i <= k < |s| :: IsCSpace(s[k])
    ensures SpaceRun(s, i) == |s| - i
    decreases |s| - i
  {
    if i < |s| {
      SpaceRunOfBlank(s, i + 1);
    }
  }

  /** Whitespace alone is consumed and read as 0. */
  lemma StrToLOfBlank(s: string)
    requires forall k | 0 <= k < |s| :: IsCSpace(s[k])
    ensures StrToL(s, 0) == (0, |s|)
  {
    SpaceRunOfBlank(s, 0);
  }

  /** A sign with no digit or whitespace after it is consumed and read as 0. */
  lemma StrToLOfLoneSign(s: string, i: nat)
    requires i < |s| && (s[i] == '-' || s[i] == '+')
    requires i + 1 == |s| || (!Text.IsDigit(s[i + 1]) && !IsCSpace(s[i + 1]))
    ensures StrToL(s, i) == (0, 1)
  {
    assert !IsCSpace(s[i]);
    assert SpaceRun(s, i) == 0 && SpaceRun(s, i + 1) == 0;
    assert NumberStart(s, i) == i + 1;
    assert DigitRun(s, i + 1) == 0;
  }

  /** Digits denoting more than LONG_MAX read as LONG_MAX, consuming all
      of them. */
  lemma StrToLOverflow(s: string, i: nat, n: nat)
    requires n >= 1 && DigitsAt(s, i, n)
    requires Text.DigitsValue(s[i..i + n]) > Int64Max
    ensures StrToL(s, i) == (Int64Max, n)
  {
    StrToLOfUnsigned(s, i, n);
    ValueAtDigits(s, i, n);
  }

  /** After a minus sign too, a magnitude beyond the signed 64-bit range
      reads as LONG_MAX, unless it is exactly 2^63, which reads as LONG_MIN. */
  lemma StrToLNegativeOverflow(s: string, i: nat, n: nat)
    requires i < |s| && s[i] == '-' && n >= 1 && DigitsAt(s, i + 1, n)
    requires Text.DigitsValue(s[i + 1..i + 1 + n]) > Int64Max
    ensures Text.DigitsValue(s[i + 1..i + 1 + n]) != Int64Max + 1 ==> StrToL(s, i) == (Int64Max, n + 1)
    ensures Text.DigitsValue(s[i + 1..i + 1 + n]) == Int64Max + 1 ==> StrToL(s, i) == (Int64Min, n + 1)
  {
    StrToLOfNegative(s, i, n);
    ValueAtDigits(s, i + 1, n);
  }

  /** One element read and a separator matched: the rest is parsed next. */
  lemma ElementsNext(s: string, i: nat, v: int, j: nat)
    requires i <= |s| && StepAt(s, i) == More(v, j)
    ensures Elements(StepAt, s, i) == [v] + Elements(StepAt, s, j)
  {
  }

  /** One element read and no separator after it: the parse ends there. */
  lemma ElementsLast(s: string, i: nat, v: int)
    requires i <= |s| && StepAt(s, i) == Last(v)
    ensures Elements(StepAt, s, i) == [v]
  {
  }

  /** Three steps, the last of which finds no separator, read three
      elements. */
  lemma ThreeSteps(step: (string, nat) -> Step, s: string, p: nat, q: nat, x: int, y: int, z: int)
    requires 0 < p < q <= |s|
    requires step(s, 0) == More(x, p) && step(s, p) == More(y, q) && step(s, q) == Last(z)
    ensures Elements(step, s, 0) == [x, y, z]
  {
    assert Elements(step, s, q) == [z];
    assert Elements(step, s, p) == [y] + [z];
  }

  /** Every element `np.fromstring` reads is a C long. */
  lemma {:induction false} ElementsInRange(s: string, i: nat)
    ensures forall k | 0 <= k < |Elements(StepAt, s, i)| :: Int64Min <= Elements(StepAt, s, i)[k] <= Int64Max
    decreases |s| - i
  {
    if i <= |s| {
      match StepAt(s, i)
      case Stop =>
      case Last(v) =>
      case More(v, j) =>
        ElementsInRange(s, j);
    }
  }

  /** A line of whitespace only, like a blank line of a file, reads as the
      single element 0. */
  lemma FromStringOfBlankLine(line: string)
    requires |line| >= 1 && forall k | 0 <= k < |line| :: IsCSpace(line[k])
    ensures FromString(line) == [0]
  {
    StrToLOfBlank(line);
    SpaceRunOfBlank(line, |line|);
    assert StepAt(line, 0) == Last(0);
    ElementsLast(line, 0, 0);
  }

  /** A field holding only a sign reads as 0, and parsing goes on with the
      next field; a line holding only a sign reads as `[0]`. */
  lemma ElementsOfLoneSign(s: string, i: nat)
    requires i + 2 < |s| && (s[i] == '-' || s[i] == '+') && s[i + 1] == ','
    ensures Elements(StepAt, s, i) == [0] + Elements(StepAt, s, i + 2)
    ensures FromString([s[i]]) == [0]
  {
    StrToLOfLoneSign(s, i);
    assert !IsCSpace(s[i + 1]) && SpaceRun(s, i + 1) == 0;
    assert StepAt(s, i) == More(0, i + 2);
    ElementsNext(s, i, 0, i + 2);
    var t := [s[i]];
    StrToLOfLoneSign(t, 0);
    assert StepAt(t, 0) == Last(0);
    ElementsLast(t, 0, 0);
  }
}
