/** Printing integers: digit counts by table, then digits from the end, four at a time. */
module Numbers {
  import opened Bytes
  import Utf8
  import opened Case

  datatype IntType = I8 | U8 | I16 | U16 | I32 | U32 | I64 | U64 | Isize | Usize {
    predicate Signed() { I8? || I16? || I32? || I64? || Isize? }

    /** `size_of`. */
    function Size(t: Target): nat {
      match this
      case I8 => 1 case U8 => 1
      case I16 => 2 case U16 => 2
      case I32 => 4 case U32 => 4
      case I64 => 8 case U64 => 8
      case Isize => t.W() case Usize => t.W()
    }

    predicate Fits(t: Target, x: int) {
      if Signed() then -(HalfRange(Size(t)) as int) <= x < HalfRange(Size(t)) else 0 <= x < 2 * HalfRange(Size(t))
    }

    /** One more than the largest value of the unsigned type the digits are taken from. */
    function Work(t: Target): nat {
      if I64? || U64? || t.Bits64? then 0x1_0000_0000_0000_0000 else 0x1_0000_0000
    }
  }

  function HalfRange(size: nat): nat {
    if size == 1 then 0x80 else if size == 2 then 0x8000 else if size == 4 then 0x8000_0000 else 0x8000_0000_0000_0000
  }

  /** The values of each type, and the widths of the types their digits are taken from. */
  lemma FitsIs(t: Target, x: int)
    ensures I8.Fits(t, x) <==> -128 <= x <= 127
    ensures U8.Fits(t, x) <==> 0 <= x <= 255
    ensures I16.Fits(t, x) <==> -32_768 <= x <= 32_767
    ensures U16.Fits(t, x) <==> 0 <= x <= 65_535
    ensures I32.Fits(t, x) <==> -2_147_483_648 <= x <= 2_147_483_647
    ensures U32.Fits(t, x) <==> 0 <= x <= 4_294_967_295
    ensures I64.Fits(t, x) <==> -9_223_372_036_854_775_808 <= x <= 9_223_372_036_854_775_807
    ensures U64.Fits(t, x) <==> 0 <= x <= 18_446_744_073_709_551_615
    ensures Isize.Fits(t, x) <==> -(t.IsizeMax() as int) - 1 <= x <= t.IsizeMax()
    ensures Usize.Fits(t, x) <==> 0 <= x < t.Radix()
  {
  }

  lemma WorkIs(ty: IntType, t: Target)
    ensures ty.Work(t) == Pow(256, if ty.Size(t) <= 4 && t.Bits32? then 4 else 8)
  {
    RadixIsPow(Bits32);
    RadixIsPow(Bits64);
  }

  // ----- decimal notation -----

  const ZERO: byte := 48
  const MINUS: byte := 45

  function Digits(n: nat): (s: seq<byte>)
    ensures s != []
  {
    if n < 10 then [ZERO + n] else Digits(n / 10) + [ZERO + n % 10]
  }

  function Decimal(x: int): seq<byte> { if x < 0 then [MINUS] + Digits(-x) else Digits(x) }

  predicate IsDigit(b: byte) { ZERO <= b < ZERO + 10 }

  /** The number a string of digits denotes. */
  function DigitsValue(s: seq<byte>): int {
    if s == [] then 0 else 10 * DigitsValue(s[..|s| - 1]) + (s[|s| - 1] as int - ZERO)
  }

  /** The characters of the notation. */
  lemma DigitsAre(d: nat)
    requires d < 10
    ensures Digits(d) == ["0123456789"[d] as int] && Decimal(-1) == ['-' as int, '1' as int]
  {
    DigitAt(d);
  }

  lemma DigitAt(d: nat)
    requires d < 10
    ensures "0123456789"[d] as int == 48 + d
  {
  }

  /** Reads a number back, rejecting anything but an optional sign and digits. */
  function Parse(s: seq<byte>): Option<int> {
    var neg := s != [] && s[0] == MINUS;
    var body := if neg then s[1..] else s;
    if body == [] || exists i | 0 <= i < |body| :: !IsDigit(body[i]) then None
    else Some(if neg then -DigitsValue(body) else DigitsValue(body))
  }

  /** Decimal notation without superfluous zeros. */
  predicate Canonical(s: seq<byte>) {
    s != [] && (forall i | 0 <= i < |s| :: IsDigit(s[i])) && (|s| > 1 ==> s[0] != ZERO)
  }

  lemma {:induction false} DigitsCanonical(n: nat)
    ensures Canonical(Digits(n)) && DigitsValue(Digits(n)) == n
    ensures Digits(n)[0] == ZERO <==> n == 0
  {
    if n >= 10 {
      DigitsCanonical(n / 10);
      var s := Digits(n);
      assert s[..|s| - 1] == Digits(n / 10);
      assert s[0] == Digits(n / 10)[0];
    }
  }

  /** Canonical notation is unique. */
  lemma {:induction false} CanonicalIsDigits(s: seq<byte>)
    requires Canonical(s)
    ensures DigitsValue(s) >= 0 && Digits(DigitsValue(s)) == s
  {
    var front := s[..|s| - 1];
    if front == [] {
      assert s == [s[0]];
    } else {
      assert Canonical(front);
      CanonicalIsDigits(front);
      DigitsCanonical(DigitsValue(front));
      assert front[0] != ZERO;
      assert s == front + [s[|s| - 1]];
    }
  }

  /** Parsing inverts printing, and the printed form has no superfluous zeros and no `-0`. */
  lemma DecimalRoundTrip(x: int)
    ensures Parse(Decimal(x)) == Some(x)
    ensures Canonical(if x < 0 then Decimal(x)[1..] else Decimal(x)) && Decimal(x) != [MINUS, ZERO]
  {
    DigitsCanonical(if x < 0 then -x else x);
    if x < 0 { assert Decimal(x)[1..] == Digits(-x); }
  }

  lemma DecimalIsAscii(x: int)
    ensures Utf8.Valid(Decimal(x))
  {
    DigitsCanonical(if x < 0 then -x else x);
    AsciiText(Decimal(x));
  }

  // ----- digit counts -----

  lemma {:induction false} DigitsLength(n: nat, k: nat)
    requires k >= 1 && n < Pow(10, k) && (k > 1 ==> Pow(10, k - 1) <= n)
    ensures |Digits(n)| == k
  {
    if k > 1 {
      PowPositive(10, k - 2);
      DigitsLength(n / 10, k - 1);
    }
  }

  function CountU8(x: nat): nat {
    if x <= 9 then 1
    else if x <= 99 then 2
    else 3
  }

  function CountI8(x: int): nat {
    if x <= -100 then 4
    else if x <= -10 then 3
    else if x <= -1 then 2
    else if x <= 9 then 1
    else if x <= 99 then 2
    else 3
  }

  function CountU16(x: nat): nat {
    if x <= 9 then 1
    else if x <= 99 then 2
    else if x <= 999 then 3
    else if x <= 9999 then 4
    else 5
  }

  function CountI16(x: int): nat {
    if x <= -10000 then 6
    else if x <= -1000 then 5
    else if x <= -100 then 4
    else if x <= -10 then 3
    else if x <= -1 then 2
    else if x <= 9 then 1
    else if x <= 99 then 2
    else if x <= 999 then 3
    else if x <= 9999 then 4
    else 5
  }

  function CountU32(x: nat): nat {
    if x <= 9 then 1
    else if x <= 99 then 2
    else if x <= 999 then 3
    else if x <= 9999 then 4
    else if x <= 99999 then 5
    else if x <= 999999 then 6
    else if x <= 9999999 then 7
    else if x <= 99999999 then 8
    else if x <= 999999999 then 9
    else 10
  }

  function CountI32(x: int): nat {
    if x <= -1000000000 then 11
    else if x <= -100000000 then 10
    else if x <= -10000000 then 9
    else if x <= -1000000 then 8
    else if x <= -100000 then 7
    else if x <= -10000 then 6
    else if x <= -1000 then 5
    else if x <= -100 then 4
    else if x <= -10 then 3
    else if x <= -1 then 2
    else if x <= 9 then 1
    else if x <= 99 then 2
    else if x <= 999 then 3
    else if x <= 9999 then 4
    else if x <= 99999 then 5
    else if x <= 999999 then 6
    else if x <= 9999999 then 7
    else if x <= 99999999 then 8
    else if x <= 999999999 then 9
    else 10
  }

  function CountU64(x: nat): nat {
    if x <= 9 then 1
    else if x <= 99 then 2
    else if x <= 999 then 3
    else if x <= 9999 then 4
    else if x <= 99999 then 5
    else if x <= 999999 then 6
    else if x <= 9999999 then 7
    else if x <= 99999999 then 8
    else if x <= 999999999 then 9
    else if x <= 9999999999 then 10
    else if x <= 99999999999 then 11
    else if x <= 999999999999 then 12
    else if x <= 9999999999999 then 13
    else if x <= 99999999999999 then 14
    else if x <= 999999999999999 then 15
    else if x <= 9999999999999999 then 16
    else if x <= 99999999999999999 then 17
    else if x <= 999999999999999999 then 18
    else if x <= 9999999999999999999 then 19
    else 20
  }

  function CountI64(x: int): nat {
    if x <= -1000000000000000000 then 20
    else if x <= -100000000000000000 then 19
    else if x <= -10000000000000000 then 18
    else if x <= -1000000000000000 then 17
    else if x <= -100000000000000 then 16
    else if x <= -10000000000000 then 15
    else if x <= -1000000000000 then 14
    else if x <= -100000000000 then 13
    else if x <= -10000000000 then 12
    else if x <= -1000000000 then 11
    else if x <= -100000000 then 10
    else if x <= -10000000 then 9
    else if x <= -1000000 then 8
    else if x <= -100000 then 7
    else if x <= -10000 then 6
    else if x <= -1000 then 5
    else if x <= -100 then 4
    else if x <= -10 then 3
    else if x <= -1 then 2
    else if x <= 9 then 1
    else if x <= 99 then 2
    else if x <= 999 then 3
    else if x <= 9999 then 4
    else if x <= 99999 then 5
    else if x <= 999999 then 6
    else if x <= 9999999 then 7
    else if x <= 99999999 then 8
    else if x <= 999999999 then 9
    else if x <= 9999999999 then 10
    else if x <= 99999999999 then 11
    else if x <= 999999999999 then 12
    else if x <= 9999999999999 then 13
    else if x <= 99999999999999 then 14
    else if x <= 999999999999999 then 15
    else if x <= 9999999999999999 then 16
    else if x <= 99999999999999999 then 17
    else if x <= 999999999999999999 then 18
    else 19
  }

  /** `DigitCount::digit_count`. */
  function DigitCount(ty: IntType, t: Target, x: int): nat
    requires ty.Fits(t, x)
  {
    match ty
    case I8 => CountI8(x) case U8 => CountU8(x)
    case I16 => CountI16(x) case U16 => CountU16(x)
    case I32 => CountI32(x) case U32 => CountU32(x)
    case I64 => CountI64(x) case U64 => CountU64(x)
    case Isize => if t.Bits64? then CountI64(x) else CountI32(x)
    case Usize => if t.Bits64? then CountU64(x) else CountU32(x)
  }

  lemma PowersOfTen()
    ensures Pow(10, 1) == 10
    ensures Pow(10, 2) == 100
    ensures Pow(10, 3) == 1000
    ensures Pow(10, 4) == 10000
    ensures Pow(10, 5) == 100000
    ensures Pow(10, 6) == 1000000
    ensures Pow(10, 7) == 10000000
    ensures Pow(10, 8) == 100000000
    ensures Pow(10, 9) == 1000000000
    ensures Pow(10, 10) == 10000000000
    ensures Pow(10, 11) == 100000000000
    ensures Pow(10, 12) == 1000000000000
    ensures Pow(10, 13) == 10000000000000
    ensures Pow(10, 14) == 100000000000000
    ensures Pow(10, 15) == 1000000000000000
    ensures Pow(10, 16) == 10000000000000000
    ensures Pow(10, 17) == 100000000000000000
    ensures Pow(10, 18) == 1000000000000000000
    ensures Pow(10, 19) == 10000000000000000000
    ensures Pow(10, 20) == 100000000000000000000
  {
  }

  /** A table entry for `n` between powers of ten is its number of digits. */
  lemma CountMagnitude(n: nat)
    requires n < 100000000000000000000
    ensures |Digits(n)| == CountU64(n)
  {
    PowersOfTen();
    hide Pow, Digits;
    DigitsLength(n, CountU64(n));
  }

  /** All ten tables give the length of the decimal notation, sign included. */
  lemma DigitCountIsLength(ty: IntType, t: Target, x: int)
    requires ty.Fits(t, x)
    ensures DigitCount(ty, t, x) == |Decimal(x)|
  {
    hide Digits;
    CountMagnitude(if x < 0 then -x else x);
  }

  /** No integer takes more than 20 bytes. */
  lemma DecimalIsShort(ty: IntType, t: Target, x: int)
    requires ty.Fits(t, x)
    ensures |Decimal(x)| <= 20
  {
    DigitCountIsLength(ty, t, x);
    hide Decimal, IntType.Fits;
  }

  // ----- the table of digit pairs -----

  /** `DEC_DIGITS_LUT`, cut into one row for each tens digit. */
  function LutRow(tens: nat): string
    requires tens < 10
  {
    match tens
    case 0 => "00010203040506070809"
    case 1 => "10111213141516171819"
    case 2 => "20212223242526272829"
    case 3 => "30313233343536373839"
    case 4 => "40414243444546474849"
    case 5 => "50515253545556575859"
    case 6 => "60616263646566676869"
    case 7 => "70717273747576777879"
    case 8 => "80818283848586878889"
    case 9 => "90919293949596979899"
  }

  predicate RowOk(row: string, t: char) {
    && |row| == 20
    && row[0] == row[2] == row[4] == row[6] == row[8] == row[10] == row[12] == row[14] == row[16] == row[18] == t
    && row[1] == '0' && row[3] == '1' && row[5] == '2' && row[7] == '3' && row[9] == '4'
    && row[11] == '5' && row[13] == '6' && row[15] == '7' && row[17] == '8' && row[19] == '9'
  }

  lemma Row0() ensures RowOk(LutRow(0), '0') {}
  lemma Row1() ensures RowOk(LutRow(1), '1') {}
  lemma Row2() ensures RowOk(LutRow(2), '2') {}
  lemma Row3() ensures RowOk(LutRow(3), '3') {}
  lemma Row4() ensures RowOk(LutRow(4), '4') {}
  lemma Row5() ensures RowOk(LutRow(5), '5') {}
  lemma Row6() ensures RowOk(LutRow(6), '6') {}
  lemma Row7() ensures RowOk(LutRow(7), '7') {}
  lemma Row8() ensures RowOk(LutRow(8), '8') {}
  lemma Row9() ensures RowOk(LutRow(9), '9') {}

  lemma RowsOk(tens: nat)
    requires tens < 10
    ensures RowOk(LutRow(tens), (ZERO as int + tens) as char)
  {
    hide LutRow, RowOk;
    match tens
    case 0 => Row0();
    case 1 => Row1();
    case 2 => Row2();
    case 3 => Row3();
    case 4 => Row4();
    case 5 => Row5();
    case 6 => Row6();
    case 7 => Row7();
    case 8 => Row8();
    case 9 => Row9();
  }

  lemma RowPair(tens: nat, ones: nat)
    requires tens < 10 && ones < 10
    ensures |LutRow(tens)| == 20
    ensures LutRow(tens)[2 * ones] as int == ZERO as int + tens
    ensures LutRow(tens)[2 * ones + 1] as int == ZERO as int + ones
  {
    hide LutRow, RowOk;
    RowsOk(tens);
    PairOf(LutRow(tens), (ZERO as int + tens) as char, ones);
  }

  lemma PairOf(row: string, t: char, ones: nat)
    requires RowOk(row, t) && ones < 10
    ensures |row| == 20 && row[2 * ones] == t && row[2 * ones + 1] as int == ZERO as int + ones
  {
    assert ones == 0 || ones == 1 || ones == 2 || ones == 3 || ones == 4
        || ones == 5 || ones == 6 || ones == 7 || ones == 8 || ones == 9;
  }

  /** One byte of the table. */
  function LutAt(at: nat): byte
    requires at < 200
  {
    RowPair(at / 20, at % 20 / 2);
    hide LutRow;
    assert at % 20 == 2 * (at % 20 / 2) || at % 20 == 2 * (at % 20 / 2) + 1;
    LutRow(at / 20)[at % 20] as int
  }

  /** Two bytes of the table from offset `at`. */
  function LutPair(at: nat): (s: seq<byte>)
    requires at < 199
    ensures |s| == 2
  {
    [LutAt(at), LutAt(at + 1)]
  }

  lemma Offsets(d: nat)
    ensures 2 * d / 20 == d / 10 && 2 * d % 20 == 2 * (d % 10)
    ensures (2 * d + 1) / 20 == d / 10 && (2 * d + 1) % 20 == 2 * (d % 10) + 1
  {
    assert 2 * d == 20 * (d / 10) + 2 * (d % 10);
  }

  /** At twice `d`, the table holds the two digits of `d`. */
  lemma LutPairIs(d: nat)
    requires d < 100
    ensures LutPair(2 * d) == [ZERO + d / 10, ZERO + d % 10]
  {
    hide LutRow;
    Offsets(d);
    RowPair(d / 10, d % 10);
  }

  // ----- writing digits -----

  function TwoChars(d: nat): (s: seq<byte>)
    requires d < 100
    ensures |s| == 2
  {
    [ZERO + d / 10, ZERO + d % 10]
  }

  lemma TwoDigits(n: nat)
    ensures n < 10 ==> Digits(n) == [ZERO + n]
    ensures 10 <= n < 100 ==> Digits(n) == TwoChars(n)
    ensures n >= 100 ==> Digits(n) == Digits(n / 100) + TwoChars(n % 100)
  {
    if n >= 100 {
      assert n / 10 / 10 == n / 100 && n / 10 % 10 == n % 100 / 10 && n % 10 == n % 100 % 10;
    }
  }

  lemma Hundreds(n: nat)
    ensures n / 100 / 100 == n / 10000 && n / 100 % 100 == n % 10000 / 100 && n % 100 == n % 10000 % 100
  {
  }

  lemma FourDigits(n: nat)
    requires n >= 10000
    ensures Digits(n) == Digits(n / 10000) + (TwoChars(n % 10000 / 100) + TwoChars(n % 10000 % 100))
  {
    hide Digits, TwoChars;
    TwoDigits(n);
    TwoDigits(n / 100);
    Hundreds(n);
    SeqAssoc(Digits(n / 10000), TwoChars(n / 100 % 100), TwoChars(n % 100));
  }

  /** Copies two bytes of the table, from offset `2 * d`, into the buffer. */
  method CopyPair(buf: array<byte>, curr: nat, d: nat)
    requires curr + 2 <= buf.Length && d < 100
    modifies buf
    ensures buf[..] == Put(old(buf[..]), curr, TwoChars(d))
  {
    hide LutPair;
    LutPairIs(d);
    var pair := LutPair(2 * d);
    buf[curr] := pair[0];
    buf[curr + 1] := pair[1];
  }

  /** One round of four digits. */
  method CopyFour(buf: array<byte>, curr: nat, rem: nat)
    requires curr + 4 <= buf.Length && rem < 10000
    modifies buf
    ensures buf[..] == Put(old(buf[..]), curr, TwoChars(rem / 100) + TwoChars(rem % 100))
  {
    hide Put, TwoChars;
    CopyPair(buf, curr, rem / 100);
    CopyPair(buf, curr + 2, rem % 100);
    PutPut(old(buf[..]), curr, TwoChars(rem / 100), TwoChars(rem % 100));
  }

  lemma PutPut(mem: seq<byte>, at: nat, a: seq<byte>, b: seq<byte>)
    requires at + |a| + |b| <= |mem|
    ensures Put(Put(mem, at + |a|, b), at, a) == Put(mem, at, a + b)
    ensures Put(Put(mem, at, a), at + |a|, b) == Put(mem, at, a + b)
  {
    PutAt(mem, at + |a|, b);
    PutAt(Put(mem, at + |a|, b), at, a);
    PutAt(mem, at, a);
    PutAt(Put(mem, at, a), at + |a|, b);
    PutAt(mem, at, a + b);
    hide Put;
  }

  /** Four digits at a time while the number has more than four. */
  method WriteFours(buf: array<byte>, end: nat, m: nat) returns (curr: nat, n: nat)
    requires |Digits(m)| <= end <= buf.Length
    modifies buf
    ensures n < 10000 && |Digits(n)| <= curr <= end && |Digits(m)| - |Digits(n)| == end - curr
    ensures Digits(m)[..|Digits(n)|] == Digits(n)
    ensures buf[..] == Put(old(buf[..]), curr, Digits(m)[|Digits(n)|..])
  {
    hide Digits, TwoChars, Put;
    n, curr := m, end;
    ghost var done: seq<byte> := [];
    PutNothing(buf[..], curr);
    while n >= 10000
      invariant |Digits(n)| <= curr <= end && curr + |done| == end
      invariant Digits(m) == Digits(n) + done
      invariant buf[..] == Put(old(buf[..]), curr, done)
    {
      FourDigits(n);
      ghost var high, four := Digits(n / 10000), TwoChars(n % 10000 / 100) + TwoChars(n % 10000 % 100);
      curr := curr - 4;
      CopyFour(buf, curr, n % 10000);
      PutPut(old(buf[..]), curr, four, done);
      SeqAssoc(high, four, done);
      done := four + done;
      n := n / 10000;
    }
  }

  lemma PutNothing(mem: seq<byte>, at: nat)
    requires at <= |mem|
    ensures Put(mem, at, []) == mem
  {
  }

  /** The last one to four digits. */
  method WriteRest(buf: array<byte>, end: nat, m: nat) returns (curr: nat)
    requires m < 10000 && |Digits(m)| <= end <= buf.Length
    modifies buf
    ensures curr == end - |Digits(m)|
    ensures buf[..] == Put(old(buf[..]), curr, Digits(m))
  {
    hide Digits, TwoChars, Put;
    var n := m;
    curr := end;
    TwoDigits(n);
    ghost var done: seq<byte> := [];
    PutNothing(buf[..], curr);
    if n >= 100 {
      curr := curr - 2;
      CopyPair(buf, curr, n % 100);
      done := TwoChars(n % 100);
      n := n / 100;
      TwoDigits(n);
    }
    assert Digits(m) == Digits(n) + done;
    PutPut(old(buf[..]), curr - |Digits(n)|, Digits(n), done);
    if n < 10 {
      curr := curr - 1;
      PutOne(buf[..], curr, n + ZERO);
      buf[curr] := n + ZERO;
    } else {
      curr := curr - 2;
      CopyPair(buf, curr, n);
    }
  }

  lemma PutOne(mem: seq<byte>, at: nat, b: byte)
    requires at < |mem|
    ensures mem[at := b] == Put(mem, at, [b])
  {
  }

  /** The magnitude of `x` as the code computes it: `as` reduces modulo the width of the work type, and
      negation adds 1 to the complement. */
  function InWorkType(ty: IntType, t: Target, x: int): nat {
    var work := ty.Work(t);
    if x >= 0 then x % work else (work - 1 - x % work + 1) % work
  }

  lemma Magnitude(ty: IntType, t: Target, x: int)
    requires ty.Fits(t, x)
    ensures InWorkType(ty, t, x) == if x < 0 then -x else x
    ensures ty.Size(t) < 2 ==> -10000 < x < 10000
  {
    FitsWork(ty, t, x);
    hide IntType.Fits, IntType.Work, IntType.Size;
    Complement(x, ty.Work(t));
  }

  lemma FitsWork(ty: IntType, t: Target, x: int)
    requires ty.Fits(t, x)
    ensures -(ty.Work(t) as int) < x < ty.Work(t)
    ensures ty.Size(t) < 2 ==> -10000 < x < 10000
  {
  }

  lemma Complement(x: int, work: nat)
    requires -(work as int) < x < work
    ensures x >= 0 ==> x % work == x
    ensures x < 0 ==> (work - 1 - x % work + 1) % work == -x
  {
    if x < 0 {
      assert x + work == x % work by { RemainderIs(x + work, work, 0, x + work); WrapOnce(x, work); }
      RemainderIs(-x, work, 0, -x);
    } else {
      RemainderIs(x, work, 0, x);
    }
  }

  lemma WrapOnce(x: int, work: nat)
    requires -(work as int) < x < 0
    ensures (x + work) % work == x % work
  {
    var q := x / work;
    assert x == work * q + x % work;
    assert x + work == work * (q + 1) + x % work;
    RemainderIs(x + work, work, q + 1, x % work);
  }

  /** All digits of `m`, ending in front of `end`. */
  method WriteDigits(buf: array<byte>, end: nat, m: nat, fours: bool) returns (curr: nat)
    requires |Digits(m)| <= end <= buf.Length && (fours || m < 10000)
    modifies buf
    ensures curr == end - |Digits(m)|
    ensures buf[..] == Put(old(buf[..]), curr, Digits(m))
  {
    hide Digits, Put;
    curr := end;
    var n := m;
    ghost var all, before := Digits(m), buf[..];
    assert all == all[..|all|] && all[|all|..] == [];
    PutNothing(before, curr);
    if fours {
      curr, n := WriteFours(buf, curr, n);
    }
    ghost var high, low := Digits(n), all[|Digits(n)|..];
    assert all == high + low;
    PutPut(before, curr - |high|, high, low);
    curr := WriteRest(buf, curr, n);
  }

  /** The closure of `into_repr`: writes the digits of `x` backward into a buffer of exactly the counted
      size, from the end to index 0. */
  method WriteNumber(ty: IntType, t: Target, x: int, buf: array<byte>) returns (curr: nat)
    requires ty.Fits(t, x) && buf.Length == DigitCount(ty, t, x)
    modifies buf
    ensures curr == 0
    ensures buf[..] == Decimal(x)
  {
    DigitCountIsLength(ty, t, x);
    Magnitude(ty, t, x);
    hide Digits, DigitCount, InWorkType, Put, IntType.Fits, IntType.Size;
    curr := buf.Length;
    var nonnegative, n := x >= 0, InWorkType(ty, t, x);
    ghost var empty := buf[..];
    curr := WriteDigits(buf, curr, n, ty.Size(t) >= 2);
    if !nonnegative {
      curr := curr - 1;
      PutOne(buf[..], curr, MINUS);
      buf[curr] := MINUS;
      PutPut(empty, 0, [MINUS], Digits(n));
    }
    PutAll(empty, Decimal(x));
  }

  lemma PutAll(mem: seq<byte>, s: seq<byte>)
    requires |s| == |mem|
    ensures Put(mem, 0, s) == s
  {
  }
}
