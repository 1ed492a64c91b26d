/** Bitwise operations on words, and what they do to the bytes of a word. */
module Bits {
  import opened Bytes

  function BitOr(a: nat, b: nat): nat
    decreases a + b
  {
    if a == 0 && b == 0 then 0 else 2 * BitOr(a / 2, b / 2) + (if a % 2 == 1 || b % 2 == 1 then 1 else 0)
  }

  function BitAnd(a: nat, b: nat): nat {
    if a == 0 then 0 else 2 * BitAnd(a / 2, b / 2) + (if a % 2 == 1 && b % 2 == 1 then 1 else 0)
  }

  function BitXor(a: nat, b: nat): nat
    decreases a + b
  {
    if a == 0 && b == 0 then 0 else 2 * BitXor(a / 2, b / 2) + (if a % 2 != b % 2 then 1 else 0)
  }

  function Shl(x: nat, bits: nat, width: nat): nat
  {
    PowPositive(2, width);
    x * Pow(2, bits) % Pow(2, width)
  }

  function Shr(x: nat, bits: nat): nat {
    PowPositive(2, bits);
    x / Pow(2, bits)
  }

  // ----- single words -----

  lemma {:induction false} OrZero(a: nat)
    ensures BitOr(a, 0) == a && BitOr(0, a) == a
  {
    if a > 0 { OrZero(a / 2); }
  }

  lemma {:induction false} OrSelf(a: nat)
    ensures BitOr(a, a) == a
  {
    if a > 0 { OrSelf(a / 2); }
  }

  lemma {:induction false} XorZero(a: nat)
    ensures BitXor(a, 0) == a && BitXor(a, a) == 0
  {
    if a > 0 { XorZero(a / 2); }
  }

  lemma DoublePow(a: nat, k: nat)
    requires k > 0
    ensures a * Pow(2, k) == 2 * (a * Pow(2, k - 1))
  {
  }

  /** OR-ing into zero bits adds, and XOR-ing the same bits again removes them. */
  lemma {:induction false} TagBits(a: nat, b: nat, k: nat)
    requires b < Pow(2, k)
    ensures BitOr(b, a * Pow(2, k)) == BitOr(a * Pow(2, k), b) == a * Pow(2, k) + b
    ensures BitXor(a * Pow(2, k) + b, a * Pow(2, k)) == b
  {
    if k == 0 {
      OrZero(a);
      XorZero(a);
      assert a * Pow(2, 0) == a;
    } else {
      var h := a * Pow(2, k - 1);
      DoublePow(a, k);
      TagBits(a, b / 2, k - 1);
      hide Pow;
      var x := a * Pow(2, k);
      assert x == 2 * h && x / 2 == h && x % 2 == 0;
      assert (x + b) / 2 == h + b / 2 && (x + b) % 2 == b % 2;
    }
  }

  /** AND-ing with `2^k - 1` keeps the low `k` bits. */
  lemma {:induction false} MaskBits(x: nat, k: nat)
    ensures Pow(2, k) >= 1 && BitAnd(x, Pow(2, k) - 1) == x % Pow(2, k)
  {
    hide BitAnd;
    PowPositive(2, k);
    if k == 0 {
      AndZero(x);
      assert Pow(2, 0) == 1;
    } else {
      assert Pow(2, k) == 2 * Pow(2, k - 1);
      hide *;
      MaskBits(x / 2, k - 1);
      HalfMod(x, Pow(2, k - 1));
      AndStep(x, Pow(2, k - 1));
    }
  }

  lemma AndStep(x: nat, m: nat)
    requires m >= 1
    ensures BitAnd(x, 2 * m - 1) == 2 * BitAnd(x / 2, m - 1) + x % 2
  {
    assert (2 * m - 1) / 2 == m - 1 && (2 * m - 1) % 2 == 1;
    if x == 0 { assert BitAnd(x / 2, m - 1) == 0; }
  }

  lemma {:induction false} AndZero(x: nat)
    ensures BitAnd(x, 0) == 0
  {
    if x > 0 { AndZero(x / 2); }
  }

  lemma HalfMod(x: nat, m: nat)
    requires m > 0
    ensures x % (2 * m) == 2 * (x / 2 % m) + x % 2
  {
    var q := x / 2 / m;
    assert x == 2 * (m * q + x / 2 % m) + x % 2;
    assert x == (2 * m) * q + (2 * (x / 2 % m) + x % 2);
    RemainderIs(x, 2 * m, q, 2 * (x / 2 % m) + x % 2);
  }

  // ----- bytes of words -----

  function Zeros(n: nat): (s: seq<byte>)
    ensures |s| == n
  {
    seq(n, _ => 0)
  }

  lemma {:induction false} OrOnce(a: nat, b: nat, x: nat, y: nat, k: nat)
    requires x < Pow(2, k) && y < Pow(2, k)
    ensures BitOr(x, y) < Pow(2, k)
    ensures BitOr(a * Pow(2, k) + x, b * Pow(2, k) + y) == BitOr(a, b) * Pow(2, k) + BitOr(x, y)
  {
    if k == 0 {
      assert a * Pow(2, 0) == a && b * Pow(2, 0) == b;
    } else {
      DoublePow(a, k);
      DoublePow(b, k);
      DoublePow(BitOr(a, b), k);
      OrOnce(a, b, x / 2, y / 2, k - 1);
      var c, d := a * Pow(2, k - 1), b * Pow(2, k - 1);
      var e := BitOr(a, b) * Pow(2, k - 1);
      var u, v := a * Pow(2, k) + x, b * Pow(2, k) + y;
      assert Pow(2, k) == 2 * Pow(2, k - 1);
      hide Pow;
      assert u / 2 == c + x / 2 && u % 2 == x % 2;
      assert v / 2 == d + y / 2 && v % 2 == y % 2;
    }
  }

  /** OR works byte by byte. */
  lemma {:induction false} OrBytes(a: nat, b: nat, w: nat)
    ensures |Le(BitOr(a, b), w)| == w
    ensures forall i | 0 <= i < w :: Le(BitOr(a, b), w)[i] == BitOr(Le(a, w)[i], Le(b, w)[i])
  {
    if w > 0 {
      assert Pow(2, 8) == 256;
      OrOnce(a / 256, b / 256, a % 256, b % 256, 8);
      var c := BitOr(a, b);
      assert c / 256 == BitOr(a / 256, b / 256) && c % 256 == BitOr(a % 256, b % 256);
      OrBytes(a / 256, b / 256, w - 1);
      assert Le(c, w) == [c % 256] + Le(c / 256, w - 1);
      assert Le(a, w) == [a % 256] + Le(a / 256, w - 1);
      assert Le(b, w) == [b % 256] + Le(b / 256, w - 1);
    }
  }

  lemma {:induction false} PowOfBytes(k: nat)
    ensures Pow(2, 8 * k) == Pow(256, k)
  {
    if k > 0 {
      PowOfBytes(k - 1);
      var p := Pow(2, 8 * (k - 1));
      assert Pow(2, 8 * k) == 2 * Pow(2, 8 * k - 1) == 4 * Pow(2, 8 * k - 2)
          == 8 * Pow(2, 8 * k - 3) == 16 * Pow(2, 8 * k - 4);
      assert Pow(2, 8 * k - 4) == 2 * Pow(2, 8 * k - 5) == 4 * Pow(2, 8 * k - 6) == 8 * Pow(2, 8 * k - 7) == 16 * p;
    }
  }

  /** Only the low `w` bytes matter. */
  lemma {:induction false} LeMod(x: nat, w: nat)
    ensures Pow(256, w) >= 1 && Le(x % Pow(256, w), w) == Le(x, w)
  {
    PowPositive(256, w);
    if w > 0 {
      LeMod(x / 256, w - 1);
      ModStep(x, Pow(256, w - 1));
    }
  }

  lemma ModStep(x: nat, m: nat)
    requires m > 0
    ensures x % (256 * m) % 256 == x % 256 && x % (256 * m) / 256 == x / 256 % m
  {
    var q, r := x / 256 / m, x / 256 % m;
    assert x / 256 == m * q + r;
    assert x == 256 * (m * q + r) + x % 256;
    assert x == (256 * m) * q + (256 * r + x % 256);
    RemainderIs(x, 256 * m, q, 256 * r + x % 256);
  }

  /** Shifting left by whole bytes. */
  lemma {:induction false} ShlBytes(x: nat, k: nat, w: nat)
    requires k <= w
    ensures Le(Shl(x, 8 * k, 8 * w), w) == Zeros(k) + Le(x, w - k)
  {
    PowOfBytes(k);
    PowOfBytes(w);
    LeMod(x * Pow(256, k), w);
    LeMultiple(x, k, w);
  }

  lemma {:induction false} LeMultiple(x: nat, k: nat, w: nat)
    requires k <= w
    ensures Le(x * Pow(256, k), w) == Zeros(k) + Le(x, w - k)
  {
    if k == 0 {
      assert x * Pow(256, 0) == x;
      assert Zeros(0) + Le(x, w) == Le(x, w);
    } else {
      LeMultiple(x, k - 1, w - 1);
      var y := x * Pow(256, k - 1);
      assert x * Pow(256, k) == 256 * y;
      hide Pow;
      LeOfMultiple(y, w);
      assert Zeros(k) == [0] + Zeros(k - 1);
    }
  }

  lemma LeOfMultiple(y: nat, w: nat)
    requires w > 0
    ensures Le(256 * y, w) == [0] + Le(y, w - 1)
  {
    assert 256 * y % 256 == 0 && 256 * y / 256 == y;
  }

  /** Shifting right by whole bytes. */
  lemma {:induction false} ShrBytes(x: nat, k: nat, w: nat)
    ensures Le(x, k + w) == Le(x, k) + Le(Shr(x, 8 * k), w)
  {
    PowOfBytes(k);
    LeSplit(x, k, w);
  }

  lemma {:induction false} LeSplit(x: nat, k: nat, w: nat)
    ensures Pow(256, k) >= 1 && Le(x, k + w) == Le(x, k) + Le(x / Pow(256, k), w)
  {
    PowPositive(256, k);
    if k > 0 {
      LeSplit(x / 256, k - 1, w);
      DivTwice(x, Pow(256, k - 1));
    }
  }

  lemma DivTwice(x: nat, m: nat)
    requires m > 0
    ensures x / (256 * m) == x / 256 / m
  {
    var q, r := x / 256 / m, x / 256 % m;
    assert x / 256 == m * q + r;
    assert x == (256 * m) * q + (256 * r + x % 256);
    RemainderIs(x, 256 * m, q, 256 * r + x % 256);
  }

  /** Bytes above the value are zero. */
  lemma {:induction false} LeExtends(s: seq<byte>, w: nat)
    requires |s| <= w
    ensures Le(FromLe(s), w) == s + Zeros(w - |s|)
  {
    if s == [] {
      LeZero(w);
    } else {
      LeExtends(s[1..], w - 1);
      assert FromLe(s) % 256 == s[0] && FromLe(s) / 256 == FromLe(s[1..]);
    }
  }

  lemma {:induction false} LeZero(w: nat)
    ensures Le(0, w) == Zeros(w)
  {
    if w > 0 { LeZero(w - 1); }
  }
}
