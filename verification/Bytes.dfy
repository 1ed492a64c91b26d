/** Bytes, little-endian words, and raw memory moves.

    Memory is a sequence of bytes.  `Put` is a plain copy into memory and `Move` is an overlapping
    copy inside one piece of memory, with the meaning of `ptr::copy`. */
module Bytes {
  type byte = b: int | 0 <= b < 256

  datatype Option<+T> = None | Some(value: T)

  /** The two word sizes the crate supports. */
  datatype Target = Bits32 | Bits64 {
    function W(): (w: nat)
      ensures w == 4 || w == 8
    {
      if Bits32? then 4 else 8
    }

    /** One more than the largest `usize`. */
    function Radix(): nat { if Bits32? then 0x1_0000_0000 else 0x1_0000_0000_0000_0000 }

    function IsizeMax(): nat { if Bits32? then 0x7FFF_FFFF else 0x7FFF_FFFF_FFFF_FFFF }

    /** Bytes a handle can hold by itself. */
    function Inline(): nat { 2 * W() }
  }

  function Pow(b: nat, e: nat): nat { if e == 0 then 1 else b * Pow(b, e - 1) }

  lemma {:induction false} PowPositive(b: nat, k: nat)
    requires b > 0
    ensures Pow(b, k) >= 1
  {
    if k > 0 { PowPositive(b, k - 1); }
  }

  lemma RadixIsPow(t: Target)
    ensures Pow(256, t.W()) == t.Radix()
  {
    assert Pow(256, 2) == 0x1_0000;
    assert Pow(256, 4) == 0x1_0000_0000;
    assert Pow(256, 6) == 0x1_0000_0000_0000;
    assert Pow(256, 8) == 0x1_0000_0000_0000_0000;
  }

  /** `isize` has half the values of `usize` from 0 on. */
  lemma IsizeMaxIs(t: Target)
    ensures 2 * (t.IsizeMax() + 1) == Pow(256, t.W())
  {
    RadixIsPow(t);
  }

  /** The `w` low bytes of `n`, least significant first. */
  function Le(n: nat, w: nat): (s: seq<byte>)
    ensures |s| == w
  {
    if w == 0 then [] else [n % 256] + Le(n / 256, w - 1)
  }

  function FromLe(s: seq<byte>): (n: nat)
    ensures n < Pow(256, |s|)
  {
    if s == [] then 0 else s[0] + 256 * FromLe(s[1..])
  }

  lemma {:induction false} LeRoundTrip(n: nat, w: nat)
    requires n < Pow(256, w)
    ensures FromLe(Le(n, w)) == n
  {
    if w > 0 {
      assert n / 256 < Pow(256, w - 1);
      LeRoundTrip(n / 256, w - 1);
      assert Le(n, w)[1..] == Le(n / 256, w - 1);
    }
  }

  lemma {:induction false} FromLeRoundTrip(s: seq<byte>)
    ensures Le(FromLe(s), |s|) == s
  {
    if s != [] {
      FromLeRoundTrip(s[1..]);
      assert FromLe(s) % 256 == s[0] && FromLe(s) / 256 == FromLe(s[1..]);
    }
  }

  /** A word written to memory reads back. */
  lemma WordRoundTrip(t: Target, n: nat)
    requires n < t.Radix()
    ensures FromLe(Le(n, t.W())) == n
  {
    RadixIsPow(t);
    LeRoundTrip(n, t.W());
  }

  /** `mem` with `s` copied to offset `at`. */
  function Put(mem: seq<byte>, at: nat, s: seq<byte>): (r: seq<byte>)
    requires at + |s| <= |mem|
    ensures |r| == |mem|
  {
    mem[..at] + s + mem[at + |s|..]
  }

  /** `ptr::copy` of `n` bytes from offset `src` to offset `dst`; the ranges may overlap. */
  function Move(mem: seq<byte>, src: nat, dst: nat, n: nat): (r: seq<byte>)
    requires src + n <= |mem| && dst + n <= |mem|
    ensures |r| == |mem|
  {
    Put(mem, dst, mem[src..src + n])
  }

  lemma DropTake(s: seq<byte>, i: nat, n: nat)
    requires i + n <= |s|
    ensures s[i..][..n] == s[i..i + n]
  {
    forall k | 0 <= k < n ensures s[i..][..n][k] == s[i..i + n][k] {
    }
  }

  lemma TakeSlice(s: seq<byte>, n: nat, i: nat, j: nat)
    requires i <= j <= n <= |s|
    ensures s[..n][i..j] == s[i..j]
  {
  }

  lemma PutAt(mem: seq<byte>, at: nat, s: seq<byte>)
    requires at + |s| <= |mem|
    ensures forall i | 0 <= i < |mem| :: Put(mem, at, s)[i] == if at <= i < at + |s| then s[i - at] else mem[i]
  {
  }

  /** Two overlapping copies of `n` bytes from both ends are one copy. */
  lemma TwoCopies(mem: seq<byte>, at: nat, text: seq<byte>, n: nat)
    requires n <= |text| <= 2 * n && at + |text| <= |mem|
    ensures Put(Put(mem, at, text[..n]), at + |text| - n, text[|text| - n..]) == Put(mem, at, text)
  {
    hide Put;
    var once := Put(mem, at, text[..n]);
    var twice := Put(once, at + |text| - n, text[|text| - n..]);
    PutAt(mem, at, text[..n]);
    PutAt(once, at + |text| - n, text[|text| - n..]);
    PutAt(mem, at, text);
  }

  lemma RemainderIs(x: nat, n: nat, q: int, r: nat)
    requires r < n && x == n * q + r
    ensures x % n == r && x / n == q
  {
    assert n * (x / n - q) == r - x % n;
    Multiples(n, x / n - q);
  }

  /** A multiple of `n` other than 0 is at least `n` away from 0. */
  lemma Multiples(n: nat, d: int)
    ensures d > 0 ==> n * d >= n
    ensures d < 0 ==> n * d + n <= 0
  {
  }
}
