/** The two words of a `Repr`: building inline buffers in registers or by short copies, and telling the
    three forms and their lengths apart again. */
module TwoWords {
  import opened Bytes
  import opened Bits
  import opened Layout
  import opened HeapState
  import opened HeapMemory
  import Utf8

  // ----- InlineBuffer::new in registers -----

  /** `read_unaligned` of an `n`-byte integer. */
  function Load(src: seq<byte>, at: nat, n: nat): nat
    requires at + n <= |src|
  {
    FromLe(src[at..at + n])
  }

  /** The last byte of a word, tagged with an inline length. */
  function LengthTag(len: nat, w: nat): nat
    requires w > 0
  {
    Shl(BitOr(len, MASK), 8 * (w - 1), 8 * w)
  }

  /** `InlineBuffer::new` for 64-bit little-endian targets. */
  function InRegisters(text: seq<byte>): (nat, nat)
    requires |text| <= 16
  {
    var len := |text|;
    var lastByte := LengthTag(len, 8);
    if len == 16 then (Load(text, 0, 8), Load(text, 8, 8))
    else if len >= 8 then
      var w0 := Load(text, 0, 8);
      if len == 8 then (w0, lastByte)
      else
        var tail := Load(text, len - 8, 8);
        (w0, BitOr(Shr(tail, (16 - len) * 8), lastByte))
    else if len >= 4 then
      var head, tail := Load(text, 0, 4), Load(text, len - 4, 4);
      (BitOr(head, Shl(tail, (len - 4) * 8, 64)), lastByte)
    else if len >= 2 then
      var head, tail := Load(text, 0, 2), Load(text, len - 2, 2);
      (BitOr(head, Shl(tail, (len - 2) * 8, 64)), lastByte)
    else if len == 1 then (text[0], lastByte)
    else (0, lastByte)
  }

  lemma TagIsSum(len: nat)
    requires len < 64
    ensures BitOr(len, MASK) == MASK + len
  {
    assert Pow(2, 6) == 64;
    TagBits(3, len, 6);
  }

  /** The tag is zero but for the last byte. */
  lemma TagBytes(len: nat, w: nat)
    requires len < 16 && w > 0
    ensures Le(LengthTag(len, w), w) == Zeros(w - 1) + [MASK + len]
  {
    TagIsSum(len);
    ShlBytes(MASK + len, w - 1, w);
    LeOne(MASK + len);
  }

  lemma LeOne(b: byte)
    ensures Le(b, 1) == [b]
  {
    assert Le(b / 256, 0) == [];
  }

  lemma OrIs(a: nat, b: nat, x: seq<byte>, y: seq<byte>, z: seq<byte>)
    requires |x| == |y| == |z| && Le(a, |z|) == x && Le(b, |z|) == y
    requires forall i | 0 <= i < |z| :: BitOr(x[i], y[i]) == z[i]
    ensures Le(BitOr(a, b), |z|) == z
  {
    hide Le, BitOr;
    OrBytes(a, b, |z|);
  }

  /** Two overlapping loads of `n` bytes from both ends, the upper one shifted into place and OR-ed in,
      give the text followed by zeros. */
  lemma OverlappingLoads(text: seq<byte>, n: nat, w: nat)
    requires 0 < n <= |text| <= 2 * n && |text| <= w
    ensures Le(BitOr(Load(text, 0, n), Shl(Load(text, |text| - n, n), (|text| - n) * 8, 8 * w)), w)
            == text + Zeros(w - |text|)
  {
    hide Le, FromLe, BitOr, Shl;
    var len := |text|;
    var head, tail := text[..n], text[len - n..];
    assert text[0..n] == head && text[len - n..len] == tail;
    LeExtends(head, w);
    LeExtends(tail, w - (len - n));
    ShlBytes(FromLe(tail), len - n, w);
    var x, y, z := head + Zeros(w - n), Zeros(len - n) + (tail + Zeros(w - len)), text + Zeros(w - len);
    forall i | 0 <= i < w ensures BitOr(x[i], y[i]) == z[i] {
      if i < len { OrZero(text[i]); OrSelf(text[i]); } else { OrZero(0); }
    }
    OrIs(FromLe(head), Shl(FromLe(tail), 8 * (len - n), 8 * w), x, y, z);
  }

  /** A word shifted right by `k` bytes. */
  lemma ShiftedDown(s: seq<byte>, k: nat)
    requires k <= |s|
    ensures Le(Shr(FromLe(s), 8 * k), |s|) == s[k..] + Zeros(k)
  {
    hide *;
    ShrBytes(FromLe(s), k, |s|);
    LeExtends(s, k + |s|);
    SameSuffix(s, Le(FromLe(s), k), Le(Shr(FromLe(s), 8 * k), |s|), k);
  }

  lemma SameSuffix(s: seq<byte>, low: seq<byte>, high: seq<byte>, k: nat)
    requires |low| == k <= |s| && low + high == s + Zeros(k + |s| - |s|)
    ensures high == s[k..] + Zeros(k)
  {
    hide Zeros;
    assert high == (low + high)[k..];
    assert (s + Zeros(k))[k..] == s[k..] + Zeros(k);
  }

  /** The upper load of a text of 9 to 15 bytes, shifted right past what the first word holds, with the
      tag OR-ed into the last byte. */
  lemma UpperWord(text: seq<byte>)
    requires 8 < |text| < 16
    ensures Le(BitOr(Shr(Load(text, |text| - 8, 8), (16 - |text|) * 8), LengthTag(|text|, 8)), 8)
         == text[8..] + Zeros(15 - |text|) + [MASK + |text|]
  {
    hide Le, FromLe, BitOr, Shr, LengthTag;
    var len, k := |text|, 16 - |text|;
    var tail := text[len - 8..];
    assert text[len - 8..len] == tail && tail[k..] == text[8..];
    TagBytes(len, 8);
    ShiftedDown(tail, k);
    var tag: byte := MASK + len;
    var x, y, z := text[8..] + Zeros(k), Zeros(7) + [tag], text[8..] + Zeros(15 - len) + [tag];
    forall i | 0 <= i < 8 ensures BitOr(x[i], y[i]) == z[i] {
      OrZero(x[i]);
      OrZero(y[i]);
    }
    OrIs(Shr(FromLe(tail), 8 * k), LengthTag(len, 8), x, y, z);
  }

  /** The register version of `InlineBuffer::new` builds the text, zeros and the tag. */
  lemma RegistersAreInline(text: seq<byte>)
    requires |text| <= 16
    ensures var (w0, w1) := InRegisters(text); Le(w0, 8) + Le(w1, 8) == InlineOf(Bits64, text)
  {
    if |text| < 8 { LowerOnly(text); } else { BothWords(text); }
    hide *;
    if |text| < 16 { InlineIsTwoWords(text); } else { FullIsTwoWords(text); }
  }

  lemma LowerOnly(text: seq<byte>)
    requires |text| < 8
    ensures var (w0, w1) := InRegisters(text);
            Le(w0, 8) == text + Zeros(8 - |text|) && Le(w1, 8) == Zeros(7) + [MASK + |text|]
  {
    var len := |text|;
    TagBytes(len, 8);
    if len >= 4 {
      OverlappingLoads(text, 4, 8);
    } else if len >= 2 {
      OverlappingLoads(text, 2, 8);
    } else if len == 1 {
      LeExtends(text, 8);
      assert FromLe(text) == text[0];
    } else {
      LeZero(8);
    }
    hide Le, FromLe, BitOr, Shl, LengthTag;
  }

  lemma BothWords(text: seq<byte>)
    requires 8 <= |text| <= 16
    ensures var (w0, w1) := InRegisters(text);
            && Le(w0, 8) == text[..8]
            && Le(w1, 8) == if |text| == 16 then text[8..] else text[8..] + Zeros(15 - |text|) + [MASK + |text|]
  {
    hide Le, FromLe, BitOr, Shr, Shl, LengthTag;
    var len := |text|;
    FromLeRoundTrip(text[0..8]);
    if len == 16 {
      FromLeRoundTrip(text[8..16]);
      assert text[8..16] == text[8..];
    } else {
      TagBytes(len, 8);
      if len > 8 { UpperWord(text); } else { assert text[8..] + Zeros(7) == Zeros(7); }
    }
  }

  lemma InlineIsTwoWords(text: seq<byte>)
    requires |text| < 16
    ensures |text| <= 8 ==> InlineOf(Bits64, text) == text + Zeros(8 - |text|) + (Zeros(7) + [MASK + |text|])
    ensures |text| >= 8 ==> InlineOf(Bits64, text) == text[..8] + (text[8..] + Zeros(15 - |text|) + [MASK + |text|])
  {
  }

  lemma FullIsTwoWords(text: seq<byte>)
    requires |text| == 16
    ensures InlineOf(Bits64, text) == text[..8] + text[8..]
  {
  }

  // ----- InlineBuffer::new by short copies -----

  /** One constant-size copy into a zeroed buffer. */
  method CopyBytes(dst: array<byte>, src: seq<byte>, at: nat, n: nat)
    requires at + n <= |src| && at + n <= dst.Length
    modifies dst
    ensures dst[..] == Put(old(dst[..]), at, src[at..at + n])
  {
    for i := 0 to n
      invariant forall k | at <= k < at + i :: dst[k] == src[k]
      invariant forall k | 0 <= k < dst.Length && !(at <= k < at + i) :: dst[k] == old(dst[k])
    {
      dst[at + i] := src[at + i];
    }
    PutAt(old(dst[..]), at, src[at..at + n]);
  }

  /** `InlineBuffer::new` for the other targets: pairs of copies that meet or overlap. */
  method ByCopies(t: Target, text: seq<byte>) returns (buffer: array<byte>)
    requires |text| <= t.Inline()
    ensures fresh(buffer) && buffer[..] == InlineOf(t, text)
  {
    hide BitOr, Put, InlineOf;
    var len, max := |text|, t.Inline();
    buffer := new byte[max](_ => 0);
    TagIsSum(len);
    buffer[max - 1] := BitOr(len, MASK);
    assert buffer[..] == Zeros(max - 1) + [MASK + len];
    if len == max {
      CopyBytes(buffer, text, 0, max);
    } else if len >= max / 2 {
      BothEnds(buffer, text, max / 2);
    } else if len >= 4 {
      BothEnds(buffer, text, 4);
    } else if len >= 2 {
      BothEnds(buffer, text, 2);
    } else if len == 1 {
      CopyBytes(buffer, text, 0, 1);
    }
    Copied(t, text, buffer[..]);
  }

  method BothEnds(buffer: array<byte>, text: seq<byte>, n: nat)
    requires n <= |text| <= 2 * n && |text| <= buffer.Length
    modifies buffer
    ensures buffer[..] == Put(old(buffer[..]), 0, text)
  {
    hide Put;
    var len := |text|;
    CopyBytes(buffer, text, 0, n);
    CopyBytes(buffer, text, len - n, n);
    assert text[0..n] == text[..n] && text[len - n..len] == text[len - n..];
    TwoCopies(old(buffer[..]), 0, text, n);
  }

  lemma Copied(t: Target, text: seq<byte>, buffer: seq<byte>)
    requires |text| <= t.Inline()
    requires var start: seq<byte> := Zeros(t.Inline() - 1) + [MASK + |text|];
             || buffer == Put(start, 0, text)
             || (text == [] && buffer == start)
             || (|text| == t.Inline() && buffer == Put(start, 0, text[0..|text|]))
             || (|text| == 1 && buffer == Put(start, 0, text[0..1]))
    ensures buffer == InlineOf(t, text)
  {
  }

  /** `InlineBuffer::new`, as each target compiles it. */
  method NewInline(t: Target, text: seq<byte>) returns (buf: seq<byte>)
    requires |text| <= t.Inline()
    ensures buf == InlineOf(t, text)
  {
    hide InlineOf, InRegisters, Le;
    if t.Bits64? {
      var (w0, w1) := InRegisters(text);
      RegistersAreInline(text);
      buf := Le(w0, 8) + Le(w1, 8);
    } else {
      var buffer := ByCopies(t, text);
      buf := buffer[..];
    }
  }

  // ----- InlineBuffer::from_char -----

  /** The encoding of a character packed into a word, and its length. */
  function PackChar(code: Utf8.Scalar): (nat, nat) {
    if code < 0x80 then (code, 1)
    else if code < 0x800 then
      var b0, b1 := BitOr(0xC0, Shr(code, 6)), BitOr(0x80, BitAnd(code, 0x3F));
      (BitOr(b0, Shl(b1, 8, 32)), 2)
    else if code < 0x1_0000 then
      var b0 := BitOr(0xE0, Shr(code, 12));
      var b1, b2 := BitOr(0x80, BitAnd(Shr(code, 6), 0x3F)), BitOr(0x80, BitAnd(code, 0x3F));
      (BitOr(BitOr(b0, Shl(b1, 8, 32)), Shl(b2, 16, 32)), 3)
    else
      var b0, b1 := BitOr(0xF0, Shr(code, 18)), BitOr(0x80, BitAnd(Shr(code, 12), 0x3F));
      var b2, b3 := BitOr(0x80, BitAnd(Shr(code, 6), 0x3F)), BitOr(0x80, BitAnd(code, 0x3F));
      (BitOr(BitOr(BitOr(b0, Shl(b1, 8, 32)), Shl(b2, 16, 32)), Shl(b3, 24, 32)), 4)
  }

  /** `InlineBuffer::from_char`, in memory order. */
  function FromChar(t: Target, ch: Utf8.Scalar): seq<byte> {
    var (bytes, len) := PackChar(ch);
    Le(bytes, t.W()) + Le(LengthTag(len, t.W()), t.W())
  }

  lemma TagByte(a: nat, b: nat, k: nat, p: nat)
    requires Pow(2, k) == p && b < p
    ensures BitOr(a * p, b) == a * p + b
  {
    hide BitOr;
    TagBits(a, b, k);
  }

  /** A lead byte: its marker bits are above the bits of the code point. */
  lemma LeadByte(b: nat)
    ensures b < 0x20 ==> BitOr(0xC0, b) == 0xC0 + b
    ensures b < 0x10 ==> BitOr(0xE0, b) == 0xE0 + b
    ensures b < 0x08 ==> BitOr(0xF0, b) == 0xF0 + b
  {
    hide BitOr;
    assert Pow(2, 3) == 8 && Pow(2, 4) == 16 && Pow(2, 5) == 32;
    hide *;
    if b < 0x20 { TagByte(6, b, 5, 32); }
    if b < 0x10 { TagByte(14, b, 4, 16); }
    if b < 0x08 { TagByte(30, b, 3, 8); }
  }

  /** A continuation byte. */
  lemma NextByte(b: nat)
    ensures BitOr(0x80, BitAnd(b, 0x3F)) == 0x80 + b % 0x40
  {
    assert Pow(2, 6) == 64;
    hide *;
    MaskBits(b, 6);
    TagByte(2, b % 0x40, 6, 64);
  }

  lemma Shifts(c: nat)
    ensures Shr(c, 6) == c / 0x40 && Shr(c, 12) == c / 0x1000 && Shr(c, 18) == c / 0x4_0000
  {
    assert Pow(2, 6) == 0x40 && Pow(2, 12) == 0x1000 && Pow(2, 18) == 0x4_0000;
  }

  lemma {:induction false} FromLeSnoc(s: seq<byte>, b: byte)
    ensures FromLe(s + [b]) == FromLe(s) + b * Pow(256, |s|)
  {
    if s == [] {
      assert s + [b] == [b] && [b][1..] == [];
    } else {
      FromLeSnoc(s[1..], b);
      assert (s + [b])[1..] == s[1..] + [b];
      assert b * Pow(256, |s|) == 256 * (b * Pow(256, |s| - 1));
    }
  }

  /** Placing one more byte above the bytes already packed. */
  lemma PackNext(s: seq<byte>, b: byte, p: nat)
    requires 0 < |s| < 4 && p == Pow(256, |s|) && b * p < 0x1_0000_0000
    ensures BitOr(FromLe(s), Shl(b, 8 * |s|, 32)) == FromLe(s + [b])
  {
    PowOfBytes(|s|);
    assert Pow(2, 32) == 0x1_0000_0000 by { PowOfBytes(4); assert Pow(256, 4) == 0x1_0000_0000; }
    assert Shl(b, 8 * |s|, 32) == b * p;
    hide *;
    FromLeSnoc(s, b);
    TagBits(b, FromLe(s), 8 * |s|);
  }

  lemma SmallPowers()
    ensures Pow(256, 1) == 0x100 && Pow(256, 2) == 0x1_0000 && Pow(256, 3) == 0x100_0000
  {
  }

  lemma OneByte(s: seq<byte>)
    requires |s| == 1
    ensures FromLe(s) == s[0]
  {
    assert s[1..] == [];
  }

  lemma PackFour(s: seq<byte>)
    requires 1 <= |s| <= 4
    ensures |s| == 1 ==> s[0] == FromLe(s)
    ensures |s| == 2 ==> BitOr(s[0], Shl(s[1], 8, 32)) == FromLe(s)
    ensures |s| == 3 ==> BitOr(BitOr(s[0], Shl(s[1], 8, 32)), Shl(s[2], 16, 32)) == FromLe(s)
    ensures |s| == 4 ==>
              BitOr(BitOr(BitOr(s[0], Shl(s[1], 8, 32)), Shl(s[2], 16, 32)), Shl(s[3], 24, 32)) == FromLe(s)
  {
    SmallPowers();
    hide *;
    OneByte(s[..1]);
    assert s[..|s|] == s;
    if |s| > 1 { PackNext(s[..1], s[1], 0x100); assert s[..1] + [s[1]] == s[..2]; }
    if |s| > 2 { PackNext(s[..2], s[2], 0x1_0000); assert s[..2] + [s[2]] == s[..3]; }
    if |s| > 3 { PackNext(s[..3], s[3], 0x100_0000); assert s[..3] + [s[3]] == s[..4]; }
  }

  /** `from_char` packs exactly the encoding of section 3 of RFC 3629. */
  lemma PackedIsEncoded(c: Utf8.Scalar)
    ensures PackChar(c) == (FromLe(Utf8.EncodeChar(c)), |Utf8.EncodeChar(c)|)
  {
    hide BitOr, BitAnd, Shr, Shl, FromLe;
    Shifts(c);
    PackFour(Utf8.EncodeChar(c));
    LeadByte(c / 0x40);
    LeadByte(c / 0x1000);
    LeadByte(c / 0x4_0000);
    NextByte(c);
    NextByte(c / 0x40);
    NextByte(c / 0x1000);
  }

  /** `from_char` makes the inline buffer of the encoded character, which decodes to the character. */
  lemma FromCharIsInline(t: Target, c: Utf8.Scalar)
    ensures FromChar(t, c) == InlineOf(t, Utf8.EncodeChar(c))
    ensures Utf8.Valid(Utf8.EncodeChar(c)) && Utf8.Decode(Utf8.EncodeChar(c)) == [c]
  {
    hide Utf8.EncodeChar, Utf8.Valid, Utf8.Decode, PackChar, Le, FromLe, LengthTag, InlineOf, Zeros;
    var e := Utf8.EncodeChar(c);
    PackedIsEncoded(c);
    LeExtends(e, t.W());
    TagBytes(|e|, t.W());
    Utf8.EncodedCharValid(c);
    ShortInline(t, e);
  }

  lemma ShortInline(t: Target, e: seq<byte>)
    requires |e| <= t.W() && |e| < 16
    ensures e + Zeros(t.W() - |e|) + (Zeros(t.W() - 1) + [MASK + |e|]) == InlineOf(t, e)
  {
  }

  // ----- the second word -----

  /** A word that is zero but for the marker in its last byte: `TextLen::TAG`, `StaticBuffer::TAG`. */
  function TagWord(t: Target, marker: byte): nat { FromLe(Zeros(t.W() - 1) + [marker]) }

  /** `TextLen::ON_THE_HEAP`. */
  function OnTheHeap(t: Target): nat { FromLe(seq(t.W() - 1, _ => 255) + [HEAP_MARKER]) }

  /** `TextLen::new`. */
  function TextLenWord(t: Target, size: nat): Option<nat> {
    if size > MaxLen(t) then (if t.Bits64? then None else Some(OnTheHeap(t)))
    else Some(BitOr(size, TagWord(t, HEAP_MARKER)))
  }

  /** `TextLen::is_heap`. */
  predicate IsOnHeap(t: Target, word: nat) { t.Bits32? && word == OnTheHeap(t) }

  /** `TextLen::as_usize`. */
  function TextLenValue(t: Target, word: nat): nat { BitXor(word, TagWord(t, HEAP_MARKER)) }

  /** `StaticBuffer::new`, its second word. */
  function StaticWord(t: Target, len: nat): Option<nat> {
    if len > StaticMax(t) then None else Some(BitOr(len, TagWord(t, STATIC_MARKER)))
  }

  /** `StaticBuffer::len`. */
  function StaticLen(t: Target, word: nat): nat { BitXor(word, TagWord(t, STATIC_MARKER)) }

  lemma TopByte(t: Target)
    ensures Pow(2, 8 * (t.W() - 1)) == Pow(256, t.W() - 1) == if t.Bits32? then 0x100_0000 else 0x100_0000_0000_0000
  {
    PowOfBytes(t.W() - 1);
    assert Pow(256, 1) == 0x100 && Pow(256, 3) == 0x100_0000 && Pow(256, 5) == 0x100_0000_0000;
    assert Pow(256, 7) == 0x1_0000 * Pow(256, 5);
  }

  lemma TagWordIs(t: Target, marker: byte)
    ensures TagWord(t, marker) == marker * Pow(256, t.W() - 1)
  {
    FromLeSnoc(Zeros(t.W() - 1), marker);
    FromLeZeros(t.W() - 1);
  }

  lemma {:induction false} FromLeZeros(n: nat)
    ensures FromLe(Zeros(n)) == 0
  {
    if n > 0 {
      FromLeZeros(n - 1);
      assert Zeros(n)[1..] == Zeros(n - 1);
    }
  }

  /** A length below the last byte with a marker in it: the length comes back by XOR and by masking, and
      the marker is the last byte. */
  lemma TaggedLength(t: Target, n: nat, marker: byte)
    requires n < Pow(256, t.W() - 1)
    ensures var tag := TagWord(t, marker); var word := BitOr(n, tag);
            && word == tag + n && word < t.Radix() && BitXor(word, tag) == n
            && BitAnd(word, Shr(t.Radix() - 1, 8)) == n
            && Le(word, t.W())[t.W() - 1] == marker
  {
    var k, p := 8 * (t.W() - 1), Pow(256, t.W() - 1);
    TopByte(t);
    TagWordIs(t, marker);
    assert Shr(t.Radix() - 1, 8) == p - 1 by { assert Pow(2, 8) == 256; }
    hide *;
    TaggedParts(marker, n, k, p, t.W());
  }

  lemma TaggedParts(marker: byte, n: nat, k: nat, p: nat, w: nat)
    requires w > 0 && Pow(2, k) == Pow(256, w - 1) == p && n < p
    ensures var word := marker * p + n;
            && BitOr(n, marker * p) == word && BitXor(word, marker * p) == n && BitAnd(word, p - 1) == n
            && Le(word, w)[w - 1] == marker && word < 256 * p
  {
    hide *;
    var word := marker * p + n;
    TagBits(marker, n, k);
    MaskBits(word, k);
    assert word == p * marker + n;
    RemainderIs(word, p, marker, n);
    LeSplit(word, w - 1, 1);
    LeOne(marker);
    assert marker * p <= 255 * p;
  }

  /** Every length survives the trip through the second word, and the one 32-bit value that means
      "look in the allocation" is no length. */
  lemma TextLenRoundTrip(t: Target, n: nat)
    requires n < t.Radix()
    ensures TextLenWord(t, n).Some? <==> NewTextLen(t, n).Some?
    ensures TextLenWord(t, n).Some? ==>
              var word := TextLenWord(t, n).value;
              && word < t.Radix() && Le(word, t.W())[t.W() - 1] == HEAP_MARKER
              && (IsOnHeap(t, word) <==> NewTextLen(t, n).value.OnHeap?)
              && (!IsOnHeap(t, word) ==> TextLenValue(t, word) == n && BitAnd(word, Shr(t.Radix() - 1, 8)) == n)
  {
    TopByte(t);
    hide BitOr, BitXor, BitAnd, Shr, TagWord, Le, Pow, OnTheHeap;
    if t.Bits32? { OnTheHeapIs(t); }
    if n <= MaxLen(t) { TaggedLength(t, n, HEAP_MARKER); }
  }

  lemma OnTheHeapIs(t: Target)
    requires t.Bits32?
    ensures OnTheHeap(t) == TagWord(t, HEAP_MARKER) + 0xFF_FFFF < t.Radix()
    ensures Le(OnTheHeap(t), t.W())[t.W() - 1] == HEAP_MARKER
  {
    var ones: seq<byte> := seq(3, _ => 255);
    assert FromLe(ones) == 0xFF_FFFF by {
      assert ones == [255, 255, 255];
      assert ones[1..] == [255, 255] && [255, 255][1..] == [255] && [255][1..] == [];
    }
    FromLeSnoc(ones, HEAP_MARKER);
    FromLeRoundTrip(ones + [HEAP_MARKER]);
    TagWordIs(t, HEAP_MARKER);
    TopByte(t);
  }

  lemma StaticRoundTrip(t: Target, n: nat)
    requires n <= StaticMax(t)
    ensures var word := StaticWord(t, n).value;
            && word < t.Radix() && Le(word, t.W())[t.W() - 1] == STATIC_MARKER
            && StaticLen(t, word) == n && BitAnd(word, Shr(t.Radix() - 1, 8)) == n
  {
    TopByte(t);
    TaggedLength(t, n, STATIC_MARKER);
  }

  // ----- both words -----

  /** What a `Repr` can be seen to be from its own two words. */
  datatype Words = InlineWords(buf: seq<byte>) | StaticWords(ptr: nat, len: nat) | HeapWords(ptr: nat, tl: TextLen)

  predicate Storable(t: Target, w: Words) {
    match w
    case InlineWords(buf) => |buf| == t.Inline() && buf[t.Inline() - 1] < HEAP_MARKER
    case StaticWords(ptr, len) => ptr < t.Radix() && len <= StaticMax(t)
    case HeapWords(ptr, tl) => ptr < t.Radix() && (if tl.OnHeap? then t.Bits32? else tl.n <= MaxLen(t))
  }

  /** The bytes in memory. */
  function Raw(t: Target, w: Words): (raw: seq<byte>)
    requires Storable(t, w)
    ensures |raw| == t.Inline()
  {
    match w
    case InlineWords(buf) => buf
    case StaticWords(ptr, len) => Le(ptr, t.W()) + Le(StaticWord(t, len).value, t.W())
    case HeapWords(ptr, tl) =>
      Le(ptr, t.W()) + Le(if tl.OnHeap? then OnTheHeap(t) else BitOr(tl.n, TagWord(t, HEAP_MARKER)), t.W())
  }

  /** `is_heap_buffer`, `is_static_buffer`, and the casts that follow them. */
  function Decoded(t: Target, raw: seq<byte>): Words
    requires |raw| == t.Inline()
  {
    var last := raw[t.Inline() - 1];
    var ptr, tail := FromLe(raw[..t.W()]), FromLe(raw[t.W()..]);
    if last == HEAP_MARKER then HeapWords(ptr, if IsOnHeap(t, tail) then OnHeap else InHandle(TextLenValue(t, tail)))
    else if last == STATIC_MARKER then StaticWords(ptr, StaticLen(t, tail))
    else InlineWords(raw)
  }

  /** `Repr::len`: on 64-bit targets a selection between the inline length and the masked second word; on
      32-bit targets a branch, where `slot` is the word in front of the header. */
  function RawLen(t: Target, raw: seq<byte>, slot: nat): nat
    requires |raw| == t.Inline()
  {
    var last := raw[t.Inline() - 1];
    var tail := FromLe(raw[t.W()..]);
    if t.Bits64? then
      if last < HEAP_MARKER then InlineLen(t, raw) else BitAnd(tail, Shr(t.Radix() - 1, 8))
    else
      if last == HEAP_MARKER then (if IsOnHeap(t, tail) then slot else TextLenValue(t, tail))
      else if last == STATIC_MARKER then StaticLen(t, tail)
      else InlineLen(t, raw)
  }

  /** The two words decode to the form they were made from. */
  lemma WordsRoundTrip(t: Target, w: Words)
    requires Storable(t, w)
    ensures Decoded(t, Raw(t, w)) == w
    ensures w.InlineWords? <==> Raw(t, w)[t.Inline() - 1] < HEAP_MARKER
    ensures forall slot: nat :: RawLen(t, Raw(t, w), slot) ==
              match w
              case InlineWords(buf) => InlineLen(t, buf)
              case StaticWords(_, len) => len
              case HeapWords(_, tl) => if tl.OnHeap? then slot else tl.n
  {
    hide BitOr, BitXor, BitAnd, Shr, TagWord, OnTheHeap, Le, FromLe, InlineLen;
    match w
    case InlineWords(buf) =>
    case StaticWords(ptr, len) =>
      StaticRoundTrip(t, len);
      TwoWordsRead(t, ptr, StaticWord(t, len).value);
    case HeapWords(ptr, InHandle(n)) =>
      TextLenRoundTrip(t, n);
      TwoWordsRead(t, ptr, TextLenWord(t, n).value);
    case HeapWords(ptr, OnHeap) =>
      OnTheHeapIs(t);
      TwoWordsRead(t, ptr, OnTheHeap(t));
  }

  lemma TwoWordsRead(t: Target, w0: nat, w1: nat)
    requires w0 < t.Radix() && w1 < t.Radix()
    ensures var raw := Le(w0, t.W()) + Le(w1, t.W());
            && FromLe(raw[..t.W()]) == w0 && FromLe(raw[t.W()..]) == w1
            && raw[t.Inline() - 1] == Le(w1, t.W())[t.W() - 1]
  {
    hide Le, FromLe;
    WordRoundTrip(t, w0);
    WordRoundTrip(t, w1);
    var raw := Le(w0, t.W()) + Le(w1, t.W());
    assert raw[..t.W()] == Le(w0, t.W()) && raw[t.W()..] == Le(w1, t.W());
  }

  /** The words of a handle whose data or static text is at address `ptr`. */
  function WordsOf(f: Form, ptr: nat): Words {
    match f
    case Inline(buf) => InlineWords(buf)
    case Static(_, len) => StaticWords(ptr, len)
    case Heap(_, _, tl) => HeapWords(ptr, tl)
  }

  /** In every reachable state the two words of a handle say which form it has and, with the length slot,
      how long its text is: a full inline text ends in a byte below the markers. */
  lemma HandleDecodes(t: Target, blocks: Blocks, r: Repr, ptr: nat)
    requires ContentOk(t, blocks, r) && ptr < t.Radix()
    ensures Shape(t, blocks, r) && Storable(t, WordsOf(r.form, ptr))
    ensures var raw := Raw(t, WordsOf(r.form, ptr));
            && Decoded(t, raw) == WordsOf(r.form, ptr)
            && (raw[t.Inline() - 1] >= HEAP_MARKER <==> !r.form.Inline?)
            && RawLen(t, raw, SlotOf(t, blocks, r)) == Len(t, blocks, r) == |Text(t, blocks, r)|
  {
    hide Utf8.Valid, BitOr, BitXor, BitAnd, Shr, TagWord, OnTheHeap, Le, FromLe, InlineLen, LayoutFor, Raw, Decoded,
        RawLen;
    if r.form.Heap? { LenFits(t, blocks, r); }
    WordsRoundTrip(t, WordsOf(r.form, ptr));
  }

  /** The word in front of the header, for handles that look there. */
  function SlotOf(t: Target, blocks: Blocks, r: Repr): nat
    requires Shape(t, blocks, r)
  {
    if r.form.Heap? && r.form.tl.OnHeap? then LenOf(t, r.kind, blocks[r.form.base], r.form.off, r.form.tl) else 0
  }
}
