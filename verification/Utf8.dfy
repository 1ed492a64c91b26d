/** UTF-8 as RFC 3629 defines it: encoding (section 3), well-formed byte sequences (section 4), and
    character boundaries as `str::is_char_boundary` computes them. */
module Utf8 {
  import opened Bytes

  /** A Unicode scalar value, Rust's `char`. */
  type Scalar = c: int | 0 <= c < 0xD800 || 0xE000 <= c < 0x11_0000

  function EncodeChar(c: Scalar): (s: seq<byte>)
    ensures 1 <= |s| <= 4
  {
    if c < 0x80 then [c]
    else if c < 0x800 then [0xC0 + c / 0x40, 0x80 + c % 0x40]
    else if c < 0x1_0000 then [0xE0 + c / 0x1000, 0x80 + c / 0x40 % 0x40, 0x80 + c % 0x40]
    else [0xF0 + c / 0x4_0000, 0x80 + c / 0x1000 % 0x40, 0x80 + c / 0x40 % 0x40, 0x80 + c % 0x40]
  }

  function Encode(cs: seq<Scalar>): seq<byte> {
    if cs == [] then [] else EncodeChar(cs[0]) + Encode(cs[1..])
  }

  predicate Continuation(b: byte) { 0x80 <= b < 0xC0 }

  /** Length of the well-formed character at the front of `s`, or 0 if there is none. */
  function CharLen(s: seq<byte>): (n: nat)
    ensures n <= |s| && n <= 4
    ensures forall k | 1 <= k < n :: Continuation(s[k])
    ensures n > 0 ==> !Continuation(s[0])
    ensures n == 1 ==> s[0] < 0x80
  {
    if |s| >= 1 && s[0] < 0x80 then 1
    else if |s| >= 2 && 0xC2 <= s[0] < 0xE0 && Continuation(s[1]) then 2
    else if |s| >= 3 && 0xE0 <= s[0] < 0xF0 && Continuation(s[1]) && Continuation(s[2])
            && (s[0] == 0xE0 ==> s[1] >= 0xA0) && (s[0] == 0xED ==> s[1] < 0xA0) then 3
    else if |s| >= 4 && 0xF0 <= s[0] < 0xF5 && Continuation(s[1]) && Continuation(s[2]) && Continuation(s[3])
            && (s[0] == 0xF0 ==> s[1] >= 0x90) && (s[0] == 0xF4 ==> s[1] < 0x90) then 4
    else 0
  }

  predicate Valid(s: seq<byte>)
    decreases |s|
  {
    s == [] || (CharLen(s) > 0 && Valid(s[CharLen(s)..]))
  }

  function DecodeChar(s: seq<byte>): Scalar
    requires CharLen(s) > 0
  {
    var n := CharLen(s);
    var b0: int := s[0];
    if n == 1 then b0
    else
      var b1: int := s[1];
      if n == 2 then (b0 - 0xC0) * 0x40 + (b1 - 0x80)
      else
        var b2: int := s[2];
        if n == 3 then (b0 - 0xE0) * 0x1000 + (b1 - 0x80) * 0x40 + (b2 - 0x80)
        else
          var b3: int := s[3];
          (b0 - 0xF0) * 0x4_0000 + (b1 - 0x80) * 0x1000 + (b2 - 0x80) * 0x40 + (b3 - 0x80)
  }

  function Decode(s: seq<byte>): (cs: seq<Scalar>)
    requires Valid(s)
    decreases |s|
  {
    if s == [] then [] else [DecodeChar(s)] + Decode(s[CharLen(s)..])
  }

  /** `str::is_char_boundary`. */
  predicate IsBoundary(s: seq<byte>, i: nat) {
    i == 0 || i == |s| || (i < |s| && !Continuation(s[i]))
  }

  // ----- one character -----

  /** The base-64 digits the encoder spreads over its bytes. */
  lemma Sextets(c: nat)
    ensures c / 0x1000 == c / 0x40 / 0x40 && c / 0x4_0000 == c / 0x1000 / 0x40
    ensures c == c / 0x40 * 0x40 + c % 0x40
    ensures c / 0x40 == c / 0x1000 * 0x40 + c / 0x40 % 0x40
    ensures c / 0x1000 == c / 0x4_0000 * 0x40 + c / 0x1000 % 0x40
  {
  }

  lemma DecodeEncodedChar(c: Scalar, rest: seq<byte>)
    ensures CharLen(EncodeChar(c) + rest) == |EncodeChar(c)|
    ensures DecodeChar(EncodeChar(c) + rest) == c
  {
    Sextets(c);
    var e := EncodeChar(c);
    var s := e + rest;
    assert s[0] == e[0];
    if |e| > 1 { assert s[1] == e[1]; }
    if |e| > 2 { assert s[2] == e[2]; }
    if |e| > 3 { assert s[3] == e[3]; }
    assert CharLen(s) == |e|;
  }

  lemma Digits64(a: nat, b: nat, c: nat, d: nat)
    requires b < 0x40 && c < 0x40 && d < 0x40
    ensures var n := a * 0x4_0000 + b * 0x1000 + c * 0x40 + d;
            && n % 0x40 == d && n / 0x40 % 0x40 == c && n / 0x1000 % 0x40 == b && n / 0x4_0000 == a
            && n / 0x1000 == a * 0x40 + b && n / 0x40 == a * 0x1000 + b * 0x40 + c
  {
  }

  lemma EncodeDecodedChar(s: seq<byte>)
    requires CharLen(s) > 0
    ensures EncodeChar(DecodeChar(s)) == s[..CharLen(s)]
  {
    var b0: int := s[0];
    var b1: int := if CharLen(s) > 1 then s[1] else 0;
    var b2: int := if CharLen(s) > 2 then s[2] else 0;
    match CharLen(s) {
      case 1 =>
      case 2 => Digits64(0, 0, b0 - 0xC0, b1 - 0x80);
      case 3 => Digits64(0, b0 - 0xE0, b1 - 0x80, b2 - 0x80);
      case _ => Digits64(b0 - 0xF0, b1 - 0x80, b2 - 0x80, s[3] as int - 0x80);
    }
  }

  /** `a` comes before `b`, byte by byte. */
  predicate Precedes(a: seq<byte>, b: seq<byte>) {
    exists i: nat :: i < |a| && i < |b| && a[..i] == b[..i] && a[i] < b[i]
  }

  /** The order of encodings is the order of characters. */
  lemma EncodeCharOrder(c: Scalar, d: Scalar)
    requires c < d
    ensures Precedes(EncodeChar(c), EncodeChar(d))
  {
    var a, b := EncodeChar(c), EncodeChar(d);
    FirstByteOrder(c, d);
    if a[0] == b[0] { LaterByteOrder(c, d); } else { assert a[..0] == b[..0]; }
  }

  lemma FirstByteOrder(c: Scalar, d: Scalar)
    requires c < d
    ensures EncodeChar(c)[0] <= EncodeChar(d)[0]
    ensures EncodeChar(c)[0] == EncodeChar(d)[0] ==> |EncodeChar(c)| == |EncodeChar(d)| > 1
  {
  }

  lemma LaterByteOrder(c: Scalar, d: Scalar)
    requires c < d && EncodeChar(c)[0] == EncodeChar(d)[0] && |EncodeChar(c)| == |EncodeChar(d)| > 1
    ensures Precedes(EncodeChar(c), EncodeChar(d))
  {
    var a, b := EncodeChar(c), EncodeChar(d);
    Sextets(c);
    Sextets(d);
    var i: nat := if a[1] < b[1] then 1 else if a[2] < b[2] then 2 else 3;
    assert i < |a| && a[i] < b[i] && a[..i] == b[..i];
  }

  // ----- whole texts -----

  lemma {:induction false} DecodeEncode(cs: seq<Scalar>)
    ensures Valid(Encode(cs)) && Decode(Encode(cs)) == cs
  {
    hide CharLen, DecodeChar, EncodeChar;
    if cs != [] {
      var s := Encode(cs);
      DecodeEncode(cs[1..]);
      DecodeEncodedChar(cs[0], Encode(cs[1..]));
      assert s[CharLen(s)..] == Encode(cs[1..]);
    }
  }

  lemma {:induction false} EncodeDecode(s: seq<byte>)
    requires Valid(s)
    ensures Encode(Decode(s)) == s
    decreases |s|
  {
    hide CharLen, DecodeChar, EncodeChar;
    if s != [] {
      var rest := s[CharLen(s)..];
      EncodeDecode(rest);
      EncodeDecodedChar(s);
      assert Decode(s)[1..] == Decode(rest);
      assert s == s[..CharLen(s)] + rest;
    }
  }

  /** Section 4's byte patterns describe exactly the output of section 3's encoder. */
  lemma ValidIffEncoded(s: seq<byte>)
    ensures Valid(s) <==> exists cs: seq<Scalar> :: Encode(cs) == s
  {
    if Valid(s) {
      EncodeDecode(s);
    }
    forall cs: seq<Scalar> | Encode(cs) == s
      ensures Valid(s)
    {
      DecodeEncode(cs);
    }
  }

  lemma EncodedCharValid(c: Scalar)
    ensures Valid(EncodeChar(c)) && Decode(EncodeChar(c)) == [c]
  {
    hide EncodeChar, CharLen, DecodeChar;
    DecodeEncodedChar(c, []);
    assert EncodeChar(c) + [] == EncodeChar(c);
    assert EncodeChar(c)[|EncodeChar(c)|..] == [];
  }

  lemma CharLenPrefix(s: seq<byte>, n: nat)
    requires CharLen(s) <= n <= |s|
    requires CharLen(s) > 0
    ensures CharLen(s[..n]) == CharLen(s)
    ensures DecodeChar(s[..n]) == DecodeChar(s)
  {
  }

  lemma CutCharInvalid(s: seq<byte>, i: nat)
    requires 0 < i < CharLen(s)
    ensures CharLen(s[..i]) == 0
  {
  }

  lemma {:induction false} EncodeConcat(a: seq<Scalar>, b: seq<Scalar>)
    ensures Encode(a + b) == Encode(a) + Encode(b)
  {
    hide EncodeChar;
    if a == [] {
      assert a + b == b;
    } else {
      EncodeConcat(a[1..], b);
      assert (a + b)[1..] == a[1..] + b;
    }
  }

  lemma ValidConcat(a: seq<byte>, b: seq<byte>)
    requires Valid(a) && Valid(b)
    ensures Valid(a + b) && Decode(a + b) == Decode(a) + Decode(b)
  {
    hide *;
    EncodeDecode(a);
    EncodeDecode(b);
    EncodeConcat(Decode(a), Decode(b));
    DecodeEncode(Decode(a) + Decode(b));
  }

  lemma {:induction false} BoundaryIffValid(s: seq<byte>, i: nat)
    requires Valid(s) && i <= |s|
    ensures IsBoundary(s, i) <==> Valid(s[..i])
    ensures IsBoundary(s, i) ==> Valid(s[i..])
    decreases |s|
  {
    hide CharLen;
    if 0 < i < |s| {
      var n := CharLen(s);
      if i < n {
        CutCharInvalid(s, i);
      } else {
        CharLenPrefix(s, i);
        BoundaryIffValid(s[n..], i - n);
        assert s[..i][n..] == s[n..][..i - n];
        assert s[n..][i - n..] == s[i..];
        assert i < |s| ==> s[n..][i - n] == s[i];
      }
    } else {
      assert s[..|s|] == s && s[0..] == s && s[..0] == [] && s[|s|..] == [];
    }
  }

  /** A valid text may be cut at `i` exactly when `is_char_boundary` says so, and the characters are
      then divided between the two halves. */
  lemma BoundarySplits(s: seq<byte>, i: nat)
    requires Valid(s) && i <= |s|
    ensures IsBoundary(s, i) <==> Valid(s[..i])
    ensures IsBoundary(s, i) ==> Valid(s[i..]) && Decode(s) == Decode(s[..i]) + Decode(s[i..])
  {
    hide CharLen, Decode;
    BoundaryIffValid(s, i);
    if IsBoundary(s, i) {
      ValidConcat(s[..i], s[i..]);
      assert s[..i] + s[i..] == s;
    }
  }

  /** The fact the untagged full inline form rests on. */
  lemma {:induction false} LastByteBelowC0(s: seq<byte>)
    requires Valid(s) && s != []
    ensures s[|s| - 1] < 0xC0
    decreases |s|
  {
    hide CharLen, DecodeChar, EncodeChar;
    var n := CharLen(s);
    if n < |s| {
      LastByteBelowC0(s[n..]);
    }
  }

  /** Where the last character of `s` starts, found by scanning back over continuation bytes. */
  function LastStart(s: seq<byte>): (i: nat)
    requires s != []
    ensures i < |s|
  {
    if |s| > 1 && Continuation(s[|s| - 1]) then LastStart(s[..|s| - 1]) else |s| - 1
  }

  lemma {:induction false} LastStartIsLast(s: seq<byte>, i: nat)
    requires i < |s| && !Continuation(s[i])
    requires forall k | i < k < |s| :: Continuation(s[k])
    ensures LastStart(s) == i
  {
    if i < |s| - 1 {
      LastStartIsLast(s[..|s| - 1], i);
    }
  }

  lemma FirstByte(c: Scalar)
    ensures !Continuation(EncodeChar(c)[0])
  {
  }

  lemma EncodedContinuations(c: Scalar, k: nat)
    requires 0 < k < |EncodeChar(c)|
    ensures Continuation(EncodeChar(c)[k])
  {
  }

  lemma LastStartOfEncoded(front: seq<byte>, c: Scalar)
    ensures LastStart(front + EncodeChar(c)) == |front|
  {
    hide EncodeChar, LastStart, Continuation;
    var s := front + EncodeChar(c);
    FirstByte(c);
    assert s[|front|] == EncodeChar(c)[0];
    forall k | |front| < k < |s|
      ensures Continuation(s[k])
    {
      assert s[k] == EncodeChar(c)[k - |front|];
      EncodedContinuations(c, k - |front|);
    }
    LastStartIsLast(s, |front|);
  }

  lemma EncodeSnoc(front: seq<Scalar>, c: Scalar)
    ensures Encode(front + [c]) == Encode(front) + EncodeChar(c)
  {
    hide EncodeChar;
    EncodeConcat(front, [c]);
    assert Encode([c]) == EncodeChar(c) + [];
  }

  lemma EncodeNil()
    ensures Encode([]) == []
  {
  }

  /** So texts are ordered as their characters are, at the first place where they differ. */
  lemma EncodeOrder(front: seq<Scalar>, c: Scalar, cs: seq<Scalar>, d: Scalar, ds: seq<Scalar>)
    requires c < d
    ensures Precedes(Encode(front + [c] + cs), Encode(front + [d] + ds))
  {
    hide EncodeChar;
    EncodeCharOrder(c, d);
    var a, b := EncodeChar(c), EncodeChar(d);
    var i: nat :| i < |a| && i < |b| && a[..i] == b[..i] && a[i] < b[i];
    EncodeAround(front, c, cs);
    EncodeAround(front, d, ds);
    hide Encode;
    var x, y, k := Encode(front + [c] + cs), Encode(front + [d] + ds), |Encode(front)|;
    assert x[k + i] == a[i] && y[k + i] == b[i];
    assert x[..k + i] == Encode(front) + a[..i] && y[..k + i] == Encode(front) + b[..i];
  }

  lemma EncodeAround(front: seq<Scalar>, c: Scalar, cs: seq<Scalar>)
    ensures Encode(front + [c] + cs) == Encode(front) + EncodeChar(c) + Encode(cs)
  {
    hide EncodeChar;
    EncodeConcat(front + [c], cs);
    EncodeSnoc(front, c);
  }

  /** The backward scan of `Chars::next_back` finds exactly the last character. */
  lemma LastCharSplits(s: seq<byte>)
    requires Valid(s) && s != []
    ensures var i := LastStart(s);
            && Valid(s[..i]) && CharLen(s[i..]) == |s| - i
            && Decode(s) == Decode(s[..i]) + [DecodeChar(s[i..])]
  {
    hide *;
    EncodeDecode(s);
    EncodeNil();
    var cs := Decode(s);
    LastOfEncoded(cs);
    assert cs == cs[..|cs| - 1] + [cs[|cs| - 1]];
  }

  lemma LastOfEncoded(cs: seq<Scalar>)
    requires cs != []
    ensures var s := Encode(cs);
            s != [] &&
            var i := LastStart(s);
            && Valid(s[..i]) && Decode(s[..i]) == cs[..|cs| - 1]
            && CharLen(s[i..]) == |s| - i && DecodeChar(s[i..]) == cs[|cs| - 1]
  {
    hide *;
    var front, c := cs[..|cs| - 1], cs[|cs| - 1];
    assert cs == front + [c];
    EncodeSnoc(front, c);
    DecodeEncode(front);
    DecodeEncodedChar(c, []);
    LastStartOfEncoded(Encode(front), c);
    var s, i := Encode(cs), |Encode(front)|;
    assert s[..i] == Encode(front);
    assert s[i..] == EncodeChar(c) + [];
  }
}
