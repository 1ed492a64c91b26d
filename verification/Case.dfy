/** The scans of `case.rs`: chunked search for the first byte or character a case conversion changes. */
module Case {
  import opened Bytes
  import Utf8

  datatype Case = Lower | Upper

  const CHUNK_SIZE := 16
  const SIGMA: Utf8.Scalar := 0x3A3

  /** Capital sigma as it is encoded. */
  lemma SigmaIs()
    ensures Utf8.EncodeChar(SIGMA) == [0xCE, 0xA3]
  {
  }

  predicate ByteChanges(b: byte, case_: Case) {
    if case_.Lower? then 0x41 <= b <= 0x5A else 0x61 <= b <= 0x7A
  }

  /** `to_ascii_lowercase` or `to_ascii_uppercase`. */
  function AsciiMap(b: byte, case_: Case): byte {
    if !ByteChanges(b, case_) then b else if case_.Lower? then b + 0x20 else b - 0x20
  }

  /** The letters of ASCII, position by position. */
  const UPPERCASE := "ABCDEFGHIJKLMNOPQRSTUVWXYZ"
  const LOWERCASE := "abcdefghijklmnopqrstuvwxyz"

  /** The letters of one case are mapped to the letters of the other, and nothing else changes. */
  lemma AsciiMapIs(b: byte, case_: Case)
    ensures var (from, to) := if case_.Lower? then (UPPERCASE, LOWERCASE) else (LOWERCASE, UPPERCASE);
            && |from| == |to| == 26
            && (forall k | 0 <= k < 26 && from[k] as int == b :: AsciiMap(b, case_) == to[k] as int)
            && ((forall k | 0 <= k < 26 :: from[k] as int != b) ==> AsciiMap(b, case_) == b)
  {
    forall k | 0 <= k < 26 ensures UPPERCASE[k] as int == 0x41 + k && LOWERCASE[k] as int == 0x61 + k {
      AlphabetAt(k);
    }
    if ByteChanges(b, case_) {
      AlphabetAt(if case_.Lower? then b - 0x41 else b - 0x61);
    }
  }

  lemma AlphabetAt(k: nat)
    requires k < 26
    ensures UPPERCASE[k] as int == 0x41 + k && LOWERCASE[k] as int == 0x61 + k
  {
  }

  /** Only the last mapping counts, and each undoes what the other did to a letter. */
  lemma AsciiMapTwice(b: byte, first: Case, second: Case)
    ensures AsciiMap(AsciiMap(b, first), second) == AsciiMap(b, second)
    ensures first != second && ByteChanges(b, first) ==> AsciiMap(AsciiMap(b, first), second) == b
  {
  }

  function AsciiMapAll(s: seq<byte>, case_: Case): (r: seq<byte>)
    ensures |r| == |s|
  {
    seq(|s|, i requires 0 <= i < |s| => AsciiMap(s[i], case_))
  }

  /** Length of the longest prefix of `s` whose bytes all satisfy `pred`. */
  function LongestPrefix(s: seq<byte>, pred: byte -> bool): (n: nat)
    ensures n <= |s|
    ensures forall i | 0 <= i < n :: pred(s[i])
    ensures n < |s| ==> !pred(s[n])
  {
    if s != [] && pred(s[0]) then 1 + LongestPrefix(s[1..], pred) else 0
  }

  /** The longest prefix is the only one that ends where `pred` first fails. */
  lemma {:induction false} LongestPrefixIs(s: seq<byte>, pred: byte -> bool, n: nat)
    requires n <= |s| && (forall i | 0 <= i < n :: pred(s[i])) && (n < |s| ==> !pred(s[n]))
    ensures LongestPrefix(s, pred) == n
  {
    if n > 0 {
      LongestPrefixIs(s[1..], pred, n - 1);
    }
  }

  /** `iter().take_while(pred).count()`. */
  method CountWhile(s: seq<byte>, pred: byte -> bool) returns (n: nat)
    ensures n == LongestPrefix(s, pred)
  {
    n := 0;
    while n < |s| && pred(s[n])
      invariant n <= |s| && forall i | 0 <= i < n :: pred(s[i])
    {
      n := n + 1;
    }
    LongestPrefixIs(s, pred, n);
  }

  /** `all_bytes`: adds up ones in a `u8` and compares with the chunk size. */
  method AllBytes(chunk: seq<byte>, pred: byte -> bool) returns (all: bool)
    requires |chunk| == CHUNK_SIZE
    ensures all <==> forall i | 0 <= i < CHUNK_SIZE :: pred(chunk[i])
  {
    var sum: byte := 0;
    var i := 0;
    while i < CHUNK_SIZE
      invariant 0 <= sum <= i <= CHUNK_SIZE
      invariant sum == i <==> forall k | 0 <= k < i :: pred(chunk[k])
    {
      sum := (sum + (if pred(chunk[i]) then 1 else 0)) % 256;
      i := i + 1;
    }
    return sum == CHUNK_SIZE;
  }

  /** `prefix_len_while`: whole chunks first, then byte by byte. */
  method PrefixLenWhile(s: seq<byte>, pred: byte -> bool) returns (len: nat)
    ensures len == LongestPrefix(s, pred)
  {
    len := 0;
    while len + CHUNK_SIZE <= |s|
      invariant len <= |s|
      invariant forall i | 0 <= i < len :: pred(s[i])
    {
      var chunk := s[len..len + CHUNK_SIZE];
      var all := AllBytes(chunk, pred);
      if !all {
        var n := CountWhile(chunk, pred);
        assert n < CHUNK_SIZE;
        assert forall i | len <= i < len + n :: pred(s[i]) by {
          forall i | len <= i < len + n ensures pred(s[i]) { assert s[i] == chunk[i - len]; }
        }
        LongestPrefixIs(s, pred, len + n);
        return len + n;
      }
      forall i | len <= i < len + CHUNK_SIZE ensures pred(s[i]) { assert s[i] == chunk[i - len]; }
      len := len + CHUNK_SIZE;
    }
    var rest := s[len..];
    var n := CountWhile(rest, pred);
    forall i | len <= i < len + n ensures pred(s[i]) { assert s[i] == rest[i - len]; }
    LongestPrefixIs(s, pred, len + n);
    len := len + n;
  }

  /** Bytes that are all ASCII are cut anywhere on a character boundary. */
  lemma AsciiCut(text: seq<byte>, n: nat)
    requires Utf8.Valid(text) && n <= |text| && forall i | 0 <= i < n :: text[i] < 0x80
    ensures Utf8.IsBoundary(text, n) && Utf8.Valid(text[..n]) && Utf8.Valid(text[n..])
    ensures Utf8.Decode(text[..n]) == text[..n]
    ensures Utf8.Decode(text) == text[..n] + Utf8.Decode(text[n..])
  {
    hide Utf8.Valid, Utf8.Decode;
    AsciiText(text[..n]);
    if 0 < n < |text| && Utf8.Continuation(text[n]) {
      NoLeadingContinuation(text, n);
    }
    Utf8.BoundarySplits(text, n);
  }

  lemma {:induction false} AsciiText(s: seq<byte>)
    requires forall i | 0 <= i < |s| :: s[i] < 0x80
    ensures Utf8.Valid(s) && Utf8.Decode(s) == s
  {
    if s != [] {
      AsciiText(s[1..]);
      assert Utf8.CharLen(s) == 1;
    }
  }

  /** A continuation byte never follows an ASCII prefix of a valid text. */
  lemma {:induction false} NoLeadingContinuation(text: seq<byte>, n: nat)
    requires Utf8.Valid(text) && n < |text| && (forall i | 0 <= i < n :: text[i] < 0x80) && Utf8.Continuation(text[n])
    ensures false
  {
    if n > 0 {
      assert Utf8.CharLen(text) == 1;
      NoLeadingContinuation(text[1..], n - 1);
    }
  }

  /** `split_at_first_ascii_change`: the index of the first byte that changes. */
  method SplitAtFirstAsciiChange(text: seq<byte>, case_: Case) returns (mid: Option<nat>)
    requires Utf8.Valid(text)
    ensures mid.None? <==> AsciiMapAll(text, case_) == text
    ensures mid.Some? ==>
              && mid.value < |text| && ByteChanges(text[mid.value], case_) && Utf8.IsBoundary(text, mid.value)
              && AsciiMapAll(text[..mid.value], case_) == text[..mid.value]
  {
    hide Utf8.Valid;
    var n := PrefixLenWhile(text, (b: byte) => !ByteChanges(b, case_));
    if n == |text| {
      assert AsciiMapAll(text, case_) == text;
      return None;
    }
    assert AsciiMapAll(text, case_)[n] != text[n];
    assert AsciiMapAll(text[..n], case_) == text[..n];
    return Some(n);
  }

  /** `split_ascii_prefix`. */
  method SplitAsciiPrefix(text: seq<byte>) returns (mid: nat)
    requires Utf8.Valid(text)
    ensures mid <= |text| && (forall i | 0 <= i < mid :: text[i] < 0x80) && (mid < |text| ==> text[mid] >= 0x80)
    ensures Utf8.Valid(text[..mid]) && Utf8.Valid(text[mid..])
    ensures Utf8.Decode(text) == text[..mid] + Utf8.Decode(text[mid..])
  {
    hide Utf8.Valid, Utf8.Decode;
    mid := PrefixLenWhile(text, (b: byte) => b < 0x80);
    AsciiCut(text, mid);
  }

  // ----- character mappings -----

  /** What a case mapping does to ASCII characters; elsewhere it is arbitrary. */
  predicate AsciiFacts(map_: Utf8.Scalar -> seq<Utf8.Scalar>, case_: Case) {
    forall b: byte | b < 0x80 :: map_(b) == [AsciiMap(b, case_)]
  }

  /** `char_changes`. */
  predicate CharChanges(map_: Utf8.Scalar -> seq<Utf8.Scalar>, c: Utf8.Scalar) { map_(c) != [c] }

  /** Every character mapped on its own. */
  function MapChars(cs: seq<Utf8.Scalar>, map_: Utf8.Scalar -> seq<Utf8.Scalar>): seq<Utf8.Scalar> {
    if cs == [] then [] else map_(cs[0]) + MapChars(cs[1..], map_)
  }

  lemma SeqAssoc<T>(a: seq<T>, b: seq<T>, c: seq<T>)
    ensures (a + b) + c == a + (b + c)
  {
  }

  lemma {:induction false} MapCharsConcat(a: seq<Utf8.Scalar>, b: seq<Utf8.Scalar>,
      map_: Utf8.Scalar -> seq<Utf8.Scalar>)
    ensures MapChars(a + b, map_) == MapChars(a, map_) + MapChars(b, map_)
  {
    if a == [] {
      assert a + b == b;
    } else {
      MapCharsConcat(a[1..], b, map_);
      assert (a + b)[0] == a[0] && (a + b)[1..] == a[1..] + b;
      SeqAssoc(map_(a[0]), MapChars(a[1..], map_), MapChars(b, map_));
    }
  }

  lemma {:induction false} MapUnchanged(cs: seq<Utf8.Scalar>, map_: Utf8.Scalar -> seq<Utf8.Scalar>)
    requires forall i | 0 <= i < |cs| :: !CharChanges(map_, cs[i])
    ensures MapChars(cs, map_) == cs
  {
    if cs != [] {
      MapUnchanged(cs[1..], map_);
    }
  }

  /** Bytewise mapping of ASCII text is the character mapping. */
  lemma {:induction false} MapAscii(s: seq<byte>, map_: Utf8.Scalar -> seq<Utf8.Scalar>, case_: Case)
    requires AsciiFacts(map_, case_) && forall i | 0 <= i < |s| :: s[i] < 0x80
    ensures MapChars(s, map_) == AsciiMapAll(s, case_)
  {
    if s != [] {
      var c := s[0];
      MapAscii(s[1..], map_, case_);
      assert AsciiMapAll(s, case_) == [AsciiMap(c, case_)] + AsciiMapAll(s[1..], case_);
      assert map_(c) == [AsciiMap(c, case_)];
    }
  }

  lemma AsciiMapAscii(s: seq<byte>, case_: Case)
    requires forall i | 0 <= i < |s| :: s[i] < 0x80
    ensures Utf8.Valid(AsciiMapAll(s, case_)) && Utf8.Decode(AsciiMapAll(s, case_)) == AsciiMapAll(s, case_)
  {
    hide Utf8.Valid, Utf8.Decode;
    AsciiText(AsciiMapAll(s, case_));
  }

  /** `text` is cut at `at`, and no character in front of the cut changes. */
  ghost predicate Scanned(text: seq<byte>, map_: Utf8.Scalar -> seq<Utf8.Scalar>, at: nat) {
    && Utf8.Valid(text) && at <= |text| && Utf8.Valid(text[..at]) && Utf8.Valid(text[at..])
    && Utf8.Decode(text) == Utf8.Decode(text[..at]) + Utf8.Decode(text[at..])
    && forall c | c in Utf8.Decode(text[..at]) :: !CharChanges(map_, c)
  }

  /** `split_at_first_change`: where the first character that changes starts. */
  method SplitAtFirstChange(text: seq<byte>, case_: Case, map_: Utf8.Scalar -> seq<Utf8.Scalar>)
    returns (mid: Option<nat>)
    requires Utf8.Valid(text) && AsciiFacts(map_, case_)
    ensures mid.None? <==> forall c | c in Utf8.Decode(text) :: !CharChanges(map_, c)
    ensures mid.Some? ==> mid.value < |text| && FirstChange(text, map_, mid.value)
  {
    hide Utf8.Valid, Utf8.Decode, Utf8.CharLen, Utf8.DecodeChar, Scanned;
    var at := PrefixLenWhile(text, (b: byte) => b < 0x80 && !ByteChanges(b, case_));
    ScanStart(text, case_, map_, at);
    while at < |text|
      invariant at <= |text| && Scanned(text, map_, at)
    {
      ScanStep(text, map_, at);
      if CharChanges(map_, Utf8.DecodeChar(text[at..])) {
        return Some(at);
      }
      at := at + Utf8.CharLen(text[at..]);
    }
    ScanEnd(text, map_);
    return None;
  }

  lemma ScanStart(text: seq<byte>, case_: Case, map_: Utf8.Scalar -> seq<Utf8.Scalar>, at: nat)
    requires Utf8.Valid(text) && AsciiFacts(map_, case_) && at <= |text|
    requires forall i | 0 <= i < at :: text[i] < 0x80 && !ByteChanges(text[i], case_)
    ensures Scanned(text, map_, at)
  {
    hide Utf8.Valid, Utf8.Decode;
    AsciiCut(text, at);
    forall c | c in Utf8.Decode(text[..at]) ensures !CharChanges(map_, c) {
      var i :| 0 <= i < at && text[..at][i] == c;
      var b := text[i];
      assert map_(b) == [AsciiMap(b, case_)];
    }
  }

  lemma ScanStep(text: seq<byte>, map_: Utf8.Scalar -> seq<Utf8.Scalar>, at: nat)
    requires Scanned(text, map_, at) && at < |text|
    ensures var n := Utf8.CharLen(text[at..]);
            && n > 0 && at + n <= |text|
            && var c := Utf8.DecodeChar(text[at..]);
            && (!CharChanges(map_, c) ==> Scanned(text, map_, at + n))
            && (CharChanges(map_, c) ==> FirstChange(text, map_, at) && c in Utf8.Decode(text))
  {
    NextChar(text, at);
    hide *;
    if CharChanges(map_, Utf8.DecodeChar(text[at..])) {
      ScanStops(text, map_, at);
    } else {
      ScanGoesOn(text, map_, at);
    }
  }

  lemma ScanGoesOn(text: seq<byte>, map_: Utf8.Scalar -> seq<Utf8.Scalar>, at: nat)
    requires Scanned(text, map_, at) && at < |text|
    requires Utf8.CharLen(text[at..]) > 0 && !CharChanges(map_, Utf8.DecodeChar(text[at..]))
    ensures Scanned(text, map_, at + Utf8.CharLen(text[at..]))
  {
    hide Utf8.Valid, Utf8.Decode, Utf8.CharLen, Utf8.DecodeChar, CharChanges;
    NextChar(text, at);
    var front, c := Utf8.Decode(text[..at]), Utf8.DecodeChar(text[at..]);
    var rest := Utf8.Decode(text[at + Utf8.CharLen(text[at..])..]);
    SeqAssoc(front, [c], rest);
    forall d | d in front + [c] ensures !CharChanges(map_, d) {
    }
  }

  lemma ScanStops(text: seq<byte>, map_: Utf8.Scalar -> seq<Utf8.Scalar>, at: nat)
    requires Scanned(text, map_, at) && at < |text|
    requires Utf8.CharLen(text[at..]) > 0 && CharChanges(map_, Utf8.DecodeChar(text[at..]))
    ensures FirstChange(text, map_, at) && Utf8.DecodeChar(text[at..]) in Utf8.Decode(text)
  {
    var front, c := Utf8.Decode(text[..at]), Utf8.DecodeChar(text[at..]);
    NextChar(text, at);
    hide Utf8.Valid, Utf8.Decode, Utf8.CharLen, Utf8.DecodeChar, CharChanges;
    var rest := Utf8.Decode(text[at + Utf8.CharLen(text[at..])..]);
    SeqAssoc(front, [c], rest);
    InConcat(front + [c], rest, c);
  }

  lemma InConcat<T>(a: seq<T>, b: seq<T>, c: T)
    requires a != [] && a[|a| - 1] == c
    ensures c in a + b
  {
    assert (a + b)[|a| - 1] == c;
  }

  lemma ScanEnd(text: seq<byte>, map_: Utf8.Scalar -> seq<Utf8.Scalar>)
    requires Scanned(text, map_, |text|)
    ensures Utf8.Valid(text) && forall c | c in Utf8.Decode(text) :: !CharChanges(map_, c)
  {
    hide Utf8.Decode, Utf8.Valid, CharChanges;
    assert text[..|text|] == text;
  }

  /** `mid` is where the first changing character of `text` starts. */
  ghost predicate FirstChange(text: seq<byte>, map_: Utf8.Scalar -> seq<Utf8.Scalar>, mid: nat) {
    && Scanned(text, map_, mid) && mid < |text|
    && Utf8.CharLen(text[mid..]) > 0 && CharChanges(map_, Utf8.DecodeChar(text[mid..]))
  }

  /** Stepping over one character. */
  lemma NextChar(text: seq<byte>, at: nat)
    requires at < |text| && Utf8.Valid(text[..at]) && Utf8.Valid(text[at..])
    ensures var n := Utf8.CharLen(text[at..]); var c := Utf8.DecodeChar(text[at..]);
            && n > 0 && at + n <= |text|
            && Utf8.Valid(text[..at + n]) && Utf8.Valid(text[at + n..])
            && Utf8.Decode(text[..at + n]) == Utf8.Decode(text[..at]) + [c]
            && Utf8.Decode(text[at..]) == [c] + Utf8.Decode(text[at + n..])
            && Utf8.EncodeChar(c) == text[at..at + n]
  {
    hide Utf8.CharLen, Utf8.DecodeChar, Utf8.EncodeChar;
    var s := text[at..];
    var n, c := Utf8.CharLen(s), Utf8.DecodeChar(s);
    assert s[n..] == text[at + n..];
    Utf8.EncodeDecodedChar(s);
    Utf8.EncodedCharValid(c);
    assert s[..n] == text[at..at + n];
    hide Utf8.Valid, Utf8.Decode;
    Utf8.ValidConcat(text[..at], s[..n]);
    assert text[..at] + s[..n] == text[..at + n];
  }
}
