/** `repeat` by doubling. */
module Repetition {
  import opened Bytes
  import Utf8

  /** `n` copies of `text`. */
  function Repeated(text: seq<byte>, n: nat): seq<byte> {
    if n == 0 then [] else text + Repeated(text, n - 1)
  }

  /** Every byte of a repetition, by position. */
  lemma {:induction false} RepeatedAt(text: seq<byte>, n: nat)
    ensures |Repeated(text, n)| == |text| * n
    ensures forall i | 0 <= i < |text| * n :: Repeated(text, n)[i] == text[i % |text|]
  {
    if n > 0 {
      RepeatedAt(text, n - 1);
      assert |text| * n == |text| + |text| * (n - 1);
      forall i | 0 <= i < |text| * n ensures Repeated(text, n)[i] == text[i % |text|] {
        OneMore(text, Repeated(text, n - 1), i);
      }
    }
  }

  lemma OneMore(text: seq<byte>, rest: seq<byte>, i: nat)
    requires i < |text| + |rest| && text != []
    requires forall j | 0 <= j < |rest| :: rest[j] == text[j % |text|]
    ensures (text + rest)[i] == text[i % |text|]
  {
    if i >= |text| {
      SamePlace(i - |text|, |text|);
    }
  }

  lemma SamePlace(i: nat, n: nat)
    requires n > 0
    ensures (i + n) % n == i % n
  {
    assert i + n == n * (i / n + 1) + i % n;
    RemainderIs(i + n, n, i / n + 1, i % n);
  }

  lemma {:induction false} RepeatedValid(text: seq<byte>, n: nat)
    requires Utf8.Valid(text)
    ensures Utf8.Valid(Repeated(text, n))
  {
    if n > 0 {
      hide Utf8.Valid;
      RepeatedValid(text, n - 1);
      Utf8.ValidConcat(text, Repeated(text, n - 1));
    }
  }

  /** The base-2 logarithm, rounded up. */
  function CeilLog2(n: nat): nat {
    if n <= 1 then 0 else 1 + CeilLog2((n + 1) / 2)
  }

  /** Doubling reaches `n` after exactly `CeilLog2(n)` rounds. */
  lemma {:induction false} CeilLog2Is(n: nat, k: nat)
    requires n >= 1 && Pow(2, k) >= n && (k > 0 ==> Pow(2, k - 1) < n)
    ensures CeilLog2(n) == k
  {
    if k > 0 {
      assert Pow(2, k - 1) >= 1 by { PowPositive(2, k - 1); }
      if k > 1 {
        assert Pow(2, k - 1) == 2 * Pow(2, k - 2);
      }
      CeilLog2Is((n + 1) / 2, k - 1);
    }
  }

  /** `s` is as much of the endless repetition of `text` as fits. */
  predicate Cyclic(s: seq<byte>, text: seq<byte>) {
    text != [] && forall k | 0 <= k < |s| :: s[k] == text[k % |text|]
  }

  /** A whole number of repetitions may be continued with its own beginning. */
  lemma CyclicExtends(s: seq<byte>, text: seq<byte>, p: nat, count: nat)
    requires Cyclic(s, text) && |s| == |text| * p && count <= |s|
    ensures Cyclic(s + s[..count], text)
  {
    forall k | |s| <= k < |s| + count
      ensures (s + s[..count])[k] == text[k % |text|]
    {
      Periodic(k - |s|, |text|, p);
    }
  }

  /** `rest[..count].copy_from_slice(&src[..count])` after splitting `dst` at `filled`. */
  method CopyFront(dst: array<byte>, filled: nat, count: nat)
    requires count <= filled && filled + count <= dst.Length
    modifies dst
    ensures dst[..filled + count] == old(dst[..filled]) + old(dst[..count])
  {
    for i := 0 to count
      invariant forall k | 0 <= k < filled :: dst[k] == old(dst[k])
      invariant forall k | 0 <= k < i :: dst[filled + k] == old(dst[k])
    {
      dst[filled + i] := dst[i];
    }
  }

  /** What the closure of `repeat` writes into the `n * |text|` bytes of `dst`, and how many copies it
      needs after the first. */
  method Fill(dst: array<byte>, text: seq<byte>, n: nat) returns (rounds: nat)
    requires dst.Length == |text| * n
    modifies dst
    ensures dst[..] == Repeated(text, n)
    ensures text != [] && n >= 1 ==> rounds == CeilLog2(n)
    ensures text == [] || n == 0 ==> rounds == 0
  {
    hide *;
    var first := if |text| < dst.Length then |text| else dst.Length;
    for i := 0 to first
      invariant dst[..i] == text[..i]
    {
      dst[i] := text[i];
    }
    if text != [] && n > 0 {
      FirstRound(|text|, n);
      assert dst[..|text|] == text;
      rounds := Double(dst, text, n);
    } else {
      // `filled` starts at `|text|`, which is not below the length of 0.
      RepeatedAt(text, n);
      rounds := 0;
    }
  }

  /** The loop that doubles what is filled. */
  method Double(dst: array<byte>, text: seq<byte>, n: nat) returns (rounds: nat)
    requires dst.Length == |text| * n && text != [] && n > 0
    requires |text| <= dst.Length && dst[..|text|] == text
    modifies dst
    ensures dst[..] == Repeated(text, n)
    ensures rounds == CeilLog2(n)
  {
    hide *;
    var len: nat := dst.Length;
    FirstRound(|text|, n);
    FirstCopy(text, dst[..|text|]);
    rounds := 0;
    var filled: nat := |text|;
    while filled < len
      invariant filled <= len
      invariant Round(|text|, n, rounds, filled)
      invariant Cyclic(dst[..filled], text)
    {
      var count := if filled < len - filled then filled else len - filled;
      NextRound(|text|, n, rounds, filled, count);
      CyclicExtends(dst[..filled], text, Pow(2, rounds), count);
      assert dst[..filled][..count] == dst[..count];
      CopyFront(dst, filled, count);
      filled, rounds := filled + count, rounds + 1;
    }
    LastRound(|text|, n, rounds, filled);
    assert dst[..filled] == dst[..];
    CyclicIsRepeated(dst[..], text, n);
  }

  lemma FirstRound(size: nat, n: nat)
    requires size > 0 && n > 0
    ensures size <= size * n && Round(size, n, 0, size)
  {
    assert Pow(2, 0) == 1;
    assert size * n == size + size * (n - 1);
  }

  lemma FirstCopy(text: seq<byte>, s: seq<byte>)
    requires text != [] && s == text
    ensures Cyclic(s, text)
  {
  }

  lemma CyclicIsRepeated(s: seq<byte>, text: seq<byte>, n: nat)
    requires Cyclic(s, text) && |s| == |text| * n
    ensures s == Repeated(text, n)
  {
    RepeatedAt(text, n);
  }

  /** After `rounds` rounds, `2^rounds` copies are written unless that would be too many. */
  predicate Round(size: nat, n: nat, rounds: nat, filled: nat) {
    && size > 0 && n > 0 && size <= filled
    && filled == (if Pow(2, rounds) <= n then size * Pow(2, rounds) else size * n)
    && (rounds > 0 ==> Pow(2, rounds - 1) < n)
  }

  lemma NextRound(size: nat, n: nat, rounds: nat, filled: nat, count: nat)
    requires Round(size, n, rounds, filled) && filled < size * n
    requires count == if filled < size * n - filled then filled else size * n - filled
    ensures filled == size * Pow(2, rounds) && Round(size, n, rounds + 1, filled + count)
  {
    DoublesOn(size, n, Pow(2, rounds), filled, count);
  }

  lemma LastRound(size: nat, n: nat, rounds: nat, filled: nat)
    requires Round(size, n, rounds, filled) && filled >= size * n
    ensures rounds == CeilLog2(n)
  {
    Filled(size, n, Pow(2, rounds));
    CeilLog2Is(n, rounds);
  }

  /** One round of doubling. */
  lemma DoublesOn(size: nat, n: nat, p: nat, filled: nat, count: nat)
    requires filled < size * n && size <= filled && filled == (if p <= n then size * p else size * n)
    requires count == if filled < size * n - filled then filled else size * n - filled
    ensures p < n && size > 0 && filled == size * p
    ensures filled + count == if 2 * p <= n then size * (2 * p) else size * n
  {
    assert size * (2 * p) == 2 * (size * p);
    assert size * n == size * p + size * (n - p);
    assert size * n == size * (2 * p) + size * (n - 2 * p);
    if 2 * p <= n { assert size * (n - 2 * p) >= 0; } else { assert size * (n - 2 * p) <= 0; }
  }

  lemma Filled(size: nat, n: nat, p: nat)
    requires size > 0 && (if p <= n then size * p else size * n) >= size * n
    ensures p >= n
  {
    assert size * n == size * p + size * (n - p);
    Multiples(size, n - p);
  }

  lemma Periodic(i: nat, size: nat, q: nat)
    requires size > 0
    ensures (i + size * q) % size == i % size
    decreases q
  {
    if q > 0 {
      Periodic(i, size, q - 1);
      assert i + size * q == i + size * (q - 1) + size;
      SamePlace(i + size * (q - 1), size);
    }
  }
}
