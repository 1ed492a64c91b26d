/** What `retain` promises: the characters a predicate keeps, in order, with the predicate asked once
    about each character until it panics. */
module Filtering {
  import opened Bytes
  import opened Case
  import Utf8

  datatype Answer = Keep | Discard | Panic

  /** The answer to call number `k`, about a character; a stateful predicate is a function of both. */
  type Predicate = (nat, Utf8.Scalar) -> Answer

  /** Outcome of asking about characters in turn: those kept, whether one was discarded, whether the
      predicate panicked, and how often it was called. */
  datatype Filtered = Filtered(kept: seq<Utf8.Scalar>, discards: bool, panics: bool, calls: nat)

  function Filter(cs: seq<Utf8.Scalar>, p: Predicate, k: nat): (f: Filtered)
    ensures f.calls <= |cs| && |f.kept| <= f.calls
  {
    if cs == [] then Filtered([], false, false, 0)
    else
      match p(k, cs[0])
      case Panic => Filtered([], false, true, 1)
      case Keep =>
        var f := Filter(cs[1..], p, k + 1);
        Filtered([cs[0]] + f.kept, f.discards, f.panics, 1 + f.calls)
      case Discard =>
        var f := Filter(cs[1..], p, k + 1);
        Filtered(f.kept, true, f.panics, 1 + f.calls)
  }

  /** Without a panic, every character is asked about once; without a discarded one, everything asked
      about is kept. */
  lemma {:induction false} FilterCounts(cs: seq<Utf8.Scalar>, p: Predicate, k: nat)
    ensures var f := Filter(cs, p, k);
            && (!f.panics ==> f.calls == |cs|)
            && (f.panics ==> 1 <= f.calls <= |cs| && p(k + f.calls - 1, cs[f.calls - 1]).Panic?)
            && (!f.discards ==> f.kept == cs[..if f.panics then f.calls - 1 else f.calls])
            && (f.discards ==> |f.kept| < f.calls)
  {
    if cs != [] && !p(k, cs[0]).Panic? {
      FilterCounts(cs[1..], p, k + 1);
    }
  }

  function Select(cs: seq<Utf8.Scalar>, q: Utf8.Scalar -> bool): seq<Utf8.Scalar> {
    if cs == [] then [] else (if q(cs[0]) then [cs[0]] else []) + Select(cs[1..], q)
  }

  /** For a predicate without state or panics the result is the usual filter. */
  lemma {:induction false} FilterPure(cs: seq<Utf8.Scalar>, p: Predicate, q: Utf8.Scalar -> bool, k: nat)
    requires forall i, c :: p(i, c) == if q(c) then Keep else Discard
    ensures Filter(cs, p, k) == Filtered(Select(cs, q), exists c | c in cs :: !q(c), false, |cs|)
  {
    if cs != [] {
      FilterPure(cs[1..], p, q, k + 1);
      assert forall c :: c in cs <==> c == cs[0] || c in cs[1..];
    }
  }

  /** `front`, kept so far with `k` calls, is how `cs` starts; `rest` is still to be asked about. */
  predicate Resumes(cs: seq<Utf8.Scalar>, p: Predicate, front: seq<Utf8.Scalar>, discards: bool, k: nat,
      rest: seq<Utf8.Scalar>) {
    var f := Filter(rest, p, k);
    Filter(cs, p, 0) == Filtered(front + f.kept, discards || f.discards, f.panics, k + f.calls)
  }

  /** One more character asked about. */
  lemma ResumeStep(cs: seq<Utf8.Scalar>, p: Predicate, front: seq<Utf8.Scalar>, discards: bool, k: nat,
      rest: seq<Utf8.Scalar>, c: Utf8.Scalar, rest': seq<Utf8.Scalar>)
    requires Resumes(cs, p, front, discards, k, rest) && rest == [c] + rest'
    ensures p(k, c).Keep? ==> Resumes(cs, p, front + [c], discards, k + 1, rest')
    ensures p(k, c).Discard? ==> Resumes(cs, p, front, true, k + 1, rest')
    ensures p(k, c).Panic? ==> Filter(cs, p, 0) == Filtered(front, discards, true, k + 1)
  {
    assert rest[0] == c && rest[1..] == rest';
    var f := Filter(rest', p, k + 1);
    if p(k, c).Keep? { SeqAssoc(front, [c], f.kept); }
    assert front + [] == front;
  }

  lemma ResumeStart(cs: seq<Utf8.Scalar>, p: Predicate)
    ensures Resumes(cs, p, [], false, 0, cs)
  {
    assert [] + Filter(cs, p, 0).kept == Filter(cs, p, 0).kept;
  }

  lemma NothingAsked(text: seq<byte>, p: Predicate)
    requires Utf8.Valid(text)
    ensures Utf8.Valid(text[..0]) && Utf8.Valid(text[0..])
    ensures Resumes(Utf8.Decode(text), p, Utf8.Decode(text[..0]), false, 0, Utf8.Decode(text[0..]))
  {
    assert text[..0] == [] && text[0..] == text && Utf8.Decode([]) == [];
    hide Utf8.Valid, Utf8.Decode, Resumes;
    ResumeStart(Utf8.Decode(text), p);
  }

  lemma ResumeEnd(cs: seq<Utf8.Scalar>, p: Predicate, front: seq<Utf8.Scalar>, discards: bool, k: nat)
    requires Resumes(cs, p, front, discards, k, [])
    ensures Filter(cs, p, 0) == Filtered(front, discards, false, k)
  {
    assert front + [] == front;
  }

  /** The `find` of `retain`: where the first character that is not kept starts, how many calls came
      before, and the answer about it. */
  method FindRemoved(text: seq<byte>, p: Predicate) returns (at: nat, calls: nat, answer: Answer)
    requires Utf8.Valid(text)
    ensures at <= |text| && Utf8.Valid(text[..at]) && Utf8.Valid(text[at..])
    ensures Resumes(Utf8.Decode(text), p, Utf8.Decode(text[..at]), false, calls, Utf8.Decode(text[at..]))
    ensures answer.Keep? <==> at == |text|
    ensures at < |text| ==> Utf8.CharLen(text[at..]) > 0 && p(calls, Utf8.DecodeChar(text[at..])) == answer
  {
    at, calls, answer := 0, 0, Keep;
    hide Utf8.Valid, Utf8.Decode, Utf8.CharLen, Utf8.DecodeChar, Utf8.EncodeChar, Resumes, Filter;
    ghost var cs := Utf8.Decode(text);
    NothingAsked(text, p);
    while at < |text|
      invariant at <= |text| && Utf8.Valid(text[..at]) && Utf8.Valid(text[at..]) && answer.Keep?
      invariant Resumes(cs, p, Utf8.Decode(text[..at]), false, calls, Utf8.Decode(text[at..]))
    {
      Asked(text, p, cs, at, calls);
      answer := p(calls, Utf8.DecodeChar(text[at..]));
      if !answer.Keep? {
        return;
      }
      at, calls := at + Utf8.CharLen(text[at..]), calls + 1;
    }
  }

  lemma Asked(text: seq<byte>, p: Predicate, cs: seq<Utf8.Scalar>, at: nat, calls: nat)
    requires at < |text| && Utf8.Valid(text[..at]) && Utf8.Valid(text[at..])
    requires Resumes(cs, p, Utf8.Decode(text[..at]), false, calls, Utf8.Decode(text[at..]))
    ensures var n := Utf8.CharLen(text[at..]);
            && n > 0 && at + n <= |text|
            && (p(calls, Utf8.DecodeChar(text[at..])).Keep? ==>
                  && Utf8.Valid(text[..at + n]) && Utf8.Valid(text[at + n..])
                  && Resumes(cs, p, Utf8.Decode(text[..at + n]), false, calls + 1, Utf8.Decode(text[at + n..])))
  {
    hide Utf8.Valid, Utf8.Decode, Utf8.CharLen, Utf8.DecodeChar, Utf8.EncodeChar, Resumes;
    NextChar(text, at);
    var n, ch := Utf8.CharLen(text[at..]), Utf8.DecodeChar(text[at..]);
    ResumeStep(cs, p, Utf8.Decode(text[..at]), false, calls,
        Utf8.Decode(text[at..]), ch, Utf8.Decode(text[at + n..]));
  }

  // ----- the in-place loop -----

  /** The data area in the middle of `retain`: what is kept so far at the front, the part not looked at
      yet where it was, and the last byte of the area untouched. */
  predicate HalfFiltered(data0: seq<byte>, text: seq<byte>, data: seq<byte>, src: nat, dst: nat,
      kept: seq<Utf8.Scalar>) {
    && dst < src <= |text| <= |data| == |data0|
    && data[..dst] == Utf8.Encode(kept)
    && data[src..|text|] == text[src..]
    && data[|data| - 1] == data0[|data| - 1]
  }

  /** Keeping a character moves it down to the end of what is kept. */
  lemma KeepMoves(data0: seq<byte>, text: seq<byte>, data: seq<byte>, src: nat, dst: nat, kept: seq<Utf8.Scalar>,
      c: Utf8.Scalar)
    requires HalfFiltered(data0, text, data, src, dst, kept)
    requires src + |Utf8.EncodeChar(c)| <= |text| && text[src..src + |Utf8.EncodeChar(c)|] == Utf8.EncodeChar(c)
    ensures var n := |Utf8.EncodeChar(c)|;
            HalfFiltered(data0, text, Move(data, src, dst, n), src + n, dst + n, kept + [c])
  {
    hide Utf8.EncodeChar, Utf8.Encode;
    var n := |Utf8.EncodeChar(c)|;
    var moved := Move(data, src, dst, n);
    Utf8.EncodeSnoc(kept, c);
    assert data[src..src + n] == data[src..|text|][..n] && text[src..src + n] == text[src..][..n];
    assert moved[..dst + n] == data[..dst] + data[src..src + n];
    assert moved[src + n..|text|] == data[src..|text|][n..];
    assert text[src + n..] == text[src..][n..];
  }

  /** Discarding a character only passes over it. */
  lemma DiscardSkips(data0: seq<byte>, text: seq<byte>, data: seq<byte>, src: nat, dst: nat, kept: seq<Utf8.Scalar>,
      n: nat)
    requires HalfFiltered(data0, text, data, src, dst, kept) && src + n <= |text|
    ensures HalfFiltered(data0, text, data, src + n, dst, kept)
  {
    assert data[src + n..|text|] == data[src..|text|][n..];
    assert text[src + n..] == text[src..][n..];
  }

  /** The loop starts with everything in front of the first removed character kept in place. */
  lemma FirstRemoved(data: seq<byte>, text: seq<byte>, at: nat, n: nat)
    requires at + n <= |text| <= |data| && n > 0 && data[..|text|] == text && Utf8.Valid(text[..at])
    ensures HalfFiltered(data, text, data, at + n, at, Utf8.Decode(text[..at]))
  {
    hide Utf8.Valid, Utf8.Decode, Utf8.Encode;
    Utf8.EncodeDecode(text[..at]);
    assert data[..at] == data[..|text|][..at];
    assert data[at + n..|text|] == data[..|text|][at + n..];
  }

  /** Wherever the loop stops, even in a panic, the front is a valid text that does not fill the area. */
  lemma StoppedAnywhere(data0: seq<byte>, text: seq<byte>,
      data: seq<byte>, src: nat, dst: nat, kept: seq<Utf8.Scalar>)
    requires HalfFiltered(data0, text, data, src, dst, kept)
    ensures dst < |data| == |data0| && data[..dst] == Utf8.Encode(kept) && Utf8.Valid(data[..dst])
    ensures data[|data| - 1] == data0[|data0| - 1]
  {
    hide Utf8.Valid, Utf8.Encode;
    Utf8.DecodeEncode(kept);
  }
}
