/** What growing by half again costs: over any run of pushes, the bytes of data that reallocation copies are
    at most six times the final length, and at most seven times with the headers that go with them. */
module Growth {
  import opened Bytes
  import opened Layout
  import opened HeapState
  import opened Texts
  import opened S = Store
  import Utf8

  /** The cost of a run so far: the bytes of data copied, the same with headers and length slots, and the
      lengths just after the last two reallocations. */
  datatype Cost = Cost(moved: nat, carried: nat, last: nat, before: nat)

  const FREE := Cost(0, 0, 0, 0)

  /** `n` more bytes on a modifiable text of `len` in a buffer of `cap`: the new cost and capacity. */
  function Pushed(t: Target, c: Cost, len: nat, cap: nat, n: nat): (Cost, nat) {
    if len + n <= cap then (c, cap)
    else
      var newCap := GrowCap(t, len, n);
      var data := DataTaken(t, len, cap, newCap);
      (Cost(c.moved + data, c.carried + data + HeaderTaken(t, cap, newCap), len + n, c.last), newCap)
  }

  /** Headers weigh most while buffers are short: what has to be in hand at a reallocation to `n` bytes. */
  function Saving(t: Target, n: nat): nat {
    if t.Bits64? then (if n <= 25 then 23 else if n <= 38 then 13 else if n <= 58 then 5 else 0)
    else (if n <= 13 then 7 else if n <= 21 then 3 else 0)
  }

  /** Reallocation lengths two apart rise by half, which bounds their sum. */
  predicate Amortised(t: Target, c: Cost, len: nat, cap: nat) {
    && c.before <= c.last <= len <= cap && t.Inline() <= cap
    && 3 * c.before <= 2 * cap + 1
    && c.moved <= 3 * (c.last + c.before)
    && (c.last == 0 || c.last > t.Inline()) && (c.before == 0 || c.before > t.Inline())
    && (if c.last == 0 then c.carried == 0
        else if c.before == 0 then c.carried <= c.last + 3 * t.W()
        else 2 * (c.carried + Saving(t, c.last) + Saving(t, c.before)) <= 7 * (c.last + c.before))
  }

  lemma PushAmortised(t: Target, c: Cost, len: nat, cap: nat, n: nat)
    requires Amortised(t, c, len, cap)
    ensures var (c', cap') := Pushed(t, c, len, cap, n);
            Amortised(t, c', len + n, cap') && cap' >= cap && (len + n > cap ==> cap' > cap)
  {
    hide GrowCap, DataTaken, HeaderTaken, Saving, Prefix;
    if len + n > cap {
      GrownEnough(t, len, n);
      ChargedAtMost(t, len, cap, GrowCap(t, len, n));
      if c.before > 0 {
        SavingSpent(t, c.before, cap, len + n);
      } else if c.last > 0 {
        SavingEarned(t, c.last, cap, len + n);
      }
    }
  }

  lemma GrownEnough(t: Target, len: nat, n: nat)
    requires len + n > t.Inline()
    ensures GrowCap(t, len, n) >= len + n && 3 * len <= 2 * GrowCap(t, len, n) + 1
  {
  }

  lemma ChargedAtMost(t: Target, len: nat, cap: nat, newCap: nat)
    requires len <= cap < newCap
    ensures DataTaken(t, len, cap, newCap) <= cap
    ensures DataTaken(t, len, cap, newCap) + HeaderTaken(t, cap, newCap) <= cap + Header(t, Growable) + Prefix(t, cap)
    ensures Header(t, Growable) + Prefix(t, cap) <= 3 * t.W()
  {
  }

  /** Between lengths that rise by half the reserve falls by what a header weighs more than the growth
      pays for. */
  lemma SavingSpent(t: Target, before: nat, cap: nat, n: nat)
    requires t.Inline() < before <= cap < n && 3 * before <= 2 * cap + 1
    ensures 2 * (cap + Header(t, Growable) + Prefix(t, cap) + Saving(t, n)) <= 7 * (n - before) + 2 * Saving(t, before)
  {
  }

  /** The first two reallocations leave it over. */
  lemma SavingEarned(t: Target, last: nat, cap: nat, n: nat)
    requires t.Inline() < last <= cap < n
    ensures 2 * (last + 3 * t.W() + cap + Header(t, Growable) + Prefix(t, cap) + Saving(t, n) + Saving(t, last))
         <= 7 * (n + last)
  {
  }

  lemma AmortisedIsLinear(t: Target, c: Cost, len: nat, cap: nat)
    requires Amortised(t, c, len, cap)
    ensures c.moved <= 6 * len && c.carried <= 7 * len
  {
  }

  /** Cost, length and capacity after pushes of the sizes `ns` onto an empty text in a buffer of `cap`. */
  function Run(t: Target, cap: nat, ns: seq<nat>): (Cost, nat, nat)
    decreases |ns|
  {
    if ns == [] then (FREE, 0, cap)
    else
      var n := ns[|ns| - 1];
      var (c, len, cap') := Run(t, cap, ns[..|ns| - 1]);
      var (c', cap'') := Pushed(t, c, len, cap', n);
      (c', len + n, cap'')
  }

  lemma {:induction false} RunAmortised(t: Target, cap: nat, ns: seq<nat>)
    requires cap >= t.Inline()
    ensures var (c, len, cap') := Run(t, cap, ns); Amortised(t, c, len, cap') && cap' >= cap
    decreases |ns|
  {
    if ns != [] {
      hide Pushed, Amortised;
      var front := ns[..|ns| - 1];
      RunAmortised(t, cap, front);
      var (c, len, cap') := Run(t, cap, front);
      PushAmortised(t, c, len, cap', ns[|ns| - 1]);
    }
  }

  /** Amortised growth, from an empty buffer of any capacity. */
  lemma CopiesAreLinear(t: Target, cap: nat, ns: seq<nat>)
    requires cap >= t.Inline()
    ensures var (c, len, _) := Run(t, cap, ns); c.moved <= 6 * len && c.carried <= 7 * len
  {
    hide Amortised, Run;
    RunAmortised(t, cap, ns);
    var (c, len, cap') := Run(t, cap, ns);
    AmortisedIsLinear(t, c, len, cap');
  }

  /** With the headers six times the length is not enough: a buffer for 17 bytes, and six pushes. */
  lemma SixIsTooLittle()
    ensures var (c, len, _) := Run(Bits64, 17, [18, 1, 9, 1, 14, 1]);
            len == 44 && c.carried == 271 && c.carried > 6 * len
  {
    hide Run;
    var ns := [18, 1, 9, 1, 14, 1];
    StartsFree(Bits64, 17);
    assert ns[..0] == [];
    Then(Bits64, 17, ns, 0);
    assert Run(Bits64, 17, ns[..1]) == (Cost(17, 33, 18, 0), 18, 18);
    Then(Bits64, 17, ns, 1);
    assert Run(Bits64, 17, ns[..2]) == (Cost(35, 67, 19, 18), 19, 27);
    Then(Bits64, 17, ns, 2);
    assert Run(Bits64, 17, ns[..3]) == (Cost(62, 110, 28, 19), 28, 28);
    Then(Bits64, 17, ns, 3);
    assert Run(Bits64, 17, ns[..4]) == (Cost(90, 154, 29, 28), 29, 42);
    Then(Bits64, 17, ns, 4);
    assert Run(Bits64, 17, ns[..5]) == (Cost(132, 212, 43, 29), 43, 43);
    Then(Bits64, 17, ns, 5);
    assert Run(Bits64, 17, ns[..6]) == (Cost(175, 271, 44, 43), 44, 64);
    assert ns[..6] == ns;
  }

  lemma StartsFree(t: Target, cap: nat)
    ensures Run(t, cap, []) == (FREE, 0, cap)
  {
  }

  lemma Then(t: Target, cap: nat, ns: seq<nat>, i: nat)
    requires i < |ns|
    ensures var (c, len, cap') := Run(t, cap, ns[..i]); var (c', cap'') := Pushed(t, c, len, cap', ns[i]);
            Run(t, cap, ns[..i + 1]) == (c', len + ns[i], cap'')
  {
    assert ns[..i + 1][..i] == ns[..i];
  }

  /** What is pushed: a text or a character. */
  datatype Piece = Chunk(bytes: seq<byte>) | One(ch: Utf8.Scalar)

  function BytesOf(p: Piece): seq<byte> { if p.Chunk? then p.bytes else Utf8.EncodeChar(p.ch) }

  function Joined(pieces: seq<Piece>): seq<byte> {
    if pieces == [] then [] else Joined(pieces[..|pieces| - 1]) + BytesOf(pieces[|pieces| - 1])
  }

  function Sizes(pieces: seq<Piece>): (ns: seq<nat>)
    ensures |ns| == |pieces|
  {
    seq(|pieces|, i requires 0 <= i < |pieces| => |BytesOf(pieces[i])|)
  }

  /** One `push_str` or `push_char`. */
  method Push(st: Store, id: nat, p: Piece) returns (ok: bool)
    requires st.Valid() && id in st.handles && st.handles[id].kind.Growable? && st.Modifiable(id)
    requires Shape(st.t, st.blocks, st.handles[id]) && (p.Chunk? ==> Utf8.Valid(p.bytes))
    modifies st
    ensures st.Valid() && id in st.handles && st.handles[id].kind.Growable? && st.Modifiable(id)
    ensures Shape(st.t, st.blocks, st.handles[id])
    ensures !ok ==> st.Now() == old(st.Now()) && st.moved == old(st.moved) && st.carried == old(st.carried)
    ensures ok ==> st.TextOf(id) == old(st.TextOf(id)) + BytesOf(p)
    ensures st.refused >= old(st.refused)
    ensures var len, cap, n := old(|st.TextOf(id)|), old(st.CapacityOf(id)), |BytesOf(p)|;
            && len <= cap && cap >= st.t.Inline()
            && var (c, cap') := Pushed(st.t, FREE, len, cap, n);
            && (ok ==> st.CapacityOf(id) == cap')
            && (ok ==> st.moved == old(st.moved) + c.moved && st.carried == old(st.carried) + c.carried)
            && (ok <==> st.refused == old(st.refused) && cap' <= Limit(st.t, Growable))
  {
    hide Owners, WF, Ok, Text, Capacity, Shape, Frame, Utf8.Valid, Utf8.EncodeChar, Limit;
    TextLimit(st.t, st.blocks, st.handles[id]);
    InlineAtLeast(st.t, st.blocks, st.handles[id]);
    WithinLimit(st.t, st.blocks, st.handles[id]);
    match p {
      case Chunk(bytes) => ok := st.PushStr(id, Literal(bytes));
      case One(ch) => ok := st.PushChar(id, ch);
    }
  }

  /** Pushes `pieces` one after the other until one is refused.  The capacity is the one the recurrence
      gives, and the store has copied what it says: of data at most six times the final length, and at most
      seven times in all. */
  method PushRun(st: Store, id: nat, pieces: seq<Piece>) returns (done: nat)
    requires st.Valid() && id in st.handles && st.handles[id].kind.Growable? && Shape(st.t, st.blocks, st.handles[id])
    requires st.TextOf(id) == [] && st.Modifiable(id)
    requires forall i | 0 <= i < |pieces| && pieces[i].Chunk? :: Utf8.Valid(pieces[i].bytes)
    modifies st
    ensures st.Valid() && done <= |pieces|
    ensures id in st.handles && Shape(st.t, st.blocks, st.handles[id]) && st.TextOf(id) == Joined(pieces[..done])
    ensures var (c, len, cap) := Run(st.t, old(st.CapacityOf(id)), Sizes(pieces[..done]));
            && len == |st.TextOf(id)| && cap == st.CapacityOf(id)
            && st.moved == old(st.moved) + c.moved && st.carried == old(st.carried) + c.carried
            && (if done == |pieces| then st.refused == old(st.refused)
                else st.refused > old(st.refused)
                     || Pushed(st.t, c, len, cap, |BytesOf(pieces[done])|).1 > Limit(st.t, Growable))
    ensures st.moved - old(st.moved) <= 6 * |st.TextOf(id)|
    ensures st.carried - old(st.carried) <= 7 * |st.TextOf(id)|
  {
    hide Owners, WF, Ok, Text, Capacity, Shape, Frame, Utf8.Valid, Joined, GrowCap, Limit, BytesOf, Run;
    ghost var cap0 := st.CapacityOf(id);
    InlineAtLeast(st.t, st.blocks, st.handles[id]);
    done := 0;
    NothingJoined(pieces);
    NothingRun(st.t, cap0, pieces);
    while done < |pieces|
      invariant st.Valid() && done <= |pieces|
      invariant id in st.handles && st.handles[id].kind.Growable? && Shape(st.t, st.blocks, st.handles[id])
      invariant st.Modifiable(id) && st.refused == old(st.refused)
      invariant st.TextOf(id) == Joined(pieces[..done])
      invariant var (c, len, cap) := Run(st.t, cap0, Sizes(pieces[..done]));
                && len == |st.TextOf(id)| && cap == st.CapacityOf(id)
                && st.moved == old(st.moved) + c.moved && st.carried == old(st.carried) + c.carried
    {
      var ok := Push(st, id, pieces[done]);
      if !ok {
        break;
      }
      JoinNext(pieces, done);
      RunNext(st.t, cap0, pieces, done);
      done := done + 1;
    }
    CopiesAreLinear(st.t, cap0, Sizes(pieces[..done]));
  }

  lemma NothingRun(t: Target, cap: nat, pieces: seq<Piece>)
    ensures Run(t, cap, Sizes(pieces[..0])) == (FREE, 0, cap)
  {
    assert Sizes(pieces[..0]) == [];
  }

  lemma RunNext(t: Target, cap: nat, pieces: seq<Piece>, i: nat)
    requires i < |pieces|
    ensures var (c, len, cap') := Run(t, cap, Sizes(pieces[..i]));
            var n := |BytesOf(pieces[i])|;
            var (c', cap'') := Pushed(t, c, len, cap', n);
            Run(t, cap, Sizes(pieces[..i + 1])) == (c', len + n, cap'')
  {
    hide Run, BytesOf;
    var ns := Sizes(pieces[..i + 1]);
    assert ns[..i] == Sizes(pieces[..i]) && ns[..i + 1] == ns;
    Then(t, cap, ns, i);
  }

  lemma NothingJoined(pieces: seq<Piece>)
    ensures Joined(pieces[..0]) == []
  {
  }

  lemma JoinNext(pieces: seq<Piece>, i: nat)
    requires i < |pieces|
    ensures Joined(pieces[..i + 1]) == Joined(pieces[..i]) + BytesOf(pieces[i])
  {
    assert pieces[..i + 1][..i] == pieces[..i];
  }
}
