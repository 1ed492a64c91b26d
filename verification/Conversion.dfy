/** Byte-level effect of converting a unique buffer between the growable and the exact header, inside
    one allocation. */
module Conversion {
  import opened Bytes
  import opened Layout
  import opened HeapState
  import opened HeapMemory

  function Slot(t: Target, tl: TextLen): nat { if tl.OnHeap? then t.W() else 0 }

  /** Offset of the data behind an exact or growable header, with the length slot the length needs. */
  function DataAt(t: Target, k: Kind, tl: TextLen): nat { Slot(t, tl) + Header(t, k) }

  /** `into_exact` before its `realloc`: the text is moved down over the header. */
  function MovedDown(t: Target, mem: seq<byte>, off: nat, tl: TextLen, len: nat): (m: seq<byte>)
    requires off + len <= |mem| && DataAt(t, Exact, tl) + len <= |mem|
    ensures |m| == |mem|
  {
    Move(mem, off, DataAt(t, Exact, tl), len)
  }

  /** The exact header, and the length in front of it where it belongs. */
  function ExactHeader(t: Target, mem: seq<byte>, tl: TextLen, len: nat): (m: seq<byte>)
    requires DataAt(t, Exact, tl) <= |mem|
    ensures |m| == |mem|
  {
    var slotted := if tl.OnHeap? then Put(mem, 0, Le(len, t.W())) else mem;
    WriteHeader(t, Exact, slotted, Slot(t, tl), len)
  }

  /** What `into_exact` writes when its `realloc` failed. */
  function RolledBack(t: Target, mem: seq<byte>, off: nat, tl: TextLen, len: nat, cap: nat): (m: seq<byte>)
    requires off + len <= |mem| && DataAt(t, Exact, tl) + len <= |mem|
    requires off == Prefix(t, cap) + Header(t, Growable)
    ensures |m| == |mem|
  {
    var data := Move(mem, DataAt(t, Exact, tl), off, len);
    var slotted := if Prefix(t, cap) != 0 then Put(data, 0, Le(len, t.W())) else data;
    WriteHeader(t, Growable, slotted, Prefix(t, cap), cap)
  }

  /** Where the exact data lies relative to the growable data. */
  lemma ExactIsLower(t: Target, mem: seq<byte>, off: nat, tl: TextLen)
    requires BufferOk(t, Growable, mem, off, tl)
    ensures var len := LenOf(t, Growable, mem, off, tl);
            && DataAt(t, Exact, tl) + t.W() <= off && off + len <= |mem| && len <= CapOf(t, mem, off)
            && LayoutFor(t, Exact, len) == Some(DataAt(t, Exact, tl) + len)
            && off == Prefix(t, CapOf(t, mem, off)) + Header(t, Growable)
            && CapOf(t, mem, off) < t.Radix() && len < t.Radix()
            && (tl.OnHeap? ==> Prefix(t, CapOf(t, mem, off)) == t.W())
  {
    BufferExtent(t, Growable, mem, off, tl);
    var len := LenOf(t, Growable, mem, off, tl);
    LayoutAccepts(t, Growable, CapOf(t, mem, off));
    LayoutAccepts(t, Exact, len);
    hide FromLe;
  }

  lemma MovedDownReads(t: Target, mem: seq<byte>, off: nat, tl: TextLen, len: nat)
    requires off + len <= |mem| && DataAt(t, Exact, tl) + len <= |mem|
    ensures var at := DataAt(t, Exact, tl);
            MovedDown(t, mem, off, tl, len)[at..at + len] == mem[off..off + len]
  {
    hide Put;
    PutReads(mem, DataAt(t, Exact, tl), mem[off..off + len]);
  }

  /** Success of `into_exact`: a complete exact buffer holding the same text, with no spare room. */
  lemma ExactBuilt(t: Target, mem: seq<byte>, off: nat, tl: TextLen, shrunk: seq<byte>)
    requires BufferOk(t, Growable, mem, off, tl) && LenOf(t, Growable, mem, off, tl) > t.Inline()
    requires var len := LenOf(t, Growable, mem, off, tl); var at := DataAt(t, Exact, tl);
             off + len <= |mem| && at + len <= |mem| && |shrunk| == at + len
             && shrunk[..at + len] == MovedDown(t, mem, off, tl, len)[..at + len]
    ensures var len := LenOf(t, Growable, mem, off, tl); var at := DataAt(t, Exact, tl);
            var m := ExactHeader(t, shrunk, tl, len);
            && CompleteBuffer(t, Exact, m, at, tl, len, len)
            && m[at..at + len] == mem[off..off + len]
  {
    ExactIsLower(t, mem, off, tl);
    hide LayoutFor, FromLe, Put, MovedDown, CapOf, CountOf;
    var len, at := LenOf(t, Growable, mem, off, tl), DataAt(t, Exact, tl);
    MovedDownReads(t, mem, off, tl, len);
    CommonFront(MovedDown(t, mem, off, tl, len), shrunk, at + len, at, at + len);
    ExactWritten(t, shrunk, tl, len);
    var m := ExactHeader(t, shrunk, tl, len);
    SameTail(m, shrunk, at, at, at + len);
    hide LenOf, ExactHeader;
    ExactComplete(t, m, tl, len);
  }

  lemma ExactWritten(t: Target, mem: seq<byte>, tl: TextLen, len: nat)
    requires DataAt(t, Exact, tl) <= |mem| && len < t.Radix() && NewTextLen(t, len) == Some(tl)
    ensures var m := ExactHeader(t, mem, tl, len); var at := DataAt(t, Exact, tl);
            && m[at..] == mem[at..]
            && CountOf(t, Exact, m, at) == 1 && LenOf(t, Exact, m, at, tl) == len
  {
    hide FromLe, Put, WriteHeader;
    var at := DataAt(t, Exact, tl);
    if tl.OnHeap? {
      var slotted := Put(mem, 0, Le(len, t.W()));
      PutReads(mem, 0, Le(len, t.W()));
      WordRoundTrip(t, len);
      HeaderReads(t, Exact, slotted, t.W(), len);
      var m := WriteHeader(t, Exact, slotted, t.W(), len);
      SameFront(m, slotted, t.W(), 0, t.W());
      SameTail(slotted, mem, t.W(), at, |mem|);
      assert slotted[at..] == slotted[at..|mem|] && mem[at..] == mem[at..|mem|];
    } else {
      HeaderReads(t, Exact, mem, 0, len);
    }
  }

  lemma ExactComplete(t: Target, m: seq<byte>, tl: TextLen, len: nat)
    requires var at := DataAt(t, Exact, tl);
             && |m| == at + len && CountOf(t, Exact, m, at) == 1 && LenOf(t, Exact, m, at, tl) == len
    requires NewTextLen(t, len) == Some(tl) && t.Inline() < len <= CapMax(t)
    requires LayoutFor(t, Exact, len) == Some(|m|)
    ensures CompleteBuffer(t, Exact, m, DataAt(t, Exact, tl), tl, len, len)
  {
    hide LayoutFor, CountOf, LenOf, CapOf;
    BuiltBuffer(t, Exact, m, DataAt(t, Exact, tl), len, len, tl);
  }

  /** Failure of `into_exact`: moving the text back and rewriting the header restores every byte, up
      to a length slot that nobody reads. */
  lemma RollbackRestores(t: Target, mem: seq<byte>, off: nat, tl: TextLen)
    requires BufferOk(t, Growable, mem, off, tl) && CountOf(t, Growable, mem, off) == 1
    ensures var len, cap := LenOf(t, Growable, mem, off, tl), CapOf(t, mem, off);
            && DataAt(t, Exact, tl) + len <= |mem| && off + len <= |mem|
            && off == Prefix(t, cap) + Header(t, Growable)
            && RolledBack(t, MovedDown(t, mem, off, tl, len), off, tl, len, cap)
                == (if Prefix(t, cap) != 0 then Put(mem, 0, Le(len, t.W())) else mem)
            && (tl.OnHeap? ==> RolledBack(t, MovedDown(t, mem, off, tl, len), off, tl, len, cap) == mem)
  {
    ExactIsLower(t, mem, off, tl);
    var len, cap := LenOf(t, Growable, mem, off, tl), CapOf(t, mem, off);
    hide LayoutFor, FromLe, Put, BufferOk;
    DataRestored(t, mem, off, tl, len);
    HeaderRestored(t, mem, Move(MovedDown(t, mem, off, tl, len), DataAt(t, Exact, tl), off, len), off, len, cap);
    if tl.OnHeap? {
      FromLeRoundTrip(mem[0..t.W()]);
      PutSame(mem, 0, Le(len, t.W()));
    }
  }

  /** A failed `into_exact` leaves every byte as it was exactly if there is no length slot in front of the
      header, or the slot already said the length. */
  lemma RollbackExact(t: Target, mem: seq<byte>, off: nat, tl: TextLen)
    requires BufferOk(t, Growable, mem, off, tl) && CountOf(t, Growable, mem, off) == 1
    ensures var len, cap := LenOf(t, Growable, mem, off, tl), CapOf(t, mem, off);
            && DataAt(t, Exact, tl) + len <= |mem| && off + len <= |mem|
            && off == Prefix(t, cap) + Header(t, Growable)
            && (RolledBack(t, MovedDown(t, mem, off, tl, len), off, tl, len, cap) == mem
                <==> Prefix(t, cap) == 0 || FromLe(mem[..t.W()]) == len)
  {
    RollbackRestores(t, mem, off, tl);
    BufferExtent(t, Growable, mem, off, tl);
    var len, cap := LenOf(t, Growable, mem, off, tl), CapOf(t, mem, off);
    hide LayoutFor, FromLe, RolledBack, MovedDown, Put, BufferOk, LenOf, CapOf;
    if Prefix(t, cap) != 0 {
      assert mem[0..t.W()] == mem[..t.W()];
      SlotOverwritten(t, mem, len);
    }
  }

  lemma SlotOverwritten(t: Target, mem: seq<byte>, len: nat)
    requires t.W() <= |mem| && len < t.Radix()
    ensures Put(mem, 0, Le(len, t.W())) == mem <==> FromLe(mem[..t.W()]) == len
  {
    hide Put, FromLe, Le;
    assert mem[0..t.W()] == mem[..t.W()];
    if FromLe(mem[..t.W()]) == len {
      FromLeRoundTrip(mem[..t.W()]);
      PutSame(mem, 0, Le(len, t.W()));
    } else {
      PutReads(mem, 0, Le(len, t.W()));
      WordRoundTrip(t, len);
    }
  }

  /** A buffer of capacity 2^24 on a 32-bit target, its length of 9 in the handle and 0 in the slot. */
  function StaleBuffer(): seq<byte> {
    Le(0, 4) + Le(1, 4) + Le(0x100_0000, 4) + seq(0x100_0000, _ => 0)
  }

  /** So a failed `into_exact` need not return the buffer unchanged. */
  lemma StaleSlotChanges()
    ensures var t, mem, tl := Bits32, StaleBuffer(), InHandle(9);
            && BufferOk(t, Growable, mem, 12, tl) && CountOf(t, Growable, mem, 12) == 1
            && CapOf(t, mem, 12) == 0x100_0000
            && DataAt(t, Exact, tl) + 9 <= |mem| && Prefix(t, 0x100_0000) + Header(t, Growable) == 12
            && RolledBack(t, MovedDown(t, mem, 12, tl, 9), 12, tl, 9, 0x100_0000) != mem
  {
    var t, mem, tl := Bits32, StaleBuffer(), InHandle(9);
    assert mem[4..8] == Le(1, 4) && mem[8..12] == Le(0x100_0000, 4) && mem[..4] == Le(0, 4) && mem[0..4] == Le(0, 4);
    WordRoundTrip(t, 0);
    WordRoundTrip(t, 1);
    WordRoundTrip(t, 0x100_0000);
    hide StaleBuffer, FromLe, Le, RolledBack, MovedDown;
    RollbackExact(t, mem, 12, tl);
  }

  lemma PutSame(mem: seq<byte>, at: nat, s: seq<byte>)
    requires at + |s| <= |mem| && mem[at..at + |s|] == s
    ensures Put(mem, at, s) == mem
  {
    assert mem == mem[..at] + mem[at..at + |s|] + mem[at + |s|..];
  }

  /** After both moves everything from the data on is as it was. */
  lemma DataRestored(t: Target, mem: seq<byte>, off: nat, tl: TextLen, len: nat)
    requires DataAt(t, Exact, tl) <= off && off + len <= |mem|
    ensures var m := Move(MovedDown(t, mem, off, tl, len), DataAt(t, Exact, tl), off, len);
            |m| == |mem| && m[off..] == mem[off..]
  {
    ThereAndBack(mem, DataAt(t, Exact, tl), off, len);
    hide Put;
  }

  lemma ThereAndBack(mem: seq<byte>, at: nat, off: nat, len: nat)
    requires at <= off && off + len <= |mem|
    ensures var down := Put(mem, at, mem[off..off + len]); var m := Put(down, off, down[at..at + len]);
            |m| == |mem| && m[off..] == mem[off..]
  {
    var text := mem[off..off + len];
    var down := Put(mem, at, text);
    PutAt(mem, at, text);
    assert down[at..at + len] == text;
    PutAt(down, off, text);
    hide Put;
  }

  /** Rewriting slot and header over memory whose data is intact. */
  lemma HeaderRestored(t: Target, mem: seq<byte>, m: seq<byte>, off: nat, len: nat, cap: nat)
    requires off == Prefix(t, cap) + Header(t, Growable) && off <= |mem| == |m| && m[off..] == mem[off..]
    requires CountOf(t, Growable, mem, off) == 1 && CapOf(t, mem, off) == cap
    ensures var slotted := if Prefix(t, cap) != 0 then Put(m, 0, Le(len, t.W())) else m;
            WriteHeader(t, Growable, slotted, Prefix(t, cap), cap)
              == if Prefix(t, cap) != 0 then Put(mem, 0, Le(len, t.W())) else mem
  {
    var p, w := Prefix(t, cap), t.W();
    FromLeRoundTrip(mem[p..p + w]);
    FromLeRoundTrip(mem[p + w..p + 2 * w]);
    hide FromLe, Le;
    var one, word, size := Le(1, w), Le(cap, w), Le(len, w);
    assert mem[p..p + w] == one && mem[p + w..p + 2 * w] == word;
    var slotted := if p != 0 then Put(m, 0, size) else m;
    var want := if p != 0 then Put(mem, 0, size) else mem;
    if p != 0 {
      PutReads(m, 0, size);
      PutReads(mem, 0, size);
      hide Put;
      assert slotted[..p] == slotted[0..p] && want[..p] == want[0..p];
      SameTail(want, mem, p, p, p + w);
      SameTail(want, mem, p, p + w, p + 2 * w);
      SameTail(slotted, m, p, off, |mem|);
      SameTail(want, mem, p, off, |mem|);
      assert slotted[off..] == slotted[off..|mem|] && want[off..] == want[off..|mem|];
      assert m[off..|mem|] == m[off..] && mem[off..|mem|] == mem[off..];
    }
    hide Put;
    HeaderRewritten(slotted, want, p, w, one, word);
  }

  /** Two words written over memory that agrees around them. */
  lemma HeaderRewritten(m: seq<byte>, want: seq<byte>, p: nat, w: nat, one: seq<byte>, word: seq<byte>)
    requires p + 2 * w <= |m| == |want| && |one| == |word| == w
    requires m[..p] == want[..p] && m[p + 2 * w..] == want[p + 2 * w..]
    requires want[p..p + w] == one && want[p + w..p + 2 * w] == word
    ensures Put(Put(m, p, one), p + w, word) == want
  {
    var r := m[..p] + one + word + m[p + 2 * w..];
    assert Put(Put(m, p, one), p + w, word) == r;
    assert want == want[..p] + want[p..p + w] + want[p + w..p + 2 * w] + want[p + 2 * w..];
  }

  /** `into_growable` after its `realloc`: text moved up behind the larger header, slot and header
      written. */
  function GrowableBuilt(t: Target, grown: seq<byte>, tl: TextLen, len: nat): (m: seq<byte>)
    requires DataAt(t, Growable, tl) + len == |grown|
    ensures |m| == |grown|
  {
    var up := Move(grown, DataAt(t, Exact, tl), DataAt(t, Growable, tl), len);
    var slotted := if tl.OnHeap? then Put(up, 0, Le(len, t.W())) else up;
    WriteHeader(t, Growable, slotted, Slot(t, tl), len)
  }

  /** Success of `into_growable`: a complete growable buffer whose capacity is the length. */
  lemma GrowableComplete(t: Target, mem: seq<byte>, off: nat, tl: TextLen, grown: seq<byte>)
    requires BufferOk(t, Exact, mem, off, tl)
    requires LayoutFor(t, Growable, LenOf(t, Exact, mem, off, tl)) == Some(|grown|)
    requires |mem| <= |grown| && grown[..|mem|] == mem
    ensures var len := LenOf(t, Exact, mem, off, tl); var at := DataAt(t, Growable, tl);
            && at + len == |grown| && off + len == |mem|
            && CompleteBuffer(t, Growable, GrowableBuilt(t, grown, tl, len), at, tl, len, len)
            && GrowableBuilt(t, grown, tl, len)[at..at + len] == mem[off..off + len]
  {
    BufferExtent(t, Exact, mem, off, tl);
    var len, at := LenOf(t, Exact, mem, off, tl), DataAt(t, Growable, tl);
    ExactFacts(t, mem, off, tl);
    LayoutAccepts(t, Growable, len);
    hide LayoutFor, FromLe, Put, BufferOk, LenOf, CapOf, CountOf, WriteHeader, HeapCap, NewTextLen;
    var up := Move(grown, off, at, len);
    PutReads(grown, at, grown[off..off + len]);
    assert mem[..|mem|] == mem;
    CommonFront(mem, grown, |mem|, off, off + len);
    GrowableWritten(t, up, tl, len);
    var m := GrowableBuilt(t, grown, tl, len);
    SameTail(m, up, at, at, at + len);
    hide GrowableBuilt, Move;
    LenSettled(t, m, at, tl, len);
    BuiltBuffer(t, Growable, m, at, len, len, tl);
  }

  lemma ExactFacts(t: Target, mem: seq<byte>, off: nat, tl: TextLen)
    requires BufferOk(t, Exact, mem, off, tl)
    ensures var len := LenOf(t, Exact, mem, off, tl);
            && off == DataAt(t, Exact, tl) && off + len == |mem|
            && t.Inline() < len <= CapMax(t) && len < t.Radix() && NewTextLen(t, len) == Some(tl)
            && DataAt(t, Growable, tl) == Prefix(t, len) + Header(t, Growable)
  {
    hide LenOf, CapOf;
    BufferExtent(t, Exact, mem, off, tl);
  }

  lemma LenSettled(t: Target, m: seq<byte>, at: nat, tl: TextLen, len: nat)
    requires Readable(t, Growable, m, at, tl) && NewTextLen(t, len) == Some(tl)
    requires tl.OnHeap? ==> LenOf(t, Growable, m, at, tl) == len
    ensures LenOf(t, Growable, m, at, tl) == len
  {
    hide FromLe;
  }

  lemma GrowableWritten(t: Target, mem: seq<byte>, tl: TextLen, len: nat)
    requires DataAt(t, Growable, tl) <= |mem| && len < t.Radix()
    ensures var slotted := if tl.OnHeap? then Put(mem, 0, Le(len, t.W())) else mem;
            var m := WriteHeader(t, Growable, slotted, Slot(t, tl), len); var at := DataAt(t, Growable, tl);
            && |m| == |mem| && m[at..] == mem[at..]
            && CountOf(t, Growable, m, at) == 1 && CapOf(t, m, at) == len
            && (tl.OnHeap? ==> LenOf(t, Growable, m, at, tl) == len)
  {
    hide FromLe, Put, WriteHeader, CapOf, CountOf;
    var at := DataAt(t, Growable, tl);
    if tl.OnHeap? {
      var slotted := Put(mem, 0, Le(len, t.W()));
      PutReads(mem, 0, Le(len, t.W()));
      WordRoundTrip(t, len);
      HeaderReads(t, Growable, slotted, t.W(), len);
      var m := WriteHeader(t, Growable, slotted, t.W(), len);
      SameFront(m, slotted, t.W(), 0, t.W());
      SameTail(slotted, mem, t.W(), at, |mem|);
      assert slotted[at..] == slotted[at..|mem|] && mem[at..] == mem[at..|mem|];
    } else {
      HeaderReads(t, Growable, mem, 0, len);
    }
  }
}
