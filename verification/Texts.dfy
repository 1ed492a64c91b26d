/** What operations do to texts in buffers: contents of buffers, writes in place, ranges and splices, and
    the steps of the longer operations. */
module Texts {
  import opened Bytes
  import opened Layout
  import opened HeapState
  import opened HeapMemory
  import opened Conversion
  import opened Case
  import opened Filtering
  import opened Repetition
  import Utf8

  // ----- texts in buffers -----

  /** An inline buffer decodes to the text it was made from: a full one carries no tag, but the last
      byte of valid UTF-8 cannot be mistaken for one. */
  lemma InlineRoundTrip(t: Target, k: Kind, blocks: Blocks, text: seq<byte>)
    requires |text| <= t.Inline() && Utf8.Valid(text)
    ensures ContentOk(t, blocks, Repr(k, Inline(InlineOf(t, text))))
    ensures Text(t, blocks, Repr(k, Inline(InlineOf(t, text)))) == text
  {
    hide *;
    InlineReads(t, text);
    InlineContent(t, k, blocks, InlineOf(t, text));
  }

  lemma InlineContent(t: Target, k: Kind, blocks: Blocks, buf: seq<byte>)
    requires |buf| == t.Inline() && buf[t.Inline() - 1] < HEAP_MARKER && Utf8.Valid(buf[..InlineLen(t, buf)])
    ensures ContentOk(t, blocks, Repr(k, Inline(buf)))
    ensures Text(t, blocks, Repr(k, Inline(buf))) == buf[..InlineLen(t, buf)]
  {
    hide Utf8.Valid, InlineLen, BufferOk;
  }

  /** The tags of inline buffers start just above the bytes a text can end in, and end below the markers. */
  lemma MaskIs(b: byte)
    ensures b < MASK <==> exists text: seq<byte> :: text != [] && Utf8.Valid(text) && text[|text| - 1] == b
    ensures MASK + 16 <= HEAP_MARKER < STATIC_MARKER
  {
    if text: seq<byte> :| text != [] && Utf8.Valid(text) && text[|text| - 1] == b {
      Utf8.LastByteBelowC0(text);
    }
    if b < 0x80 { EndsIn([b], b); } else if b < 0xC0 { EndsIn([0xC2, b], b); }
  }

  lemma EndsIn(text: seq<byte>, b: byte)
    requires (text == [b] && b < 0x80) || (text == [0xC2, b] && 0x80 <= b < 0xC0)
    ensures text != [] && Utf8.Valid(text) && text[|text| - 1] == b
  {
    assert Utf8.CharLen(text) == |text| && text[|text|..] == [];
  }

  lemma InlineReads(t: Target, text: seq<byte>)
    requires |text| <= t.Inline() && Utf8.Valid(text)
    ensures InlineLen(t, InlineOf(t, text)) == |text| && InlineOf(t, text)[t.Inline() - 1] < HEAP_MARKER
    ensures InlineOf(t, text)[..|text|] == text
  {
    hide Utf8.Valid;
    if |text| == t.Inline() {
      Utf8.LastByteBelowC0(text);
    }
  }

  /** A buffer whose data starts with `text` holds `text`. */
  lemma HeapContent(t: Target, blocks: Blocks, r: Repr, text: seq<byte>)
    requires r.form.Heap? && Shape(t, blocks, r) && Utf8.Valid(text)
    requires var mem := blocks[r.form.base];
             && r.form.off + |text| <= |mem| && mem[r.form.off..r.form.off + |text|] == text
             && Readable(t, r.kind, mem, r.form.off, r.form.tl)
             && LenOf(t, r.kind, mem, r.form.off, r.form.tl) == |text|
    ensures ContentOk(t, blocks, r) && Text(t, blocks, r) == text
  {
    hide BufferOk, LenOf, Utf8.Valid;
  }

  lemma ContentShape(t: Target, blocks: Blocks, r: Repr)
    requires ContentOk(t, blocks, r)
    ensures Shape(t, blocks, r) && Utf8.Valid(Text(t, blocks, r))
  {
    hide Shape, Text;
  }

  lemma HeapCapacity(t: Target, blocks: Blocks, r: Repr)
    requires Shape(t, blocks, r) && r.form.Heap? && r.form.base in blocks
    requires Readable(t, r.kind, blocks[r.form.base], r.form.off, r.form.tl)
    ensures Capacity(t, blocks, r) == HeapCap(t, r.kind, blocks[r.form.base], r.form.off, r.form.tl)
  {
  }

  lemma FrameFresh(t: Target, s: State, s': State, id: nat)
    requires Frame(t, s, s', {id}) && id !in s.handles
    ensures Frame(t, s, s', {})
  {
    hide SameView;
  }

  lemma InlineCapacity(t: Target, k: Kind, blocks: Blocks, buf: seq<byte>)
    requires Shape(t, blocks, Repr(k, Inline(buf))) || |buf| == t.Inline()
    ensures Shape(t, blocks, Repr(k, Inline(buf)))
    ensures Capacity(t, blocks, Repr(k, Inline(buf))) == t.Inline()
  {
  }

  /** An exact buffer has no spare capacity, so its text is too long for an inline one. */
  lemma ExactIsLong(t: Target, blocks: Blocks, r: Repr)
    requires r.form.Heap? && r.kind.Exact? && Shape(t, blocks, r)
    ensures |Text(t, blocks, r)| > t.Inline()
  {
    hide LenOf, CapOf;
    TextLimit(t, blocks, r);
    BufferExtent(t, Exact, blocks[r.form.base], r.form.off, r.form.tl);
  }

  lemma DataIsCapacity(t: Target, blocks: Blocks, r: Repr)
    requires !r.form.Static? && r.kind.Growable? && Shape(t, blocks, r)
    ensures |DataOf(blocks, r)| == Capacity(t, blocks, r)
  {
    if r.form.Heap? { LiveCapacity(t, blocks, r); }
  }

  lemma StaticCapacity(t: Target, blocks: Blocks, r: Repr)
    requires r.form.Static? && Shape(t, blocks, r)
    ensures Capacity(t, blocks, r) == r.form.len == |Text(t, blocks, r)|
  {
  }

  /** Writing into an empty inline buffer and setting its length makes the buffer `InlineOf`. */
  lemma InitializedInline(t: Target, text: seq<byte>)
    requires |text| <= t.Inline()
    ensures var buf := Put(InlineOf(t, []), 0, text);
            (if |text| < t.Inline() then buf[t.Inline() - 1 := MASK + |text|] else buf) == InlineOf(t, text)
  {
    assert InlineOf(t, []) == seq(t.Inline() - 1, _ => 0) + [MASK];
    var buf := Put(InlineOf(t, []), 0, text);
    if |text| < t.Inline() {
      assert buf[t.Inline() - 1 := MASK + |text|] == InlineOf(t, text);
    } else {
      assert buf == text;
    }
  }

  /** A handle that points elsewhere has given up its reference. */
  lemma OwnersLeft(t: Target, s: State, s': State, id: nat, b: nat)
    requires Frame(t, s, s', {id}) && s'.handles.Keys == s.handles.Keys && id in s.handles
    requires !PointsTo(s'.handles[id], b)
    ensures Owners(s'.handles, b) == Owners(s.handles, b) - {id}
  {
    hide SameView;
  }

  /** A handle that nobody shares a buffer with stays alone if another handle changes without moving to that
      buffer. */
  lemma StaysAlone(t: Target, s: State, s': State, alone: nat, id: nat)
    requires Frame(t, s, s', {id}) && s'.handles.Keys == s.handles.Keys && id in s.handles && alone in s.handles
    requires alone != id
    requires s.handles[alone].form.Heap? ==> Owners(s.handles, s.handles[alone].form.base) == {alone}
    requires var r := s'.handles[id];
             r.form.Heap? ==>
               || Owners(s'.handles, r.form.base) == {id}
               || (s.handles[id].form.Heap? && s.handles[id].form.base == r.form.base)
    ensures s'.handles[alone] == s.handles[alone]
    ensures s.handles[alone].form.Heap? ==> Owners(s'.handles, s.handles[alone].form.base) == {alone}
  {
    hide SameView;
    if s.handles[alone].form.Heap? {
      var b := s.handles[alone].form.base;
      assert alone in Owners(s'.handles, b);
      assert PointsTo(s.handles[id], b) ==> id in Owners(s.handles, b);
      assert !PointsTo(s'.handles[id], b);
      assert Owners(s'.handles, b) == Owners(s.handles, b) - {id};
    }
  }

  /** A new handle with a buffer of its own leaves the sharing of others as it is. */
  lemma SharedAlike(t: Target, s: State, s': State, id: nat, tmp: nat)
    requires Frame(t, s, s', {}) && s'.handles.Keys == s.handles.Keys + {tmp} && tmp !in s.handles
    requires id in s.handles
    requires s'.handles[tmp].form.Heap? ==> Owners(s'.handles, s'.handles[tmp].form.base) == {tmp}
    ensures s.handles[id].form.Heap? ==>
              Owners(s'.handles, s.handles[id].form.base) == Owners(s.handles, s.handles[id].form.base)
  {
    hide SameView;
    if s.handles[id].form.Heap? {
      var b := s.handles[id].form.base;
      assert s'.handles[id] == s.handles[id] && id in Owners(s'.handles, b);
      assert !PointsTo(s'.handles[tmp], b);
      assert Owners(s'.handles, b) == Owners(s.handles, b);
    }
  }

  lemma MovedMap(handles: Handles, id: nat, tmp: nat)
    requires id in handles && tmp in handles && id != tmp
    ensures (handles - {id} - {tmp})[id := handles[tmp]] == (handles - {id, tmp})[id := handles[tmp]]
  {
  }

  /** A moved handle reads as before. */
  lemma TempMoved(t: Target, s: State, s': State, tmp: nat, id: nat)
    requires Ok(t, s) && tmp in s.handles && id !in s.handles
    requires s' == State(s.blocks, (s.handles - {tmp})[id := s.handles[tmp]])
    ensures forall i | i in {tmp, id} && i in s'.handles :: ContentOk(t, s'.blocks, s'.handles[i])
  {
    hide WF, Shape, Text;
  }

  lemma FrameWiden(t: Target, s: State, s1: State, s2: State, id: nat, tmp: nat)
    requires Frame(t, s, s1, {id}) && Frame(t, s1, s2, {tmp, id})
    ensures Frame(t, s, s2, {id, tmp})
  {
    hide Shape, Text, Capacity;
    forall i | i in s.handles && i !in {id, tmp}
      ensures i in s2.handles && s2.handles[i] == s.handles[i] && SameView(t, s.blocks, s2.blocks, s.handles[i])
    {
      assert SameView(t, s.blocks, s1.blocks, s.handles[i]) && SameView(t, s1.blocks, s2.blocks, s.handles[i]);
    }
  }

  lemma UnsharedMoved(handles: Handles, id: nat, tmp: nat)
    requires id in handles && tmp in handles && id != tmp
    ensures handles[tmp].form.Heap? && Owners(handles, handles[tmp].form.base) == {tmp} ==>
              Owners((handles - {id, tmp})[id := handles[tmp]], handles[tmp].form.base) == {id}
  {
    if handles[tmp].form.Heap? && Owners(handles, handles[tmp].form.base) == {tmp} {
      OnlyOwner(handles, tmp, handles[tmp].form.base);
    }
  }

  /** A clone reads what its source reads. */
  lemma CloneContent(t: Target, s: State, s': State, src: nat, id: nat)
    requires Ok(t, s) && src in s.handles && id in s'.handles && s'.handles[id] == s.handles[src]
    requires SameView(t, s.blocks, s'.blocks, s.handles[src])
    ensures forall i | i in {id} && i in s'.handles :: ContentOk(t, s'.blocks, s'.handles[i])
    ensures Shape(t, s.blocks, s.handles[src]) && Shape(t, s'.blocks, s'.handles[id])
    ensures Text(t, s'.blocks, s'.handles[id]) == Text(t, s.blocks, s.handles[src])
    ensures Capacity(t, s'.blocks, s'.handles[id]) == Capacity(t, s.blocks, s.handles[src])
  {
    hide WF, Shape, Text, Capacity;
    assert ContentOk(t, s.blocks, s.handles[src]);
  }

  lemma OkText(t: Target, s: State, id: nat)
    requires Ok(t, s) && id in s.handles
    ensures WF(t, s) && ContentOk(t, s.blocks, s.handles[id]) && Shape(t, s.blocks, s.handles[id])
    ensures Utf8.Valid(Text(t, s.blocks, s.handles[id]))
  {
    hide WF, Shape, Text;
  }

  lemma LiveBuffer(t: Target, s: State, id: nat)
    requires Ok(t, s) && id in s.handles && s.handles[id].form.Heap?
    ensures var r := s.handles[id];
            && WF(t, s) && Shape(t, s.blocks, r) && r.form.base in s.blocks
            && BufferOk(t, r.kind, s.blocks[r.form.base], r.form.off, r.form.tl)
            && Readable(t, r.kind, s.blocks[r.form.base], r.form.off, r.form.tl)
            && Utf8.Valid(Text(t, s.blocks, r))
  {
    hide WF, BufferOk, Text;
    OkText(t, s, id);
    assert Readable(t, s.handles[id].kind, s.blocks[s.handles[id].form.base],
        s.handles[id].form.off, s.handles[id].form.tl) by {
      HandleFacts(t, s, id);
    }
  }

  /** The bytes a heap handle reads. */
  lemma TextBytes(t: Target, blocks: Blocks, r: Repr)
    requires r.form.Heap? && Shape(t, blocks, r)
    ensures r.form.base in blocks && Readable(t, r.kind, blocks[r.form.base], r.form.off, r.form.tl)
    ensures var mem := blocks[r.form.base];
            var len := LenOf(t, r.kind, mem, r.form.off, r.form.tl);
            && r.form.off + len <= |mem| && Text(t, blocks, r) == mem[r.form.off..r.form.off + len]
            && |Text(t, blocks, r)| == len
  {
    hide LenOf;
    LenFits(t, blocks, r);
  }

  /** The only handle on an allocation with a complete rewritten buffer: the invariant holds again. */
  lemma Rebuilt(t: Target, s: State, s': State, id: nat, cap: nat, text: seq<byte>)
    requires WF(t, s) && id in s.handles && s.handles[id].form.Heap?
    requires Owners(s.handles, s.handles[id].form.base) == {id}
    requires id in s'.handles && s'.handles == s.handles[id := s'.handles[id]]
    requires var r, b := s'.handles[id], s.handles[id].form.base;
             && r.form.Heap? && (r.form.base == b || r.form.base !in s.blocks)
             && r.form.base in s'.blocks && s'.blocks == (s.blocks - {b})[r.form.base := s'.blocks[r.form.base]]
             && CompleteBuffer(t, r.kind, s'.blocks[r.form.base], r.form.off, r.form.tl, cap, |text|)
             && r.form.off + |text| <= |s'.blocks[r.form.base]|
             && s'.blocks[r.form.base][r.form.off..r.form.off + |text|] == text
    requires Utf8.Valid(text)
    ensures WF(t, s') && Frame(t, s, s', {id}) && ContentOk(t, s'.blocks, s'.handles[id])
    ensures Shape(t, s'.blocks, s'.handles[id]) && Text(t, s'.blocks, s'.handles[id]) == text
    ensures Capacity(t, s'.blocks, s'.handles[id]) == cap
    ensures Owners(s'.handles, s'.handles[id].form.base) == {id}
  {
    hide WF, ContentOk, Frame, Shape, Text, Capacity, BufferOk, LenOf, CountOf, HeapCap, Readable, Utf8.Valid, Owners;
    var r := s'.handles[id];
    RewriteUnique(t, s, id, r, s'.blocks[r.form.base]);
    NewBuffer(t, s'.blocks, r);
    HeapContent(t, s'.blocks, r, text);
    HeapCapacity(t, s'.blocks, r);
    StillOnlyOwner(t, s, id, r);
  }

  lemma StillOnlyOwner(t: Target, s: State, id: nat, r: Repr)
    requires WF(t, s) && id in s.handles && s.handles[id].form.Heap?
    requires Owners(s.handles, s.handles[id].form.base) == {id}
    requires r.form.Heap? && (r.form.base == s.handles[id].form.base || r.form.base !in s.blocks)
    ensures Owners(s.handles[id := r], r.form.base) == {id}
  {
    hide Shape, CountIs;
    if r.form.base == s.handles[id].form.base {
      OwnersRetarget(s.handles, id, r, r.form.base);
    } else {
      NobodyPointsTo(t, s, r.form.base);
    }
  }

  /** `len()` is the length of the text, and no text is longer than its capacity or `isize::MAX`. */
  lemma TextLimit(t: Target, blocks: Blocks, r: Repr)
    requires Shape(t, blocks, r)
    ensures |Text(t, blocks, r)| == Len(t, blocks, r) <= Capacity(t, blocks, r)
    ensures Capacity(t, blocks, r) <= CapMax(t)
    ensures |Text(t, blocks, r)| <= t.IsizeMax()
  {
    hide LenOf, CapOf;
    if r.form.Heap? {
      LenFits(t, blocks, r);
      BufferExtent(t, r.kind, blocks[r.form.base], r.form.off, r.form.tl);
    }
  }

  /** No capacity is above what its layout allows, and so no text is. */
  lemma WithinLimit(t: Target, blocks: Blocks, r: Repr)
    requires Shape(t, blocks, r)
    ensures |Text(t, blocks, r)| <= Limit(t, r.kind)
    ensures !r.form.Static? ==> Capacity(t, blocks, r) <= Limit(t, r.kind)
    ensures !r.form.Heap? ==> |Text(t, blocks, r)| <= Limit(t, Growable)
  {
    hide LenOf, CapOf, Limit;
    TextLimit(t, blocks, r);
    SmallestLimit(t, r.kind);
    if r.form.Heap? {
      LayoutAccepts(t, r.kind, HeapCap(t, r.kind, blocks[r.form.base], r.form.off, r.form.tl));
    }
  }

  lemma InlineAtLeast(t: Target, blocks: Blocks, r: Repr)
    requires Shape(t, blocks, r) && !r.form.Static?
    ensures Capacity(t, blocks, r) >= t.Inline()
  {
    hide LenOf, CapOf;
    if r.form.Heap? { BufferExtent(t, r.kind, blocks[r.form.base], r.form.off, r.form.tl); }
  }

  lemma SmallestLimit(t: Target, k: Kind)
    ensures t.Inline() <= StaticMax(t) <= Limit(t, Growable) <= Limit(t, k)
  {
  }

  /** Resizing a buffer carries along at least its text and at most its data area. */
  lemma MovedBounds(t: Target, blocks: Blocks, r: Repr, newCapacity: nat)
    requires r.form.Heap? && r.kind.Growable? && Shape(t, blocks, r) && |Text(t, blocks, r)| <= newCapacity
    ensures r.form.base in blocks && Header(t, Growable) <= r.form.off <= |blocks[r.form.base]|
    ensures r.form.off == Prefix(t, CapOf(t, blocks[r.form.base], r.form.off)) + Header(t, Growable)
    ensures |blocks[r.form.base]| - r.form.off == Capacity(t, blocks, r) == CapOf(t, blocks[r.form.base], r.form.off)
    ensures |Text(t, blocks, r)| <= Capacity(t, blocks, r)
  {
    hide LenOf, CapOf;
    TextLimit(t, blocks, r);
    LiveCapacity(t, blocks, r);
  }

  /** The part of the data area that survives resizing the allocation to `size` bytes. */
  lemma ResizedDataArea(t: Target, blocks: Blocks, r: Repr, newCapacity: nat, size: nat)
    requires r.form.Heap? && r.kind.Growable? && Shape(t, blocks, r) && |Text(t, blocks, r)| <= newCapacity
    requires r.form.base in blocks && Header(t, Growable) <= r.form.off <= |blocks[r.form.base]|
    requires newCapacity <= CapMax(t) && LayoutFor(t, Growable, newCapacity) == Some(size)
    requires LenHeapLayout(t, CapOf(t, blocks[r.form.base], r.form.off)) == LenHeapLayout(t, newCapacity)
    ensures var old_ := |blocks[r.form.base]|;
            && r.form.off <= size && r.form.off <= old_
            && r.form.off == Header(t, Growable) + Prefix(t, Capacity(t, blocks, r))
            && Resizes(t, Capacity(t, blocks, r), newCapacity)
            && (if old_ < size then old_ else size) - r.form.off
               == DataTaken(t, |Text(t, blocks, r)|, Capacity(t, blocks, r), newCapacity)
  {
    MovedBounds(t, blocks, r, newCapacity);
    BufferExtent(t, Growable, blocks[r.form.base], r.form.off, r.form.tl);
    LayoutAccepts(t, Growable, newCapacity);
  }

  // ----- editing in place -----

  /** The whole data area of a buffer, initialised or not. */
  function DataOf(blocks: Blocks, r: Repr): seq<byte> {
    match r.form
    case Inline(buf) => buf
    case Static(_, _) => []
    case Heap(base, off, _) => if base in blocks && off <= |blocks[base]| then blocks[base][off..] else []
  }

  /** The text is the front of the data, and an inline handle does not read as another form. */
  lemma TextInData(t: Target, blocks: Blocks, r: Repr)
    requires ContentOk(t, blocks, r) && !r.form.Static?
    ensures |DataOf(blocks, r)| == Capacity(t, blocks, r) >= |Text(t, blocks, r)|
    ensures Text(t, blocks, r) == DataOf(blocks, r)[..|Text(t, blocks, r)|]
    ensures r.form.Inline? ==> |DataOf(blocks, r)| == t.Inline() && DataOf(blocks, r)[t.Inline() - 1] < HEAP_MARKER
  {
    hide LenOf, CapOf, Utf8.Valid, InlineLen;
    if r.form.Heap? {
      LenFits(t, blocks, r);
      BufferExtent(t, r.kind, blocks[r.form.base], r.form.off, r.form.tl);
      DropTake(blocks[r.form.base], r.form.off, Len(t, blocks, r));
    }
  }

  /** Writing data into the unique buffer of `id`. */
  lemma DataRewritten(t: Target, s: State, id: nat, mem: seq<byte>)
    requires WF(t, s) && id in s.handles && s.handles[id].form.Heap?
    requires Owners(s.handles, s.handles[id].form.base) == {id}
    requires s.handles[id].form.base in s.blocks
    requires SameHeader(s.blocks[s.handles[id].form.base], mem, s.handles[id].form.off)
    ensures var s' := State(s.blocks[s.handles[id].form.base := mem], s.handles);
            && WF(t, s') && Frame(t, s, s', {id})
            && Shape(t, s.blocks, s.handles[id]) && Shape(t, s'.blocks, s'.handles[id])
            && Capacity(t, s'.blocks, s'.handles[id]) == Capacity(t, s.blocks, s.handles[id])
            && Len(t, s'.blocks, s'.handles[id]) == Len(t, s.blocks, s.handles[id])
  {
    hide WF, Frame, Owners, BufferOk, CountOf, LenOf, HeapCap, SameHeader, Readable;
    var r := s.handles[id];
    HandleFacts(t, s, id);
    DataInvisible(t, r.kind, s.blocks[r.form.base], mem, r.form.off, r.form.tl);
    ReadableBuffer(t, r.kind, mem, r.form.off, r.form.tl);
    RewriteUnique(t, s, id, r, mem);
    MapReplace(s.blocks, r.form.base, mem);
    assert s.handles[id := r] == s.handles;
  }

  lemma ReadableBuffer(t: Target, k: Kind, mem: seq<byte>, off: nat, tl: TextLen)
    requires BufferOk(t, k, mem, off, tl)
    ensures Readable(t, k, mem, off, tl)
  {
  }

  /** An inline buffer may be rewritten freely. */
  lemma InlineRewritten(t: Target, s: State, id: nat, buf: seq<byte>)
    requires WF(t, s) && id in s.handles && s.handles[id].form.Inline? && |buf| == t.Inline()
    ensures var s' := State(s.blocks, s.handles[id := Repr(s.handles[id].kind, Inline(buf))]);
            WF(t, s') && Frame(t, s, s', {id})
  {
    hide WF, Frame, Owners;
    var r := Repr(s.handles[id].kind, Inline(buf));
    var s0 := State(s.blocks, s.handles - {id});
    RemovePlain(t, s, id);
    AddPlain(t, s0, id, r);
    MapReplace(s.handles, id, r);
    FrameStep(t, s, s0, State(s.blocks, s.handles[id := r]), {id});
  }

  /** `set_len` on an inline buffer. */
  lemma InlineLenSet(t: Target, k: Kind, blocks: Blocks, buf: seq<byte>, len: nat)
    requires |buf| == t.Inline() && len <= t.Inline() && Utf8.Valid(buf[..len])
    ensures var b := if len < t.Inline() then buf[t.Inline() - 1 := MASK + len] else buf;
            && ContentOk(t, blocks, Repr(k, Inline(b)))
            && Text(t, blocks, Repr(k, Inline(b))) == buf[..len]
            && Capacity(t, blocks, Repr(k, Inline(b))) == t.Inline()
  {
    hide Utf8.Valid;
    var b := if len < t.Inline() then buf[t.Inline() - 1 := MASK + len] else buf;
    if len == t.Inline() {
      Utf8.LastByteBelowC0(buf[..len]);
    }
    assert InlineLen(t, b) == len;
    assert b[..len] == buf[..len];
  }

  lemma LiveCapacity(t: Target, blocks: Blocks, r: Repr)
    requires r.form.Heap? && Shape(t, blocks, r) && r.kind.Growable?
    ensures r.form.base in blocks && Header(t, Growable) <= r.form.off <= |blocks[r.form.base]|
    ensures Capacity(t, blocks, r) == CapOf(t, blocks[r.form.base], r.form.off)
    ensures r.form.off + Capacity(t, blocks, r) == |blocks[r.form.base]|
  {
    hide LenOf, CapOf;
    BufferExtent(t, r.kind, blocks[r.form.base], r.form.off, r.form.tl);
  }

  lemma PutInData(mem: seq<byte>, off: nat, at: nat, bytes: seq<byte>)
    requires off + at + |bytes| <= |mem|
    ensures Put(mem, off + at, bytes)[off..] == Put(mem[off..], at, bytes)
    ensures SameHeader(mem, Put(mem, off + at, bytes), off)
  {
    PutAt(mem, off + at, bytes);
    PutAt(mem[off..], at, bytes);
    hide Put;
  }

  lemma DataFront(mem: seq<byte>, mem': seq<byte>, off: nat, len: nat)
    requires off + len <= |mem| == |mem'| && mem'[off..] == mem[off..]
    ensures mem'[off..off + len] == mem[off..][..len]
  {
    DropTake(mem', off, len);
  }

  /** How an operation with a checked index ends. */
  datatype Outcome = Done | NoMemory | Panicked

  /** How an operation that may hand out another reference to a buffer ends. */
  datatype Derived = Derived(id: nat) | Refused | CountOverflow

  datatype Bound = Included(n: nat) | Excluded(n: nat) | Unbounded

  /** `slice_range`; `None` where it panics. */
  function SliceRange(t: Target, text: seq<byte>, lo: Bound, hi: Bound): Option<(nat, nat)> {
    var start := match lo { case Included(n) => n case Excluded(n) => SaturatingAdd(t, n, 1) case Unbounded => 0 };
    var end := match hi { case Included(n) => SaturatingAdd(t, n, 1) case Excluded(n) => n case Unbounded => |text| };
    if Utf8.IsBoundary(text, start) && Utf8.IsBoundary(text, end) && start <= end then Some((start, end)) else None
  }

  /** What the two ends of a range say about an index. */
  predicate FromStart(lo: Bound, i: nat) {
    match lo case Included(n) => n <= i case Excluded(n) => n < i case Unbounded => true
  }

  predicate BeforeEnd(hi: Bound, len: nat, i: nat) {
    match hi case Included(n) => i <= n case Excluded(n) => i < n case Unbounded => i < len
  }

  /** `start..end` is the range: on character boundaries in order, with just the indices that both ends
      admit. */
  ghost predicate IsRange(text: seq<byte>, lo: Bound, hi: Bound, start: nat, end: nat) {
    && start <= end <= |text| && Utf8.IsBoundary(text, start) && Utf8.IsBoundary(text, end)
    && (forall i: nat :: start <= i <==> FromStart(lo, i))
    && (forall i: nat :: i < end <==> BeforeEnd(hi, |text|, i))
  }

  /** `slice_range` finds the range if there is one, and panics if there is none. */
  lemma SliceRangeIs(t: Target, text: seq<byte>, lo: Bound, hi: Bound, start: nat, end: nat)
    requires |text| <= t.IsizeMax()
    ensures SliceRange(t, text, lo, hi) == Some((start, end)) <==> IsRange(text, lo, hi, start, end)
  {
    hide Utf8.IsBoundary;
    if SliceRange(t, text, lo, hi) == Some((start, end)) {
      assert Utf8.IsBoundary(text, start) && Utf8.IsBoundary(text, end);
      BoundaryWithin(text, start);
      BoundaryWithin(text, end);
    }
    if IsRange(text, lo, hi, start, end) {
      assert FromStart(lo, start) && (start > 0 ==> !FromStart(lo, start - 1));
      assert !BeforeEnd(hi, |text|, end) && (end > 0 ==> BeforeEnd(hi, |text|, end - 1));
    }
  }

  lemma BoundaryWithin(text: seq<byte>, i: nat)
    requires Utf8.IsBoundary(text, i)
    ensures i <= |text|
  {
  }

  /** What `slice_range` accepts: cutting the text there leaves three valid texts. */
  lemma SliceRangeCuts(t: Target, text: seq<byte>, lo: Bound, hi: Bound)
    requires Utf8.Valid(text) && SliceRange(t, text, lo, hi).Some?
    ensures var (start, end) := SliceRange(t, text, lo, hi).value;
            && start <= end <= |text|
            && Utf8.Valid(text[..start]) && Utf8.Valid(text[start..end]) && Utf8.Valid(text[end..])
  {
    var (start, end) := SliceRange(t, text, lo, hi).value;
    hide Utf8.Valid, SliceRange;
    CutTwice(text, start, end);
  }

  lemma CutTwice(text: seq<byte>, start: nat, end: nat)
    requires Utf8.Valid(text) && Utf8.IsBoundary(text, start) && Utf8.IsBoundary(text, end) && start <= end
    ensures start <= end <= |text|
    ensures Utf8.Valid(text[..start]) && Utf8.Valid(text[start..end]) && Utf8.Valid(text[end..])
  {
    hide Utf8.Valid;
    Utf8.BoundarySplits(text, start);
    Utf8.BoundarySplits(text, end);
    var front := text[..end];
    assert Utf8.IsBoundary(front, start);
    hide Utf8.IsBoundary;
    Utf8.BoundarySplits(front, start);
    assert front[..start] == text[..start] && front[start..] == text[start..end];
  }

  /** A text passed to an operation: its own bytes, or bytes `a..b` of the text of another handle. */
  datatype Str = Literal(bytes: seq<byte>) | Borrowed(src: nat, a: nat, b: nat)

  function Spliced(text: seq<byte>, start: nat, end: nat, bytes: seq<byte>): seq<byte>
    requires start <= end <= |text|
  {
    text[..start] + bytes + text[end..]
  }

  lemma SplicedLength(text: seq<byte>, start: nat, end: nat, bytes: seq<byte>)
    requires start <= end <= |text|
    ensures |Spliced(text, start, end, bytes)| == |text| - (end - start) + |bytes|
  {
  }

  lemma SplicedValid(text: seq<byte>, start: nat, end: nat, bytes: seq<byte>)
    requires start <= end <= |text|
    requires Utf8.Valid(text[..start]) && Utf8.Valid(bytes) && Utf8.Valid(text[end..])
    ensures Utf8.Valid(Spliced(text, start, end, bytes))
  {
    hide Utf8.Valid;
    Utf8.ValidConcat(text[..start], bytes);
    Utf8.ValidConcat(text[..start] + bytes, text[end..]);
  }

  /** Moving the suffix and then writing the replacement splices the text; the byte after the data
      that a handle is told apart by changes only when the text fills the buffer. */
  lemma SplicedData(data: seq<byte>, text: seq<byte>, start: nat, end: nat, bytes: seq<byte>)
    requires start <= end <= |text| <= |data| && data[..|text|] == text
    requires |text| - (end - start) + |bytes| <= |data|
    ensures var n := |text| - (end - start) + |bytes|;
            var moved := Move(data, end, start + |bytes|, |text| - end);
            var d := Put(moved, start, bytes);
            && d[..n] == Spliced(text, start, end, bytes)
            && (n < |data| ==> d[|data| - 1] == data[|data| - 1])
  {
    var n, at := |text| - (end - start) + |bytes|, start + |bytes|;
    var suffix := data[end..end + (|text| - end)];
    var moved := Put(data, at, suffix);
    var d := Put(moved, start, bytes);
    hide Put;
    TakeSlice(data, |text|, end, |text|);
    PutReads(data, at, suffix);
    PutReads(moved, start, bytes);
    CommonFront(moved, data, at, 0, start);
    SameTail(d, moved, at, at, n);
    CutInThree(d, start, at, n);
    TakeSlice(data, |text|, 0, start);
    if n < |data| {
      LastKept(moved, d, at);
      LastKept(data, moved, n);
    }
  }

  lemma CutInThree(s: seq<byte>, i: nat, j: nat, n: nat)
    requires i <= j <= n <= |s|
    ensures s[..n] == s[0..i] + s[i..j] + s[j..n] && s[0..i] == s[..i]
  {
  }

  lemma LastKept(a: seq<byte>, b: seq<byte>, n: nat)
    requires n < |a| == |b| && b[n..] == a[n..]
    ensures b[|b| - 1] == a[|a| - 1]
  {
    assert b[n..][|b| - 1 - n] == a[n..][|a| - 1 - n];
  }

  lemma AppendedData(data: seq<byte>, text: seq<byte>, bytes: seq<byte>)
    requires |text| + |bytes| <= |data| && data[..|text|] == text
    ensures var n := |text| + |bytes|;
            var d := Put(data, |text|, bytes);
            d[..n] == text + bytes && (n < |data| ==> d[|data| - 1] == data[|data| - 1])
  {
    var d := Put(data, |text|, bytes);
    PutAt(data, |text|, bytes);
    hide Put;
    forall k | 0 <= k < |text| + |bytes|
      ensures d[k] == (text + bytes)[k]
    {
      if k < |text| {
        assert data[k] == data[..|text|][k];
      }
    }
  }

  /** While the new text is shorter than the buffer the marker byte is the old one, and when it fills
      the buffer that byte ends a valid text; either way it does not read as a heap or static marker. */
  lemma MarkerSafe(data: seq<byte>, d: seq<byte>, n: nat)
    requires 0 < |data| == |d| && n <= |d| && data[|data| - 1] < HEAP_MARKER
    requires n < |data| ==> d[|data| - 1] == data[|data| - 1]
    requires Utf8.Valid(d[..n])
    ensures d[|d| - 1] < HEAP_MARKER
  {
    hide Utf8.Valid;
    if n == |d| {
      Utf8.LastByteBelowC0(d[..n]);
    }
  }

  /** A shared handle may shorten the length it carries by itself. */
  lemma ShortenedHandle(t: Target, blocks: Blocks, r: Repr, len: nat)
    requires r.form.Heap? && r.kind.Growable? && r.form.tl.InHandle? && Shape(t, blocks, r)
    requires len <= |Text(t, blocks, r)|
    ensures var r' := Repr(r.kind, Heap(r.form.base, r.form.off, InHandle(len)));
            && Shape(t, blocks, r')
            && Text(t, blocks, r') == Text(t, blocks, r)[..len]
            && Capacity(t, blocks, r') == Capacity(t, blocks, r)
  {
    TextLimit(t, blocks, r);
    TextBytes(t, blocks, r);
    TakeSlice(blocks[r.form.base], r.form.off + |Text(t, blocks, r)|, r.form.off, r.form.off + len);
    hide LayoutFor, CapOf;
    var mem := blocks[r.form.base];
    assert mem[r.form.off..r.form.off + len] == mem[r.form.off..r.form.off + |Text(t, blocks, r)|][..len];
  }

  /** A handle without an allocation may be rewritten freely. */
  lemma PlainRewritten(t: Target, s: State, id: nat, r: Repr)
    requires WF(t, s) && id in s.handles && !s.handles[id].form.Heap? && !r.form.Heap? && Shape(t, s.blocks, r)
    ensures var s' := State(s.blocks, s.handles[id := r]);
            WF(t, s') && Frame(t, s, s', {id})
  {
    hide WF, Frame, Owners, Shape;
    var s0 := State(s.blocks, s.handles - {id});
    RemovePlain(t, s, id);
    AddPlain(t, s0, id, r);
    MapReplace(s.handles, id, r);
    FrameStep(t, s, s0, State(s.blocks, s.handles[id := r]), {id});
  }

  lemma RemovedValid(text: seq<byte>, idx: nat, n: nat)
    requires idx < |text| && Utf8.Valid(text[..idx]) && Utf8.Valid(text[idx..]) && n == Utf8.CharLen(text[idx..])
    ensures idx + n <= |text| && Utf8.Valid(Spliced(text, idx, idx + n, []))
  {
    hide Utf8.CharLen;
    assert text[idx..][n..] == text[idx + n..];
    assert Utf8.Valid([]);
    SplicedValid(text, idx, idx + n, []);
  }

  lemma SetLenFits(data: seq<byte>, text: seq<byte>, n: nat)
    requires n <= |text| <= |data| && data[..|text|] == text
    ensures data[..n] == text[..n]
  {
    assert data[..n] == data[..|text|][..n];
  }

  /** `truncate` on a static text keeps the text and shortens the recorded length. */
  lemma StaticShortened(t: Target, blocks: Blocks, r: Repr, len: nat)
    requires r.form.Static? && Shape(t, blocks, r) && len <= |Text(t, blocks, r)|
    ensures var r' := Repr(r.kind, Static(r.form.text, len));
            Shape(t, blocks, r') && Text(t, blocks, r') == Text(t, blocks, r)[..len]
  {
  }

  lemma ShortenedContent(t: Target, blocks: Blocks, r: Repr, text: seq<byte>)
    requires Shape(t, blocks, r) && !r.form.Inline? && Text(t, blocks, r) == text && Utf8.Valid(text)
    ensures ContentOk(t, blocks, r)
  {
    hide Shape, Text, Utf8.Valid;
  }

  /** A length in the allocation means a text too long for a handle, so a large capacity. */
  lemma SlotOwnerIsLong(t: Target, blocks: Blocks, r: Repr)
    requires r.form.Heap? && Shape(t, blocks, r)
    ensures r.form.tl.OnHeap? ==> t.Bits32? && Capacity(t, blocks, r) > MaxLen(t)
  {
    hide LayoutFor, LenOf, CapOf;
  }

  lemma NothingSpliced(text: seq<byte>, at: nat, bytes: seq<byte>)
    requires at <= |text| && bytes == []
    ensures Spliced(text, at, at, bytes) == text
  {
  }

  /** What a borrowed argument reads in a state. */
  function StrIn(t: Target, s: State, w: Str): seq<byte> {
    match w
    case Literal(bytes) => bytes
    case Borrowed(src, a, b) =>
      if src in s.handles && Shape(t, s.blocks, s.handles[src]) && a <= b <= |Text(t, s.blocks, s.handles[src])|
      then Text(t, s.blocks, s.handles[src])[a..b] else []
  }

  /** What a failed `into_exact` leaves behind: the same bytes, up to a length slot nobody reads. */
  predicate SameButDeadSlot(t: Target, mem: seq<byte>, mem': seq<byte>, tl: TextLen) {
    && |mem'| == |mem|
    && (tl.OnHeap? ==> mem' == mem)
    && (mem' == mem || (t.W() <= |mem| && mem'[t.W()..] == mem[t.W()..]))
  }

  lemma DeadSlotOnly(t: Target, mem: seq<byte>, off: nat, tl: TextLen)
    requires BufferOk(t, Growable, mem, off, tl) && CountOf(t, Growable, mem, off) == 1
    ensures var len, cap := LenOf(t, Growable, mem, off, tl), CapOf(t, mem, off);
            && DataAt(t, Exact, tl) + len <= |mem| && off + len <= |mem|
            && off == Prefix(t, cap) + Header(t, Growable)
            && var m := RolledBack(t, MovedDown(t, mem, off, tl, len), off, tl, len, cap);
            && SameButDeadSlot(t, mem, m, tl)
            && CompleteBuffer(t, Growable, m, off, tl, cap, len) && m[off..] == mem[off..]
  {
    RollbackRestores(t, mem, off, tl);
    BufferExtent(t, Growable, mem, off, tl);
    hide LayoutFor, FromLe, RolledBack, MovedDown, Put;
    var len, cap := LenOf(t, Growable, mem, off, tl), CapOf(t, mem, off);
    if Prefix(t, cap) != 0 && tl.InHandle? {
      PutReads(mem, 0, Le(len, t.W()));
      UnreadSlot(t, mem, Put(mem, 0, Le(len, t.W())), off, tl);
    }
  }

  lemma UnreadSlot(t: Target, mem: seq<byte>, m: seq<byte>, off: nat, tl: TextLen)
    requires BufferOk(t, Growable, mem, off, tl) && CountOf(t, Growable, mem, off) == 1 && tl.InHandle?
    requires Prefix(t, CapOf(t, mem, off)) == t.W() && |m| == |mem| && m[t.W()..] == mem[t.W()..]
    ensures off <= |mem|
    ensures CompleteBuffer(t, Growable, m, off, tl, CapOf(t, mem, off), LenOf(t, Growable, mem, off, tl))
    ensures m[off..] == mem[off..]
  {
    BufferExtent(t, Growable, mem, off, tl);
    assert off == 3 * t.W() by { hide LayoutFor, FromLe; }
    SameTail(m, mem, t.W(), t.W(), 2 * t.W());
    SameTail(m, mem, t.W(), 2 * t.W(), 3 * t.W());
    assert m[off..] == m[t.W()..][off - t.W()..] && mem[off..] == mem[t.W()..][off - t.W()..];
    hide LayoutFor, FromLe;
    SameReadings(t, Growable, mem, m, off, tl);
  }

  lemma GrowableCapacity(t: Target, blocks: Blocks, r: Repr)
    requires r.form.Heap? && r.kind.Growable? && Shape(t, blocks, r)
    ensures r.form.base in blocks && Header(t, Growable) <= r.form.off <= |blocks[r.form.base]|
    ensures Capacity(t, blocks, r) == CapOf(t, blocks[r.form.base], r.form.off)
  {
    LiveCapacity(t, blocks, r);
  }

  /** An exact buffer may become growable unless its length is above the growable limit. */
  lemma ExactLengths(t: Target, mem: seq<byte>, off: nat, tl: TextLen)
    requires BufferOk(t, Exact, mem, off, tl)
    ensures var len := LenOf(t, Exact, mem, off, tl);
            && (LayoutFor(t, Growable, len).Some? <==> len <= Limit(t, Growable))
            && DataAt(t, Exact, tl) <= |mem|
  {
    hide LenOf, CapOf;
    BufferExtent(t, Exact, mem, off, tl);
    LayoutAccepts(t, Growable, LenOf(t, Exact, mem, off, tl));
    LayoutAccepts(t, Exact, LenOf(t, Exact, mem, off, tl));
  }

  lemma GrowableIsLarger(t: Target, mem: seq<byte>, off: nat, tl: TextLen)
    requires BufferOk(t, Exact, mem, off, tl)
    ensures var size := LayoutFor(t, Growable, LenOf(t, Exact, mem, off, tl)); size.Some? ==> size.value >= |mem|
  {
    hide LenOf, CapOf;
    BufferExtent(t, Exact, mem, off, tl);
    LayoutAccepts(t, Growable, LenOf(t, Exact, mem, off, tl));
  }

  /** Inline and static handles read the same whichever of the two types they have. */
  lemma OtherKind(t: Target, blocks: Blocks, r: Repr)
    requires ContentOk(t, blocks, r) && !r.form.Heap?
    ensures forall k :: ContentOk(t, blocks, Repr(k, r.form)) && Shape(t, blocks, Repr(k, r.form))
    ensures forall k :: Text(t, blocks, Repr(k, r.form)) == Text(t, blocks, r)
  {
    hide InlineLen, Utf8.Valid;
  }

  lemma KeptText(t: Target, s: State, s': State, id: nat, except: set<nat>)
    requires Frame(t, s, s', except) && id in s.handles && id !in except && Shape(t, s.blocks, s.handles[id])
    ensures id in s'.handles && s'.handles[id] == s.handles[id] && Shape(t, s'.blocks, s'.handles[id])
    ensures Text(t, s'.blocks, s'.handles[id]) == Text(t, s.blocks, s.handles[id])
    ensures Capacity(t, s'.blocks, s'.handles[id]) == Capacity(t, s.blocks, s.handles[id])
  {
    hide Shape, Text, Capacity;
    assert SameView(t, s.blocks, s'.blocks, s.handles[id]);
  }

  /** Adding a handle and dropping it again. */
  lemma Undone(t: Target, s: State, s1: State, s2: State, tmp: nat)
    requires tmp !in s.handles && s1.handles.Keys == s.handles.Keys + {tmp} && Frame(t, s, s1, {})
    requires s2.handles == s1.handles - {tmp} && Frame(t, s1, s2, {tmp})
    ensures s2.handles == s.handles && Frame(t, s, s2, {})
  {
    hide Shape, Text, Capacity;
    forall i | i in s.handles
      ensures i in s2.handles && s2.handles[i] == s.handles[i] && SameView(t, s.blocks, s2.blocks, s.handles[i])
    {
      assert SameView(t, s.blocks, s1.blocks, s.handles[i]) && SameView(t, s1.blocks, s2.blocks, s.handles[i]);
    }
  }

  lemma FrameWiden2(t: Target, s: State, s1: State, s2: State, id: nat)
    requires Frame(t, s, s1, {}) && Frame(t, s1, s2, {id})
    ensures Frame(t, s, s2, {id})
  {
    hide Shape, Text, Capacity;
    forall i | i in s.handles && i != id
      ensures i in s2.handles && s2.handles[i] == s.handles[i] && SameView(t, s.blocks, s2.blocks, s.handles[i])
    {
      assert SameView(t, s.blocks, s1.blocks, s.handles[i]) && SameView(t, s1.blocks, s2.blocks, s.handles[i]);
    }
  }

  /** The live allocations are exactly those some handle points to, so equal handles mean that
      nothing has leaked. */
  lemma SameHandlesSameBlocks(t: Target, s: State, s': State)
    requires Ok(t, s) && Ok(t, s') && s.handles == s'.handles
    ensures s.blocks.Keys == s'.blocks.Keys
  {
    LiveIffOwned(t, s);
    LiveIffOwned(t, s');
  }

  lemma LiveIffOwned(t: Target, s: State)
    requires WF(t, s)
    ensures forall b :: b in s.blocks <==> Owners(s.handles, b) != {}
  {
    hide BufferOk, CountIs, Agree;
    forall b ensures b in s.blocks <==> Owners(s.handles, b) != {} {
      assert b in s.blocks ==> 1 <= |Owners(s.handles, b)|;
      if Owners(s.handles, b) != {} {
        var i :| i in Owners(s.handles, b);
        assert Shape(t, s.blocks, s.handles[i]);
      }
    }
  }

  // ----- case conversion -----

  /** The text with every character mapped on its own. */
  ghost function MapText(text: seq<byte>, map_: Utf8.Scalar -> seq<Utf8.Scalar>): seq<byte>
    requires Utf8.Valid(text)
  {
    Utf8.Encode(MapChars(Utf8.Decode(text), map_))
  }

  /** Mapping a concatenation. */
  lemma MapTextConcat(a: seq<byte>, b: seq<byte>, map_: Utf8.Scalar -> seq<Utf8.Scalar>)
    requires Utf8.Valid(a) && Utf8.Valid(b)
    ensures Utf8.Valid(a + b) && MapText(a + b, map_) == MapText(a, map_) + MapText(b, map_)
  {
    hide Utf8.Valid, Utf8.Decode, Utf8.Encode, MapChars;
    Utf8.ValidConcat(a, b);
    MapCharsConcat(Utf8.Decode(a), Utf8.Decode(b), map_);
    Utf8.EncodeConcat(MapChars(Utf8.Decode(a), map_), MapChars(Utf8.Decode(b), map_));
  }

  lemma MapTextUnchanged(a: seq<byte>, map_: Utf8.Scalar -> seq<Utf8.Scalar>)
    requires Utf8.Valid(a) && forall c | c in Utf8.Decode(a) :: !CharChanges(map_, c)
    ensures MapText(a, map_) == a
  {
    hide Utf8.Valid, Utf8.Decode, Utf8.Encode, MapChars, CharChanges;
    MapUnchanged(Utf8.Decode(a), map_);
    Utf8.EncodeDecode(a);
  }

  lemma MapTextAscii(a: seq<byte>, map_: Utf8.Scalar -> seq<Utf8.Scalar>, case_: Case)
    requires AsciiFacts(map_, case_) && forall i | 0 <= i < |a| :: a[i] < 0x80
    ensures Utf8.Valid(a) && MapText(a, map_) == AsciiMapAll(a, case_) && Utf8.Valid(AsciiMapAll(a, case_))
  {
    hide Utf8.Valid, Utf8.Decode, Utf8.Encode, MapChars, AsciiMapAll;
    AsciiText(a);
    MapAscii(a, map_, case_);
    AsciiMapAscii(a, case_);
    Utf8.EncodeDecode(AsciiMapAll(a, case_));
  }

  /** Mapping one more character. */
  lemma MapTextStep(text: seq<byte>, at: nat, map_: Utf8.Scalar -> seq<Utf8.Scalar>)
    requires at < |text| && Utf8.Valid(text[..at]) && Utf8.Valid(text[at..])
    ensures Utf8.CharLen(text[at..]) > 0 && at + Utf8.CharLen(text[at..]) <= |text|
    ensures Utf8.Valid(text[..at + Utf8.CharLen(text[at..])]) && Utf8.Valid(text[at + Utf8.CharLen(text[at..])..])
    ensures var n := Utf8.CharLen(text[at..]);
            && MapText(text[..at + n], map_)
               == MapText(text[..at], map_) + Utf8.Encode(map_(Utf8.DecodeChar(text[at..])))
            && Utf8.Decode(text[..at + n]) == Utf8.Decode(text[..at]) + [Utf8.DecodeChar(text[at..])]
  {
    NextChar(text, at);
    var n, c := Utf8.CharLen(text[at..]), Utf8.DecodeChar(text[at..]);
    hide Utf8.Valid, Utf8.Decode, Utf8.Encode, Utf8.CharLen, Utf8.DecodeChar, Utf8.EncodeChar;
    MapCharsConcat(Utf8.Decode(text[..at]), [c], map_);
    MapSingle(c, map_);
    hide MapChars;
    Utf8.EncodeConcat(MapChars(Utf8.Decode(text[..at]), map_), map_(c));
  }

  lemma MapSingle(c: Utf8.Scalar, map_: Utf8.Scalar -> seq<Utf8.Scalar>)
    ensures MapChars([c], map_) == map_(c)
  {
    assert [c][1..] == [];
    assert MapChars([], map_) == [];
    assert map_(c) + [] == map_(c);
  }

  lemma TwoWrites(data: seq<byte>, a: seq<byte>, b: seq<byte>)
    requires |a| + |b| <= |data|
    ensures var d := Put(Put(data, 0, a), |a|, b); var n := |a| + |b|;
            d[..n] == a + b && (n < |data| ==> d[|data| - 1] == data[|data| - 1])
  {
    var once := Put(data, 0, a);
    AppendedData(data, [], a);
    AppendedData(once, a, b);
    hide Put;
    assert [] + a == a;
  }

  /** Capacity after the characters `cs` are pushed, one by one, on a text of `len` bytes in a buffer of
      `cap`; `None` if a push asks for more than any layout allows. */
  function PushedCap(t: Target, len: nat, cap: nat, cs: seq<Utf8.Scalar>): Option<nat>
    decreases |cs|
  {
    if cs == [] then Some(cap)
    else
      var front, c := cs[..|cs| - 1], cs[|cs| - 1];
      match PushedCap(t, len, cap, front)
      case None => None
      case Some(room) => PushedOne(t, len + |Utf8.Encode(front)|, room, c)
  }

  function PushedOne(t: Target, len: nat, room: nat, c: Utf8.Scalar): Option<nat> {
    var n := |Utf8.EncodeChar(c)|;
    var grown := if len + n <= room then room else RoomFor(t, GrowCap(t, len, n));
    if grown <= Limit(t, Growable) then Some(grown) else None
  }

  lemma NothingPushed(t: Target, len: nat, cap: nat)
    ensures PushedCap(t, len, cap, []) == Some(cap)
  {
  }

  /** A push that asks for too much stops all that follow. */
  lemma PushedPart(t: Target, len: nat, cap: nat, cs: seq<Utf8.Scalar>, i: nat)
    requires i <= |cs| && PushedCap(t, len, cap, cs[..i]).None?
    ensures PushedCap(t, len, cap, cs).None?
  {
    hide PushedCap;
    PushedConcat(t, len, cap, cs[..i], cs[i..]);
    assert cs[..i] + cs[i..] == cs;
  }

  lemma PushedNext(t: Target, len: nat, cap: nat, cs: seq<Utf8.Scalar>, i: nat)
    requires i < |cs|
    ensures PushedCap(t, len, cap, cs[..i + 1])
         == match PushedCap(t, len, cap, cs[..i])
            case None => None
            case Some(room) => PushedOne(t, len + |Utf8.Encode(cs[..i])|, room, cs[i])
  {
    assert cs[..i + 1][..i] == cs[..i];
  }

  lemma {:induction false} PushedConcat(t: Target, len: nat, cap: nat, a: seq<Utf8.Scalar>, b: seq<Utf8.Scalar>)
    ensures PushedCap(t, len, cap, a + b)
         == match PushedCap(t, len, cap, a)
            case None => None
            case Some(room) => PushedCap(t, len + |Utf8.Encode(a)|, room, b)
    decreases |b|
  {
    hide PushedOne, Utf8.Encode;
    if b == [] {
      assert a + b == a;
    } else {
      var front := b[..|b| - 1];
      PushedConcat(t, len, cap, a, front);
      Utf8.EncodeConcat(a, front);
      assert (a + b)[..|a + b| - 1] == a + front;
    }
  }

  /** What fits asks for nothing. */
  lemma {:induction false} PushedFits(t: Target, len: nat, cap: nat, cs: seq<Utf8.Scalar>)
    requires len + |Utf8.Encode(cs)| <= cap <= Limit(t, Growable)
    ensures PushedCap(t, len, cap, cs) == Some(cap)
    decreases |cs|
  {
    hide Utf8.Encode, Utf8.EncodeChar, Limit;
    if cs != [] {
      var front, c := cs[..|cs| - 1], cs[|cs| - 1];
      assert cs == front + [c];
      Utf8.EncodeSnoc(front, c);
      PushedFits(t, len, cap, front);
    }
  }

  /** The characters in front of the first capital sigma. */
  function BeforeSigma(cs: seq<Utf8.Scalar>): seq<Utf8.Scalar> {
    if cs == [] || cs[0] == SIGMA then [] else [cs[0]] + BeforeSigma(cs[1..])
  }

  lemma {:induction false} BeforeSigmaSplits(a: seq<Utf8.Scalar>, b: seq<Utf8.Scalar>)
    requires SIGMA !in a
    ensures BeforeSigma(a + b) == a + BeforeSigma(b)
  {
    if a == [] {
      assert a + b == b;
    } else {
      assert (a + b)[0] == a[0] && (a + b)[1..] == a[1..] + b;
      BeforeSigmaSplits(a[1..], b);
    }
  }

  /** The characters a full case conversion maps one by one. */
  function OneByOne(cs: seq<Utf8.Scalar>, case_: Case): seq<Utf8.Scalar> {
    if case_.Lower? then BeforeSigma(cs) else cs
  }

  /** When sizes alone make a full case conversion fail: the length of the text is above the limit; or
      pushing the mapped characters into a buffer of that length asks for more than the limit; or, with a
      capital sigma to be lowercased, the whole conversion is longer than the limit. */
  ghost predicate CaseTooLong(t: Target, text: seq<byte>, case_: Case,
      map_: Utf8.Scalar -> seq<Utf8.Scalar>, full: seq<byte>)
    requires Utf8.Valid(text)
  {
    var cs := Utf8.Decode(text);
    || |text| > Limit(t, Growable)
    || PushedCap(t, 0, RoomFor(t, |text|), MapChars(OneByOne(cs, case_), map_)).None?
    || (case_.Lower? && SIGMA in cs && |full| > Limit(t, Growable))
  }

  /** Capacity of the new string. */
  ghost function CaseCapacity(t: Target, text: seq<byte>, case_: Case,
      map_: Utf8.Scalar -> seq<Utf8.Scalar>, full: seq<byte>): nat
    requires Utf8.Valid(text) && !CaseTooLong(t, text, case_, map_, full)
  {
    var cs := Utf8.Decode(text);
    if case_.Lower? && SIGMA in cs then RoomFor(t, |full|)
    else PushedCap(t, 0, RoomFor(t, |text|), MapChars(OneByOne(cs, case_), map_)).value
  }

  /** The front `text[..at]` has been mapped one by one and leaves a capacity of `cap`. */
  ghost predicate CaseRoom(t: Target, text: seq<byte>, at: nat, case_: Case,
      map_: Utf8.Scalar -> seq<Utf8.Scalar>, cap: nat)
  {
    && at <= |text| <= Limit(t, Growable) && Utf8.Valid(text[..at]) && Utf8.Valid(text[at..]) && Utf8.Valid(text)
    && (case_.Lower? ==> SIGMA !in Utf8.Decode(text[..at]))
    && PushedCap(t, 0, RoomFor(t, |text|), MapChars(Utf8.Decode(text[..at]), map_)) == Some(cap)
  }

  lemma TextTooLong(t: Target, text: seq<byte>, case_: Case, map_: Utf8.Scalar -> seq<Utf8.Scalar>, full: seq<byte>)
    requires Utf8.Valid(text)
    ensures |text| > Limit(t, Growable) ==> CaseTooLong(t, text, case_, map_, full)
  {
  }

  /** The part written first fits. */
  lemma CaseRoomStarts(t: Target, text: seq<byte>, at: nat, case_: Case, map_: Utf8.Scalar -> seq<Utf8.Scalar>)
    requires at <= |text| <= Limit(t, Growable) && Utf8.Valid(text[..at]) && Utf8.Valid(text[at..]) && Utf8.Valid(text)
    requires |MapText(text[..at], map_)| <= |text| && (case_.Lower? ==> SIGMA !in Utf8.Decode(text[..at]))
    ensures CaseRoom(t, text, at, case_, map_, RoomFor(t, |text|))
  {
    hide Utf8.Valid, Utf8.Decode, Utf8.Encode, MapChars, PushedCap;
    PushedFits(t, 0, RoomFor(t, |text|), MapChars(Utf8.Decode(text[..at]), map_));
  }

  /** One more character is mapped: its pushes succeed, or the conversion is too long. */
  lemma CaseRoomStep(t: Target, text: seq<byte>, at: nat, case_: Case, map_: Utf8.Scalar -> seq<Utf8.Scalar>,
      full: seq<byte>, cap: nat)
    requires CaseRoom(t, text, at, case_, map_, cap) && at < |text|
    ensures Utf8.CharLen(text[at..]) > 0 && at + Utf8.CharLen(text[at..]) <= |text|
    ensures var c := Utf8.DecodeChar(text[at..]);
            var pushed := PushedCap(t, |MapText(text[..at], map_)|, cap, map_(c));
            (case_.Lower? ==> c != SIGMA) ==>
              match pushed
              case Some(room) => CaseRoom(t, text, at + Utf8.CharLen(text[at..]), case_, map_, room)
              case None => CaseTooLong(t, text, case_, map_, full)
  {
    hide Utf8.Valid, Utf8.Decode, Utf8.Encode, Utf8.CharLen, Utf8.DecodeChar, Utf8.EncodeChar, PushedCap, MapChars,
        OneByOne, RoomFor, Limit, CaseTooLong;
    NextChar(text, at);
    var n, c := Utf8.CharLen(text[at..]), Utf8.DecodeChar(text[at..]);
    var front, rest := Utf8.Decode(text[..at]), Utf8.Decode(text[at + n..]);
    assert |MapText(text[..at], map_)| == |Utf8.Encode(MapChars(front, map_))|;
    hide MapText;
    if case_.Lower? ==> c != SIGMA {
      assert Utf8.Decode(text) == front + [c] + rest by { WholeIsParts(text, at + n); }
      PushedMapped(t, RoomFor(t, |text|), front, c, rest, case_, map_, cap);
      match PushedCap(t, |MapText(text[..at], map_)|, cap, map_(c))
      case Some(room) => assert CaseRoom(t, text, at + n, case_, map_, room);
      case None => TooManyPushed(t, text, case_, map_, full);
    }
  }

  lemma TooManyPushed(t: Target, text: seq<byte>, case_: Case, map_: Utf8.Scalar -> seq<Utf8.Scalar>, full: seq<byte>)
    requires Utf8.Valid(text)
    requires PushedCap(t, 0, RoomFor(t, |text|), MapChars(OneByOne(Utf8.Decode(text), case_), map_)).None?
    ensures CaseTooLong(t, text, case_, map_, full)
  {
  }

  lemma PushedMapped(t: Target, cap0: nat, front: seq<Utf8.Scalar>, c: Utf8.Scalar, rest: seq<Utf8.Scalar>, case_: Case,
      map_: Utf8.Scalar -> seq<Utf8.Scalar>, cap: nat)
    requires PushedCap(t, 0, cap0, MapChars(front, map_)) == Some(cap)
    requires case_.Lower? ==> SIGMA !in front && c != SIGMA
    ensures var pushed := PushedCap(t, |Utf8.Encode(MapChars(front, map_))|, cap, map_(c));
            && PushedCap(t, 0, cap0, MapChars(front + [c], map_)) == pushed
            && (pushed.None? ==> PushedCap(t, 0, cap0, MapChars(OneByOne(front + [c] + rest, case_), map_)).None?)
  {
    hide PushedCap, MapChars, OneByOne;
    MapCharsConcat(front, [c], map_);
    MapSingle(c, map_);
    PushedConcat(t, 0, cap0, MapChars(front, map_), map_(c));
    OneByOneStarts(front + [c], rest, case_, map_);
    PushedConcat(t, 0, cap0, MapChars(front + [c], map_), MapChars(OneByOne(rest, case_), map_));
  }

  lemma WholeIsParts(text: seq<byte>, at: nat)
    requires at <= |text| && Utf8.Valid(text[..at]) && Utf8.Valid(text[at..])
    ensures Utf8.Valid(text) && Utf8.Decode(text) == Utf8.Decode(text[..at]) + Utf8.Decode(text[at..])
  {
    hide Utf8.Valid, Utf8.Decode;
    Utf8.ValidConcat(text[..at], text[at..]);
    assert text[..at] + text[at..] == text;
  }

  lemma OneByOneStarts(front: seq<Utf8.Scalar>, rest: seq<Utf8.Scalar>, case_: Case,
      map_: Utf8.Scalar -> seq<Utf8.Scalar>)
    requires case_.Lower? ==> SIGMA !in front
    ensures OneByOne(front + rest, case_) == front + OneByOne(rest, case_)
    ensures MapChars(OneByOne(front + rest, case_), map_)
         == MapChars(front, map_) + MapChars(OneByOne(rest, case_), map_)
  {
    hide BeforeSigma, MapChars;
    if case_.Lower? { BeforeSigmaSplits(front, rest); }
    MapCharsConcat(front, OneByOne(rest, case_), map_);
  }

  /** At a capital sigma to be lowercased, or at the end, only the whole conversion may still be too long. */
  lemma CaseRoomEnds(t: Target, text: seq<byte>, at: nat, case_: Case, map_: Utf8.Scalar -> seq<Utf8.Scalar>,
      full: seq<byte>, cap: nat)
    requires CaseRoom(t, text, at, case_, map_, cap)
    requires at == |text| || (case_.Lower? && Utf8.CharLen(text[at..]) > 0 && Utf8.DecodeChar(text[at..]) == SIGMA)
    ensures CaseTooLong(t, text, case_, map_, full) <==> at < |text| && |full| > Limit(t, Growable)
    ensures !CaseTooLong(t, text, case_, map_, full) ==>
              CaseCapacity(t, text, case_, map_, full) == if at < |text| then RoomFor(t, |full|) else cap
  {
    if at < |text| { NextChar(text, at); CharIn(text, at); } else { assert text[..at] == text && text[at..] == []; }
    WholeIsParts(text, at);
    hide Utf8.Valid, Utf8.CharLen, Utf8.DecodeChar, PushedCap, MapChars, RoomFor, Limit;
    var front, rest := Utf8.Decode(text[..at]), Utf8.Decode(text[at..]);
    OneByOneStarts(front, rest, case_, map_);
    assert OneByOne(rest, case_) == [] && front + [] == front;
  }

  datatype CaseResult = NoChange | New(id: nat) | CaseNoMemory

  lemma FoundChange(text: seq<byte>, map_: Utf8.Scalar -> seq<Utf8.Scalar>, mid: nat)
    requires Utf8.Valid(text) && FirstChange(text, map_, mid)
    ensures mid < |text| && Utf8.Valid(text[..mid]) && Utf8.Valid(text[mid..]) && Scanned(text, map_, mid)
    ensures exists c | c in Utf8.Decode(text) :: CharChanges(map_, c)
  {
    hide Utf8.Valid, Utf8.Decode, Utf8.CharLen, Utf8.DecodeChar, CharChanges;
    ScanStops(text, map_, mid);
  }

  /** The part written before any character is pushed: what precedes the first change as it is, and
      the ASCII run behind it mapped bytewise. */
  lemma FirstPartMapped(text: seq<byte>, map_: Utf8.Scalar -> seq<Utf8.Scalar>, case_: Case, mid: nat, n: nat)
    requires Scanned(text, map_, mid) && mid < |text| && AsciiFacts(map_, case_)
    requires n <= |text[mid..]| && (forall i | 0 <= i < n :: text[mid..][i] < 0x80)
    requires Utf8.Valid(text[mid..][..n]) && Utf8.Valid(text[mid..][n..])
    ensures var at := mid + n; var first := text[..mid] + AsciiMapAll(text[mid..][..n], case_);
            && at <= |text| && Utf8.Valid(text[..at]) && Utf8.Valid(text[at..])
            && MapText(text[..at], map_) == first && Utf8.Valid(first)
            && (CharChanges(map_, SIGMA) ==> SIGMA !in Utf8.Decode(text[..at]))
  {
    var u, a := text[..mid], text[mid..][..n];
    assert Utf8.Valid(u) && forall c | c in Utf8.Decode(u) :: !CharChanges(map_, c);
    hide Utf8.Valid, Utf8.Decode, MapText, AsciiMapAll, CharChanges, Scanned;
    Seams(text, mid, n);
    MapTextUnchanged(u, map_);
    MapTextAscii(a, map_, case_);
    MapTextConcat(u, a, map_);
    Utf8.ValidConcat(u, AsciiMapAll(a, case_));
    Utf8.ValidConcat(u, a);
    AsciiText(a);
    assert SIGMA !in a;
  }

  lemma FirstPartFits(text: seq<byte>, map_: Utf8.Scalar -> seq<Utf8.Scalar>, case_: Case, mid: nat, n: nat)
    requires Scanned(text, map_, mid) && mid < |text| && AsciiFacts(map_, case_)
    requires n <= |text[mid..]| && (forall i | 0 <= i < n :: text[mid..][i] < 0x80)
    requires Utf8.Valid(text[mid..][..n]) && Utf8.Valid(text[mid..][n..])
    ensures var at := mid + n; var kept, ascii := text[..mid], AsciiMapAll(text[mid..][..n], case_);
            && at <= |text| && Utf8.Valid(text[..at]) && Utf8.Valid(text[at..])
            && MapText(text[..at], map_) == kept + ascii && Utf8.Valid(kept + ascii) && |kept| + |ascii| == at
            && (CharChanges(map_, SIGMA) ==> SIGMA !in Utf8.Decode(text[..at]))
  {
    hide Utf8.Valid, Utf8.Decode, MapText, CharChanges, Scanned, AsciiFacts;
    FirstPartMapped(text, map_, case_, mid, n);
  }

  lemma Seams(s: seq<byte>, mid: nat, n: nat)
    requires mid + n <= |s|
    ensures s[..mid + n] == s[..mid] + s[mid..][..n] && s[mid..][n..] == s[mid + n..]
  {
  }

  lemma CharIn(text: seq<byte>, at: nat)
    requires at < |text| && Utf8.Valid(text) && Utf8.Valid(text[..at]) && Utf8.Valid(text[at..])
    ensures Utf8.CharLen(text[at..]) > 0 && Utf8.DecodeChar(text[at..]) in Utf8.Decode(text)
  {
    hide Utf8.Valid, Utf8.Decode, Utf8.CharLen, Utf8.DecodeChar;
    NextChar(text, at);
    var front, c, rest := Utf8.Decode(text[..at]), Utf8.DecodeChar(text[at..]), Utf8.Decode(text[at..]);
    Utf8.ValidConcat(text[..at], text[at..]);
    assert text[..at] + text[at..] == text;
    assert rest[0] == c && (front + rest)[|front|] == c;
  }

  lemma EncodeNext(cs: seq<Utf8.Scalar>, i: nat, text: seq<byte>)
    requires i < |cs|
    ensures text + Utf8.Encode(cs[..i]) + Utf8.EncodeChar(cs[i]) == text + Utf8.Encode(cs[..i + 1])
  {
    hide Utf8.EncodeChar, Utf8.Encode;
    assert cs[..i + 1] == cs[..i] + [cs[i]];
    Utf8.EncodeSnoc(cs[..i], cs[i]);
  }

  /** Mapping ASCII letters keeps a text valid, and may start at the first byte that changes. */
  lemma AsciiMapValid(text: seq<byte>, case_: Case)
    requires Utf8.Valid(text)
    ensures Utf8.Valid(AsciiMapAll(text, case_))
    decreases |text|
  {
    if text != [] {
      var n := Utf8.CharLen(text);
      AsciiMapValid(text[n..], case_);
      AsciiMapCharLen(text, case_);
      assert AsciiMapAll(text, case_)[n..] == AsciiMapAll(text[n..], case_);
    }
  }

  lemma AsciiMapCharLen(text: seq<byte>, case_: Case)
    ensures Utf8.CharLen(AsciiMapAll(text, case_)) == Utf8.CharLen(text)
  {
  }

  lemma AsciiMapSplit(text: seq<byte>, case_: Case, mid: nat)
    requires mid <= |text| && AsciiMapAll(text[..mid], case_) == text[..mid]
    ensures text[..mid] + AsciiMapAll(text[mid..], case_) == AsciiMapAll(text, case_)
  {
    forall i | 0 <= i < mid ensures AsciiMapAll(text, case_)[i] == text[i] {
      assert AsciiMapAll(text[..mid], case_)[i] == text[..mid][i];
    }
  }

  lemma OverwriteData(data: seq<byte>, text: seq<byte>, bytes: seq<byte>)
    requires |bytes| == |text| <= |data|
    ensures Put(data, 0, bytes)[..|bytes|] == bytes
  {
    PutReads(data, 0, bytes);
  }

  /** Overwriting the text with a text of the same length keeps an inline handle inline, and its
      length: the last byte is the old tag, or ends a valid text. */
  lemma OverwrittenMarker(t: Target, data: seq<byte>, d: seq<byte>, bytes: seq<byte>)
    requires |data| == |d| == t.Inline() && |bytes| <= |data|
    requires data[|data| - 1] < HEAP_MARKER && d == Put(data, 0, bytes)
    requires Utf8.Valid(bytes) && InlineLen(t, data) == |bytes|
    ensures d[|d| - 1] < HEAP_MARKER && InlineLen(t, d) == |bytes|
  {
    hide Utf8.Valid;
    if |bytes| == |data| {
      Utf8.LastByteBelowC0(bytes);
    }
  }

  lemma InlineDataLen(t: Target, blocks: Blocks, r: Repr)
    requires r.form.Inline? && Shape(t, blocks, r)
    ensures |DataOf(blocks, r)| == t.Inline() && InlineLen(t, DataOf(blocks, r)) == Len(t, blocks, r)
  {
  }

  lemma DataIsText(t: Target, blocks: Blocks, r: Repr, data: seq<byte>)
    requires Shape(t, blocks, r) && !r.form.Static? && DataOf(blocks, r) == data && |data| == Capacity(t, blocks, r)
    requires var len := Len(t, blocks, r); len <= |data| && Utf8.Valid(data[..len])
    requires r.form.Inline? ==> |data| == t.Inline() && data[t.Inline() - 1] < HEAP_MARKER
    ensures ContentOk(t, blocks, r) && Text(t, blocks, r) == data[..Len(t, blocks, r)]
  {
    hide LenOf, CapOf, Utf8.Valid, InlineLen;
    if r.form.Heap? {
      LenFits(t, blocks, r);
      DropTake(blocks[r.form.base], r.form.off, Len(t, blocks, r));
    }
  }

  // ----- repeat and retain -----

  lemma RepeatedOnce(text: seq<byte>)
    ensures Repeated(text, 1) == text
  {
    assert Repeated(text, 0) == [];
  }

  lemma NothingRemoved(text: seq<byte>, p: Predicate, at: nat, calls: nat)
    requires Utf8.Valid(text) && at == |text| && Utf8.Valid(text[..at]) && Utf8.Valid(text[at..])
    requires Resumes(Utf8.Decode(text), p, Utf8.Decode(text[..at]), false, calls, Utf8.Decode(text[at..]))
    ensures Filter(Utf8.Decode(text), p, 0) == Filtered(Utf8.Decode(text), false, false, calls)
  {
    EndReached(text, at, Utf8.Decode(text), p, Utf8.Decode(text[..at]), calls);
    assert text[..at] == text;
  }

  lemma EndReached(text: seq<byte>, at: nat, cs: seq<Utf8.Scalar>, p: Predicate, front: seq<Utf8.Scalar>, calls: nat)
    requires at == |text| && Utf8.Valid(text[at..])
    ensures forall discards | Resumes(cs, p, front, discards, calls, Utf8.Decode(text[at..])) ::
              Filter(cs, p, 0) == Filtered(front, discards, false, calls)
  {
    assert text[at..] == [] && Utf8.Decode([]) == [];
    hide Utf8.Decode, Utf8.Valid, Resumes;
    forall discards | Resumes(cs, p, front, discards, calls, Utf8.Decode(text[at..]))
      ensures Filter(cs, p, 0) == Filtered(front, discards, false, calls)
    {
      ResumeEnd(cs, p, front, discards, calls);
    }
  }

  lemma Unread(data0: seq<byte>, text: seq<byte>, data: seq<byte>, src: nat, dst: nat, kept: seq<Utf8.Scalar>)
    requires HalfFiltered(data0, text, data, src, dst, kept)
    ensures |text| <= |data| == |data0| && data[src..|text|] == text[src..]
  {
  }
}
