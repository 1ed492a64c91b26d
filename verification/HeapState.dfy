/** The shared heap as a value: live allocations (each a sequence of bytes holding header and data)
    and the handles pointing into them, with the invariant every operation keeps. */
module HeapState {
  import opened Bytes
  import opened Layout
  import Utf8

  /** The three storage forms of a `Repr`. */
  datatype Form =
    | Inline(buf: seq<byte>)
    | Static(text: seq<byte>, len: nat)
    | Heap(base: nat, off: nat, tl: TextLen)  // `ptr` is byte `off` of allocation `base`

  datatype Repr = Repr(kind: Kind, form: Form)

  type Blocks = map<nat, seq<byte>>
  type Handles = map<nat, Repr>
  datatype State = State(blocks: Blocks, handles: Handles)

  // ----- inline buffers -----

  const MASK := 0xC0
  const HEAP_MARKER := 0xD0
  const STATIC_MARKER := 0xD1

  /** The inline length `Repr::len` computes from the last byte: a wrapping subtraction, then a
      minimum. */
  function InlineLen(t: Target, buf: seq<byte>): (n: nat)
    requires |buf| == t.Inline()
    ensures n <= t.Inline()
  {
    var last := buf[t.Inline() - 1];
    var d := if last < MASK then t.Radix() + last - MASK else last - MASK;
    if t.Inline() < d then t.Inline() else d
  }

  /** The bytes of `InlineBuffer::new(text)`: the text, zeros, and the tag unless the text is full. */
  function InlineOf(t: Target, text: seq<byte>): (buf: seq<byte>)
    requires |text| <= t.Inline()
    ensures |buf| == t.Inline()
  {
    if |text| == t.Inline() then text
    else text + seq(t.Inline() - 1 - |text|, _ => 0) + [MASK + |text|]
  }

  // ----- reading an allocation -----

  /** Offset of the reference count. */
  function CountAt(t: Target, k: Kind, off: nat): nat
    requires off >= Header(t, k)
  {
    off - Header(t, k)
  }

  function CountOf(t: Target, k: Kind, mem: seq<byte>, off: nat): nat
    requires Header(t, k) <= off <= |mem|
  {
    FromLe(mem[off - Header(t, k)..off - Header(t, k) + t.W()])
  }

  /** The capacity word of a growable header, just in front of the data. */
  function CapOf(t: Target, mem: seq<byte>, off: nat): nat
    requires Header(t, Growable) <= off <= |mem|
  {
    FromLe(mem[off - t.W()..off])
  }

  predicate Readable(t: Target, k: Kind, mem: seq<byte>, off: nat, tl: TextLen) {
    Header(t, k) <= off <= |mem| && (tl.OnHeap? ==> Header(t, k) + t.W() <= off)
  }

  function LenOf(t: Target, k: Kind, mem: seq<byte>, off: nat, tl: TextLen): nat
    requires Readable(t, k, mem, off, tl)
  {
    match tl
    case InHandle(n) => n
    case OnHeap => FromLe(mem[off - Header(t, k) - t.W()..off - Header(t, k)])
  }

  /** Capacity as the header or, for exact buffers, the length records it. */
  function HeapCap(t: Target, k: Kind, mem: seq<byte>, off: nat, tl: TextLen): nat
    requires Readable(t, k, mem, off, tl)
  {
    if k.Growable? then CapOf(t, mem, off) else LenOf(t, k, mem, off, tl)
  }

  /** Whether `allocation()` finds a length word in front of the header. */
  predicate HasLenPrefix(t: Target, k: Kind, mem: seq<byte>, off: nat, tl: TextLen)
    requires Readable(t, k, mem, off, tl)
  {
    if k.Growable? then LenHeapLayout(t, CapOf(t, mem, off)) else tl.OnHeap?
  }

  /** Offset of the pointer `allocation()` computes; the base exactly when it is 0. */
  function AllocationOffset(t: Target, k: Kind, mem: seq<byte>, off: nat, tl: TextLen): int
    requires Readable(t, k, mem, off, tl)
  {
    off - Header(t, k) - (if HasLenPrefix(t, k, mem, off, tl) then t.W() else 0)
  }

  /** Size of the layout `alloc_layout()` recomputes. */
  function AllocLayout(t: Target, k: Kind, mem: seq<byte>, off: nat, tl: TextLen): Option<nat>
    requires Readable(t, k, mem, off, tl)
  {
    LayoutFor(t, k, HeapCap(t, k, mem, off, tl))
  }

  /** Header, capacity and length of one buffer are consistent with the bytes really allocated. */
  predicate BufferOk(t: Target, k: Kind, mem: seq<byte>, off: nat, tl: TextLen) {
    && Readable(t, k, mem, off, tl)
    && var cap := HeapCap(t, k, mem, off, tl);
    && var len := LenOf(t, k, mem, off, tl);
    && t.Inline() < cap <= CapMax(t)
    && AllocLayout(t, k, mem, off, tl) == Some(|mem|)
    && off == Prefix(t, cap) + Header(t, k)
    && len <= cap
    && NewTextLen(t, len) == Some(tl)
  }

  // ----- handles -----

  predicate Shape(t: Target, blocks: Blocks, r: Repr) {
    match r.form
    case Inline(buf) => |buf| == t.Inline()
    case Static(text, len) => len <= |text| <= StaticMax(t)
    case Heap(base, off, tl) => base in blocks && BufferOk(t, r.kind, blocks[base], off, tl)
  }

  /** `Repr::len`. */
  function Len(t: Target, blocks: Blocks, r: Repr): nat
    requires Shape(t, blocks, r)
  {
    match r.form
    case Inline(buf) => InlineLen(t, buf)
    case Static(_, len) => len
    case Heap(base, off, tl) => LenOf(t, r.kind, blocks[base], off, tl)
  }

  function Text(t: Target, blocks: Blocks, r: Repr): seq<byte>
    requires Shape(t, blocks, r)
  {
    match r.form
    case Inline(buf) => buf[..InlineLen(t, buf)]
    case Static(text, len) => text[..len]
    case Heap(base, off, tl) =>
      var mem := blocks[base];
      LayoutAccepts(t, r.kind, HeapCap(t, r.kind, mem, off, tl));
      mem[off..off + LenOf(t, r.kind, mem, off, tl)]
  }

  function Capacity(t: Target, blocks: Blocks, r: Repr): nat
    requires Shape(t, blocks, r)
  {
    match r.form
    case Inline(_) => t.Inline()
    case Static(_, len) => len
    case Heap(base, off, tl) => HeapCap(t, r.kind, blocks[base], off, tl)
  }

  predicate PointsTo(r: Repr, b: nat) { r.form.Heap? && r.form.base == b }

  function Owners(handles: Handles, b: nat): set<nat> {
    set i | i in handles && PointsTo(handles[i], b)
  }

  /** Handles sharing an allocation see the same header, and either all read their length from the
      allocation or all carry it. */
  predicate Agree(x: Repr, y: Repr) {
    x.form.Heap? && y.form.Heap? && x.form.base == y.form.base ==>
      x.kind == y.kind && x.form.off == y.form.off && x.form.tl.OnHeap? == y.form.tl.OnHeap?
  }

  predicate Shapes(t: Target, s: State) {
    forall i | i in s.handles :: Shape(t, s.blocks, s.handles[i])
  }

  predicate Agreement(handles: Handles) {
    forall i, j | i in handles && j in handles :: Agree(handles[i], handles[j])
  }

  predicate NoLeak(t: Target, s: State) {
    forall b | b in s.blocks :: 1 <= |Owners(s.handles, b)| <= t.IsizeMax() + 1
  }

  /** The count stored in the allocation `r` points into is `n`. */
  predicate CountIs(t: Target, blocks: Blocks, r: Repr, n: nat) {
    r.form.Heap? ==>
      && r.form.base in blocks
      && Readable(t, r.kind, blocks[r.form.base], r.form.off, r.form.tl)
      && CountOf(t, r.kind, blocks[r.form.base], r.form.off) == n
  }

  predicate Counts(t: Target, s: State) {
    forall i | i in s.handles ::
      s.handles[i].form.Heap? ==> CountIs(t, s.blocks, s.handles[i], |Owners(s.handles, s.handles[i].form.base)|)
  }

  /** Structure: consistent buffers, agreeing sharers, and for every live allocation a count equal to
      the number of handles on it, never zero. */
  predicate WF(t: Target, s: State) {
    Shapes(t, s) && Agreement(s.handles) && NoLeak(t, s) && Counts(t, s)
  }

  /** `r` decodes as the form it is and holds valid UTF-8. */
  predicate ContentOk(t: Target, blocks: Blocks, r: Repr) {
    && Shape(t, blocks, r)
    && Utf8.Valid(Text(t, blocks, r))
    && (r.form.Inline? ==> r.form.buf[t.Inline() - 1] < HEAP_MARKER)
  }

  predicate Ok(t: Target, s: State) {
    WF(t, s) && forall i | i in s.handles :: ContentOk(t, s.blocks, s.handles[i])
  }

  /** Every handle outside `except` is as it was: same words, same text, same capacity. */
  predicate Frame(t: Target, s: State, s': State, except: set<nat>) {
    forall i | i in s.handles && i !in except ::
      && i in s'.handles && s'.handles[i] == s.handles[i]
      && SameView(t, s.blocks, s'.blocks, s.handles[i])
  }

  predicate SameView(t: Target, b: Blocks, b': Blocks, r: Repr) {
    Shape(t, b, r) ==>
      Shape(t, b', r) && Text(t, b', r) == Text(t, b, r) && Capacity(t, b', r) == Capacity(t, b, r)
  }

  // ----- sets of owners -----

  lemma SingleOwner(handles: Handles, b: nat, id: nat)
    requires id in Owners(handles, b) && |Owners(handles, b)| == 1
    ensures Owners(handles, b) == {id}
  {
    var o := Owners(handles, b);
    assert |o - {id}| == 0;
    assert o == {id} + (o - {id});
  }

  lemma OwnersWithout(handles: Handles, id: nat, b: nat)
    ensures Owners(handles - {id}, b) == Owners(handles, b) - {id}
  {
  }

  lemma OwnersWith(handles: Handles, id: nat, r: Repr, b: nat)
    requires id !in handles
    ensures Owners(handles[id := r], b) == Owners(handles, b) + (if PointsTo(r, b) then {id} else {})
  {
  }

  lemma {:induction false} MapReplace<T>(m: map<nat, T>, k: nat, v: T)
    ensures (m - {k})[k := v] == m[k := v]
  {
  }

  // ----- transitions -----

  /** A handle without an allocation arrives. */
  lemma AddPlain(t: Target, s: State, id: nat, r: Repr)
    requires WF(t, s) && id !in s.handles && !r.form.Heap? && Shape(t, s.blocks, r)
    ensures WF(t, State(s.blocks, s.handles[id := r]))
    ensures Frame(t, s, State(s.blocks, s.handles[id := r]), {id})
  {
    hide Shape, CountIs, Text, Capacity, Owners;
    forall b ensures Owners(s.handles[id := r], b) == Owners(s.handles, b) { OwnersWith(s.handles, id, r, b); }
  }

  lemma RemovePlain(t: Target, s: State, id: nat)
    requires WF(t, s) && id in s.handles && !s.handles[id].form.Heap?
    ensures WF(t, State(s.blocks, s.handles - {id}))
    ensures Frame(t, s, State(s.blocks, s.handles - {id}), {id})
  {
    hide Shape, CountIs, Text, Capacity, Owners;
    forall b ensures Owners(s.handles - {id}, b) == Owners(s.handles, b) {
      OwnersWithout(s.handles, id, b);
      NotOwner(s.handles, id, b);
    }
  }

  lemma NotOwner(handles: Handles, id: nat, b: nat)
    requires id in handles && !PointsTo(handles[id], b)
    ensures id !in Owners(handles, b)
  {
  }

  /** What a handle reads depends only on its own allocation. */
  lemma OtherBlock(t: Target, b: Blocks, b': Blocks, r: Repr, n: nat)
    requires r.form.Heap? ==>
               (r.form.base in b <==> r.form.base in b') && (r.form.base in b ==> b[r.form.base] == b'[r.form.base])
    ensures Shape(t, b, r) <==> Shape(t, b', r)
    ensures CountIs(t, b, r, n) <==> CountIs(t, b', r, n)
    ensures SameView(t, b, b', r)
  {
    hide BufferOk, HeapCap, LenOf, CountOf, InlineLen;
  }

  /** Everything about the handles that do not point to `b0` survives a change of `b0`. */
  lemma OthersKept(t: Target, s: State, s': State, id: nat, b0: nat)
    requires Shapes(t, s) && Counts(t, s)
    requires forall i | i in s'.handles && i != id ::
               i in s.handles && s'.handles[i] == s.handles[i] && !PointsTo(s'.handles[i], b0)
    requires forall b | b != b0 ::
               (b in s.blocks <==> b in s'.blocks) && (b in s.blocks ==> s.blocks[b] == s'.blocks[b])
    requires forall b | b != b0 :: Owners(s'.handles, b) == Owners(s.handles, b)
    ensures forall i | i in s'.handles && i != id ::
              && Shape(t, s'.blocks, s'.handles[i])
              && (s'.handles[i].form.Heap? ==>
                    CountIs(t, s'.blocks, s'.handles[i], |Owners(s'.handles, s'.handles[i].form.base)|))
              && SameView(t, s.blocks, s'.blocks, s'.handles[i])
  {
    hide Shape, CountIs, SameView, Owners;
    forall i | i in s'.handles && i != id
      ensures Shape(t, s'.blocks, s'.handles[i])
      ensures s'.handles[i].form.Heap? ==>
                CountIs(t, s'.blocks, s'.handles[i], |Owners(s'.handles, s'.handles[i].form.base)|)
      ensures SameView(t, s.blocks, s'.blocks, s'.handles[i])
    {
      var r := s'.handles[i];
      if r.form.Heap? {
        OtherBlock(t, s.blocks, s'.blocks, r, |Owners(s.handles, r.form.base)|);
      } else {
        OtherBlock(t, s.blocks, s'.blocks, r, 0);
      }
    }
  }

  /** The first handle on a new allocation. */
  lemma AddUnique(t: Target, s: State, id: nat, r: Repr, mem: seq<byte>)
    requires WF(t, s) && id !in s.handles
    requires r.form.Heap? && r.form.base !in s.blocks
    requires BufferOk(t, r.kind, mem, r.form.off, r.form.tl)
    requires Readable(t, r.kind, mem, r.form.off, r.form.tl) && CountOf(t, r.kind, mem, r.form.off) == 1
    ensures var s' := State(s.blocks[r.form.base := mem], s.handles[id := r]);
            WF(t, s') && Frame(t, s, s', {id})
  {
    hide BufferOk, CountOf, Readable, SameView, Owners;
    var b0 := r.form.base;
    var s' := State(s.blocks[b0 := mem], s.handles[id := r]);
    NobodyPointsTo(t, s, b0);
    forall b ensures Owners(s'.handles, b) == if b == b0 then {id} else Owners(s.handles, b) {
      OwnersWith(s.handles, id, r, b);
    }
    OthersKept(t, s, s', id, b0);
    hide Shape, CountIs;
    assert Shape(t, s'.blocks, r) && CountIs(t, s'.blocks, r, 1) by { NewBuffer(t, s'.blocks, r); }
  }

  lemma NewBuffer(t: Target, blocks: Blocks, r: Repr)
    requires r.form.Heap? && r.form.base in blocks
    requires BufferOk(t, r.kind, blocks[r.form.base], r.form.off, r.form.tl)
    ensures Shape(t, blocks, r)
    ensures Readable(t, r.kind, blocks[r.form.base], r.form.off, r.form.tl)
    ensures CountIs(t, blocks, r, CountOf(t, r.kind, blocks[r.form.base], r.form.off))
  {
  }

  lemma NobodyPointsTo(t: Target, s: State, b: nat)
    requires WF(t, s) && b !in s.blocks
    ensures forall i | i in s.handles :: !PointsTo(s.handles[i], b)
    ensures Owners(s.handles, b) == {}
  {
    hide BufferOk;
    forall i | i in s.handles ensures !PointsTo(s.handles[i], b) {
      assert Shape(t, s.blocks, s.handles[i]);
    }
  }

  /** The only handle on an allocation goes, and the allocation with it. */
  lemma RemoveLast(t: Target, s: State, id: nat)
    requires WF(t, s) && id in s.handles && s.handles[id].form.Heap?
    requires Owners(s.handles, s.handles[id].form.base) == {id}
    ensures var s' := State(s.blocks - {s.handles[id].form.base}, s.handles - {id});
            WF(t, s') && Frame(t, s, s', {id})
  {
    hide Shape, CountIs, SameView, Owners;
    var b0 := s.handles[id].form.base;
    var s' := State(s.blocks - {b0}, s.handles - {id});
    OnlyOwner(s.handles, id, b0);
    forall b | b != b0 ensures Owners(s'.handles, b) == Owners(s.handles, b) {
      OwnersWithout(s.handles, id, b);
      NotOwner(s.handles, id, b);
    }
    OthersKept(t, s, s', id, b0);
  }

  lemma OnlyOwner(handles: Handles, id: nat, b: nat)
    requires Owners(handles, b) == {id}
    ensures forall i | i in handles && i != id :: !PointsTo(handles[i], b)
  {
    forall i | i in handles && i != id ensures !PointsTo(handles[i], b) {
      assert i !in Owners(handles, b);
    }
  }

  /** `mem'` is `mem` with another count of `n` in the header in front of `off`. */
  predicate OnlyCountChanged(t: Target, k: Kind, mem: seq<byte>, mem': seq<byte>, off: nat, n: nat) {
    && Header(t, k) <= off <= |mem| == |mem'|
    && mem'[..CountAt(t, k, off)] == mem[..CountAt(t, k, off)]
    && mem'[CountAt(t, k, off) + t.W()..] == mem[CountAt(t, k, off) + t.W()..]
    && CountOf(t, k, mem', off) == n
  }

  lemma SameTail(a: seq<byte>, b: seq<byte>, n: nat, i: nat, j: nat)
    requires n <= |a| == |b| && a[n..] == b[n..] && n <= i <= j <= |a|
    ensures a[i..j] == b[i..j]
  {
    forall k | i <= k < j ensures a[k] == b[k] {
      assert a[k] == a[n..][k - n] && b[k] == b[n..][k - n];
    }
  }

  lemma SameFront(a: seq<byte>, b: seq<byte>, n: nat, i: nat, j: nat)
    requires n <= |a| == |b| && a[..n] == b[..n] && i <= j <= n
    ensures a[i..j] == b[i..j]
  {
    assert a[i..j] == a[..n][i..j];
    assert b[i..j] == b[..n][i..j];
  }

  /** A change of the count leaves every other reading as it was. */
  lemma CountInvisible(t: Target, k: Kind, mem: seq<byte>, mem': seq<byte>, off: nat, n: nat, tl: TextLen)
    requires OnlyCountChanged(t, k, mem, mem', off, n)
    requires BufferOk(t, k, mem, off, tl)
    ensures BufferOk(t, k, mem', off, tl)
    ensures HeapCap(t, k, mem', off, tl) == HeapCap(t, k, mem, off, tl)
    ensures LenOf(t, k, mem', off, tl) == LenOf(t, k, mem, off, tl)
    ensures off + LenOf(t, k, mem, off, tl) <= |mem|
    ensures mem'[off..off + LenOf(t, k, mem, off, tl)] == mem[off..off + LenOf(t, k, mem, off, tl)]
  {
    hide LayoutFor;
    var at := CountAt(t, k, off);
    if k.Growable? { SameTail(mem, mem', at + t.W(), off - t.W(), off); }
    if tl.OnHeap? { SameFront(mem, mem', at, at - t.W(), at); }
    LayoutAccepts(t, k, HeapCap(t, k, mem, off, tl));
    SameTail(mem, mem', at + t.W(), off, off + LenOf(t, k, mem, off, tl));
  }

  lemma CountInvisibleToHandle(t: Target, b: Blocks, b': Blocks, r: Repr, n: nat)
    requires r.form.Heap? && r.form.base in b && r.form.base in b' && Shape(t, b, r)
    requires OnlyCountChanged(t, r.kind, b[r.form.base], b'[r.form.base], r.form.off, n)
    ensures Shape(t, b', r) && SameView(t, b, b', r) && CountIs(t, b', r, n)
  {
    hide BufferOk, OnlyCountChanged, CountOf, LenOf, HeapCap;
    CountInvisible(t, r.kind, b[r.form.base], b'[r.form.base], r.form.off, n, r.form.tl);
    CountChangedIs(t, b', r, b[r.form.base], n);
    LenFits(t, b', r);
  }

  lemma LenFits(t: Target, b: Blocks, r: Repr)
    requires r.form.Heap? && Shape(t, b, r)
    ensures Readable(t, r.kind, b[r.form.base], r.form.off, r.form.tl)
    ensures r.form.off + LenOf(t, r.kind, b[r.form.base], r.form.off, r.form.tl) <= |b[r.form.base]|
  {
    LayoutAccepts(t, r.kind, HeapCap(t, r.kind, b[r.form.base], r.form.off, r.form.tl));
  }

  lemma CountChangedIs(t: Target, b': Blocks, r: Repr, mem: seq<byte>, n: nat)
    requires r.form.Heap? && r.form.base in b' && BufferOk(t, r.kind, b'[r.form.base], r.form.off, r.form.tl)
    requires OnlyCountChanged(t, r.kind, mem, b'[r.form.base], r.form.off, n)
    ensures CountIs(t, b', r, n)
  {
  }

  /** Handles on `b0` see only the new count; handles elsewhere see nothing. */
  lemma SharersKept(t: Target, s: State, s': State, id: nat, b0: nat, k: Kind, off: nat, n: nat)
    requires Shapes(t, s) && Counts(t, s) && b0 in s.blocks && b0 in s'.blocks
    requires forall i | i in s'.handles && i != id :: i in s.handles && s'.handles[i] == s.handles[i]
    requires forall i | i in s'.handles && i != id && PointsTo(s'.handles[i], b0) ::
               s'.handles[i].kind == k && s'.handles[i].form.off == off
    requires forall b | b != b0 ::
               (b in s.blocks <==> b in s'.blocks) && (b in s.blocks ==> s.blocks[b] == s'.blocks[b])
    requires forall b | b != b0 :: Owners(s'.handles, b) == Owners(s.handles, b)
    requires OnlyCountChanged(t, k, s.blocks[b0], s'.blocks[b0], off, n) && |Owners(s'.handles, b0)| == n
    ensures forall i | i in s'.handles && i != id ::
              && Shape(t, s'.blocks, s'.handles[i])
              && (s'.handles[i].form.Heap? ==>
                    CountIs(t, s'.blocks, s'.handles[i], |Owners(s'.handles, s'.handles[i].form.base)|))
              && SameView(t, s.blocks, s'.blocks, s'.handles[i])
  {
    hide Shape, CountIs, SameView, Owners, OnlyCountChanged;
    forall i | i in s'.handles && i != id
      ensures Shape(t, s'.blocks, s'.handles[i])
      ensures s'.handles[i].form.Heap? ==>
                CountIs(t, s'.blocks, s'.handles[i], |Owners(s'.handles, s'.handles[i].form.base)|)
      ensures SameView(t, s.blocks, s'.blocks, s'.handles[i])
    {
      var r := s'.handles[i];
      if PointsTo(r, b0) {
        CountInvisibleToHandle(t, s.blocks, s'.blocks, r, n);
      } else if r.form.Heap? {
        OtherBlock(t, s.blocks, s'.blocks, r, |Owners(s.handles, r.form.base)|);
      } else {
        OtherBlock(t, s.blocks, s'.blocks, r, 0);
      }
    }
  }

  lemma SharersAgree(handles: Handles, id: nat)
    requires Agreement(handles) && id in handles && handles[id].form.Heap?
    ensures forall i | i in handles && PointsTo(handles[i], handles[id].form.base) ::
              handles[i].kind == handles[id].kind && handles[i].form.off == handles[id].form.off
  {
    forall i | i in handles && PointsTo(handles[i], handles[id].form.base)
      ensures handles[i].kind == handles[id].kind && handles[i].form.off == handles[id].form.off
    {
      assert Agree(handles[i], handles[id]);
    }
  }

  lemma SubAgreement(handles: Handles, handles': Handles, src: nat)
    requires Agreement(handles) && src in handles
    requires forall i | i in handles' :: (i in handles && handles'[i] == handles[i]) || handles'[i] == handles[src]
    ensures Agreement(handles')
  {
    forall i, j | i in handles' && j in handles'
      ensures Agree(handles'[i], handles'[j])
    {
      var i0 := if i in handles && handles'[i] == handles[i] then i else src;
      var j0 := if j in handles && handles'[j] == handles[j] then j else src;
      assert Agree(handles[i0], handles[j0]);
    }
  }

  /** One of several handles on an allocation goes, counting down. */
  lemma RemoveShared(t: Target, s: State, id: nat, mem: seq<byte>)
    requires WF(t, s) && id in s.handles && s.handles[id].form.Heap? && s.handles[id].form.base in s.blocks
    requires var r := s.handles[id]; var n := |Owners(s.handles, r.form.base)|;
             n > 1 && OnlyCountChanged(t, r.kind, s.blocks[r.form.base], mem, r.form.off, n - 1)
    ensures var s' := State(s.blocks[s.handles[id].form.base := mem], s.handles - {id});
            WF(t, s') && Frame(t, s, s', {id})
  {
    hide Shape, CountIs, SameView, Owners, OnlyCountChanged, Agreement;
    var r := s.handles[id];
    var b0 := r.form.base;
    var s' := State(s.blocks[b0 := mem], s.handles - {id});
    OwnersAfterRemove(s.handles, id);
    SharersAgree(s.handles, id);
    SubAgreement(s.handles, s'.handles, id);
    SharersKept(t, s, s', id, b0, r.kind, r.form.off, |Owners(s.handles, b0)| - 1);
  }

  lemma OwnersAfterRemove(handles: Handles, id: nat)
    requires id in handles && handles[id].form.Heap?
    ensures var b0 := handles[id].form.base;
            && |Owners(handles - {id}, b0)| == |Owners(handles, b0)| - 1
            && forall b | b != b0 :: Owners(handles - {id}, b) == Owners(handles, b)
  {
    forall b { OwnersWithout(handles, id, b); }
  }

  /** A clone joins the handles on an allocation, counting up. */
  lemma AddShared(t: Target, s: State, src: nat, id: nat, mem: seq<byte>)
    requires WF(t, s) && src in s.handles && id !in s.handles
    requires s.handles[src].form.Heap? && s.handles[src].form.base in s.blocks
    requires var r := s.handles[src]; var n := |Owners(s.handles, r.form.base)|;
             n <= t.IsizeMax() && OnlyCountChanged(t, r.kind, s.blocks[r.form.base], mem, r.form.off, n + 1)
    ensures var s' := State(s.blocks[s.handles[src].form.base := mem], s.handles[id := s.handles[src]]);
            && WF(t, s') && Frame(t, s, s', {id})
            && SameView(t, s.blocks, s'.blocks, s.handles[src])
  {
    hide Shape, CountIs, SameView, Owners, OnlyCountChanged, Agreement;
    var r := s.handles[src];
    var b0 := r.form.base;
    var s' := State(s.blocks[b0 := mem], s.handles[id := r]);
    OwnersAfterClone(s.handles, src, id);
    SharersAgree(s.handles, src);
    SubAgreement(s.handles, s'.handles, src);
    var n := |Owners(s.handles, b0)| + 1;
    SharersKept(t, s, s', id, b0, r.kind, r.form.off, n);
    CountInvisibleToHandle(t, s.blocks, s'.blocks, r, n);
  }

  lemma OwnersAfterClone(handles: Handles, src: nat, id: nat)
    requires src in handles && handles[src].form.Heap? && id !in handles
    ensures var b0 := handles[src].form.base;
            && |Owners(handles[id := handles[src]], b0)| == |Owners(handles, b0)| + 1
            && forall b | b != b0 :: Owners(handles[id := handles[src]], b) == Owners(handles, b)
  {
    forall b { OwnersWith(handles, id, handles[src], b); }
  }

  /** A handle changes only the length it carries. */
  lemma Retarget(t: Target, s: State, id: nat, r: Repr)
    requires WF(t, s) && id in s.handles && Shape(t, s.blocks, r)
    requires var q := s.handles[id];
             && q.form.Heap? && r.form.Heap? && r.kind == q.kind
             && r.form.base == q.form.base && r.form.off == q.form.off && r.form.tl.OnHeap? == q.form.tl.OnHeap?
    ensures var s' := State(s.blocks, s.handles[id := r]);
            WF(t, s') && Frame(t, s, s', {id})
  {
    hide Shape, CountOf, LenOf, SameView, Owners;
    var s' := State(s.blocks, s.handles[id := r]);
    forall b ensures Owners(s'.handles, b) == Owners(s.handles, b) { OwnersRetarget(s.handles, id, r, b); }
    forall i | i in s.handles ensures SameView(t, s.blocks, s.blocks, s.handles[i]) {
      ViewRefl(t, s.blocks, s.handles[i]);
    }
  }

  lemma ViewRefl(t: Target, b: Blocks, r: Repr)
    ensures SameView(t, b, b, r)
  {
  }

  lemma OwnersRetarget(handles: Handles, id: nat, r: Repr, b: nat)
    requires id in handles && handles[id].form.Heap? && r.form.Heap? && r.form.base == handles[id].form.base
    ensures Owners(handles[id := r], b) == Owners(handles, b)
  {
  }

  /** Moving a value from one variable to another: `tmp` becomes `id`. */
  lemma MoveHandle(t: Target, s: State, tmp: nat, id: nat)
    requires WF(t, s) && tmp in s.handles && id !in s.handles
    ensures var s' := State(s.blocks, (s.handles - {tmp})[id := s.handles[tmp]]);
            WF(t, s') && Frame(t, s, s', {tmp, id})
  {
    hide Shape, SameView, Owners, CountOf;
    var s' := State(s.blocks, (s.handles - {tmp})[id := s.handles[tmp]]);
    forall b ensures |Owners(s'.handles, b)| == |Owners(s.handles, b)| { OwnersMoved(s.handles, tmp, id, b); }
    forall i | i in s.handles ensures SameView(t, s.blocks, s.blocks, s.handles[i]) {
      ViewRefl(t, s.blocks, s.handles[i]);
    }
  }

  lemma OwnersMoved(handles: Handles, tmp: nat, id: nat, b: nat)
    requires tmp in handles && id !in handles
    ensures |Owners((handles - {tmp})[id := handles[tmp]], b)| == |Owners(handles, b)|
  {
    var o, o' := Owners(handles, b), Owners((handles - {tmp})[id := handles[tmp]], b);
    assert o' == o - {tmp} + (if tmp in o then {id} else {});
  }

  /** Nothing is left allocated once every handle is gone. */
  lemma NoHandlesNoBlocks(t: Target, s: State)
    requires WF(t, s) && s.handles == map[]
    ensures s.blocks == map[]
  {
    assert forall b :: Owners(s.handles, b) == {};
    assert s.blocks.Keys == {};
  }

  /** Handles on one allocation: if the length is in the allocation they read the same text; if they carry
      it, the shorter text is the front of the longer one. */
  lemma SharersReadPrefixes(t: Target, s: State, i: nat, j: nat)
    requires WF(t, s) && i in s.handles && j in s.handles
    requires s.handles[i].form.Heap? && s.handles[j].form.Heap? && s.handles[i].form.base == s.handles[j].form.base
    requires Shape(t, s.blocks, s.handles[i]) && Shape(t, s.blocks, s.handles[j])
    ensures s.handles[i].form.tl.OnHeap? <==> s.handles[j].form.tl.OnHeap?
    ensures var x, y := Text(t, s.blocks, s.handles[i]), Text(t, s.blocks, s.handles[j]);
            && (s.handles[i].form.tl.OnHeap? ==> x == y)
            && (|x| <= |y| ==> x == y[..|x|])
            && Capacity(t, s.blocks, s.handles[i]) == Capacity(t, s.blocks, s.handles[j])
  {
    assert Agree(s.handles[i], s.handles[j]);
    hide WF, Shape, Text, Capacity;
    SharedReads(t, s.blocks, s.handles[i], s.handles[j]);
  }

  lemma SharedReads(t: Target, blocks: Blocks, p: Repr, q: Repr)
    requires p.form.Heap? && q.form.Heap? && p.form.base == q.form.base
    requires p.form.off == q.form.off && p.kind == q.kind
    requires p.form.tl.OnHeap? == q.form.tl.OnHeap? && Shape(t, blocks, p) && Shape(t, blocks, q)
    ensures var x, y := Text(t, blocks, p), Text(t, blocks, q);
            && (p.form.tl.OnHeap? ==> x == y)
            && (|x| <= |y| ==> x == y[..|x|])
            && Capacity(t, blocks, p) == Capacity(t, blocks, q)
  {
    hide FromLe;
    var mem := blocks[p.form.base];
    LayoutAccepts(t, p.kind, HeapCap(t, p.kind, mem, p.form.off, p.form.tl));
    LayoutAccepts(t, q.kind, HeapCap(t, q.kind, mem, q.form.off, q.form.tl));
    hide LayoutFor;
    TakeSlices(mem, p.form.off, LenOf(t, p.kind, mem, p.form.off, p.form.tl),
        LenOf(t, q.kind, mem, q.form.off, q.form.tl));
  }

  lemma TakeSlices(mem: seq<byte>, off: nat, m: nat, n: nat)
    requires off + m <= |mem| && off + n <= |mem|
    ensures m <= n ==> mem[off..off + m] == mem[off..off + n][..m]
  {
  }
}
