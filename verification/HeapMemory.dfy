/** Writes to one allocation: headers, length slots and data, and what can be read afterwards. */
module HeapMemory {
  import opened Bytes
  import opened Layout
  import opened HeapState

  /** `ptr::write(allocation, H::new(capacity))`: a count of one and, for growable buffers, the
      capacity. */
  function WriteHeader(t: Target, k: Kind, mem: seq<byte>, at: nat, cap: nat): (m: seq<byte>)
    requires at + Header(t, k) <= |mem|
    ensures |m| == |mem|
  {
    var counted := Put(mem, at, Le(1, t.W()));
    if k.Growable? then Put(counted, at + t.W(), Le(cap, t.W())) else counted
  }

  /** Writes the length word in front of the header at `off - Header`. */
  function WriteSlot(t: Target, k: Kind, mem: seq<byte>, off: nat, len: nat): (m: seq<byte>)
    requires Header(t, k) + t.W() <= off <= |mem|
    ensures |m| == |mem|
  {
    Put(mem, off - Header(t, k) - t.W(), Le(len, t.W()))
  }

  lemma PutReads(mem: seq<byte>, at: nat, s: seq<byte>)
    requires at + |s| <= |mem|
    ensures Put(mem, at, s)[..at] == mem[..at]
    ensures Put(mem, at, s)[at + |s|..] == mem[at + |s|..]
    ensures Put(mem, at, s)[at..at + |s|] == s
  {
  }

  lemma HeaderReads(t: Target, k: Kind, mem: seq<byte>, at: nat, cap: nat)
    requires at + Header(t, k) <= |mem| && cap < t.Radix()
    ensures var m := WriteHeader(t, k, mem, at, cap);
            && m[..at] == mem[..at] && m[at + Header(t, k)..] == mem[at + Header(t, k)..]
            && CountOf(t, k, m, at + Header(t, k)) == 1
            && (k.Growable? ==> CapOf(t, m, at + Header(t, k)) == cap)
  {
    hide Put, Le, FromLe;
    var counted := Put(mem, at, Le(1, t.W()));
    PutReads(mem, at, Le(1, t.W()));
    WordRoundTrip(t, 1);
    WordRoundTrip(t, cap);
    if k.Growable? {
      var m := Put(counted, at + t.W(), Le(cap, t.W()));
      PutReads(counted, at + t.W(), Le(cap, t.W()));
      SameFront(m, counted, at + t.W(), 0, at);
      SameFront(m, counted, at + t.W(), at, at + t.W());
      assert m[..at] == m[0..at] && counted[..at] == counted[0..at];
      SameTail(counted, mem, at + t.W(), at + 2 * t.W(), |mem|);
      assert counted[at + 2 * t.W()..] == counted[at + 2 * t.W()..|mem|];
      assert mem[at + 2 * t.W()..] == mem[at + 2 * t.W()..|mem|];
    }
  }

  lemma SlotReads(t: Target, k: Kind, mem: seq<byte>, off: nat, len: nat)
    requires Header(t, k) + t.W() <= off <= |mem| && len < t.Radix()
    ensures var m := WriteSlot(t, k, mem, off, len);
            && LenOf(t, k, m, off, OnHeap) == len
            && m[off - Header(t, k)..] == mem[off - Header(t, k)..]
  {
    hide Put, Le, FromLe;
    PutReads(mem, off - Header(t, k) - t.W(), Le(len, t.W()));
    WordRoundTrip(t, len);
  }

  lemma SlotKeepsHeader(t: Target, k: Kind, mem: seq<byte>, off: nat, len: nat)
    requires Header(t, k) + t.W() <= off <= |mem| && len < t.Radix()
    ensures CountOf(t, k, WriteSlot(t, k, mem, off, len), off) == CountOf(t, k, mem, off)
    ensures k.Growable? ==> CapOf(t, WriteSlot(t, k, mem, off, len), off) == CapOf(t, mem, off)
    ensures WriteSlot(t, k, mem, off, len)[off..] == mem[off..]
  {
    hide WriteSlot;
    var m, at := WriteSlot(t, k, mem, off, len), off - Header(t, k);
    SlotReads(t, k, mem, off, len);
    SameTail(m, mem, at, at, at + t.W());
    SameTail(m, mem, at, off - t.W(), off);
    SameTail(m, mem, at, off, |mem|);
    assert m[off..] == m[off..|mem|] && mem[off..] == mem[off..|mem|];
  }

  /** A buffer with its header and, where it belongs, its length slot written is consistent. */
  lemma BuiltBuffer(t: Target, k: Kind, mem: seq<byte>, off: nat, cap: nat, len: nat, tl: TextLen)
    requires Readable(t, k, mem, off, tl)
    requires t.Inline() < cap <= CapMax(t) && len <= cap
    requires off == Prefix(t, cap) + Header(t, k) && LayoutFor(t, k, cap) == Some(|mem|)
    requires k.Growable? ==> CapOf(t, mem, off) == cap
    requires k.Exact? ==> len == cap
    requires NewTextLen(t, len) == Some(tl) && LenOf(t, k, mem, off, tl) == len
    ensures BufferOk(t, k, mem, off, tl)
    ensures HeapCap(t, k, mem, off, tl) == cap
  {
  }

  /** What a freshly written header of capacity `cap` promises about the allocation it is in. */
  predicate HeaderWritten(t: Target, k: Kind, mem: seq<byte>, off: nat, cap: nat) {
    && cap <= CapMax(t)
    && off == Prefix(t, cap) + Header(t, k) && off + cap == |mem|
    && LayoutFor(t, k, cap) == Some(|mem|)
    && CountOf(t, k, mem, off) == 1
    && (k.Growable? ==> CapOf(t, mem, off) == cap)
  }

  lemma FreshHeader(t: Target, k: Kind, mem: seq<byte>, cap: nat)
    requires cap <= CapMax(t) && LayoutFor(t, k, cap) == Some(|mem|)
    ensures Prefix(t, cap) + Header(t, k) + cap == |mem|
    ensures HeaderWritten(t, k, WriteHeader(t, k, mem, Prefix(t, cap), cap), Prefix(t, cap) + Header(t, k), cap)
  {
    hide CountOf, CapOf, WriteHeader;
    LayoutAccepts(t, k, cap);
    hide LayoutFor;
    HeaderReads(t, k, mem, Prefix(t, cap), cap);
  }

  /** A consistent buffer of capacity `cap` with one reference and a recorded length of `len`. */
  predicate CompleteBuffer(t: Target, k: Kind, mem: seq<byte>, off: nat, tl: TextLen, cap: nat, len: nat) {
    && BufferOk(t, k, mem, off, tl) && Readable(t, k, mem, off, tl)
    && CountOf(t, k, mem, off) == 1
    && HeapCap(t, k, mem, off, tl) == cap && LenOf(t, k, mem, off, tl) == len
    && off + cap == |mem|
  }

  /** Recording a length in a fresh buffer, in the slot if the handle cannot hold it, completes it. */
  lemma LengthRecorded(t: Target, k: Kind, mem: seq<byte>, off: nat, cap: nat, len: nat, tl: TextLen)
    requires HeaderWritten(t, k, mem, off, cap)
    requires t.Inline() < cap && len <= cap && (k.Exact? ==> len == cap)
    requires NewTextLen(t, len) == Some(tl)
    ensures tl.OnHeap? ==> Header(t, k) + t.W() <= off <= |mem|
    ensures CompleteBuffer(t, k, if tl.OnHeap? then WriteSlot(t, k, mem, off, len) else mem, off, tl, cap, len)
  {
    hide LayoutFor, CountOf, CapOf, WriteSlot, FromLe;
    if tl.OnHeap? {
      SlotReads(t, k, mem, off, len);
      SlotKeepsHeader(t, k, mem, off, len);
      BuiltBuffer(t, k, WriteSlot(t, k, mem, off, len), off, cap, len, tl);
    } else {
      BuiltBuffer(t, k, mem, off, cap, len, tl);
    }
  }

  /** Same bytes in front of the data. */
  predicate SameHeader(mem: seq<byte>, mem': seq<byte>, off: nat) {
    off <= |mem| == |mem'| && mem'[..off] == mem[..off]
  }

  /** A buffer is consistent according to what is read from it. */
  lemma SameReadings(t: Target, k: Kind, mem: seq<byte>, mem': seq<byte>, off: nat, tl: TextLen)
    requires BufferOk(t, k, mem, off, tl) && |mem| == |mem'| && Readable(t, k, mem, off, tl)
    requires HeapCap(t, k, mem', off, tl) == HeapCap(t, k, mem, off, tl)
    requires LenOf(t, k, mem', off, tl) == LenOf(t, k, mem, off, tl)
    ensures BufferOk(t, k, mem', off, tl)
  {
    hide LayoutFor, CapOf, LenOf;
  }

  lemma FrontReadings(t: Target, k: Kind, mem: seq<byte>, mem': seq<byte>, off: nat, tl: TextLen)
    requires SameHeader(mem, mem', off) && Readable(t, k, mem, off, tl)
    ensures CountOf(t, k, mem', off) == CountOf(t, k, mem, off)
    ensures HeapCap(t, k, mem', off, tl) == HeapCap(t, k, mem, off, tl)
    ensures LenOf(t, k, mem', off, tl) == LenOf(t, k, mem, off, tl)
  {
    var at := CountAt(t, k, off);
    SameFront(mem, mem', off, at, at + t.W());
    if k.Growable? { SameFront(mem, mem', off, off - t.W(), off); }
    if tl.OnHeap? { SameFront(mem, mem', off, at - t.W(), at); }
  }

  /** Writing data leaves header, capacity and length as they were. */
  lemma DataInvisible(t: Target, k: Kind, mem: seq<byte>, mem': seq<byte>, off: nat, tl: TextLen)
    requires SameHeader(mem, mem', off) && BufferOk(t, k, mem, off, tl)
    ensures BufferOk(t, k, mem', off, tl)
    ensures CountOf(t, k, mem', off) == CountOf(t, k, mem, off)
    ensures HeapCap(t, k, mem', off, tl) == HeapCap(t, k, mem, off, tl)
    ensures LenOf(t, k, mem', off, tl) == LenOf(t, k, mem, off, tl)
  {
    hide LayoutFor, CapOf, LenOf, CountOf, HeapCap;
    FrontReadings(t, k, mem, mem', off, tl);
    SameReadings(t, k, mem, mem', off, tl);
  }

  /** Size and extent of a consistent buffer. */
  lemma BufferExtent(t: Target, k: Kind, mem: seq<byte>, off: nat, tl: TextLen)
    requires BufferOk(t, k, mem, off, tl)
    ensures off + HeapCap(t, k, mem, off, tl) == |mem|
    ensures LenOf(t, k, mem, off, tl) <= HeapCap(t, k, mem, off, tl)
    ensures HeapCap(t, k, mem, off, tl) > t.Inline()
  {
    LayoutAccepts(t, k, HeapCap(t, k, mem, off, tl));
  }

  /** `allocation()` always finds the base of the allocation and `alloc_layout()` its exact size. */
  lemma AllocatorDiscipline(t: Target, k: Kind, mem: seq<byte>, off: nat, tl: TextLen)
    requires BufferOk(t, k, mem, off, tl)
    ensures AllocationOffset(t, k, mem, off, tl) == 0
    ensures AllocLayout(t, k, mem, off, tl) == Some(|mem|)
  {
    hide LayoutFor, CapOf;
  }

  /** Filling a complete buffer with data keeps it complete. */
  lemma DataWritten(t: Target, k: Kind, mem: seq<byte>, off: nat, tl: TextLen, cap: nat, len: nat, text: seq<byte>)
    requires CompleteBuffer(t, k, mem, off, tl, cap, len) && |text| <= cap
    ensures off + |text| <= |mem|
    ensures var m := Put(mem, off, text);
            CompleteBuffer(t, k, m, off, tl, cap, len) && m[off..off + |text|] == text
  {
    hide BufferOk, LenOf, HeapCap, CountOf;
    PutReads(mem, off, text);
    DataInvisible(t, k, mem, Put(mem, off, text), off, tl);
  }

  lemma HeaderKept(t: Target, k: Kind, mem: seq<byte>, mem': seq<byte>, off: nat, cap: nat)
    requires HeaderWritten(t, k, mem, off, cap) && SameHeader(mem, mem', off)
    ensures HeaderWritten(t, k, mem', off, cap)
  {
    hide LayoutFor, FromLe, Prefix, CapMax;
    var at := off - Header(t, k);
    SameFront(mem, mem', off, at, at + t.W());
    if k.Growable? { SameFront(mem, mem', off, off - t.W(), off); }
  }

  lemma HeaderAndData(t: Target, k: Kind, mem: seq<byte>, off: nat, cap: nat, text: seq<byte>)
    requires HeaderWritten(t, k, mem, off, cap) && |text| <= cap
    ensures off + |text| <= |mem|
    ensures var m := Put(mem, off, text);
            HeaderWritten(t, k, m, off, cap) && m[off..off + |text|] == text
  {
    hide LayoutFor, Put, CountOf, CapOf;
    PutReads(mem, off, text);
    HeaderKept(t, k, mem, Put(mem, off, text), off, cap);
  }

  lemma SlotLeavesData(t: Target, k: Kind, mem: seq<byte>, off: nat, len: nat, tl: TextLen)
    requires tl.OnHeap? ==> Header(t, k) + t.W() <= off <= |mem| && len < t.Radix()
    requires off + len <= |mem|
    ensures var m := if tl.OnHeap? then WriteSlot(t, k, mem, off, len) else mem;
            |m| == |mem| && m[off..off + len] == mem[off..off + len]
  {
    hide WriteSlot;
    if tl.OnHeap? {
      SlotReads(t, k, mem, off, len);
      SameTail(WriteSlot(t, k, mem, off, len), mem, off - Header(t, k), off, off + len);
    }
  }

  lemma CapacityLimits(t: Target, k: Kind, mem: seq<byte>, off: nat, cap: nat)
    requires HeaderWritten(t, k, mem, off, cap)
    ensures cap <= CapMax(t) && off + cap == |mem|
    ensures forall n: nat | n <= cap :: NewTextLen(t, n).Some?
    ensures cap > MaxLen(t) ==> Header(t, k) + t.W() <= off
  {
    hide LayoutFor, CountOf, CapOf;
  }

  /** What the invariant says about one heap handle. */
  lemma HandleFacts(t: Target, s: State, id: nat)
    requires WF(t, s) && id in s.handles && s.handles[id].form.Heap?
    ensures var r := s.handles[id];
            && Shape(t, s.blocks, r)
            && r.form.base in s.blocks
            && BufferOk(t, r.kind, s.blocks[r.form.base], r.form.off, r.form.tl)
            && Readable(t, r.kind, s.blocks[r.form.base], r.form.off, r.form.tl)
            && CountOf(t, r.kind, s.blocks[r.form.base], r.form.off) == |Owners(s.handles, r.form.base)|
            && 1 <= |Owners(s.handles, r.form.base)| <= t.IsizeMax() + 1
            && id in Owners(s.handles, r.form.base)
            && (|Owners(s.handles, r.form.base)| == 1 <==> Owners(s.handles, r.form.base) == {id})
  {
    hide BufferOk, Agreement;
    var r := s.handles[id];
    assert Shape(t, s.blocks, r) && CountIs(t, s.blocks, r, |Owners(s.handles, r.form.base)|);
    if |Owners(s.handles, r.form.base)| == 1 {
      SingleOwner(s.handles, r.form.base, id);
    }
  }

  /** Writing `n` over the count changes the count and nothing else. */
  lemma CountWritten(t: Target, k: Kind, mem: seq<byte>, off: nat, n: nat)
    requires Header(t, k) <= off <= |mem| && n < t.Radix()
    ensures OnlyCountChanged(t, k, mem, Put(mem, CountAt(t, k, off), Le(n, t.W())), off, n)
  {
    PutReads(mem, CountAt(t, k, off), Le(n, t.W()));
    WordRoundTrip(t, n);
  }

  /** Counting up and down again restores every byte. */
  lemma CountRestored(t: Target, k: Kind, mem: seq<byte>, off: nat, n: nat, m: nat)
    requires Header(t, k) <= off <= |mem| && CountOf(t, k, mem, off) == n
    ensures Put(Put(mem, CountAt(t, k, off), Le(m, t.W())), CountAt(t, k, off), Le(n, t.W())) == mem
  {
    var at := CountAt(t, k, off);
    hide FromLe, Le;
    FromLeRoundTrip(mem[at..at + t.W()]);
    PutTwice(mem, at, Le(m, t.W()), Le(n, t.W()));
  }

  lemma PutTwice(mem: seq<byte>, at: nat, a: seq<byte>, b: seq<byte>)
    requires |a| == |b| && at + |a| <= |mem| && b == mem[at..at + |a|]
    ensures Put(Put(mem, at, a), at, b) == mem
  {
    var m := Put(mem, at, a);
    PutReads(mem, at, a);
    assert m[..at] + b + m[at + |b|..] == mem[..at] + mem[at..at + |a|] + mem[at + |a|..];
  }

  lemma FrameRefl(t: Target, s: State, except: set<nat>)
    ensures Frame(t, s, s, except)
  {
  }

  /** Two steps, the first of which only adds `tmp` and the second of which consumes it. */
  lemma FrameThroughTemp(t: Target, s: State, s1: State, s2: State, id: nat, tmp: nat)
    requires Frame(t, s, s1, {}) && Frame(t, s1, s2, {id, tmp}) && tmp !in s.handles
    ensures Frame(t, s, s2, {id})
  {
    hide Shape, Text, Capacity;
    forall i | i in s.handles && i != id
      ensures i in s2.handles && s2.handles[i] == s.handles[i] && SameView(t, s.blocks, s2.blocks, s.handles[i])
    {
      assert i !in {id, tmp};
      assert SameView(t, s.blocks, s1.blocks, s.handles[i]) && SameView(t, s1.blocks, s2.blocks, s.handles[i]);
    }
  }

  /** A growable buffer whose allocation was resized, with its header rewritten: same text, new
      capacity. */
  lemma Resized(t: Target, mem: seq<byte>, off: nat, tl: TextLen, grown: seq<byte>, cap: nat)
    requires BufferOk(t, Growable, mem, off, tl) && LenOf(t, Growable, mem, off, tl) <= cap
    requires t.Inline() < cap <= CapMax(t) && LayoutFor(t, Growable, cap) == Some(|grown|)
    requires LenHeapLayout(t, cap) == LenHeapLayout(t, CapOf(t, mem, off))
    requires var n := if |mem| < |grown| then |mem| else |grown|; grown[..n] == mem[..n]
    ensures Header(t, Growable) <= off <= |grown| && off <= |mem|
    ensures var m := WriteHeader(t, Growable, grown, off - Header(t, Growable), cap);
            var len := LenOf(t, Growable, mem, off, tl);
            && CompleteBuffer(t, Growable, m, off, tl, cap, len)
            && off + len <= |mem| && off + len <= |m| && m[off..off + len] == mem[off..off + len]
  {
    BufferExtent(t, Growable, mem, off, tl);
    LayoutAccepts(t, Growable, cap);
    hide LayoutFor, FromLe, WriteHeader, CountOf, CapOf, LenOf;
    var at := off - Header(t, Growable);
    HeaderReads(t, Growable, grown, at, cap);
    ResizedReads(t, mem, off, tl, grown, WriteHeader(t, Growable, grown, at, cap));
    BuiltBuffer(t, Growable, WriteHeader(t, Growable, grown, at, cap),
        off, cap, LenOf(t, Growable, mem, off, tl), tl);
  }

  /** Length and text survive resizing and rewriting the header. */
  lemma ResizedReads(t: Target, mem: seq<byte>, off: nat, tl: TextLen, grown: seq<byte>, m: seq<byte>)
    requires Readable(t, Growable, mem, off, tl) && off <= |grown| == |m|
    requires var len := LenOf(t, Growable, mem, off, tl); off + len <= |mem| && off + len <= |grown|
    requires var n := if |mem| < |grown| then |mem| else |grown|; grown[..n] == mem[..n]
    requires var at := off - Header(t, Growable); m[..at] == grown[..at] && m[off..] == grown[off..]
    ensures var len := LenOf(t, Growable, mem, off, tl);
            LenOf(t, Growable, m, off, tl) == len && m[off..off + len] == mem[off..off + len]
  {
    hide FromLe;
    var len := LenOf(t, Growable, mem, off, tl);
    var at := off - Header(t, Growable);
    var n := if |mem| < |grown| then |mem| else |grown|;
    CommonFront(mem, grown, n, off, off + len);
    SameTail(m, grown, off, off, off + len);
    if tl.OnHeap? {
      CommonFront(mem, grown, n, at - t.W(), at);
      SameFront(m, grown, at, at - t.W(), at);
    }
  }

  lemma CommonFront(a: seq<byte>, b: seq<byte>, n: nat, i: nat, j: nat)
    requires n <= |a| && n <= |b| && a[..n] == b[..n] && i <= j <= n
    ensures a[i..j] == b[i..j]
  {
    assert a[i..j] == a[..n][i..j] && b[i..j] == b[..n][i..j];
  }

  /** `HeapBuffer::set_len`: the length moves between handle and slot as its size requires. */
  lemma LengthChanged(t: Target, mem: seq<byte>, off: nat, tl: TextLen, len: nat)
    requires BufferOk(t, Growable, mem, off, tl) && CountOf(t, Growable, mem, off) == 1
    requires len <= CapOf(t, mem, off)
    ensures NewTextLen(t, len).Some?
    ensures var tl' := NewTextLen(t, len).value;
            && (tl'.OnHeap? ==> Header(t, Growable) + t.W() <= off <= |mem| && len < t.Radix())
            && var m := if tl'.OnHeap? then WriteSlot(t, Growable, mem, off, len) else mem;
            && CompleteBuffer(t, Growable, m, off, tl', CapOf(t, mem, off), len)
            && m[off..] == mem[off..]
  {
    var cap := CapOf(t, mem, off);
    BufferExtent(t, Growable, mem, off, tl);
    LayoutAccepts(t, Growable, cap);
    var tl' := NewTextLen(t, len).value;
    hide LayoutFor, FromLe, WriteSlot, CountOf, LenOf;
    if tl'.OnHeap? {
      SlotKeepsHeader(t, Growable, mem, off, len);
    }
    LengthRecorded(t, Growable, mem, off, cap, len, tl');
  }

  predicate SingleBuffer(t: Target, k: Kind, mem: seq<byte>, off: nat, tl: TextLen) {
    BufferOk(t, k, mem, off, tl) && Readable(t, k, mem, off, tl) && CountOf(t, k, mem, off) == 1
  }

  /** Rewriting the buffer of a unique handle, or the handle itself. */
  lemma RewriteUnique(t: Target, s: State, id: nat, r: Repr, mem: seq<byte>)
    requires WF(t, s) && id in s.handles && s.handles[id].form.Heap?
    requires Owners(s.handles, s.handles[id].form.base) == {id}
    requires r.form.Heap? && (r.form.base == s.handles[id].form.base || r.form.base !in s.blocks)
    requires SingleBuffer(t, r.kind, mem, r.form.off, r.form.tl)
    ensures var s' := State((s.blocks - {s.handles[id].form.base})[r.form.base := mem], s.handles[id := r]);
            WF(t, s') && Frame(t, s, s', {id})
  {
    hide WF, BufferOk, Shape, Text, Capacity, CountOf, Readable, Owners;
    var s0 := State(s.blocks - {s.handles[id].form.base}, s.handles - {id});
    RemoveLast(t, s, id);
    AddUnique(t, s0, id, r, mem);
    MapReplace(s.handles, id, r);
    FrameStep(t, s, s0, State((s.blocks - {s.handles[id].form.base})[r.form.base := mem], s.handles[id := r]), {id});
  }

  lemma FrameStep(t: Target, s: State, s1: State, s2: State, except: set<nat>)
    requires Frame(t, s, s1, except) && Frame(t, s1, s2, except)
    ensures Frame(t, s, s2, except)
  {
    hide Shape, Text, Capacity;
    forall i | i in s.handles && i !in except
      ensures i in s2.handles && s2.handles[i] == s.handles[i] && SameView(t, s.blocks, s2.blocks, s.handles[i])
    {
      assert SameView(t, s.blocks, s1.blocks, s.handles[i]) && SameView(t, s1.blocks, s2.blocks, s.handles[i]);
    }
  }

  /** Contents stay valid outside the handles an operation is about. */
  lemma OkAfter(t: Target, s: State, s': State, ids: set<nat>)
    requires Ok(t, s) && WF(t, s') && Frame(t, s, s', ids)
    requires forall i | i in s'.handles :: i in s.handles || i in ids
    requires forall i | i in ids && i in s'.handles :: ContentOk(t, s'.blocks, s'.handles[i])
    ensures Ok(t, s')
  {
    hide WF, Shape, Text, Capacity;
    forall i | i in s'.handles
      ensures ContentOk(t, s'.blocks, s'.handles[i])
    {
      if i !in ids {
        assert SameView(t, s.blocks, s'.blocks, s.handles[i]) && ContentOk(t, s.blocks, s.handles[i]);
      }
    }
  }
}
