/** The allocator, the heap and all handles of a program, and the operations of `Repr` on them.

    A handle is named by a number; a local variable holding a `Repr` is a handle like any other, and
    moving it renames it. */
module Store {
  import opened Bytes
  import opened Layout
  import opened HeapState
  import opened HeapMemory
  import opened Conversion
  import opened Texts
  import opened Case
  import opened Filtering
  import opened Numbers
  import opened Repetition
  import TwoWords
  import Utf8

  class Store {
    const t: Target
    var blocks: Blocks
    var handles: Handles
    var next: nat    // allocations are numbered in the order they are made
    var nextId: nat
    ghost var freed: set<nat>
    var refused: nat // requests the allocator has turned down
    var moved: nat   // bytes of data copied to new buffers, or taken along when a buffer is resized
    var carried: nat // the same with the headers and length slots in front of the data

    function Now(): State
      reads this`blocks, this`handles
    {
      State(blocks, handles)
    }

    /** Every allocation ever made is either live or was freed, once. */
    ghost predicate Accounted()
      reads this`blocks, this`handles, this`next, this`nextId, this`freed
    {
      && blocks.Keys !! freed
      && (forall b: nat :: b < next <==> b in blocks || b in freed)
      && forall i | i in handles :: i < nextId
    }

    ghost predicate Valid()
      reads this`blocks, this`handles, this`next, this`nextId, this`freed
    {
      Ok(t, Now()) && Accounted()
    }

    constructor (t: Target)
      ensures Valid() && this.t == t
      ensures Now() == State(map[], map[]) && freed == {}
    {
      this.t := t;
      blocks, handles, next, nextId, freed := map[], map[], 0, 0, {};
      refused, moved, carried := 0, 0, 0;
    }

    // ----- the global allocator -----

    /** Any request may fail; the bytes of a new allocation are arbitrary. */
    method Alloc(size: nat) returns (r: Option<nat>)
      requires Accounted()
      modifies this`blocks, this`next, this`refused
      ensures Accounted()
      ensures refused == old(refused) + (if r.None? then 1 else 0)
      ensures r.None? ==> blocks == old(blocks) && next == old(next)
      ensures r.Some? ==>
                && r.value !in old(blocks) && r.value !in freed
                && r.value in blocks && |blocks[r.value]| == size
                && blocks == old(blocks)[r.value := blocks[r.value]]
    {
      var fail: bool := *;
      if fail {
        refused := refused + 1;
        return None;
      }
      r := Some(next);
      blocks, next := blocks[next := seq(size, _ => 0)], next + 1;
    }

    /** Takes back exactly a live allocation: its base, and the size it has. */
    method Dealloc(base: nat, offset: int, size: nat)
      requires Accounted()
      requires base in blocks && offset == 0 && size == |blocks[base]|
      modifies this`blocks, this`freed
      ensures Accounted()
      ensures blocks == old(blocks) - {base} && freed == old(freed) + {base}
    {
      blocks, freed := blocks - {base}, freed + {base};
    }

    /** May fail, stay in place or move; keeps the common front of the contents, whose data starts at
        `dataAt`. */
    method Realloc(base: nat, offset: int, size: nat, newSize: nat, dataAt: nat) returns (r: Option<nat>)
      requires Accounted()
      requires base in blocks && offset == 0 && size == |blocks[base]| && dataAt <= size && dataAt <= newSize
      modifies this`blocks, this`next, this`freed, this`refused, this`moved, this`carried
      ensures Accounted()
      ensures refused == old(refused) + (if r.None? then 1 else 0)
      ensures moved == old(moved) + (if r.None? then 0 else (if size < newSize then size else newSize) - dataAt)
      ensures carried == old(carried) + (if r.None? then 0 else if size < newSize then size else newSize)
      ensures r.None? ==> blocks == old(blocks) && next == old(next) && freed == old(freed)
      ensures r.Some? ==>
                && (r.value == base || (r.value !in old(blocks) && r.value !in old(freed)))
                && r.value in blocks && |blocks[r.value]| == newSize
                && (var n := if size < newSize then size else newSize; blocks[r.value][..n] == old(blocks[base])[..n])
                && blocks == (old(blocks) - {base})[r.value := blocks[r.value]]
                && freed == old(freed) + (if r.value == base then {} else {base})
    {
      var fail: bool, move: bool := *, *;
      if fail {
        refused := refused + 1;
        return None;
      }
      var mem := blocks[base];
      moved := moved + (if size < newSize then size else newSize) - dataAt;
      carried := carried + (if size < newSize then size else newSize);
      var kept := if size < newSize then mem + seq(newSize - size, _ => 0) else mem[..newSize];
      if move {
        r := Some(next);
        blocks, next, freed := (blocks - {base})[next := kept], next + 1, freed + {base};
      } else {
        r := Some(base);
        blocks := (blocks - {base})[base := kept];
      }
    }

    /** A write to a live allocation. */
    method WriteBlock(base: nat, mem: seq<byte>)
      requires Accounted() && base in blocks && |mem| == |blocks[base]|
      modifies this`blocks
      ensures Accounted() && blocks == old(blocks)[base := mem]
    {
      blocks := blocks[base := mem];
    }

    // ----- new buffers -----

    /** `HeapBuffer::allocate_ptr`: an allocation with its header written. */
    method AllocatePtr(kind: Kind, size: nat) returns (r: Option<(nat, nat)>)
      requires Accounted()
      modifies this`blocks, this`next, this`refused
      ensures Accounted()
      ensures r.None? ==> blocks == old(blocks) && next == old(next)
      ensures r.Some? ==>
                var (base, off) := r.value;
                && Unowned(old(blocks), base)
                && HeaderWritten(t, kind, blocks[base], off, size)
      ensures refused >= old(refused) && (r.Some? <==> refused == old(refused) && size <= Limit(t, kind))
    {
      if size <= CapMax(t) { LayoutAccepts(t, kind, size); }
      if size > CapMax(t) {
        return None;
      }
      var layout := LayoutFor(t, kind, size);
      if layout.None? {
        return None;
      }
      hide Accounted, LayoutFor, HeaderWritten, WriteHeader;
      var allocation := Alloc(layout.value);
      if allocation.None? {
        return None;
      }
      var base := allocation.value;
      FreshHeader(t, kind, blocks[base], size);
      WriteBlock(base, WriteHeader(t, kind, blocks[base], Prefix(t, size), size));
      return Some((base, Prefix(t, size) + Header(t, kind)));
    }

    /** `HeapBuffer::new_uninit`: a buffer with room for `len` bytes and no more, its contents arbitrary and
        not yet owned by a handle. */
    method NewUninit(kind: Kind, len: nat) returns (r: Option<Form>)
      requires Accounted() && len > t.Inline()
      modifies this`blocks, this`next, this`refused
      ensures Accounted()
      ensures r.None? ==> blocks == old(blocks) && next == old(next)
      ensures r.Some? ==>
                && r.value.Heap? && Unowned(old(blocks), r.value.base)
                && CompleteBuffer(t, kind, blocks[r.value.base], r.value.off, r.value.tl, len, len)
      ensures refused >= old(refused) && (r.Some? <==> refused == old(refused) && len <= Limit(t, kind))
    {
      hide Accounted, HeaderWritten, WriteSlot, CompleteBuffer;
      var tl := NewTextLen(t, len);
      if tl.None? {
        return None;
      }
      var raw := AllocatePtr(kind, len);
      if raw.None? {
        return None;
      }
      var (base, off) := raw.value;
      LengthRecorded(t, kind, blocks[base], off, len, len, tl.value);
      if tl.value.OnHeap? {
        WriteBlock(base, WriteSlot(t, kind, blocks[base], off, len));
      }
      return Some(Heap(base, off, tl.value));
    }

    /** `base` is live but not in `before`, and no handle points to it yet. */
    ghost predicate Unowned(before: Blocks, base: nat)
      reads this`blocks, this`freed
    {
      base !in before && base !in freed && base in blocks && blocks == before[base := blocks[base]]
    }

    // ----- handles come and go -----

    ghost function TextOf(id: nat): seq<byte>
      requires id in handles && Shape(t, blocks, handles[id])
      reads this`blocks, this`handles
    {
      Text(t, blocks, handles[id])
    }

    ghost function CapacityOf(id: nat): nat
      requires id in handles && Shape(t, blocks, handles[id])
      reads this`blocks, this`handles
    {
      Capacity(t, blocks, handles[id])
    }

    /** No other handle shares the allocation of `id`, if it has one. */
    ghost predicate Unshared(id: nat)
      requires id in handles
      reads this`handles
    {
      handles[id].form.Heap? ==> Owners(handles, handles[id].form.base) == {id}
    }

    /** `id` is new, holds `text` with capacity `cap` by itself, and nothing else has changed. */
    ghost predicate Added(s: State, kind: Kind, id: nat, text: seq<byte>, cap: nat)
      reads this`blocks, this`handles
    {
      && id !in s.handles && handles.Keys == s.handles.Keys + {id} && Frame(t, s, Now(), {})
      && handles[id].kind == kind && Shape(t, blocks, handles[id])
      && TextOf(id) == text && CapacityOf(id) == cap && Unshared(id)
    }

    /** A handle that owns no allocation. */
    method AdoptPlain(r: Repr) returns (id: nat)
      requires Valid() && !r.form.Heap? && ContentOk(t, blocks, r)
      modifies this`handles, this`nextId
      ensures Valid() && Added(old(Now()), r.kind, id, Text(t, blocks, r), Capacity(t, blocks, r))
      ensures handles == old(handles)[id := r]
    {
      hide Shape, Text, Capacity, Frame, Owners, WF, ContentOk;
      id := nextId;
      ContentShape(t, blocks, r);
      AddPlain(t, Now(), id, r);
      handles, nextId := handles[id := r], nextId + 1;
      OkAfter(t, old(Now()), Now(), {id});
      FrameFresh(t, old(Now()), Now(), id);
    }

    /** The handle of a new buffer, once its contents are written. */
    method AdoptHeap(ghost before: Blocks, kind: Kind, f: Form,
        ghost cap: nat, ghost text: seq<byte>) returns (id: nat)
      requires Ok(t, State(before, handles)) && Accounted() && Utf8.Valid(text)
      requires f.Heap? && Unowned(before, f.base)
      requires CompleteBuffer(t, kind, blocks[f.base], f.off, f.tl, cap, |text|)
      requires f.off + |text| <= |blocks[f.base]| && blocks[f.base][f.off..f.off + |text|] == text
      modifies this`handles, this`nextId
      ensures Valid() && Added(State(before, old(handles)), kind, id, text, cap)
      ensures handles == old(handles)[id := Repr(kind, f)]
    {
      hide Text, Capacity, Frame, Owners, WF, ContentOk, BufferOk, Readable, CountOf, LenOf, HeapCap, Utf8.Valid;
      id := nextId;
      ghost var s := State(before, handles);
      ghost var r := Repr(kind, f);
      AddUnique(t, s, id, r, blocks[f.base]);
      NewBuffer(t, blocks, r);
      HeapContent(t, blocks, r, text);
      handles, nextId := handles[id := Repr(kind, f)], nextId + 1;
      hide Shape;
      OkAfter(t, s, Now(), {id});
      FrameFresh(t, s, Now(), id);
      NobodyPointsTo(t, s, f.base);
      OwnersWith(s.handles, id, r, f.base);
      HeapCapacity(t, blocks, r);
    }

    /** The length a buffer made for `n` bytes can hold: at least what fits inline. */
    function Room(n: nat): nat { RoomFor(t, n) }

    /** `Repr::from_str`. */
    method FromStr(kind: Kind, text: seq<byte>) returns (r: Option<nat>)
      requires Valid() && Utf8.Valid(text)
      modifies this
      ensures Valid()
      ensures r.None? ==> Now() == old(Now())
      ensures r.Some? ==> Added(old(Now()), kind, r.value, text, Room(|text|))
      ensures r.Some? ==> (handles[r.value].form.Inline? <==> |text| <= t.Inline()) && !handles[r.value].form.Static?
      ensures |text| <= t.Inline() ==> r.Some?
      ensures refused >= old(refused) && (r.Some? <==> refused == old(refused) && |text| <= Limit(t, kind))
      ensures moved == old(moved) + (if r.Some? && |text| > t.Inline() then |text| else 0)
      ensures carried - old(carried) == moved - old(moved)
    {
      hide Accounted, Shape, Text, Capacity, Frame, Owners, WF, ContentOk, CompleteBuffer, Ok, Utf8.Valid, Put;
      if |text| <= t.Inline() {
        InlineRoundTrip(t, kind, blocks, text);
        InlineCapacity(t, kind, blocks, InlineOf(t, text));
        var buf := TwoWords.NewInline(t, text);
        var id := AdoptPlain(Repr(kind, Inline(buf)));
        return Some(id);
      }
      var buffer := NewUninit(kind, |text|);
      if buffer.None? {
        return None;
      }
      CopyText(buffer.value.base, buffer.value.off, text, kind, buffer.value.tl);
      var id := AdoptHeap(old(blocks), kind, buffer.value, |text|, text);
      return Some(id);
    }

    /** `Repr::from_char`: the same buffer as that of the encoded character. */
    method FromChar(kind: Kind, ch: Utf8.Scalar) returns (id: nat)
      requires Valid()
      modifies this`handles, this`nextId
      ensures Valid() && Added(old(Now()), kind, id, Utf8.EncodeChar(ch), t.Inline())
      ensures handles[id].form == Inline(InlineOf(t, Utf8.EncodeChar(ch))) && blocks == old(blocks)
    {
      hide Accounted, Shape, Text, Capacity, Frame, Owners, WF, ContentOk, Ok, Utf8.Valid, Utf8.EncodeChar,
          Utf8.Decode, TwoWords.FromChar, InlineOf;
      TwoWords.FromCharIsInline(t, ch);
      InlineRoundTrip(t, kind, blocks, Utf8.EncodeChar(ch));
      InlineCapacity(t, kind, blocks, InlineOf(t, Utf8.EncodeChar(ch)));
      id := AdoptPlain(Repr(kind, Inline(TwoWords.FromChar(t, ch))));
    }

    /** The copies of `HeapBuffer::new`: one copy, or two overlapping ones from both ends. */
    method CopyText(base: nat, off: nat, text: seq<byte>, ghost kind: Kind, ghost tl: TextLen)
      requires Accounted() && base in blocks
      requires CompleteBuffer(t, kind, blocks[base], off, tl, |text|, |text|)
      modifies this`blocks, this`moved, this`carried
      ensures Accounted() && blocks == old(blocks)[base := blocks[base]] && base in blocks
      ensures CompleteBuffer(t, kind, blocks[base], off, tl, |text|, |text|)
      ensures off + |text| <= |blocks[base]| && blocks[base][off..off + |text|] == text
      ensures moved == old(moved) + |text| && carried == old(carried) + |text|
    {
      hide Accounted, Put, CompleteBuffer;
      var mem, len, n := blocks[base], |text|, t.Inline();
      DataWritten(t, kind, mem, off, tl, len, len, text);
      if !(n <= len <= 4 * n) {
        mem := Put(mem, off, text);
      } else if len >= 2 * n {
        TwoCopies(mem, off, text, 2 * n);
        mem := Put(mem, off, text[..2 * n]);
        mem := Put(mem, off + (len - 2 * n), text[len - 2 * n..]);
      } else {
        TwoCopies(mem, off, text, n);
        mem := Put(mem, off, text[..n]);
        mem := Put(mem, off + (len - n), text[len - n..]);
      }
      moved, carried := moved + len, carried + len;
      WriteBlock(base, mem);
    }

    /** `Repr::new_with` for an `init` that writes `content`. */
    method NewWith(kind: Kind, content: seq<byte>) returns (r: Option<nat>)
      requires Valid() && Utf8.Valid(content)
      modifies this
      ensures Valid()
      ensures r.None? ==> Now() == old(Now())
      ensures r.Some? ==> Added(old(Now()), kind, r.value, content, Room(|content|)) && !handles[r.value].form.Static?
      ensures |content| <= t.Inline() ==> r.Some?
      ensures refused >= old(refused) && (r.Some? <==> refused == old(refused) && |content| <= Limit(t, kind))
    {
      hide Accounted, Shape, Text, Capacity, Frame, Owners, WF, ContentOk, CompleteBuffer, Ok, Utf8.Valid, Put,
          InlineOf, Limit;
      if |content| <= t.Inline() {
        var buf := Put(InlineOf(t, []), 0, content);
        if |content| < t.Inline() {
          buf := buf[t.Inline() - 1 := MASK + |content|];
        }
        InitializedInline(t, content);
        SmallestLimit(t, kind);
        InlineRoundTrip(t, kind, blocks, content);
        InlineCapacity(t, kind, blocks, buf);
        var id := AdoptPlain(Repr(kind, Inline(buf)));
        return Some(id);
      }
      var buffer := NewUninit(kind, |content|);
      if buffer.None? {
        return None;
      }
      var f := buffer.value;
      DataWritten(t, kind, blocks[f.base], f.off, f.tl, |content|, |content|, content);
      WriteBlock(f.base, Put(blocks[f.base], f.off, content));
      var id := AdoptHeap(old(blocks), kind, f, |content|, content);
      return Some(id);
    }

    /** `Repr::from_static_str`: no allocation, whatever the length. */
    method FromStaticStr(kind: Kind, text: seq<byte>) returns (r: Option<nat>)
      requires Valid() && Utf8.Valid(text)
      modifies this`handles, this`nextId
      ensures Valid() && blocks == old(blocks)
      ensures r.None? <==> |text| > StaticMax(t)
      ensures r.None? ==> Now() == old(Now())
      ensures r.Some? ==> Added(old(Now()), kind, r.value, text, Room(|text|))
      ensures r.Some? ==> if |text| <= t.Inline() then handles[r.value].form.Inline? else handles[r.value].form.Static?
    {
      hide Accounted, Frame, Owners, WF, Ok, Utf8.Valid;
      var form;
      if |text| <= t.Inline() {
        InlineRoundTrip(t, kind, blocks, text);
        form := Inline(InlineOf(t, text));
      } else if |text| > StaticMax(t) {
        return None;
      } else {
        assert text[..|text|] == text;
        form := Static(text, |text|);
      }
      var id := AdoptPlain(Repr(kind, form));
      return Some(id);
    }

    /** `Repr::<Mutable>::with_capacity`. */
    method WithCapacity(capacity: nat) returns (r: Option<nat>)
      requires Valid()
      modifies this
      ensures Valid()
      ensures r.None? ==> Now() == old(Now())
      ensures r.Some? ==> Added(old(Now()), Growable, r.value, [], Room(capacity))
      ensures r.Some? ==> !handles[r.value].form.Static?
      ensures capacity <= t.Inline() ==> r.Some?
      ensures refused >= old(refused) && (r.Some? <==> refused == old(refused) && capacity <= Limit(t, Growable))
    {
      if capacity <= t.Inline() {
        r := FromStr(Growable, []);
      } else {
        r := FromStrWithCapacity([], capacity);
      }
    }

    /** `HeapBuffer::from_str_with_capacity`; with an empty text, `HeapBuffer::with_capacity`. */
    method FromStrWithCapacity(text: seq<byte>, capacity: nat) returns (r: Option<nat>)
      requires Valid() && Utf8.Valid(text) && |text| <= capacity && capacity > t.Inline()
      modifies this
      ensures Valid()
      ensures r.None? ==> Now() == old(Now())
      ensures r.Some? ==> Added(old(Now()), Growable, r.value, text, capacity)
      ensures r.Some? ==> handles[r.value].form.Heap?
      ensures refused >= old(refused) && (r.Some? <==> refused == old(refused) && capacity <= Limit(t, Growable))
      ensures moved == old(moved) + (if r.Some? then |text| else 0)
      ensures carried - old(carried) == moved - old(moved)
    {
      hide Accounted, Shape, Text, Capacity, Frame, Owners, WF, ContentOk, CompleteBuffer, HeaderWritten, Ok,
          Utf8.Valid, Put, WriteSlot;
      var raw := AllocatePtr(Growable, capacity);
      if raw.None? {
        return None;
      }
      var (base, off) := raw.value;
      CapacityLimits(t, Growable, blocks[base], off, capacity);
      var tl := NewTextLen(t, |text|).value;
      HeaderAndData(t, Growable, blocks[base], off, capacity, text);
      WriteBlock(base, Put(blocks[base], off, text));
      moved, carried := moved + |text|, carried + |text|;
      // `set_len`
      LengthRecorded(t, Growable, blocks[base], off, capacity, |text|, tl);
      SlotLeavesData(t, Growable, blocks[base], off, |text|, tl);
      if tl.OnHeap? {
        WriteBlock(base, WriteSlot(t, Growable, blocks[base], off, |text|));
      }
      var id := AdoptHeap(old(blocks), Growable, Heap(base, off, tl), capacity, text);
      return Some(id);
    }

    // ----- releasing, moving, cloning -----

    /** `Repr::drop_in`: gives up the handle `id`, and frees its allocation with the last handle. */
    method Drop(id: nat)
      requires Valid() && id in handles
      modifies this`blocks, this`handles, this`freed
      ensures Valid() && handles == old(handles) - {id} && Frame(t, old(Now()), Now(), {id})
      ensures var gone: set<nat> :=
                if old(handles[id].form.Heap? && Unshared(id)) then {old(handles[id].form.base)} else {};
              blocks.Keys == old(blocks.Keys) - gone && freed == old(freed) + gone
    {
      hide Accounted, Shape, Frame, Owners, WF, ContentOk, BufferOk, Readable, CountOf, OnlyCountChanged, Put;
      ghost var s := Now();
      if handles[id].form.Heap? {
        HandleFacts(t, s, id);
        Release(id);
      } else {
        RemovePlain(t, s, id);
      }
      RemoveHandle(id);
      OkAfter(t, s, Now(), {id});
    }

    method RemoveHandle(id: nat)
      requires Accounted()
      modifies this`handles
      ensures Accounted() && handles == old(handles) - {id}
    {
      handles := handles - {id};
    }

    /** `HeapBuffer::release`. */
    method Release(id: nat)
      requires WF(t, Now()) && Accounted() && id in handles && handles[id].form.Heap?
      modifies this`blocks, this`freed
      ensures Accounted() && next == old(next)
      ensures WF(t, State(blocks, handles - {id})) && Frame(t, old(Now()), State(blocks, handles - {id}), {id})
      ensures var gone: set<nat> := if Unshared(id) then {handles[id].form.base} else {};
              blocks.Keys == old(blocks.Keys) - gone && freed == old(freed) + gone
    {
      hide Accounted, Shape, Frame, Owners, WF, BufferOk, CountOf, OnlyCountChanged, Put, LenOf;
      ghost var s := Now();
      HandleFacts(t, s, id);
      var kind, base, off, tl := handles[id].kind, handles[id].form.base, handles[id].form.off, handles[id].form.tl;
      ghost var mem := blocks[base];
      // `fetch_sub(1)`
      var prev := CountOf(t, kind, blocks[base], off);
      CountWritten(t, kind, mem, off, prev - 1);
      WriteBlock(base, Put(blocks[base], CountAt(t, kind, off), Le(prev - 1, t.W())));
      if prev == 1 {
        CountInvisible(t, kind, mem, blocks[base], off, 0, tl);
        AllocatorDiscipline(t, kind, blocks[base], off, tl);
        Dealloc(base, AllocationOffset(t, kind, blocks[base], off, tl),
            AllocLayout(t, kind, blocks[base], off, tl).value);
        RemoveLast(t, s, id);
        assert blocks == s.blocks - {base};
      } else {
        RemoveShared(t, s, id, blocks[base]);
      }
    }

    /** `Repr::replace_inner`: `*id = tmp`, releasing what `id` held; `tmp` is moved from. */
    method ReplaceInner(id: nat, tmp: nat)
      requires Valid() && id in handles && tmp in handles && id != tmp
      modifies this`blocks, this`handles, this`freed
      ensures Valid() && handles == (old(handles) - {id, tmp})[id := old(handles[tmp])]
      ensures Frame(t, old(Now()), Now(), {id, tmp})
      ensures Shape(t, blocks, handles[id]) && Shape(t, old(blocks), old(handles[tmp]))
      ensures TextOf(id) == old(TextOf(tmp)) && CapacityOf(id) == old(CapacityOf(tmp))
      ensures old(Unshared(tmp)) ==> Unshared(id)
    {
      hide Shape, Owners, WF, ContentOk;
      ghost var s := Now();
      Drop(id);
      ghost var s1 := Now();
      ContentShape(t, s.blocks, s.handles[tmp]);
      assert SameView(t, s.blocks, s1.blocks, s.handles[tmp]);
      MoveHandle(t, s1, tmp, id);
      handles := (handles - {tmp})[id := handles[tmp]];
      MovedMap(s.handles, id, tmp);
      TempMoved(t, s1, Now(), tmp, id);
      OkAfter(t, s1, Now(), {tmp, id});
      FrameWiden(t, s, s1, Now(), id, tmp);
      UnsharedMoved(s.handles, id, tmp);
    }

    /** `Repr::make_shallow_clone`: another handle on the same allocation, or a copy of the words of an
        inline or static buffer.  The result is `None` where the code panics because the count would
        overflow. */
    method Clone(src: nat) returns (r: Option<nat>)
      requires Valid() && src in handles
      modifies this`blocks, this`handles, this`nextId
      ensures Valid()
      ensures r.None? <==> old(CountFull(src))
      ensures r.None? ==> Now() == old(Now())
      ensures r.Some? ==>
                && r.value !in old(handles) && handles == old(handles)[r.value := old(handles[src])]
                && Frame(t, old(Now()), Now(), {}) && blocks.Keys == old(blocks.Keys)
                && Shape(t, blocks, handles[r.value]) && Shape(t, old(blocks), old(handles[src]))
                && TextOf(r.value) == old(TextOf(src)) && CapacityOf(r.value) == old(CapacityOf(src))
    {
      hide Accounted, Shape, Owners, WF, BufferOk, CountOf, OnlyCountChanged, Put, ContentOk, Frame;
      ghost var s := Now();
      ContentShape(t, s.blocks, s.handles[src]);
      var id := nextId;
      FreshId(id);
      if handles[src].form.Heap? {
        HandleFacts(t, s, src);
        var kind, base, off := handles[src].kind, handles[src].form.base, handles[src].form.off;
        ghost var mem := blocks[base];
        // `fetch_add(1)`
        var prev := CountOf(t, kind, blocks[base], off);
        CountWritten(t, kind, mem, off, prev + 1);
        WriteBlock(base, Put(blocks[base], CountAt(t, kind, off), Le(prev + 1, t.W())));
        if prev > t.IsizeMax() {
          // `ref_count_overflow` gives the count back before it panics
          CountRestored(t, kind, mem, off, prev, prev + 1);
          WriteBlock(base, Put(blocks[base], CountAt(t, kind, off), Le(prev, t.W())));
          assert blocks == s.blocks;
          return None;
        }
        AddShared(t, s, src, id, blocks[base]);
      } else {
        AddPlain(t, s, id, s.handles[src]);
        OtherBlock(t, s.blocks, s.blocks, s.handles[src], 0);
      }
      AddHandle(id, handles[src]);
      CloneContent(t, s, Now(), src, id);
      OkAfter(t, s, Now(), {id});
      FrameFresh(t, s, Now(), id);
      return Some(id);
    }

    /** Another reference would be one too many. */
    ghost predicate CountFull(id: nat)
      requires id in handles
      reads this`handles
    {
      handles[id].form.Heap? && |Owners(handles, handles[id].form.base)| > t.IsizeMax()
    }

    lemma FreshId(id: nat)
      requires Accounted() && id == nextId
      ensures id !in handles
    {
    }

    method AddHandle(id: nat, r: Repr)
      requires Accounted() && id == nextId
      modifies this`handles, this`nextId
      ensures Accounted() && handles == old(handles)[id := r]
    {
      handles, nextId := handles[id := r], nextId + 1;
    }

    // ----- uniqueness and reallocation -----

    /** `id` may be written in place: not static, and not shared. */
    ghost predicate Modifiable(id: nat)
      requires id in handles
      reads this`handles
    {
      !handles[id].form.Static? && Unshared(id)
    }

    /** Only `id` has changed, and it holds `text` now. */
    ghost predicate Updated(s: State, id: nat, text: seq<byte>)
      requires id in s.handles
      reads this`blocks, this`handles
    {
      && handles.Keys == s.handles.Keys && Frame(t, s, Now(), {id})
      && id in handles && handles[id].kind == s.handles[id].kind && Shape(t, blocks, handles[id])
      && TextOf(id) == text
    }

    lemma UpdatedRefl(id: nat)
      requires id in handles && Shape(t, blocks, handles[id])
      ensures Updated(Now(), id, TextOf(id))
    {
      FrameRefl(t, Now(), {id});
    }

    method IsUnique(id: nat) returns (unique: bool)
      requires WF(t, Now()) && id in handles
      ensures unique <==> Unshared(id)
    {
      if !handles[id].form.Heap? {
        return true;
      }
      HandleFacts(t, Now(), id);
      hide WF, BufferOk, Owners;
      return CountOf(t, handles[id].kind, blocks[handles[id].form.base], handles[id].form.off) == 1;
    }

    method IsModifiable(id: nat) returns (modifiable: bool)
      requires WF(t, Now()) && id in handles
      ensures modifiable <==> Modifiable(id)
    {
      hide WF, Owners;
      var unique := IsUnique(id);
      return !handles[id].form.Static? && unique;
    }

    /** `replace_inner` with a value that was made for it. */
    method Become(id: nat, tmp: nat, ghost s: State, ghost text: seq<byte>, ghost cap: nat)
      requires Valid() && id in s.handles && id in handles && Added(s, s.handles[id].kind, tmp, text, cap)
      modifies this`blocks, this`handles, this`freed
      ensures Valid() && Updated(s, id, text) && CapacityOf(id) == cap && Unshared(id)
      ensures handles[id].form == old(handles[tmp].form)
    {
      hide Shape, Owners, WF, ContentOk, Frame, Ok, Accounted;
      ghost var s1 := Now();
      ReplaceInner(id, tmp);
      FrameThroughTemp(t, s, s1, Now(), id, tmp);
    }

    /** `HeapBuffer::realloc`. */
    method HeapRealloc(id: nat, newCapacity: nat) returns (ok: bool)
      requires Valid() && id in handles && handles[id].kind.Growable? && handles[id].form.Heap?
      requires Unshared(id) && newCapacity > t.Inline()
      requires Shape(t, blocks, handles[id]) && |TextOf(id)| <= newCapacity
      modifies this
      ensures Valid()
      ensures !ok ==> Now() == old(Now())
      ensures ok ==> Updated(old(Now()), id, old(TextOf(id))) && CapacityOf(id) == newCapacity
      ensures ok ==> Unshared(id) && handles[id].form.Heap?
      ensures refused >= old(refused) && (ok <==> refused == old(refused) && newCapacity <= Limit(t, Growable))
      ensures !ok ==> moved == old(moved) && carried == old(carried)
      ensures ok ==>
                && moved == old(moved) + DataTaken(t, old(|TextOf(id)|), old(CapacityOf(id)), newCapacity)
                && carried - old(carried) == moved - old(moved) + HeaderTaken(t, old(CapacityOf(id)), newCapacity)
    {
      hide Owners, WF, ContentOk, Frame, Accounted, LayoutFor, ReallocSize, BufferOk, LenOf, Ok;
      ghost var s := Now();
      LiveBuffer(t, s, id);
      if newCapacity <= CapMax(t) { LayoutAccepts(t, Growable, newCapacity); }
      MovedBounds(t, blocks, handles[id], newCapacity);
      if newCapacity > CapMax(t) {
        return false;
      }
      var base, off, tl := handles[id].form.base, handles[id].form.off, handles[id].form.tl;
      var mem := blocks[base];
      var curCapacity := CapOf(t, mem, off);
      AllocatorDiscipline(t, Growable, mem, off, tl);
      var curLayout := AllocLayout(t, Growable, mem, off, tl).value;
      if LenHeapLayout(t, curCapacity) != LenHeapLayout(t, newCapacity) {
        // The length slot comes or goes, so the data moves to a new buffer.
        var tmp := FromStrWithCapacity(Text(t, blocks, handles[id]), newCapacity);
        if tmp.None? {
          return false;
        }
        // `id` is unique, so this frees its allocation.
        Become(id, tmp.value, s, Text(t, s.blocks, s.handles[id]), newCapacity);
        return true;
      }
      var size := ReallocSize(t, newCapacity);
      ReallocAgreesWithLayout(t, newCapacity);
      if size.None? {
        return false;
      }
      if newCapacity <= Limit(t, Growable) { ResizedDataArea(t, blocks, handles[id], newCapacity, size.value); }
      ok := ReallocInPlace(id, base, off, tl, mem, curLayout, newCapacity, size.value);
    }

    /** The branch of `HeapBuffer::realloc` that asks the allocator to resize. */
    method ReallocInPlace(id: nat, base: nat, off: nat, tl: TextLen, ghost mem: seq<byte>, curLayout: nat,
        newCapacity: nat, size: nat)
      returns (ok: bool)
      requires Valid() && id in handles && handles[id] == Repr(Growable, Heap(base, off, tl)) && Unshared(id)
      requires base in blocks && blocks[base] == mem && curLayout == |mem| && BufferOk(t, Growable, mem, off, tl)
      requires AllocationOffset(t, Growable, mem, off, tl) == 0
      requires LenHeapLayout(t, CapOf(t, mem, off)) == LenHeapLayout(t, newCapacity)
      requires t.Inline() < newCapacity <= CapMax(t) && LayoutFor(t, Growable, newCapacity) == Some(size)
      requires Shape(t, blocks, handles[id]) && |TextOf(id)| <= newCapacity
      requires off <= |mem| && off <= size
      modifies this
      ensures Valid()
      ensures !ok ==> Now() == old(Now())
      ensures ok ==> Updated(old(Now()), id, old(TextOf(id))) && CapacityOf(id) == newCapacity
      ensures ok ==> Unshared(id) && handles[id].form.Heap?
      ensures refused >= old(refused) && (ok <==> refused == old(refused))
      ensures moved == old(moved) + (if !ok then 0 else (if |mem| < size then |mem| else size) - off)
      ensures carried - old(carried) == moved - old(moved) + (if ok then off else 0)
    {
      hide Owners, WF, Ok, Frame, Accounted, LayoutFor, LenOf, Text, Capacity, Shape;
      ghost var s := Now();
      var allocation := Realloc(base, AllocationOffset(t, Growable, blocks[base], off, tl), curLayout, size, off);
      if allocation.None? {
        return false;
      }
      FinishResize(id, base, allocation.value, off, tl, newCapacity, s);
      ok := true;
    }

    /** The success path of `realloc`: header and pointer of the resized allocation. */
    method FinishResize(id: nat, ghost base: nat, grown: nat, off: nat, tl: TextLen, newCapacity: nat, ghost s: State)
      requires Ok(t, s) && Accounted() && id in s.handles && s.handles[id] == Repr(Growable, Heap(base, off, tl))
      requires Owners(s.handles, base) == {id} && handles == s.handles && base in s.blocks
      requires (grown == base || grown !in s.blocks) && grown in blocks
      requires blocks == (s.blocks - {base})[grown := blocks[grown]]
      requires var mem := s.blocks[base]; var n := if |mem| < |blocks[grown]| then |mem| else |blocks[grown]|;
               && BufferOk(t, Growable, mem, off, tl) && blocks[grown][..n] == mem[..n]
               && LenHeapLayout(t, CapOf(t, mem, off)) == LenHeapLayout(t, newCapacity)
      requires t.Inline() < newCapacity <= CapMax(t) && LayoutFor(t, Growable, newCapacity) == Some(|blocks[grown]|)
      requires Shape(t, s.blocks, s.handles[id]) && |Text(t, s.blocks, s.handles[id])| <= newCapacity
      modifies this`blocks, this`handles
      ensures Valid() && Updated(s, id, Text(t, s.blocks, s.handles[id])) && CapacityOf(id) == newCapacity
      ensures Unshared(id) && handles[id].form.Heap?
    {
      hide Owners, WF, ContentOk, Frame, Accounted, LayoutFor, BufferOk, LenOf, CountOf, HeapCap, Utf8.Valid, Text,
          Capacity, CompleteBuffer, WriteHeader, Ok;
      ghost var mem, text := s.blocks[base], Text(t, s.blocks, s.handles[id]);
      TextBytes(t, s.blocks, s.handles[id]);
      OkText(t, s, id);
      Resized(t, mem, off, tl, blocks[grown], newCapacity);
      WriteBlock(grown, WriteHeader(t, Growable, blocks[grown], off - Header(t, Growable), newCapacity));
      SetHandle(id, Repr(Growable, Heap(grown, off, tl)));
      Rebuilt(t, s, Now(), id, newCapacity, text);
      OkAfter(t, s, Now(), {id});
      assert handles.Keys == s.handles.Keys;
    }

    method SetHandle(id: nat, r: Repr)
      requires Accounted() && id in handles
      modifies this`handles
      ensures Accounted() && handles == old(handles)[id := r]
    {
      handles := handles[id := r];
    }

    /** Bytes of data that going to another capacity takes along: nothing is left of a buffer that goes
        inline, and of a shared or static one the text is copied. */
    ghost function DataFor(id: nat, capacity: nat): nat
      requires id in handles && Shape(t, blocks, handles[id])
      reads this`blocks, this`handles
    {
      if capacity <= t.Inline() then 0
      else if Modifiable(id) then DataTaken(t, |TextOf(id)|, CapacityOf(id), capacity)
      else |TextOf(id)|
    }

    ghost function HeaderFor(id: nat, capacity: nat): nat
      requires id in handles && Shape(t, blocks, handles[id])
      reads this`blocks, this`handles
    {
      if capacity > t.Inline() && Modifiable(id) then HeaderTaken(t, CapacityOf(id), capacity) else 0
    }

    /** `Repr::reallocate`. */
    method Reallocate(id: nat, capacity: nat) returns (ok: bool)
      requires Valid() && id in handles && handles[id].kind.Growable?
      requires Shape(t, blocks, handles[id]) && |TextOf(id)| <= capacity
      modifies this
      ensures Valid()
      ensures !ok ==> Now() == old(Now())
      ensures ok ==> Updated(old(Now()), id, old(TextOf(id))) && CapacityOf(id) == Room(capacity) && Modifiable(id)
      ensures capacity <= t.Inline() ==> ok
      ensures refused >= old(refused) && (ok <==> refused == old(refused) && capacity <= Limit(t, Growable))
      ensures moved == old(moved) + (if ok then old(DataFor(id, capacity)) else 0)
      ensures carried - old(carried) == moved - old(moved) + (if ok then old(HeaderFor(id, capacity)) else 0)
    {
      hide Owners, WF, ContentOk, Frame, Accounted, Ok, Text, Capacity, Utf8.Valid;
      ghost var s := Now();
      OkText(t, s, id);
      var text := Text(t, blocks, handles[id]);
      TextLimit(t, blocks, handles[id]);
      if capacity <= t.Inline() {
        InlineRoundTrip(t, Growable, blocks, text);
        InlineCapacity(t, Growable, blocks, InlineOf(t, text));
        var tmp := AdoptPlain(Repr(Growable, Inline(InlineOf(t, text))));
        Become(id, tmp, s, text, t.Inline());
        return true;
      }
      var unique := IsUnique(id);
      if handles[id].form.Heap? && unique {
        ok := HeapRealloc(id, capacity);
      } else {
        if handles[id].form.Inline? { InlineCapacity(t, Growable, blocks, handles[id].form.buf); }
        assert DataFor(id, capacity) == |text| && HeaderFor(id, capacity) == 0;
        var tmp := FromStrWithCapacity(text, capacity);
        if tmp.None? {
          return false;
        }
        // The old value is needed up to here: a refusal above returns with it unchanged.
        Become(id, tmp.value, s, text, capacity);
        ok := true;
      }
    }

    /** `Repr::grow_amortized`. */
    method GrowAmortized(id: nat, additional: nat) returns (ok: bool)
      requires Valid() && id in handles && handles[id].kind.Growable? && Shape(t, blocks, handles[id])
      modifies this
      ensures Valid()
      ensures !ok ==> Now() == old(Now())
      ensures ok ==> Updated(old(Now()), id, old(TextOf(id))) && Modifiable(id)
      ensures ok ==> CapacityOf(id) == Room(GrowCap(t, |old(TextOf(id))|, additional))
      ensures |TextOf(id)| + additional <= t.Inline() ==> ok
      ensures refused >= old(refused)
      ensures ok <==> refused == old(refused) && GrowCap(t, |old(TextOf(id))|, additional) <= Limit(t, Growable)
      ensures var capacity := GrowCap(t, |old(TextOf(id))|, additional);
              && moved == old(moved) + (if ok then old(DataFor(id, capacity)) else 0)
              && carried - old(carried) == moved - old(moved) + (if ok then old(HeaderFor(id, capacity)) else 0)
    {
      hide Owners, WF, ContentOk, Frame, Accounted, Ok, Text, Capacity, Utf8.Valid;
      OkText(t, Now(), id);
      TextLimit(t, blocks, handles[id]);
      var len := Len(t, blocks, handles[id]);
      if len + additional >= t.Radix() {
        return false;
      }
      assert len + len / 2 < t.Radix();
      ok := Reallocate(id, GrowCap(t, len, additional));
    }

    /** `Repr::grow_exact`. */
    method GrowExact(id: nat, additional: nat) returns (ok: bool)
      requires Valid() && id in handles && handles[id].kind.Growable? && Shape(t, blocks, handles[id])
      modifies this
      ensures Valid()
      ensures !ok ==> Now() == old(Now())
      ensures ok ==> Updated(old(Now()), id, old(TextOf(id))) && Modifiable(id)
      ensures ok ==> CapacityOf(id) == Room(|old(TextOf(id))| + additional)
      ensures refused >= old(refused)
      ensures ok <==> refused == old(refused) && |old(TextOf(id))| + additional <= Limit(t, Growable)
    {
      hide Owners, WF, ContentOk, Frame, Accounted, Ok, Text, Capacity, Utf8.Valid;
      OkText(t, Now(), id);
      TextLimit(t, blocks, handles[id]);
      var len := Len(t, blocks, handles[id]);
      if len + additional >= t.Radix() {
        return false;
      }
      ok := Reallocate(id, len + additional);
    }

    /** `spare_capacity() < n || !is_modifiable()`. */
    method NeedsRoom(id: nat, n: nat) returns (needs: bool)
      requires Valid() && id in handles && handles[id].kind.Growable? && Shape(t, blocks, handles[id])
      ensures |TextOf(id)| <= CapacityOf(id)
      ensures needs <==> CapacityOf(id) - |TextOf(id)| < n || !Modifiable(id)
    {
      hide Owners, WF, ContentOk, Frame, Accounted, BufferOk, Utf8.Valid, Text;
      TextLimit(t, blocks, handles[id]);
      var modifiable := IsModifiable(id);
      return Capacity(t, blocks, handles[id]) - Len(t, blocks, handles[id]) < n || !modifiable;
    }

    /** `Repr::reserve` and `Repr::reserve_exact`. */
    method Reserve(id: nat, additional: nat, exact: bool) returns (ok: bool)
      requires Valid() && id in handles && handles[id].kind.Growable? && Shape(t, blocks, handles[id])
      modifies this
      ensures Valid()
      ensures !ok ==> Now() == old(Now())
      ensures ok ==> Updated(old(Now()), id, old(TextOf(id)))
      ensures ok && additional > 0 ==> Modifiable(id) && CapacityOf(id) >= |TextOf(id)| + additional
      ensures ok && additional > 0
                && !(old(Modifiable(id)) && old(CapacityOf(id)) >= old(|TextOf(id)|) + additional) ==>
                CapacityOf(id) ==
                  Room(if exact then |TextOf(id)| + additional else GrowCap(t, |TextOf(id)|, additional))
      ensures additional == 0 || (old(Modifiable(id)) && old(CapacityOf(id)) >= old(|TextOf(id)|) + additional) ==>
                ok && Now() == old(Now())
      ensures refused >= old(refused) && (ok <==>
                && refused == old(refused)
                && (|| additional == 0
                    || (old(Modifiable(id)) && old(CapacityOf(id)) >= old(|TextOf(id)|) + additional)
                    || old(if exact then |TextOf(id)| + additional
                           else GrowCap(t, |TextOf(id)|, additional)) <= Limit(t, Growable)))
    {
      hide Owners, WF, ContentOk, Frame, Accounted, Ok, Text, Capacity, Utf8.Valid;
      FrameRefl(t, Now(), {id});
      if additional == 0 {
        return true;
      }
      var needs := NeedsRoom(id, additional);
      if !needs {
        return true;
      }
      if exact {
        ok := GrowExact(id, additional);
      } else {
        ok := GrowAmortized(id, additional);
      }
    }

    /** `Repr::shrink_to`. */
    method ShrinkTo(id: nat, minCapacity: nat) returns (ok: bool)
      requires Valid() && id in handles && handles[id].kind.Growable? && Shape(t, blocks, handles[id])
      modifies this
      ensures Valid()
      ensures !ok ==> Now() == old(Now())
      ensures ok ==> Updated(old(Now()), id, old(TextOf(id)))
      ensures ok ==>
                var want := if |old(TextOf(id))| < minCapacity then minCapacity else |old(TextOf(id))|;
                CapacityOf(id) ==
                  if old(handles[id].form.Heap?) && want < old(CapacityOf(id)) then Room(want) else old(CapacityOf(id))
      ensures var want := if |old(TextOf(id))| < minCapacity then minCapacity else |old(TextOf(id))|;
              if old(handles[id].form.Heap? && want < CapacityOf(id)) then ok ==> Modifiable(id)
              else Now() == old(Now())
      ensures refused >= old(refused) && (ok <==> refused == old(refused))
    {
      hide Owners, WF, ContentOk, Frame, Accounted, Ok, Text, Capacity, Utf8.Valid;
      FrameRefl(t, Now(), {id});
      if !handles[id].form.Heap? {
        return true;
      }
      TextLimit(t, blocks, handles[id]);
      WithinLimit(t, blocks, handles[id]);
      var len := Len(t, blocks, handles[id]);
      var capacity := if len < minCapacity then minCapacity else len;
      if capacity < Capacity(t, blocks, handles[id]) {
        ok := Reallocate(id, capacity);
      } else {
        ok := true;
      }
    }

    /** `Repr::ensure_modifiable`. */
    method EnsureModifiable(id: nat) returns (ok: bool)
      requires Valid() && id in handles && handles[id].kind.Growable? && Shape(t, blocks, handles[id])
      modifies this
      ensures Valid()
      ensures !ok ==> Now() == old(Now())
      ensures ok ==> Updated(old(Now()), id, old(TextOf(id))) && Modifiable(id)
      ensures old(Modifiable(id)) ==> ok && Now() == old(Now()) && next == old(next) && freed == old(freed)
      ensures ok && !old(Modifiable(id)) ==> CapacityOf(id) == Room(|TextOf(id)|)
      ensures refused >= old(refused) && (ok <==> refused == old(refused))
    {
      hide Owners, WF, ContentOk, Frame, Accounted, Ok, Text, Capacity, Utf8.Valid;
      ghost var s := Now();
      FrameRefl(t, s, {id});
      OkText(t, s, id);
      var modifiable := IsModifiable(id);
      if modifiable {
        return true;
      }
      var text := Text(t, blocks, handles[id]);
      WithinLimit(t, blocks, handles[id]);
      var copied := FromStr(Growable, text);
      if copied.None? {
        return false;
      }
      Become(id, copied.value, s, text, Room(|text|));
      ok := true;
    }

    // ----- editing in place -----

    /** `id` is being edited in place since state `s`: nothing else has changed, and its data area
        holds `data`, which need not be a valid text yet. */
    ghost predicate Editing(s: State, id: nat, data: seq<byte>)
      reads this`blocks, this`handles, this`next, this`nextId, this`freed
    {
      && WF(t, Now()) && Accounted()
      && id in s.handles && s.handles[id].kind.Growable?
      && handles.Keys == s.handles.Keys && Frame(t, s, Now(), {id})
      && id in handles && handles[id].kind.Growable? && Modifiable(id)
      && Shape(t, blocks, handles[id])
      && DataOf(blocks, handles[id]) == data && |data| == CapacityOf(id)
    }

    lemma BeginEdit(s: State, id: nat, text: seq<byte>)
      requires Valid() && id in s.handles && s.handles[id].kind.Growable? && Updated(s, id, text) && Modifiable(id)
      ensures Editing(s, id, DataOf(blocks, handles[id]))
      ensures var data := DataOf(blocks, handles[id]);
              && |data| == CapacityOf(id) >= |text| && data[..|text|] == text
              && (handles[id].form.Inline? ==> |data| == t.Inline() && data[t.Inline() - 1] < HEAP_MARKER)
    {
      hide WF, Shape, Text, Capacity, Frame, Accounted, DataOf, Owners;
      TextInData(t, blocks, handles[id]);
    }

    /** `ptr.copy_from_nonoverlapping(bytes)` at data offset `at`. */
    method Write(id: nat, at: nat, bytes: seq<byte>, ghost s: State, ghost data: seq<byte>)
      requires Editing(s, id, data) && at + |bytes| <= |data|
      modifies this`blocks, this`handles
      ensures Editing(s, id, Put(data, at, bytes)) && freed == old(freed)
      ensures handles[id].form.Inline? == old(handles[id].form.Inline?)
      ensures handles[id].form.Heap? ==> Len(t, blocks, handles[id]) == old(Len(t, blocks, handles[id]))
    {
      hide WF, Frame, Accounted, Owners, BufferOk, Put;
      ghost var s1 := Now();
      if handles[id].form.Heap? {
        var base, off := handles[id].form.base, handles[id].form.off;
        HandleFacts(t, s1, id);
        LiveCapacity(t, blocks, handles[id]);
        PutInData(blocks[base], off, at, bytes);
        DataRewritten(t, s1, id, Put(blocks[base], off + at, bytes));
        WriteBlock(base, Put(blocks[base], off + at, bytes));
      } else {
        InlineRewritten(t, s1, id, Put(handles[id].form.buf, at, bytes));
        SetHandle(id, Repr(Growable, Inline(Put(handles[id].form.buf, at, bytes))));
      }
      FrameStep(t, s, s1, Now(), {id});
    }

    /** `ptr::copy` of `n` bytes within the data area. */
    method CopyWithin(id: nat, src: nat, dst: nat, n: nat, ghost s: State, ghost data: seq<byte>)
      requires Editing(s, id, data) && src + n <= |data| && dst + n <= |data|
      modifies this`blocks, this`handles
      ensures Editing(s, id, Move(data, src, dst, n)) && freed == old(freed)
      ensures handles[id].form.Inline? == old(handles[id].form.Inline?)
    {
      var bytes := DataOf(blocks, handles[id])[src..src + n];
      Write(id, dst, bytes, s, data);
    }

    /** `Repr::set_len`, which ends an edit.  It dispatches on the last byte of the handle, so that
        byte must not read as a heap or static marker even in the middle of an edit. */
    method SetLen(id: nat, len: nat, ghost s: State, ghost data: seq<byte>)
      requires Ok(t, s) && Editing(s, id, data) && len <= |data| && Utf8.Valid(data[..len])
      requires handles[id].form.Inline? ==> |data| == t.Inline() && data[t.Inline() - 1] < HEAP_MARKER
      modifies this`blocks, this`handles
      ensures Valid() && Updated(s, id, data[..len]) && CapacityOf(id) == |data| && Modifiable(id)
      ensures freed == old(freed)
    {
      hide WF, Frame, Accounted, Owners, BufferOk, Ok, Utf8.Valid, CompleteBuffer, CountOf, WriteSlot, Text, Capacity;
      ghost var s1 := Now();
      if handles[id].form.Heap? {
        var base, off, tl := handles[id].form.base, handles[id].form.off, handles[id].form.tl;
        HandleFacts(t, s1, id);
        LiveCapacity(t, blocks, handles[id]);
        ghost var mem := blocks[base];
        LengthChanged(t, mem, off, tl, len);
        var newLen := NewTextLen(t, len).value;
        if newLen.OnHeap? {
          WriteBlock(base, WriteSlot(t, Growable, blocks[base], off, len));
        }
        SetHandle(id, Repr(Growable, Heap(base, off, newLen)));
        DataFront(mem, blocks[base], off, len);
        MapReplace(s1.blocks, base, blocks[base]);
        Rebuilt(t, s1, Now(), id, |data|, data[..len]);
      } else {
        var buf := handles[id].form.buf;
        if len < t.Inline() {
          buf := buf[t.Inline() - 1 := MASK + len];
        }
        InlineLenSet(t, Growable, blocks, handles[id].form.buf, len);
        InlineRewritten(t, s1, id, buf);
        SetHandle(id, Repr(Growable, Inline(buf)));
      }
      FrameStep(t, s, s1, Now(), {id});
      OkAfter(t, s, Now(), {id});
    }

    // ----- edits -----

    /** Writes `bytes` behind the text and extends the length. */
    method Append(id: nat, bytes: seq<byte>, ghost s: State, ghost text: seq<byte>)
      requires Ok(t, s) && Valid() && id in s.handles && s.handles[id].kind.Growable?
      requires Updated(s, id, text) && Modifiable(id)
      requires |text| + |bytes| <= CapacityOf(id) && Utf8.Valid(text) && Utf8.Valid(bytes)
      modifies this`blocks, this`handles
      ensures Valid() && Updated(s, id, text + bytes) && Modifiable(id) && CapacityOf(id) == old(CapacityOf(id))
    {
      hide WF, Frame, Accounted, Owners, BufferOk, Utf8.Valid, Put, Text, Capacity, DataOf, Ok, Shape, Editing, Len;
      BeginEdit(s, id, text);
      TextLimit(t, blocks, handles[id]);
      ghost var data := DataOf(blocks, handles[id]);
      var len := Len(t, blocks, handles[id]);
      var inline := handles[id].form.Inline?;
      AppendedData(data, text, bytes);
      Utf8.ValidConcat(text, bytes);
      Write(id, len, bytes, s, data);
      ghost var d := Put(data, |text|, bytes);
      if inline { MarkerSafe(data, d, |text| + |bytes|); }
      SetLen(id, len + |bytes|, s, d);
    }

    /** `Repr::push_str`. */
    method PushStr(id: nat, added: Str) returns (ok: bool)
      requires Valid() && id in handles && handles[id].kind.Growable? && Shape(t, blocks, handles[id])
      requires StrOk(added, id)
      modifies this
      ensures Valid()
      ensures !ok ==> Now() == old(Now())
      ensures ok ==> Updated(old(Now()), id, old(TextOf(id)) + old(StrBytes(added)))
      ensures old(StrBytes(added)) == [] ==> ok && Now() == old(Now())
      ensures ok && old(StrBytes(added)) != [] ==>
                Modifiable(id) && CapacityOf(id) == old(GrownFor(id, |StrBytes(added)|))
      ensures refused >= old(refused)
      ensures ok <==>
                refused == old(refused)
                && old(StrBytes(added) == [] || GrownFor(id, |StrBytes(added)|) <= Limit(t, Growable))
      ensures var none := !ok || old(StrBytes(added)) == [];
              && moved == old(moved) + (if none then 0 else old(MovedFor(id, |StrBytes(added)|)))
              && carried == old(carried) + (if none then 0 else old(CarriedFor(id, |StrBytes(added)|)))
      ensures old(HasRoom(id, |StrBytes(added)|)) ==> next == old(next) && freed == old(freed)
    {
      hide WF, Frame, Accounted, Owners, BufferOk, Utf8.Valid, Text, Capacity, Ok, StrBytes, StrIn;
      ghost var s := Now();
      FrameRefl(t, s, {id});
      OkText(t, s, id);
      if added.Borrowed? { OkText(t, s, added.src); }
      ghost var bytes := StrBytes(added);
      StrKept(s, id, added);
      if |StrBytes(added)| == 0 {
        assert TextOf(id) + bytes == TextOf(id);
        return true;
      }
      ok := MakeRoom(id, |StrBytes(added)|);
      if ok {
        // A borrowed text is read again here, after the buffer it shared with `id` was given up.
        StrKept(s, id, added);
        Append(id, StrBytes(added), s, Text(t, s.blocks, s.handles[id]));
      }
    }

    /** `n` more bytes may be written where they are. */
    ghost predicate HasRoom(id: nat, n: nat)
      requires id in handles && Shape(t, blocks, handles[id])
      reads this`blocks, this`handles
    {
      Modifiable(id) && |TextOf(id)| + n <= CapacityOf(id)
    }

    /** Capacity after `n` more bytes were made room for. */
    ghost function GrownFor(id: nat, n: nat): nat
      requires id in handles && Shape(t, blocks, handles[id])
      reads this`blocks, this`handles
    {
      if HasRoom(id, n) then CapacityOf(id)
      else Room(GrowCap(t, |TextOf(id)|, n))
    }

    /** Bytes of data that making room for `n` more bytes takes along, and all bytes. */
    ghost function MovedFor(id: nat, n: nat): nat
      requires id in handles && Shape(t, blocks, handles[id])
      reads this`blocks, this`handles
    {
      if HasRoom(id, n) then 0 else DataFor(id, GrownFor(id, n))
    }

    ghost function CarriedFor(id: nat, n: nat): nat
      requires id in handles && Shape(t, blocks, handles[id])
      reads this`blocks, this`handles
    {
      if HasRoom(id, n) then 0 else DataFor(id, GrownFor(id, n)) + HeaderFor(id, GrownFor(id, n))
    }

    /** The guard every growing edit starts with. */
    method MakeRoom(id: nat, n: nat) returns (ok: bool)
      requires Valid() && id in handles && handles[id].kind.Growable? && Shape(t, blocks, handles[id])
      modifies this
      ensures Valid()
      ensures !ok ==> Now() == old(Now())
      ensures ok ==> Updated(old(Now()), id, old(TextOf(id))) && Modifiable(id)
      ensures ok ==> CapacityOf(id) == old(GrownFor(id, n)) >= |TextOf(id)| + n
      ensures old(Modifiable(id)) && old(|TextOf(id)|) + n <= old(CapacityOf(id)) ==> ok
      ensures refused >= old(refused)
      ensures ok <==> refused == old(refused) && old(GrownFor(id, n)) <= Limit(t, Growable)
      ensures moved == old(moved) + (if ok then old(MovedFor(id, n)) else 0)
      ensures carried == old(carried) + (if ok then old(CarriedFor(id, n)) else 0)
      ensures old(HasRoom(id, n)) ==> Now() == old(Now()) && next == old(next) && freed == old(freed)
    {
      hide WF, Frame, Accounted, Owners, BufferOk, Utf8.Valid, Text, Capacity, Ok;
      FrameRefl(t, Now(), {id});
      WithinLimit(t, blocks, handles[id]);
      var needs := NeedsRoom(id, n);
      if needs {
        ok := GrowAmortized(id, n);
      } else {
        ok := true;
      }
    }

    /** `Repr::push_char`. */
    method PushChar(id: nat, ch: Utf8.Scalar) returns (ok: bool)
      requires Valid() && id in handles && handles[id].kind.Growable? && Shape(t, blocks, handles[id])
      modifies this
      ensures Valid()
      ensures !ok ==> Now() == old(Now())
      ensures ok ==> Updated(old(Now()), id, old(TextOf(id)) + Utf8.EncodeChar(ch)) && Modifiable(id)
      ensures ok ==> CapacityOf(id) == old(GrownFor(id, |Utf8.EncodeChar(ch)|))
      ensures old(Modifiable(id)) && old(|TextOf(id)|) + |Utf8.EncodeChar(ch)| <= old(CapacityOf(id)) ==> ok
      ensures refused >= old(refused)
      ensures ok <==> refused == old(refused) && old(GrownFor(id, |Utf8.EncodeChar(ch)|)) <= Limit(t, Growable)
      ensures moved == old(moved) + (if ok then old(MovedFor(id, |Utf8.EncodeChar(ch)|)) else 0)
      ensures carried == old(carried) + (if ok then old(CarriedFor(id, |Utf8.EncodeChar(ch)|)) else 0)
      ensures old(HasRoom(id, |Utf8.EncodeChar(ch)|)) ==> next == old(next) && freed == old(freed)
    {
      hide WF, Frame, Accounted, Owners, BufferOk, Utf8.Valid, Text, Capacity, Ok, Utf8.EncodeChar;
      ghost var s := Now();
      OkText(t, s, id);
      Utf8.EncodedCharValid(ch);
      var bytes := Utf8.EncodeChar(ch);
      ok := MakeRoom(id, |bytes|);
      if ok {
        Append(id, bytes, s, Text(t, s.blocks, s.handles[id]));
      }
    }

    /** `Repr::extend_from_within`. */
    method ExtendFromWithin(id: nat, lo: Bound, hi: Bound) returns (r: Outcome)
      requires Valid() && id in handles && handles[id].kind.Growable? && Shape(t, blocks, handles[id])
      modifies this
      ensures Valid()
      ensures r.Panicked? <==> SliceRange(t, old(TextOf(id)), lo, hi).None?
      ensures !r.Done? ==> Now() == old(Now())
      ensures r.Done? ==>
                var (start, end) := SliceRange(t, old(TextOf(id)), lo, hi).value;
                && start <= end <= |old(TextOf(id))|
                && Updated(old(Now()), id, old(TextOf(id)) + old(TextOf(id))[start..end])
                && (start == end ==> Now() == old(Now()))
                && (start < end ==>
                      && Modifiable(id) && CapacityOf(id) == old(GrownFor(id, end - start))
                      && moved == old(moved) + old(MovedFor(id, end - start))
                      && carried == old(carried) + old(CarriedFor(id, end - start)))
                && (old(HasRoom(id, end - start)) ==> next == old(next) && freed == old(freed))
      ensures refused >= old(refused) && (r.Panicked? ==> refused == old(refused))
      ensures !r.Panicked? ==>
                var (start, end) := SliceRange(t, old(TextOf(id)), lo, hi).value;
                && start <= end
                && (r.Done? <==> refused == old(refused)
                                 && (start == end || old(GrownFor(id, end - start)) <= Limit(t, Growable)))
    {
      hide WF, Frame, Accounted, Owners, BufferOk, Utf8.Valid, Text, Capacity, Ok, DataOf, Put, SliceRange;
      ghost var s := Now();
      FrameRefl(t, s, {id});
      OkText(t, s, id);
      ghost var text := TextOf(id);
      var range := SliceRange(t, Text(t, blocks, handles[id]), lo, hi);
      if range.None? {
        return Panicked;
      }
      SliceRangeCuts(t, text, lo, hi);
      var (start, end) := range.value;
      if start == end {
        assert text + text[start..end] == text;
        return Done;
      }
      var ok := MakeRoom(id, end - start);
      if !ok {
        return NoMemory;
      }
      // The copy reads the same bytes: growing kept the text.
      BeginEdit(s, id, text);
      var bytes := DataOf(blocks, handles[id])[start..end];
      TakeSlice(DataOf(blocks, handles[id]), |text|, start, end);
      Append(id, bytes, s, text);
      return Done;
    }

    /** Moves the suffix, writes the replacement and sets the length. */
    method SpliceInPlace(id: nat, start: nat, end: nat, bytes: seq<byte>, ghost s: State, ghost text: seq<byte>)
      requires Ok(t, s) && Valid() && id in s.handles && s.handles[id].kind.Growable?
      requires Updated(s, id, text) && Modifiable(id)
      requires start <= end <= |text| && |text| - (end - start) + |bytes| <= CapacityOf(id)
      requires Utf8.Valid(Spliced(text, start, end, bytes))
      modifies this`blocks, this`handles
      ensures Valid() && Updated(s, id, Spliced(text, start, end, bytes)) && Modifiable(id)
      ensures CapacityOf(id) == old(CapacityOf(id))
    {
      hide WF, Frame, Accounted, Owners, BufferOk, Utf8.Valid, Put, Text, Capacity, DataOf, Ok, Spliced, Move;
      BeginEdit(s, id, text);
      TextLimit(t, blocks, handles[id]);
      ghost var data := DataOf(blocks, handles[id]);
      var len := Len(t, blocks, handles[id]);
      SplicedData(data, text, start, end, bytes);
      CopyWithin(id, end, start + |bytes|, len - end, s, data);
      ghost var shifted := Move(data, end, start + |bytes|, len - end);
      Write(id, start, bytes, s, shifted);
      ghost var d := Put(shifted, start, bytes);
      if handles[id].form.Inline? { MarkerSafe(data, d, len - (end - start) + |bytes|); }
      SetLen(id, len - (end - start) + |bytes|, s, d);
    }

    /** `Repr::insert_str`. */
    method InsertStr(id: nat, idx: nat, added: Str) returns (r: Outcome)
      requires Valid() && id in handles && handles[id].kind.Growable? && Shape(t, blocks, handles[id])
      requires StrOk(added, id)
      modifies this
      ensures Valid()
      ensures r.Panicked? <==> !Utf8.IsBoundary(old(TextOf(id)), idx)
      ensures !r.Done? ==> Now() == old(Now())
      ensures r.Done? ==>
                idx <= |old(TextOf(id))|
                && Updated(old(Now()), id, Spliced(old(TextOf(id)), idx, idx, old(StrBytes(added))))
      ensures old(StrBytes(added)) == [] ==> !r.NoMemory? && Now() == old(Now())
      ensures r.Done? && old(StrBytes(added)) != [] ==>
                Modifiable(id) && CapacityOf(id) == old(GrownFor(id, |StrBytes(added)|))
      ensures old(HasRoom(id, |StrBytes(added)|)) ==> next == old(next) && freed == old(freed)
      ensures var none := !r.Done? || old(StrBytes(added)) == [];
              && moved == old(moved) + (if none then 0 else old(MovedFor(id, |StrBytes(added)|)))
              && carried == old(carried) + (if none then 0 else old(CarriedFor(id, |StrBytes(added)|)))
      ensures refused >= old(refused) && (r.Panicked? ==> refused == old(refused))
      ensures !r.Panicked? ==>
                (r.Done? <==> refused == old(refused)
                              && old(StrBytes(added) == [] || GrownFor(id, |StrBytes(added)|) <= Limit(t, Growable)))
    {
      hide WF, Frame, Accounted, Owners, BufferOk, Utf8.Valid, Text, Capacity, Ok, StrBytes, StrIn, Spliced;
      ghost var s := Now();
      FrameRefl(t, s, {id});
      OkText(t, s, id);
      if added.Borrowed? { OkText(t, s, added.src); }
      ghost var bytes := StrBytes(added);
      StrKept(s, id, added);
      ghost var text := TextOf(id);
      if !Utf8.IsBoundary(Text(t, blocks, handles[id]), idx) {
        return Panicked;
      }
      Utf8.BoundarySplits(text, idx);
      if |StrBytes(added)| == 0 {
        NothingSpliced(text, idx, bytes);
        return Done;
      }
      var ok := MakeRoom(id, |StrBytes(added)|);
      if !ok {
        return NoMemory;
      }
      SplicedValid(text, idx, idx, bytes);
      StrKept(s, id, added);
      WriteReplacement(id, idx, idx, added, s, text, bytes);
      return Done;
    }

    /** `Repr::insert_char`. */
    method InsertChar(id: nat, idx: nat, ch: Utf8.Scalar) returns (r: Outcome)
      requires Valid() && id in handles && handles[id].kind.Growable? && Shape(t, blocks, handles[id])
      modifies this
      ensures Valid()
      ensures r.Panicked? <==> !Utf8.IsBoundary(old(TextOf(id)), idx)
      ensures !r.Done? ==> Now() == old(Now())
      ensures r.Done? ==>
                idx <= |old(TextOf(id))|
                && Updated(old(Now()), id, Spliced(old(TextOf(id)), idx, idx, Utf8.EncodeChar(ch)))
      ensures r.Done? ==> Modifiable(id) && CapacityOf(id) == old(GrownFor(id, |Utf8.EncodeChar(ch)|))
      ensures old(HasRoom(id, |Utf8.EncodeChar(ch)|)) ==> next == old(next) && freed == old(freed)
      ensures moved == old(moved) + (if r.Done? then old(MovedFor(id, |Utf8.EncodeChar(ch)|)) else 0)
      ensures carried == old(carried) + (if r.Done? then old(CarriedFor(id, |Utf8.EncodeChar(ch)|)) else 0)
      ensures refused >= old(refused) && (r.Panicked? ==> refused == old(refused))
      ensures !r.Panicked? ==>
                (r.Done? <==> refused == old(refused) && old(GrownFor(id, |Utf8.EncodeChar(ch)|)) <= Limit(t, Growable))
    {
      hide WF, Frame, Accounted, Owners, BufferOk, Utf8.Valid, Text, Capacity, Ok, Utf8.EncodeChar;
      ghost var s := Now();
      OkText(t, s, id);
      ghost var text := TextOf(id);
      if !Utf8.IsBoundary(Text(t, blocks, handles[id]), idx) {
        return Panicked;
      }
      Utf8.BoundarySplits(text, idx);
      Utf8.EncodedCharValid(ch);
      var bytes := Utf8.EncodeChar(ch);
      var ok := MakeRoom(id, |bytes|);
      if !ok {
        return NoMemory;
      }
      SplicedValid(text, idx, idx, bytes);
      SpliceInPlace(id, idx, idx, bytes, s, text);
      return Done;
    }

    /** `Repr::remove`. */
    method Remove(id: nat, idx: nat) returns (r: Outcome, ch: Utf8.Scalar)
      requires Valid() && id in handles && handles[id].kind.Growable? && Shape(t, blocks, handles[id])
      modifies this
      ensures Valid()
      ensures r.Panicked? <==> !Utf8.IsBoundary(old(TextOf(id)), idx) || idx == |old(TextOf(id))|
      ensures !r.Done? ==> Now() == old(Now())
      ensures r.Done? ==>
                var text := old(TextOf(id));
                && idx < |text| && Utf8.CharLen(text[idx..]) > 0 && ch == Utf8.DecodeChar(text[idx..])
                && Updated(old(Now()), id, Spliced(text, idx, idx + Utf8.CharLen(text[idx..]), []))
                && Modifiable(id)
                && CapacityOf(id) == if old(Modifiable(id)) then old(CapacityOf(id)) else Room(|text|)
      ensures old(Modifiable(id)) ==> next == old(next) && freed == old(freed)
      ensures refused >= old(refused) && (r.NoMemory? <==> refused != old(refused))
    {
      hide WF, Frame, Accounted, Owners, BufferOk, Text, Capacity, Ok, Utf8.CharLen, Utf8.DecodeChar,
          Utf8.Valid, RoomFor, Spliced;
      ch := 0;
      ghost var s := Now();
      OkText(t, s, id);
      TextLimit(t, blocks, handles[id]);
      ghost var text := TextOf(id);
      if !Utf8.IsBoundary(Text(t, blocks, handles[id]), idx) || idx >= Len(t, blocks, handles[id]) {
        return Panicked, ch;
      }
      Utf8.BoundarySplits(text, idx);
      var ok := EnsureModifiable(id);
      if !ok {
        return NoMemory, ch;
      }
      var suffix := Text(t, blocks, handles[id])[idx..];
      ch := Utf8.DecodeChar(suffix);
      var n := Utf8.CharLen(suffix);
      RemovedValid(text, idx, n);
      TextLimit(t, blocks, handles[id]);
      SpliceInPlace(id, idx, idx + n, [], s, text);
      return Done, ch;
    }

    // ----- shortening -----

    /** An edit that only shortens the text. */
    method ShortenInPlace(id: nat, len: nat, ghost s: State, ghost text: seq<byte>)
      requires Ok(t, s) && Valid() && id in s.handles && s.handles[id].kind.Growable?
      requires Updated(s, id, text) && Modifiable(id)
      requires len <= |text| && Utf8.Valid(text[..len])
      modifies this`blocks, this`handles
      ensures Valid() && Updated(s, id, text[..len]) && Modifiable(id) && CapacityOf(id) == old(CapacityOf(id))
    {
      hide WF, Frame, Accounted, Owners, BufferOk, Utf8.Valid, Text, Capacity, DataOf, Ok;
      BeginEdit(s, id, text);
      ghost var data := DataOf(blocks, handles[id]);
      SetLenFits(data, text, len);
      SetLen(id, len, s, data);
    }

    /** Capacity after the text is cut to `len` bytes: only a shared handle with its length in the allocation
        gets a buffer of its own. */
    ghost function CutCapacity(id: nat, len: nat): nat
      requires id in handles && Shape(t, blocks, handles[id])
      reads this`blocks, this`handles
    {
      if handles[id].form.Static? then len
      else if !Unshared(id) && handles[id].form.tl.OnHeap? then Room(len)
      else CapacityOf(id)
    }

    /** A shorter length in the handle; the buffer, shared or not, stays as it is. */
    method ShortenHandle(id: nat, len: nat, ghost s: State, ghost text: seq<byte>)
      requires Valid() && Now() == s && id in handles && handles[id].kind.Growable? && Shape(t, blocks, handles[id])
      requires handles[id].form.Heap? && handles[id].form.tl.InHandle?
      requires TextOf(id) == text && len <= |text| && Utf8.Valid(text[..len])
      modifies this`handles
      ensures Valid() && Updated(s, id, text[..len]) && CapacityOf(id) == old(CapacityOf(id))
      ensures handles[id].form == Heap(old(handles[id].form.base), old(handles[id].form.off), InHandle(len))
      ensures Unshared(id) <==> old(Unshared(id))
    {
      hide WF, Frame, Accounted, Owners, BufferOk, Shape, Utf8.Valid, Text, Capacity, Ok;
      OkText(t, s, id);
      var base, off := handles[id].form.base, handles[id].form.off;
      var r := Repr(Growable, Heap(base, off, InHandle(len)));
      ShortenedHandle(t, blocks, handles[id], len);
      Retarget(t, s, id, r);
      OwnersRetarget(handles, id, r, base);
      SetHandle(id, r);
      ShortenedContent(t, blocks, handles[id], text[..len]);
      OkAfter(t, s, Now(), {id});
    }

    /** `Repr::truncate_unchecked`.  On 32-bit targets a shared handle whose length is in the
        allocation must copy: its sharers read the same length slot. */
    method TruncateUnchecked(id: nat, len: nat) returns (ok: bool)
      requires Valid() && id in handles && handles[id].kind.Growable? && Shape(t, blocks, handles[id])
      requires len <= |TextOf(id)| && Utf8.Valid(TextOf(id)[..len])
      modifies this
      ensures Valid()
      ensures !ok ==> Now() == old(Now())
      ensures ok ==> Updated(old(Now()), id, old(TextOf(id))[..len])
      ensures t.Bits64? || old(Modifiable(id)) || old(CapacityOf(id)) <= MaxLen(t) ==> ok
      ensures old(handles[id].form.Heap? && handles[id].form.tl.InHandle?) ==>
                && blocks == old(blocks) && CapacityOf(id) == old(CapacityOf(id))
                && handles[id].form == Heap(old(handles[id].form.base), old(handles[id].form.off), InHandle(len))
      ensures ok ==> CapacityOf(id) == old(CutCapacity(id, len))
      ensures ok && handles[id].form.Heap? && !Unshared(id) ==>
                old(handles[id].form.Heap?) && handles[id].form.base == old(handles[id].form.base)
      ensures old(handles[id].form.Static?) ==> handles[id].form.Static?
      ensures old(handles[id].form.Static? || Modifiable(id)) ==> next == old(next) && freed == old(freed)
      ensures refused >= old(refused) && (ok <==> refused == old(refused))
      ensures ok && old(handles[id].form.Heap? && !Unshared(id)) ==>
                (Unshared(id) <==> old(handles[id].form.tl.OnHeap?))
    {
      hide WF, Frame, Accounted, Owners, Utf8.Valid, Text, Capacity, DataOf, Ok;
      ghost var s := Now();
      FrameRefl(t, s, {id});
      OkText(t, s, id);
      var text := Text(t, blocks, handles[id]);
      if handles[id].form.Heap? {
        SlotOwnerIsLong(t, blocks, handles[id]);
        hide Shape, BufferOk;
        var unique := IsUnique(id);
        if handles[id].form.tl.InHandle? {
          // The buffer itself is not touched, so sharers do not matter.
          ShortenHandle(id, len, s, text);
        } else if unique {
          ShortenInPlace(id, len, s, text);
        } else {
          WithinLimit(t, blocks, handles[id]);
          var copied := FromStr(Growable, text[..len]);
          if copied.None? {
            return false;
          }
          Become(id, copied.value, s, text[..len], Room(len));
        }
      } else if handles[id].form.Static? {
        var r := Repr(Growable, Static(handles[id].form.text, len));
        StaticShortened(t, blocks, handles[id], len);
        PlainRewritten(t, s, id, r);
        SetHandle(id, r);
        ShortenedContent(t, blocks, handles[id], text[..len]);
        StaticCapacity(t, blocks, handles[id]);
        OkAfter(t, s, Now(), {id});
      } else {
        ShortenInPlace(id, len, s, text);
      }
      ok := true;
    }

    /** `Repr::truncate`. */
    method Truncate(id: nat, len: nat) returns (r: Outcome)
      requires Valid() && id in handles && handles[id].kind.Growable? && Shape(t, blocks, handles[id])
      modifies this
      ensures Valid()
      ensures r.Panicked? <==> len < |old(TextOf(id))| && !Utf8.IsBoundary(old(TextOf(id)), len)
      ensures !r.Done? ==> Now() == old(Now())
      ensures r.Done? ==>
                Updated(old(Now()), id, if len < |old(TextOf(id))| then old(TextOf(id))[..len] else old(TextOf(id)))
      ensures t.Bits64? || old(Modifiable(id)) || old(CapacityOf(id)) <= MaxLen(t) ==> !r.NoMemory?
      ensures r.Done? && len < |old(TextOf(id))| && old(handles[id].form.Heap? && handles[id].form.tl.InHandle?) ==>
                handles[id].form == Heap(old(handles[id].form.base), old(handles[id].form.off), InHandle(len))
      ensures r.Done? && handles[id].form.Heap? && !Unshared(id) ==>
                old(handles[id].form.Heap?) && handles[id].form.base == old(handles[id].form.base)
      ensures r.Done? ==>
                CapacityOf(id) == if len < |old(TextOf(id))| then old(CutCapacity(id, len)) else old(CapacityOf(id))
      ensures old(handles[id].form.Static?) ==> handles[id].form.Static?
      ensures old(handles[id].form.Static? || Modifiable(id)) ==> next == old(next) && freed == old(freed)
      ensures len >= |old(TextOf(id))| ==> Now() == old(Now())
      ensures refused >= old(refused) && (r.NoMemory? <==> refused != old(refused))
      ensures r.Done? && len < |old(TextOf(id))| && old(handles[id].form.Heap? && !Unshared(id)) ==>
                (Unshared(id) <==> old(handles[id].form.tl.OnHeap?))
    {
      hide WF, Frame, Accounted, Owners, BufferOk, Utf8.Valid, Text, Capacity, Ok;
      FrameRefl(t, Now(), {id});
      OkText(t, Now(), id);
      TextLimit(t, blocks, handles[id]);
      if len >= Len(t, blocks, handles[id]) {
        return Done;
      }
      if !Utf8.IsBoundary(Text(t, blocks, handles[id]), len) {
        return Panicked;
      }
      Utf8.BoundarySplits(TextOf(id), len);
      var ok := TruncateUnchecked(id, len);
      return if ok then Done else NoMemory;
    }

    /** `Repr::pop`: the last character, found by scanning back. */
    method Pop(id: nat) returns (ok: bool, ch: Option<Utf8.Scalar>)
      requires Valid() && id in handles && handles[id].kind.Growable? && Shape(t, blocks, handles[id])
      modifies this
      ensures Valid()
      ensures !ok ==> Now() == old(Now())
      ensures ok ==> Utf8.Valid(old(TextOf(id))) && var cs := Utf8.Decode(old(TextOf(id)));
                if cs == [] then ch.None? && Now() == old(Now())
                else
                  && ch == Some(cs[|cs| - 1]) && Updated(old(Now()), id, Utf8.Encode(cs[..|cs| - 1]))
                  && CapacityOf(id) == old(CutCapacity(id, |Utf8.Encode(cs[..|cs| - 1])|))
                  && (old(handles[id].form.Heap? && handles[id].form.tl.InHandle?) ==> blocks == old(blocks))
                  && (old(handles[id].form.Heap? && !Unshared(id)) ==>
                        (Unshared(id) <==> old(handles[id].form.tl.OnHeap?)))
      ensures old(handles[id].form.Static? || Modifiable(id)) ==> next == old(next) && freed == old(freed)
      ensures t.Bits64? || old(Modifiable(id)) || old(CapacityOf(id)) <= MaxLen(t) ==> ok
      ensures refused >= old(refused) && (ok <==> refused == old(refused))
    {
      hide WF, Frame, Accounted, Owners, BufferOk, Text, Capacity, Ok, Utf8.CharLen, Utf8.DecodeChar, Utf8.LastStart;
      ghost var s := Now();
      OkText(t, s, id);
      var text := Text(t, blocks, handles[id]);
      if text == [] {
        return true, None;
      }
      var start := Utf8.LastStart(text);
      Utf8.LastCharSplits(text);
      Utf8.EncodeDecode(text[..start]);
      ghost var cs := Utf8.Decode(text);
      assert cs[..|cs| - 1] == Utf8.Decode(text[..start]);
      hide Utf8.Valid, Utf8.Decode, Utf8.Encode;
      var last := Utf8.DecodeChar(text[start..]);
      ok := TruncateUnchecked(id, start);
      ch := Some(last);
    }

    /** `Repr::clear`. */
    method Clear(id: nat)
      requires Valid() && id in handles && handles[id].kind.Growable? && Shape(t, blocks, handles[id])
      modifies this`blocks, this`handles, this`nextId, this`freed
      ensures Valid() && Updated(old(Now()), id, [])
      ensures old(Modifiable(id)) ==> CapacityOf(id) == old(CapacityOf(id))
      ensures old(handles[id].form.Static?) ==> handles[id].form.Static? && CapacityOf(id) == 0
      ensures old(handles[id].form.Heap? && !Unshared(id)) ==>
                && handles[id].form == Inline(InlineOf(t, [])) && CapacityOf(id) == t.Inline()
                && var base := old(handles[id].form.base);
                   Owners(handles, base) == old(Owners(handles, base)) - {id}
      ensures old(Modifiable(id)) ==> freed == old(freed)
    {
      hide WF, Frame, Accounted, Owners, BufferOk, Text, Capacity, Ok, DataOf;
      ghost var s := Now();
      FrameRefl(t, s, {id});
      OkText(t, s, id);
      ghost var text := TextOf(id);
      assert text[..0] == [] && Utf8.Valid([]);
      hide Utf8.Valid;
      var unique := IsUnique(id);
      if handles[id].form.Static? {
        var r := Repr(Growable, Static(handles[id].form.text, 0));
        StaticShortened(t, blocks, handles[id], 0);
        PlainRewritten(t, s, id, r);
        SetHandle(id, r);
        ShortenedContent(t, blocks, handles[id], []);
        StaticCapacity(t, blocks, handles[id]);
        OkAfter(t, s, Now(), {id});
      } else if unique {
        ShortenInPlace(id, 0, s, text);
      } else {
        InlineRoundTrip(t, Growable, blocks, []);
        InlineCapacity(t, Growable, blocks, InlineOf(t, []));
        var tmp := AdoptPlain(Repr(Growable, Inline(InlineOf(t, []))));
        Become(id, tmp, s, [], t.Inline());
        OwnersLeft(t, s, Now(), id, s.handles[id].form.base);
      }
    }

    // ----- replacing a range -----

    /** What a borrowed argument reads at this moment. */
    function StrBytes(w: Str): seq<byte>
      reads this`blocks, this`handles
    {
      StrIn(t, Now(), w)
    }

    /** A borrowed argument comes from another handle; `&mut self` rules out `id` itself. */
    ghost predicate StrOk(w: Str, id: nat)
      reads this`blocks, this`handles
    {
      Utf8.Valid(StrBytes(w)) && (w.Borrowed? ==> w.src != id && w.src in handles)
    }

    /** Borrowed bytes do not change while another handle is worked on. */
    lemma StrKept(s: State, id: nat, w: Str)
      requires w.Borrowed? ==> w.src != id && w.src in s.handles && Shape(t, s.blocks, s.handles[w.src])
      requires Frame(t, s, Now(), {id})
      ensures StrBytes(w) == StrIn(t, s, w)
    {
      hide Shape, Text, Capacity;
    }

    /** `Repr::replace_range`. */
    method ReplaceRange(id: nat, lo: Bound, hi: Bound, with: Str) returns (r: Outcome)
      requires Valid() && id in handles && handles[id].kind.Growable? && Shape(t, blocks, handles[id])
      requires StrOk(with, id)
      modifies this
      ensures Valid()
      ensures r.Panicked? <==> SliceRange(t, old(TextOf(id)), lo, hi).None?
      ensures !r.Done? ==> Now() == old(Now())
      ensures r.Done? ==>
                var (start, end) := SliceRange(t, old(TextOf(id)), lo, hi).value;
                && start <= end <= |old(TextOf(id))|
                && Updated(old(Now()), id, Spliced(old(TextOf(id)), start, end, old(StrBytes(with))))
                && (start == end && old(StrBytes(with)) == [] ==> Now() == old(Now()))
                && (!(start == end && old(StrBytes(with)) == []) ==> Modifiable(id))
                && (!(start == end && old(StrBytes(with)) == []) && !old(Modifiable(id)) ==>
                      CapacityOf(id) == Room(|TextOf(id)|))
                && (old(Modifiable(id)) ==>
                      var n := |old(StrBytes(with))|;
                      var more := if n > end - start then n - (end - start) else 0;
                      && CapacityOf(id) == old(GrownFor(id, more))
                      && moved == old(moved) + old(MovedFor(id, more))
                      && carried == old(carried) + old(CarriedFor(id, more))
                      && (old(HasRoom(id, more)) ==> next == old(next) && freed == old(freed)))
      ensures refused >= old(refused) && (r.Panicked? ==> refused == old(refused))
      ensures !r.Panicked? ==>
                var (start, end) := SliceRange(t, old(TextOf(id)), lo, hi).value;
                var n := |old(StrBytes(with))|;
                && start <= end <= |old(TextOf(id))|
                && (r.Done? <==>
                      && refused == old(refused)
                      && (|| (start == end && n == 0)
                          || (if old(Modifiable(id))
                              then old(GrownFor(id, if n > end - start then n - (end - start) else 0))
                              else |old(TextOf(id))| - (end - start) + n) <= Limit(t, Growable)))
    {
      hide WF, Frame, Accounted, Owners, BufferOk, Utf8.Valid, Text, Capacity, Ok, DataOf, Put, SliceRange, StrBytes,
          Spliced;
      ghost var s := Now();
      FrameRefl(t, s, {id});
      OkText(t, s, id);
      ghost var text := TextOf(id);
      ghost var bytes := StrBytes(with);
      if with.Borrowed? { OkText(t, s, with.src); }
      StrKept(s, id, with);
      var range := SliceRange(t, Text(t, blocks, handles[id]), lo, hi);
      if range.None? {
        return Panicked;
      }
      SliceRangeCuts(t, text, lo, hi);
      var (start, end) := range.value;
      var removedLen, replaceLen := end - start, |StrBytes(with)|;
      SplicedValid(text, start, end, bytes);
      SplicedLength(text, start, end, bytes);
      TextLimit(t, blocks, handles[id]);
      if removedLen == 0 && replaceLen == 0 {
        NothingSpliced(text, start, bytes);
        return Done;
      }
      var modifiable := IsModifiable(id);
      if !modifiable {
        var whole := Text(t, blocks, handles[id]);
        var replaced := NewWith(Growable, Spliced(whole, start, end, StrBytes(with)));
        if replaced.None? {
          return NoMemory;
        }
        Become(id, replaced.value, s, Spliced(text, start, end, bytes), Room(|Spliced(text, start, end, bytes)|));
        return Done;
      }
      r := ReplaceInPlace(id, start, end, with, s, text, bytes);
    }

    /** `replace_range` on a modifiable handle. */
    method ReplaceInPlace(id: nat, start: nat, end: nat, with: Str, ghost s: State, ghost text: seq<byte>,
        ghost bytes: seq<byte>)
      returns (r: Outcome)
      requires Valid() && Now() == s && id in handles && handles[id].kind.Growable? && Shape(t, blocks, handles[id])
      requires StrOk(with, id) && bytes == StrBytes(with) && text == TextOf(id) && Modifiable(id)
      requires start <= end <= |text| && Utf8.Valid(Spliced(text, start, end, bytes))
      modifies this
      ensures Valid() && !r.Panicked?
      ensures r.NoMemory? ==> Now() == s
      ensures refused >= old(refused)
      ensures var more := if |bytes| > end - start then |bytes| - (end - start) else 0;
              && (r.Done? <==> refused == old(refused) && old(GrownFor(id, more)) <= Limit(t, Growable))
              && (r.Done? ==>
                    && Updated(s, id, Spliced(text, start, end, bytes)) && Modifiable(id)
                    && CapacityOf(id) == old(GrownFor(id, more))
                    && moved == old(moved) + old(MovedFor(id, more))
                    && carried == old(carried) + old(CarriedFor(id, more)))
              && (old(HasRoom(id, more)) ==> next == old(next) && freed == old(freed))
    {
      hide WF, Frame, Accounted, Owners, BufferOk, Utf8.Valid, Text, Capacity, Ok, StrBytes, StrIn, Spliced;
      var removedLen, replaceLen := end - start, |StrBytes(with)|;
      OkText(t, s, id);
      if with.Borrowed? { OkText(t, s, with.src); }
      StrKept(s, id, with) by { FrameRefl(t, s, {id}); }
      var additional := if replaceLen > removedLen then replaceLen - removedLen else 0;
      var ok := MakeRoom(id, additional);
      if !ok {
        return NoMemory;
      }
      StrKept(s, id, with);
      WriteReplacement(id, start, end, with, s, text, bytes);
      return Done;
    }

    /** The in-place branch: the replacement is read only after the suffix has been moved. */
    method WriteReplacement(id: nat, start: nat, end: nat, with: Str, ghost s: State, ghost text: seq<byte>,
        ghost bytes: seq<byte>)
      requires Ok(t, s) && Valid() && id in s.handles && s.handles[id].kind.Growable?
      requires Updated(s, id, text) && Modifiable(id)
      requires with.Borrowed? ==> with.src != id && with.src in s.handles
      requires bytes == StrIn(t, s, with) && bytes == StrBytes(with)
      requires start <= end <= |text| && |text| - (end - start) + |bytes| <= CapacityOf(id)
      requires Utf8.Valid(Spliced(text, start, end, bytes))
      modifies this`blocks, this`handles
      ensures Valid() && Updated(s, id, Spliced(text, start, end, bytes)) && Modifiable(id)
      ensures CapacityOf(id) == old(CapacityOf(id))
    {
      hide WF, Frame, Accounted, Owners, BufferOk, Utf8.Valid, Put, Text, Capacity, DataOf, Ok, Spliced, Move,
          StrBytes, StrIn;
      if with.Borrowed? { OkText(t, s, with.src); }
      BeginEdit(s, id, text);
      TextLimit(t, blocks, handles[id]);
      ghost var data := DataOf(blocks, handles[id]);
      var len, n := Len(t, blocks, handles[id]), |StrBytes(with)|;
      SplicedData(data, text, start, end, bytes);
      CopyWithin(id, end, start + n, len - end, s, data);
      ghost var shifted := Move(data, end, start + n, len - end);
      StrKept(s, id, with);
      Write(id, start, StrBytes(with), s, shifted);
      ghost var d := Put(shifted, start, bytes);
      if handles[id].form.Inline? { MarkerSafe(data, d, len - (end - start) + n); }
      SetLen(id, len - (end - start) + n, s, d);
    }

    // ----- converting between LeanString and LeanStr -----

    /** `HeapBuffer::into_exact`. */
    method IntoExact(id: nat) returns (ok: bool)
      requires Valid() && id in handles && handles[id].kind.Growable? && handles[id].form.Heap? && Unshared(id)
      requires Shape(t, blocks, handles[id]) && |TextOf(id)| > t.Inline()
      modifies this
      ensures Valid() && handles.Keys == old(handles.Keys) && Frame(t, old(Now()), Now(), {id})
      ensures Shape(t, blocks, handles[id]) && TextOf(id) == old(TextOf(id))
      ensures ok ==>
                handles[id].kind.Exact? && handles[id].form.Heap? && CapacityOf(id) == |TextOf(id)| && Unshared(id)
      ensures !ok ==>
                && handles == old(handles) && blocks.Keys == old(blocks.Keys) && CapacityOf(id) == old(CapacityOf(id))
                && (var base := handles[id].form.base;
                    && blocks == old(blocks)[base := blocks[base]]
                    && SameButDeadSlot(t, old(blocks)[base], blocks[base], handles[id].form.tl)
                    && (blocks == old(blocks) <==>
                          || Prefix(t, CapacityOf(id)) == 0
                          || (t.W() <= |old(blocks)[base]| && FromLe(old(blocks)[base][..t.W()]) == |TextOf(id)|)))
      ensures refused >= old(refused) && (ok <==> refused == old(refused))
    {
      hide Owners, WF, ContentOk, Frame, Accounted, LayoutFor, BufferOk, CountOf, LenOf, HeapCap, Utf8.Valid, Text,
          Capacity, CompleteBuffer, Ok, MovedDown, RolledBack, ExactHeader, SameButDeadSlot, FromLe, Prefix;
      ghost var s := Now();
      LiveBuffer(t, s, id);
      OkText(t, s, id);
      HandleFacts(t, s, id);
      TextBytes(t, blocks, handles[id]);
      ghost var text := TextOf(id);
      var base, off, tl := handles[id].form.base, handles[id].form.off, handles[id].form.tl;
      ghost var mem := blocks[base];
      ExactIsLower(t, mem, off, tl);
      AllocatorDiscipline(t, Growable, mem, off, tl);
      var len, oldCapacity := LenOf(t, Growable, blocks[base], off, tl), CapOf(t, blocks[base], off);
      var oldLayout := AllocLayout(t, Growable, blocks[base], off, tl).value;
      var newLayout := LayoutFor(t, Exact, len).value;
      var start := AllocationOffset(t, Growable, blocks[base], off, tl);
      // the data must be below the end of the shrunk allocation
      WriteBlock(base, MovedDown(t, blocks[base], off, tl, len));
      var allocation := Realloc(base, start, oldLayout, newLayout, DataAt(t, Exact, tl));
      if allocation.None? {
        RollBack(id, base, off, tl, len, oldCapacity, s);
        return false;
      }
      FinishExact(id, base, allocation.value, off, tl, len, s);
      ok := true;
    }

    /** The success path of `into_exact`: header and length of the shrunk allocation. */
    method FinishExact(id: nat, ghost base: nat, place: nat, ghost off: nat, tl: TextLen, len: nat, ghost s: State)
      requires Ok(t, s) && Accounted() && id in s.handles && s.handles[id] == Repr(Growable, Heap(base, off, tl))
      requires Owners(s.handles, base) == {id} && handles == s.handles && base in s.blocks
      requires (place == base || place !in s.blocks) && place in blocks
      requires blocks == (s.blocks - {base})[place := blocks[place]]
      requires BufferOk(t, Growable, s.blocks[base], off, tl) && Readable(t, Growable, s.blocks[base], off, tl)
      requires len == LenOf(t, Growable, s.blocks[base], off, tl) > t.Inline()
      requires off + len <= |s.blocks[base]| && DataAt(t, Exact, tl) + len <= |s.blocks[base]|
      requires |blocks[place]| == DataAt(t, Exact, tl) + len
      requires blocks[place][..DataAt(t, Exact, tl) + len]
                 == MovedDown(t, s.blocks[base], off, tl, len)[..DataAt(t, Exact, tl) + len]
      modifies this`blocks, this`handles
      ensures Valid() && handles.Keys == s.handles.Keys && Frame(t, s, Now(), {id})
      ensures handles[id].kind.Exact? && handles[id].form.Heap? && Unshared(id)
      ensures Shape(t, blocks, handles[id]) && Shape(t, s.blocks, s.handles[id])
      ensures TextOf(id) == Text(t, s.blocks, s.handles[id]) && CapacityOf(id) == |TextOf(id)|
    {
      hide Owners, WF, ContentOk, Frame, Accounted, LayoutFor, BufferOk, CountOf, LenOf, HeapCap, Utf8.Valid, Text,
          Capacity, CompleteBuffer, Ok, MovedDown, ExactHeader;
      OkText(t, s, id);
      TextBytes(t, s.blocks, s.handles[id]);
      ghost var text := Text(t, s.blocks, s.handles[id]);
      ExactBuilt(t, s.blocks[base], off, tl, blocks[place]);
      WriteBlock(place, ExactHeader(t, blocks[place], tl, len));
      SetHandle(id, Repr(Exact, Heap(place, DataAt(t, Exact, tl), tl)));
      Rebuilt(t, s, Now(), id, len, text);
      OkAfter(t, s, Now(), {id});
    }

    /** The error path of `into_exact`. */
    method RollBack(id: nat, base: nat, off: nat, tl: TextLen, len: nat, oldCapacity: nat, ghost s: State)
      requires Ok(t, s) && Accounted() && id in s.handles && s.handles[id] == Repr(Growable, Heap(base, off, tl))
      requires Owners(s.handles, base) == {id} && handles == s.handles
      requires base in blocks && base in s.blocks && blocks == s.blocks[base := blocks[base]]
      requires BufferOk(t, Growable, s.blocks[base], off, tl) && Readable(t, Growable, s.blocks[base], off, tl)
      requires CountOf(t, Growable, s.blocks[base], off) == 1
      requires len == LenOf(t, Growable, s.blocks[base], off, tl) && oldCapacity == CapOf(t, s.blocks[base], off)
      requires off + len <= |s.blocks[base]| && DataAt(t, Exact, tl) + len <= |s.blocks[base]|
      requires off == Prefix(t, oldCapacity) + Header(t, Growable)
      requires blocks[base] == MovedDown(t, s.blocks[base], off, tl, len)
      modifies this`blocks
      ensures Valid() && Frame(t, s, Now(), {id}) && base in blocks && blocks == s.blocks[base := blocks[base]]
      ensures SameButDeadSlot(t, s.blocks[base], blocks[base], tl)
      ensures Shape(t, blocks, handles[id]) && Shape(t, s.blocks, s.handles[id])
      ensures TextOf(id) == Text(t, s.blocks, s.handles[id]) && CapacityOf(id) == Capacity(t, s.blocks, s.handles[id])
      ensures blocks == s.blocks <==>
                Prefix(t, CapacityOf(id)) == 0
                || (t.W() <= |s.blocks[base]| && FromLe(s.blocks[base][..t.W()]) == |TextOf(id)|)
    {
      hide Owners, WF, ContentOk, Frame, Accounted, LayoutFor, BufferOk, CountOf, LenOf, HeapCap, Utf8.Valid, Text,
          Capacity, CompleteBuffer, Ok, MovedDown, RolledBack, SameButDeadSlot, Prefix, FromLe;
      ghost var mem := s.blocks[base];
      OkText(t, s, id);
      TextBytes(t, s.blocks, s.handles[id]);
      ghost var text := Text(t, s.blocks, s.handles[id]);
      DeadSlotOnly(t, mem, off, tl);
      RollbackExact(t, mem, off, tl);
      WriteBlock(base, RolledBack(t, blocks[base], off, tl, len, oldCapacity));
      DataFront(mem, blocks[base], off, len);
      DropTake(mem, off, len);
      Rebuilt(t, s, RestoredState(s, base), id, oldCapacity, text);
      OkAfter(t, s, Now(), {id});
      GrowableCapacity(t, s.blocks, s.handles[id]);
    }

    ghost function RestoredState(s: State, base: nat): (s': State)
      requires handles == s.handles && base in blocks && base in s.blocks && blocks == s.blocks[base := blocks[base]]
      reads this`blocks, this`handles
      ensures s' == Now()
      ensures s'.blocks == (s.blocks - {base})[base := s'.blocks[base]]
      ensures forall id | id in handles :: s'.handles == s.handles[id := s'.handles[id]]
    {
      MapReplace(s.blocks, base, blocks[base]);
      assert forall id | id in handles :: handles == s.handles[id := handles[id]];
      State(blocks, handles)
    }

    /** `HeapBuffer::into_growable`. */
    method IntoGrowable(id: nat) returns (ok: bool)
      requires Valid() && id in handles && handles[id].kind.Exact? && handles[id].form.Heap? && Unshared(id)
      requires Shape(t, blocks, handles[id])
      modifies this
      ensures Valid()
      ensures !ok ==> Now() == old(Now())
      ensures ok ==>
                && handles.Keys == old(handles.Keys) && Frame(t, old(Now()), Now(), {id})
                && handles[id].kind.Growable? && handles[id].form.Heap? && Shape(t, blocks, handles[id])
                && TextOf(id) == old(TextOf(id)) && CapacityOf(id) == |TextOf(id)| && Unshared(id)
      ensures refused >= old(refused) && (ok <==> refused == old(refused) && |old(TextOf(id))| <= Limit(t, Growable))
    {
      hide Owners, WF, ContentOk, Frame, Accounted, LayoutFor, BufferOk, CountOf, LenOf, HeapCap, Utf8.Valid, Text,
          Capacity, CompleteBuffer, Ok, GrowableBuilt;
      ghost var s := Now();
      LiveBuffer(t, s, id);
      OkText(t, s, id);
      TextBytes(t, blocks, handles[id]);
      ghost var text := TextOf(id);
      var base, off, tl := handles[id].form.base, handles[id].form.off, handles[id].form.tl;
      ghost var mem := blocks[base];
      AllocatorDiscipline(t, Exact, mem, off, tl);
      var len := LenOf(t, Exact, blocks[base], off, tl);
      var oldLayout := AllocLayout(t, Exact, blocks[base], off, tl).value;
      ExactLengths(t, mem, off, tl);
      var newLayout := LayoutFor(t, Growable, len);
      if newLayout.None? {
        return false;
      }
      GrowableIsLarger(t, mem, off, tl);
      var allocation := Realloc(base, AllocationOffset(t, Exact, blocks[base], off, tl), oldLayout, newLayout.value,
          DataAt(t, Exact, tl));
      if allocation.None? {
        return false;
      }
      var place := allocation.value;
      assert mem[..|mem|] == mem;
      GrowableComplete(t, mem, off, tl, blocks[place]);
      WriteBlock(place, GrowableBuilt(t, blocks[place], tl, len));
      SetHandle(id, Repr(Growable, Heap(place, DataAt(t, Growable, tl), tl)));
      Rebuilt(t, s, Now(), id, len, text);
      OkAfter(t, s, Now(), {id});
      ok := true;
    }

    /** `Repr::into_immutable`, turning the handle `id` of a `LeanString` into one of a `LeanStr`.  On
        failure the handle is handed back with its text, capacity and sharing as they were. */
    method IntoImmutable(id: nat) returns (ok: bool)
      requires Valid() && id in handles && handles[id].kind.Growable? && Shape(t, blocks, handles[id])
      modifies this
      ensures Valid() && handles.Keys == old(handles.Keys) && Frame(t, old(Now()), Now(), {id})
      ensures Shape(t, blocks, handles[id]) && TextOf(id) == old(TextOf(id))
      ensures ok ==> handles[id].kind.Exact?
      ensures ok && old(handles[id].form.Heap?) ==>
                if |TextOf(id)| <= t.Inline() then handles[id].form.Inline? else handles[id].form.Heap?
      ensures ok && handles[id].form.Heap? ==> CapacityOf(id) == |TextOf(id)| > t.Inline() && Unshared(id)
      ensures !ok ==>
                handles == old(handles) && blocks.Keys == old(blocks.Keys) && CapacityOf(id) == old(CapacityOf(id))
      ensures !ok && old(!Unshared(id)) ==> Now() == old(Now())
      ensures old(!handles[id].form.Heap?) ==>
                ok && blocks == old(blocks) && handles[id].form == old(handles[id].form)
      ensures old(handles[id].form.Heap? && Unshared(id) && |TextOf(id)| <= t.Inline()) ==>
                ok && handles[id].form.Inline?
      ensures refused >= old(refused) && (ok <==> refused == old(refused))
    {
      hide Owners, WF, ContentOk, Frame, Accounted, Ok, Text, Capacity, Utf8.Valid, BufferOk, SameButDeadSlot;
      ghost var s := Now();
      FrameRefl(t, s, {id});
      OkText(t, s, id);
      var text := Text(t, blocks, handles[id]);
      if !handles[id].form.Heap? {
        // Inline and static handles are the same words for both types.
        var r := Repr(Exact, handles[id].form);
        OtherKind(t, blocks, handles[id]);
        PlainRewritten(t, s, id, r);
        SetHandle(id, r);
        OkAfter(t, s, Now(), {id});
        return true;
      }
      var unique := IsUnique(id);
      if unique {
        if |text| <= t.Inline() {
          var inline := InlineHandle(Exact, text);
          BecomeOther(id, inline, s, text, t.Inline());
          return true;
        }
        ok := IntoExact(id);
      } else {
        WithinLimit(t, blocks, handles[id]);
        SmallestLimit(t, Exact);
        var next := FromStr(Exact, text);
        if next.None? {
          return false;
        }
        // Both allocations are live here; `id` counts on the old one up to the next call.
        BecomeOther(id, next.value, s, text, Room(|text|));
        ok := true;
      }
    }

    /** `Repr::from_inline(InlineBuffer::new(text))`. */
    method InlineHandle(kind: Kind, text: seq<byte>) returns (id: nat)
      requires Valid() && Utf8.Valid(text) && |text| <= t.Inline()
      modifies this`handles, this`nextId
      ensures Valid() && Added(old(Now()), kind, id, text, t.Inline()) && handles[id].form.Inline?
    {
      hide Owners, WF, ContentOk, Frame, Accounted, Ok, Text, Capacity, Utf8.Valid;
      InlineRoundTrip(t, kind, blocks, text);
      InlineCapacity(t, kind, blocks, InlineOf(t, text));
      id := AdoptPlain(Repr(kind, Inline(InlineOf(t, text))));
    }

    /** Releases what `id` held and puts a new value of the other type in its place. */
    method BecomeOther(id: nat, tmp: nat, ghost s: State, ghost text: seq<byte>, ghost cap: nat)
      requires Valid() && id in s.handles && id in handles && tmp in handles
      requires Added(s, handles[tmp].kind, tmp, text, cap)
      modifies this`blocks, this`handles, this`freed
      ensures Valid() && handles.Keys == s.handles.Keys && Frame(t, s, Now(), {id})
      ensures Shape(t, blocks, handles[id]) && TextOf(id) == text && CapacityOf(id) == cap && Unshared(id)
      ensures handles[id] == old(handles[tmp])
    {
      hide Shape, Owners, WF, ContentOk, Frame, Ok, Accounted;
      ghost var s1 := Now();
      ReplaceInner(id, tmp);
      FrameThroughTemp(t, s, s1, Now(), id, tmp);
    }

    /** `Repr::into_mutable`. */
    method IntoMutable(id: nat) returns (ok: bool)
      requires Valid() && id in handles && handles[id].kind.Exact? && Shape(t, blocks, handles[id])
      modifies this
      ensures Valid()
      ensures !ok ==> Now() == old(Now())
      ensures ok ==>
                && handles.Keys == old(handles.Keys) && Frame(t, old(Now()), Now(), {id})
                && handles[id].kind.Growable? && Shape(t, blocks, handles[id]) && TextOf(id) == old(TextOf(id))
      ensures ok && old(handles[id].form.Heap?) ==>
                if |TextOf(id)| <= t.Inline() then handles[id].form.Inline? else handles[id].form.Heap?
      ensures ok && handles[id].form.Heap? ==> CapacityOf(id) == |TextOf(id)| && Unshared(id)
      ensures old(!handles[id].form.Heap?) ==>
                ok && blocks == old(blocks) && handles[id].form == old(handles[id].form)
      ensures refused >= old(refused) && (ok <==> refused == old(refused) && |old(TextOf(id))| <= Limit(t, Growable))
    {
      hide Owners, WF, ContentOk, Frame, Accounted, Ok, Text, Capacity, Utf8.Valid, BufferOk;
      ghost var s := Now();
      FrameRefl(t, s, {id});
      OkText(t, s, id);
      var text := Text(t, blocks, handles[id]);
      WithinLimit(t, blocks, handles[id]);
      if !handles[id].form.Heap? {
        var r := Repr(Growable, handles[id].form);
        OtherKind(t, blocks, handles[id]);
        PlainRewritten(t, s, id, r);
        SetHandle(id, r);
        OkAfter(t, s, Now(), {id});
        return true;
      }
      ExactIsLong(t, blocks, handles[id]);
      var unique := IsUnique(id);
      if unique {
        ok := IntoGrowable(id);
      } else {
        var next := FromStr(Growable, text);
        if next.None? {
          return false;
        }
        BecomeOther(id, next.value, s, text, Room(|text|));
        ok := true;
      }
    }

    /** `LeanString::try_into_lean_str` and `LeanStr::try_into_lean_string`: consumes `id`; on failure
        the original is dropped. */
    method TryConvert(id: nat) returns (ok: bool)
      requires Valid() && id in handles && Shape(t, blocks, handles[id])
      modifies this
      ensures Valid() && Frame(t, old(Now()), Now(), {id})
      ensures ok ==>
                && handles.Keys == old(handles.Keys) && handles[id].kind != old(handles[id].kind)
                && Shape(t, blocks, handles[id]) && TextOf(id) == old(TextOf(id))
      ensures !ok ==> handles == old(handles) - {id}
      ensures !ok && old(handles[id].form.Heap? && Unshared(id)) ==>
                blocks.Keys == old(blocks.Keys) - {old(handles[id].form.base)}
      ensures ok && old(handles[id].form.Heap?) ==>
                if |TextOf(id)| <= t.Inline() then handles[id].form.Inline? else handles[id].form.Heap?
      ensures ok && handles[id].form.Heap? ==> CapacityOf(id) == |TextOf(id)| && Unshared(id)
      ensures old(!handles[id].form.Heap?) ==>
                ok && blocks == old(blocks) && handles[id].form == old(handles[id].form)
      ensures refused >= old(refused)
      ensures ok <==> refused == old(refused) && old(handles[id].kind.Growable? || |TextOf(id)| <= Limit(t, Growable))
    {
      hide Owners, WF, ContentOk, Accounted, Ok, Text, Capacity, Utf8.Valid, BufferOk, Shape, Frame;
      ghost var s := Now();
      if handles[id].kind.Growable? {
        ok := IntoImmutable(id);
      } else {
        ok := IntoMutable(id);
        FrameRefl(t, s, {id});
      }
      if !ok {
        ghost var s1 := Now();
        Drop(id);
        FrameStep(t, s, s1, Now(), {id});
      }
    }

    /** `LeanString::try_split_off`: two allocations, either of which may fail. */
    method SplitOff(id: nat, at: nat) returns (r: Outcome, tail: nat)
      requires Valid() && id in handles && handles[id].kind.Growable? && Shape(t, blocks, handles[id])
      modifies this
      ensures Valid()
      ensures r.Panicked? <==> !Utf8.IsBoundary(old(TextOf(id)), at)
      ensures r.Panicked? ==> Now() == old(Now())
      ensures r.NoMemory? ==>
                handles == old(handles) && Frame(t, old(Now()), Now(), {}) && blocks.Keys == old(blocks.Keys)
      ensures r.Done? ==>
                && at <= |old(TextOf(id))|
                && tail !in old(handles) && handles.Keys == old(handles.Keys) + {tail}
                && Frame(t, old(Now()), Now(), {id})
                && handles[id].kind.Growable? && handles[tail].kind.Growable?
                && Shape(t, blocks, handles[id]) && Shape(t, blocks, handles[tail])
                && TextOf(id) == old(TextOf(id))[..at] && TextOf(tail) == old(TextOf(id))[at..]
                && Unshared(tail) && CapacityOf(tail) == Room(|TextOf(tail)|)
                && CapacityOf(id) == if at < |old(TextOf(id))| then old(CutCapacity(id, at)) else old(CapacityOf(id))
      ensures refused >= old(refused) && (r.NoMemory? <==> refused != old(refused))
    {
      hide Owners, WF, ContentOk, Accounted, Ok, Text, Capacity, Utf8.Valid, BufferOk, Shape, Frame, Limit, RoomFor;
      tail := 0;
      ghost var s := Now();
      OkText(t, s, id);
      var text := Text(t, blocks, handles[id]);
      if !Utf8.IsBoundary(text, at) {
        return Panicked, tail;
      }
      Utf8.BoundarySplits(text, at);
      WithinLimit(t, blocks, handles[id]);
      var other := FromStr(Growable, text[at..]);
      if other.None? {
        FrameRefl(t, s, {});
        return NoMemory, tail;
      }
      tail := other.value;
      SharedAlike(t, s, Now(), id, tail);
      KeptText(t, s, Now(), id, {});
      r := CutOrDrop(id, at, tail, s, text);
    }

    /** `split_off` once the second half is a string of its own: the first half is cut, or the second dropped. */
    method CutOrDrop(id: nat, at: nat, tail: nat, ghost s: State, ghost text: seq<byte>) returns (r: Outcome)
      requires Valid() && Ok(t, s) && id in s.handles && s.handles[id].kind.Growable?
      requires Shape(t, s.blocks, s.handles[id])
      requires text == Text(t, s.blocks, s.handles[id]) && Utf8.IsBoundary(text, at) && at <= |text|
      requires Added(s, Growable, tail, text[at..], Room(|text[at..]|))
      modifies this
      ensures Valid() && !r.Panicked?
      ensures r.NoMemory? ==> handles == s.handles && Frame(t, s, Now(), {}) && blocks.Keys == s.blocks.Keys
      ensures r.Done? ==>
                && handles.Keys == s.handles.Keys + {tail} && Frame(t, s, Now(), {id})
                && handles[id].kind.Growable? && handles[tail].kind.Growable?
                && Shape(t, blocks, handles[id]) && Shape(t, blocks, handles[tail])
                && TextOf(id) == text[..at] && TextOf(tail) == text[at..]
                && Unshared(tail) && CapacityOf(tail) == Room(|text[at..]|)
      ensures r.Done? ==>
                CapacityOf(id) == if at < |text| then old(CutCapacity(id, at)) else old(CapacityOf(id))
      ensures refused >= old(refused) && (r.NoMemory? <==> refused != old(refused))
    {
      hide Owners, WF, ContentOk, Accounted, Ok, Text, Capacity, Utf8.Valid, BufferOk, Shape, Frame, Limit, RoomFor;
      ghost var s1 := Now();
      KeptText(t, s, s1, id, {});
      r := Truncate(id, at);
      if r.NoMemory? {
        // `other` is dropped
        Drop(tail);
        Undone(t, s, s1, Now(), tail);
        SameHandlesSameBlocks(t, s, Now());
        return;
      }
      KeptText(t, s1, Now(), tail, {id});
      StaysAlone(t, s1, Now(), tail, id);
      FrameWiden2(t, s, s1, Now(), id);
      if at == |text| { assert text[..at] == text; }
    }

    // ----- case conversion -----

    /** `Repr::to_ascii_case`. */
    method ToAsciiCase(id: nat, case_: Case) returns (r: Derived)
      requires Valid() && id in handles && Shape(t, blocks, handles[id])
      modifies this
      ensures Valid()
      ensures !r.Derived? ==> Now() == old(Now())
      ensures r.CountOverflow? <==> AsciiMapAll(old(TextOf(id)), case_) == old(TextOf(id)) && old(CountFull(id))
      ensures refused >= old(refused) && (r.Refused? <==> refused != old(refused))
      ensures r.Derived? ==>
                && r.id !in old(handles) && handles.Keys == old(handles.Keys) + {r.id}
                && Frame(t, old(Now()), Now(), {})
                && handles[r.id].kind == old(handles[id].kind)
                && Shape(t, blocks, handles[r.id]) && TextOf(r.id) == AsciiMapAll(old(TextOf(id)), case_)
      ensures r.Derived? && AsciiMapAll(old(TextOf(id)), case_) == old(TextOf(id)) ==>
                handles[r.id] == old(handles[id])
      ensures r.Derived? && AsciiMapAll(old(TextOf(id)), case_) != old(TextOf(id)) ==>
                && Added(old(Now()), old(handles[id].kind), r.id, AsciiMapAll(old(TextOf(id)), case_),
                     Room(|old(TextOf(id))|))
                && !handles[r.id].form.Static?
    {
      hide Owners, WF, ContentOk, Accounted, Ok, Text, Capacity, Utf8.Valid, BufferOk, Shape, Frame, AsciiMapAll;
      OkText(t, Now(), id);
      var text := Text(t, blocks, handles[id]);
      var mid := SplitAtFirstAsciiChange(text, case_);
      if mid.None? {
        var copy := Clone(id);
        return if copy.Some? then Derived(copy.value) else CountOverflow;
      }
      AsciiMapValid(text, case_);
      AsciiMapSplit(text, case_, mid.value);
      WithinLimit(t, blocks, handles[id]);
      var mapped := NewWith(handles[id].kind, text[..mid.value] + AsciiMapAll(text[mid.value..], case_));
      return if mapped.Some? then Derived(mapped.value) else Refused;
    }

    /** `Repr::make_ascii_case`. */
    method MakeAsciiCase(id: nat, case_: Case) returns (ok: bool, overflow: bool)
      requires Valid() && id in handles && handles[id].kind.Growable? && Shape(t, blocks, handles[id])
      modifies this
      ensures Valid()
      ensures !ok ==> Now() == old(Now())
      ensures ok ==> Updated(old(Now()), id, AsciiMapAll(old(TextOf(id)), case_))
      ensures old(Modifiable(id)) ==> ok && CapacityOf(id) == old(CapacityOf(id))
      ensures ok && AsciiMapAll(old(TextOf(id)), case_) == old(TextOf(id)) && !old(Modifiable(id)) ==>
                handles[id] == old(handles[id])
      ensures ok && AsciiMapAll(old(TextOf(id)), case_) != old(TextOf(id)) && !old(Modifiable(id)) ==>
                Modifiable(id) && CapacityOf(id) == Room(|TextOf(id)|)
      ensures overflow <==>
                AsciiMapAll(old(TextOf(id)), case_) == old(TextOf(id)) && old(!Modifiable(id) && CountFull(id))
      ensures refused >= old(refused) && (ok <==> refused == old(refused) && !overflow)
      ensures overflow ==> refused == old(refused)
      ensures old(Modifiable(id)) ==> next == old(next) && freed == old(freed)
    {
      hide Owners, WF, ContentOk, Accounted, Ok, Text, Capacity,
          Utf8.Valid, BufferOk, Frame, AsciiMapAll, DataOf, Put;
      ghost var s := Now();
      FrameRefl(t, s, {id});
      OkText(t, s, id);
      ghost var text := TextOf(id);
      AsciiMapValid(text, case_);
      var modifiable := IsModifiable(id);
      if !modifiable {
        var mapped := ToAsciiCase(id, case_);
        if !mapped.Derived? {
          return false, mapped.CountOverflow?;
        }
        ghost var s1 := Now();
        ReplaceInner(id, mapped.id);
        FrameThroughTemp(t, s, s1, Now(), id, mapped.id);
        return true, false;
      }
      TextLimit(t, blocks, handles[id]);
      BeginEdit(s, id, text);
      ghost var data := DataOf(blocks, handles[id]);
      var bytes := AsciiMapAll(Text(t, blocks, handles[id]), case_);
      OverwriteData(data, text, bytes);
      if handles[id].form.Inline? { InlineDataLen(t, blocks, handles[id]); }
      Write(id, 0, bytes, s, data);
      ghost var d := Put(data, 0, bytes);
      if handles[id].form.Inline? {
        InlineDataLen(t, blocks, handles[id]);
        OverwrittenMarker(t, data, d, bytes);
      }
      KeepLen(id, |bytes|, s, d);
      return true, false;
    }

    /** Ends an edit that did not change the length: the length recorded is still right. */
    lemma KeepLen(id: nat, len: nat, s: State, data: seq<byte>)
      requires Ok(t, s) && Editing(s, id, data) && len <= |data| && Utf8.Valid(data[..len])
      requires handles[id].form.Inline? ==> |data| == t.Inline() && data[t.Inline() - 1] < HEAP_MARKER
      requires Len(t, blocks, handles[id]) == len
      ensures Valid() && Updated(s, id, data[..len]) && CapacityOf(id) == |data| && Modifiable(id)
    {
      hide Owners, WF, Accounted, Ok, Utf8.Valid, BufferOk, Frame, Capacity, Text, DataOf;
      DataIsText(t, blocks, handles[id], data);
      OkAfter(t, s, Now(), {id});
    }

    /** `tmp` is a value being built since state `s`, holding `text`. */
    ghost predicate Building(s: State, tmp: nat, text: seq<byte>)
      reads this`blocks, this`handles, this`next, this`nextId, this`freed
    {
      && Valid() && tmp !in s.handles && tmp in handles
      && handles.Keys == s.handles.Keys + {tmp} && Frame(t, s, Now(), {})
      && handles[tmp].kind.Growable? && Shape(t, blocks, handles[tmp]) && TextOf(tmp) == text
    }

    /** It is in a buffer of its own with a capacity of `cap`. */
    ghost predicate BuildingIn(s: State, tmp: nat, text: seq<byte>, cap: nat)
      reads this`blocks, this`handles, this`next, this`nextId, this`freed
    {
      Building(s, tmp, text) && Modifiable(tmp) && CapacityOf(tmp) == cap
    }

    lemma BuildingValid(s: State, tmp: nat, text: seq<byte>)
      requires Building(s, tmp, text)
      ensures Valid()
    {
    }

    lemma BuildingShape(s: State, tmp: nat, text: seq<byte>)
      requires Building(s, tmp, text)
      ensures Valid() && tmp in handles && handles[tmp].kind.Growable?
      ensures Shape(t, blocks, handles[tmp]) && TextOf(tmp) == text
    {
    }

    /** A growing edit meets a size limit only if what it would grow to is above it. */
    lemma GrowthLimit(id: nat, more: nat)
      requires id in handles && handles[id].kind.Growable? && Shape(t, blocks, handles[id])
      ensures GrownFor(id, more) > Limit(t, Growable) ==> GrowCap(t, |TextOf(id)|, more) > Limit(t, Growable)
    {
      hide Owners, Shape, Text, Capacity;
      WithinLimit(t, blocks, handles[id]);
    }

    lemma BuiltOn(s: State, s1: State, tmp: nat, text: seq<byte>)
      requires tmp !in s.handles && s1.handles.Keys == s.handles.Keys + {tmp} && Frame(t, s, s1, {})
      requires tmp in s1.handles && s1.handles[tmp].kind.Growable?
      requires Valid() && Updated(s1, tmp, text)
      ensures Building(s, tmp, text)
    {
      hide Shape, Text, Capacity, Ok, Accounted;
      forall i | i in s.handles
        ensures i in handles && handles[i] == s.handles[i] && SameView(t, s.blocks, blocks, s.handles[i])
      {
        assert SameView(t, s.blocks, s1.blocks, s.handles[i]) && SameView(t, s1.blocks, blocks, s.handles[i]);
      }
    }

    lemma BuildingInIs(s: State, tmp: nat, text: seq<byte>, cap: nat)
      requires BuildingIn(s, tmp, text, cap)
      ensures Building(s, tmp, text)
    {
    }

    /** `push_char` on a value being built. */
    method PushOne(tmp: nat, c: Utf8.Scalar, ghost s: State, ghost text: seq<byte>, ghost cap: nat) returns (ok: bool)
      requires BuildingIn(s, tmp, text, cap)
      modifies this
      ensures refused >= old(refused)
      ensures ok <==> refused == old(refused) && PushedOne(t, |text|, cap, c).Some?
      ensures ok ==> BuildingIn(s, tmp, text + Utf8.EncodeChar(c), PushedOne(t, |text|, cap, c).value)
      ensures !ok ==> BuildingIn(s, tmp, text, cap)
    {
      hide Owners, WF, Accounted, Ok, BufferOk, Frame, Capacity, Text, Utf8.EncodeChar, Shape, GrowCap, Limit, RoomFor;
      ghost var s1 := Now();
      BuildingShape(s, tmp, text);
      ok := PushChar(tmp, c);
      if ok { BuiltOn(s, s1, tmp, text + Utf8.EncodeChar(c)); }
    }

    /** Pushes the characters `cs` one after the other. */
    method PushAll(tmp: nat, cs: seq<Utf8.Scalar>, ghost s: State, ghost text: seq<byte>, ghost cap: nat)
      returns (ok: bool)
      requires BuildingIn(s, tmp, text, cap)
      modifies this
      ensures refused >= old(refused)
      ensures ok <==> refused == old(refused) && PushedCap(t, |text|, cap, cs).Some?
      ensures ok ==> BuildingIn(s, tmp, text + Utf8.Encode(cs), PushedCap(t, |text|, cap, cs).value)
      ensures !ok ==> exists part :: Building(s, tmp, part)
    {
      hide Utf8.EncodeChar, Utf8.Encode, PushedCap, PushedOne, Building, BuildingIn;
      var i := 0;
      ghost var now, room := text, cap;
      assert cs[..0] == [] && text + [] == text;
      NothingPushed(t, |text|, cap);
      Utf8.EncodeNil();
      while i < |cs|
        invariant i <= |cs| && BuildingIn(s, tmp, now, room) && PushedCap(t, |text|, cap, cs[..i]) == Some(room)
        invariant refused == old(refused)
        invariant now == text + Utf8.Encode(cs[..i])
      {
        PushedNext(t, |text|, cap, cs, i);
        ok := PushOne(tmp, cs[i], s, now, room);
        if !ok {
          BuildingInIs(s, tmp, now, room);
          if refused == old(refused) { PushedPart(t, |text|, cap, cs, i + 1); }
          return;
        }
        EncodeNext(cs, i, text);
        room := PushedOne(t, |now|, room, cs[i]).value;
        now := now + Utf8.EncodeChar(cs[i]);
        i := i + 1;
      }
      assert cs[..|cs|] == cs;
      ok := true;
    }

    /** Drops a value that was being built; the store is as it was. */
    method Discard(tmp: nat, ghost s: State, ghost text: seq<byte>)
      requires Ok(t, s) && Building(s, tmp, text)
      modifies this`blocks, this`handles, this`freed
      ensures Valid() && handles == s.handles && Frame(t, s, Now(), {}) && blocks.Keys == s.blocks.Keys
    {
      hide Owners, WF, Accounted, Ok, Frame, Shape, Text;
      ghost var s1 := Now();
      Drop(tmp);
      Undone(t, s, s1, Now(), tmp);
      SameHandlesSameBlocks(t, s, Now());
    }

    /** The Σ fallback of `to_case`. */
    method ConvertWhole(tmp: nat, full: seq<byte>, ghost s: State, ghost text: seq<byte>) returns (r: Option<nat>)
      requires Ok(t, s) && Building(s, tmp, text) && Utf8.Valid(full)
      modifies this
      ensures Valid()
      ensures r.None? ==> handles == s.handles && Frame(t, s, Now(), {}) && blocks.Keys == s.blocks.Keys
      ensures r.Some? ==> BuildingIn(s, r.value, full, Room(|full|))
      ensures refused >= old(refused) && (r.Some? <==> refused == old(refused) && |full| <= Limit(t, Growable))
    {
      hide Owners, WF, Accounted, Ok, Frame, Shape, Text, Utf8.Valid, Capacity;
      Discard(tmp, s, text);
      ghost var s1 := Now();
      r := FromStr(Growable, full);
      if r.Some? {
        FrameStep(t, s, s1, Now(), {});
      }
    }

    /** The new buffer of `to_case`, with the part in front of the first non-ASCII change written. */
    method StartMapped(capacity: nat, kept: seq<byte>, ascii: seq<byte>, ghost s: State) returns (r: Option<nat>)
      requires Valid() && Now() == s && |kept| + |ascii| <= capacity && Utf8.Valid(kept + ascii)
      modifies this
      ensures r.None? ==> Valid() && Now() == s
      ensures r.Some? ==> BuildingIn(s, r.value, kept + ascii, Room(capacity))
      ensures refused >= old(refused) && (r.Some? <==> refused == old(refused) && capacity <= Limit(t, Growable))
    {
      hide Owners, WF, Accounted, Ok, Frame, Shape, Text, Utf8.Valid, Capacity, BufferOk, DataOf, Put;
      r := WithCapacity(capacity);
      if r.None? {
        return;
      }
      var tmp := r.value;
      ghost var s1 := Now();
      FrameRefl(t, s1, {tmp});
      BeginEdit(s1, tmp, []);
      ghost var data := DataOf(blocks, handles[tmp]);
      TwoWrites(data, kept, ascii);
      Write(tmp, 0, kept, s1, data);
      Write(tmp, |kept|, ascii, s1, Put(data, 0, kept));
      ghost var d := Put(Put(data, 0, kept), |kept|, ascii);
      if handles[tmp].form.Inline? { MarkerSafe(data, d, |kept| + |ascii|); }
      SetLen(tmp, |kept| + |ascii|, s1, d);
      BuiltOn(s, s1, tmp, kept + ascii);
    }

    /** Borrowed bytes do not change while a value is being built. */
    lemma StrHeld(s: State, tmp: nat, text: seq<byte>, w: Str)
      requires Building(s, tmp, text)
      requires w.Borrowed? ==> w.src in s.handles && Shape(t, s.blocks, s.handles[w.src])
      ensures StrBytes(w) == StrIn(t, s, w)
    {
      hide Shape, Text, Capacity, Ok;
    }

    /** `Repr::to_case` on a text that may be borrowed from any handle.  `map_` maps one character; `full` is
        the standard library's conversion of the
        whole text, used when a Σ has to be lowercased. */
    method ToCase(w: Str, case_: Case, map_: Utf8.Scalar -> seq<Utf8.Scalar>, full: seq<byte>)
      returns (r: CaseResult)
      requires Valid() && Utf8.Valid(StrBytes(w)) && (w.Borrowed? ==> w.src in handles)
      requires Utf8.Valid(full) && AsciiFacts(map_, case_)
      requires case_.Lower? ==> CharChanges(map_, SIGMA)
      modifies this
      ensures Valid()
      ensures r.NoChange? <==> forall c | c in Utf8.Decode(old(StrBytes(w))) :: !CharChanges(map_, c)
      ensures r.NoChange? ==> Now() == old(Now())
      ensures !r.New? ==>
                handles == old(handles) && Frame(t, old(Now()), Now(), {}) && blocks.Keys == old(blocks.Keys)
      ensures refused >= old(refused)
      ensures r.CaseNoMemory? <==>
                refused > old(refused) || (!r.NoChange? && CaseTooLong(t, old(StrBytes(w)), case_, map_, full))
      ensures r.New? ==>
                BuildingIn(old(Now()), r.id,
                  if case_.Lower? && SIGMA in Utf8.Decode(old(StrBytes(w))) then full
                  else MapText(old(StrBytes(w)), map_),
                  CaseCapacity(t, old(StrBytes(w)), case_, map_, full))
    {
      hide Owners, WF, Accounted, Ok, Utf8.Valid, Utf8.Decode, Frame, CharChanges, MapText, Building, Scanned,
          CaseTooLong, StrIn, AsciiFacts;
      ghost var text := StrBytes(w);
      FrameRefl(t, Now(), {});
      var mid := SplitAtFirstChange(StrBytes(w), case_, map_);
      if mid.None? {
        return NoChange;
      }
      FoundChange(text, map_, mid.value);
      r := MapFrom(w, mid.value, case_, map_, full);
    }

    /** What `to_case` does once it has found the first character that changes. */
    method MapFrom(w: Str, mid: nat, case_: Case, map_: Utf8.Scalar -> seq<Utf8.Scalar>, full: seq<byte>)
      returns (r: CaseResult)
      requires Valid() && Utf8.Valid(StrBytes(w)) && (w.Borrowed? ==> w.src in handles)
      requires Utf8.Valid(full) && AsciiFacts(map_, case_) && (case_.Lower? ==> CharChanges(map_, SIGMA))
      requires mid < |StrBytes(w)| && Scanned(StrBytes(w), map_, mid) && Utf8.Valid(StrBytes(w)[mid..])
      modifies this
      ensures Valid() && !r.NoChange?
      ensures r.CaseNoMemory? ==>
                handles == old(handles) && Frame(t, old(Now()), Now(), {}) && blocks.Keys == old(blocks.Keys)
      ensures refused >= old(refused)
      ensures r.CaseNoMemory? <==> refused > old(refused) || CaseTooLong(t, old(StrBytes(w)), case_, map_, full)
      ensures r.New? ==>
                BuildingIn(old(Now()), r.id,
                  if case_.Lower? && SIGMA in Utf8.Decode(old(StrBytes(w))) then full
                  else MapText(old(StrBytes(w)), map_),
                  CaseCapacity(t, old(StrBytes(w)), case_, map_, full))
    {
      hide Owners, WF, Accounted, Ok, Utf8.Valid, Utf8.Decode, BufferOk, Frame, Capacity, Text, Shape, CharChanges,
          MapText, Building, Utf8.CharLen, Utf8.DecodeChar, Scanned, AsciiMapAll, CaseTooLong, StrIn,
          CaseRoom, PushedCap, AsciiFacts, Utf8.Encode, Limit, RoomFor, BuildingIn;
      ghost var s := Now();
      ghost var text := StrBytes(w);
      FrameRefl(t, s, {});
      if w.Borrowed? { OkText(t, s, w.src); }
      var changed := StrBytes(w)[mid..];
      var n := SplitAsciiPrefix(changed);
      FirstPartFits(text, map_, case_, mid, n);
      var at := mid + n;
      var kept, ascii := StrBytes(w)[..mid], AsciiMapAll(changed[..n], case_);
      assert MapText(text[..at], map_) == kept + ascii && |kept| + |ascii| <= |text|;
      var mapped := StartMapped(|StrBytes(w)|, kept, ascii, s);
      if mapped.None? {
        TextTooLong(t, text, case_, map_, full);
        return CaseNoMemory;
      }
      var tmp := mapped.value;
      ghost var cap := Room(|text|);
      CaseRoomStarts(t, text, at, case_, map_);
      r := MapRest(w, at, tmp, case_, map_, full, s, text, cap);
    }

    /** The loop of `to_case`, over the characters behind the part already written. */
    method MapRest(w: Str, start: nat, tmp: nat, case_: Case, map_: Utf8.Scalar -> seq<Utf8.Scalar>, full: seq<byte>,
        ghost s: State, ghost text: seq<byte>, ghost cap: nat)
      returns (r: CaseResult)
      requires Ok(t, s) && text == StrIn(t, s, w) && Utf8.Valid(full)
      requires w.Borrowed? ==> w.src in s.handles && Shape(t, s.blocks, s.handles[w.src])
      requires CaseRoom(t, text, start, case_, map_, cap)
      requires BuildingIn(s, tmp, MapText(text[..start], map_), cap)
      modifies this
      ensures Valid() && !r.NoChange?
      ensures r.CaseNoMemory? ==>
                handles == s.handles && Frame(t, s, Now(), {}) && blocks.Keys == s.blocks.Keys
      ensures refused >= old(refused)
      ensures r.CaseNoMemory? <==> refused > old(refused) || CaseTooLong(t, text, case_, map_, full)
      ensures r.New? ==>
                BuildingIn(s, r.id,
                  if case_.Lower? && SIGMA in Utf8.Decode(text) then full else MapText(text, map_),
                  CaseCapacity(t, text, case_, map_, full))
    {
      hide Owners, WF, Accounted, Ok, Utf8.Valid, Utf8.Decode, BufferOk, Frame, Capacity, Text, Shape, MapText,
          Building, Utf8.CharLen, Utf8.DecodeChar, CaseTooLong, StrIn, PushedCap;
      var at := start;
      ghost var room := cap;
      StrHeld(s, tmp, MapText(text[..at], map_), w);
      while at < |StrBytes(w)|
        invariant StrBytes(w) == text && at <= |text| && Utf8.Valid(text[..at]) && Utf8.Valid(text[at..])
        invariant refused == old(refused)
        invariant BuildingIn(s, tmp, MapText(text[..at], map_), room) && CaseRoom(t, text, at, case_, map_, room)
        invariant case_.Lower? ==> SIGMA !in Utf8.Decode(text[..at])
      {
        MapTextStep(text, at, map_);
        ghost var soFar := MapText(text[..at], map_);
        var c := Utf8.DecodeChar(StrBytes(w)[at..]);
        if case_.Lower? && c == SIGMA {
          CharIn(text, at);
          CaseRoomEnds(t, text, at, case_, map_, full, room);
          var whole := ConvertWhole(tmp, full, s, soFar);
          return if whole.Some? then New(whole.value) else CaseNoMemory;
        }
        CaseRoomStep(t, text, at, case_, map_, full, room);
        var ok := PushAll(tmp, map_(c), s, soFar, room);
        if !ok {
          ghost var part :| Building(s, tmp, part);
          Discard(tmp, s, part);
          return CaseNoMemory;
        }
        room := PushedCap(t, |soFar|, room, map_(c)).value;
        StrHeld(s, tmp, soFar + Utf8.Encode(map_(c)), w);
        at := at + Utf8.CharLen(StrBytes(w)[at..]);
      }
      assert text[..at] == text;
      CaseRoomEnds(t, text, at, case_, map_, full, room);
      BuildingValid(s, tmp, MapText(text, map_));
      return New(tmp);
    }

    // ----- repeat and retain -----

    /** `Repr::repeat`. */
    method Repeat(id: nat, n: nat) returns (r: Derived)
      requires Valid() && id in handles && Shape(t, blocks, handles[id])
      modifies this
      ensures Valid()
      ensures !r.Derived? ==> Now() == old(Now())
      ensures r.Derived? ==>
                && r.id !in old(handles) && handles.Keys == old(handles.Keys) + {r.id}
                && Frame(t, old(Now()), Now(), {})
                && handles[r.id].kind == old(handles[id].kind)
                && Shape(t, blocks, handles[r.id]) && TextOf(r.id) == Repeated(old(TextOf(id)), n)
      ensures n == 1 && r.Derived? ==> handles[r.id] == old(handles[id])
      ensures n != 1 && r.Derived? ==>
                && Added(old(Now()), old(handles[id].kind), r.id, Repeated(old(TextOf(id)), n),
                     Room(|Repeated(old(TextOf(id)), n)|))
                && !handles[r.id].form.Static?
      ensures r.CountOverflow? <==> n == 1 && old(CountFull(id))
      ensures refused >= old(refused)
      ensures r.Refused? <==> refused != old(refused) || |old(TextOf(id))| * n > Limit(t, old(handles[id].kind))
    {
      hide Owners, WF, ContentOk, Accounted, Ok, Text, Capacity, Utf8.Valid, BufferOk, Shape, Frame, Repeated;
      OkText(t, Now(), id);
      WithinLimit(t, blocks, handles[id]);
      var text := Text(t, blocks, handles[id]);
      if n == 1 {
        RepeatedOnce(text);
        var copy := Clone(id);
        return if copy.Some? then Derived(copy.value) else CountOverflow;
      }
      if |text| * n >= t.Radix() {
        return Refused;
      }
      var dst := new byte[|text| * n];
      var _ := Fill(dst, text, n);
      RepeatedValid(text, n);
      RepeatedAt(text, n);
      var repeated := NewWith(handles[id].kind, dst[..]);
      return if repeated.Some? then Derived(repeated.value) else Refused;
    }

    /** `Repr::retain`; `calls` counts the calls of the predicate. */
    method Retain(id: nat, p: Predicate) returns (r: Outcome, calls: nat)
      requires Valid() && id in handles && handles[id].kind.Growable? && Shape(t, blocks, handles[id])
      modifies this
      ensures Valid() && Utf8.Valid(old(TextOf(id)))
      ensures var f := Filter(Utf8.Decode(old(TextOf(id))), p, 0);
              && (r.Done? ==> !f.panics) && (r.Panicked? ==> f.panics)
              && (r.NoMemory? ==> f.discards && !old(Modifiable(id)) && Now() == old(Now()))
              && (!r.NoMemory? ==> calls == f.calls)
              && (!r.NoMemory? && f.discards ==> Updated(old(Now()), id, Utf8.Encode(f.kept)) && Modifiable(id))
              && (!f.discards ==> Now() == old(Now()))
              && (!r.NoMemory? && f.discards ==>
                    CapacityOf(id) == if old(Modifiable(id)) then old(CapacityOf(id)) else Room(old(|TextOf(id)|)))
      ensures refused >= old(refused) && (r.NoMemory? <==> refused != old(refused))
      ensures old(Modifiable(id)) ==> next == old(next) && freed == old(freed)
    {
      hide Owners, WF, ContentOk, Accounted, Ok, Text, Capacity, Utf8.Valid, Utf8.Decode, Utf8.Encode, Utf8.CharLen,
          Utf8.DecodeChar, BufferOk, Frame, Filter, Shape;
      ghost var s := Now();
      OkText(t, s, id);
      var text := Text(t, blocks, handles[id]);
      ghost var cs := Utf8.Decode(text);
      var at, before, answer := FindRemoved(text, p);
      calls := before;
      if answer.Keep? {
        NothingRemoved(text, p, at, calls);
        return Done, calls;
      }
      NextChar(text, at);
      var n := Utf8.CharLen(text[at..]);
      ResumeStep(cs, p, Utf8.Decode(text[..at]), false, calls, Utf8.Decode(text[at..]),
          Utf8.DecodeChar(text[at..]), Utf8.Decode(text[at + n..]));
      calls := calls + 1;
      if answer.Panic? {
        return Panicked, calls;
      }
      var ok := EnsureModifiable(id);
      if !ok {
        return NoMemory, calls;
      }
      r, calls := CompactKept(id, at, n, p, calls, s, text);
    }

    /** The in-place loop of `retain` and the guard that sets the length when it is left. */
    method CompactKept(id: nat, at: nat, n: nat, p: Predicate, before: nat, ghost s: State, ghost text: seq<byte>)
      returns (r: Outcome, calls: nat)
      requires Ok(t, s) && Valid() && id in s.handles && s.handles[id].kind.Growable?
      requires Updated(s, id, text) && Modifiable(id)
      requires at < |text| && Utf8.Valid(text) && Utf8.Valid(text[..at]) && n > 0 && at + n <= |text|
      requires Utf8.Valid(text[..at + n]) && Utf8.Valid(text[at + n..])
      requires Resumes(Utf8.Decode(text), p, Utf8.Decode(text[..at]), true, before, Utf8.Decode(text[at + n..]))
      modifies this`blocks, this`handles
      ensures Valid() && !r.NoMemory?
      ensures var f := Filter(Utf8.Decode(text), p, 0);
              && f.discards && (r.Panicked? <==> f.panics) && calls == f.calls
              && Updated(s, id, Utf8.Encode(f.kept)) && Modifiable(id)
      ensures CapacityOf(id) == old(CapacityOf(id))
    {
      hide Owners, WF, Accounted, Ok, Text, Capacity, Utf8.Valid, Utf8.Decode, Utf8.Encode, Utf8.CharLen,
          Utf8.DecodeChar, Utf8.EncodeChar, BufferOk, Frame, Filter, Resumes, HalfFiltered, DataOf, Shape, Move;
      BeginEdit(s, id, text);
      TextLimit(t, blocks, handles[id]);
      var len: nat, src: nat, dst: nat := Len(t, blocks, handles[id]), at + n, at;
      assert len == |text|;
      hide Updated;
      ghost var cs, data0 := Utf8.Decode(text), DataOf(blocks, handles[id]);
      DataIsCapacity(t, blocks, handles[id]);
      ghost var data: seq<byte>, kept := data0, Utf8.Decode(text[..at]);
      FirstRemoved(data0, text, at, n);
      calls := before;
      while src < len
        invariant at + n <= src <= len == |text| && dst < src && Utf8.Valid(text[..src]) && Utf8.Valid(text[src..])
        invariant Editing(s, id, data) && HalfFiltered(data0, text, data, src, dst, kept)
        invariant handles[id].form.Inline? ==> |data0| == t.Inline() && data0[t.Inline() - 1] < HEAP_MARKER
        invariant Resumes(cs, p, kept, true, calls, Utf8.Decode(text[src..]))
      {
        Unread(data0, text, data, src, dst, kept);
        NextChar(text, src);
        var suffix := DataOf(blocks, handles[id])[src..len];
        var ch, chLen := Utf8.DecodeChar(suffix), Utf8.CharLen(suffix);
        ResumeStep(cs, p, kept, true, calls, Utf8.Decode(text[src..]), ch, Utf8.Decode(text[src + chLen..]));
        var answer := p(calls, ch);
        calls := calls + 1;
        if answer.Panic? {
          StoppedAnywhere(data0, text, data, src, dst, kept);
          SetLen(id, dst, s, data);
          return Panicked, calls;
        }
        if answer.Keep? {
          KeepMoves(data0, text, data, src, dst, kept, ch);
          if dst != src {
            CopyWithin(id, src, dst, chLen, s, data);
            data := Move(data, src, dst, chLen);
          }
          dst := dst + chLen;
          kept := kept + [ch];
        } else {
          DiscardSkips(data0, text, data, src, dst, kept, chLen);
        }
        src := src + chLen;
      }
      EndReached(text, src, cs, p, kept, calls);
      StoppedAnywhere(data0, text, data, src, dst, kept);
      SetLen(id, dst, s, data);
      r := Done;
    }

    /** `NumToRepr::into_repr` for the integer types up to 64 bits. */
    method FromInteger(kind: Kind, ty: IntType, x: int) returns (r: Option<nat>)
      requires Valid() && ty.Fits(t, x)
      modifies this
      ensures Valid()
      ensures r.None? ==> Now() == old(Now())
      ensures r.Some? ==> Added(old(Now()), kind, r.value, Decimal(x), Room(|Decimal(x)|))
      ensures refused >= old(refused) && (r.Some? <==> refused == old(refused))
      ensures |Decimal(x)| <= t.Inline() ==> r.Some?
    {
      hide Owners, WF, Accounted, Ok, Text, Capacity, Utf8.Valid, Shape, Frame, Decimal, DigitCount, IntType.Fits;
      var buf := new byte[DigitCount(ty, t, x)];
      var _ := WriteNumber(ty, t, x, buf);
      DecimalIsAscii(x);
      DecimalIsShort(ty, t, x);
      r := NewWith(kind, buf[..]);
    }
  }
}
