/** Threads sharing allocations, as an interleaving of atomic steps: `fetch_add`, `fetch_sub`, the load of
    the uniqueness test, the bytes of a copy, and writes in place are separate.

    Everything that holds or is about to take a reference is an actor: handles, clones in flight, copies
    being filled, references being released, and deallocations about to happen.  A step that would touch freed memory,
    free twice, count below zero, or write or resize memory another actor can reach is a fault. */
module Concurrency {
  import opened Bytes
  import opened Layout

  // ----- states -----

  /** Progress of an edit through `&mut self`; `want` is the text it is to leave behind. */
  datatype Pc =
    | Idle
    | Check(want: seq<byte>)    // about to load the count
    | Unique1(want: seq<byte>)  // `is_modifiable` loaded 1
    | Shared1(want: seq<byte>)  // it loaded more than 1
    | Unique2(want: seq<byte>)  // `reallocate` loaded 1, or the buffer was just made
    | Shared2(want: seq<byte>)  // `reallocate` loaded more than 1
    | Copying(want: seq<byte>, into: nat)  // the shared text is being copied by the actor `into`
    | Writing(want: seq<byte>)  // writing in place

  datatype Actor =
    | Handle(base: nat, len: TextLen, pc: Pc)
    | Cloning(base: nat, src: nat, len: TextLen)  // about to add to the count
    | Cloned(base: nat, src: nat, len: TextLen)   // has added to the count
    | Filling(base: nat, src: nat, done: nat)     // a new allocation, given the first `done` bytes of `src`
    | Releasing(base: nat)                        // about to subtract from the count
    | Freeing(base: nat)                          // has subtracted the last reference

  /** A live allocation: its count, its length word, and its data area. */
  datatype Block = Block(count: nat, slot: nat, data: seq<byte>)

  type Actors = map<nat, Actor>
  type Blocks = map<nat, Block>

  datatype State = State(blocks: Blocks, actors: Actors, next: nat, freed: seq<nat>)

  datatype Out = Next(s: State) | Disabled | Fault

  predicate Counted(a: Actor) { a.Handle? || a.Cloned? || a.Filling? || a.Releasing? }

  /** Holders that stay: not about to give their reference back. */
  predicate Keeps(a: Actor) { a.Handle? || a.Cloned? || a.Filling? }

  function Refs(actors: Actors, b: nat): set<nat> {
    set i | i in actors && actors[i].base == b && Counted(actors[i])
  }

  function Keepers(actors: Actors, b: nat): set<nat> {
    set i | i in actors && actors[i].base == b && Keeps(actors[i])
  }

  predicate Borrows(a: Actor, h: nat) { (a.Cloning? || a.Cloned?) && a.src == h }

  /** `h` is a handle nobody borrows, so `&mut` access is possible. */
  predicate Exclusive(s: State, h: nat) {
    h in s.actors && s.actors[h].Handle? && forall i | i in s.actors :: !Borrows(s.actors[i], h)
  }

  /** No other actor can reach the allocation of `h`. */
  predicate Alone(s: State, h: nat)
    requires h in s.actors
  {
    forall i | i in s.actors && i != h :: s.actors[i].base != s.actors[h].base
  }

  function LenIn(b: Block, len: TextLen): nat { if len.OnHeap? then b.slot else len.n }

  predicate LenOk(t: Target, b: Block, len: TextLen) {
    LenIn(b, len) <= |b.data| && NewTextLen(t, LenIn(b, len)) == Some(len)
  }

  predicate Readable(s: State, h: nat) {
    && h in s.actors && s.actors[h].Handle? && s.actors[h].base in s.blocks
    && LenIn(s.blocks[s.actors[h].base], s.actors[h].len) <= |s.blocks[s.actors[h].base].data|
  }

  /** The text of a handle. */
  function TextAt(s: State, h: nat): seq<byte>
    requires h in s.actors && s.actors[h].Handle?
  {
    if Readable(s, h)
    then s.blocks[s.actors[h].base].data[..LenIn(s.blocks[s.actors[h].base], s.actors[h].len)] else []
  }

  // ----- steps -----

  datatype Event =
    | Make(h: nat, text: seq<byte>, cap: nat)
    | Read(h: nat)
    | CloneBegin(h: nat, c: nat)
    | CloneAdd(c: nat)
    | CloneEnd(c: nat)
    | Drop(h: nat)
    | Sub(r: nat)
    | Free(r: nat)
    | Edit(h: nat, want: seq<byte>)
    | Load(h: nat)
    | Reload(h: nat)
    | Fail(h: nat)
    | Copy(h: nat, r: nat, raw: seq<byte>)
    | CopyByte(r: nat)
    | HandOver(h: nat, r: nat)
    | Grow(h: nat, cap: nat, moves: bool)
    | Write(h: nat)
    | Poke(h: nat, at: nat, b: byte)
    | Commit(h: nat)
    | Shorten(h: nat, n: nat)

  /** `text` in a data area of `cap` bytes. */
  function Padded(text: seq<byte>, cap: nat): seq<byte>
    requires |text| <= cap
  {
    text + seq(cap - |text|, _ => 0)
  }

  /** A new allocation, with the first reference to it. */
  function MakeStep(t: Target, s: State, h: nat, text: seq<byte>, cap: nat): Out {
    if h in s.actors || |text| > cap || NewTextLen(t, |text|).None? then Disabled
    else
      Next(s.(blocks := s.blocks[s.next := Block(1, |text|, Padded(text, cap))],
              actors := s.actors[h := Handle(s.next, NewTextLen(t, |text|).value, Idle)],
              next := s.next + 1))
  }

  /** `make_shallow_clone` is called on a handle nobody is editing. */
  function CloneBeginStep(s: State, h: nat, c: nat): Out {
    if h !in s.actors || !s.actors[h].Handle? || !s.actors[h].pc.Idle? || c in s.actors then Disabled
    else Next(s.(actors := s.actors[c := Cloning(s.actors[h].base, h, s.actors[h].len)]))
  }

  /** `fetch_add`; past `isize::MAX` the reference is only taken to be given back. */
  function CloneAddStep(t: Target, s: State, c: nat): Out {
    if c !in s.actors || !s.actors[c].Cloning? then Disabled
    else
      var Cloning(b, src, len) := s.actors[c];
      if b !in s.blocks then Fault
      else
        var prev := s.blocks[b].count;
        Next(s.(blocks := s.blocks[b := s.blocks[b].(count := prev + 1)],
                actors := s.actors[c := if prev > t.IsizeMax() then Releasing(b) else Cloned(b, src, len)]))
  }

  function CloneEndStep(s: State, c: nat): Out {
    if c !in s.actors || !s.actors[c].Cloned? then Disabled
    else Next(s.(actors := s.actors[c := Handle(s.actors[c].base, s.actors[c].len, Idle)]))
  }

  function DropStep(s: State, h: nat): Out {
    if !Exclusive(s, h) || !s.actors[h].pc.Idle? then Disabled
    else Next(s.(actors := s.actors[h := Releasing(s.actors[h].base)]))
  }

  /** `fetch_sub`. */
  function SubStep(s: State, r: nat): Out {
    if r !in s.actors || !s.actors[r].Releasing? then Disabled
    else
      var b := s.actors[r].base;
      if b !in s.blocks || s.blocks[b].count == 0 then Fault
      else
        var prev := s.blocks[b].count;
        Next(s.(blocks := s.blocks[b := s.blocks[b].(count := prev - 1)],
                actors := if prev == 1 then s.actors[r := Freeing(b)] else s.actors - {r}))
  }

  /** `dealloc`. */
  function FreeStep(s: State, r: nat): Out {
    if r !in s.actors || !s.actors[r].Freeing? then Disabled
    else
      var b := s.actors[r].base;
      if b !in s.blocks || !Alone(s, r) then Fault
      else Next(s.(blocks := s.blocks - {b}, actors := s.actors - {r}, freed := s.freed + [b]))
  }

  function EditStep(s: State, h: nat, want: seq<byte>): Out {
    if !Exclusive(s, h) || !s.actors[h].pc.Idle? then Disabled
    else Next(s.(actors := s.actors[h := s.actors[h].(pc := Check(want))]))
  }

  /** The load of `is_modifiable`. */
  function LoadStep(s: State, h: nat): Out {
    if h !in s.actors || !s.actors[h].Handle? || !s.actors[h].pc.Check? then Disabled
    else
      var a := s.actors[h];
      if a.base !in s.blocks then Fault
      else
        var unique := s.blocks[a.base].count == 1;
        Next(s.(actors := s.actors[h := a.(pc := if unique then Unique1(a.pc.want) else Shared1(a.pc.want))]))
  }

  /** The second load, in `reallocate`. */
  function ReloadStep(s: State, h: nat): Out {
    if h !in s.actors || !s.actors[h].Handle? || !(s.actors[h].pc.Unique1? || s.actors[h].pc.Shared1?) then Disabled
    else
      var a := s.actors[h];
      if a.base !in s.blocks then Fault
      else
        var unique := s.blocks[a.base].count == 1;
        Next(s.(actors := s.actors[h := a.(pc := if unique then Unique2(a.pc.want) else Shared2(a.pc.want))]))
  }

  predicate Failing(pc: Pc) { pc.Unique1? || pc.Shared1? || pc.Unique2? || pc.Shared2? }

  /** An allocation fails and the edit is given up. */
  function FailStep(s: State, h: nat): Out {
    if h !in s.actors || !s.actors[h].Handle? || !Failing(s.actors[h].pc) then Disabled
    else Next(s.(actors := s.actors[h := s.actors[h].(pc := Idle)]))
  }

  /** A buffer for a copy of the shared text is allocated; whatever bytes `raw` it holds, its length is
      recorded. */
  function CopyStep(s: State, h: nat, r: nat, raw: seq<byte>): Out {
    if h !in s.actors || !s.actors[h].Handle? || !(s.actors[h].pc.Shared1? || s.actors[h].pc.Shared2?) then Disabled
    else if r in s.actors || |TextAt(s, h)| > |raw| then Disabled
    else
      var a := s.actors[h];
      Next(s.(blocks := s.blocks[s.next := Block(1, |TextAt(s, h)|, raw)],
              actors := s.actors[h := a.(pc := Copying(a.pc.want, r))][r := Filling(s.next, h, 0)],
              next := s.next + 1))
  }

  /** One byte is read from the shared text and written to the new buffer. */
  function CopyByteStep(s: State, r: nat): Out {
    if r !in s.actors || !s.actors[r].Filling? then Disabled
    else
      var Filling(b, h, done) := s.actors[r];
      if b !in s.blocks || !Alone(s, r) || !Readable(s, h) then Fault
      else if done >= |TextAt(s, h)| then Disabled
      else if done >= |s.blocks[b].data| then Fault
      else
        Next(s.(blocks := s.blocks[b := s.blocks[b].(data := s.blocks[b].data[done := TextAt(s, h)[done]])],
                actors := s.actors[r := Filling(b, h, done + 1)]))
  }

  /** The copy is complete: the handle moves to it, and its old reference is to be given back. */
  function HandOverStep(s: State, h: nat, r: nat): Out {
    if h !in s.actors || !s.actors[h].Handle? || r !in s.actors || !s.actors[r].Filling? then Disabled
    else
      var Handle(b, len, pc) := s.actors[h];
      if !pc.Copying? || pc.into != r || s.actors[r].src != h || s.actors[r].done != |TextAt(s, h)| then Disabled
      else Next(s.(actors := s.actors[h := Handle(s.actors[r].base, len, Unique2(pc.want))][r := Releasing(b)]))
  }

  /** `realloc`: the allocation is resized where it is, or moved and the old one freed. */
  function GrowStep(s: State, h: nat, cap: nat, moves: bool): Out {
    if h !in s.actors || !s.actors[h].Handle? || !s.actors[h].pc.Unique2? || |TextAt(s, h)| > cap then Disabled
    else
      var a := s.actors[h];
      if a.base !in s.blocks || !Alone(s, h) then Fault
      else
        var old_ := s.blocks[a.base];
        var data := if cap <= |old_.data| then old_.data[..cap] else Padded(old_.data, cap);
        if moves then
          Next(State((s.blocks - {a.base})[s.next := old_.(data := data)],
                     s.actors[h := Handle(s.next, a.len, a.pc)], s.next + 1, s.freed + [a.base]))
        else
          Next(s.(blocks := s.blocks[a.base := old_.(data := data)]))
  }

  /** A unique buffer with room is written in place. */
  function WriteStep(s: State, h: nat): Out {
    if h !in s.actors || !s.actors[h].Handle? || !(s.actors[h].pc.Unique1? || s.actors[h].pc.Unique2?) then Disabled
    else
      var a := s.actors[h];
      if a.base !in s.blocks then Fault
      else if |a.pc.want| > |s.blocks[a.base].data| then Disabled
      else Next(s.(actors := s.actors[h := a.(pc := Writing(a.pc.want))]))
  }

  /** One byte of the data area is written. */
  function PokeStep(s: State, h: nat, at: nat, b: byte): Out {
    if h !in s.actors || !s.actors[h].Handle? || !s.actors[h].pc.Writing? then Disabled
    else
      var base := s.actors[h].base;
      if base !in s.blocks || !Alone(s, h) then Fault
      else if at >= |s.blocks[base].data| then Disabled
      else Next(s.(blocks := s.blocks[base := s.blocks[base].(data := s.blocks[base].data[at := b])]))
  }

  /** `set_len`: a length too large for the handle is written to the length word. */
  function CommitStep(t: Target, s: State, h: nat): Out {
    if h !in s.actors || !s.actors[h].Handle? || !s.actors[h].pc.Writing? then Disabled
    else
      var a := s.actors[h];
      if a.base !in s.blocks || !Alone(s, h) then Fault
      else
        var block, want := s.blocks[a.base], a.pc.want;
        if |want| > |block.data| || block.data[..|want|] != want || NewTextLen(t, |want|).None? then Disabled
        else
          var len := NewTextLen(t, |want|).value;
          Next(s.(blocks := s.blocks[a.base := if len.OnHeap? then block.(slot := |want|) else block],
                  actors := s.actors[h := Handle(a.base, len, Idle)]))
  }

  /** `truncate` with the length in the handle: nothing shared is touched. */
  function ShortenStep(s: State, h: nat, n: nat): Out {
    if !Exclusive(s, h) || !s.actors[h].pc.Idle? || s.actors[h].len.OnHeap? || n > s.actors[h].len.n then Disabled
    else Next(s.(actors := s.actors[h := Handle(s.actors[h].base, InHandle(n), Idle)]))
  }

  function ReadStep(s: State, h: nat): Out {
    if h !in s.actors || !s.actors[h].Handle? || !s.actors[h].pc.Idle? then Disabled
    else if !Readable(s, h) then Fault
    else Next(s)
  }

  function Step(t: Target, s: State, e: Event): Out {
    match e
    case Make(h, text, cap) => MakeStep(t, s, h, text, cap)
    case Read(h) => ReadStep(s, h)
    case CloneBegin(h, c) => CloneBeginStep(s, h, c)
    case CloneAdd(c) => CloneAddStep(t, s, c)
    case CloneEnd(c) => CloneEndStep(s, c)
    case Drop(h) => DropStep(s, h)
    case Sub(r) => SubStep(s, r)
    case Free(r) => FreeStep(s, r)
    case Edit(h, want) => EditStep(s, h, want)
    case Load(h) => LoadStep(s, h)
    case Reload(h) => ReloadStep(s, h)
    case Fail(h) => FailStep(s, h)
    case Copy(h, r, raw) => CopyStep(s, h, r, raw)
    case CopyByte(r) => CopyByteStep(s, r)
    case HandOver(h, r) => HandOverStep(s, h, r)
    case Grow(h, cap, moves) => GrowStep(s, h, cap, moves)
    case Write(h) => WriteStep(s, h)
    case Poke(h, at, b) => PokeStep(s, h, at, b)
    case Commit(h) => CommitStep(t, s, h)
    case Shorten(h, n) => ShortenStep(s, h, n)
  }

  // ----- the invariant -----

  predicate SawUnique(pc: Pc) { pc.Unique1? || pc.Unique2? || pc.Writing? }

  predicate ActorOk(t: Target, s: State, i: nat)
    requires i in s.actors
  {
    var a := s.actors[i];
    && a.base in s.blocks
    && match a
       case Handle(b, len, pc) => LenOk(t, s.blocks[b], len) && (SawUnique(pc) ==> Alone(s, i))
       case Cloning(b, src, len) => src in s.actors && s.actors[src] == Handle(b, len, Idle)
       case Cloned(b, src, len) => src in s.actors && s.actors[src] == Handle(b, len, Idle)
       case Filling(_, _, _) => Alone(s, i)
       case Releasing(_) => true
       case Freeing(_) => Alone(s, i)
  }

  /** The count is the number of references, and an allocation nobody counts is about to be freed. */
  predicate BlockOk(t: Target, s: State, b: nat)
    requires b in s.blocks
  {
    && s.blocks[b].count == |Refs(s.actors, b)|
    && (s.blocks[b].count == 0 ==> exists i :: i in s.actors && s.actors[i] == Freeing(b))
    && |Keepers(s.actors, b)| <= t.IsizeMax() + 1
  }

  predicate SameLenPlace(s: State, i: nat, j: nat)
    requires i in s.actors && j in s.actors
  {
    s.actors[i].Handle? && s.actors[j].Handle? && s.actors[i].base == s.actors[j].base ==>
      s.actors[i].len.OnHeap? == s.actors[j].len.OnHeap?
  }

  /** Every allocation ever made is live, or was freed exactly once. */
  predicate Accounted(s: State) {
    && (forall b :: b in s.blocks ==> b < s.next && b !in s.freed)
    && (forall b: nat | b < s.next :: b in s.blocks || b in s.freed)
    && (forall b :: b in s.freed ==> b < s.next)
    && (forall i, j | 0 <= i < j < |s.freed| :: s.freed[i] != s.freed[j])
  }

  predicate Structure(t: Target, s: State) {
    && (forall i | i in s.actors :: ActorOk(t, s, i))
    && (forall b | b in s.blocks :: BlockOk(t, s, b))
    && (forall i, j | i in s.actors && j in s.actors :: SameLenPlace(s, i, j))
    && Accounted(s)
  }

  /** A copy under way: the handle it is for waits, the length is recorded, and the bytes copied so far are
      the front of the text. */
  predicate CopyOk(s: State, r: nat)
    requires r in s.actors && s.actors[r].Filling?
  {
    var Filling(b, h, done) := s.actors[r];
    && Readable(s, h) && s.actors[h].pc.Copying? && s.actors[h].pc.into == r
    && b in s.blocks && s.blocks[b].slot == |TextAt(s, h)| <= |s.blocks[b].data|
    && done <= |TextAt(s, h)| && s.blocks[b].data[..done] == TextAt(s, h)[..done]
  }

  predicate CopiesOk(s: State) { forall r | r in s.actors && s.actors[r].Filling? :: CopyOk(s, r) }

  predicate Inv(t: Target, s: State) { Structure(t, s) && CopiesOk(s) }

  // ----- sets of references -----

  lemma RefsSet(actors: Actors, i: nat, a: Actor, b: nat)
    ensures Refs(actors[i := a], b) == (Refs(actors, b) - {i}) + (if a.base == b && Counted(a) then {i} else {})
    ensures Keepers(actors[i := a], b) == (Keepers(actors, b) - {i}) + (if a.base == b && Keeps(a) then {i} else {})
  {
  }

  lemma RefsGone(actors: Actors, i: nat, b: nat)
    ensures Refs(actors - {i}, b) == Refs(actors, b) - {i}
    ensures Keepers(actors - {i}, b) == Keepers(actors, b) - {i}
  {
  }

  lemma KeepersCounted(actors: Actors, b: nat)
    ensures |Keepers(actors, b)| <= |Refs(actors, b)|
  {
    SubsetSize(Keepers(actors, b), Refs(actors, b));
  }

  lemma SubsetSize(a: set<nat>, b: set<nat>)
    requires a <= b
    ensures |a| <= |b|
  {
    assert a + (b - a) == b;
  }

  /** Nothing but the allocations `bs`, and the actors on them, has changed. */
  ghost predicate Changed(s: State, s': State, bs: set<nat>) {
    && (forall b | b !in bs :: (b in s.blocks <==> b in s'.blocks) && (b in s.blocks ==> s.blocks[b] == s'.blocks[b]))
    && (forall i | i in s.actors && s.actors[i].base !in bs :: i in s'.actors && s'.actors[i] == s.actors[i])
    && (forall i | i in s'.actors && s'.actors[i].base !in bs :: i in s.actors && s'.actors[i] == s.actors[i])
  }

  /** The invariant is local to allocations. */
  lemma Rebuild(t: Target, s: State, s': State, bs: set<nat>)
    requires Structure(t, s) && Changed(s, s', bs) && Accounted(s')
    requires forall i | i in s'.actors && s'.actors[i].base in bs :: ActorOk(t, s', i)
    requires forall b | b in bs && b in s'.blocks :: BlockOk(t, s', b)
    requires forall i, j | i in s'.actors && j in s'.actors && s'.actors[i].base in bs :: SameLenPlace(s', i, j)
    ensures Structure(t, s')
  {
    hide LenOk, Accounted, Refs, Keepers;
    forall i | i in s'.actors && s'.actors[i].base !in bs ensures ActorOk(t, s', i) {
      assert ActorOk(t, s, i);
    }
    forall b | b in s'.blocks && b !in bs ensures BlockOk(t, s', b) {
      assert BlockOk(t, s, b);
      SameRefs(s, s', bs, b);
      if s.blocks[b].count == 0 {
        var i :| i in s.actors && s.actors[i] == Freeing(b);
        assert s'.actors[i] == Freeing(b);
      }
    }
    forall i, j | i in s'.actors && j in s'.actors && s'.actors[i].base !in bs ensures SameLenPlace(s', i, j) {
      if s'.actors[j].base == s'.actors[i].base { assert SameLenPlace(s, i, j); }
    }
  }

  lemma SameRefs(s: State, s': State, bs: set<nat>, b: nat)
    requires Changed(s, s', bs) && b !in bs
    ensures Refs(s'.actors, b) == Refs(s.actors, b) && Keepers(s'.actors, b) == Keepers(s.actors, b)
  {
  }

  /** All actors on an allocation with one reference are the holder of that reference. */
  lemma OnlyRef(t: Target, s: State, h: nat)
    requires Structure(t, s) && h in s.actors && Counted(s.actors[h])
    requires s.actors[h].base in s.blocks && s.blocks[s.actors[h].base].count == 1
    requires s.actors[h].Handle? ==> Exclusive(s, h)
    ensures Alone(s, h)
    ensures Refs(s.actors, s.actors[h].base) == {h}
  {
    hide LenOk, Accounted;
    var b := s.actors[h].base;
    assert BlockOk(t, s, b) && h in Refs(s.actors, b);
    OneElement(Refs(s.actors, b), h);
    forall i | i in s.actors && i != h ensures s.actors[i].base != b {
      assert ActorOk(t, s, i);
      assert s.actors[i].base == b && Counted(s.actors[i]) ==> i in Refs(s.actors, b);
      if s.actors[i].Cloning? { SourceCounts(t, s, i); }
    }
  }

  /** The handle a clone is being made from holds a reference all the while. */
  lemma SourceCounts(t: Target, s: State, c: nat)
    requires Structure(t, s) && c in s.actors && (s.actors[c].Cloning? || s.actors[c].Cloned?)
    ensures s.actors[c].src in Refs(s.actors, s.actors[c].base) && Borrows(s.actors[c], s.actors[c].src)
  {
    hide LenOk, Accounted;
    assert ActorOk(t, s, c);
  }

  lemma OneElement(x: set<nat>, i: nat)
    requires i in x && |x| == 1
    ensures x == {i}
  {
    assert |x - {i}| == 0;
    assert x == {i} + (x - {i});
  }

  /** Other actors do not notice a change of a handle nobody borrows. */
  lemma OthersOk(t: Target, s: State, s': State, h: nat)
    requires Structure(t, s) && Exclusive(s, h) && s'.blocks == s.blocks
    requires h in s'.actors && s'.actors == s.actors[h := s'.actors[h]] && s'.actors[h].base == s.actors[h].base
    ensures forall i | i in s'.actors && i != h :: ActorOk(t, s', i)
  {
    hide LenOk, Refs, Keepers, Accounted;
    forall i | i in s'.actors && i != h ensures ActorOk(t, s', i) {
      assert ActorOk(t, s, i) && !Borrows(s.actors[i], h);
    }
  }

  /** A handle changes without leaving its allocation. */
  lemma HandleKeeps(t: Target, s: State, h: nat, a: Actor)
    requires Structure(t, s) && Exclusive(s, h)
    requires a.Handle? && a.base == s.actors[h].base && a.len.OnHeap? == s.actors[h].len.OnHeap?
    requires (SawUnique(a.pc) ==> Alone(s, h)) && a.base in s.blocks && LenOk(t, s.blocks[a.base], a.len)
    ensures Structure(t, s.(actors := s.actors[h := a]))
  {
    hide LenOk, Refs, Keepers;
    var s' := s.(actors := s.actors[h := a]);
    OthersOk(t, s, s', h);
    forall i, j | i in s'.actors && j in s'.actors ensures SameLenPlace(s', i, j) {
      assert SameLenPlace(s, i, j);
    }
    assert BlockOk(t, s', a.base) by {
      assert BlockOk(t, s, a.base);
      RefsKept(s, s', h);
      FreeingKept(s, s', h, a.base);
    }
    Rebuild(t, s, s', {a.base});
  }

  /** An edit goes on: only its progress changes. */
  lemma PcKeeps(t: Target, s: State, h: nat, pc: Pc)
    requires Structure(t, s) && Exclusive(s, h) && (SawUnique(pc) ==> Alone(s, h))
    ensures Structure(t, s.(actors := s.actors[h := Handle(s.actors[h].base, s.actors[h].len, pc)]))
  {
    assert ActorOk(t, s, h);
    hide LenOk, Structure;
    HandleKeeps(t, s, h, Handle(s.actors[h].base, s.actors[h].len, pc));
  }

  lemma RefsKept(s: State, s': State, h: nat)
    requires h in s.actors && h in s'.actors && s'.actors == s.actors[h := s'.actors[h]]
    requires s'.actors[h].base == s.actors[h].base && Counted(s'.actors[h]) == Counted(s.actors[h])
    requires Keeps(s'.actors[h]) == Keeps(s.actors[h])
    ensures forall b :: Refs(s'.actors, b) == Refs(s.actors, b) && Keepers(s'.actors, b) == Keepers(s.actors, b)
  {
  }

  lemma FreeingKept(s: State, s': State, h: nat, b: nat)
    requires h in s'.actors && h in s.actors && s'.actors == s.actors[h := s'.actors[h]] && !s.actors[h].Freeing?
    ensures (exists i :: i in s.actors && s.actors[i] == Freeing(b)) ==>
              exists i :: i in s'.actors && s'.actors[i] == Freeing(b)
  {
    if i :| i in s.actors && s.actors[i] == Freeing(b) {
      assert s'.actors[i] == Freeing(b);
    }
  }

  /** An actor that borrows needs its source idle, so a handle in the middle of an edit is not borrowed. */
  lemma BusyIsExclusive(t: Target, s: State, h: nat)
    requires Structure(t, s) && h in s.actors && s.actors[h].Handle? && !s.actors[h].pc.Idle?
    ensures Exclusive(s, h)
  {
    hide LenOk, Refs, Keepers, Accounted;
    forall i | i in s.actors ensures !Borrows(s.actors[i], h) {
      assert ActorOk(t, s, i);
    }
  }

  // ----- every step keeps the invariant -----

  lemma ProgressKeeps(t: Target, s: State, e: Event)
    requires Structure(t, s) && Step(t, s, e).Next? && (e.Edit? || e.Load? || e.Reload? || e.Fail? || e.Write?)
    ensures Structure(t, Step(t, s, e).s)
  {
    hide LenOk, Refs, Keepers, Structure;
    var h := e.h;
    if !e.Edit? { BusyIsExclusive(t, s, h); }
    var a := s.actors[h];
    if SawUnique(a.pc) { assert Alone(s, h) by { UniqueIsAlone(t, s, h); } }
    match e
    case Edit(_, want) => PcKeeps(t, s, h, Check(want));
    case Load(_) =>
      if s.blocks[a.base].count == 1 { OnlyRef(t, s, h); PcKeeps(t, s, h, Unique1(a.pc.want)); }
      else { PcKeeps(t, s, h, Shared1(a.pc.want)); }
    case Reload(_) =>
      if s.blocks[a.base].count == 1 { OnlyRef(t, s, h); PcKeeps(t, s, h, Unique2(a.pc.want)); }
      else { PcKeeps(t, s, h, Shared2(a.pc.want)); }
    case Fail(_) => PcKeeps(t, s, h, Idle);
    case Write(_) => PcKeeps(t, s, h, Writing(a.pc.want));
  }

  lemma UniqueIsAlone(t: Target, s: State, h: nat)
    requires Structure(t, s) && h in s.actors && s.actors[h].Handle? && SawUnique(s.actors[h].pc)
    ensures Alone(s, h)
  {
    assert ActorOk(t, s, h);
  }

  lemma ShortenKeeps(t: Target, s: State, h: nat, n: nat)
    requires Structure(t, s) && ShortenStep(s, h, n).Next?
    ensures Structure(t, ShortenStep(s, h, n).s)
  {
    assert ActorOk(t, s, h);
    assert LenOk(t, s.blocks[s.actors[h].base], InHandle(n));
    hide LenOk, Structure;
    HandleKeeps(t, s, h, Handle(s.actors[h].base, InHandle(n), Idle));
  }

  lemma MakeKeeps(t: Target, s: State, h: nat, text: seq<byte>, cap: nat)
    requires Structure(t, s) && MakeStep(t, s, h, text, cap).Next?
    ensures Structure(t, MakeStep(t, s, h, text, cap).s)
  {
    hide Structure, LenOk, Padded;
    var len := NewTextLen(t, |text|).value;
    MadeLen(t, text, cap);
    NewBlockKeeps(t, s, h, Handle(s.next, len, Idle), Block(1, |text|, Padded(text, cap)));
  }

  /** A new allocation with the one actor on it. */
  lemma NewBlockKeeps(t: Target, s: State, i: nat, a: Actor, block: Block)
    requires Structure(t, s) && i !in s.actors && a.base == s.next && block.count == 1
    requires a.Filling? || (a.Handle? && LenOk(t, block, a.len))
    ensures Structure(t, State(s.blocks[s.next := block], s.actors[i := a], s.next + 1, s.freed))
  {
    hide Structure, LenOk, Refs, Keepers, Accounted, Changed;
    var s' := State(s.blocks[s.next := block], s.actors[i := a], s.next + 1, s.freed);
    InvAccounted(t, s);
    NextIsNew(s);
    NobodyOn(t, s, s.next);
    MadeOne(s, s');
    RefsSet(s.actors, i, a, s.next);
    assert {} - {i} + {i} == {i};
    MakeChanges(s, s', i);
    assert ActorOk(t, s', i) && BlockOk(t, s', s.next);
    forall j, k | j in s'.actors && k in s'.actors && s'.actors[j].base == s.next ensures SameLenPlace(s', j, k) {
      assert j == i;
    }
    hide ActorOk, BlockOk, SameLenPlace;
    Rebuild(t, s, s', {s.next});
  }

  lemma InvAccounted(t: Target, s: State)
    requires Structure(t, s)
    ensures Accounted(s)
  {
  }

  lemma MadeLen(t: Target, text: seq<byte>, cap: nat)
    requires |text| <= cap && NewTextLen(t, |text|).Some?
    ensures LenOk(t, Block(1, |text|, Padded(text, cap)), NewTextLen(t, |text|).value)
  {
  }

  lemma MakeChanges(s: State, s': State, h: nat)
    requires h !in s.actors && s.next !in s.blocks && forall i | i in s.actors :: s.actors[i].base != s.next
    requires h in s'.actors && s'.actors == s.actors[h := s'.actors[h]] && s'.actors[h].base == s.next
    requires s.next in s'.blocks && s'.blocks == s.blocks[s.next := s'.blocks[s.next]]
    ensures Changed(s, s', {s.next})
    ensures forall i | i in s'.actors && s'.actors[i].base == s.next :: i == h
  {
  }

  /** No actor is on an allocation that is not live. */
  lemma NobodyOn(t: Target, s: State, b: nat)
    requires Structure(t, s) && b !in s.blocks
    ensures forall i | i in s.actors :: s.actors[i].base != b
    ensures Refs(s.actors, b) == {} && Keepers(s.actors, b) == {}
  {
    hide LenOk;
    forall i | i in s.actors ensures s.actors[i].base != b { assert ActorOk(t, s, i); }
  }

  /** Only actor `c` and the count of allocation `b` have changed. */
  ghost predicate OneActor(s: State, s': State, c: nat, b: nat) {
    && (forall i | i != c :: (i in s.actors <==> i in s'.actors) && (i in s.actors ==> s'.actors[i] == s.actors[i]))
    && (c in s'.actors ==> s'.actors[c].base == b)
    && b in s.blocks && b in s'.blocks && s'.blocks == s.blocks[b := s'.blocks[b]]
    && s'.blocks[b].slot == s.blocks[b].slot && s'.blocks[b].data == s.blocks[b].data
    && s'.next == s.next && s'.freed == s.freed
  }

  /** The others do not notice, unless one of them relied on being alone. */
  lemma OthersStay(t: Target, s: State, s': State, c: nat, b: nat)
    requires Structure(t, s) && OneActor(s, s', c, b)
    requires forall i | i in s.actors :: !Borrows(s.actors[i], c)
    requires c in s.actors ==> s.actors[c].base == b
    requires c !in s.actors ==>
               exists h :: h in s.actors && s.actors[h].base == b && s.actors[h].Handle? && s.actors[h].pc.Idle?
    ensures forall i | i in s'.actors && i != c :: ActorOk(t, s', i)
  {
    hide LenOk, Accounted, BlockOk, SameLenPlace, Alone, OneActor;
    forall i | i in s'.actors && i != c ensures ActorOk(t, s', i) {
      SameActor(s, s', c, b, i);
      assert ActorOk(t, s, i) && !Borrows(s.actors[i], c);
      match s.actors[i]
      case Handle(_, len, pc) =>
        LenStays(t, s, s', c, b, i);
        if SawUnique(pc) { AloneStays(s, s', c, b, i); }
      case Filling(_, _, _) => AloneStays(s, s', c, b, i);
      case Freeing(_) => AloneStays(s, s', c, b, i);
      case _ => SourceStays(s, s', c, b, i);
    }
  }

  lemma SameActor(s: State, s': State, c: nat, b: nat, i: nat)
    requires OneActor(s, s', c, b) && i != c
    ensures i in s'.actors ==> i in s.actors && s'.actors[i] == s.actors[i]
  {
  }

  lemma AloneStays(s: State, s': State, c: nat, b: nat, i: nat)
    requires OneActor(s, s', c, b) && i in s.actors && i != c && Alone(s, i)
    requires !(s.actors[i].Handle? && s.actors[i].pc.Idle?) && s.actors[i].base in s.blocks
    requires c in s.actors ==> s.actors[c].base == b
    requires c !in s.actors ==>
               exists h :: h in s.actors && s.actors[h].base == b && s.actors[h].Handle? && s.actors[h].pc.Idle?
    ensures i in s'.actors && Alone(s', i) && s'.actors[i].base in s'.blocks
  {
  }

  lemma LenStays(t: Target, s: State, s': State, c: nat, b: nat, i: nat)
    requires OneActor(s, s', c, b) && i in s.actors && i != c && s.actors[i].Handle?
    requires s.actors[i].base in s.blocks && LenOk(t, s.blocks[s.actors[i].base], s.actors[i].len)
    ensures i in s'.actors && s'.actors[i] == s.actors[i] && s.actors[i].base in s'.blocks
    ensures LenOk(t, s'.blocks[s.actors[i].base], s.actors[i].len)
  {
    hide NewTextLen;
  }

  lemma SourceStays(s: State, s': State, c: nat, b: nat, i: nat)
    requires OneActor(s, s', c, b) && i in s.actors && s.actors[i].base in s.blocks && !Borrows(s.actors[i], c)
    ensures s.actors[i].base in s'.blocks
    ensures s.actors[i].Cloning? || s.actors[i].Cloned? ==>
              var src := s.actors[i].src;
              src in s.actors ==> src in s'.actors && s'.actors[src] == s.actors[src]
  {
  }

  lemma OneActorKeeps(t: Target, s: State, s': State, c: nat, b: nat)
    requires Structure(t, s) && OneActor(s, s', c, b)
    requires forall i | i in s.actors :: !Borrows(s.actors[i], c)
    requires c in s.actors ==> s.actors[c].base == b
    requires c !in s.actors ==>
               exists h :: h in s.actors && s.actors[h].base == b && s.actors[h].Handle? && s.actors[h].pc.Idle?
    requires c in s'.actors ==> ActorOk(t, s', c)
    requires c in s'.actors && s'.actors[c].Handle? ==>
               exists h :: h in s.actors && s.actors[h].Handle? && s.actors[h].base == b
                 && s.actors[h].len.OnHeap? == s'.actors[c].len.OnHeap?
    requires BlockOk(t, s', b)
    ensures Structure(t, s')
  {
    hide LenOk, Refs, Keepers, BlockOk;
    OthersStay(t, s, s', c, b);
    forall i, j | i in s'.actors && j in s'.actors ensures SameLenPlace(s', i, j) {
      if c in s'.actors && s'.actors[c].Handle? {
        var h :| h in s.actors && s.actors[h].Handle? && s.actors[h].base == b
                 && s.actors[h].len.OnHeap? == s'.actors[c].len.OnHeap?;
        assert i != c && j != c ==> SameLenPlace(s, i, j);
        assert i != c ==> SameLenPlace(s, i, h);
        assert j != c ==> SameLenPlace(s, h, j);
      } else {
        assert i != c && j != c ==> SameLenPlace(s, i, j);
      }
    }
    Rebuild(t, s, s', {b});
  }

  /** Only handles are borrowed. */
  lemma OnlyHandlesBorrowed(t: Target, s: State, c: nat)
    requires Structure(t, s) && (c in s.actors ==> !s.actors[c].Handle?)
    ensures forall i | i in s.actors :: !Borrows(s.actors[i], c)
  {
    hide LenOk, Refs, Keepers, Accounted;
    forall i | i in s.actors ensures !Borrows(s.actors[i], c) { assert ActorOk(t, s, i); }
  }

  /** A pending deallocation is by an actor that is alone. */
  lemma NoFreeingBeside(t: Target, s: State, c: nat)
    requires Structure(t, s) && c in s.actors && !s.actors[c].Freeing?
    ensures s.actors[c].base in s.blocks && s.blocks[s.actors[c].base].count > 0
    ensures s.blocks[s.actors[c].base].count == |Refs(s.actors, s.actors[c].base)|
  {
    hide LenOk, Refs, Keepers, Accounted;
    assert ActorOk(t, s, c) && BlockOk(t, s, s.actors[c].base);
    forall i | i in s.actors ensures s.actors[i] != Freeing(s.actors[c].base) {
      assert ActorOk(t, s, i);
    }
  }

  lemma CloneBeginKeeps(t: Target, s: State, h: nat, c: nat)
    requires Structure(t, s) && CloneBeginStep(s, h, c).Next?
    ensures Structure(t, CloneBeginStep(s, h, c).s)
  {
    hide Structure, LenOk, Refs, Keepers, Accounted, BlockOk, ActorOk, OneActor, Alone;
    var s' := CloneBeginStep(s, h, c).s;
    Facts(t, s, h);
    NoFreeingBeside(t, s, h);
    OnlyHandlesBorrowed(t, s, c);
    CloneBeginParts(t, s, h, c);
    CloneBeginCount(t, s, h, c);
    OneActorKeeps(t, s, s', c, s.actors[h].base);
  }

  lemma CloneBeginParts(t: Target, s: State, h: nat, c: nat)
    requires CloneBeginStep(s, h, c).Next? && s.actors[h].base in s.blocks
    ensures OneActor(s, CloneBeginStep(s, h, c).s, c, s.actors[h].base) && ActorOk(t, CloneBeginStep(s, h, c).s, c)
  {
    hide LenOk, Alone;
  }

  lemma CloneBeginCount(t: Target, s: State, h: nat, c: nat)
    requires CloneBeginStep(s, h, c).Next? && s.actors[h].base in s.blocks
    requires BlockOk(t, s, s.actors[h].base) && s.blocks[s.actors[h].base].count > 0
    ensures BlockOk(t, CloneBeginStep(s, h, c).s, s.actors[h].base)
  {
    hide Refs, Keepers;
    RefsSet(s.actors, c, CloneBeginStep(s, h, c).s.actors[c], s.actors[h].base);
    NotRef(s.actors, c, s.actors[h].base);
  }

  lemma NotRef(actors: Actors, c: nat, b: nat)
    requires c !in actors || !Counted(actors[c])
    ensures Refs(actors, b) - {c} == Refs(actors, b) && c !in Refs(actors, b)
    ensures Keepers(actors, b) - {c} == Keepers(actors, b) && c !in Keepers(actors, b)
  {
  }

  lemma CloneAddKeeps(t: Target, s: State, c: nat)
    requires Structure(t, s) && CloneAddStep(t, s, c).Next?
    ensures Structure(t, CloneAddStep(t, s, c).s)
  {
    hide Structure, LenOk, Refs, Keepers, Accounted, BlockOk, ActorOk, OneActor;
    var s' := CloneAddStep(t, s, c).s;
    Facts(t, s, c);
    OnlyHandlesBorrowed(t, s, c);
    CloneAddParts(t, s, c);
    OneActorKeeps(t, s, s', c, s.actors[c].base);
  }

  lemma CloneAddParts(t: Target, s: State, c: nat)
    requires CloneAddStep(t, s, c).Next? && BlockOk(t, s, s.actors[c].base) && ActorOk(t, s, c)
    ensures var s' := CloneAddStep(t, s, c).s;
            && OneActor(s, s', c, s.actors[c].base) && !s'.actors[c].Handle?
            && ActorOk(t, s', c) && BlockOk(t, s', s.actors[c].base)
  {
    hide Refs, Keepers, LenOk;
    assert OneActor(s, CloneAddStep(t, s, c).s, c, s.actors[c].base);
    assert ActorOk(t, CloneAddStep(t, s, c).s, c);
    hide OneActor, ActorOk, Alone;
    var s' := CloneAddStep(t, s, c).s;
    var b := s.actors[c].base;
    RefsSet(s.actors, c, s'.actors[c], b);
    NotRef(s.actors, c, b);
    KeepersCounted(s.actors, b);
  }

  lemma CloneEndKeeps(t: Target, s: State, c: nat)
    requires Structure(t, s) && CloneEndStep(s, c).Next?
    ensures Structure(t, CloneEndStep(s, c).s)
  {
    hide Structure, LenOk, Refs, Keepers, Accounted;
    var s' := CloneEndStep(s, c).s;
    var b := s.actors[c].base;
    Facts(t, s, c);
    Facts(t, s, s.actors[c].src);
    NoFreeingBeside(t, s, c);
    OnlyHandlesBorrowed(t, s, c);
    RefsKept(s, s', c);
    OneActorKeeps(t, s, s', c, b);
  }

  lemma DropKeeps(t: Target, s: State, h: nat)
    requires Structure(t, s) && DropStep(s, h).Next?
    ensures Structure(t, DropStep(s, h).s)
  {
    hide Structure, LenOk, Refs, Keepers, Accounted, BlockOk, ActorOk, OneActor;
    var s' := DropStep(s, h).s;
    Facts(t, s, h);
    NoFreeingBeside(t, s, h);
    DropParts(t, s, h);
    OneActorKeeps(t, s, s', h, s.actors[h].base);
  }

  lemma DropParts(t: Target, s: State, h: nat)
    requires DropStep(s, h).Next? && s.actors[h].base in s.blocks
    requires BlockOk(t, s, s.actors[h].base) && s.blocks[s.actors[h].base].count > 0
    ensures var s' := DropStep(s, h).s;
            && OneActor(s, s', h, s.actors[h].base) && !s'.actors[h].Handle?
            && ActorOk(t, s', h) && BlockOk(t, s', s.actors[h].base)
  {
    hide Refs, Keepers, LenOk;
    assert OneActor(s, DropStep(s, h).s, h, s.actors[h].base);
    hide OneActor, Exclusive;
    var b := s.actors[h].base;
    RefsSet(s.actors, h, Releasing(b), b);
    IsRef(s.actors, h);
    SubsetSize(Keepers(s.actors, b) - {h}, Keepers(s.actors, b));
    assert Refs(s.actors, b) - {h} + {h} == Refs(s.actors, b);
  }

  lemma IsRef(actors: Actors, i: nat)
    requires i in actors && Counted(actors[i])
    ensures i in Refs(actors, actors[i].base)
  {
  }

  lemma SubKeeps(t: Target, s: State, r: nat)
    requires Structure(t, s) && SubStep(s, r).Next?
    ensures Structure(t, SubStep(s, r).s)
  {
    hide Structure, LenOk, Refs, Keepers, Accounted, BlockOk, ActorOk, OneActor;
    var s' := SubStep(s, r).s;
    var b := s.actors[r].base;
    Facts(t, s, r);
    OnlyHandlesBorrowed(t, s, r);
    IsRef(s.actors, r);
    assert OneActor(s, s', r, b) by { SubIsOneActor(s, r); }
    if s.blocks[b].count == 1 {
      OnlyRef(t, s, r);
      SubLast(t, s, r);
    } else {
      NoFreeingBeside(t, s, r);
      SubMore(t, s, r);
    }
    OneActorKeeps(t, s, s', r, b);
  }

  lemma SubIsOneActor(s: State, r: nat)
    requires SubStep(s, r).Next?
    ensures OneActor(s, SubStep(s, r).s, r, s.actors[r].base)
  {
  }

  lemma SubLast(t: Target, s: State, r: nat)
    requires SubStep(s, r).Next? && s.blocks[s.actors[r].base].count == 1
    requires Alone(s, r) && Refs(s.actors, s.actors[r].base) == {r} && BlockOk(t, s, s.actors[r].base)
    ensures var s' := SubStep(s, r).s;
            r in s'.actors && ActorOk(t, s', r) && BlockOk(t, s', s.actors[r].base) && !s'.actors[r].Handle?
  {
    hide Refs, Keepers, LenOk;
    var b := s.actors[r].base;
    var s' := SubStep(s, r).s;
    RefsSet(s.actors, r, Freeing(b), b);
    SubsetSize(Keepers(s.actors, b) - {r}, Keepers(s.actors, b));
    assert s'.actors[r] == Freeing(b);
  }

  lemma SubMore(t: Target, s: State, r: nat)
    requires SubStep(s, r).Next? && s.blocks[s.actors[r].base].count > 1
    requires r in Refs(s.actors, s.actors[r].base) && BlockOk(t, s, s.actors[r].base)
    ensures var s' := SubStep(s, r).s; r !in s'.actors && BlockOk(t, s', s.actors[r].base)
  {
    hide Refs, Keepers, LenOk;
    var b := s.actors[r].base;
    RefsGone(s.actors, r, b);
    SubsetSize(Keepers(s.actors, b) - {r}, Keepers(s.actors, b));
  }

  lemma FreeKeeps(t: Target, s: State, r: nat)
    requires Structure(t, s) && FreeStep(s, r).Next?
    ensures Structure(t, FreeStep(s, r).s)
  {
    hide LenOk, Refs, Keepers;
    var s' := FreeStep(s, r).s;
    Rebuild(t, s, s', {s.actors[r].base});
  }

  lemma CopyKeeps(t: Target, s: State, h: nat, r: nat, raw: seq<byte>)
    requires Structure(t, s) && CopyStep(s, h, r, raw).Next?
    ensures Structure(t, CopyStep(s, h, r, raw).s)
  {
    hide Structure, TextAt;
    BusyIsExclusive(t, s, h);
    PcKeeps(t, s, h, Copying(s.actors[h].pc.want, r));
    var s1 := s.(actors := s.actors[h := s.actors[h].(pc := Copying(s.actors[h].pc.want, r))]);
    NewBlockKeeps(t, s1, r, Filling(s.next, h, 0), Block(1, |TextAt(s, h)|, raw));
  }

  lemma CopyByteKeeps(t: Target, s: State, r: nat)
    requires Structure(t, s) && CopyByteStep(s, r).Next?
    ensures Structure(t, CopyByteStep(s, r).s)
  {
    hide Structure, TextAt, Readable;
    var s' := CopyByteStep(s, r).s;
    assert s'.actors == s.actors[r := s'.actors[r]];
    WriteKeeps(t, s, s', r);
  }

  lemma HandOverKeeps(t: Target, s: State, h: nat, r: nat)
    requires Structure(t, s) && CopiesOk(s) && HandOverStep(s, h, r).Next?
    ensures Structure(t, HandOverStep(s, h, r).s)
  {
    hide Structure, LenOk, Refs, Keepers, TextAt, Accounted, Changed, CopiesOk, ActorOk, BlockOk, Alone, Exclusive;
    var s' := HandOverStep(s, h, r).s;
    HandedLen(t, s, h, r);
    Facts(t, s, h);
    Facts(t, s, r);
    BusyIsExclusive(t, s, h);
    NoFreeingBeside(t, s, h);
    assert Alone(s, r) by { FillingIsAlone(t, s, r); }
    SwapChanges(s, s', h, r);
    SwapOthers(t, s, s', h, r);
    SwapParts(t, s, s', h, r);
    AccountedSame(s, s');
    hide HandOverStep;
    Rebuild(t, s, s', {s.actors[h].base, s.actors[r].base});
  }

  lemma FillingIsAlone(t: Target, s: State, r: nat)
    requires r in s.actors && s.actors[r].Filling? && ActorOk(t, s, r)
    ensures Alone(s, r)
  {
  }

  lemma SwapParts(t: Target, s: State, s': State, h: nat, r: nat)
    requires Swapped(s, s', h, r) && s.actors[h].base in s.blocks && s.actors[r].base in s.blocks
    requires BlockOk(t, s, s.actors[h].base) && s.blocks[s.actors[h].base].count > 0
    requires BlockOk(t, s, s.actors[r].base)
    requires s'.actors[h].pc.Unique2? && LenOk(t, s.blocks[s.actors[r].base], s'.actors[h].len)
    ensures BlockOk(t, s', s.actors[h].base) && BlockOk(t, s', s.actors[r].base)
    ensures ActorOk(t, s', h) && ActorOk(t, s', r)
  {
    hide LenOk, Refs, Keepers;
    AloneRefs(s, r);
    SwapRefs(s, s', h, r);
  }

  /** The length of the handle suits the copy. */
  lemma HandedLen(t: Target, s: State, h: nat, r: nat)
    requires Structure(t, s) && CopiesOk(s) && HandOverStep(s, h, r).Next?
    ensures s.actors[r].src == h && s.actors[r].base in s.blocks
    ensures LenOk(t, s.blocks[s.actors[r].base], s.actors[h].len)
  {
    hide Refs, Keepers, Accounted;
    assert CopyOk(s, r) && ActorOk(t, s, h);
  }

  /** What the invariant says about one actor. */
  lemma Facts(t: Target, s: State, i: nat)
    requires Structure(t, s) && i in s.actors
    ensures ActorOk(t, s, i) && s.actors[i].base in s.blocks && BlockOk(t, s, s.actors[i].base) && Accounted(s)
  {
    hide LenOk, Refs, Keepers, Accounted;
    assert ActorOk(t, s, i);
  }

  lemma NextIsNew(s: State)
    requires Accounted(s)
    ensures s.next !in s.blocks && s.next !in s.freed
  {
  }

  lemma MadeOne(s: State, s': State)
    requires Accounted(s) && s'.blocks.Keys == s.blocks.Keys + {s.next}
    requires s'.next == s.next + 1 && s'.freed == s.freed
    ensures Accounted(s')
  {
    forall b: nat | b < s'.next ensures b in s'.blocks || b in s'.freed { assert b < s.next || b == s.next; }
    assert forall b :: b in s'.blocks <==> b in s'.blocks.Keys;
  }

  predicate Swapped(s: State, s': State, h: nat, r: nat) {
    && h in s.actors && s.actors[h].Handle? && r in s.actors && s.actors[r].Filling? && Alone(s, r)
    && h in s'.actors && s'.actors[h].Handle? && s'.actors[h].base == s.actors[r].base
    && s'.actors == s.actors[h := s'.actors[h]][r := Releasing(s.actors[h].base)] && s'.blocks == s.blocks
  }

  lemma SwapChanges(s: State, s': State, h: nat, r: nat)
    requires Swapped(s, s', h, r)
    ensures Changed(s, s', {s.actors[h].base, s.actors[r].base})
  {
  }

  lemma SwapRefs(s: State, s': State, h: nat, r: nat)
    requires Swapped(s, s', h, r)
    ensures |Refs(s'.actors, s.actors[h].base)| == |Refs(s.actors, s.actors[h].base)|
    ensures |Keepers(s'.actors, s.actors[h].base)| <= |Keepers(s.actors, s.actors[h].base)|
    ensures Refs(s'.actors, s.actors[r].base) == {h} && Keepers(s'.actors, s.actors[r].base) == {h}
  {
    var b, c := s.actors[h].base, s.actors[r].base;
    assert Refs(s'.actors, b) == Refs(s.actors, b) - {h} + {r};
    assert Keepers(s'.actors, b) == Keepers(s.actors, b) - {h};
    SubsetSize(Keepers(s.actors, b) - {h}, Keepers(s.actors, b));
    assert h in Refs(s.actors, b) && r !in Refs(s.actors, b);
    AloneRefs(s, r);
    forall i ensures i in Refs(s'.actors, c) <==> i == h { assert i in Refs(s.actors, c) <==> i == r; }
    forall i ensures i in Keepers(s'.actors, c) <==> i == h { assert i in Keepers(s.actors, c) <==> i == r; }
  }

  /** Those left behind on the old allocation. */
  lemma SwapOthers(t: Target, s: State, s': State, h: nat, r: nat)
    requires Structure(t, s) && Exclusive(s, h) && Swapped(s, s', h, r)
    ensures forall i | i in s'.actors && i != h && i != r :: ActorOk(t, s', i)
    ensures forall i, j | i in s'.actors && j in s'.actors :: SameLenPlace(s', i, j)
  {
    hide LenOk, Refs, Keepers, Accounted;
    forall i, j | i in s'.actors && j in s'.actors ensures SameLenPlace(s', i, j) {
      assert SameLenPlace(s, i, j);
    }
    forall i | i in s'.actors && i != h && i != r ensures ActorOk(t, s', i) {
      assert ActorOk(t, s, i) && !Borrows(s.actors[i], h);
      assert ActorOk(t, s, h);
    }
  }

  lemma GrowKeeps(t: Target, s: State, h: nat, cap: nat, moves: bool)
    requires Structure(t, s) && GrowStep(s, h, cap, moves).Next?
    ensures Structure(t, GrowStep(s, h, cap, moves).s)
  {
    hide Structure, LenOk, Refs, Keepers, Padded, TextAt, Accounted, Alone;
    var s' := GrowStep(s, h, cap, moves).s;
    Facts(t, s, h);
    GrownLen(t, s, h, cap);
    AloneRefs(s, h);
    if moves {
      NextIsNew(s);
      NobodyOn(t, s, s.next);
      MovedRefs(s, s', h);
      MovedOne(s, s', s.actors[h].base);
      hide ActorOk;
      MoveKeeps(t, s, s', h);
    } else {
      assert s'.actors == s.actors[h := s'.actors[h]];
      WriteKeeps(t, s, s', h);
    }
  }

  lemma GrownLen(t: Target, s: State, h: nat, cap: nat)
    requires h in s.actors && s.actors[h].Handle? && s.actors[h].base in s.blocks
    requires LenOk(t, s.blocks[s.actors[h].base], s.actors[h].len)
    requires |TextAt(s, h)| <= cap
    ensures var b := s.blocks[s.actors[h].base];
            LenOk(t, b.(data := if cap <= |b.data| then b.data[..cap] else Padded(b.data, cap)), s.actors[h].len)
  {
  }

  lemma MovedOne(s: State, s': State, b: nat)
    requires Accounted(s) && b in s.blocks && s.next !in s.blocks && s.next !in s.freed
    requires s'.blocks.Keys == s.blocks.Keys - {b} + {s.next} && s'.next == s.next + 1 && s'.freed == s.freed + [b]
    ensures Accounted(s')
  {
    assert forall c :: c in s'.blocks <==> c in s'.blocks.Keys;
    assert forall c :: c in s'.freed <==> c in s.freed || c == b;
    forall c: nat | c < s'.next ensures c in s'.blocks || c in s'.freed { assert c < s.next || c == s.next; }
  }

  lemma MoveKeeps(t: Target, s: State, s': State, h: nat)
    requires Structure(t, s) && h in s.actors && s.actors[h].Handle? && Alone(s, h) && Accounted(s')
    requires s.next !in s.blocks && forall i | i in s.actors :: s.actors[i].base != s.next
    requires h in s'.actors && s'.actors == s.actors[h := s'.actors[h]]
    requires s'.actors[h].Handle? && s'.actors[h].base == s.next
    requires var b := s.actors[h].base;
             && b in s.blocks && s.next in s'.blocks && s'.blocks == (s.blocks - {b})[s.next := s'.blocks[s.next]]
             && BlockOk(t, s, b) && s'.blocks[s.next].count == s.blocks[b].count
             && LenOk(t, s'.blocks[s.next], s'.actors[h].len)
    requires Refs(s'.actors, s.next) == {h} && Keepers(s'.actors, s.next) == {h}
    requires Refs(s.actors, s.actors[h].base) == {h} && Alone(s', h)
    ensures Structure(t, s')
  {
    hide Structure, LenOk, Refs, Keepers, Accounted;
    assert ActorOk(t, s', h) && BlockOk(t, s', s.next);
    hide ActorOk, BlockOk;
    Rebuild(t, s, s', {s.actors[h].base, s.next});
  }

  lemma AloneRefs(s: State, h: nat)
    requires h in s.actors && Keeps(s.actors[h]) && Alone(s, h)
    ensures Refs(s.actors, s.actors[h].base) == {h} && Keepers(s.actors, s.actors[h].base) == {h}
  {
  }

  lemma MovedRefs(s: State, s': State, h: nat)
    requires h in s.actors && s.actors[h].Handle? && Alone(s, h)
    requires (forall i | i in s.actors :: s.actors[i].base != s.next)
    requires h in s'.actors && s'.actors == s.actors[h := s'.actors[h]]
    requires s'.actors[h].Handle? && s'.actors[h].base in {s.actors[h].base, s.next}
    ensures Alone(s', h) && Refs(s'.actors, s'.actors[h].base) == {h} && Keepers(s'.actors, s'.actors[h].base) == {h}
  {
    AloneRefs(s', h);
  }

  lemma AloneAfter(s: State, s': State, h: nat)
    requires h in s.actors && Alone(s, h) && h in s'.actors
    requires s'.actors == s.actors[h := s'.actors[h]] && s'.actors[h].base == s.actors[h].base
    ensures Alone(s', h)
  {
  }

  lemma AccountedSame(s: State, s': State)
    requires Accounted(s) && s'.blocks.Keys == s.blocks.Keys && s'.next == s.next && s'.freed == s.freed
    ensures Accounted(s')
  {
    assert forall b :: b in s'.blocks <==> b in s'.blocks.Keys;
  }

  /** Writing in place, bytes or length, by the only actor on the allocation. */
  lemma WriteKeeps(t: Target, s: State, s': State, h: nat)
    requires Structure(t, s) && h in s.actors && Keeps(s.actors[h]) && Alone(s, h)
    requires h in s'.actors && s'.actors == s.actors[h := s'.actors[h]] && s'.actors[h].base == s.actors[h].base
    requires s'.next == s.next && s'.freed == s.freed
    requires var b := s.actors[h].base;
             && b in s.blocks && b in s'.blocks && s'.blocks == s.blocks[b := s'.blocks[b]]
             && s'.blocks[b].count == s.blocks[b].count
             && (s'.actors[h].Filling? || (s'.actors[h].Handle? && LenOk(t, s'.blocks[b], s'.actors[h].len)))
    ensures Structure(t, s')
  {
    hide Structure, LenOk, Refs, Keepers, Accounted;
    var b := s.actors[h].base;
    Facts(t, s, h);
    AloneRefs(s, h);
    AloneRefs(s', h);
    AloneAfter(s, s', h);
    assert ActorOk(t, s', h) && BlockOk(t, s', b);
    AccountedSame(s, s');
    hide ActorOk, BlockOk;
    Rebuild(t, s, s', {b});
  }

  lemma PokeKeeps(t: Target, s: State, h: nat, at: nat, b: byte)
    requires Structure(t, s) && PokeStep(s, h, at, b).Next?
    ensures Structure(t, PokeStep(s, h, at, b).s)
  {
    assert ActorOk(t, s, h);
    var s' := PokeStep(s, h, at, b).s;
    assert LenOk(t, s'.blocks[s.actors[h].base], s'.actors[h].len);
    hide LenOk, Structure;
    assert s'.actors == s.actors[h := s'.actors[h]];
    WriteKeeps(t, s, s', h);
  }

  lemma CommitKeeps(t: Target, s: State, h: nat)
    requires Structure(t, s) && CommitStep(t, s, h).Next?
    ensures Structure(t, CommitStep(t, s, h).s)
  {
    var s' := CommitStep(t, s, h).s;
    assert LenOk(t, s'.blocks[s.actors[h].base], s'.actors[h].len);
    hide LenOk, Structure;
    assert s'.blocks == s.blocks[s.actors[h].base := s'.blocks[s.actors[h].base]];
    WriteKeeps(t, s, s', h);
  }

  lemma StructureKept(t: Target, s: State, e: Event)
    requires Inv(t, s) && Step(t, s, e).Next?
    ensures Structure(t, Step(t, s, e).s)
  {
    hide Structure, CopiesOk, MakeStep, CloneBeginStep, CloneAddStep,
        CloneEndStep, DropStep, SubStep, FreeStep, CopyStep,
        CopyByteStep, HandOverStep, GrowStep, PokeStep, CommitStep, ShortenStep;
    match e
    case Make(h, text, cap) => MakeKeeps(t, s, h, text, cap);
    case Read(h) =>
    case CloneBegin(h, c) => CloneBeginKeeps(t, s, h, c);
    case CloneAdd(c) => CloneAddKeeps(t, s, c);
    case CloneEnd(c) => CloneEndKeeps(t, s, c);
    case Drop(h) => DropKeeps(t, s, h);
    case Sub(r) => SubKeeps(t, s, r);
    case Free(r) => FreeKeeps(t, s, r);
    case Copy(h, r, raw) => CopyKeeps(t, s, h, r, raw);
    case CopyByte(r) => CopyByteKeeps(t, s, r);
    case HandOver(h, r) => HandOverKeeps(t, s, h, r);
    case Grow(h, cap, moves) => GrowKeeps(t, s, h, cap, moves);
    case Poke(h, at, b) => PokeKeeps(t, s, h, at, b);
    case Commit(h) => CommitKeeps(t, s, h);
    case Shorten(h, n) => ShortenKeeps(t, s, h, n);
    case _ => ProgressKeeps(t, s, e);
  }

  /** Whatever happens during a copy, the bytes copied so far are the front of the text. */
  lemma CopiesKept(t: Target, s: State, e: Event)
    requires Inv(t, s) && Step(t, s, e).Next?
    ensures CopiesOk(Step(t, s, e).s)
  {
    hide Structure, TextAt, Step;
    var s' := Step(t, s, e).s;
    forall r | r in s'.actors && s'.actors[r].Filling? ensures CopyOk(s', r) {
      if r in s.actors && s.actors[r].Filling? {
        assert CopyOk(s, r);
        if Acts(e, r) { CopyGoesOn(t, s, e, r); } else { CopyWaits(t, s, e, r); }
      } else {
        CopyBegins(t, s, e, r);
      }
    }
  }

  lemma CopyBegins(t: Target, s: State, e: Event, r: nat)
    requires Structure(t, s) && Step(t, s, e).Next?
    requires r in Step(t, s, e).s.actors && Step(t, s, e).s.actors[r].Filling?
    requires r in s.actors ==> !s.actors[r].Filling?
    ensures CopyOk(Step(t, s, e).s, r)
  {
    hide Structure, NewTextLen, Padded, Exclusive, Alone;
    assert e.Copy? && e.r == r;
    Facts(t, s, e.h);
    NextIsNew(s);
  }

  lemma CopyGoesOn(t: Target, s: State, e: Event, r: nat)
    requires Structure(t, s) && Step(t, s, e).Next? && r in s.actors
    requires s.actors[r].Filling? && CopyOk(s, r) && Acts(e, r)
    requires r in Step(t, s, e).s.actors && Step(t, s, e).s.actors[r].Filling?
    ensures CopyOk(Step(t, s, e).s, r)
  {
    hide Structure, NewTextLen, Padded;
    assert e.CopyByte?;
    var h, done := s.actors[r].src, s.actors[r].done;
    assert s.actors[h].base != s.actors[r].base;
    assert TextAt(s, h)[..done + 1] == TextAt(s, h)[..done] + [TextAt(s, h)[done]];
  }

  lemma CopyWaits(t: Target, s: State, e: Event, r: nat)
    requires Structure(t, s) && Step(t, s, e).Next? && r in s.actors
    requires s.actors[r].Filling? && CopyOk(s, r) && !Acts(e, r)
    ensures var s' := Step(t, s, e).s; r in s'.actors && s'.actors[r] == s.actors[r] && CopyOk(s', r)
  {
    hide Structure, TextAt, Step;
    var h := s.actors[r].src;
    assert !Acts(e, h) by { NotByWaiting(t, s, e, h); }
    OthersUnchanged(t, s, e, h);
    FillingUnchanged(t, s, e, r);
    Facts(t, s, h);
  }

  /** A handle whose text is being copied takes no other step than to move to the copy. */
  lemma NotByWaiting(t: Target, s: State, e: Event, h: nat)
    requires Structure(t, s) && Step(t, s, e).Next? && h in s.actors && s.actors[h].Handle? && s.actors[h].pc.Copying?
    ensures Acts(e, h) ==> e == HandOver(h, s.actors[h].pc.into)
  {
    hide Structure, TextAt;
    BusyIsExclusive(t, s, h);
  }

  /** Every atomic step keeps the invariant. */
  lemma StepKeeps(t: Target, s: State, e: Event)
    requires Inv(t, s) && Step(t, s, e).Next?
    ensures Inv(t, Step(t, s, e).s)
  {
    hide Step, Structure, CopiesOk;
    StructureKept(t, s, e);
    CopiesKept(t, s, e);
  }

  /** No step is a fault: memory is touched only while it is live, freed once, counted down only from
      above zero, and written or resized only by the one actor that can reach it. */
  lemma NeverFaults(t: Target, s: State, e: Event)
    requires Inv(t, s)
    ensures !Step(t, s, e).Fault?
  {
    BasesLive(t, s);
    hide Structure, CopiesOk, CopyByteStep, SubStep, FreeStep, GrowStep, PokeStep, CommitStep;
    match e
    case Read(h) => if h in s.actors { Facts(t, s, h); }
    case CopyByte(r) => CopyByteSafe(t, s, r);
    case Sub(r) => SubSafe(t, s, r);
    case Free(r) => if r in s.actors { Facts(t, s, r); OwnerSafe(t, s, r, e); }
    case Grow(h, _, _) => if h in s.actors { Facts(t, s, h); OwnerSafe(t, s, h, e); }
    case Poke(h, _, _) => if h in s.actors { Facts(t, s, h); OwnerSafe(t, s, h, e); }
    case Commit(h) => if h in s.actors { Facts(t, s, h); OwnerSafe(t, s, h, e); }
    case _ =>
  }

  /** Freeing, resizing and writing are for those who are alone on the allocation. */
  lemma OwnerSafe(t: Target, s: State, i: nat, e: Event)
    requires i in s.actors && ActorOk(t, s, i)
    requires e == Free(i) || (e.Grow? && e.h == i) || (e.Poke? && e.h == i) || e == Commit(i)
    ensures !Step(t, s, e).Fault?
  {
    hide NewTextLen, Padded;
  }

  lemma BasesLive(t: Target, s: State)
    requires Structure(t, s)
    ensures forall i | i in s.actors :: s.actors[i].base in s.blocks
  {
    hide LenOk, Accounted, BlockOk, SameLenPlace;
    forall i | i in s.actors ensures s.actors[i].base in s.blocks { assert ActorOk(t, s, i); }
  }

  lemma SubSafe(t: Target, s: State, r: nat)
    requires Structure(t, s)
    ensures !SubStep(s, r).Fault?
  {
    hide Structure, Refs;
    if r in s.actors && s.actors[r].Releasing? { NoFreeingBeside(t, s, r); }
  }

  lemma CopyByteSafe(t: Target, s: State, r: nat)
    requires Inv(t, s)
    ensures !CopyByteStep(s, r).Fault?
  {
    hide Structure, TextAt;
    if r in s.actors && s.actors[r].Filling? {
      Facts(t, s, r);
      assert CopyOk(s, r);
    }
  }

  // ----- what other handles see -----

  /** The actors a step is taken by or for. */
  predicate Acts(e: Event, i: nat) {
    match e
    case Make(h, _, _) => h == i
    case Read(_) => false
    case CloneBegin(_, c) => c == i
    case CloneAdd(c) => c == i
    case CloneEnd(c) => c == i
    case Drop(h) => h == i
    case Sub(r) => r == i
    case Free(r) => r == i
    case Edit(h, _) => h == i
    case Load(h) => h == i
    case Reload(h) => h == i
    case Fail(h) => h == i
    case Copy(h, r, _) => h == i || r == i
    case CopyByte(r) => r == i
    case HandOver(h, r) => h == i || r == i
    case Grow(h, _, _) => h == i
    case Write(h) => h == i
    case Poke(h, _, _) => h == i
    case Commit(h) => h == i
    case Shorten(h, _) => h == i
  }

  /** No step of another actor changes a handle or what it reads, not even while both are on the same
      allocation. */
  lemma OthersUnchanged(t: Target, s: State, e: Event, i: nat)
    requires Structure(t, s) && Step(t, s, e).Next? && i in s.actors && s.actors[i].Handle? && !Acts(e, i)
    ensures var s' := Step(t, s, e).s;
            i in s'.actors && s'.actors[i] == s.actors[i] && TextAt(s', i) == TextAt(s, i) && Readable(s', i)
  {
    hide Structure, Refs, Keepers, NewTextLen, Accounted, Padded;
    Facts(t, s, i);
    assert Accounted(s) && Readable(s, i);
    NextIsNew(s);
    hide LenOk, BlockOk;
    match e
    case Free(r) => Facts(t, s, r);
    case Grow(h, _, _) => UniqueIsAlone(t, s, h);
    case Poke(h, _, _) => UniqueIsAlone(t, s, h);
    case Commit(h) => UniqueIsAlone(t, s, h);
    case _ =>
  }

  /** The same for a copy under way. */
  lemma FillingUnchanged(t: Target, s: State, e: Event, r: nat)
    requires Structure(t, s) && Step(t, s, e).Next? && r in s.actors && s.actors[r].Filling? && !Acts(e, r)
    ensures var s' := Step(t, s, e).s; var b := s.actors[r].base;
            && r in s'.actors && s'.actors[r] == s.actors[r]
            && b in s.blocks && b in s'.blocks && s'.blocks[b] == s.blocks[b]
  {
    hide Structure, Refs, Keepers, NewTextLen, Accounted, Padded, LenOk, BlockOk;
    Facts(t, s, r);
    assert Accounted(s);
    NextIsNew(s);
  }

  /** A handle's own steps: only the last step of an edit and shortening change what it reads, apart from
      the writes in between, and a copy or a resized allocation reads as before. */
  lemma OwnSteps(t: Target, s: State, e: Event, h: nat)
    requires Inv(t, s) && Step(t, s, e).Next? && h in s.actors
    requires s.actors[h].Handle? && Acts(e, h) && !e.Poke? && !e.Drop?
    ensures var s' := Step(t, s, e).s;
            && h in s'.actors && s'.actors[h].Handle?
            && TextAt(s', h) ==
               match e
               case Commit(_) => s.actors[h].pc.want
               case Shorten(_, n) => if n <= |TextAt(s, h)| then TextAt(s, h)[..n] else []
               case _ => TextAt(s, h)
  {
    hide Structure, CopiesOk, Refs, Keepers, Accounted;
    Facts(t, s, h);
    hide BlockOk;
    match e
    case Copy(_, _, _) => NextIsNew(s);
    case HandOver(_, r) => HandOverText(t, s, h, r);
    case _ =>
  }

  /** The copy reads as the original. */
  lemma HandOverText(t: Target, s: State, h: nat, r: nat)
    requires Structure(t, s) && CopiesOk(s) && HandOverStep(s, h, r).Next?
    ensures var s' := HandOverStep(s, h, r).s; Readable(s', h) && TextAt(s', h) == TextAt(s, h)
  {
    HandedLen(t, s, h, r);
    hide Structure, Refs, Keepers, Accounted, NewTextLen, Exclusive;
    Facts(t, s, h);
    assert CopyOk(s, r);
    assert LenIn(s.blocks[s.actors[r].base], s.actors[h].len) == |TextAt(s, h)|;
  }

  // ----- whole runs -----

  function Init(): State { State(map[], map[], 0, []) }

  /** Events that are not possible when their turn comes are passed over. */
  function Run(t: Target, s: State, events: seq<Event>): Out
    decreases |events|
  {
    if events == [] then Next(s)
    else
      match Step(t, s, events[0])
      case Next(s') => Run(t, s', events[1..])
      case Disabled => Run(t, s, events[1..])
      case Fault => Fault
  }

  /** Safety of every interleaving of every program. */
  lemma {:induction false} RunsAreSafe(t: Target, s: State, events: seq<Event>)
    requires Inv(t, s)
    ensures Run(t, s, events).Next? && Inv(t, Run(t, s, events).s)
    decreases |events|
  {
    hide Structure, CopiesOk, Step;
    if events != [] {
      NeverFaults(t, s, events[0]);
      if Step(t, s, events[0]).Next? {
        StepKeeps(t, s, events[0]);
        RunsAreSafe(t, Step(t, s, events[0]).s, events[1..]);
      } else {
        RunsAreSafe(t, s, events[1..]);
      }
    }
  }

  /** From the start: no fault, counts that are the references there are, and every allocation live or
      freed exactly once. */
  lemma ProgramsAreSafe(t: Target, events: seq<Event>)
    ensures var r := Run(t, Init(), events);
            && r.Next?
            && (forall b | b in r.s.blocks :: r.s.blocks[b].count == |Refs(r.s.actors, b)|)
            && (forall b: nat :: b < r.s.next <==> b in r.s.blocks || b in r.s.freed)
            && (forall b | b in r.s.blocks :: b !in r.s.freed)
            && (forall i | i in r.s.actors && r.s.actors[i].Filling? :: CopyOk(r.s, i))
            && (forall i, j | 0 <= i < j < |r.s.freed| :: r.s.freed[i] != r.s.freed[j])
            && (r.s.actors == map[] ==> r.s.blocks == map[])
  {
    hide Step, Run, LenOk, Refs, Keepers, CopyOk;
    RunsAreSafe(t, Init(), events);
    var s := Run(t, Init(), events).s;
    assert forall b | b in s.blocks :: BlockOk(t, s, b);
    if s.actors == map[] {
      forall b ensures b !in s.blocks {
        assert b in s.blocks ==> BlockOk(t, s, b) && Refs(s.actors, b) == {} by { NoRefs(s.actors, b); }
      }
    }
  }

  lemma NoRefs(actors: Actors, b: nat)
    requires actors == map[]
    ensures Refs(actors, b) == {}
  {
  }

  /** What other threads do never shows in a handle they do not act on. */
  lemma {:induction false} OthersUnchangedInRuns(t: Target, s: State, events: seq<Event>, h: nat)
    requires Inv(t, s) && h in s.actors && s.actors[h].Handle?
    requires forall i | 0 <= i < |events| :: !Acts(events[i], h)
    ensures var r := Run(t, s, events);
            r.Next? && h in r.s.actors && r.s.actors[h] == s.actors[h] && TextAt(r.s, h) == TextAt(s, h)
    decreases |events|
  {
    hide Structure, CopiesOk, Step, TextAt, Acts;
    if events != [] {
      var rest := events[1..];
      assert forall i | 0 <= i < |rest| :: rest[i] == events[i + 1];
      NeverFaults(t, s, events[0]);
      if Step(t, s, events[0]).Next? {
        StepKeeps(t, s, events[0]);
        OthersUnchanged(t, s, events[0], h);
        OthersUnchangedInRuns(t, Step(t, s, events[0]).s, rest, h);
      } else {
        OthersUnchangedInRuns(t, s, rest, h);
      }
    }
  }

  /** A handle just made reads its text, from a data area of `cap` bytes. */
  lemma MadeText(t: Target, s: State, h: nat, text: seq<byte>, cap: nat)
    requires MakeStep(t, s, h, text, cap).Next?
    ensures var s' := MakeStep(t, s, h, text, cap).s;
            && Readable(s', h) && TextAt(s', h) == text && s'.actors[h].pc.Idle?
            && s'.actors[h].base == s.next && |s'.blocks[s.next].data| == cap
            && s'.actors - {h} == s.actors - {h} && s'.blocks - {s.next} == s.blocks - {s.next}
  {
    assert Padded(text, cap)[..|text|] == text;
  }

  /** It goes on reading it whatever other threads do. */
  lemma MadeReads(t: Target, s: State, h: nat, text: seq<byte>, cap: nat, events: seq<Event>)
    requires Inv(t, s) && MakeStep(t, s, h, text, cap).Next?
    requires forall i | 0 <= i < |events| :: !Acts(events[i], h)
    ensures var r := Run(t, s, [Make(h, text, cap)] + events);
            r.Next? && h in r.s.actors && r.s.actors[h].Handle? && TextAt(r.s, h) == text
  {
    hide Structure, CopiesOk, TextAt, Acts, MakeStep, Run;
    var e := Make(h, text, cap);
    assert Step(t, s, e) == MakeStep(t, s, h, text, cap);
    MadeText(t, s, h, text, cap);
    StepKeeps(t, s, e);
    RunOne(t, s, e);
    RunConcat(t, s, [e], events);
    OthersUnchangedInRuns(t, Step(t, s, e).s, events, h);
  }

  /** A clone of `h` under way reads what `h` reads; once it is a handle, it reads that by itself. */
  predicate ClonesFrom(s: State, c: nat, h: nat, text: seq<byte>) {
    c in s.actors ==>
      match s.actors[c]
      case Cloning(_, src, _) => src == h && h in s.actors && s.actors[h].Handle? && TextAt(s, h) == text
      case Cloned(_, src, _) => src == h && h in s.actors && s.actors[h].Handle? && TextAt(s, h) == text
      case Handle(_, _, _) => TextAt(s, c) == text
      case _ => true
  }

  predicate CloneEvent(e: Event, c: nat) { e == CloneAdd(c) || e == CloneEnd(c) || e == Sub(c) || e == Free(c) }

  /** A step that is not taken by or for an actor leaves it alone. */
  lemma ActorStays(t: Target, s: State, e: Event, i: nat)
    requires Step(t, s, e).Next? && !Acts(e, i)
    ensures var s' := Step(t, s, e).s;
            (i in s'.actors <==> i in s.actors) && (i in s.actors ==> s'.actors[i] == s.actors[i])
  {
  }

  /** The source of a clone under way takes no step. */
  lemma SourceWaits(t: Target, s: State, e: Event, c: nat)
    requires Structure(t, s) && Step(t, s, e).Next? && c in s.actors && (s.actors[c].Cloning? || s.actors[c].Cloned?)
    ensures !Acts(e, s.actors[c].src)
  {
    hide Structure, TextAt;
    Facts(t, s, c);
    assert Borrows(s.actors[c], s.actors[c].src);
  }

  lemma CloneEndText(t: Target, s: State, c: nat)
    requires Structure(t, s) && Step(t, s, CloneEnd(c)).Next?
    ensures c in s.actors && s.actors[c].Cloned?
    ensures var s' := Step(t, s, CloneEnd(c)).s; var src := s.actors[c].src;
            && c in s'.actors && src in s.actors && s.actors[src].Handle?
            && s'.actors[c].Handle? && TextAt(s', c) == TextAt(s, src)
  {
    hide Structure;
    Facts(t, s, c);
  }

  lemma CloneGoesOn(t: Target, s: State, e: Event, h: nat, c: nat, text: seq<byte>)
    requires Structure(t, s) && Step(t, s, e).Next? && ClonesFrom(s, c, h, text)
    requires Acts(e, c) ==> CloneEvent(e, c)
    ensures ClonesFrom(Step(t, s, e).s, c, h, text)
  {
    hide Structure, TextAt, Step;
    if !Acts(e, c) {
      ActorStays(t, s, e, c);
      if c in s.actors && s.actors[c].Handle? { OthersUnchanged(t, s, e, c); }
    }
    if c in s.actors && (s.actors[c].Cloning? || s.actors[c].Cloned?) {
      SourceWaits(t, s, e, c);
      OthersUnchanged(t, s, e, h);
      if e == CloneEnd(c) { CloneEndText(t, s, c); }
    }
    if Acts(e, c) { CloneOwnStep(t, s, e, c); }
  }

  /** The own steps of a clone. */
  lemma CloneOwnStep(t: Target, s: State, e: Event, c: nat)
    requires Step(t, s, e).Next? && CloneEvent(e, c)
    ensures c in s.actors
    ensures var s' := Step(t, s, e).s;
            match s.actors[c]
            case Cloning(b, src, len) =>
              c in s'.actors && (s'.actors[c].Releasing? || s'.actors[c] == Cloned(b, src, len))
            case Cloned(_, _, _) => e == CloneEnd(c)
            case Handle(_, _, _) => false
            case _ => c in s'.actors ==> s'.actors[c].Freeing?
  {
  }

  /** Whatever other threads do while a handle is cloned and afterwards, the clone reads what the handle
      read, unless the count was full and it is given up. */
  lemma {:induction false} ClonesRead(t: Target, s: State, events: seq<Event>, h: nat, c: nat, text: seq<byte>)
    requires Inv(t, s) && ClonesFrom(s, c, h, text)
    requires forall i | 0 <= i < |events| && Acts(events[i], c) :: CloneEvent(events[i], c)
    ensures Run(t, s, events).Next? && ClonesFrom(Run(t, s, events).s, c, h, text)
    decreases |events|
  {
    hide Structure, CopiesOk, Step, ClonesFrom, Acts, CloneEvent;
    if events != [] {
      var rest := events[1..];
      assert forall i | 0 <= i < |rest| :: rest[i] == events[i + 1];
      NeverFaults(t, s, events[0]);
      if Step(t, s, events[0]).Next? {
        StepKeeps(t, s, events[0]);
        CloneGoesOn(t, s, events[0], h, c, text);
        ClonesRead(t, Step(t, s, events[0]).s, rest, h, c, text);
      } else {
        ClonesRead(t, s, rest, h, c, text);
      }
    }
  }

  /** A clone that has just begun reads what its source reads. */
  lemma CloneBegins(s: State, h: nat, c: nat)
    requires CloneBeginStep(s, h, c).Next?
    ensures ClonesFrom(CloneBeginStep(s, h, c).s, c, h, TextAt(s, h))
  {
  }

  /** From making a text to the end of its clone: the clone reads the text it was made with. */
  lemma MadeAndCloned(t: Target, s: State, h: nat, text: seq<byte>, cap: nat, before: seq<Event>, c: nat,
      after: seq<Event>)
    requires Inv(t, s) && MakeStep(t, s, h, text, cap).Next?
    requires forall i | 0 <= i < |before| :: !Acts(before[i], h)
    requires forall i | 0 <= i < |after| && Acts(after[i], c) :: CloneEvent(after[i], c)
    ensures var r := Run(t, s, [Make(h, text, cap)] + before);
            && r.Next? && Inv(t, r.s)
            && (CloneBeginStep(r.s, h, c).Next? ==>
                  var r' := Run(t, CloneBeginStep(r.s, h, c).s, after);
                  r'.Next? && ClonesFrom(r'.s, c, h, text))
  {
    hide Structure, CopiesOk, TextAt, Acts, MakeStep, Run, ClonesFrom, CloneEvent, CloneBeginStep;
    MadeReads(t, s, h, text, cap, before);
    var events := [Make(h, text, cap)] + before;
    RunsAreSafe(t, s, events);
    var s1 := Run(t, s, events).s;
    if CloneBeginStep(s1, h, c).Next? {
      assert Step(t, s1, CloneBegin(h, c)) == CloneBeginStep(s1, h, c);
      CloneBegins(s1, h, c);
      StepKeeps(t, s1, CloneBegin(h, c));
      ClonesRead(t, CloneBeginStep(s1, h, c).s, after, h, c, text);
    }
  }

  /** Until a copy is handed over, no interleaving of everybody else changes what it copies or what it has
      copied: the bytes so far are the front of the text the handle had all along. */
  lemma {:induction false} CopiedSoFar(t: Target, s: State, events: seq<Event>, h: nat, r: nat)
    requires Inv(t, s) && r in s.actors && s.actors[r].Filling? && s.actors[r].src == h
    requires HandOver(h, r) !in events
    ensures h in s.actors && s.actors[h].Handle?
    ensures var q := Run(t, s, events); var b := s.actors[r].base;
            && q.Next? && r in q.s.actors && q.s.actors[r].Filling?
            && q.s.actors[r] == Filling(b, h, q.s.actors[r].done)
            && h in q.s.actors && q.s.actors[h] == s.actors[h] && TextAt(q.s, h) == TextAt(s, h)
            && s.actors[r].done <= q.s.actors[r].done <= |TextAt(s, h)|
            && b in q.s.blocks && q.s.actors[r].done <= |q.s.blocks[b].data|
            && q.s.blocks[b].data[..q.s.actors[r].done] == TextAt(s, h)[..q.s.actors[r].done]
    decreases |events|
  {
    hide Structure, Step, TextAt, Acts;
    assert CopyOk(s, r);
    if events != [] {
      var rest := events[1..];
      assert forall x | x in rest :: x in events;
      NeverFaults(t, s, events[0]);
      if Step(t, s, events[0]).Next? {
        StepKeeps(t, s, events[0]);
        CopyStays(t, s, events[0], h, r);
        CopiedSoFar(t, Step(t, s, events[0]).s, rest, h, r);
      } else {
        CopiedSoFar(t, s, rest, h, r);
      }
    }
  }

  lemma CopyStays(t: Target, s: State, e: Event, h: nat, r: nat)
    requires Structure(t, s) && Step(t, s, e).Next? && r in s.actors && s.actors[r].Filling? && s.actors[r].src == h
    requires CopyOk(s, r) && e != HandOver(h, r)
    ensures var s' := Step(t, s, e).s;
            && h in s'.actors && s'.actors[h] == s.actors[h] && TextAt(s', h) == TextAt(s, h)
            && r in s'.actors && s'.actors[r].Filling?
            && s'.actors[r] == Filling(s.actors[r].base, h, s'.actors[r].done)
            && s.actors[r].done <= s'.actors[r].done
  {
    hide Structure, TextAt;
    assert Readable(s, h);
    NotByWaiting(t, s, e, h);
    OthersUnchanged(t, s, e, h);
    if !Acts(e, r) { FillingUnchanged(t, s, e, r); }
  }

  /** A second load after a first that found the handle unique finds it unique again. */
  lemma SecondLoadAgrees(t: Target, s: State, h: nat)
    requires Inv(t, s) && h in s.actors && s.actors[h].Handle? && s.actors[h].pc.Unique1?
    ensures ReloadStep(s, h).Next? && ReloadStep(s, h).s.actors[h].pc.Unique2?
  {
    hide Refs, Keepers, LenOk, Accounted;
    Facts(t, s, h);
    AloneRefs(s, h);
  }

  /** If the other references go between the two loads of an edit that found its buffer shared, the second
      load finds it unique, and resizing or moving it is then safe and keeps the text. */
  lemma LateDrop(t: Target, s: State, h: nat, cap: nat, moves: bool)
    requires Inv(t, s) && h in s.actors && s.actors[h].Handle? && s.actors[h].pc.Shared1?
    requires s.actors[h].base in s.blocks && s.blocks[s.actors[h].base].count == 1 && |TextAt(s, h)| <= cap
    ensures ReloadStep(s, h).Next?
    ensures ReloadStep(s, h).s.actors[h] == Handle(s.actors[h].base, s.actors[h].len, Unique2(s.actors[h].pc.want))
    ensures var s1 := ReloadStep(s, h).s; var r := GrowStep(s1, h, cap, moves);
            r.Next? && Inv(t, r.s) && h in r.s.actors && r.s.actors[h].Handle? && TextAt(r.s, h) == TextAt(s, h)
  {
    hide Structure, CopiesOk, Refs, Keepers;
    var s1 := ReloadStep(s, h).s;
    assert Step(t, s, Reload(h)) == Next(s1);
    StepKeeps(t, s, Reload(h));
    OwnSteps(t, s, Reload(h), h);
    UniqueIsAlone(t, s1, h);
    var e := Grow(h, cap, moves);
    var r := GrowStep(s1, h, cap, moves);
    assert Step(t, s1, e) == r;
    StepKeeps(t, s1, e);
    OwnSteps(t, s1, e, h);
  }

  /** `h` held `before` when an edit towards `want` began: it holds one or the other, except while it is
      being written, when only its own thread may look. */
  predicate InEdit(s: State, h: nat, before: seq<byte>, want: seq<byte>) {
    && h in s.actors && s.actors[h].Handle?
    && match s.actors[h].pc
       case Idle => TextAt(s, h) == before || TextAt(s, h) == want
       case Writing(w) => w == want
       case Check(w) => w == want && TextAt(s, h) == before
       case Unique1(w) => w == want && TextAt(s, h) == before
       case Shared1(w) => w == want && TextAt(s, h) == before
       case Unique2(w) => w == want && TextAt(s, h) == before
       case Shared2(w) => w == want && TextAt(s, h) == before
       case Copying(w, _) => w == want && TextAt(s, h) == before
  }

  lemma EditStepAtomic(t: Target, s: State, e: Event, h: nat, before: seq<byte>, want: seq<byte>)
    requires Inv(t, s) && InEdit(s, h, before, want) && Step(t, s, e).Next?
    requires Acts(e, h) ==> !e.Edit? && !e.Shorten? && !e.Drop?
    ensures InEdit(Step(t, s, e).s, h, before, want)
  {
    hide Structure, CopiesOk, TextAt, Refs, Keepers;
    if !Acts(e, h) {
      OthersUnchanged(t, s, e, h);
    } else if !e.Poke? {
      OwnSteps(t, s, e, h);
    }
  }

  /** An edit is atomic over any run of everybody else, whichever of its allocations fail. */
  lemma {:induction false} EditsAreAtomic(t: Target, s: State, events: seq<Event>, h: nat, before: seq<byte>,
      want: seq<byte>)
    requires Inv(t, s) && InEdit(s, h, before, want)
    requires forall i | 0 <= i < |events| && Acts(events[i], h) ::
               !events[i].Edit? && !events[i].Shorten? && !events[i].Drop?
    ensures Run(t, s, events).Next? && InEdit(Run(t, s, events).s, h, before, want)
    decreases |events|
  {
    hide Structure, CopiesOk, Step, InEdit, Acts;
    if events != [] {
      var rest := events[1..];
      assert forall i | 0 <= i < |rest| :: rest[i] == events[i + 1];
      NeverFaults(t, s, events[0]);
      if Step(t, s, events[0]).Next? {
        StepKeeps(t, s, events[0]);
        EditStepAtomic(t, s, events[0], h, before, want);
        EditsAreAtomic(t, Step(t, s, events[0]).s, rest, h, before, want);
      } else {
        EditsAreAtomic(t, s, rest, h, before, want);
      }
    }
  }

  // ----- the steps do what they are for -----

  /** The loads find a handle unique exactly when it holds the only reference. */
  lemma LoadsAreExact(t: Target, s: State, h: nat)
    requires Inv(t, s) && h in s.actors && s.actors[h].Handle?
    ensures s.actors[h].pc.Check? ==>
              && LoadStep(s, h).Next?
              && (LoadStep(s, h).s.actors[h].pc.Unique1? <==> Refs(s.actors, s.actors[h].base) == {h})
    ensures s.actors[h].pc.Unique1? || s.actors[h].pc.Shared1? ==>
              && ReloadStep(s, h).Next?
              && (ReloadStep(s, h).s.actors[h].pc.Unique2? <==> Refs(s.actors, s.actors[h].base) == {h})
  {
    hide Structure, CopiesOk, LenOk, Refs, Keepers, Accounted;
    Facts(t, s, h);
    IsRef(s.actors, h);
    if |Refs(s.actors, s.actors[h].base)| == 1 { OneElement(Refs(s.actors, s.actors[h].base), h); }
  }

  /** Clones in flight and references being given back can always take their next step: a clone gives its
      reference back exactly when more than `isize::MAX` existed, and the last reference frees. */
  lemma InFlightGoesOn(t: Target, s: State, i: nat)
    requires Inv(t, s) && i in s.actors && !s.actors[i].Handle?
    ensures var n := |Refs(s.actors, s.actors[i].base)|;
            match s.actors[i]
            case Cloning(b, src, len) =>
              && CloneAddStep(t, s, i).Next?
              && CloneAddStep(t, s, i).s.actors[i] == if n > t.IsizeMax() then Releasing(b) else Cloned(b, src, len)
            case Cloned(b, _, len) =>
              CloneEndStep(s, i).Next? && CloneEndStep(s, i).s.actors[i] == Handle(b, len, Idle)
            case Filling(_, h, done) => if done < |TextAt(s, h)|
              then CopyByteStep(s, i).Next? && CopyByteStep(s, i).s.actors[i].done == done + 1
              else HandOverStep(s, h, i).Next? && TextAt(HandOverStep(s, h, i).s, h) == TextAt(s, h)
            case Releasing(b) => SubStep(s, i).Next? && (i in SubStep(s, i).s.actors <==> n == 1)
            case Freeing(b) =>
              FreeStep(s, i).Next? && b !in FreeStep(s, i).s.blocks && FreeStep(s, i).s.freed == s.freed + [b]
            case _ => true
  {
    hide Structure, LenOk, Refs, Keepers, Accounted, TextAt;
    Facts(t, s, i);
    if s.actors[i].Releasing? { NoFreeingBeside(t, s, i); }
    if s.actors[i].Filling? {
      assert CopyOk(s, i);
      var Filling(_, h, done) := s.actors[i];
      if done == |TextAt(s, h)| { OwnSteps(t, s, HandOver(h, i), h); }
    }
  }

  lemma {:induction false} RunConcat(t: Target, s: State, a: seq<Event>, b: seq<Event>)
    requires Run(t, s, a).Next?
    ensures Run(t, s, a + b) == Run(t, Run(t, s, a).s, b)
    decreases |a|
  {
    hide Step;
    if a == [] {
      assert a + b == b;
    } else {
      assert (a + b)[1..] == a[1..] + b;
      RunConcat(t, if Step(t, s, a[0]).Next? then Step(t, s, a[0]).s else s, a[1..], b);
    }
  }

  lemma RunOne(t: Target, s: State, e: Event)
    requires Step(t, s, e).Next?
    ensures Run(t, s, [e]) == Next(Step(t, s, e).s)
  {
    hide Step;
    assert [e][1..] == [];
  }

  /** `events`, taken by `h` and by the reference `r` it gives up, lead from `s` to `s'`. */
  ghost predicate Leads(t: Target, s: State, events: seq<Event>, s': State, h: nat, r: nat) {
    && Run(t, s, events) == Next(s') && Inv(t, s')
    && forall e, i | e in events && Acts(e, i) :: i == h || i == r
  }

  lemma LeadsOn(t: Target, s: State, events: seq<Event>, s': State, e: Event, h: nat, r: nat)
    requires Leads(t, s, events, s', h, r) && Step(t, s', e).Next? && forall i | Acts(e, i) :: i == h || i == r
    ensures Leads(t, s, events + [e], Step(t, s', e).s, h, r)
  {
    hide Step, Inv, Acts;
    RunConcat(t, s, events, [e]);
    RunOne(t, s', e);
    StepKeeps(t, s', e);
    forall x, i | x in events + [e] && Acts(x, i) ensures i == h || i == r {
      assert x in events || x == e;
    }
  }

  predicate CanWrite(s: State, h: nat, want: seq<byte>) {
    && h in s.actors && s.actors[h].Handle? && s.actors[h].base in s.blocks
    && |want| <= |s.blocks[s.actors[h].base].data|
  }

  lemma SoloBegin(t: Target, s: State, h: nat, want: seq<byte>, r: nat) returns (events: seq<Event>, s': State)
    requires Inv(t, s) && Exclusive(s, h) && s.actors[h].pc.Idle?
    ensures Leads(t, s, events, s', h, r)
    ensures h in s'.actors && s'.actors[h].Handle?
    ensures (s'.actors[h].pc == Unique1(want) || s'.actors[h].pc == Shared1(want))
    ensures r in s.actors <==> r in s'.actors
  {
    hide Structure, CopiesOk, Refs, Keepers, LenOk;
    Facts(t, s, h);
    assert Run(t, s, []) == Next(s);
    LeadsOn(t, s, [], s, Edit(h, want), h, r);
    var s1 := Step(t, s, Edit(h, want)).s;
    LeadsOn(t, s, [] + [Edit(h, want)], s1, Load(h), h, r);
    events, s' := [] + [Edit(h, want)] + [Load(h)], Step(t, s1, Load(h)).s;
  }

  /** The way to a buffer that may be written: at once, after growing, or after copying. */
  lemma SoloWritable(t: Target, s: State, h: nat, want: seq<byte>, r: nat) returns (events: seq<Event>, s': State)
    requires Inv(t, s) && Exclusive(s, h) && s.actors[h].pc.Idle? && r !in s.actors
    ensures Leads(t, s, events, s', h, r) && CanWrite(s', h, want) && s'.actors[h].pc == Writing(want)
  {
    hide Structure, CopiesOk, Refs, Keepers, LenOk, Leads, Exclusive, Alone;
    events, s' := SoloBegin(t, s, h, want, r);
    Facts(t, s', h) by { assert Inv(t, s') by { LeadsInv(t, s, events, s', h, r); } }
    LeadsInv(t, s, events, s', h, r);
    if s'.actors[h].pc.Shared1? {
      var e := Copy(h, r, seq(|TextAt(s', h)| + |want|, _ => 0));
      LeadsOn(t, s, events, s', e, h, r);
      OwnSteps(t, s', e, h);
      events, s' := events + [e], Step(t, s', e).s;
      events, s' := SoloCopy(t, s, events, s', h, want, r);
    } else if |want| > |s'.blocks[s'.actors[h].base].data| {
      events, s' := SoloGrow(t, s, events, s', h, want, r);
    }
    LeadsOn(t, s, events, s', Write(h), h, r);
    events, s' := events + [Write(h)], Step(t, s', Write(h)).s;
  }

  /** The copy goes on byte by byte until it can be handed over. */
  lemma {:induction false} SoloCopy(t: Target, s: State,
      before: seq<Event>, s0: State, h: nat, want: seq<byte>, r: nat)
    returns (events: seq<Event>, s': State)
    requires Leads(t, s, before, s0, h, r) && h in s0.actors && s0.actors[h].Handle?
    requires s0.actors[h].pc == Copying(want, r) && r in s0.actors && s0.actors[r].Filling? && s0.actors[r].src == h
    requires s0.actors[r].base in s0.blocks && |want| <= |s0.blocks[s0.actors[r].base].data|
    ensures Leads(t, s, events, s', h, r) && CanWrite(s', h, want) && s'.actors[h].pc == Unique2(want)
    decreases |TextAt(s0, h)| - s0.actors[r].done
  {
    hide Structure, CopiesOk, Refs, Keepers, LenOk, Leads, Exclusive, Alone, TextAt, Readable;
    LeadsInv(t, s, before, s0, h, r);
    InFlightGoesOn(t, s0, r);
    Facts(t, s0, r) by { assert Structure(t, s0); }
    if s0.actors[r].done < |TextAt(s0, h)| {
      var e := CopyByte(r);
      LeadsOn(t, s, before, s0, e, h, r);
      OthersUnchanged(t, s0, e, h) by { assert Structure(t, s0); }
      events, s' := SoloCopy(t, s, before + [e], Step(t, s0, e).s, h, want, r);
    } else {
      var e := HandOver(h, r);
      LeadsOn(t, s, before, s0, e, h, r);
      events, s' := before + [e], Step(t, s0, e).s;
    }
  }

  lemma SoloGrow(t: Target, s: State, before: seq<Event>, s0: State, h: nat, want: seq<byte>, r: nat)
    returns (events: seq<Event>, s': State)
    requires Leads(t, s, before, s0, h, r) && h in s0.actors
    requires s0.actors[h].Handle? && s0.actors[h].pc == Unique1(want)
    requires s0.actors[h].base in s0.blocks && |want| > |s0.blocks[s0.actors[h].base].data|
    ensures Leads(t, s, events, s', h, r) && CanWrite(s', h, want) && s'.actors[h].pc == Unique2(want)
  {
    hide Structure, CopiesOk, Refs, Keepers, LenOk, Leads, Exclusive, Alone;
    LeadsInv(t, s, before, s0, h, r);
    SecondLoadAgrees(t, s0, h);
    LeadsOn(t, s, before, s0, Reload(h), h, r);
    events, s' := before + [Reload(h)], Step(t, s0, Reload(h)).s;
    LeadsInv(t, s, events, s', h, r);
    UniqueIsAlone(t, s', h);
    var e := Grow(h, |want|, false);
    LeadsOn(t, s, events, s', e, h, r);
    events, s' := events + [e], Step(t, s', e).s;
  }

  lemma LeadsInv(t: Target, s: State, events: seq<Event>, s': State, h: nat, r: nat)
    requires Leads(t, s, events, s', h, r)
    ensures Inv(t, s')
  {
  }

  /** Writing the rest of the text byte by byte. */
  lemma {:induction false} SoloPokes(t: Target, s: State, before: seq<Event>, s0: State, h: nat, want: seq<byte>,
      r: nat, i: nat)
    returns (events: seq<Event>, s': State)
    requires Leads(t, s, before, s0, h, r) && CanWrite(s0, h, want) && s0.actors[h].pc == Writing(want)
    requires i <= |want| && s0.blocks[s0.actors[h].base].data[..i] == want[..i]
    ensures Leads(t, s, events, s', h, r) && CanWrite(s', h, want) && s'.actors[h].pc == Writing(want)
    ensures s'.blocks[s'.actors[h].base].data[..|want|] == want
    decreases |want| - i
  {
    hide Structure, CopiesOk, Refs, Keepers, LenOk, Leads, Exclusive, Alone;
    if i == |want| {
      events, s' := before, s0;
      assert want[..|want|] == want;
    } else {
      LeadsInv(t, s, before, s0, h, r);
      UniqueIsAlone(t, s0, h);
      var e := Poke(h, i, want[i]);
      LeadsOn(t, s, before, s0, e, h, r);
      events, s' := SoloPokes(t, s, before + [e], Step(t, s0, e).s, h, want, r, i + 1);
    }
  }

  /** A thread left alone with a handle finishes its edit from any reachable state, whoever shares the
      buffer and however full it is, as long as memory lasts. */
  lemma EditsCanFinish(t: Target, s: State, h: nat, want: seq<byte>, r: nat) returns (events: seq<Event>)
    requires Inv(t, s) && Exclusive(s, h) && s.actors[h].pc.Idle? && r !in s.actors && NewTextLen(t, |want|).Some?
    ensures forall e, i | e in events && Acts(e, i) :: i == h || i == r
    ensures Run(t, s, events).Next?
    ensures var s' := Run(t, s, events).s;
            && Inv(t, s') && h in s'.actors && s'.actors[h].Handle? && s'.actors[h].pc.Idle? && TextAt(s', h) == want
            && forall i | i in s.actors && i != h && s.actors[i].Handle? ::
                 i in s'.actors && s'.actors[i] == s.actors[i] && TextAt(s', i) == TextAt(s, i)
  {
    hide Structure, CopiesOk, Refs, Keepers, LenOk, Leads, Exclusive, Alone, Acts;
    var s';
    events, s' := SoloWritable(t, s, h, want, r);
    events, s' := SoloPokes(t, s, events, s', h, want, r, 0);
    events, s' := SoloCommit(t, s, events, s', h, want, r);
    LeadsIs(t, s, events, s', h, r);
    forall i | i in s.actors && i != h && s.actors[i].Handle?
      ensures i in s'.actors && s'.actors[i] == s.actors[i] && TextAt(s', i) == TextAt(s, i)
    {
      assert forall k | 0 <= k < |events| :: !Acts(events[k], i);
      OthersUnchangedInRuns(t, s, events, i);
    }
  }

  lemma LeadsIs(t: Target, s: State, events: seq<Event>, s': State, h: nat, r: nat)
    requires Leads(t, s, events, s', h, r)
    ensures Run(t, s, events) == Next(s') && Inv(t, s')
    ensures forall e, i | e in events && Acts(e, i) :: i == h || i == r
  {
  }

  lemma SoloCommit(t: Target, s: State, before: seq<Event>, s0: State, h: nat, want: seq<byte>, r: nat)
    returns (events: seq<Event>, s': State)
    requires Leads(t, s, before, s0, h, r) && CanWrite(s0, h, want)
    requires s0.actors[h].pc == Writing(want) && NewTextLen(t, |want|).Some?
    requires s0.blocks[s0.actors[h].base].data[..|want|] == want
    ensures Leads(t, s, events, s', h, r) && h in s'.actors && s'.actors[h].Handle?
    ensures s'.actors[h].pc.Idle? && TextAt(s', h) == want
  {
    hide Structure, CopiesOk, Refs, Keepers, LenOk, Leads, Exclusive, Alone;
    LeadsInv(t, s, before, s0, h, r);
    UniqueIsAlone(t, s0, h);
    var e := Commit(h);
    LeadsOn(t, s, before, s0, e, h, r);
    OwnSteps(t, s0, e, h);
    events, s' := before + [e], Step(t, s0, e).s;
  }
}
