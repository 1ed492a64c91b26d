/** Whole programs: any sequence of operations on any number of handles behaves as if every handle were
    an independent plain string. */
module Runs {
  import opened Bytes
  import opened Layout
  import opened HeapState
  import opened HeapMemory
  import opened Case
  import opened Filtering
  import opened Numbers
  import opened Repetition
  import opened Texts
  import opened S = Store
  import Utf8

  // ----- plain strings -----

  /** What a handle is to its user: a type and a text. */
  datatype Value = Value(kind: Kind, text: seq<byte>)

  type View = map<nat, Value>

  /** Operations on one `LeanString`. */
  datatype Edit =
    | Push(with: Str)
    | PushCh(ch: Utf8.Scalar)
    | Pop
    | Remove(idx: nat)
    | Insert(idx: nat, with: Str)
    | InsertCh(idx: nat, ch: Utf8.Scalar)
    | Replace(lo: Bound, hi: Bound, with: Str)
    | Extend(lo: Bound, hi: Bound)
    | Truncate(len: nat)
    | Clear
    | Retain(p: Predicate)
    | MakeAscii(case_: Case)
    | Reserve(additional: nat, exact: bool)
    | ShrinkTo(min: nat)

  datatype Edited = Edited(text: seq<byte>, panics: bool, ch: Option<Utf8.Scalar>)

  /** The text an edit is given. */
  function Argument(e: Edit): Str {
    if e.Push? || e.Insert? || e.Replace? then e.with else Literal([])
  }

  /** An edit of a plain string; `arg` is what its argument reads. */
  ghost function Edits(t: Target, text: seq<byte>, e: Edit, arg: seq<byte>): (r: Edited)
    requires Utf8.Valid(text)
  {
    match e
    case Push(_) => Edited(text + arg, false, None)
    case PushCh(ch) => Edited(text + Utf8.EncodeChar(ch), false, None)
    case Pop =>
      var cs := Utf8.Decode(text);
      if cs == [] then Edited(text, false, None) else Edited(Utf8.Encode(cs[..|cs| - 1]), false, Some(cs[|cs| - 1]))
    case Remove(idx) =>
      if !Utf8.IsBoundary(text, idx) || idx == |text| || Utf8.CharLen(text[idx..]) == 0 then Edited(text, true, None)
      else Edited(Spliced(text, idx, idx + Utf8.CharLen(text[idx..]), []), false, Some(Utf8.DecodeChar(text[idx..])))
    case Insert(idx, _) =>
      if !Utf8.IsBoundary(text, idx) then Edited(text, true, None)
      else Edited(Spliced(text, idx, idx, arg), false, None)
    case InsertCh(idx, ch) =>
      if !Utf8.IsBoundary(text, idx) then Edited(text, true, None)
      else Edited(Spliced(text, idx, idx, Utf8.EncodeChar(ch)), false, None)
    case Replace(lo, hi, _) =>
      if SliceRange(t, text, lo, hi).None? then Edited(text, true, None)
      else var (start, end) := SliceRange(t, text, lo, hi).value; Edited(Spliced(text, start, end, arg), false, None)
    case Extend(lo, hi) =>
      if SliceRange(t, text, lo, hi).None? then Edited(text, true, None)
      else var (start, end) := SliceRange(t, text, lo, hi).value; Edited(text + text[start..end], false, None)
    case Truncate(len) =>
      if len >= |text| then Edited(text, false, None)
      else if !Utf8.IsBoundary(text, len) then Edited(text, true, None) else Edited(text[..len], false, None)
    case Clear => Edited([], false, None)
    case Retain(p) =>
      var f := Filter(Utf8.Decode(text), p, 0);
      Edited(if f.discards then Utf8.Encode(f.kept) else text, f.panics, None)
    case MakeAscii(case_) => Edited(AsciiMapAll(text, case_), false, None)
    case Reserve(_, _) => Edited(text, false, None)
    case ShrinkTo(_) => Edited(text, false, None)
  }

  /** The capacities an edit may ask for are above what any layout allows. */
  ghost predicate EditTooLarge(t: Target, text: seq<byte>, e: Edit, arg: seq<byte>) {
    var limit := Limit(t, Growable);
    match e
    case Push(_) => GrowCap(t, |text|, |arg|) > limit
    case PushCh(ch) => GrowCap(t, |text|, |Utf8.EncodeChar(ch)|) > limit
    case Insert(_, _) => GrowCap(t, |text|, |arg|) > limit
    case InsertCh(_, ch) => GrowCap(t, |text|, |Utf8.EncodeChar(ch)|) > limit
    case Replace(lo, hi, _) =>
      && SliceRange(t, text, lo, hi).Some?
      && var (start, end) := SliceRange(t, text, lo, hi).value;
      && start <= end <= |text|
      && (|| |text| - (end - start) + |arg| > limit
          || GrowCap(t, |text|, if |arg| > end - start then |arg| - (end - start) else 0) > limit)
    case Extend(lo, hi) =>
      && SliceRange(t, text, lo, hi).Some?
      && var (start, end) := SliceRange(t, text, lo, hi).value;
      && start <= end && GrowCap(t, |text|, end - start) > limit
    case Reserve(additional, exact) =>
      (if exact then |text| + additional else GrowCap(t, |text|, additional)) > limit
    case _ => false
  }

  /** Edits of plain strings keep them valid. */
  lemma EditsValid(t: Target, text: seq<byte>, e: Edit, arg: seq<byte>)
    requires Utf8.Valid(text) && Utf8.Valid(arg)
    ensures Utf8.Valid(Edits(t, text, e, arg).text)
  {
    hide Utf8.Valid, Utf8.Decode, Utf8.Encode, Utf8.EncodeChar, Utf8.CharLen, Utf8.DecodeChar, Utf8.IsBoundary,
        Filter, AsciiMapAll, SliceRange;
    match e
    case Push(_) => Utf8.ValidConcat(text, arg);
    case PushCh(ch) =>
      Utf8.EncodedCharValid(ch);
      Utf8.ValidConcat(text, Utf8.EncodeChar(ch));
    case Pop =>
      var cs := Utf8.Decode(text);
      if cs != [] { Utf8.DecodeEncode(cs[..|cs| - 1]); }
    case Remove(idx) => RemoveValid(text, idx);
    case Insert(idx, _) => InsertValid(text, idx, arg);
    case InsertCh(idx, ch) =>
      Utf8.EncodedCharValid(ch);
      InsertValid(text, idx, Utf8.EncodeChar(ch));
    case Replace(lo, hi, _) =>
      if SliceRange(t, text, lo, hi).Some? {
        SliceRangeCuts(t, text, lo, hi);
        var (start, end) := SliceRange(t, text, lo, hi).value;
        SplicedValid(text, start, end, arg);
      }
    case Extend(lo, hi) =>
      if SliceRange(t, text, lo, hi).Some? {
        SliceRangeCuts(t, text, lo, hi);
        var (start, end) := SliceRange(t, text, lo, hi).value;
        Utf8.ValidConcat(text, text[start..end]);
      }
    case Truncate(len) => if len < |text| { Utf8.BoundarySplits(text, len); }
    case Clear => EmptyValid();
    case Retain(p) => Utf8.DecodeEncode(Filter(Utf8.Decode(text), p, 0).kept);
    case MakeAscii(case_) => AsciiMapValid(text, case_);
    case Reserve(_, _) =>
    case ShrinkTo(_) =>
  }

  lemma EmptyValid()
    ensures Utf8.Valid([]) && Utf8.Decode([]) == []
  {
  }

  lemma RemoveValid(text: seq<byte>, idx: nat)
    requires Utf8.Valid(text)
    ensures Utf8.Valid(Edits(Bits64, text, Remove(idx), []).text)
  {
    hide Utf8.Valid, Utf8.CharLen, Utf8.DecodeChar;
    if Utf8.IsBoundary(text, idx) && idx < |text| && Utf8.CharLen(text[idx..]) != 0 {
      Utf8.BoundarySplits(text, idx);
      RemovedValid(text, idx, Utf8.CharLen(text[idx..]));
    }
  }

  lemma InsertValid(text: seq<byte>, idx: nat, bytes: seq<byte>)
    requires Utf8.Valid(text) && Utf8.Valid(bytes)
    ensures Utf8.IsBoundary(text, idx) ==> idx <= |text| && Utf8.Valid(Spliced(text, idx, idx, bytes))
  {
    hide Utf8.Valid;
    if Utf8.IsBoundary(text, idx) {
      Utf8.BoundarySplits(text, idx);
      SplicedValid(text, idx, idx, bytes);
    }
  }

  // ----- programs -----

  datatype Op =
    | Create(kind: Kind, text: seq<byte>)
    | CreateStatic(kind: Kind, text: seq<byte>)
    | CreateWithCapacity(capacity: nat)
    | CreateChar(kind: Kind, ch: Utf8.Scalar)
    | CreateInteger(kind: Kind, ty: IntType, x: int)
    | Clone(id: nat)
    | CloneFrom(id: nat, src: nat)
    | Drop(id: nat)
    | Change(id: nat, e: Edit)
    | Convert(id: nat)
    | SplitOff(id: nat, at: nat)
    | Repeat(id: nat, n: nat)
    | AsciiCase(id: nat, case_: Case)
    | FullCase(id: nat, case_: Case, map_: Utf8.Scalar -> seq<Utf8.Scalar>, full: seq<byte>)

  /** How an operation went: it finished, an allocation failed, it panicked, a reference count was about
      to overflow, or the program would not have compiled and it was skipped. */
  datatype Reply = Finished | Failed | Panics | Overflow | Skipped

  /** One step of a run; `refused` says whether the allocator turned down a request in it. */
  datatype Entry = Entry(op: Op, reply: Reply, made: nat, ch: Option<Utf8.Scalar>, refused: bool)

  ghost predicate AllValid(v: View) { forall i | i in v :: Utf8.Valid(v[i].text) }

  function ArgOf(v: View, e: Edit): seq<byte> {
    match Argument(e)
    case Literal(bytes) => bytes
    case Borrowed(src, a, b) => if src in v && a <= b <= |v[src].text| then v[src].text[a..b] else []
  }

  /** What Rust's types and borrow checker demand. */
  predicate Typed(t: Target, v: View, op: Op) {
    match op
    case Create(_, text) => Utf8.Valid(text)
    case CreateStatic(_, text) => Utf8.Valid(text)
    case CreateWithCapacity(_) => true
    case CreateChar(_, _) => true
    case CreateInteger(_, ty, x) => ty.Fits(t, x)
    case Clone(id) => id in v
    case CloneFrom(id, src) => id in v && src in v && id != src && v[id].kind == v[src].kind
    case Drop(id) => id in v
    case Change(id, e) =>
      && id in v && v[id].kind.Growable? && Utf8.Valid(ArgOf(v, e))
      && (Argument(e).Borrowed? ==> Argument(e).src in v && Argument(e).src != id)
    case Convert(id) => id in v
    case SplitOff(id, _) => id in v && v[id].kind.Growable?
    case Repeat(id, _) => id in v
    case AsciiCase(id, _) => id in v
    case FullCase(id, case_, map_, full) =>
      id in v && Utf8.Valid(full) && AsciiFacts(map_, case_) && (case_.Lower? ==> CharChanges(map_, SIGMA))
  }

  /** Full case conversion of a plain string. */
  ghost function Cased(text: seq<byte>, case_: Case,
      map_: Utf8.Scalar -> seq<Utf8.Scalar>, full: seq<byte>): seq<byte>
    requires Utf8.Valid(text)
  {
    if case_.Lower? && SIGMA in Utf8.Decode(text) then full else MapText(text, map_)
  }

  ghost function Other(k: Kind): Kind { if k.Growable? then Exact else Growable }

  /** The same step on plain strings. */
  ghost function Apply(t: Target, v: View, entry: Entry): View
    requires AllValid(v)
  {
    var made := entry.made;
    if entry.reply.Skipped? || !Typed(t, v, entry.op) then v
    else if !(entry.reply.Finished? || entry.reply.Panics?) then
      if entry.op.Convert? then v - {entry.op.id} else v
    else
      match entry.op
      case Create(kind, text) => v[made := Value(kind, text)]
      case CreateStatic(kind, text) => v[made := Value(kind, text)]
      case CreateWithCapacity(_) => v[made := Value(Growable, [])]
      case CreateChar(kind, ch) => v[made := Value(kind, Utf8.EncodeChar(ch))]
      case CreateInteger(kind, _, x) => v[made := Value(kind, Decimal(x))]
      case Clone(id) => v[made := v[id]]
      case CloneFrom(id, src) => v[id := v[src]]
      case Drop(id) => v - {id}
      case Change(id, e) => v[id := Value(Growable, Edits(t, v[id].text, e, ArgOf(v, e)).text)]
      case Convert(id) => v[id := Value(Other(v[id].kind), v[id].text)]
      case SplitOff(id, at) =>
        if !Utf8.IsBoundary(v[id].text, at) then v
        else v[id := Value(Growable, v[id].text[..at])][made := Value(Growable, v[id].text[at..])]
      case Repeat(id, n) => v[made := Value(v[id].kind, Repeated(v[id].text, n))]
      case AsciiCase(id, case_) => v[made := Value(v[id].kind, AsciiMapAll(v[id].text, case_))]
      case FullCase(id, case_, map_, full) => v[made := Value(v[id].kind, Cased(v[id].text, case_, map_, full))]
  }

  predicate Makes(op: Op) {
    op.Create? || op.CreateStatic? || op.CreateWithCapacity? || op.CreateChar? || op.CreateInteger?
    || op.Clone? || op.SplitOff? || op.Repeat? || op.AsciiCase? || op.FullCase?
  }

  /** A size the operation may ask for is above what can be laid out. */
  ghost predicate TooLarge(t: Target, v: View, op: Op)
    requires AllValid(v) && Typed(t, v, op)
  {
    match op
    case Create(kind, text) => |text| > Limit(t, kind)
    case CreateStatic(_, text) => |text| > StaticMax(t)
    case CreateWithCapacity(capacity) => capacity > Limit(t, Growable)
    case Change(id, e) => EditTooLarge(t, v[id].text, e, ArgOf(v, e))
    case Convert(id) => v[id].kind.Exact? && |v[id].text| > Limit(t, Growable)
    case Repeat(id, n) => |v[id].text| * n > Limit(t, v[id].kind)
    case FullCase(id, case_, map_, full) => CaseTooLong(t, v[id].text, case_, map_, full)
    case _ => false
  }

  /** An operation that never asks for memory. */
  predicate NeverFails(t: Target, op: Op) {
    || op.CreateChar? || op.Drop? || op.Clone? || op.CloneFrom?
    || (op.Change? && (op.e.Clear? || (t.Bits64? && (op.e.Truncate? || op.e.Pop?))))
  }

  /** There are more strings than a reference count allows for. */
  ghost predicate Crowded(t: Target, v: View) { |v| > t.IsizeMax() }

  /** The reply is one a plain string could give, up to running out of memory or of reference counts. */
  ghost predicate Plausible(t: Target, v: View, entry: Entry)
    requires AllValid(v)
  {
    var Entry(op, reply, made, ch, refused) := entry;
    && (reply.Skipped? <==> !Typed(t, v, op))
    && (reply.Finished? && Makes(op) ==> made !in v)
    && (reply.Overflow? ==> MayOverflow(op) && Crowded(t, v))
    && (refused ==> reply.Failed?)
    && (reply.Failed? ==> Typed(t, v, op) && !NeverFails(t, op) && (refused || TooLarge(t, v, op)))
    && (reply.Finished? || reply.Panics? ==>
          match op
          case Change(id, e) =>
            var r := Edits(t, v[id].text, e, ArgOf(v, e));
            (reply.Panics? <==> r.panics) && (reply.Finished? ==> ch == r.ch)
          case SplitOff(id, at) => reply.Panics? <==> !Utf8.IsBoundary(v[id].text, at)
          case _ => reply.Finished?)
  }

  /** An operation that may hand out another reference to a buffer. */
  predicate MayOverflow(op: Op) {
    || op.Clone? || op.CloneFrom? || op.AsciiCase? || op.FullCase?
    || (op.Repeat? && op.n == 1) || (op.Change? && op.e.MakeAscii?)
  }

  /** The plain strings after a sequence of steps. */
  ghost function Replay(t: Target, v: View, log: seq<Entry>): (v': View)
    requires AllValid(v)
    ensures AllValid(v')
  {
    if log == [] then v
    else
      var before := Replay(t, v, log[..|log| - 1]);
      ApplyValid(t, before, log[|log| - 1]);
      Apply(t, before, log[|log| - 1])
  }

  lemma ApplyValid(t: Target, v: View, entry: Entry)
    requires AllValid(v)
    ensures AllValid(Apply(t, v, entry))
  {
    hide Utf8.Valid, Edits, Utf8.Decode, MapText, Cased, Repeated, AsciiMapAll, Utf8.IsBoundary, AsciiFacts,
        CharChanges;
    if Typed(t, v, entry.op) && (entry.reply.Finished? || entry.reply.Panics?) {
      match entry.op
      case Change(id, e) => EditsValid(t, v[id].text, e, ArgOf(v, e));
      case SplitOff(id, at) => if Utf8.IsBoundary(v[id].text, at) { CutValid(v[id].text, at); }
      case Repeat(id, n) => RepeatedValid(v[id].text, n);
      case AsciiCase(id, case_) => AsciiMapValid(v[id].text, case_);
      case FullCase(id, case_, map_, full) => CasedValid(v[id].text, case_, map_, full);
      case CreateWithCapacity(_) => EmptyValid();
      case CreateChar(_, ch) => Utf8.EncodedCharValid(ch);
      case CreateInteger(_, _, x) => DecimalIsAscii(x);
      case _ =>
    }
  }

  lemma CutValid(text: seq<byte>, at: nat)
    requires Utf8.Valid(text) && Utf8.IsBoundary(text, at)
    ensures at <= |text| && Utf8.Valid(text[..at]) && Utf8.Valid(text[at..])
  {
    hide Utf8.Valid;
    Utf8.BoundarySplits(text, at);
  }

  lemma CasedValid(text: seq<byte>, case_: Case, map_: Utf8.Scalar -> seq<Utf8.Scalar>, full: seq<byte>)
    requires Utf8.Valid(text) && Utf8.Valid(full)
    ensures Utf8.Valid(Cased(text, case_, map_, full))
  {
    hide Utf8.Valid, Utf8.Decode, Utf8.Encode, MapChars;
    Utf8.DecodeEncode(MapChars(Utf8.Decode(text), map_));
  }

  // ----- refinement -----

  function ViewOf(t: Target, s: State): (v: View)
    requires Ok(t, s)
    ensures AllValid(v) && v.Keys == s.handles.Keys
  {
    hide Shape, Text, Utf8.Valid, Agreement, NoLeak, Counts;
    assert forall i | i in s.handles :: ContentOk(t, s.blocks, s.handles[i]);
    map i | i in s.handles :: Value(s.handles[i].kind, Text(t, s.blocks, s.handles[i]))
  }

  function Seen(st: Store): View
    requires st.Valid()
    reads st
  {
    ViewOf(st.t, st.Now())
  }

  lemma ViewAt(t: Target, s: State, id: nat)
    requires Ok(t, s) && id in s.handles
    ensures Shape(t, s.blocks, s.handles[id])
    ensures ViewOf(t, s)[id] == Value(s.handles[id].kind, Text(t, s.blocks, s.handles[id]))
  {
    hide Shape, Text, Utf8.Valid, Agreement, NoLeak, Counts;
    assert ContentOk(t, s.blocks, s.handles[id]);
  }

  lemma ViewKept(t: Target, s: State, s': State, except: set<nat>)
    requires Ok(t, s) && Ok(t, s') && Frame(t, s, s', except)
    ensures forall i | i in s.handles && i !in except :: i in s'.handles && ViewOf(t, s')[i] == ViewOf(t, s)[i]
  {
    hide Shape, Text, Capacity, Ok, ViewOf;
    forall i | i in s.handles && i !in except
      ensures i in s'.handles && ViewOf(t, s')[i] == ViewOf(t, s)[i]
    {
      ViewAt(t, s, i);
      assert SameView(t, s.blocks, s'.blocks, s.handles[i]);
      ViewAt(t, s', i);
    }
  }

  /** A count is full only when there are more handles than it can count. */
  lemma FullIsMany(st: Store, id: nat)
    requires st.Valid() && id in st.handles
    ensures st.CountFull(id) ==> Crowded(st.t, Seen(st))
  {
    hide ViewOf, Ok, Owners;
    if st.CountFull(id) {
      var owners, all := Owners(st.handles, st.handles[id].form.base), Seen(st).Keys;
      assert owners <= all by { OwnersListed(st.handles, st.handles[id].form.base); }
      assert |all| == |owners| + |all - owners| by { assert all == owners + (all - owners); }
    }
  }

  lemma OwnersListed(handles: Handles, b: nat)
    ensures Owners(handles, b) <= handles.Keys
  {
  }

  /** One handle has changed. */
  lemma OneChanged(t: Target, s: State, s': State, id: nat)
    requires Ok(t, s) && Ok(t, s') && Frame(t, s, s', {id}) && s'.handles.Keys == s.handles.Keys && id in s.handles
    ensures Shape(t, s'.blocks, s'.handles[id])
    ensures ViewOf(t, s') == ViewOf(t, s)[id := Value(s'.handles[id].kind, Text(t, s'.blocks, s'.handles[id]))]
  {
    hide Shape, Text, Ok, Frame, ViewOf;
    ViewKept(t, s, s', {id});
    ViewAt(t, s', id);
    assert ViewOf(t, s').Keys == ViewOf(t, s).Keys;
  }

  /** One handle has been added. */
  lemma OneAdded(t: Target, s: State, s': State, id: nat)
    requires Ok(t, s) && Ok(t, s') && Frame(t, s, s', {})
    requires s'.handles.Keys == s.handles.Keys + {id} && id !in s.handles
    ensures Shape(t, s'.blocks, s'.handles[id])
    ensures ViewOf(t, s') == ViewOf(t, s)[id := Value(s'.handles[id].kind, Text(t, s'.blocks, s'.handles[id]))]
  {
    hide Shape, Text, Ok, Frame, ViewOf;
    ViewKept(t, s, s', {});
    ViewAt(t, s', id);
    assert ViewOf(t, s').Keys == ViewOf(t, s).Keys + {id};
  }

  lemma OneGone(t: Target, s: State, s': State, id: nat)
    requires Ok(t, s) && Ok(t, s') && Frame(t, s, s', {id}) && s'.handles.Keys == s.handles.Keys - {id}
    ensures ViewOf(t, s') == ViewOf(t, s) - {id}
  {
    hide Shape, Text, Ok, Frame, ViewOf;
    ViewKept(t, s, s', {id});
    assert ViewOf(t, s').Keys == ViewOf(t, s).Keys - {id};
  }

  lemma NoneChanged(t: Target, s: State, s': State)
    requires Ok(t, s) && Ok(t, s') && Frame(t, s, s', {}) && s'.handles.Keys == s.handles.Keys
    ensures ViewOf(t, s') == ViewOf(t, s)
  {
    hide Shape, Text, Ok, Frame, ViewOf;
    ViewKept(t, s, s', {});
    assert ViewOf(t, s').Keys == ViewOf(t, s).Keys;
  }

  /** An error leaves every handle and every allocation in place, and every text and capacity. */
  ghost predicate Untouched(st: Store, s: State)
    reads st
  {
    st.handles == s.handles && Frame(st.t, s, st.Now(), {}) && st.blocks.Keys == s.blocks.Keys
  }

  predicate Growing(e: Edit) { e.Push? || e.PushCh? || e.Insert? || e.InsertCh? || e.Replace? || e.Extend? }

  predicate Shrinking(e: Edit) { e.Pop? || e.Remove? || e.Truncate? || e.Clear? || e.Retain? }

  function ReplyTo(r: Outcome): Reply {
    match r case Done => Finished case NoMemory => Failed case Panicked => Panics
  }

  /** What an edit of one handle comes to, where `before` requests had been turned down so far. */
  ghost predicate EditDone(st: Store, s: State, before: nat, id: nat, e: Edit, reply: Reply, ch: Option<Utf8.Scalar>)
    requires Ok(st.t, s) && id in s.handles
    reads st
  {
    hide Text, Utf8.Valid, Edits, Frame, Shape;
    OkText(st.t, s, id);
    var v := ViewOf(st.t, s);
    ViewAt(st.t, s, id);
    var text, arg := v[id].text, ArgOf(v, e);
    var r := Edits(st.t, text, e, arg);
    && !reply.Skipped? && st.refused >= before
    && (st.refused > before ==> reply.Failed?)
    && (reply.Failed? ==> st.refused > before || EditTooLarge(st.t, text, e, arg))
    && (reply.Overflow? ==> e.MakeAscii? && Crowded(st.t, v))
    && (reply.Failed? || reply.Overflow? ==> st.Now() == s)
    && (reply.Finished? || reply.Panics? ==>
          && st.Updated(s, id, r.text) && (reply.Panics? <==> r.panics) && (reply.Finished? ==> ch == r.ch))
  }

  method Grow(st: Store, id: nat, e: Edit) returns (reply: Reply)
    requires st.Valid() && Typed(st.t, Seen(st), Change(id, e)) && Growing(e)
    modifies st
    ensures st.Valid() && EditDone(st, old(st.Now()), old(st.refused), id, e, reply, None)
  {
    hide WF, Frame, Shape, Ok, Text, Capacity, Utf8.Valid, Utf8.EncodeChar, Utf8.IsBoundary, SliceRange, Spliced,
        ViewOf, Limit, GrowCap;
    ghost var s := st.Now();
    ViewAt(st.t, s, id);
    st.UpdatedRefl(id);
    ArgReads(st, id, e);
    match e {
      case Push(with) =>
        st.GrowthLimit(id, |st.StrBytes(with)|);
        var ok := st.PushStr(id, with);
        reply := if ok then Finished else Failed;
      case PushCh(c) =>
        st.GrowthLimit(id, |Utf8.EncodeChar(c)|);
        var ok := st.PushChar(id, c);
        reply := if ok then Finished else Failed;
      case Insert(idx, with) =>
        st.GrowthLimit(id, |st.StrBytes(with)|);
        var r := st.InsertStr(id, idx, with);
        reply := ReplyTo(r);
      case InsertCh(idx, c) =>
        st.GrowthLimit(id, |Utf8.EncodeChar(c)|);
        var r := st.InsertChar(id, idx, c);
        reply := ReplyTo(r);
      case Replace(_, _, _) => reply := GrowByReplacing(st, id, e);
      case Extend(_, _) => reply := GrowByExtending(st, id, e);
    }
  }

  method GrowByReplacing(st: Store, id: nat, e: Edit) returns (reply: Reply)
    requires st.Valid() && Typed(st.t, Seen(st), Change(id, e)) && e.Replace?
    modifies st
    ensures st.Valid() && EditDone(st, old(st.Now()), old(st.refused), id, e, reply, None)
  {
    hide WF, Frame, Shape, Ok, Text, Capacity, Utf8.Valid, SliceRange, Spliced, ViewOf, Limit, GrowCap;
    ghost var s := st.Now();
    ViewAt(st.t, s, id);
    st.UpdatedRefl(id);
    ArgReads(st, id, e);
    ghost var range, n := SliceRange(st.t, st.TextOf(id), e.lo, e.hi), |st.StrBytes(e.with)|;
    if range.Some? {
      SliceRangeCuts(st.t, st.TextOf(id), e.lo, e.hi) by { OkText(st.t, s, id); }
      st.GrowthLimit(id, if n > range.value.1 - range.value.0 then n - (range.value.1 - range.value.0) else 0);
    }
    var r := st.ReplaceRange(id, e.lo, e.hi, e.with);
    reply := ReplyTo(r);
  }

  method GrowByExtending(st: Store, id: nat, e: Edit) returns (reply: Reply)
    requires st.Valid() && Typed(st.t, Seen(st), Change(id, e)) && e.Extend?
    modifies st
    ensures st.Valid() && EditDone(st, old(st.Now()), old(st.refused), id, e, reply, None)
  {
    hide WF, Frame, Shape, Ok, Text, Capacity, Utf8.Valid, SliceRange, ViewOf, Limit, GrowCap;
    ghost var s := st.Now();
    ViewAt(st.t, s, id);
    st.UpdatedRefl(id);
    ghost var range := SliceRange(st.t, st.TextOf(id), e.lo, e.hi);
    if range.Some? {
      SliceRangeCuts(st.t, st.TextOf(id), e.lo, e.hi) by { OkText(st.t, s, id); }
      st.GrowthLimit(id, range.value.1 - range.value.0);
    }
    var r := st.ExtendFromWithin(id, e.lo, e.hi);
    reply := ReplyTo(r);
  }

  lemma ArgReads(st: Store, id: nat, e: Edit)
    requires st.Valid() && Typed(st.t, Seen(st), Change(id, e))
    ensures st.StrOk(Argument(e), id) && st.StrBytes(Argument(e)) == ArgOf(Seen(st), e)
  {
    hide WF, Shape, Text, Ok, Utf8.Valid, ViewOf;
    if Argument(e).Borrowed? { ViewAt(st.t, st.Now(), Argument(e).src); }
  }

  method Shrink(st: Store, id: nat, e: Edit) returns (reply: Reply, ch: Option<Utf8.Scalar>)
    requires st.Valid() && Typed(st.t, Seen(st), Change(id, e)) && Shrinking(e)
    modifies st
    ensures st.Valid() && EditDone(st, old(st.Now()), old(st.refused), id, e, reply, ch)
    ensures reply.Failed? ==> !e.Clear? && !(st.t.Bits64? && (e.Truncate? || e.Pop?))
  {
    hide Crowded, EditTooLarge, WF, Frame, Shape, Ok, Text, Capacity, Utf8.Valid, Utf8.Decode, Utf8.Encode,
        Utf8.CharLen, Utf8.DecodeChar, Utf8.IsBoundary, Spliced, ViewOf, Filter, Limit, GrowCap;
    ghost var s := st.Now();
    ViewAt(st.t, s, id);
    st.UpdatedRefl(id);
    ch := None;
    match e {
      case Pop =>
        var ok, last := st.Pop(id);
        reply, ch := if ok then Finished else Failed, last;
      case Remove(idx) =>
        var r, removed := st.Remove(id, idx);
        reply, ch := ReplyTo(r), Some(removed);
        if r.Panicked? { ch := None; }
      case Truncate(len) =>
        var r := st.Truncate(id, len);
        reply := ReplyTo(r);
      case Clear =>
        st.Clear(id);
        reply := Finished;
      case Retain(p) =>
        var r, _ := st.Retain(id, p);
        reply := ReplyTo(r);
    }
  }

  /** Room after the edits that are about nothing else. */
  ghost predicate Adjusted(st: Store, s: State, id: nat, e: Edit)
    requires id in s.handles && Shape(st.t, s.blocks, s.handles[id])
    requires id in st.handles && Shape(st.t, st.blocks, st.handles[id])
    reads st
  {
    var len, before, cap := |Text(st.t, s.blocks, s.handles[id])|, Capacity(st.t, s.blocks, s.handles[id]),
        st.CapacityOf(id);
    match e
    case Reserve(additional, exact) =>
      if additional == 0 then st.Now() == s
      else
        && st.Modifiable(id) && cap >= len + additional
        && (cap == before || cap == st.Room(if exact then len + additional else GrowCap(st.t, len, additional)))
    case ShrinkTo(min) =>
      var want := if len < min then min else len;
      cap == if s.handles[id].form.Heap? && want < before then st.Room(want) else before
    case _ => true
  }

  method Adjust(st: Store, id: nat, e: Edit) returns (reply: Reply)
    requires st.Valid() && Typed(st.t, Seen(st), Change(id, e)) && !Growing(e) && !Shrinking(e)
    modifies st
    ensures st.Valid() && EditDone(st, old(st.Now()), old(st.refused), id, e, reply, None)
    ensures reply.Finished? ==>
              && id in st.handles && id in old(st.handles) && Shape(st.t, old(st.blocks), old(st.handles[id]))
              && Shape(st.t, st.blocks, st.handles[id]) && Adjusted(st, old(st.Now()), id, e)
  {
    hide Crowded, WF, Frame, Shape, Ok, Text, Capacity, Utf8.Valid, ViewOf, AsciiMapAll, Limit, GrowCap;
    ghost var s := st.Now();
    ViewAt(st.t, s, id);
    st.UpdatedRefl(id);
    match e {
      case MakeAscii(case_) =>
        FullIsMany(st, id);
        var ok, overflow := st.MakeAsciiCase(id, case_);
        reply := if ok then Finished else if overflow then Overflow else Failed;
      case Reserve(additional, exact) =>
        var ok := st.Reserve(id, additional, exact);
        reply := if ok then Finished else Failed;
      case ShrinkTo(min) =>
        var ok := st.ShrinkTo(id, min);
        reply := if ok then Finished else Failed;
    }
  }

  method EditOne(st: Store, id: nat, e: Edit) returns (reply: Reply, ch: Option<Utf8.Scalar>)
    requires st.Valid() && Typed(st.t, Seen(st), Change(id, e))
    modifies st
    ensures st.Valid() && EditDone(st, old(st.Now()), old(st.refused), id, e, reply, ch)
    ensures reply.Failed? ==> !NeverFails(st.t, Change(id, e))
  {
    hide Ok, ViewOf, EditDone;
    ch := None;
    if Growing(e) {
      reply := Grow(st, id, e);
    } else if Shrinking(e) {
      reply, ch := Shrink(st, id, e);
    } else {
      reply := Adjust(st, id, e);
    }
  }

  // ----- one step -----

  /** The handles an operation is performed on through a mutable or owning reference. */
  function Aimed(op: Op): set<nat> {
    match op
    case CloneFrom(x, _) => {x}
    case Drop(x) => {x}
    case Change(x, _) => {x}
    case Convert(x) => {x}
    case SplitOff(x, _) => {x}
    case _ => {}
  }

  predicate Targets(op: Op, id: nat) { id in Aimed(op) }

  lemma Weaken(t: Target, s: State, s': State, a: set<nat>, b: set<nat>)
    requires Frame(t, s, s', a) && a <= b
    ensures Frame(t, s, s', b)
  {
    hide SameView;
  }

  /** What one operation of a program comes to: the plain strings take the same step, and an error leaves
      everything as it was. */
  ghost predicate Stepped(st: Store, s: State, before: nat, entry: Entry)
    requires Ok(st.t, s)
    reads st
  {
    && st.Valid() && st.refused >= before && (entry.refused <==> st.refused > before)
    && Plausible(st.t, ViewOf(st.t, s), entry)
    && Seen(st) == Apply(st.t, ViewOf(st.t, s), entry)
    && Frame(st.t, s, st.Now(), Aimed(entry.op))
    && (!entry.reply.Finished? && !entry.op.Convert? && !(entry.op.Change? && entry.reply.Panics?) ==>
         Untouched(st, s))
  }

  lemma Unmoved(t: Target, s: State)
    ensures Frame(t, s, s, {})
  {
    FrameRefl(t, s, {});
  }

  method PerformChange(st: Store, id: nat, e: Edit) returns (entry: Entry)
    requires st.Valid() && Typed(st.t, Seen(st), Change(id, e))
    modifies st
    ensures entry.op == Change(id, e) && Stepped(st, old(st.Now()), old(st.refused), entry)
  {
    hide Crowded, WF, Frame, Shape, Ok, Text, Capacity, Utf8.Valid, ViewOf, Edits, EditTooLarge;
    ghost var s := st.Now();
    var before := st.refused;
    OkText(st.t, s, id);
    ViewAt(st.t, s, id);
    Unmoved(st.t, s);
    var reply, ch := EditOne(st, id, e);
    Weaken(st.t, s, s, {}, {id});
    entry := Entry(Change(id, e), reply, 0, ch, st.refused > before);
    if reply.Finished? || reply.Panics? {
      OneChanged(st.t, s, st.Now(), id);
    }
  }

  method PerformCreate(st: Store, op: Op) returns (entry: Entry)
    requires st.Valid() && Typed(st.t, Seen(st), op) && (op.Create? || op.CreateStatic? || op.CreateWithCapacity?)
    modifies st
    ensures entry.op == op && Stepped(st, old(st.Now()), old(st.refused), entry)
  {
    hide Crowded, WF, Frame, Shape, Ok, Text, Capacity, Utf8.Valid, ViewOf, Limit, StaticMax;
    ghost var s := st.Now();
    var before := st.refused;
    Unmoved(st.t, s);
    var r: Option<nat>;
    match op {
      case Create(kind, text) => r := st.FromStr(kind, text);
      case CreateStatic(kind, text) => r := st.FromStaticStr(kind, text);
      case CreateWithCapacity(capacity) => r := st.WithCapacity(capacity);
    }
    if r.None? {
      return Entry(op, Failed, 0, None, st.refused > before);
    }
    OneAdded(st.t, s, st.Now(), r.value);
    return Entry(op, Finished, r.value, None, false);
  }

  method PerformConvertInto(st: Store, op: Op) returns (entry: Entry)
    requires st.Valid() && Typed(st.t, Seen(st), op) && (op.CreateChar? || op.CreateInteger?)
    modifies st
    ensures entry.op == op && Stepped(st, old(st.Now()), old(st.refused), entry)
  {
    hide Crowded, WF, Frame, Shape, Ok, Text, Capacity, Utf8.Valid, Utf8.EncodeChar, ViewOf, Decimal, IntType.Fits;
    ghost var s := st.Now();
    var before := st.refused;
    Unmoved(st.t, s);
    var r: Option<nat>;
    match op {
      case CreateChar(kind, ch) =>
        var id := st.FromChar(kind, ch);
        r := Some(id);
      case CreateInteger(kind, ty, x) => r := st.FromInteger(kind, ty, x);
    }
    if r.None? {
      return Entry(op, Failed, 0, None, st.refused > before);
    }
    OneAdded(st.t, s, st.Now(), r.value);
    return Entry(op, Finished, r.value, None, false);
  }

  method PerformClone(st: Store, id: nat) returns (entry: Entry)
    requires st.Valid() && Typed(st.t, Seen(st), Clone(id))
    modifies st
    ensures entry.op == Clone(id) && Stepped(st, old(st.Now()), old(st.refused), entry)
  {
    hide Crowded, WF, Frame, Shape, Ok, Text, Capacity, Utf8.Valid, ViewOf, Owners;
    ghost var s := st.Now();
    Unmoved(st.t, s);
    ViewAt(st.t, s, id);
    FullIsMany(st, id);
    var r := st.Clone(id);
    if r.None? {
      return Entry(Clone(id), Overflow, 0, None, false);
    }
    OneAdded(st.t, s, st.Now(), r.value);
    return Entry(Clone(id), Finished, r.value, None, false);
  }

  /** `clone_from`. */
  method PerformCloneFrom(st: Store, id: nat, src: nat) returns (entry: Entry)
    requires st.Valid() && Typed(st.t, Seen(st), CloneFrom(id, src))
    modifies st
    ensures entry.op == CloneFrom(id, src) && Stepped(st, old(st.Now()), old(st.refused), entry)
  {
    hide Crowded, WF, Frame, Shape, Ok, Text, Capacity, Utf8.Valid, ViewOf, Owners;
    ghost var s := st.Now();
    Unmoved(st.t, s);
    ViewAt(st.t, s, src);
    FullIsMany(st, src);
    ViewAt(st.t, s, id);
    var r := st.Clone(src);
    Weaken(st.t, s, s, {}, {id});
    if r.None? {
      return Entry(CloneFrom(id, src), Overflow, 0, None, false);
    }
    ghost var s1 := st.Now();
    st.ReplaceInner(id, r.value);
    FrameThroughTemp(st.t, s, s1, st.Now(), id, r.value);
    OneChanged(st.t, s, st.Now(), id);
    return Entry(CloneFrom(id, src), Finished, 0, None, false);
  }

  method PerformDrop(st: Store, id: nat) returns (entry: Entry)
    requires st.Valid() && Typed(st.t, Seen(st), Drop(id))
    modifies st
    ensures entry.op == Drop(id) && Stepped(st, old(st.Now()), old(st.refused), entry)
  {
    hide Crowded, WF, Frame, Shape, Ok, Text, Capacity, Utf8.Valid, ViewOf, Owners;
    ghost var s := st.Now();
    st.Drop(id);
    OneGone(st.t, s, st.Now(), id);
    return Entry(Drop(id), Finished, 0, None, false);
  }

  method PerformConvert(st: Store, id: nat) returns (entry: Entry)
    requires st.Valid() && Typed(st.t, Seen(st), Convert(id))
    modifies st
    ensures entry.op == Convert(id) && Stepped(st, old(st.Now()), old(st.refused), entry)
  {
    hide Crowded, WF, Frame, Shape, Ok, Text, Capacity, Utf8.Valid, ViewOf, Owners;
    ghost var s := st.Now();
    var before := st.refused;
    ViewAt(st.t, s, id);
    var ok := st.TryConvert(id);
    if !ok {
      OneGone(st.t, s, st.Now(), id);
      return Entry(Convert(id), Failed, 0, None, st.refused > before);
    }
    OneChanged(st.t, s, st.Now(), id);
    return Entry(Convert(id), Finished, 0, None, false);
  }

  method PerformSplitOff(st: Store, id: nat, at: nat) returns (entry: Entry)
    requires st.Valid() && Typed(st.t, Seen(st), SplitOff(id, at))
    modifies st
    ensures entry.op == SplitOff(id, at) && Stepped(st, old(st.Now()), old(st.refused), entry)
  {
    hide Crowded, WF, Frame, Shape, Ok, Text, Capacity, Utf8.Valid, Utf8.IsBoundary, ViewOf, Owners;
    ghost var s := st.Now();
    var before := st.refused;
    Unmoved(st.t, s);
    ViewAt(st.t, s, id);
    var r, tail := st.SplitOff(id, at);
    if r.Done? {
      ViewKept(st.t, s, st.Now(), {id});
      ViewAt(st.t, st.Now(), id);
      ViewAt(st.t, st.Now(), tail);
      ghost var v := ViewOf(st.t, s);
      assert Seen(st) == v[id := Value(Growable, v[id].text[..at])][tail := Value(Growable, v[id].text[at..])];
    } else {
      Weaken(st.t, s, st.Now(), {}, {id});
      NoneChanged(st.t, s, st.Now());
    }
    return Entry(SplitOff(id, at), ReplyTo(r), tail, None, st.refused > before);
  }

  method PerformDerive(st: Store, op: Op) returns (entry: Entry)
    requires st.Valid() && Typed(st.t, Seen(st), op) && (op.Repeat? || op.AsciiCase?)
    modifies st
    ensures entry.op == op && Stepped(st, old(st.Now()), old(st.refused), entry)
  {
    hide Crowded, WF, Frame, Shape, Ok, Text, Capacity, Utf8.Valid, ViewOf, Owners, Repeated, AsciiMapAll;
    ghost var s := st.Now();
    var before := st.refused;
    Unmoved(st.t, s);
    ViewAt(st.t, s, op.id);
    FullIsMany(st, op.id);
    var r: Derived;
    match op {
      case Repeat(id, n) => r := st.Repeat(id, n);
      case AsciiCase(id, case_) => r := st.ToAsciiCase(id, case_);
    }
    if r.CountOverflow? {
      return Entry(op, Overflow, 0, None, false);
    }
    if r.Refused? {
      return Entry(op, Failed, 0, None, st.refused > before);
    }
    OneAdded(st.t, s, st.Now(), r.id);
    return Entry(op, Finished, r.id, None, false);
  }

  /** Converting to `LeanStr` and back keeps the text and leaves no spare capacity. */
  method ConvertThereAndBack(st: Store, id: nat) returns (ok: bool)
    requires st.Valid() && id in st.handles && st.handles[id].kind.Growable? && Shape(st.t, st.blocks, st.handles[id])
    modifies st
    ensures st.Valid() && Frame(st.t, old(st.Now()), st.Now(), {id})
    ensures ok ==>
              && st.handles.Keys == old(st.handles.Keys)
              && st.handles[id].kind.Growable? && Shape(st.t, st.blocks, st.handles[id])
              && st.TextOf(id) == old(st.TextOf(id))
              && (st.handles[id].form.Heap? ==> st.CapacityOf(id) == |st.TextOf(id)| && st.Unshared(id))
    ensures !ok ==> st.handles == old(st.handles) - {id}
    ensures old(!st.handles[id].form.Heap?) ==> ok && st.handles == old(st.handles) && st.blocks == old(st.blocks)
    ensures st.refused >= old(st.refused) && (ok <==> st.refused == old(st.refused))
  {
    hide WF, Frame, Shape, Ok, Text, Capacity, Utf8.Valid, Owners, Limit;
    ghost var s := st.Now();
    WithinLimit(st.t, st.blocks, st.handles[id]);
    ok := st.TryConvert(id);
    if ok {
      ghost var s1 := st.Now();
      SameElsewhere(st.t, s, s1, id);
      ok := st.TryConvert(id);
      FrameStep(st.t, s, s1, st.Now(), {id});
      if ok { SameElsewhere(st.t, s, st.Now(), id); }
    }
  }

  lemma SameElsewhere(t: Target, s: State, s': State, id: nat)
    requires Frame(t, s, s', {id}) && s'.handles.Keys == s.handles.Keys && id in s.handles
    ensures s'.handles - {id} == s.handles - {id}
    ensures s'.handles[id] == s.handles[id] ==> s'.handles == s.handles
  {
    hide SameView;
  }

  /** `to_lowercase` and `to_uppercase` of both types. */
  method PerformFullCase(st: Store, op: Op) returns (entry: Entry)
    requires st.Valid() && op.FullCase? && Typed(st.t, Seen(st), op)
    modifies st
    ensures entry.op == op && Stepped(st, old(st.Now()), old(st.refused), entry)
  {
    hide Crowded, CaseTooLong, WF, Frame, Shape, Ok, Text, Capacity,
        Utf8.Valid, Utf8.Decode, ViewOf, Owners, MapText, CharChanges,
        AsciiFacts;
    ghost var s := st.Now();
    var before := st.refused;
    var FullCase(id, case_, map_, full) := op;
    Unmoved(st.t, s);
    ViewAt(st.t, s, id);
    FullIsMany(st, id);
    OkText(st.t, s, id);
    ghost var text := Text(st.t, st.blocks, st.handles[id]);
    var len, kind := Len(st.t, st.blocks, st.handles[id]), st.handles[id].kind;
    TextLimit(st.t, st.blocks, st.handles[id]);
    assert text[0..len] == text;
    var r := st.ToCase(Borrowed(id, 0, len), case_, map_, full);
    match r {
      case CaseNoMemory =>
        NoneChanged(st.t, s, st.Now());
        return Entry(op, Failed, 0, None, st.refused > before);
      case NoChange =>
        MapTextUnchanged(text, map_);
        var copy := st.Clone(id);
        if copy.None? {
          return Entry(op, Overflow, 0, None, false);
        }
        OneAdded(st.t, s, st.Now(), copy.value);
        return Entry(op, Finished, copy.value, None, false);
      case New(tmp) => entry := FinishFullCase(st, op, tmp, kind, s, before);
    }
  }

  /** A converted text is a `LeanString`; for a `LeanStr` it is converted once more. */
  method FinishFullCase(st: Store, op: Op, tmp: nat, kind: Kind, ghost s: State, before: nat) returns (entry: Entry)
    requires op.FullCase? && Ok(st.t, s) && Typed(st.t, ViewOf(st.t, s), op) && kind == ViewOf(st.t, s)[op.id].kind
    requires var text := ViewOf(st.t, s)[op.id].text;
             Utf8.Valid(text) && st.Building(s, tmp, Cased(text, op.case_, op.map_, op.full))
    requires st.refused == before
    modifies st
    ensures entry.op == op && Stepped(st, s, before, entry)
  {
    hide Crowded, CaseTooLong, Frame, Shape, Ok, Text, Capacity, Utf8.Valid, ViewOf, Owners, Cased, AsciiFacts,
        CharChanges, Limit;
    ghost var s1 := st.Now();
    if kind.Exact? {
      var ok := st.TryConvert(tmp);
      if !ok {
        Undone(st.t, s, s1, st.Now(), tmp);
        SameHandlesSameBlocks(st.t, s, st.Now());
        NoneChanged(st.t, s, st.Now());
        return Entry(op, Failed, 0, None, st.refused > before);
      }
      ChangedWhatWasAdded(st.t, s, s1, st.Now(), tmp);
    }
    OneAdded(st.t, s, st.Now(), tmp);
    return Entry(op, Finished, tmp, None, false);
  }

  lemma ChangedWhatWasAdded(t: Target, s: State, s1: State, s2: State, tmp: nat)
    requires Frame(t, s, s1, {}) && Frame(t, s1, s2, {tmp}) && tmp !in s.handles
    ensures Frame(t, s, s2, {})
  {
    hide Shape, Text, Capacity;
    FrameWiden2(t, s, s1, s2, tmp);
  }

  /** One step of a program, refining one step on plain strings. */
  method Perform(st: Store, op: Op) returns (entry: Entry)
    requires st.Valid()
    modifies st
    ensures entry.op == op && Stepped(st, old(st.Now()), old(st.refused), entry)
  {
    hide Crowded, WF, Frame, Shape, Ok, Text, Capacity, Utf8.Valid, ViewOf, Owners, AsciiFacts, CharChanges;
    if !Typed(st.t, Seen(st), op) {
      Unmoved(st.t, st.Now());
      Weaken(st.t, st.Now(), st.Now(), {}, Aimed(op));
      return Entry(op, Skipped, 0, None, false);
    }
    match op {
      case Clone(id) => entry := PerformClone(st, id);
      case CloneFrom(id, src) => entry := PerformCloneFrom(st, id, src);
      case Drop(id) => entry := PerformDrop(st, id);
      case Change(id, e) => entry := PerformChange(st, id, e);
      case Convert(id) => entry := PerformConvert(st, id);
      case SplitOff(id, at) => entry := PerformSplitOff(st, id, at);
      case Repeat(_, _) => entry := PerformDerive(st, op);
      case AsciiCase(_, _) => entry := PerformDerive(st, op);
      case FullCase(_, _, _, _) => entry := PerformFullCase(st, op);
      case CreateChar(_, _) => entry := PerformConvertInto(st, op);
      case CreateInteger(_, _, _) => entry := PerformConvertInto(st, op);
      case _ => entry := PerformCreate(st, op);
    }
  }

  // ----- whole runs -----

  /** Every reply in a log is one that plain strings could give at that point. */
  ghost predicate Believable(t: Target, v: View, log: seq<Entry>)
    requires AllValid(v)
  {
    forall i | 0 <= i < |log| :: Plausible(t, Replay(t, v, log[..i]), log[i])
  }

  lemma ReplaySnoc(t: Target, v: View, log: seq<Entry>, entry: Entry)
    requires AllValid(v) && Believable(t, v, log) && Plausible(t, Replay(t, v, log), entry)
    ensures Believable(t, v, log + [entry])
    ensures Replay(t, v, log + [entry]) == Apply(t, Replay(t, v, log), entry)
  {
    hide Plausible, Apply;
    var longer := log + [entry];
    assert longer[..|longer| - 1] == log;
    forall i | 0 <= i < |longer|
      ensures Plausible(t, Replay(t, v, longer[..i]), longer[i])
    {
      assert i < |log| ==> longer[..i] == log[..i] && longer[i] == log[i];
      assert i == |log| ==> longer[..i] == log;
    }
  }

  function OpsOf(log: seq<Entry>): (ops: seq<Op>)
    ensures |ops| == |log|
  {
    seq(|log|, i requires 0 <= i < |log| => log[i].op)
  }

  /** Refinement of whole runs: whatever the operations, whatever allocations fail, and however buffers
      come to be shared, the handles read what independent plain strings would.  A handle no operation is
      performed on keeps its words, its text and its capacity, though its buffer may have been cloned,
      counted, truncated by a sharer or copied away from meanwhile. */
  method Run(st: Store, ops: seq<Op>) returns (log: seq<Entry>)
    requires st.Valid()
    modifies st
    ensures st.Valid() && OpsOf(log) == ops
    ensures Believable(st.t, old(Seen(st)), log)
    ensures Seen(st) == Replay(st.t, old(Seen(st)), log)
    ensures st.refused > old(st.refused) <==> exists i :: 0 <= i < |log| && log[i].refused
    ensures forall id | id in old(st.handles) && Untargeted(ops, id) ::
              && id in st.handles && st.handles[id] == old(st.handles[id])
              && SameView(st.t, old(st.blocks), st.blocks, old(st.handles[id]))
              && Seen(st)[id] == old(Seen(st))[id]
  {
    hide WF, Ok, ViewOf, Plausible, Apply, Believable, Replay, Frame, SameView;
    ghost var v, s := Seen(st), st.Now();
    ghost var aimed: set<nat> := {};
    log := [];
    EmptyLog(st.t, v);
    Unmoved(st.t, s);
    for n := 0 to |ops|
      invariant st.Valid() && |log| == n && (forall i | 0 <= i < n :: log[i].op == ops[i])
      invariant Believable(st.t, v, log) && Seen(st) == Replay(st.t, v, log)
      invariant st.refused >= old(st.refused)
      invariant st.refused > old(st.refused) <==> exists i :: 0 <= i < |log| && log[i].refused
      invariant Frame(st.t, s, st.Now(), aimed)
      invariant forall id | id in aimed :: exists i :: 0 <= i < n && Targets(ops[i], id)
    {
      ghost var s1 := st.Now();
      var entry := Perform(st, ops[n]);
      ReplaySnoc(st.t, v, log, entry);
      FrameJoin(st.t, s, s1, st.Now(), aimed, Aimed(ops[n]));
      OneRefusedMore(log, entry);
      log, aimed := log + [entry], aimed + Aimed(ops[n]);
    }
    forall id | id in s.handles && Untargeted(ops, id)
      ensures id in st.handles && st.handles[id] == s.handles[id]
      ensures SameView(st.t, s.blocks, st.blocks, s.handles[id]) && Seen(st)[id] == v[id]
    {
      assert id !in aimed;
      FrameAt(st.t, s, st.Now(), aimed, id);
      ViewKept(st.t, s, st.Now(), aimed);
    }
  }

  predicate Untargeted(ops: seq<Op>, id: nat) { forall i | 0 <= i < |ops| :: !Targets(ops[i], id) }

  lemma FrameAt(t: Target, s: State, s': State, except: set<nat>, id: nat)
    requires Frame(t, s, s', except) && id in s.handles && id !in except
    ensures id in s'.handles && s'.handles[id] == s.handles[id] && SameView(t, s.blocks, s'.blocks, s.handles[id])
  {
    hide SameView;
  }

  lemma FrameJoin(t: Target, s: State, s1: State, s2: State, a: set<nat>, b: set<nat>)
    requires Frame(t, s, s1, a) && Frame(t, s1, s2, b)
    ensures Frame(t, s, s2, a + b)
  {
    hide SameView;
    Weaken(t, s, s1, a, a + b);
    Weaken(t, s1, s2, b, a + b);
    FrameStep(t, s, s1, s2, a + b);
  }

  lemma OneRefusedMore(log: seq<Entry>, entry: Entry)
    ensures (exists i :: 0 <= i < |log + [entry]| && (log + [entry])[i].refused)
       <==> (exists i :: 0 <= i < |log| && log[i].refused) || entry.refused
  {
    var longer := log + [entry];
    if exists i :: 0 <= i < |log| && log[i].refused {
      var i :| 0 <= i < |log| && log[i].refused;
      assert longer[i].refused;
    }
    if entry.refused { assert longer[|log|].refused; }
  }

  lemma EmptyLog(t: Target, v: View)
    requires AllValid(v)
    ensures Believable(t, v, []) && Replay(t, v, []) == v
  {
  }

  /** Operations on other handles never show, even on clones that share the allocation. */
  lemma {:induction false} OthersNeverShow(t: Target, v: View, log: seq<Entry>, id: nat)
    requires AllValid(v) && Believable(t, v, log) && id in v
    requires forall i | 0 <= i < |log| :: !Targets(log[i].op, id)
    ensures id in Replay(t, v, log) && Replay(t, v, log)[id] == v[id]
  {
    hide Plausible, Apply, Targets, Believable, Replay;
    if log == [] {
      EmptyLog(t, v);
    } else {
      var front, last := log[..|log| - 1], log[|log| - 1];
      LastStep(t, v, log);
      OthersNeverShow(t, v, front, id);
      StepHidden(t, Replay(t, v, front), last, id);
    }
  }

  lemma LastStep(t: Target, v: View, log: seq<Entry>)
    requires AllValid(v) && Believable(t, v, log) && log != []
    ensures var front, last := log[..|log| - 1], log[|log| - 1];
            && Believable(t, v, front) && Plausible(t, Replay(t, v, front), last)
            && Replay(t, v, log) == Apply(t, Replay(t, v, front), last)
  {
    hide Plausible, Apply;
    var front := log[..|log| - 1];
    forall i | 0 <= i < |front| ensures Plausible(t, Replay(t, v, front[..i]), front[i]) {
      assert front[..i] == log[..i];
    }
  }

  lemma StepHidden(t: Target, v: View, entry: Entry, id: nat)
    requires AllValid(v) && Plausible(t, v, entry) && id in v && !Targets(entry.op, id)
    ensures id in Apply(t, v, entry) && Apply(t, v, entry)[id] == v[id]
  {
    hide Edits, Utf8.IsBoundary, Typed, MapText, AsciiMapAll, Repeated;
  }

  /** Drops every handle: nothing is left allocated, and every allocation was freed exactly once. */
  method Shutdown(st: Store)
    requires st.Valid()
    modifies st
    ensures st.Valid() && st.handles == map[] && st.blocks == map[]
    ensures forall b: nat :: b in st.freed <==> b < st.next
  {
    hide WF, Frame, Shape, Ok, Text, Capacity, Owners;
    while st.handles != map[]
      invariant st.Valid()
      decreases |st.handles|
    {
      var id :| id in st.handles;
      st.Drop(id);
    }
    AllGone(st);
  }

  lemma AllGone(st: Store)
    requires st.Valid() && st.handles == map[]
    ensures st.blocks == map[]
  {
    hide Shapes, Agreement, Counts, Owners;
    NoHandlesNoBlocks(st.t, st.Now());
  }
}
