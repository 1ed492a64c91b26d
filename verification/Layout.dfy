/** Sizes and limits of heap allocations: `TextLen`, `Capacity`, and the layout arithmetic of
    `HeapBuffer`, with the machine-word checks written out. */
module Layout {
  import opened Bytes

  /** `Growable` buffers belong to `LeanString`, `Exact` ones to `LeanStr`. */
  datatype Kind = Growable | Exact

  /** Where a heap handle finds its length: in its own second word, or in the word in front of the
      header (32-bit only). */
  datatype TextLen = InHandle(n: nat) | OnHeap

  /** Longest text whose length fits in a handle. */
  function MaxLen(t: Target): nat { if t.Bits32? then 0xFF_FFFE else 0xFF_FFFF_FFFF_FFFF }

  /** `Capacity::MAX`. */
  function CapMax(t: Target): nat { if t.Bits32? then t.IsizeMax() else MaxLen(t) }

  /** `StaticBuffer::MAX_LENGTH`. */
  function StaticMax(t: Target): nat { if t.Bits32? then 0xFF_FFFF else 0xFF_FFFF_FFFF_FFFF }

  /** Static lengths are all those that leave the byte for the marker free. */
  lemma StaticMaxIs(t: Target, n: nat)
    ensures n <= StaticMax(t) <==> n < Pow(256, t.W() - 1)
  {
    assert Pow(256, 3) == 0x100_0000 && Pow(256, 7) == 0x100_0000_0000_0000;
  }

  /** So are the lengths in heap handles, but for the one that means "in the allocation" on 32-bit
      targets. */
  lemma MaxLenIs(t: Target, n: nat)
    ensures n <= MaxLen(t) <==> n < Pow(256, t.W() - 1) - (if t.Bits32? then 1 else 0)
  {
    assert Pow(256, 3) == 0x100_0000 && Pow(256, 7) == 0x100_0000_0000_0000;
  }

  function NewTextLen(t: Target, n: nat): Option<TextLen> {
    if n > MaxLen(t) then (if t.Bits32? then Some(OnHeap) else None) else Some(InHandle(n))
  }

  /** `is_len_heap_layout`. */
  predicate LenHeapLayout(t: Target, cap: nat) { t.Bits32? && cap > MaxLen(t) }

  /** A buffer has a length slot exactly if some length it can hold needs one. */
  lemma SlotIffNeeded(t: Target, cap: nat)
    ensures LenHeapLayout(t, cap) <==> exists n: nat :: n <= cap && NewTextLen(t, n) == Some(OnHeap)
  {
    if LenHeapLayout(t, cap) { assert NewTextLen(t, cap) == Some(OnHeap); }
  }

  /** Only 64-bit targets have no way to record some lengths: those from 2^56 on. */
  lemma NewTextLenIs(t: Target, n: nat)
    ensures NewTextLen(t, n).None? <==> t.Bits64? && n >= Pow(256, 7)
    ensures NewTextLen(t, n) == Some(InHandle(n)) <==> n <= MaxLen(t)
  {
    MaxLenIs(t, n);
  }

  function Prefix(t: Target, cap: nat): nat { if LenHeapLayout(t, cap) then t.W() else 0 }

  /** Bytes of header in front of the data: a count, and for growable buffers a capacity. */
  function Header(t: Target, k: Kind): nat { if k.Growable? then 2 * t.W() else t.W() }

  function CheckedAdd(t: Target, a: nat, b: nat): Option<nat> {
    if a + b < t.Radix() then Some(a + b) else None
  }

  function SaturatingAdd(t: Target, a: nat, b: nat): nat {
    if a + b < t.Radix() then a + b else t.Radix() - 1
  }

  /** `Layout::from_size_align` with the alignment of a word: the size rounded up to the alignment
      must not exceed `isize::MAX`. */
  function FromSizeAlign(t: Target, size: nat): Option<nat> {
    if size <= t.IsizeMax() - (t.W() - 1) then Some(size) else None
  }

  /** `HeapBuffer::layout_for`, giving the size of the layout. */
  function LayoutFor(t: Target, k: Kind, cap: nat): Option<nat> {
    match CheckedAdd(t, Header(t, k), cap)
    case None => None
    case Some(size) =>
      match (if LenHeapLayout(t, cap) then CheckedAdd(t, size, t.W()) else Some(size))
      case None => None
      case Some(full) => FromSizeAlign(t, full)
  }

  /** The size `HeapBuffer::realloc` asks for, or `None` where it reports an error. */
  function ReallocSize(t: Target, cap: nat): Option<nat> {
    if t.Bits64? then
      Some((Header(t, Growable) + cap) % t.Radix())
    else
      var size := SaturatingAdd(t, Header(t, Growable), cap);
      var full := if LenHeapLayout(t, cap) then SaturatingAdd(t, size, t.W()) else size;
      if full > t.IsizeMax() + 1 - t.W() then None else Some(full)
  }

  /** Largest capacity a heap buffer of kind `k` can have. */
  function Limit(t: Target, k: Kind): nat {
    if t.Bits64? then 0xFF_FFFF_FFFF_FFFF
    else if k.Growable? then 0x8000_0000 - 16
    else 0x8000_0000 - 12
  }

  /** `layout_for` accepts exactly the capacities up to `Limit`, and then nothing has wrapped. */
  lemma LayoutAccepts(t: Target, k: Kind, cap: nat)
    requires cap <= CapMax(t)
    ensures LayoutFor(t, k, cap).Some? <==> cap <= Limit(t, k)
    ensures LayoutFor(t, k, cap).Some? ==> LayoutFor(t, k, cap).value == Prefix(t, cap) + Header(t, k) + cap
  {
  }

  /** The hand-written limit of `realloc` and the checked arithmetic of `layout_for` agree. */
  lemma ReallocAgreesWithLayout(t: Target, cap: nat)
    requires cap <= CapMax(t)
    ensures ReallocSize(t, cap) == LayoutFor(t, Growable, cap)
  {
  }

  /** Whether the exact form of a length can always be laid out where the growable one can, and the
      few 32-bit lengths for which only the exact form exists. */
  lemma ExactFitsWhereGrowableDoes(t: Target, cap: nat)
    requires cap <= CapMax(t) && LayoutFor(t, Exact, cap).Some?
    ensures LayoutFor(t, Growable, cap).Some? <==> !(t.Bits32? && cap > 0x8000_0000 - 16)
  {
  }

  /** The capacity `grow_amortized` asks for. */
  function GrowCap(t: Target, len: nat, additional: nat): (c: nat)
    ensures c >= len + additional
  {
    var required := len + additional;
    if required <= t.Inline() then required
    else if required < len + len / 2 then len + len / 2 else required
  }

  /** What fits inline asks for no more; otherwise it is the least capacity that is enough and, up to rounding
      down, at least half as much again as the length. */
  lemma GrowCapIs(t: Target, len: nat, additional: nat, c: nat)
    requires c >= len + additional
    ensures len + additional <= t.Inline() ==> GrowCap(t, len, additional) == len + additional
    ensures len + additional > t.Inline() ==>
              && 2 * GrowCap(t, len, additional) + 1 >= 3 * len
              && (2 * c + 1 >= 3 * len ==> GrowCap(t, len, additional) <= c)
  {
  }

  /** Whether `HeapBuffer::realloc` resizes a buffer, and does not copy its text because the length slot
      comes or goes. */
  predicate Resizes(t: Target, cap: nat, newCap: nat) {
    cap > t.Inline() && LenHeapLayout(t, cap) == LenHeapLayout(t, newCap)
  }

  /** Bytes of data taken along when a modifiable text of `len` bytes goes to another capacity: the whole
      data area as far as it is kept, or the text alone. */
  function DataTaken(t: Target, len: nat, cap: nat, newCap: nat): nat {
    if Resizes(t, cap, newCap) then (if cap < newCap then cap else newCap) else len
  }

  /** Bytes of header and length slot taken along with them. */
  function HeaderTaken(t: Target, cap: nat, newCap: nat): nat {
    if Resizes(t, cap, newCap) then Header(t, Growable) + Prefix(t, cap) else 0
  }

  /** What a buffer made for `n` bytes holds: at least what fits inline. */
  function RoomFor(t: Target, n: nat): nat { if n <= t.Inline() then t.Inline() else n }
}
