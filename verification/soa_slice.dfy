/**
  `Slice`: a window into an array given by a 32-bit start offset and a 16-bit
  length, and the iterator over the indices it covers.

  Rust's debug-build overflow checks and slice bounds checks panic; here they
  are preconditions. `usize` is taken to be 64 bits wide.
 */
module SoaSlice {
  import opened Common

  newtype u16 = x: int | 0 <= x < 0x1_0000
  newtype u32 = x: int | 0 <= x < 0x1_0000_0000
  newtype usize = x: int | 0 <= x < 0x1_0000_0000_0000_0000

  const U32_MAX: int := 0xFFFF_FFFF

  /** An index into the array a slice points into. */
  datatype Index = Index(index: u32)

  /** A half-open range `lo..hi` of positions. */
  datatype Range = Range(lo: usize, hi: usize)

  datatype Slice = Slice(start: u32, length: u16)

  /** The slice `empty()` makes. */
  function Empty(): (s: Slice)
    ensures s.start == 0 && s.length == 0
    ensures IsEmpty(s)
  {
    Slice(0, 0)
  }

  /** `Default` is the empty slice. */
  function Default(): (s: Slice)
    ensures s.start == 0 && s.length == 0 && IsEmpty(s)
  {
    Empty()
  }

  /** `new`: the window of `length` positions from `start`. */
  function New(start: u32, length: u16): (s: Slice)
    ensures Indices(s).lo as int == start as int
    ensures Indices(s).hi as int == start as int + length as int
    ensures IsEmpty(s) <==> length == 0
  {
    Slice(start, length)
  }

  /** `indices()`: the positions `start .. start + length` (no overflow in 64 bits). */
  function Indices(s: Slice): (r: Range)
    ensures r.lo as int == s.start as int
    ensures r.hi as int - r.lo as int == Len(s) as int
  {
    Range(s.start as usize, s.start as usize + s.length as usize)
  }

  function Len(s: Slice): (n: usize)
    ensures n as int == s.length as int
  {
    s.length as usize
  }

  /** `is_empty()`: the slice covers no position. */
  function IsEmpty(s: Slice): (r: bool)
    ensures r <==> s.length == 0
  {
    Len(s) == 0
  }

  lemma IsEmptyMeansNoIndices(s: Slice)
    ensures IsEmpty(s) <==> s.length == 0
    ensures IsEmpty(s) <==> Indices(s).lo == Indices(s).hi
  {
  }

  /** `at_start`: the first index of the window, the same as `at(0)`. */
  function AtStart(s: Slice): (r: Index)
    ensures r.index as int == Indices(s).lo as int
    ensures r == At(s, 0)
  {
    Index(s.start)
  }

  /** `i as u32`: keeps the low 32 bits. */
  function TruncateToU32(i: usize): (r: u32)
    ensures i as int < 0x1_0000_0000 ==> r as int == i as int
  {
    (i as int % 0x1_0000_0000) as u32
  }

  /** `start + i as u32` must not overflow. */
  predicate AtInRange(s: Slice, i: usize) {
    s.start as int + TruncateToU32(i) as int <= U32_MAX
  }

  /** `at(i)`: the index `start + i`, with `i` first truncated to 32 bits. */
  function At(s: Slice, i: usize): (r: Index)
    requires AtInRange(s, i)
    ensures i as int < 0x1_0000_0000 ==> r.index as int == s.start as int + i as int
    ensures r.index as int == s.start as int + i as int % 0x1_0000_0000
  {
    Index(s.start + TruncateToU32(i))
  }

  /** `advance(amount)`: moves the window right; `start += amount` must not overflow. */
  function Advance(s: Slice, amount: u32): (r: Slice)
    requires s.start as int + amount as int <= U32_MAX
    ensures r.start as int == s.start as int + amount as int
    ensures r.length == s.length
    ensures Indices(r).lo as int == Indices(s).lo as int + amount as int
    ensures Indices(r).hi as int == Indices(s).hi as int + amount as int
  {
    s.(start := s.start + amount)
  }

  /** `get_slice`: the elements the window covers; indexing out of bounds panics. */
  function GetSlice<T>(s: Slice, xs: seq<T>): (r: seq<T>)
    requires s.start as int + s.length as int <= |xs|
    ensures |r| == Len(s) as int
    ensures forall i :: 0 <= i < |r| ==> r[i] == xs[s.start as int + i]
    ensures EndFits(s) ==> forall i :: 0 <= i < |r| ==> r[i] == xs[At(s, i as usize).index as int]
  {
    xs[s.start..s.start as int + s.length as int]
  }

  /** `SliceIterator`: the slice and the next index it will yield. */
  datatype SliceIterator = SliceIterator(slice: Slice, current: u32)

  function IntoIter(s: Slice): (it: SliceIterator)
    ensures it.slice == s && it.current == s.start
  {
    SliceIterator(s, s.start)
  }

  /** The end bound `start + length as u32` that `next` computes; it must fit in 32 bits. */
  predicate EndFits(s: Slice) {
    s.start as int + s.length as int <= U32_MAX
  }

  function End(s: Slice): (e: u32)
    requires EndFits(s)
    ensures e as int == s.start as int + s.length as int
  {
    s.start + s.length as u32
  }

  /** `next`: yields `current` and steps past it, until `current` reaches the end. */
  function Next(it: SliceIterator): (r: (Option<Index>, SliceIterator))
    requires EndFits(it.slice)
    ensures r.1.slice == it.slice
    ensures r.0.Some? <==> it.current < End(it.slice)
    ensures r.0.Some? ==> r.0.value.index == it.current && r.1.current as int == it.current as int + 1
    ensures r.0.None? ==> r.1 == it
  {
    if it.current < End(it.slice) then (Some(Index(it.current)), it.(current := it.current + 1))
    else (None, it)
  }

  /** `size_hint`: `end - current` both ways; the subtraction must not underflow. */
  function SizeHint(it: SliceIterator): (r: (usize, Option<usize>))
    requires EndFits(it.slice) && it.current <= End(it.slice)
    ensures r.1 == Some(r.0)
  {
    var remaining := (End(it.slice) - it.current) as usize;
    (remaining, Some(remaining))
  }

  /** Everything the iterator yields from its current state on. */
  function Remaining(it: SliceIterator): seq<Index>
    requires EndFits(it.slice)
    decreases End(it.slice) as int - it.current as int
  {
    var (r, rest) := Next(it);
    if r.None? then [] else [r.value] + Remaining(rest)
  }

  /** From `current`, the iterator yields `current, current + 1, …` up to the end. */
  lemma {:induction false} RemainingIsConsecutive(it: SliceIterator)
    requires EndFits(it.slice)
    ensures var n := if it.current < End(it.slice) then End(it.slice) as int - it.current as int else 0;
      && |Remaining(it)| == n
      && forall k :: 0 <= k < n ==> Remaining(it)[k].index as int == it.current as int + k
    decreases End(it.slice) as int - it.current as int
  {
    var (r, rest) := Next(it);
    if r.Some? {
      RemainingIsConsecutive(rest);
    }
  }

  /** A whole slice yields `start, start + 1, …` — exactly `length` indices, the same as `at`. */
  lemma IterationYieldsTheSlice(s: Slice)
    requires EndFits(s)
    ensures |Remaining(IntoIter(s))| == s.length as int
    ensures forall i :: 0 <= i < s.length as int ==>
      Remaining(IntoIter(s))[i].index as int == s.start as int + i
    ensures forall i :: 0 <= i < s.length as int ==>
      Remaining(IntoIter(s))[i] == At(s, i as usize)
  {
    RemainingIsConsecutive(IntoIter(s));
  }

  /** `size_hint` is exact: it counts what `next` will still yield. */
  lemma SizeHintIsExact(it: SliceIterator)
    requires EndFits(it.slice) && it.current <= End(it.slice)
    ensures SizeHint(it).0 as int == |Remaining(it)|
  {
    RemainingIsConsecutive(it);
  }

  /** Once exhausted, the iterator stays exhausted: `next` returns `None` and changes nothing. */
  lemma ExhaustedStaysExhausted(it: SliceIterator)
    requires EndFits(it.slice)
    requires Next(it).0.None?
    ensures Next(Next(it).1) == (None, it)
    ensures Remaining(it) == []
  {
  }
}
