/**
  The pixel-buffer allocator of the Kotlin view layer: one shared `IntArray`
  of five screens' worth of pixels, handed out as `[offset, endOffset)`
  slices to `IntBitmap`s. The allocator keeps the live and dead bitmaps in
  an ordered list and places a new slice either after the last one or,
  wrapping around, before the first one.
 */
module IntBitmaps {

  /** A screen size, as `geom.Dimension`. */
  datatype Dimension = Dimension(width: int, height: int)

  class IntBitmap {
    const width: int
    const height: int
    const offset: int
    const cache: Cache
    /** One past the last slot of the shared array this bitmap occupies. */
    const endOffset: int := offset + width * height
    var isDead: bool

    constructor (width: int, height: int, offset: int, cache: Cache)
      ensures this.width == width && this.height == height
      ensures this.offset == offset && this.cache == cache
      ensures !isDead
    {
      this.width := width;
      this.height := height;
      this.offset := offset;
      this.cache := cache;
      isDead := false;
    }

    /** Number of pixels: exactly the length of the slice. */
    function IntCounts(): (n: int)
      ensures offset + n == endOffset
    {
      width * height
    }

    /** Marks the slice as reclaimable; nothing else about the bitmap changes. */
    method Destroy()
      modifies this`isDead
      ensures isDead
    {
      isDead := true;
    }
  }

  /**
    The allocation invariant: no slice is reversed, every slice lies inside
    `[0, totalSize)`, and the list is ordered by offset with no two slices
    overlapping.
   */
  ghost predicate Packed(intervals: seq<IntBitmap>, totalSize: int) {
    && (forall i :: 0 <= i < |intervals| ==>
          0 <= intervals[i].offset <= intervals[i].endOffset < totalSize)
    && (forall i, j :: 0 <= i < j < |intervals| ==> intervals[i].endOffset <= intervals[j].offset)
  }

  /** `(1.1 * screenDim).toInt()`, truncating toward zero. */
  function ScreenCap(screenDim: int): (c: int)
    ensures 0 <= screenDim ==> screenDim <= c && 10 * c <= 11 * screenDim < 10 * (c + 1)
    ensures screenDim < 0 ==> c <= screenDim && 11 * screenDim <= 10 * c < 11 * screenDim + 10
  {
    if screenDim >= 0 then 11 * screenDim / 10 else -(11 * -screenDim / 10)
  }

  /** The requested dimension, capped at 1.1 times the screen's. */
  function CalcDim(request: int, screenDim: int): (d: int)
    ensures d <= request && d <= ScreenCap(screenDim)
    ensures d == request || d == ScreenCap(screenDim)
  {
    if request <= ScreenCap(screenDim) then request else ScreenCap(screenDim)
  }

  /**
    `findFreeOffset`: the end of the last slice if `needBytes` more fit
    strictly below `totalSize`, else the spot just below the first slice if
    it fits strictly above 0, else -1. The result always lies after every
    slice or before every slice.
   */
  function FreeOffset(intervals: seq<IntBitmap>, totalSize: int, needBytes: int): (o: int)
    ensures o != -1 && intervals != [] ==>
      o >= intervals[|intervals| - 1].endOffset || o + needBytes <= intervals[0].offset
    ensures Packed(intervals, totalSize) && 0 <= needBytes && o != -1 ==>
      && 0 <= o && o + needBytes < totalSize
      && forall i :: 0 <= i < |intervals| ==>
           intervals[i].endOffset <= o || o + needBytes <= intervals[i].offset
  {
    var firstFreeAtEnd := if intervals == [] then 0 else intervals[|intervals| - 1].endOffset;
    var firstOccupied := if intervals == [] then 0 else intervals[0].offset;
    if firstFreeAtEnd + needBytes < totalSize then firstFreeAtEnd
    else if needBytes < firstOccupied then firstOccupied - needBytes
    else -1
  }

  /**
    `r` is `s` with some elements deleted: matching from the back, each
    element of `r` is found in `s` in the same order.
   */
  ghost predicate Subsequence<T>(r: seq<T>, s: seq<T>)
    decreases |s|
  {
    if r == [] then true
    else if s == [] then false
    else if r[|r| - 1] == s[|s| - 1] then Subsequence(r[..|r| - 1], s[..|s| - 1])
    else Subsequence(r, s[..|s| - 1])
  }

  /** The bitmaps of `s` that are not dead, in their original order. */
  function Live(s: seq<IntBitmap>): (r: seq<IntBitmap>)
    reads s
    ensures |r| <= |s|
    ensures Subsequence(r, s)
    ensures forall b :: b in r ==> b in s && !b.isDead
    ensures forall b :: b in s && !b.isDead ==> b in r
  {
    if s == [] then []
    else
      var init, last := s[..|s| - 1], s[|s| - 1];
      var kept := Live(init);
      if last.isDead then
        assert kept != [] ==> kept[|kept| - 1] in kept;
        kept
      else
        assert (kept + [last])[..|kept|] == kept;
        kept + [last]
  }

  /** Dropping dead slices keeps the list ordered and disjoint. */
  lemma {:induction false} LivePacked(s: seq<IntBitmap>, totalSize: int)
    requires Packed(s, totalSize)
    ensures Packed(Live(s), totalSize)
  {
    if s != [] {
      var init, last := s[..|s| - 1], s[|s| - 1];
      LivePacked(init, totalSize);
      var kept := Live(init);
      if last.isDead {
        assert Live(s) == kept;
      } else {
        forall b | b in kept
          ensures b.endOffset <= last.offset
        {
          var k :| 0 <= k < |init| && init[k] == b;
          assert s[k] == b;
        }
        var r := kept + [last];
        assert Live(s) == r;
        forall i, j | 0 <= i < j < |r|
          ensures r[i].endOffset <= r[j].offset
        {
          if j == |r| - 1 {
            assert r[i] in kept;
          } else {
            assert r[i] == kept[i] && r[j] == kept[j];
          }
        }
      }
    }
  }

  /** Where `createBitmap` inserts a new slice: in front if it lies below the first one. */
  function Placed(intervals: seq<IntBitmap>, b: IntBitmap): (r: seq<IntBitmap>)
    ensures multiset(r) == multiset(intervals) + multiset{b}
    ensures r == [b] + intervals || r == intervals + [b]
  {
    var firstOffset := if intervals == [] then 0 else intervals[0].offset;
    if firstOffset > b.offset then [b] + intervals else intervals + [b]
  }

  /** A slice found by `FreeOffset` and put in by `Placed` keeps the list packed. */
  lemma PlacedPacked(intervals: seq<IntBitmap>, totalSize: int, b: IntBitmap)
    requires Packed(intervals, totalSize)
    requires 0 <= b.IntCounts()
    requires b.offset == FreeOffset(intervals, totalSize, b.IntCounts()) && b.offset != -1
    ensures Packed(Placed(intervals, b), totalSize)
  {
    var need := b.IntCounts();
    if intervals != [] {
      var first, last := intervals[0], intervals[|intervals| - 1];
      if last.endOffset + need < totalSize {
        assert b.offset == last.endOffset;
        assert first.offset <= last.endOffset;
        assert Placed(intervals, b) == intervals + [b];
      } else {
        assert need < first.offset && b.offset == first.offset - need;
        assert 0 < need by {
          assert last.endOffset < totalSize;
        }
        assert Placed(intervals, b) == [b] + intervals;
      }
    }
  }

  lemma NonNegativeProduct(a: int, b: int)
    requires 0 <= a && 0 <= b
    ensures 0 <= a * b
  {
  }

  datatype Allocation =
    | Allocated(bitmap: IntBitmap)
      /** the `RuntimeException("not enough memory: total memory …")` */
    | NotEnoughMemory(totalMemory: int)

  class Cache {
    const screenSize: Dimension
    const pixels: array<int>
    const totalSize: int := pixels.Length
    var intervals: seq<IntBitmap>

    ghost predicate Valid()
      reads this
    {
      && 0 <= screenSize.width && 0 <= screenSize.height
      && pixels.Length == screenSize.width * screenSize.height * 5
      && Packed(intervals, totalSize)
      && forall b :: b in intervals ==> b.cache == this
    }

    /** The private constructor, reached through `CacheCompanion.Create`. */
    constructor (screenSize: Dimension)
      requires 0 <= screenSize.width && 0 <= screenSize.height
      ensures Valid() && intervals == [] && fresh(pixels)
      ensures this.screenSize == screenSize
    {
      this.screenSize := screenSize;
      pixels := new int[screenSize.width * screenSize.height * 5];
      intervals := [];
    }

    /** The sweep of `createBitmap`: removes every dead slice, keeping the order of the rest. */
    method RemoveDead()
      requires Valid()
      modifies this
      ensures Valid()
      ensures intervals == old(Live(intervals))
    {
      var kept: seq<IntBitmap> := [];
      var i := 0;
      while i < |intervals|
        invariant 0 <= i <= |intervals|
        invariant kept == Live(intervals[..i])
      {
        assert intervals[..i + 1][..i] == intervals[..i];
        if !intervals[i].isDead {
          kept := kept + [intervals[i]];
        }
        i := i + 1;
      }
      assert intervals[..i] == intervals;
      LivePacked(intervals, totalSize);
      intervals := kept;
    }

    /**
      Allocates a slice for a bitmap of the requested size (capped by the
      screen). Dead slices are swept only when the first search fails; if the
      second search fails too, the allocation fails.
     */
    method CreateBitmap(requestWidth: int, requestHeight: int) returns (r: Allocation)
      requires Valid()
      requires 0 <= requestWidth && 0 <= requestHeight
      modifies this
      ensures Valid()
      ensures
        var width := CalcDim(requestWidth, screenSize.width);
        var height := CalcDim(requestHeight, screenSize.height);
        var first := FreeOffset(old(intervals), totalSize, height * width);
        var swept := if first == -1 then old(Live(intervals)) else old(intervals);
        var offset := if first == -1 then FreeOffset(swept, totalSize, height * width) else first;
        if offset == -1 then
          r == NotEnoughMemory(pixels.Length) && intervals == swept
        else
          && r.Allocated? && fresh(r.bitmap) && !r.bitmap.isDead && r.bitmap.cache == this
          && r.bitmap.width == width && r.bitmap.height == height && r.bitmap.offset == offset
          && intervals == Placed(swept, r.bitmap)
      ensures r.Allocated? ==> 0 <= r.bitmap.offset && r.bitmap.endOffset <= pixels.Length
    {
      var width := CalcDim(requestWidth, screenSize.width);
      var height := CalcDim(requestHeight, screenSize.height);
      var need := height * width;
      assert 0 <= need by {
        NonNegativeProduct(height, width);
      }
      var offset := FreeOffset(intervals, totalSize, need);
      if offset == -1 {
        RemoveDead();
        offset := FreeOffset(intervals, totalSize, need);
      }
      if offset == -1 {
        return NotEnoughMemory(pixels.Length);
      }
      var bitmap := new IntBitmap(width, height, offset, this);
      assert bitmap.IntCounts() == need;
      PlacedPacked(intervals, totalSize, bitmap);
      var firstOffset := if intervals == [] then 0 else intervals[0].offset;
      // intervals.add(insertIndex, bitmap), with insertIndex either 0 or the list's size
      if firstOffset > offset {
        intervals := [bitmap] + intervals;
      } else {
        intervals := intervals + [bitmap];
      }
      return Allocated(bitmap);
    }
  }

  /** The lazily created, process-wide `Cache` of the companion object. */
  class CacheCompanion {
    var cache: Cache?

    constructor ()
      ensures cache == null
    {
      cache := null;
    }

    /** The first call fixes the screen size; later calls return the same cache. */
    method Create(dim: Dimension) returns (c: Cache)
      requires cache == null ==> 0 <= dim.width && 0 <= dim.height
      modifies this
      ensures cache == c
      ensures old(cache) != null ==> c == old(cache)
      ensures old(cache) == null ==> fresh(c) && c.Valid() && c.intervals == [] && c.screenSize == dim
    {
      if cache == null {
        cache := new Cache(dim);
      }
      c := cache;
    }
  }
}
