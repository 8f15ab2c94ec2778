/**
  The background renderer of the viewer: a bounded, least-recently-used
  cache of rendered page tiles keyed by layout position, and the worker loop
  that adopts the latest requested position, renders it (or finds it in the
  cache), hands it to the view, and then renders up to FUTURE_COUNT following
  pages ahead of time.

  Thread synchronisation is not modelled: each public method runs as one
  atomic step, a `wait()` is a step that makes no progress, and the handoff
  to the UI thread is an entry appended to the ghost log `handedOff`.
  `LayoutStrategy.nextPage` is the function `nextPage` given at construction;
  the rotation and the view size that `LayoutStrategy` reports during an
  iteration are the `Geometry` passed to that step; `doc.renderPage` is
  recorded in the ghost log `rendered`.
 */
module RenderThreads {
  import opened Wrappers

  const CACHE_SIZE: nat := 4
  const FUTURE_COUNT: nat := 1

  /** A tile of a page: which page, at what zoom, and which piece of it. */
  datatype LayoutPosition = LayoutPosition(
    pageNumber: int, docZoom: int, offsetX: int, offsetY: int, pieceWidth: int, pieceHeight: int)

  /** What `LayoutStrategy` reports during one loop iteration. */
  datatype Geometry = Geometry(rotation: int, viewWidth: int, viewHeight: int)

  /** A platform bitmap; only its size matters to the cache. */
  class Bitmap {
    const width: int
    const height: int

    constructor (width: int, height: int)
      ensures this.width == width && this.height == height
    {
      this.width := width;
      this.height := height;
    }
  }

  /** A cache entry: a rendered tile and whether it may still be returned as a hit. */
  class CacheInfo {
    const info: LayoutPosition
    var bitmap: Bitmap?
    var valid: bool

    constructor (info: LayoutPosition, bitmap: Bitmap)
      ensures this.info == info && this.bitmap == bitmap && valid
    {
      this.info := info;
      this.bitmap := bitmap;
      valid := true;
    }
  }

  // ---------------------------------------------------------------------
  // Sequences of entries

  ghost predicate Distinct<T>(s: seq<T>) {
    forall i, j :: 0 <= i < j < |s| ==> s[i] != s[j]
  }

  /** Relocation of the element at `i` to the end: the move of a cache hit. */
  function MoveToTail<T>(s: seq<T>, i: nat): (r: seq<T>)
    requires i < |s|
    ensures |r| == |s| && r[|s| - 1] == s[i]
    ensures forall k :: 0 <= k < |s| - 1 ==> r[k] == s[if k < i then k else k + 1]
    ensures multiset(r) == multiset(s)
  {
    assert s == s[..i] + [s[i]] + s[i + 1..];
    s[..i] + s[i + 1..] + [s[i]]
  }

  lemma MoveToTailDistinct<T>(s: seq<T>, i: nat)
    requires i < |s| && Distinct(s)
    ensures Distinct(MoveToTail(s, i))
  {
    var r := MoveToTail(s, i);
    forall a, b | 0 <= a < b < |r|
      ensures r[a] != r[b]
    {
      var sa := if a == |s| - 1 then i else if a < i then a else a + 1;
      var sb := if b == |s| - 1 then i else if b < i then b else b + 1;
      assert r[a] == s[sa] && r[b] == s[sb] && sa != sb;
    }
  }

  lemma DistinctAppend<T>(s: seq<T>, x: T)
    requires Distinct(s) && x !in s
    ensures Distinct(s + [x])
  {
  }

  /** The bitmaps held by a list of entries, in the same order. */
  ghost function BitmapsOf(s: seq<CacheInfo>): (r: seq<Bitmap?>)
    reads s
    ensures |r| == |s| && forall k :: 0 <= k < |s| ==> r[k] == s[k].bitmap
  {
    seq(|s|, k requires 0 <= k < |s| reads s => s[k].bitmap)
  }

  /** An entry that a lookup for `target` may return: an invalidated entry never is, whatever its key. */
  predicate IsHit(e: CacheInfo, target: LayoutPosition)
    reads e
    ensures IsHit(e, target) ==> e.info == target
    ensures !e.valid ==> !IsHit(e, target)
  {
    e.valid && e.info == target
  }

  /** Index of the first hit for `target`, or |s| if there is none. */
  function FirstHit(s: seq<CacheInfo>, target: LayoutPosition): (r: nat)
    reads s
    ensures r <= |s|
    ensures r < |s| ==> IsHit(s[r], target)
    ensures forall k :: 0 <= k < r ==> !IsHit(s[k], target)
  {
    if s == [] then 0
    else if IsHit(s[0], target) then 0
    else 1 + FirstHit(s[1..], target)
  }

  /** Once every entry is invalid, every lookup misses. */
  lemma {:induction false} AllInvalidMisses(s: seq<CacheInfo>, target: LayoutPosition)
    requires forall e :: e in s ==> !e.valid
    ensures FirstHit(s, target) == |s|
  {
    if s != [] {
      assert s[0] in s;
      AllInvalidMisses(s[1..], target);
    }
  }

  /** Whether an evicted bitmap can hold a `width` x `height` tile, turned by 90 degrees when rotated. */
  predicate Reusable(width: int, height: int, bitmap: Bitmap, rotation: int)
    ensures Reusable(width, height, bitmap, rotation) ==>
      {width, height} == {bitmap.width, bitmap.height}
    ensures rotation == 0 ==>
      (Reusable(width, height, bitmap, rotation) <==> width == bitmap.width && height == bitmap.height)
  {
    || (width == bitmap.width && height == bitmap.height)
    || (rotation != 0 && width == bitmap.height && height == bitmap.width)
  }

  // ---------------------------------------------------------------------
  // The control state of the loop

  /** The fields `run()` consults, including its locals `curPos` and `futureIndex`. */
  datatype Control = Control(
    lastEvent: Option<LayoutPosition>,
    currentPosition: Option<LayoutPosition>,
    curPos: Option<LayoutPosition>,
    futureIndex: nat,
    paused: bool,
    stopped: bool)

  /** Holds in every state the loop reaches. */
  predicate ControlOk(c: Control) {
    && (c.currentPosition.Some? ==> c.curPos.Some?)
    && c.futureIndex <= FUTURE_COUNT + 1
  }

  /** What one loop iteration does. */
  datatype Action =
    | Exit
      /** `wait()` and `continue`: nothing happens until the thread is woken */
    | Wait
      /** the tile for `target` is looked up or rendered, and handed to the view if `handOff` */
    | Serve(target: LayoutPosition, handOff: bool)

  datatype Decision = Decision(next: Control, action: Action)

  /** `render(p)`: the request slot is overwritten, never queued. */
  function Request(c: Control, p: LayoutPosition): (r: Control)
    ensures r.lastEvent == Some(p)
    ensures r.(lastEvent := c.lastEvent) == c
  {
    c.(lastEvent := Some(p))
  }

  /** One iteration of the `while (!stopped)` loop, as far as the control state is concerned. */
  function Advance(c: Control, nextPage: LayoutPosition -> LayoutPosition): (d: Decision)
    requires ControlOk(c)
    ensures ControlOk(d.next)
    ensures d.action == Exit <==> c.stopped
    ensures d.action != Exit ==> !d.next.stopped && d.next.paused == c.paused
    ensures c.stopped || c.paused ==> d.next == c
    ensures !c.stopped && c.paused ==> d.action == Wait
    ensures !c.stopped && !c.paused ==> d.next.lastEvent == None
    ensures !c.stopped && !c.paused && c.lastEvent.Some? ==>
      d.action == Serve(c.lastEvent.value, true) && d.next.currentPosition == c.lastEvent
    ensures d.action.Serve? ==>
      && d.next.curPos == Some(d.action.target)
      && 1 <= d.next.futureIndex
      && (d.action.handOff <==> d.next.futureIndex == 1)
    ensures d.action == Wait && !c.paused ==>
      d.next.currentPosition == None || d.next.futureIndex > FUTURE_COUNT
  {
    if c.stopped then Decision(c, Exit)
    else if c.paused then Decision(c, Wait)
    else
      var c1 :=
        if c.lastEvent.Some? then
          c.(currentPosition := c.lastEvent, lastEvent := None, futureIndex := 0, curPos := c.lastEvent)
        else c;
      if c1.currentPosition == None || c1.futureIndex > FUTURE_COUNT then Decision(c1, Wait)
      else
        var target := if c1.futureIndex != 0 then nextPage(c1.curPos.value) else c1.curPos.value;
        Decision(c1.(curPos := Some(target), futureIndex := c1.futureIndex + 1),
                 Serve(target, c1.futureIndex == 0))
  }

  /** `k` applications of `nextPage`. */
  function Ahead(nextPage: LayoutPosition -> LayoutPosition, p: LayoutPosition, k: nat): LayoutPosition {
    if k == 0 then p else nextPage(Ahead(nextPage, p, k - 1))
  }

  /** The actions of `n` iterations with no intervening call from outside. */
  function Trace(c: Control, nextPage: LayoutPosition -> LayoutPosition, n: nat): (r: seq<Action>)
    requires ControlOk(c)
    ensures |r| == n
    decreases n
  {
    if n == 0 then []
    else
      var d := Advance(c, nextPage);
      [d.action] + Trace(d.next, nextPage, n - 1)
  }

  /**
    The speculative phase: once the look-ahead counter is `j` >= 1 and `curPos`
    is `j - 1` pages past the adopted position, the loop serves the following
    pages up to FUTURE_COUNT pages past it, without handing them off, and then
    waits.
   */
  lemma {:induction false} LookAheadFrom(c: Control, nextPage: LayoutPosition -> LayoutPosition, p: LayoutPosition, n: nat)
    requires ControlOk(c) && !c.stopped && !c.paused && c.lastEvent == None
    requires 1 <= c.futureIndex && c.currentPosition.Some?
    requires c.curPos == Some(Ahead(nextPage, p, c.futureIndex - 1))
    ensures forall k :: 0 <= k < n ==>
      Trace(c, nextPage, n)[k] ==
        if c.futureIndex + k <= FUTURE_COUNT then Serve(Ahead(nextPage, p, c.futureIndex + k), false) else Wait
    decreases n
  {
    if n > 0 {
      var d := Advance(c, nextPage);
      if c.futureIndex <= FUTURE_COUNT {
        assert d.action == Serve(Ahead(nextPage, p, c.futureIndex), false);
        LookAheadFrom(d.next, nextPage, p, n - 1);
        assert d.next.futureIndex == c.futureIndex + 1;
      } else {
        assert d.next == c && d.action == Wait;
        LookAheadFrom(c, nextPage, p, n - 1);
      }
      forall k | 0 <= k < n
        ensures Trace(c, nextPage, n)[k] ==
          if c.futureIndex + k <= FUTURE_COUNT then Serve(Ahead(nextPage, p, c.futureIndex + k), false) else Wait
      {
        if k > 0 {
          assert Trace(c, nextPage, n)[k] == Trace(d.next, nextPage, n - 1)[k - 1];
        }
      }
    }
  }

  /**
    Look-ahead bound: after a request for `p` and no further calls, the loop
    serves `p` and hands it off, serves the FUTURE_COUNT pages after `p`
    without handing them off, and then only waits.
   */
  lemma LookAhead(c: Control, nextPage: LayoutPosition -> LayoutPosition, p: LayoutPosition, n: nat)
    requires ControlOk(c) && !c.stopped && !c.paused
    ensures forall k :: 0 <= k < n ==>
      Trace(Request(c, p), nextPage, n)[k] ==
        if k <= FUTURE_COUNT then Serve(Ahead(nextPage, p, k), k == 0) else Wait
  {
    if n > 0 {
      var c0 := Request(c, p);
      var d := Advance(c0, nextPage);
      assert d.next.futureIndex == 1 && d.next.curPos == Some(Ahead(nextPage, p, 0));
      LookAheadFrom(d.next, nextPage, p, n - 1);
      forall k | 0 <= k < n
        ensures Trace(c0, nextPage, n)[k] == if k <= FUTURE_COUNT then Serve(Ahead(nextPage, p, k), k == 0) else Wait
      {
        if k > 0 {
          assert Trace(c0, nextPage, n)[k] == Trace(d.next, nextPage, n - 1)[k - 1];
        }
      }
    }
  }

  /** Coalescing: of two requests made before the loop runs, only the later one is served and handed off. */
  lemma LatestRequestWins(c: Control, nextPage: LayoutPosition -> LayoutPosition, a: LayoutPosition, b: LayoutPosition)
    requires ControlOk(c) && !c.stopped && !c.paused
    ensures Request(Request(c, a), b) == Request(c, b)
    ensures Advance(Request(Request(c, a), b), nextPage).action == Serve(b, true)
  {
  }

  // ---------------------------------------------------------------------
  // The renderer

  class RenderThread {
    /** Oldest entry first; a hit or a fresh render goes to the tail. */
    var cachedBitmaps: seq<CacheInfo>
    var currentPosition: Option<LayoutPosition>
    var lastEvent: Option<LayoutPosition>
    var stopped: bool
    var paused: bool
    /** Locals of `run()` that survive from one iteration to the next. */
    var futureIndex: nat
    var curPos: Option<LayoutPosition>

    const nextPage: LayoutPosition -> LayoutPosition

    /** Positions handed to the view, oldest first. */
    ghost var handedOff: seq<LayoutPosition>
    /** Positions the document was asked to render, oldest first. */
    ghost var rendered: seq<LayoutPosition>

    ghost function Ctl(): Control
      reads this
    {
      Control(lastEvent, currentPosition, curPos, futureIndex, paused, stopped)
    }

    ghost function Entries(): set<CacheInfo>
      reads this`cachedBitmaps
    {
      set e | e in cachedBitmaps
    }

    /** The loop's control fields are consistent and the cache is well formed. */
    ghost predicate Valid()
      reads this, Entries()
    {
      ControlOk(Ctl()) && CacheValid()
    }

    /** At most CACHE_SIZE entries, each in the list once, each owning a bitmap no other entry holds. */
    ghost predicate CacheValid()
      reads this`cachedBitmaps, Entries()
    {
      && |cachedBitmaps| <= CACHE_SIZE
      && Distinct(cachedBitmaps)
      && (forall e :: e in cachedBitmaps ==> e.bitmap != null)
      && Distinct(BitmapsOf(cachedBitmaps))
    }

    constructor (nextPage: LayoutPosition -> LayoutPosition)
      ensures Valid() && this.nextPage == nextPage
      ensures cachedBitmaps == [] && handedOff == [] && rendered == []
      ensures Ctl() == Control(None, None, None, 0, false, false)
    {
      this.nextPage := nextPage;
      cachedBitmaps := [];
      currentPosition, lastEvent, curPos := None, None, None;
      stopped, paused := false, false;
      futureIndex := 0;
      handedOff, rendered := [], [];
    }

    /** Marks every entry invalid; keys, bitmaps, order and length stay. */
    method InvalidateCache()
      requires Valid()
      modifies Entries()
      ensures Valid()
      ensures forall e :: e in cachedBitmaps ==> !e.valid && e.bitmap == old(e.bitmap)
      ensures forall target :: FirstHit(cachedBitmaps, target) == |cachedBitmaps|
    {
      for i := 0 to |cachedBitmaps|
        invariant forall k :: 0 <= k < i ==> !cachedBitmaps[k].valid
        invariant forall e :: e in cachedBitmaps ==> e.bitmap == old(e.bitmap)
      {
        cachedBitmaps[i].valid := false;
      }
      forall target
        ensures FirstHit(cachedBitmaps, target) == |cachedBitmaps|
      {
        AllInvalidMisses(cachedBitmaps, target);
      }
    }

    /** Recycles every cached bitmap, empties the cache and forgets the current position. */
    method CleanCache()
      requires Valid()
      modifies this, Entries()
      ensures Valid()
      ensures cachedBitmaps == [] && currentPosition == None
      ensures forall e :: e in old(cachedBitmaps) ==> e.bitmap == null
      ensures Ctl() == old(Ctl()).(currentPosition := None)
      ensures handedOff == old(handedOff) && rendered == old(rendered)
    {
      var entries := cachedBitmaps;
      for i := 0 to |entries|
        modifies Entries()
        invariant forall k :: 0 <= k < i ==> entries[k].bitmap == null
      {
        entries[i].bitmap := null;
      }
      cachedBitmaps := [];
      currentPosition := None;
    }

    /** Stops the loop for good and releases the cache. */
    method StopRenderer()
      requires Valid()
      modifies this, Entries()
      ensures Valid()
      ensures stopped && cachedBitmaps == [] && currentPosition == None
      ensures forall e :: e in old(cachedBitmaps) ==> e.bitmap == null
      ensures Advance(Ctl(), nextPage).action == Exit
      ensures Ctl() == old(Ctl()).(stopped := true, currentPosition := None)
      ensures handedOff == old(handedOff) && rendered == old(rendered)
    {
      stopped := true;
      CleanCache();
    }

    /** Its body is commented out in the source: pausing has no effect. */
    method OnPause()
      ensures paused == old(paused)
    {
    }

    method OnResume()
      requires Valid()
      modifies this
      ensures Valid()
      ensures Ctl() == old(Ctl()).(paused := false)
      ensures cachedBitmaps == old(cachedBitmaps)
      ensures handedOff == old(handedOff) && rendered == old(rendered)
    {
      paused := false;
    }

    /** Requests `position`; a request still pending is overwritten. */
    method Render(position: LayoutPosition)
      requires Valid()
      modifies this
      ensures Valid()
      ensures Ctl() == Request(old(Ctl()), position)
      ensures cachedBitmaps == old(cachedBitmaps)
      ensures handedOff == old(handedOff) && rendered == old(rendered)
    {
      lastEvent := Some(position);
    }

    /** The search of the cache: the first valid entry whose key equals `target`. */
    method LookUp(target: LayoutPosition) returns (i: nat)
      ensures i <= |cachedBitmaps|
      ensures i < |cachedBitmaps| ==> IsHit(cachedBitmaps[i], target)
      ensures forall k :: 0 <= k < i ==> !IsHit(cachedBitmaps[k], target)
    {
      i := 0;
      while i < |cachedBitmaps|
        invariant i <= |cachedBitmaps|
        invariant forall k :: 0 <= k < i ==> !IsHit(cachedBitmaps[k], target)
      {
        var cacheInfo := cachedBitmaps[i];
        if cacheInfo.valid && cacheInfo.info == target {
          return;
        }
        i := i + 1;
      }
    }

    /**
      Finds the tile for `target` in the cache, or renders it: on a hit the
      entry moves to the tail; on a miss with a full cache the head is
      evicted and its bitmap reused when its size fits, and the new entry is
      appended at the tail.
     */
    method Resolve(target: LayoutPosition, geometry: Geometry) returns (entry: CacheInfo, hit: bool)
      requires Valid()
      modifies this, Entries()
      ensures Valid()
      ensures Ctl() == old(Ctl()) && handedOff == old(handedOff)
      ensures hit <==> old(FirstHit(cachedBitmaps, target)) < old(|cachedBitmaps|)
      ensures |cachedBitmaps| > 0 && entry == cachedBitmaps[|cachedBitmaps| - 1]
      ensures entry.info == target && entry.valid && entry.bitmap != null
      ensures hit ==>
        && cachedBitmaps == MoveToTail(old(cachedBitmaps), old(FirstHit(cachedBitmaps, target)))
        && rendered == old(rendered)
        && forall e :: e in cachedBitmaps ==> e.valid == old(e.valid) && e.bitmap == old(e.bitmap)
      ensures !hit ==>
        var s := old(cachedBitmaps);
        var evicted := |s| >= CACHE_SIZE;
        && rendered == old(rendered) + [target] && fresh(entry)
        && cachedBitmaps == (if evicted then s[1..] else s) + [entry]
        && (forall e :: e in cachedBitmaps && e != entry ==> e.valid == old(e.valid) && e.bitmap == old(e.bitmap))
        && if evicted && Reusable(target.pieceWidth, target.pieceHeight, old(s[0].bitmap), geometry.rotation) then
             entry.bitmap == old(s[0].bitmap)
           else
             && fresh(entry.bitmap)
             && entry.bitmap.width == geometry.viewWidth && entry.bitmap.height == geometry.viewHeight
             && (evicted ==> s[0].bitmap == null)
    {
      var i := LookUp(target);
      ghost var first := FirstHit(cachedBitmaps, target);
      assert i == first;
      if i < |cachedBitmaps| {
        entry := cachedBitmaps[i];
        Relocate(i);
        hit := true;
      } else {
        entry := RenderMiss(target, geometry);
        hit := false;
      }
    }

    /**
      The miss path of `Resolve`: with a full cache the head is evicted and
      its bitmap kept when a tile of the target's size fits it (either way
      round under rotation); otherwise a view-sized bitmap is allocated. The
      rendered entry is valid and goes to the tail.
     */
    method RenderMiss(target: LayoutPosition, geometry: Geometry) returns (entry: CacheInfo)
      requires Valid()
      modifies this, Entries()
      ensures Valid()
      ensures Ctl() == old(Ctl()) && handedOff == old(handedOff)
      ensures rendered == old(rendered) + [target]
      ensures fresh(entry) && entry.info == target && entry.valid && entry.bitmap != null
      ensures
        var s := old(cachedBitmaps);
        var evicted := |s| >= CACHE_SIZE;
        && cachedBitmaps == (if evicted then s[1..] else s) + [entry]
        && (forall e :: e in cachedBitmaps && e != entry ==> e.valid == old(e.valid) && e.bitmap == old(e.bitmap))
        && if evicted && Reusable(target.pieceWidth, target.pieceHeight, old(s[0].bitmap), geometry.rotation) then
             entry.bitmap == old(s[0].bitmap)
           else
             && fresh(entry.bitmap)
             && entry.bitmap.width == geometry.viewWidth && entry.bitmap.height == geometry.viewHeight
             && (evicted ==> s[0].bitmap == null)
    {
      ghost var s := cachedBitmaps;
      var bitmap: Bitmap? := null;
      if |cachedBitmaps| >= CACHE_SIZE {
        bitmap := EvictHead(target, geometry.rotation);
        forall e | e in cachedBitmaps
          ensures e != s[0]
        {
          var k :| 0 <= k < |cachedBitmaps| && cachedBitmaps[k] == e;
          assert s[k + 1] == e;
        }
      }
      assert forall e :: e in cachedBitmaps ==> e.valid == old(e.valid) && e.bitmap == old(e.bitmap);
      entry := AppendRendered(target, geometry, bitmap);
    }

    /**
      Renders `target` into the reused bitmap, or into a fresh view-sized
      one when there is none, and appends the new valid entry.
     */
    method AppendRendered(target: LayoutPosition, geometry: Geometry, reused: Bitmap?) returns (entry: CacheInfo)
      requires Valid() && |cachedBitmaps| < CACHE_SIZE
      requires reused != null ==> reused !in BitmapsOf(cachedBitmaps)
      modifies this
      ensures Valid()
      ensures Ctl() == old(Ctl()) && handedOff == old(handedOff)
      ensures rendered == old(rendered) + [target]
      ensures fresh(entry) && entry.info == target && entry.valid && entry.bitmap != null
      ensures cachedBitmaps == old(cachedBitmaps) + [entry]
      ensures reused != null ==> entry.bitmap == reused
      ensures reused == null ==>
        fresh(entry.bitmap) && entry.bitmap.width == geometry.viewWidth && entry.bitmap.height == geometry.viewHeight
    {
      var bitmap := reused;
      if bitmap == null {
        bitmap := new Bitmap(geometry.viewWidth, geometry.viewHeight);
      }
      entry := new CacheInfo(target, bitmap);
      Append(entry);
      rendered := rendered + [target];
    }

    /** Adds a freshly rendered entry at the tail of a cache that has room for it. */
    method Append(entry: CacheInfo)
      requires Valid() && |cachedBitmaps| < CACHE_SIZE
      requires entry !in cachedBitmaps && entry.bitmap != null && entry.bitmap !in BitmapsOf(cachedBitmaps)
      modifies this
      ensures Valid()
      ensures cachedBitmaps == old(cachedBitmaps) + [entry]
      ensures Ctl() == old(Ctl()) && handedOff == old(handedOff) && rendered == old(rendered)
    {
      assert BitmapsOf(cachedBitmaps + [entry]) == BitmapsOf(cachedBitmaps) + [entry.bitmap];
      DistinctAppend(cachedBitmaps, entry);
      DistinctAppend(BitmapsOf(cachedBitmaps), entry.bitmap);
      cachedBitmaps := cachedBitmaps + [entry];
    }

    /** Moves the hit at `i` to the tail (most recently used). */
    method Relocate(i: nat)
      requires Valid() && i < |cachedBitmaps|
      modifies this
      ensures Valid()
      ensures cachedBitmaps == MoveToTail(old(cachedBitmaps), i)
      ensures Ctl() == old(Ctl()) && handedOff == old(handedOff) && rendered == old(rendered)
    {
      MoveToTailDistinct(cachedBitmaps, i);
      MoveToTailDistinct(BitmapsOf(cachedBitmaps), i);
      assert BitmapsOf(MoveToTail(cachedBitmaps, i)) == MoveToTail(BitmapsOf(cachedBitmaps), i);
      cachedBitmaps := MoveToTail(cachedBitmaps, i);
    }

    /**
      Removes the oldest entry; its bitmap is returned for reuse when a
      `target`-sized tile fits it, and is recycled (null) otherwise.
     */
    method EvictHead(target: LayoutPosition, rotation: int) returns (bitmap: Bitmap?)
      requires Valid() && |cachedBitmaps| > 0
      modifies this, cachedBitmaps[0]
      ensures Valid()
      ensures cachedBitmaps == old(cachedBitmaps[1..])
      ensures old(cachedBitmaps[0]).valid
      ensures
        var head := old(cachedBitmaps[0].bitmap);
        if Reusable(target.pieceWidth, target.pieceHeight, head, rotation) then
          bitmap == head && old(cachedBitmaps[0]).bitmap == head
        else
          bitmap == null && old(cachedBitmaps[0]).bitmap == null
      ensures bitmap != null ==> bitmap !in BitmapsOf(cachedBitmaps)
      ensures Ctl() == old(Ctl()) && handedOff == old(handedOff) && rendered == old(rendered)
    {
      var info := cachedBitmaps[0];
      assert BitmapsOf(cachedBitmaps[1..]) == BitmapsOf(cachedBitmaps)[1..];
      cachedBitmaps := cachedBitmaps[1..];
      info.valid := true;
      if Reusable(target.pieceWidth, target.pieceHeight, info.bitmap, rotation) {
        bitmap := info.bitmap;
      } else {
        info.bitmap := null;
        bitmap := null;
      }
    }

    /**
      Serves one target from the cache and logs it when it is the one the
      caller waits for. A hit only moves the first hit to the tail; a miss
      drops the head of a full cache and appends the rendered entry. The
      entries that stay keep their flags and bitmaps.
     */
    method ServeTarget(target: LayoutPosition, geometry: Geometry, handOff: bool) returns (hit: bool)
      requires Valid()
      modifies this, Entries()
      ensures Valid()
      ensures Ctl() == old(Ctl())
      ensures |cachedBitmaps| > 0
      ensures cachedBitmaps[|cachedBitmaps| - 1].info == target
      ensures cachedBitmaps[|cachedBitmaps| - 1].valid
      ensures handedOff == old(handedOff) + (if handOff then [target] else [])
      ensures hit <==> old(FirstHit(cachedBitmaps, target)) < old(|cachedBitmaps|)
      ensures hit ==>
        && cachedBitmaps == MoveToTail(old(cachedBitmaps), old(FirstHit(cachedBitmaps, target)))
        && rendered == old(rendered)
      ensures !hit ==>
        var s := old(cachedBitmaps);
        && cachedBitmaps == (if |s| >= CACHE_SIZE then s[1..] else s) + [cachedBitmaps[|cachedBitmaps| - 1]]
        && cachedBitmaps[|cachedBitmaps| - 1] !in s
        && rendered == old(rendered) + [target]
      ensures forall e :: e in old(cachedBitmaps) && e in cachedBitmaps ==> e.valid == old(e.valid) && e.bitmap == old(e.bitmap)
    {
      var entry;
      entry, hit := Resolve(target, geometry);
      if handOff {
        handedOff := handedOff + [target];
      }
    }

    /** Takes the pending request as the current position and restarts the look-ahead from it. */
    method Adopt()
      requires Valid() && lastEvent.Some?
      modifies this`currentPosition, this`lastEvent, this`futureIndex, this`curPos
      ensures Valid()
      ensures Ctl() == old(Ctl()).(currentPosition := old(lastEvent), lastEvent := None, futureIndex := 0, curPos := old(lastEvent))
    {
      currentPosition := lastEvent;
      lastEvent := None;
      futureIndex := 0;
      curPos := currentPosition;
    }

    /**
      The productive half of an iteration: with a current position, no
      pending request and look-ahead left, the next target is computed,
      served, and the counter advances.
     */
    method ServeNext(geometry: Geometry) returns (action: Action)
      requires Valid()
      requires !stopped && !paused && lastEvent == None
      requires currentPosition.Some? && futureIndex <= FUTURE_COUNT
      modifies this, Entries()
      ensures Valid()
      ensures action.Serve?
      ensures Decision(Ctl(), action) == Advance(old(Ctl()), nextPage)
      ensures action.Serve? ==>
        && |cachedBitmaps| > 0
        && cachedBitmaps[|cachedBitmaps| - 1].info == action.target
        && cachedBitmaps[|cachedBitmaps| - 1].valid
        && handedOff == old(handedOff) + (if action.handOff then [action.target] else [])
      ensures action.Serve? ==>
        var s := old(cachedBitmaps);
        var i := old(FirstHit(cachedBitmaps, action.target));
        if i < |s| then
          cachedBitmaps == MoveToTail(s, i) && rendered == old(rendered)
        else
          && cachedBitmaps == (if |s| >= CACHE_SIZE then s[1..] else s) + [cachedBitmaps[|cachedBitmaps| - 1]]
          && cachedBitmaps[|cachedBitmaps| - 1] !in s
          && rendered == old(rendered) + [action.target]
      ensures forall e :: e in old(cachedBitmaps) && e in cachedBitmaps ==> e.valid == old(e.valid) && e.bitmap == old(e.bitmap)
    {
      var target := if futureIndex != 0 then nextPage(curPos.value) else curPos.value;
      var handOff := futureIndex == 0;
      var hit := ServeTarget(target, geometry, handOff);
      MarkServed(target);
      action := Serve(target, handOff);
    }

    /** Records `target` as the position last served and counts it. */
    method MarkServed(target: LayoutPosition)
      requires Valid() && futureIndex <= FUTURE_COUNT
      modifies this`curPos, this`futureIndex
      ensures Valid()
      ensures Ctl() == old(Ctl()).(curPos := Some(target), futureIndex := old(futureIndex) + 1)
    {
      curPos := Some(target);
      futureIndex := futureIndex + 1;
    }

    /**
      One iteration of `run()`. The control state moves as `Advance` says; a
      served target ends up valid at the tail of the cache, and it is logged
      as handed off exactly when it is served at counter 0, right after adoption.
     */
    method Step(geometry: Geometry) returns (action: Action)
      requires Valid()
      modifies this, Entries()
      ensures Valid()
      ensures Decision(Ctl(), action) == Advance(old(Ctl()), nextPage)
      ensures !action.Serve? ==>
        && cachedBitmaps == old(cachedBitmaps)
        && handedOff == old(handedOff) && rendered == old(rendered)
      ensures action.Serve? ==>
        && |cachedBitmaps| > 0
        && cachedBitmaps[|cachedBitmaps| - 1].info == action.target
        && cachedBitmaps[|cachedBitmaps| - 1].valid
        && handedOff == old(handedOff) + (if action.handOff then [action.target] else [])
      ensures action.Serve? ==>
        var s := old(cachedBitmaps);
        var i := old(FirstHit(cachedBitmaps, action.target));
        if i < |s| then
          cachedBitmaps == MoveToTail(s, i) && rendered == old(rendered)
        else
          && cachedBitmaps == (if |s| >= CACHE_SIZE then s[1..] else s) + [cachedBitmaps[|cachedBitmaps| - 1]]
          && cachedBitmaps[|cachedBitmaps| - 1] !in s
          && rendered == old(rendered) + [action.target]
      ensures forall e :: e in old(cachedBitmaps) && e in cachedBitmaps ==> e.valid == old(e.valid) && e.bitmap == old(e.bitmap)
    {
      if stopped {
        return Exit;
      }
      if paused {
        return Wait;
      }
      ghost var c0 := Ctl();
      if lastEvent.Some? {
        Adopt();
      }
      assert Advance(Ctl(), nextPage) == Advance(c0, nextPage);
      if currentPosition == None || futureIndex > FUTURE_COUNT {
        return Wait;
      }
      assert cachedBitmaps == old(cachedBitmaps);
      assert forall t :: FirstHit(cachedBitmaps, t) == old(FirstHit(cachedBitmaps, t));
      assert forall e :: e in cachedBitmaps ==> e.valid == old(e.valid) && e.bitmap == old(e.bitmap);
      action := ServeNext(geometry);
    }
  }
}
