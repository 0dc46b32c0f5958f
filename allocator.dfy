/** The boot-time physical frame allocator and the heap bootstrap that
    draws from it.

    The allocator is a forward-only cursor `(nextRegion, currentFrame)`
    over the bootloader's immutable list of memory regions.  Its behaviour
    is given twice: `Next` is one call of `next_usable_frame`, step for
    step, and `AllFrames` lists, region by region, every frame the
    allocator will ever hand out.  `NextConsumesRemaining` ties the two
    together, and the class `BootInfoFrameAllocator` runs the source's
    loop against both. */
module Allocator {
  import opened Base
  import Fmt

  const PAGE_SIZE: nat := 4096
  /** Region kind written by the bootloader for usable memory; every other
      value is treated as reserved. */
  const USABLE: u64 := 1

  const HEAP_START: nat := 0x4444_4444_0000
  const HEAP_SIZE: nat := 1000 * 1024

  datatype MemoryRegion = MemoryRegion(start: u64, end: u64, kind: u64)

  /** `PhysFrame::containing_address` / `Page::containing_address`: the
      start of the 4 KiB frame holding address `a`. */
  function AlignDown(a: nat): nat
  {
    a - a % PAGE_SIZE
  }

  lemma AlignDownIsFrameStart(a: nat)
    ensures AlignDown(a) % PAGE_SIZE == 0
    ensures AlignDown(a) <= a < AlignDown(a) + PAGE_SIZE
  {
  }

  // ---------------------------------------------------------------------
  // The cursor, one call at a time
  // ---------------------------------------------------------------------

  datatype Cursor = Cursor(nextRegion: nat, currentFrame: Option<nat>)

  /** What one call of `next_usable_frame` returns, and the cursor after. */
  datatype Step = Step(frame: Option<nat>, cursor: Cursor)

  /** The cursor states the allocator can be in: an open frame always
      belongs to a usable region that exists, is page-aligned and lies at or
      above the rounded-down start of that region. */
  predicate ValidCursor(rs: seq<MemoryRegion>, c: Cursor)
  {
    && c.nextRegion <= |rs|
    && (c.currentFrame.Some? ==>
          && c.nextRegion < |rs|
          && rs[c.nextRegion].kind == USABLE
          && c.currentFrame.value % PAGE_SIZE == 0
          && AlignDown(rs[c.nextRegion].start) <= c.currentFrame.value)
  }

  /** `BootInfoFrameAllocator::init`. */
  function InitCursor(): (c: Cursor)
    ensures c.nextRegion == 0 && c.currentFrame.None?
    ensures forall rs: seq<MemoryRegion> :: ValidCursor(rs, c)
  {
    Cursor(0, None)
  }

  /** One call of `next_usable_frame`: the whole `loop`, unrolled by
      recursion.  An open frame `f` is handed out only when `f + 4096` is
      still below the region's end, so the last frame of every region is
      never handed out. */
  function Next(rs: seq<MemoryRegion>, c: Cursor): (r: Step)
    requires ValidCursor(rs, c)
    ensures ValidCursor(rs, r.cursor)
    ensures r.cursor.nextRegion >= c.nextRegion
    ensures r.frame.None? ==> r.cursor == Cursor(|rs|, None)
    ensures r.frame.Some? ==>
      && r.frame.value % PAGE_SIZE == 0
      && r.cursor.currentFrame == Some(r.frame.value + PAGE_SIZE)
      && r.frame.value + PAGE_SIZE < rs[r.cursor.nextRegion].end
    decreases |rs| - c.nextRegion, if c.currentFrame.None? then 1 else 0
  {
    match c.currentFrame
    case Some(frame) =>
      var nextStart := frame + PAGE_SIZE;
      if nextStart < rs[c.nextRegion].end then
        Step(Some(frame), Cursor(c.nextRegion, Some(AlignDown(nextStart))))
      else
        Next(rs, Cursor(c.nextRegion + 1, None))
    case None =>
      if c.nextRegion >= |rs| then
        Step(None, c)
      else if rs[c.nextRegion].kind == USABLE then
        Next(rs, Cursor(c.nextRegion, Some(AlignDown(rs[c.nextRegion].start))))
      else
        Next(rs, Cursor(c.nextRegion + 1, None))
  }

  // ---------------------------------------------------------------------
  // Reference definition: every frame still to come
  // ---------------------------------------------------------------------

  /** The frames `f, f + 4096, ...` handed out from an open region ending at
      `end`: each one strictly below the last frame of the region. */
  function FramesFrom(f: nat, end: nat): seq<nat>
    decreases end - f
  {
    if f + PAGE_SIZE < end then [f] + FramesFrom(f + PAGE_SIZE, end) else []
  }

  /** The frames one region contributes: none for a reserved region. */
  function RegionFrames(r: MemoryRegion): seq<nat>
  {
    if r.kind == USABLE then FramesFrom(AlignDown(r.start), r.end) else []
  }

  /** Every frame a freshly initialised allocator hands out, in order. */
  function AllFrames(rs: seq<MemoryRegion>): seq<nat>
  {
    if rs == [] then [] else RegionFrames(rs[0]) + AllFrames(rs[1..])
  }

  /** The frames a cursor has still to hand out. */
  function RemainingFrames(rs: seq<MemoryRegion>, c: Cursor): seq<nat>
    requires ValidCursor(rs, c)
  {
    match c.currentFrame
    case Some(f) => FramesFrom(f, rs[c.nextRegion].end) + AllFrames(rs[c.nextRegion + 1..])
    case None => AllFrames(rs[c.nextRegion..])
  }

  /** A freshly initialised allocator has all of `AllFrames` still to hand
      out, starting with region 0. */
  lemma InitRemaining(rs: seq<MemoryRegion>)
    ensures ValidCursor(rs, InitCursor())
    ensures RemainingFrames(rs, InitCursor()) == AllFrames(rs)
  {
    assert rs[0..] == rs;
  }

  /** What one call does to the frames still to come: it hands out exactly
      the first of them and removes it, or reports exhaustion exactly when
      none is left; the region index never goes back, and an exhausted
      cursor sits past the last region with no open frame. */
  ghost predicate ConsumesFirst(rs: seq<MemoryRegion>, c: Cursor)
    requires ValidCursor(rs, c)
  {
    var s := Next(rs, c);
    && ValidCursor(rs, s.cursor)
    && s.cursor.nextRegion >= c.nextRegion
    && (s.frame.None? <==> RemainingFrames(rs, c) == [])
    && (s.frame.None? ==> s.cursor == Cursor(|rs|, None))
    && (s.frame.Some? ==> RemainingFrames(rs, c) == [s.frame.value] + RemainingFrames(rs, s.cursor))
  }

  /** A cursor that steps, without handing anything out, to a cursor with
      the same call result and the same frames to come inherits its
      behaviour. */
  lemma ConsumesVia(rs: seq<MemoryRegion>, c: Cursor, c': Cursor)
    requires ValidCursor(rs, c) && ValidCursor(rs, c')
    requires c'.nextRegion >= c.nextRegion
    requires Next(rs, c) == Next(rs, c')
    requires RemainingFrames(rs, c) == RemainingFrames(rs, c')
    requires ConsumesFirst(rs, c')
    ensures ConsumesFirst(rs, c)
  {
  }

  /** An open frame that is not the last of its region is handed out, and
      the cursor moves to the frame after it. */
  lemma NextHandsOutOpenFrame(rs: seq<MemoryRegion>, c: Cursor)
    requires ValidCursor(rs, c) && c.currentFrame.Some?
    requires c.currentFrame.value + PAGE_SIZE < rs[c.nextRegion].end
    ensures ConsumesFirst(rs, c)
  {
    var frame := c.currentFrame.value;
    var nextStart := frame + PAGE_SIZE;
    assert AlignDown(nextStart) == nextStart;
    var c' := Cursor(c.nextRegion, Some(nextStart));
    assert Next(rs, c) == Step(Some(frame), c');
    var end, later := rs[c.nextRegion].end, AllFrames(rs[c.nextRegion + 1..]);
    assert RemainingFrames(rs, c) == [frame] + RemainingFrames(rs, c') by {
      assert FramesFrom(frame, end) == [frame] + FramesFrom(nextStart, end);
      assert RemainingFrames(rs, c) == FramesFrom(frame, end) + later;
      assert RemainingFrames(rs, c') == FramesFrom(nextStart, end) + later;
    }
  }

  /** Past the last region the allocator is exhausted. */
  lemma NextPastLastRegion(rs: seq<MemoryRegion>, c: Cursor)
    requires ValidCursor(rs, c) && c.currentFrame.None? && c.nextRegion >= |rs|
    ensures ConsumesFirst(rs, c)
  {
    assert rs[c.nextRegion..] == [];
    assert Next(rs, c) == Step(None, c);
  }

  /** Stepping from region `n` with no open frame to the region's own
      frames (usable) or to region `n + 1` (reserved) keeps the frames to
      come. */
  lemma NextEntersRegion(rs: seq<MemoryRegion>, c: Cursor) returns (c': Cursor)
    requires ValidCursor(rs, c) && c.currentFrame.None? && c.nextRegion < |rs|
    ensures ValidCursor(rs, c') && c'.nextRegion >= c.nextRegion
    ensures Next(rs, c) == Next(rs, c')
    ensures RemainingFrames(rs, c) == RemainingFrames(rs, c')
    ensures c'.nextRegion == c.nextRegion + 1 || (c'.nextRegion == c.nextRegion && c'.currentFrame.Some?)
  {
    var n := c.nextRegion;
    assert rs[n..] == [rs[n]] + rs[n + 1..];
    assert AllFrames(rs[n..]) == RegionFrames(rs[n]) + AllFrames(rs[n + 1..]);
    if rs[n].kind == USABLE {
      AlignDownIsFrameStart(rs[n].start);
      c' := Cursor(n, Some(AlignDown(rs[n].start)));
    } else {
      c' := Cursor(n + 1, None);
    }
  }

  /** Every call of `next_usable_frame`, from every reachable cursor,
      consumes the first frame still to come. */
  lemma {:induction false} NextConsumesRemaining(rs: seq<MemoryRegion>, c: Cursor)
    requires ValidCursor(rs, c)
    ensures ConsumesFirst(rs, c)
    decreases |rs| - c.nextRegion, if c.currentFrame.None? then 1 else 0
  {
    var n := c.nextRegion;
    match c.currentFrame
    case Some(frame) =>
      if frame + PAGE_SIZE < rs[n].end {
        NextHandsOutOpenFrame(rs, c);
      } else {
        var c' := Cursor(n + 1, None);
        assert FramesFrom(frame, rs[n].end) == [];
        NextConsumesRemaining(rs, c');
        ConsumesVia(rs, c, c');
      }
    case None =>
      if n >= |rs| {
        NextPastLastRegion(rs, c);
      } else {
        var c' := NextEntersRegion(rs, c);
        NextConsumesRemaining(rs, c');
        ConsumesVia(rs, c, c');
      }
  }

  /** Once the allocator has reported exhaustion, every later call reports
      it again and leaves the cursor where it is. */
  lemma ExhaustedStaysExhausted(rs: seq<MemoryRegion>, c: Cursor)
    requires ValidCursor(rs, c)
    requires c.nextRegion >= |rs|
    ensures Next(rs, c) == Step(None, c)
  {
  }

  /** A reserved region contributes no frame, wherever it sits in the list. */
  lemma ReservedRegionsYieldNothing(rs: seq<MemoryRegion>, i: nat)
    requires i < |rs| && rs[i].kind != USABLE
    ensures AllFrames(rs) == AllFrames(rs[..i]) + AllFrames(rs[i + 1..])
  {
    var pre, tail, post := rs[..i], rs[i..], rs[i + 1..];
    assert rs == pre + tail;
    AllFramesAppend(pre, tail);
    assert AllFrames(rs) == AllFrames(pre) + AllFrames(tail);
    AllFramesUnfold(tail);
    assert tail[1..] == post;
    assert RegionFrames(tail[0]) == [];
    assert AllFrames(tail) == AllFrames(post);
  }

  lemma AllFramesUnfold(rs: seq<MemoryRegion>)
    requires rs != []
    ensures AllFrames(rs) == RegionFrames(rs[0]) + AllFrames(rs[1..])
  {
  }

  lemma {:induction false} AllFramesAppend(xs: seq<MemoryRegion>, ys: seq<MemoryRegion>)
    ensures AllFrames(xs + ys) == AllFrames(xs) + AllFrames(ys)
  {
    if xs == [] {
      assert xs + ys == ys;
    } else {
      assert (xs + ys)[1..] == xs[1..] + ys;
      AllFramesAppend(xs[1..], ys);
    }
  }

  /** The shape of one open region's frames: `k`-th frame is `f + 4096 k`,
      and there are `(end - f - 1) / 4096` of them, so a region whose end
      is page-aligned loses its final frame. */
  lemma {:induction false} FramesFromShape(f: nat, end: nat)
    ensures |FramesFrom(f, end)| == if f < end then (end - f - 1) / PAGE_SIZE else 0
    ensures forall k :: 0 <= k < |FramesFrom(f, end)| ==> FramesFrom(f, end)[k] == f + PAGE_SIZE * k
    decreases end - f
  {
    if f + PAGE_SIZE < end {
      FramesFromShape(f + PAGE_SIZE, end);
      var rest := FramesFrom(f + PAGE_SIZE, end);
      assert (end - f - 1) / PAGE_SIZE == (end - (f + PAGE_SIZE) - 1) / PAGE_SIZE + 1;
      forall k | 0 <= k < |FramesFrom(f, end)|
        ensures FramesFrom(f, end)[k] == f + PAGE_SIZE * k
      {
        if k > 0 {
          assert FramesFrom(f, end)[k] == rest[k - 1];
        }
      }
    }
  }

  /** A frame belongs to region `r`: the region is usable, the frame is
      page-aligned, starts no lower than the region's rounded-down start
      and is followed by at least one more byte of the region. */
  predicate FrameOf(f: nat, r: MemoryRegion)
  {
    && r.kind == USABLE
    && f % PAGE_SIZE == 0
    && AlignDown(r.start) <= f
    && f + PAGE_SIZE < r.end
  }

  lemma {:induction false} FramesFromBelong(f: nat, r: MemoryRegion, k: nat)
    requires r.kind == USABLE && f % PAGE_SIZE == 0 && AlignDown(r.start) <= f
    requires k < |FramesFrom(f, r.end)|
    ensures FrameOf(FramesFrom(f, r.end)[k], r)
    decreases k
  {
    if k > 0 {
      FramesFromBelong(f + PAGE_SIZE, r, k - 1);
    }
  }

  /** Every frame the allocator hands out belongs to a usable region of
      the list; in particular no frame ever comes from a reserved region,
      and the final frame of a region (the one ending at `end`) is never
      among them. */
  lemma {:induction false} AllFramesBelong(rs: seq<MemoryRegion>, k: nat)
    requires k < |AllFrames(rs)|
    ensures exists i :: 0 <= i < |rs| && FrameOf(AllFrames(rs)[k], rs[i])
  {
    var head := RegionFrames(rs[0]);
    if k < |head| {
      AlignDownIsFrameStart(rs[0].start);
      FramesFromBelong(AlignDown(rs[0].start), rs[0], k);
      assert FrameOf(AllFrames(rs)[k], rs[0]);
    } else {
      AllFramesBelong(rs[1..], k - |head|);
      var i :| 0 <= i < |rs[1..]| && FrameOf(AllFrames(rs[1..])[k - |head|], rs[1..][i]);
      assert FrameOf(AllFrames(rs)[k], rs[i + 1]);
    }
  }

  /** The example of a reserved first page followed by the usable region
      `[0x1000, 0x5000)`: the code hands out three frames, not four. */
  lemma ReservedThenUsableExample()
    ensures AllFrames([MemoryRegion(0, 0x1000, 0), MemoryRegion(0x1000, 0x5000, 1)])
              == [0x1000, 0x2000, 0x3000]
  {
    var rs := [MemoryRegion(0, 0x1000, 0), MemoryRegion(0x1000, 0x5000, 1)];
    assert rs[1..][1..] == [];
    assert FramesFrom(0x4000, 0x5000) == [];
  }

  /** `BootInfoFrameAllocator`: the region list never changes; the cursor
      fields move forward on every call. */
  class BootInfoFrameAllocator {
    const regions: seq<MemoryRegion>
    var nextRegion: nat
    var currentFrame: Option<nat>

    function State(): Cursor
      reads this
    {
      Cursor(nextRegion, currentFrame)
    }

    predicate Valid()
      reads this
    {
      ValidCursor(regions, State())
    }

    /** The frames this allocator has still to hand out. */
    ghost function Remaining(): seq<nat>
      reads this
      requires Valid()
    {
      RemainingFrames(regions, State())
    }

    /** `BootInfoFrameAllocator::init`: the first call starts at region 0
        with no open frame. */
    constructor Init(memoryRegions: seq<MemoryRegion>)
      ensures regions == memoryRegions
      ensures State() == InitCursor()
      ensures Valid() && Remaining() == AllFrames(memoryRegions)
    {
      regions := memoryRegions;
      nextRegion := 0;
      currentFrame := None;
      new;
      InitRemaining(memoryRegions);
    }

    /** `next_usable_frame`: the source's `loop`, which either returns or
        moves the cursor one step forward. */
    method NextUsableFrame() returns (frame: Option<nat>)
      requires Valid()
      modifies this
      ensures Valid()
      ensures Step(frame, State()) == Next(regions, old(State()))
    {
      while true
        invariant Valid()
        invariant Next(regions, State()) == Next(regions, old(State()))
        decreases |regions| - nextRegion, if currentFrame.None? then 1 else 0
      {
        match currentFrame {
          case Some(f) =>
            var nextStart := f + PAGE_SIZE;
            var region := regions[nextRegion];
            if nextStart < region.end {
              currentFrame := Some(AlignDown(nextStart));
              return Some(f);
            } else {
              nextRegion := nextRegion + 1;
              currentFrame := None;
            }
          case None =>
            if nextRegion >= |regions| {
              return None;
            }
            var region := regions[nextRegion];
            if region.kind == USABLE {
              currentFrame := Some(AlignDown(region.start));
            } else {
              nextRegion := nextRegion + 1;
            }
        }
      }
    }

    /** `allocate_frame`: hands out the first frame still to come, or
        reports exhaustion exactly when none is left. */
    method AllocateFrame() returns (frame: Option<nat>)
      requires Valid()
      modifies this
      ensures Valid()
      ensures Step(frame, State()) == Next(regions, old(State()))
      ensures nextRegion >= old(nextRegion)
      ensures frame.None? <==> old(Remaining()) == []
      ensures frame.None? ==> Remaining() == []
      ensures frame.Some? ==> old(Remaining()) == [frame.value] + Remaining()
    {
      NextConsumesRemaining(regions, State());
      frame := NextUsableFrame();
      assert frame.None? ==> State() == Cursor(|regions|, None) && regions[|regions|..] == [];
    }
  }

  // ---------------------------------------------------------------------
  // Heap bootstrap
  // ---------------------------------------------------------------------

  /** The failures `Mapper::map_to` reports (`MapToError`). */
  datatype MapToError = FrameAllocationFailed | ParentEntryHugePage | PageAlreadyMapped(frame: nat)

  /** How `init_heap` ends: `Ok(())`, `Err(e)` from the first failing
      `map_to`, or the panic "No more frames!". */
  datatype InitHeapOutcome = HeapOk | MapErr(error: MapToError) | NoMoreFrames

  datatype Mapping = Mapping(page: nat, frame: nat)

  /** The result of the page loop: how it ended, the mappings installed,
      and how many frames it drew from the frame allocator. */
  datatype Bootstrap = Bootstrap(outcome: InitHeapOutcome, mapped: seq<Mapping>, drawn: nat)

  /** `Page::range_inclusive(first, last)`: the page starts from `first` to
      `last`, both included. */
  function PageRangeInclusive(first: nat, last: nat): seq<nat>
    requires first % PAGE_SIZE == 0 && last % PAGE_SIZE == 0
  {
    if first > last then [] else seq((last - first) / PAGE_SIZE + 1, i => first + PAGE_SIZE * i)
  }

  /** The pages of `[HEAP_START, HEAP_START + HEAP_SIZE - 1]`. */
  function HeapPages(): (pages: seq<nat>)
    ensures |pages| == 250
    ensures forall i :: 0 <= i < |pages| ==> pages[i] == HEAP_START + PAGE_SIZE * i
    ensures pages[0] == HEAP_START && pages[|pages| - 1] + PAGE_SIZE == HEAP_START + HEAP_SIZE
  {
    PageRangeInclusive(AlignDown(HEAP_START), AlignDown(HEAP_START + HEAP_SIZE - 1))
  }

  /** The page loop of `init_heap`, given every frame the frame allocator
      will hand out (`avail`) and the mapper as an oracle `mapTo(page,
      frame)` that returns the error it reports, if any.  A frame is drawn
      before each mapping; the first failure stops the loop. */
  function MapPages(pages: seq<nat>, avail: seq<nat>, mapTo: (nat, nat) -> Option<MapToError>): (b: Bootstrap)
    ensures b.drawn <= |pages| && b.drawn <= |avail|
  {
    if pages == [] then Bootstrap(HeapOk, [], 0)
    else if avail == [] then Bootstrap(NoMoreFrames, [], 0)
    else match mapTo(pages[0], avail[0])
      case Some(e) => Bootstrap(MapErr(e), [], 1)
      case None =>
        var rest := MapPages(pages[1..], avail[1..], mapTo);
        Bootstrap(rest.outcome, [Mapping(pages[0], avail[0])] + rest.mapped, rest.drawn + 1)
  }

  /** Every page before index `n` was mapped to its own frame without error. */
  ghost predicate MappedPrefix(pages: seq<nat>, avail: seq<nat>, mapTo: (nat, nat) -> Option<MapToError>, n: nat)
  {
    && n <= |pages| && n <= |avail|
    && forall j :: 0 <= j < n ==> mapTo(pages[j], avail[j]).None?
  }

  function Zip(pages: seq<nat>, frames: seq<nat>): (ms: seq<Mapping>)
    requires |pages| == |frames|
    ensures |ms| == |pages|
    ensures forall j :: 0 <= j < |ms| ==> ms[j] == Mapping(pages[j], frames[j])
  {
    if pages == [] then [] else [Mapping(pages[0], frames[0])] + Zip(pages[1..], frames[1..])
  }

  /** Peeling the first page off: the first `n + 1` pages map exactly when
      the first does and the next `n` after it do. */
  lemma MappedPrefixCons(pages: seq<nat>, avail: seq<nat>, mapTo: (nat, nat) -> Option<MapToError>, n: nat)
    requires pages != [] && avail != []
    ensures (mapTo(pages[0], avail[0]).None? && MappedPrefix(pages[1..], avail[1..], mapTo, n)) <==> MappedPrefix(pages, avail, mapTo, n + 1)
  {
    var p1, a1 := pages[1..], avail[1..];
    if mapTo(pages[0], avail[0]).None? && MappedPrefix(p1, a1, mapTo, n) {
      forall j | 0 <= j < n + 1 ensures mapTo(pages[j], avail[j]).None? {
        if j > 0 {
          assert pages[j] == p1[j - 1] && avail[j] == a1[j - 1];
        }
      }
    }
    if MappedPrefix(pages, avail, mapTo, n + 1) {
      forall j | 0 <= j < n ensures mapTo(p1[j], a1[j]).None? {
        assert p1[j] == pages[j + 1] && a1[j] == avail[j + 1];
      }
    }
  }

  /** The heap bootstrap succeeds exactly when there are enough frames and
      every page maps; it has then drawn one frame per page and mapped page
      `i` to the `i`-th frame. */
  lemma {:induction false} MapPagesOk(pages: seq<nat>, avail: seq<nat>, mapTo: (nat, nat) -> Option<MapToError>)
    ensures var b := MapPages(pages, avail, mapTo);
      && (b.outcome.HeapOk? <==> MappedPrefix(pages, avail, mapTo, |pages|))
      && (b.outcome.HeapOk? ==> b.drawn == |pages| && b.mapped == Zip(pages, avail[..|pages|]))
  {
    var b := MapPages(pages, avail, mapTo);
    if pages == [] {
      assert b == Bootstrap(HeapOk, [], 0);
      assert avail[..0] == [];
    } else if avail == [] {
      assert b.outcome == NoMoreFrames;
    } else if mapTo(pages[0], avail[0]).Some? {
      assert b.outcome.MapErr?;
    } else {
      var p1, a1 := pages[1..], avail[1..];
      var rest := MapPages(p1, a1, mapTo);
      assert b == Bootstrap(rest.outcome, [Mapping(pages[0], avail[0])] + rest.mapped, rest.drawn + 1);
      MapPagesOk(p1, a1, mapTo);
      MappedPrefixCons(pages, avail, mapTo, |p1|);
      if rest.outcome.HeapOk? {
        var used := avail[..|pages|];
        assert used[1..] == a1[..|p1|];
        assert Zip(pages, used) == [Mapping(pages[0], avail[0])] + Zip(p1, a1[..|p1|]);
      }
    }
  }

  /** It panics with "No more frames!" exactly when the frames run out
      before the pages and every page that got a frame mapped; it has then
      drawn every frame and mapped the pages that got one. */
  lemma {:induction false} MapPagesNoFrames(pages: seq<nat>, avail: seq<nat>, mapTo: (nat, nat) -> Option<MapToError>)
    ensures var b := MapPages(pages, avail, mapTo);
      && (b.outcome.NoMoreFrames? <==> |avail| < |pages| && MappedPrefix(pages, avail, mapTo, |avail|))
      && (b.outcome.NoMoreFrames? ==> b.drawn == |avail| && b.mapped == Zip(pages[..|avail|], avail))
  {
    var b := MapPages(pages, avail, mapTo);
    if pages == [] {
      assert b.outcome == HeapOk;
    } else if avail == [] {
      assert b == Bootstrap(NoMoreFrames, [], 0);
      assert pages[..0] == [];
    } else if mapTo(pages[0], avail[0]).Some? {
      assert b.outcome.MapErr?;
    } else {
      var p1, a1 := pages[1..], avail[1..];
      var rest := MapPages(p1, a1, mapTo);
      assert b == Bootstrap(rest.outcome, [Mapping(pages[0], avail[0])] + rest.mapped, rest.drawn + 1);
      MapPagesNoFrames(p1, a1, mapTo);
      MappedPrefixCons(pages, avail, mapTo, |a1|);
      if rest.outcome.NoMoreFrames? {
        var got := pages[..|avail|];
        assert got[1..] == p1[..|a1|];
        assert Zip(got, avail) == [Mapping(pages[0], avail[0])] + Zip(p1[..|a1|], a1);
      }
    }
  }

  /** It returns a mapping error only from the first page whose mapping
      fails, having drawn that page's frame and mapped every page before
      it. */
  lemma {:induction false} MapPagesErr(pages: seq<nat>, avail: seq<nat>, mapTo: (nat, nat) -> Option<MapToError>)
    ensures var b := MapPages(pages, avail, mapTo);
      b.outcome.MapErr? ==>
        && 1 <= b.drawn <= |pages| && b.drawn <= |avail|
        && MappedPrefix(pages, avail, mapTo, b.drawn - 1)
        && mapTo(pages[b.drawn - 1], avail[b.drawn - 1]) == Some(b.outcome.error)
        && b.mapped == Zip(pages[..b.drawn - 1], avail[..b.drawn - 1])
  {
    var b := MapPages(pages, avail, mapTo);
    if pages == [] || avail == [] {
      assert !b.outcome.MapErr?;
    } else if mapTo(pages[0], avail[0]).Some? {
      assert b == Bootstrap(MapErr(mapTo(pages[0], avail[0]).value), [], 1);
      assert pages[..0] == [] && avail[..0] == [];
    } else {
      var p1, a1 := pages[1..], avail[1..];
      var rest := MapPages(p1, a1, mapTo);
      assert b == Bootstrap(rest.outcome, [Mapping(pages[0], avail[0])] + rest.mapped, rest.drawn + 1);
      MapPagesErr(p1, a1, mapTo);
      if rest.outcome.MapErr? {
        var d := rest.drawn;
        MappedPrefixCons(pages, avail, mapTo, d - 1);
        assert pages[d] == p1[d - 1] && avail[d] == a1[d - 1];
        var zp, za := pages[..d], avail[..d];
        assert zp[1..] == p1[..d - 1] && za[1..] == a1[..d - 1];
        assert Zip(zp, za) == [Mapping(pages[0], avail[0])] + Zip(p1[..d - 1], a1[..d - 1]);
      }
    }
  }

  /** A mapping loop that has got past its first `n` pages: the rest of the
      result comes from the remaining pages and frames. */
  lemma {:induction false} MapPagesAfterPrefix(pages: seq<nat>, avail: seq<nat>, mapTo: (nat, nat) -> Option<MapToError>, n: nat)
    requires MappedPrefix(pages, avail, mapTo, n)
    ensures var rest := MapPages(pages[n..], avail[n..], mapTo);
      MapPages(pages, avail, mapTo)
        == Bootstrap(rest.outcome, Zip(pages[..n], avail[..n]) + rest.mapped, rest.drawn + n)
  {
    if n == 0 {
      assert pages[..0] == [] && avail[..0] == [] && pages[0..] == pages && avail[0..] == avail;
    } else {
      var m := Mapping(pages[n - 1], avail[n - 1]);
      var z := Zip(pages[..n - 1], avail[..n - 1]);
      var r1 := MapPages(pages[n - 1..], avail[n - 1..], mapTo);
      var rest := MapPages(pages[n..], avail[n..], mapTo);
      assert MapPages(pages, avail, mapTo) == Bootstrap(r1.outcome, z + r1.mapped, r1.drawn + n - 1) by {
        MapPagesAfterPrefix(pages, avail, mapTo, n - 1);
      }
      assert r1 == Bootstrap(rest.outcome, [m] + rest.mapped, rest.drawn + 1) by {
        var ps, fs := pages[n - 1..], avail[n - 1..];
        assert ps[1..] == pages[n..] && fs[1..] == avail[n..];
      }
      assert Zip(pages[..n], avail[..n]) == z + [m] by {
        MappedPrefixSnoc(pages, avail, mapTo, n - 1);
      }
      BootstrapShift(MapPages(pages, avail, mapTo), r1, rest, z, m, n);
    }
  }

  /** Moving one mapping from the tail's result into the prefix: sequence
      algebra kept apart from the proof above to keep that proof cheap; it
      models nothing. */
  lemma BootstrapShift(b: Bootstrap, r1: Bootstrap, rest: Bootstrap, z: seq<Mapping>, m: Mapping, n: nat)
    requires n > 0
    requires b == Bootstrap(r1.outcome, z + r1.mapped, r1.drawn + n - 1)
    requires r1 == Bootstrap(rest.outcome, [m] + rest.mapped, rest.drawn + 1)
    ensures b == Bootstrap(rest.outcome, (z + [m]) + rest.mapped, rest.drawn + n)
  {
    assert z + ([m] + rest.mapped) == (z + [m]) + rest.mapped;
  }

  /** The loop's exit when the frame allocator is empty at page `n`. */
  lemma MapPagesNoFrameAt(pages: seq<nat>, avail: seq<nat>, mapTo: (nat, nat) -> Option<MapToError>, n: nat)
    requires MappedPrefix(pages, avail, mapTo, n) && n < |pages| && n == |avail|
    ensures MapPages(pages, avail, mapTo) == Bootstrap(NoMoreFrames, Zip(pages[..n], avail[..n]), n)
  {
    MapPagesAfterPrefix(pages, avail, mapTo, n);
    var rest := MapPages(pages[n..], avail[n..], mapTo);
    assert avail[n..] == [] && pages[n..] != [];
    assert rest == Bootstrap(NoMoreFrames, [], 0);
    assert Zip(pages[..n], avail[..n]) + [] == Zip(pages[..n], avail[..n]);
  }

  /** The loop's exit when page `n` does not map. */
  lemma MapPagesFailAt(pages: seq<nat>, avail: seq<nat>, mapTo: (nat, nat) -> Option<MapToError>, n: nat)
    requires MappedPrefix(pages, avail, mapTo, n) && n < |pages| && n < |avail|
    requires mapTo(pages[n], avail[n]).Some?
    ensures MapPages(pages, avail, mapTo)
              == Bootstrap(MapErr(mapTo(pages[n], avail[n]).value), Zip(pages[..n], avail[..n]), n + 1)
  {
    MapPagesAfterPrefix(pages, avail, mapTo, n);
    var ps, fs := pages[n..], avail[n..];
    assert ps[0] == pages[n] && fs[0] == avail[n];
    assert MapPages(ps, fs, mapTo) == Bootstrap(MapErr(mapTo(pages[n], avail[n]).value), [], 1);
    assert Zip(pages[..n], avail[..n]) + [] == Zip(pages[..n], avail[..n]);
  }

  /** The loop's exit once every page has mapped. */
  lemma MapPagesAllMapped(pages: seq<nat>, avail: seq<nat>, mapTo: (nat, nat) -> Option<MapToError>)
    requires MappedPrefix(pages, avail, mapTo, |pages|)
    ensures MapPages(pages, avail, mapTo) == Bootstrap(HeapOk, Zip(pages, avail[..|pages|]), |pages|)
  {
    MapPagesAfterPrefix(pages, avail, mapTo, |pages|);
    assert pages[|pages|..] == [] && pages[..|pages|] == pages;
    assert Zip(pages, avail[..|pages|]) + [] == Zip(pages, avail[..|pages|]);
  }

  /** One more page mapped: the prefix grows by that page and its frame. */
  lemma MappedPrefixSnoc(pages: seq<nat>, avail: seq<nat>, mapTo: (nat, nat) -> Option<MapToError>, n: nat)
    requires MappedPrefix(pages, avail, mapTo, n) && n < |pages| && n < |avail|
    requires mapTo(pages[n], avail[n]).None?
    ensures MappedPrefix(pages, avail, mapTo, n + 1)
    ensures Zip(pages[..n + 1], avail[..n + 1]) == Zip(pages[..n], avail[..n]) + [Mapping(pages[n], avail[n])]
  {
    var ps, fs := pages[..n], avail[..n];
    assert pages[..n + 1] == ps + [pages[n]] && avail[..n + 1] == fs + [avail[n]];
    ZipSnoc(ps, fs, pages[n], avail[n]);
  }

  lemma {:induction false} ZipSnoc(ps: seq<nat>, fs: seq<nat>, p: nat, f: nat)
    requires |ps| == |fs|
    ensures Zip(ps + [p], fs + [f]) == Zip(ps, fs) + [Mapping(p, f)]
  {
    if ps != [] {
      assert (ps + [p])[1..] == ps[1..] + [p] && (fs + [f])[1..] == fs[1..] + [f];
      ZipSnoc(ps[1..], fs[1..], p, f);
    }
  }

  /** The region handed to the global allocator. */
  datatype Arena = Arena(bottom: nat, size: nat)

  /** The global `LockedHeap`.  Its bookkeeping is a foreign allocator: only
      whether it has been given an arena and the byte count `used()`
      reports are modelled. */
  class LockedHeap {
    var arena: Option<Arena>
    var used: nat

    constructor Empty()
      ensures arena.None? && used == 0
    {
      arena := None;
      used := 0;
    }
  }

  /** The page loop of `init_heap`: for each page in order, draw a frame
      (panicking if there is none) and map the page to it, stopping at the
      first error. */
  method MapEachPage(pages: seq<nat>, mapTo: (nat, nat) -> Option<MapToError>, frames: BootInfoFrameAllocator)
    returns (outcome: InitHeapOutcome, mapped: seq<Mapping>)
    requires frames.Valid()
    modifies frames
    ensures frames.Valid()
    ensures var b := MapPages(pages, old(frames.Remaining()), mapTo);
      && outcome == b.outcome && mapped == b.mapped
      && frames.Remaining() == old(frames.Remaining())[b.drawn..]
  {
    ghost var avail := frames.Remaining();
    mapped := [];
    for i := 0 to |pages|
      invariant frames.Valid()
      invariant MappedPrefix(pages, avail, mapTo, i)
      invariant frames.Remaining() == avail[i..]
      invariant mapped == Zip(pages[..i], avail[..i])
    {
      var frame := frames.AllocateFrame();
      if frame.None? {
        assert |avail[i..]| == 0;
        MapPagesNoFrameAt(pages, avail, mapTo, i);
        return NoMoreFrames, mapped;
      }
      var pageFrame := frame.value;
      assert avail[i..][0] == pageFrame && avail[i..][1..] == avail[i + 1..];
      var result := mapTo(pages[i], pageFrame);
      if result.Some? {
        MapPagesFailAt(pages, avail, mapTo, i);
        return MapErr(result.value), mapped;
      }
      MappedPrefixSnoc(pages, avail, mapTo, i);
      mapped := mapped + [Mapping(pages[i], pageFrame)];
    }
    MapPagesAllMapped(pages, avail, mapTo);
    return HeapOk, mapped;
  }

  /** `init_heap`: one frame drawn and one page mapped per heap page, in
      page order; on success the global allocator is given exactly the heap
      range, on a mapping error or a missing frame it is left alone. */
  method InitHeap(mapTo: (nat, nat) -> Option<MapToError>, frames: BootInfoFrameAllocator, heap: LockedHeap)
    returns (outcome: InitHeapOutcome, mapped: seq<Mapping>)
    requires frames.Valid()
    modifies frames, heap
    ensures frames.Valid()
    ensures var b := MapPages(HeapPages(), old(frames.Remaining()), mapTo);
      && outcome == b.outcome && mapped == b.mapped
      && frames.Remaining() == old(frames.Remaining())[b.drawn..]
    ensures heap.used == old(heap.used)
    ensures heap.arena == if outcome.HeapOk? then Some(Arena(HEAP_START, HEAP_SIZE)) else old(heap.arena)
  {
    outcome, mapped := MapEachPage(HeapPages(), mapTo, frames);
    if outcome.HeapOk? {
      heap.arena := Some(Arena(HEAP_START, HEAP_SIZE));
    }
  }

  // ---------------------------------------------------------------------
  // Heap statistics
  // ---------------------------------------------------------------------

  /** `heap_free`: the bytes of the arena that `used()` does not count. */
  function HeapFree(used: nat): (free: nat)
    requires used <= HEAP_SIZE
    ensures free + used == HEAP_SIZE
  {
    HEAP_SIZE - used
  }

  /** The two numbers `heap_stat` prints: used and total KiB, both rounded
      down by integer division. */
  datatype HeapKib = HeapKib(usedKib: nat, totalKib: nat)

  function HeapKibOf(used: nat): (k: HeapKib)
    ensures k.totalKib == 1000
    ensures k.usedKib * 1024 <= used < (k.usedKib + 1) * 1024
    ensures used <= HEAP_SIZE ==> k.usedKib <= k.totalKib
  {
    HeapKib(used / 1024, HEAP_SIZE / 1024)
  }

  /** `heap_stat`: "Heap: <used KiB> / <total KiB> KiB". */
  function HeapStat(used: nat): (r: string)
    ensures |r| >= 10 && r[..6] == "Heap: " && r[|r| - 4..] == " KiB"
  {
    var k := HeapKibOf(used);
    "Heap: " + Fmt.Decimal(k.usedKib) + " / " + Fmt.Decimal(k.totalKib) + " KiB"
  }

  /** The summary line carries the two numbers: it is the fixed words
      around two digit strings, which read back as the used and total
      KiB. */
  lemma HeapStatReadsBack(used: nat)
    ensures exists u: string, t: string ::
      && (forall i :: 0 <= i < |u| ==> Fmt.IsDigit(u[i]))
      && (forall i :: 0 <= i < |t| ==> Fmt.IsDigit(t[i]))
      && HeapStat(used) == "Heap: " + u + " / " + t + " KiB"
      && Fmt.ParseDecimal(u) == used / 1024
      && Fmt.ParseDecimal(t) == 1000
  {
    var u := Fmt.Decimal(used / 1024);
    var t := Fmt.Decimal(1000);
    assert HeapStat(used) == "Heap: " + u + " / " + t + " KiB";
    Fmt.DecimalRoundTrip(used / 1024);
    Fmt.DecimalRoundTrip(1000);
  }
}
