/** The older line allocator: inuoskrnl/mm/base.c, and its layout in inuoskrnl/ob/base.c. */
module Lines {
  import opened BitBytes
  import opened FirstFit
  import opened Memory
  import opened Wrappers

  const LINE_SIZE: nat := 32
  const ALLOCATOR_SIZE: nat := 42
  const LINE_BASE: nat := 1000

  // ----- layout

  /** Sizes in lines: the allocator's own fields, the bitmap, the lines handed out. */
  datatype LineLayout = LineLayout(header: nat, bitmap: nat, lines: nat)

  /** ObAllocatorInitialize for a raw size of at least the header. */
  function LayoutOf(rawSize: nat): LineLayout
    requires rawSize >= 2 * LINE_SIZE
  {
    var header := ALLOCATOR_SIZE / LINE_SIZE + (if ALLOCATOR_SIZE % LINE_SIZE != 0 then 1 else 0);
    var free := rawSize / LINE_SIZE - header;
    var bytes := free / 8;
    var bitmap := bytes / LINE_SIZE + (if bytes % LINE_SIZE != 0 then 1 else 0);
    LineLayout(header, bitmap, free - bitmap)
  }

  /** On p pages the three parts fill the pages exactly, and the bitmap has a bit for
      every line. */
  lemma LayoutFills(p: nat)
    requires p > 0
    ensures var l := LayoutOf(p * PAGE_SIZE);
            && l.header == 2 && l.lines == 128 * p - 2 - ((16 * p - 1) / 32 + 1) && l.lines > 0
            && (l.header + l.bitmap + l.lines) * LINE_SIZE == p * PAGE_SIZE
            && l.lines <= 8 * (l.bitmap * LINE_SIZE)
  {
    assert p * PAGE_SIZE / LINE_SIZE == 128 * p;
    assert (128 * p - 2) / 8 == 16 * p - 1;
    assert (16 * p - 1) % 32 != 0;
  }

  /** Pages MiCreateAllocator takes for a request it found no allocator for. */
  function CreatePages(n: nat): nat {
    var lines := if n < LINE_BASE then LINE_BASE else n;
    var raw := lines * LINE_SIZE;
    raw / PAGE_SIZE + (if raw % PAGE_SIZE != 0 then 1 else 0)
  }

  /** They are the least number of pages for the lines asked for, or for a thousand. */
  lemma CreatePagesLeast(n: nat)
    ensures var lines := if n < 1000 then 1000 else n;
            4096 * (CreatePages(n) - 1) < 32 * lines <= 4096 * CreatePages(n)
  {
  }

  /** The header and the bitmap come out of the pages sized for the request alone, so
      the new allocator serves the request only if rounding up left room for them. */
  lemma CreatedServes(n: nat)
    ensures var p := CreatePages(n);
            p > 0 && (n <= LayoutOf(p * PAGE_SIZE).lines <==> 128 * p - n >= 2 + (p + 1) / 2)
  {
    LayoutFills(CreatePages(n));
  }

  lemma CreatedTooSmall()
    ensures CreatePages(1024) == 8 && LayoutOf(8 * PAGE_SIZE).lines == 1018 < 1024
  {
    LayoutFills(8);
  }

  // ----- counting free runs

  /** Number of maximal free runs. */
  function FreeRuns(s: Marks): nat {
    if s == [] then 0
    else FreeRuns(s[..|s| - 1]) + (if !s[|s| - 1] && TailRun(s) == 1 then 1 else 0)
  }

  lemma {:induction false} FreeRunsMonotone(s: Marks, i: nat)
    requires i <= |s|
    ensures FreeRuns(s[..i]) <= FreeRuns(s)
  {
    if i < |s| {
      FreeRunsMonotone(s[..|s| - 1], i);
      assert s[..|s| - 1][..i] == s[..i];
    } else {
      assert s[..i] == s;
    }
  }

  lemma {:induction false} PrefixFreeRuns(s: Marks, used: nat)
    requires IsPrefix(s, used)
    ensures FreeRuns(s) == if used < |s| then 1 else 0
  {
    PrefixTail(s, used);
    if s != [] {
      PrefixFreeRuns(s[..|s| - 1], if used < |s| then used else used - 1);
    }
  }

  /** One more cell of the scan. */
  lemma RunStep(s: Marks, i: nat)
    requires i < |s|
    ensures TailRun(s[..i + 1]) == if s[i] then 0 else TailRun(s[..i]) + 1
    ensures Longest(s[..i + 1]) == if TailRun(s[..i + 1]) > Longest(s[..i]) then TailRun(s[..i + 1])
        else Longest(s[..i])
    ensures FreeRuns(s[..i + 1]) == FreeRuns(s[..i]) + (if !s[i] && TailRun(s[..i]) == 0 then 1 else 0)
  {
    LongestStep(s, i);
    assert s[..i + 1][..i] == s[..i];
  }

  function MaxOf(lengths: seq<nat>): nat {
    if lengths == [] then 0
    else
      var m := MaxOf(lengths[..|lengths| - 1]);
      if lengths[|lengths| - 1] > m then lengths[|lengths| - 1] else m
  }

  lemma {:induction false} MaxOfZeros(lengths: seq<nat>, n: nat)
    requires n <= |lengths| && forall i :: n <= i < |lengths| ==> lengths[i] == 0
    ensures MaxOf(lengths) == MaxOf(lengths[..n])
  {
    if n < |lengths| {
      MaxOfZeros(lengths[..|lengths| - 1], n);
      assert lengths[..|lengths| - 1][..n] == lengths[..n];
    } else {
      assert lengths[..n] == lengths;
    }
  }

  lemma MaxOfStart(lengths: seq<nat>)
    ensures MaxOf(lengths[..0]) == 0
  {
  }

  lemma MaxOfStep(lengths: seq<nat>, i: nat)
    requires i < |lengths|
    ensures MaxOf(lengths[..i + 1]) == Max(MaxOf(lengths[..i]), lengths[i])
  {
    assert lengths[..i + 1][..i] == lengths[..i];
  }

  method CloseSegment(startSegments: array<nat>, segmentLengths: array<nat>, indexer: nat, start: nat, length: nat)
    requires indexer < segmentLengths.Length == startSegments.Length && startSegments != segmentLengths
    modifies startSegments, segmentLengths
    ensures MaxOf(segmentLengths[..][..indexer + 1]) == Max(MaxOf(old(segmentLengths[..][..indexer])), length)
    ensures forall j :: indexer < j < segmentLengths.Length ==> segmentLengths[j] == old(segmentLengths[j])
  {
    startSegments[indexer] := start;
    segmentLengths[indexer] := length;
    MaxOfStep(segmentLengths[..], indexer);
    assert segmentLengths[..][..indexer] == old(segmentLengths[..][..indexer]);
  }

  // ----- the allocator

  class LineAllocator {
    const lineCount: nat
    var freeLines: nat
    var allocatedCount: nat
    const bitmap: array<Byte>
    const lines: nat

    ghost function Marks(): (s: Marks)
      requires lineCount <= 8 * bitmap.Length
      reads bitmap
      ensures |s| == lineCount
    {
      Cells(bitmap[..], lineCount)
    }

    /** Lines are used front to back; the rest is cached as free. */
    ghost predicate Valid(used: nat)
      reads this, bitmap
    {
      && lineCount <= 8 * bitmap.Length && lines > 0
      && IsPrefix(Marks(), used) && freeLines + used == lineCount
      && (allocatedCount == 0 ==> used == 0)
    }

    /** ObAllocatorInitialize on p pages at an address. */
    constructor (target: nat, p: nat)
      requires p > 0
      ensures Valid(0) && fresh(bitmap) && allocatedCount == 0
      ensures lineCount == LayoutOf(p * PAGE_SIZE).lines
      ensures lines == target + (LayoutOf(p * PAGE_SIZE).header + LayoutOf(p * PAGE_SIZE).bitmap) * LINE_SIZE
    {
      LayoutFills(p);
      var layout := LayoutOf(p * PAGE_SIZE);
      bitmap := new Byte[layout.bitmap * LINE_SIZE](_ => 0);
      lineCount := layout.lines;
      freeLines := layout.lines;
      allocatedCount := 0;
      lines := target + layout.header * LINE_SIZE + layout.bitmap * LINE_SIZE;
      new;
      ZeroCells(bitmap[..], lineCount);
    }

    method IsLineOccupied(lineIndex: nat) returns (occupied: bool)
      requires lineCount <= 8 * bitmap.Length && lineIndex < lineCount
      ensures occupied == Marks()[lineIndex]
    {
      occupied := ReadBit(bitmap[lineIndex / 8], lineIndex % 8);
    }

    method OccupyLine(lineIndex: nat)
      requires lineCount <= 8 * bitmap.Length && lineIndex < lineCount
      modifies bitmap
      ensures Marks() == old(Marks())[lineIndex := true]
    {
      hide SetBit;
      MarkCell(bitmap[..], lineCount, lineIndex);
      ghost var after := bitmap[..][lineIndex / 8 := SetBit(bitmap[lineIndex / 8], lineIndex % 8)];
      bitmap[lineIndex / 8] := SetBit(bitmap[lineIndex / 8], lineIndex % 8);
      assert bitmap[..] == after;
    }

    /** MiAllocatorRecount. Its two arrays have one cell per past allocation; every
        free run takes one, so there must be at least as many allocations as runs. */
    method Recount()
      requires lineCount <= 8 * bitmap.Length
      requires FreeRuns(Marks()) <= allocatedCount
      modifies this`freeLines
      ensures freeLines == Longest(Marks())
    {
      hide FreeRuns, Longest, MaxOf;
      var startSegments := new nat[allocatedCount](_ => 0);
      var segmentLengths := new nat[allocatedCount](_ => 0);
      ghost var _ := FillSegments(startSegments, segmentLengths);
      ghost var lengths := segmentLengths[..];
      var maxLength := 0;
      MaxOfStart(lengths);
      for i := 0 to allocatedCount
        invariant segmentLengths[..] == lengths && maxLength == MaxOf(lengths[..i])
      {
        MaxOfStep(lengths, i);
        if segmentLengths[i] > maxLength {
          maxLength := segmentLengths[i];
        }
      }
      assert lengths[..allocatedCount] == lengths;
      freeLines := maxLength;
    }

    /** The first loop of the recount writes one cell per free run, from the first on:
        the cells it needs are exactly as many as there are runs. */
    method FillSegments(startSegments: array<nat>, segmentLengths: array<nat>) returns (ghost written: nat)
      requires lineCount <= 8 * bitmap.Length && FreeRuns(Marks()) <= segmentLengths.Length == startSegments.Length
      requires startSegments != segmentLengths
      requires forall j :: 0 <= j < segmentLengths.Length ==> segmentLengths[j] == 0
      modifies startSegments, segmentLengths
      ensures MaxOf(segmentLengths[..]) == Longest(Marks()) && written == FreeRuns(Marks())
    {
      hide FreeRuns, Longest, TailRun, MaxOf;
      ghost var s := Marks();
      var indexer, segmentStart, segmentLength := 0, 0, 0;
      ScanStart(s);
      MaxOfStart(segmentLengths[..]);
      for i := 0 to lineCount
        invariant indexer + (if segmentLength == 0 then 0 else 1) == FreeRuns(s[..i])
        invariant indexer <= segmentLengths.Length && segmentLength == TailRun(s[..i])
        invariant forall j :: indexer <= j < segmentLengths.Length ==> segmentLengths[j] == 0
        invariant Longest(s[..i]) == Max(MaxOf(segmentLengths[..][..indexer]), segmentLength)
      {
        RunStep(s, i);
        FreeRunsMonotone(s, i);
        var occupied := IsLineOccupied(i);
        if occupied {
          if segmentLength != 0 {
            CloseSegment(startSegments, segmentLengths, indexer, segmentStart, segmentLength);
            indexer := indexer + 1;
          }
          segmentLength := 0;
          segmentStart := i + 1;
        } else {
          segmentLength := segmentLength + 1;
        }
      }
      assert s[..lineCount] == s;
      if segmentLength != 0 {
        CloseSegment(startSegments, segmentLengths, indexer, segmentStart, segmentLength);
        written := indexer + 1;
      } else {
        written := indexer;
      }
      MaxOfZeros(segmentLengths[..], written);
    }

    method OccupyLines(start: nat, length: nat)
      requires lineCount <= 8 * bitmap.Length && start + length <= lineCount
      modifies bitmap
      ensures Marks() == MarkRun(old(Marks()), start, length)
    {
      for z := 0 to length
        invariant Marks() == MarkRun(old(Marks()), start, z)
      {
        OccupyLine(z + start);
      }
    }

    /** MiAllocatorAllocate. An empty request takes one line. The first request must
        not fail, or the recount has no cell for the run of free lines. */
    method Allocate(count: nat, ghost used: nat) returns (address: nat)
      requires Valid(used)
      requires allocatedCount == 0 ==> Max(count, 1) <= freeLines
      modifies this`freeLines, this`allocatedCount, bitmap
      ensures var n := Max(count, 1);
        if n <= old(freeLines) then
          Valid(used + n) && address == lines + used * LINE_SIZE
          && freeLines == old(freeLines) - n && allocatedCount == old(allocatedCount) + 1
        else
          Valid(used) && address == 0 && freeLines == old(freeLines) && allocatedCount == old(allocatedCount)
    {
      hide Longest, TailRun, FreeRuns, IsFirstRun, HasRun;
      ghost var was, n := Marks(), Max(count, 1);
      PrefixFirstRun(was, used, n);
      address := 0;
      var start, length := 0, 0;
      var i := 0;
      while i < lineCount
        invariant i <= lineCount && Marks() == was
        invariant allocatedCount == old(allocatedCount) && freeLines == old(freeLines)
        invariant Scanned(was, n, i, start, length) && length < n
      {
        if was[i] {
          ScanOccupied(was, n, i, start, length);
        } else {
          ScanFree(was, n, i, start, length);
        }
        var occupied := IsLineOccupied(i);
        if occupied {
          start := i + 1;
          length := 0;
        } else {
          length := length + 1;
          if length >= count {
            FirstRunExists(was, n, start);
            FirstRunUnique(was, n, start, used);
            OccupyLines(start, length);
            address := lines + start * LINE_SIZE;
            allocatedCount := allocatedCount + 1;
            break;
          }
        }
        i := i + 1;
      }
      if address == 0 {
        ScanEnd(was, n, start, length);
      }
      PrefixOutcome(Marks(), if address == 0 then used else used + n);
      Recount();
    }
  }

  /** Lines a run of requests takes. */
  function Total(requests: seq<nat>): nat {
    if requests == [] then 0 else Total(requests[..|requests| - 1]) + Max(requests[|requests| - 1], 1)
  }

  /** Any run of requests that fits is answered with consecutive lines. */
  method ServeAll(a: LineAllocator, requests: seq<nat>, ghost used: nat) returns (addresses: seq<nat>)
    requires a.Valid(used) && used + Total(requests) <= a.lineCount
    modifies a, a.bitmap
    ensures a.Valid(used + Total(requests)) && a.freeLines + used + Total(requests) == a.lineCount
    ensures |addresses| == |requests|
    ensures forall i :: 0 <= i < |requests| ==> addresses[i] == a.lines + (used + Total(requests[..i])) * LINE_SIZE
  {
    hide IsPrefix;
    addresses := [];
    for i := 0 to |requests|
      invariant a.Valid(used + Total(requests[..i])) && |addresses| == i
      invariant forall j :: 0 <= j < i ==> addresses[j] == a.lines + (used + Total(requests[..j])) * LINE_SIZE
    {
      TotalStep(requests, i);
      var address := a.Allocate(requests[i], used + Total(requests[..i]));
      addresses := addresses + [address];
    }
    assert requests[..|requests|] == requests;
  }

  lemma {:induction false} TotalGrows(requests: seq<nat>, i: nat)
    requires i <= |requests|
    ensures Total(requests[..i]) <= Total(requests)
  {
    if i < |requests| {
      TotalGrows(requests[..|requests| - 1], i);
      assert requests[..|requests| - 1][..i] == requests[..i];
    } else {
      assert requests[..i] == requests;
    }
  }

  lemma TotalStep(requests: seq<nat>, i: nat)
    requires i < |requests|
    ensures Total(requests[..i + 1]) == Total(requests[..i]) + Max(requests[i], 1) <= Total(requests)
  {
    assert requests[..i + 1][..i] == requests[..i];
    TotalGrows(requests, i + 1);
  }

  // ----- pages

  datatype PageInformation = PageInformation(occupied: bool, allocator: bool, allocatorSpace: bool, payload: bool,
      forbidden: bool)

  function OccupiedPages(map_: seq<PageInformation>): (s: Marks)
    ensures |s| == |map_| && forall i :: 0 <= i < |s| ==> s[i] == map_[i].occupied
  {
    seq(|map_|, i requires 0 <= i < |map_| => map_[i].occupied)
  }

  /** MiFindFreePage: the lowest free run at or after a start page. The kernel halts
      where this returns none, which it always does when asked for no pages. */
  method FindFreePage(pages: array<PageInformation>, from: nat, count: nat) returns (found: Option<nat>)
    requires from <= pages.Length
    ensures var s := OccupiedPages(pages[from..]);
            && (found.None? <==> count == 0 || !HasRun(s, count))
            && (found.Some? ==> found.value >= from && IsFirstRun(s, count, found.value - from))
  {
    hide HasRun, IsFirstRun;
    ghost var s := OccupiedPages(pages[from..]);
    var startPage, length := from, 0;
    var i := from;
    while i < pages.Length
      invariant from <= i <= pages.Length && from <= startPage
      invariant count > 0 ==> Scanned(s, count, i - from, startPage - from, length) && length < count
    {
      if count > 0 {
        if s[i - from] {
          ScanOccupied(s, count, i - from, startPage - from, length);
        } else {
          ScanFree(s, count, i - from, startPage - from, length);
        }
      }
      if pages[i].occupied {
        startPage := i + 1;
        length := 0;
      } else {
        length := length + 1;
        if length == count {
          FirstRunExists(s, count, startPage - from);
          return Some(startPage);
        }
      }
      i := i + 1;
    }
    if count > 0 {
      ScanEnd(s, count, startPage - from, length);
    }
    found := None;
  }

  lemma PrefixOutcome(s: Marks, used: nat)
    requires IsPrefix(s, used)
    ensures FreeRuns(s) <= 1 && (used == |s| ==> FreeRuns(s) == 0) && Longest(s) == |s| - used
  {
    PrefixTail(s, used);
    PrefixFreeRuns(s, used);
  }

  /** With a used prefix the recount has the cells it needs exactly when there was an
      allocation or no line is free: only a first request that fails overruns them. */
  lemma RecountFitsExactly(s: Marks, used: nat, cells: nat)
    requires IsPrefix(s, used)
    ensures FreeRuns(s) <= cells <==> cells > 0 || used == |s|
  {
    PrefixFreeRuns(s, used);
  }

  function Max(a: nat, b: nat): nat {
    if b > a then b else a
  }

  lemma ScanStart(s: Marks)
    ensures FreeRuns(s[..0]) == 0 && TailRun(s[..0]) == 0 && Longest(s[..0]) == 0
  {
  }
}
