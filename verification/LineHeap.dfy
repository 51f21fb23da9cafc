/** The page map and the line allocators living in its pages: MmAllocateMemory and
    MmAllocatePayload of inuoskrnl/mm/base.c. */
module LineHeap {
  import opened FirstFit
  import opened Lines
  import opened Memory
  import opened PageMaps
  import opened Wrappers

  const FREE_PAGE := PageInformation(false, false, false, false, false)
  const ALLOCATOR_PAGE := PageInformation(true, true, false, false, false)
  const SPACE_PAGE := PageInformation(true, false, true, false, false)
  const PAYLOAD_PAGE := PageInformation(true, false, false, true, false)
  const RESERVED_PAGE := PageInformation(true, false, false, false, true)

  /** The pages an allocator fills, and how many of its lines are used. */
  datatype Span = Span(pages: nat, used: nat)

  /** Lines handed out by the allocator in a page, and the bytes asked for. */
  datatype Block = Block(page: nat, line: nat, lines: nat, size: nat)

  /** Pages handed out whole. */
  datatype Payload = Payload(start: nat, count: nat)

  type PageMap = seq<PageInformation>
  type Spans = map<nat, Span>

  // ----- what the page map says

  /** Allocators sit where the map says, each followed by the rest of its pages. */
  ghost predicate Marked(pages: PageMap, spans: Spans) {
    && (forall i :: i in spans ==> spans[i].pages > 0 && i + spans[i].pages <= |pages| && pages[i] == ALLOCATOR_PAGE)
    && (forall i, j :: i in spans && i < j < i + spans[i].pages ==> pages[j] == SPACE_PAGE)
    && (forall i :: 0 <= i < |pages| && pages[i].allocator ==> i in spans)
  }

  /** The flags alone keep the allocators apart. */
  lemma SpansDisjoint(pages: PageMap, spans: Spans, i: nat, j: nat)
    requires Marked(pages, spans) && i in spans && j in spans && i < j
    ensures i + spans[i].pages <= j
  {
    assert ALLOCATOR_PAGE != SPACE_PAGE;
    assert pages[j] == ALLOCATOR_PAGE;
  }

  lemma FlagMeans(pages: PageMap, spans: Spans, i: nat)
    requires Marked(pages, spans) && i < |pages|
    ensures pages[i].allocator <==> i in spans
  {
  }

  lemma MarkedStays(pages: PageMap, spans: Spans, k: nat, n: nat)
    requires Marked(pages, spans) && k in spans
    ensures Marked(pages, spans[k := Span(spans[k].pages, spans[k].used + n)])
  {
  }

  function WithSpan(pages: PageMap, index: nat, count: nat): (r: PageMap)
    requires index + count <= |pages|
    ensures |r| == |pages|
  {
    seq(|pages|, i requires 0 <= i < |pages| =>
      if i == index && count > 0 then ALLOCATOR_PAGE else if index < i < index + count then SPACE_PAGE else pages[i])
  }

  /** Putting an allocator into free pages disturbs none of the others. */
  lemma SpanAdded(pages: PageMap, spans: Spans, index: nat, count: nat)
    requires Marked(pages, spans) && count > 0 && index + count <= |pages|
    requires forall k :: index <= k < index + count ==> !pages[k].occupied
    ensures index !in spans && Marked(WithSpan(pages, index, count), spans[index := Span(count, 0)])
  {
    var pages' := WithSpan(pages, index, count);
    forall i, j | i in spans && i <= j < i + spans[i].pages
      ensures pages'[j] == pages[j]
    {
      assert pages[j].occupied;
    }
  }

  /** Handing out free pages as payload disturbs no allocator. */
  lemma PagesTaken(pages: PageMap, spans: Spans, p: Payload)
    requires Marked(pages, spans) && p.start + p.count <= |pages|
    requires forall k :: p.start <= k < p.start + p.count ==> !pages[k].occupied
    ensures Marked(WithPayload(pages, p), spans)
  {
    var pages' := WithPayload(pages, p);
    forall i, j | i in spans && i <= j < i + spans[i].pages
      ensures pages'[j] == pages[j]
    {
      assert pages[j].occupied;
    }
    forall i | 0 <= i < |pages'| && pages'[i].allocator
      ensures i in spans
    {
      assert pages'[i] == pages[i];
    }
  }

  /** Payloads lie in pages marked as such, and apart from each other. */
  ghost predicate Paid(pages: PageMap, payloads: seq<Payload>) {
    && (forall i {:trigger payloads[i]} :: 0 <= i < |payloads| ==> PaidPages(pages, payloads[i]))
    && (forall i, j {:trigger payloads[i], payloads[j]} :: 0 <= i < j < |payloads| ==> Apart(payloads[i], payloads[j]))
  }

  ghost predicate PaidPages(pages: PageMap, p: Payload) {
    p.count > 0 && p.start + p.count <= |pages| && forall k :: p.start <= k < p.start + p.count ==>
          pages[k] == PAYLOAD_PAGE
  }

  predicate Apart(p: Payload, q: Payload) {
    p.start + p.count <= q.start || q.start + q.count <= p.start
  }

  lemma PaidStays(pages: PageMap, payloads: seq<Payload>, index: nat, count: nat)
    requires Paid(pages, payloads) && index + count <= |pages|
    requires forall k :: index <= k < index + count ==> !pages[k].occupied
    ensures Paid(WithSpan(pages, index, count), payloads)
  {
    hide PaidPages, WithSpan;
    forall i | 0 <= i < |payloads|
      ensures PaidPages(WithSpan(pages, index, count), payloads[i])
    {
      PaidKept(pages, payloads[i], index, count);
    }
  }

  lemma PaidKept(pages: PageMap, p: Payload, index: nat, count: nat)
    requires PaidPages(pages, p) && index + count <= |pages|
    requires forall k :: index <= k < index + count ==> !pages[k].occupied
    ensures PaidPages(WithSpan(pages, index, count), p)
  {
    forall k | p.start <= k < p.start + p.count
      ensures WithSpan(pages, index, count)[k] == PAYLOAD_PAGE
    {
      assert pages[k].occupied;
    }
  }

  function WithPayload(pages: PageMap, p: Payload): (r: PageMap)
    ensures |r| == |pages|
  {
    seq(|pages|, i requires 0 <= i < |pages| => if p.start <= i < p.start + p.count then PAYLOAD_PAGE else pages[i])
  }

  /** A new payload in free pages disturbs none of the others. */
  lemma PaidMore(pages: PageMap, payloads: seq<Payload>, p: Payload)
    requires Paid(pages, payloads) && p.count > 0 && p.start + p.count <= |pages|
    requires forall k :: p.start <= k < p.start + p.count ==> !pages[k].occupied
    ensures Paid(WithPayload(pages, p), payloads + [p])
  {
    hide PaidPages, WithPayload, Apart;
    PaidNew(pages, p);
    forall i | 0 <= i < |payloads|
      ensures PaidPages(WithPayload(pages, p), payloads[i]) && Apart(payloads[i], p)
    {
      PaidApart(pages, payloads[i], p);
    }
  }

  lemma PaidNew(pages: PageMap, p: Payload)
    requires p.count > 0 && p.start + p.count <= |pages|
    ensures PaidPages(WithPayload(pages, p), p)
  {
  }

  lemma PaidApart(pages: PageMap, p: Payload, q: Payload)
    requires PaidPages(pages, p) && q.count > 0 && q.start + q.count <= |pages|
    requires forall k :: q.start <= k < q.start + q.count ==> !pages[k].occupied
    ensures Apart(p, q) && PaidPages(WithPayload(pages, q), p)
  {
    // wherever the later of the two starts, the other does not reach it
    var _, _ := pages[p.start], pages[q.start];
    forall k | p.start <= k < p.start + p.count
      ensures WithPayload(pages, q)[k] == PAYLOAD_PAGE
    {
      assert pages[k] == PAYLOAD_PAGE;
    }
  }

  // ----- what has been handed out

  function LinesOf(span: Span): nat {
    if span.pages == 0 then 0 else LayoutOf(span.pages * PAGE_SIZE).lines
  }

  /** Blocks lie in used lines and hold the bytes asked for, and later blocks of an
      allocator lie behind earlier ones. */
  ghost predicate Handed(spans: Spans, blocks: seq<Block>) {
    && (forall i :: i in spans ==> spans[i].used <= LinesOf(spans[i]))
    && (forall i :: 0 <= i < |blocks| ==>
          && blocks[i].page in spans && blocks[i].line + blocks[i].lines <= spans[blocks[i].page].used
          && blocks[i].size <= 32 * blocks[i].lines)
    && (forall i, j :: 0 <= i < j < |blocks| && blocks[i].page == blocks[j].page ==>
          blocks[i].line + blocks[i].lines <= blocks[j].line)
  }

  function LinesAt(base: nat, page: nat, count: nat): nat
    requires count > 0
  {
    base + page * PAGE_SIZE + (LayoutOf(count * PAGE_SIZE).header + LayoutOf(count * PAGE_SIZE).bitmap) * LINE_SIZE
  }

  function AddressOf(base: nat, spans: Spans, b: Block): nat
    requires b.page in spans && spans[b.page].pages > 0
  {
    LinesAt(base, b.page, spans[b.page].pages) + b.line * LINE_SIZE
  }

  /** Every block lies in its allocator's pages, behind its header and bitmap. */
  lemma BlockInside(pages: PageMap, spans: Spans, blocks: seq<Block>, base: nat, i: nat)
    requires Marked(pages, spans) && Handed(spans, blocks) && i < |blocks|
    ensures var b := blocks[i]; var l := LayoutOf(spans[b.page].pages * PAGE_SIZE);
            base + b.page * PAGE_SIZE + (l.header + l.bitmap) * LINE_SIZE <= AddressOf(base, spans, b)
            && AddressOf(base, spans, b) + b.lines * LINE_SIZE <= base + (b.page + spans[b.page].pages) * PAGE_SIZE
  {
    LayoutFills(spans[blocks[i].page].pages);
    hide LayoutOf;
  }

  /** No two blocks of a run share a byte, whatever allocators they came from. */
  lemma BlocksDisjoint(pages: PageMap, spans: Spans, blocks: seq<Block>, base: nat, i: nat, j: nat)
    requires Marked(pages, spans) && Handed(spans, blocks) && i < j < |blocks|
    ensures var b, c := blocks[i], blocks[j];
            || AddressOf(base, spans, b) + b.lines * LINE_SIZE <= AddressOf(base, spans, c)
            || AddressOf(base, spans, c) + c.lines * LINE_SIZE <= AddressOf(base, spans, b)
  {
    hide LayoutOf, LinesOf;
    var b, c := blocks[i], blocks[j];
    BlockInside(pages, spans, blocks, base, i);
    BlockInside(pages, spans, blocks, base, j);
    if b.page < c.page {
      SpansDisjoint(pages, spans, b.page, c.page);
    } else if c.page < b.page {
      SpansDisjoint(pages, spans, c.page, b.page);
    }
  }

  lemma HandedMore(spans: Spans, blocks: seq<Block>, k: nat, n: nat, size: nat)
    requires Handed(spans, blocks) && k in spans && spans[k].used + n <= LinesOf(spans[k]) && size <= 32 * n
    ensures Handed(spans[k := Span(spans[k].pages, spans[k].used + n)], blocks + [Block(k, spans[k].used, n, size)])
  {
    hide LinesOf;
    assert LinesOf(Span(spans[k].pages, spans[k].used + n)) == LinesOf(spans[k]) by { SameLines(spans[k], n); }
  }

  lemma SameLines(span: Span, n: nat)
    ensures LinesOf(Span(span.pages, span.used + n)) == LinesOf(span)
  {
  }

  lemma HandedNew(spans: Spans, blocks: seq<Block>, index: nat, count: nat)
    requires Handed(spans, blocks) && index !in spans
    ensures Handed(spans[index := Span(count, 0)], blocks)
  {
    hide LinesOf;
  }

  /** An allocator's pages are no payload. */
  lemma SpanNotPaid(pages: PageMap, spans: Spans, p: Payload, i: nat)
    requires Marked(pages, spans) && PaidPages(pages, p) && i in spans
    ensures i + spans[i].pages <= p.start || p.start + p.count <= i
  {
    // the later of the two starts with its own mark
    var _, _ := pages[p.start], pages[i];
  }

  function BytesOfBlock(base: nat, spans: Spans, b: Block): Bytes
    requires b.page in spans && spans[b.page].pages > 0
  {
    Bytes(AddressOf(base, spans, b), AddressOf(base, spans, b) + b.lines * LINE_SIZE)
  }

  /** The bytes the caller asked for. */
  function Requested(base: nat, spans: Spans, b: Block): Bytes
    requires b.page in spans && spans[b.page].pages > 0
  {
    Bytes(AddressOf(base, spans, b), AddressOf(base, spans, b) + b.size)
  }

  function BytesOfPayload(base: nat, p: Payload): Bytes {
    Bytes(base + p.start * PAGE_SIZE, base + (p.start + p.count) * PAGE_SIZE)
  }

  /** Blocks and payloads share no byte with each other, nor with the map before them. */
  ghost predicate NothingShared(base: nat, map_: Bytes, spans: Spans, blocks: seq<Block>, payloads: seq<Payload>) {
    && (forall i {:trigger blocks[i]} :: 0 <= i < |blocks| ==>
          blocks[i].page in spans && spans[blocks[i].page].pages > 0
              && Disjoint(map_, BytesOfBlock(base, spans, blocks[i])))
    && (forall j {:trigger payloads[j]} :: 0 <= j < |payloads| ==> Disjoint(map_, BytesOfPayload(base, payloads[j])))
    && (forall i, j {:trigger blocks[i], blocks[j]} :: 0 <= i < j < |blocks| ==>
          Disjoint(BytesOfBlock(base, spans, blocks[i]), BytesOfBlock(base, spans, blocks[j])))
    && (forall i, j {:trigger payloads[i], payloads[j]} :: 0 <= i < j < |payloads| ==>
          Disjoint(BytesOfPayload(base, payloads[i]), BytesOfPayload(base, payloads[j])))
    && (forall i, j {:trigger blocks[i], payloads[j]} :: 0 <= i < |blocks| && 0 <= j < |payloads| ==>
          Disjoint(BytesOfBlock(base, spans, blocks[i]), BytesOfPayload(base, payloads[j])))
  }

  lemma BlockInBytes(pages: PageMap, spans: Spans, blocks: seq<Block>, base: nat, i: nat)
    requires Marked(pages, spans) && Handed(spans, blocks) && i < |blocks|
    ensures blocks[i].page in spans && spans[blocks[i].page].pages > 0
    ensures base + blocks[i].page * PAGE_SIZE <= BytesOfBlock(base, spans, blocks[i]).from
    ensures BytesOfBlock(base, spans, blocks[i]).to <= base + (blocks[i].page + spans[blocks[i].page].pages) * PAGE_SIZE
  {
    hide LayoutOf, LinesOf;
    BlockInside(pages, spans, blocks, base, i);
  }

  lemma BlockAndPayload(pages: PageMap, spans: Spans, blocks: seq<Block>, payloads: seq<Payload>, base: nat, i: nat,
      j: nat)
    requires Marked(pages, spans) && Handed(spans, blocks) && Paid(pages, payloads) && i < |blocks| && j < |payloads|
    ensures blocks[i].page in spans && spans[blocks[i].page].pages > 0
    ensures Disjoint(BytesOfBlock(base, spans, blocks[i]), BytesOfPayload(base, payloads[j]))
  {
    hide BytesOfBlock, Marked, Handed;
    BlockInBytes(pages, spans, blocks, base, i);
    SpanNotPaid(pages, spans, payloads[j], blocks[i].page);
  }

  lemma EverythingApart(pages: PageMap, spans: Spans, blocks: seq<Block>, payloads: seq<Payload>, base: nat,
      map_: Bytes)
    requires Marked(pages, spans) && Handed(spans, blocks) && Paid(pages, payloads) && map_.to <= base
    ensures NothingShared(base, map_, spans, blocks, payloads)
  {
    hide BytesOfBlock, Marked, Handed;
    forall i | 0 <= i < |blocks|
      ensures blocks[i].page in spans && spans[blocks[i].page].pages > 0
      ensures Disjoint(map_, BytesOfBlock(base, spans, blocks[i]))
      ensures forall j {:trigger payloads[j]} :: 0 <= j < |payloads| ==>
                Disjoint(BytesOfBlock(base, spans, blocks[i]), BytesOfPayload(base, payloads[j]))
    {
      BlockInBytes(pages, spans, blocks, base, i);
      forall j | 0 <= j < |payloads|
        ensures Disjoint(BytesOfBlock(base, spans, blocks[i]), BytesOfPayload(base, payloads[j]))
      {
        BlockAndPayload(pages, spans, blocks, payloads, base, i, j);
      }
    }
    forall i, j | 0 <= i < j < |blocks|
      ensures Disjoint(BytesOfBlock(base, spans, blocks[i]), BytesOfBlock(base, spans, blocks[j]))
    {
      BlockBytesDisjoint(pages, spans, blocks, base, i, j);
    }
  }

  /** The bytes asked for by any two requests are apart. */
  ghost predicate RequestsApart(base: nat, spans: Spans, blocks: seq<Block>) {
    forall i, j :: 0 <= i < j < |blocks| ==> RequestsDisjoint(base, spans, blocks[i], blocks[j])
  }

  ghost predicate RequestsDisjoint(base: nat, spans: Spans, b: Block, c: Block) {
    && b.page in spans && spans[b.page].pages > 0 && c.page in spans && spans[c.page].pages > 0
    && Disjoint(Requested(base, spans, b), Requested(base, spans, c))
  }

  lemma RequestsOfHanded(base: nat, spans: Spans, blocks: seq<Block>, pages: PageMap)
    requires Marked(pages, spans) && Handed(spans, blocks)
    ensures RequestsApart(base, spans, blocks)
  {
    hide Marked, Handed, Requested, BytesOfBlock;
    forall i, j | 0 <= i < j < |blocks|
      ensures RequestsDisjoint(base, spans, blocks[i], blocks[j])
    {
      BlockBytesDisjoint(pages, spans, blocks, base, i, j);
      RequestInside(spans, blocks, base, i);
      RequestInside(spans, blocks, base, j);
    }
  }

  lemma RequestInside(spans: Spans, blocks: seq<Block>, base: nat, i: nat)
    requires Handed(spans, blocks) && i < |blocks|
    requires blocks[i].page in spans && spans[blocks[i].page].pages > 0
    ensures BytesOfBlock(base, spans, blocks[i]).from == Requested(base, spans, blocks[i]).from
    ensures Requested(base, spans, blocks[i]).to <= BytesOfBlock(base, spans, blocks[i]).to
  {
    hide AddressOf;
  }

  lemma BlockBytesDisjoint(pages: PageMap, spans: Spans, blocks: seq<Block>, base: nat, i: nat, j: nat)
    requires Marked(pages, spans) && Handed(spans, blocks) && i < j < |blocks|
    ensures blocks[i].page in spans && spans[blocks[i].page].pages > 0
    ensures blocks[j].page in spans && spans[blocks[j].page].pages > 0
    ensures Disjoint(BytesOfBlock(base, spans, blocks[i]), BytesOfBlock(base, spans, blocks[j]))
  {
    hide LinesAt;
    BlocksDisjoint(pages, spans, blocks, base, i, j);
  }

  // ----- requests

  /** Some allocator has as many free lines as asked for. */
  ghost predicate Serves(spans: Spans, n: nat, i: nat) {
    i in spans && spans[i].used <= LinesOf(spans[i]) && n <= LinesOf(spans[i]) - spans[i].used
  }

  ghost predicate FirstServing(spans: Spans, n: nat, i: nat) {
    Serves(spans, n, i) && forall j: nat :: j < i ==> !Serves(spans, n, j)
  }

  ghost predicate SomeServes(spans: Spans, n: nat) {
    exists i :: Serves(spans, n, i)
  }

  lemma ServingFound(spans: Spans, n: nat, i: nat)
    requires Serves(spans, n, i) && forall j: nat :: j < i ==> !Serves(spans, n, j)
    ensures FirstServing(spans, n, i) && SomeServes(spans, n)
  {
  }

  lemma NoneServing(pages: PageMap, spans: Spans, n: nat)
    requires Marked(pages, spans) && forall j: nat :: j < |pages| ==> !Serves(spans, n, j)
    ensures !SomeServes(spans, n)
  {
  }

  lemma ServingUnique(spans: Spans, n: nat, i: nat, j: nat)
    requires FirstServing(spans, n, i)
    ensures SomeServes(spans, n) && Serves(spans, n, i)
    ensures FirstServing(spans, n, j) ==> i == j
  {
  }

  lemma ServesPresent(spans: Spans, n: nat, i: nat)
    requires Serves(spans, n, i)
    ensures i in spans
  {
  }

  lemma NoneFirst(spans: Spans, n: nat)
    requires !SomeServes(spans, n)
    ensures !exists k :: FirstServing(spans, n, k)
  {
  }

  lemma ServingNew(spans: Spans, n: nat, i: nat)
    requires i in spans && spans[i] == Span(CreatePages(n), 0) && n <= CreatedLines(n)
    ensures Serves(spans, Max(n, 1), i) && Serves(spans, n, i)
  {
    CreatedServes(n);
    LayoutFills(CreatePages(n));
  }

  /** The requests the kernel halts on: no allocator serves them and there is no room
      for another, or they are empty and the first allocator is full. */
  ghost predicate Refused(pages: PageMap, spans: Spans, n: nat) {
    || (!SomeServes(spans, n) && !HasRun(OccupiedPages(pages), CreatePages(n)))
    || (n == 0 && exists k :: FirstServing(spans, 0, k) && !Serves(spans, 1, k))
  }

  /** The answer to a request: a block behind all earlier ones, of as few lines as hold
      the bytes asked for, or of one line for no bytes. */
  ghost predicate Answered(base: nat, spans: Spans, before: seq<Block>, blocks: seq<Block>, size: nat, address: nat) {
    && |blocks| == |before| + 1 && blocks[..|before|] == before
    && var b := blocks[|before|];
       && b.size == size <= 32 * b.lines < (if size == 0 then 33 else size + 32)
       && b.page in spans && spans[b.page].pages > 0 && address == AddressOf(base, spans, b)
  }

  lemma AnsweredBy(base: nat, spans: Spans, blocks: seq<Block>, k: nat, size: nat)
    requires k in spans && spans[k].pages > 0
    ensures var s: Span := spans[k];
            var m := Max(LinesFor(size), 1);
            Answered(base, spans[k := Span(s.pages, s.used + m)], blocks, blocks + [Block(k, s.used, m, size)], size,
                     LinesAt(base, k, s.pages) + s.used * LINE_SIZE)
  {
    hide LinesAt, LinesFor;
    LinesHold(size);
  }

  /** The allocator a request goes to, and when it fails there. */
  lemma Chosen(pages: PageMap, before: Spans, spans: Spans, n: nat, k: nat)
    requires SomeServes(before, n) ==> FirstServing(before, n, k) && spans == before
    requires !SomeServes(before, n) ==>
      && n <= CreatedLines(n) && spans == before[k := Span(CreatePages(n), 0)]
      && HasRun(OccupiedPages(pages), CreatePages(n))
    ensures k in spans && Serves(spans, n, k)
    ensures !Serves(spans, Max(n, 1), k) <==> Refused(pages, before, n)
  {
    hide HasRun, Serves, SomeServes, FirstServing, CreatePages, LinesOf;
    if SomeServes(before, n) {
      ServingUnique(before, n, k, k);
      ServesPresent(spans, n, k);
      forall j | FirstServing(before, n, j)
        ensures j == k
      {
        ServingUnique(before, n, k, j);
      }
    } else {
      NoneFirst(before, n);
      ServingNew(spans, n, k);
    }
  }

  function LinesFor(size: nat): nat {
    size / LINE_SIZE + (if size % LINE_SIZE != 0 then 1 else 0)
  }

  /** The least number of lines that hold the bytes asked for. */
  lemma LinesHold(size: nat)
    ensures size <= 32 * LinesFor(size) < size + 32
    ensures size <= 32 * Max(LinesFor(size), 1)
  {
  }

  /** Lines of the allocator made for a request. */
  function CreatedLines(n: nat): nat {
    LinesOf(Span(CreatePages(n), 0))
  }

  /** An allocator does what its span says. */
  ghost predicate Does(a: LineAllocator, base: nat, page: nat, span: Span)
    reads a, a.bitmap
  {
    && span.pages > 0 && a.Valid(span.used)
    && a.lineCount == LinesOf(span) && a.lines == LinesAt(base, page, span.pages)
  }

  lemma DoesFree(a: LineAllocator, base: nat, page: nat, span: Span)
    requires Does(a, base, page, span)
    ensures a.freeLines == LinesOf(span) - span.used && span.used <= LinesOf(span) == a.lineCount
    ensures span.pages > 0 && a.lines > 0 && a.Valid(span.used) && a.lines == LinesAt(base, page, span.pages)
    ensures a.allocatedCount == 0 ==> a.freeLines == LinesOf(span) > 0
  {
    LayoutFills(span.pages);
  }

  lemma ServeOutcome(a: LineAllocator, base: nat, page: nat, span: Span, n: nat, pointer: nat)
    requires span.pages > 0 && a.lineCount == LinesOf(span) && a.lines == LinesAt(base, page, span.pages)
    requires if pointer == 0 then a.Valid(span.used) else a.Valid(span.used + n)
    ensures if pointer == 0 then Does(a, base, page, span) else Does(a, base, page, Span(span.pages, span.used + n))
  {
    hide LinesOf, LinesAt, LineAllocator.Valid;
    SameLines(span, n);
  }

  lemma NewDoes(a: LineAllocator, base: nat, page: nat, count: nat)
    requires count > 0 && a.Valid(0) && a.lineCount == LayoutOf(count * PAGE_SIZE).lines
    requires a.lines == LinesAt(base, page, count)
    ensures Does(a, base, page, Span(count, 0))
  {
  }

  /** Free pages behind the reserved one. */
  function StartPages(count: nat): (pages: PageMap)
    requires count > 0
    ensures |pages| == count
  {
    [RESERVED_PAGE] + seq(count - 1, i => FREE_PAGE)
  }

  lemma StartValid(count: nat)
    requires count > 0
    ensures Marked(StartPages(count), map[]) && Handed(map[], []) && Paid(StartPages(count), []) && Distinct(map[])
  {
  }

  ghost predicate Distinct(allocators: map<nat, LineAllocator>) {
    forall i, j :: i in allocators && j in allocators && i != j ==>
      allocators[i] != allocators[j] && allocators[i].bitmap != allocators[j].bitmap
  }

  lemma DistinctMore(allocators: map<nat, LineAllocator>, index: nat, target: LineAllocator)
    requires Distinct(allocators)
    requires forall i :: i in allocators ==> allocators[i] != target && allocators[i].bitmap != target.bitmap
    ensures Distinct(allocators[index := target])
  {
  }

  /** The map and the allocators are objects of their own here. In memory they are
      apart only where MmInitialize made the map long enough, which PageMaps gives
      the exact condition for; Valid names it. */
  class Manager {
    const table: array<PageInformation>
    const mapAddress: nat
    const base: nat
    var allocators: map<nat, LineAllocator>   // the object in each allocator page
    ghost var spans: Spans
    ghost var blocks: seq<Block>
    ghost var payloads: seq<Payload>
    ghost var Repr: set<object>

    ghost predicate Footprint()
      reads this
    {
      && this in Repr && table in Repr && allocators.Keys == spans.Keys
      && (forall i :: i in allocators ==> allocators[i] in Repr && allocators[i].bitmap in Repr)
      && Distinct(allocators)
    }

    ghost predicate Valid()
      reads this, Repr
    {
      && Footprint()
      && (forall i :: i in allocators ==> Does(allocators[i], base, i, spans[i]))
      && Marked(table[..], spans) && Handed(spans, blocks) && Paid(table[..], payloads)
      && mapAddress + table.Length <= base
    }

    /** What MmInitialize sets up in memory of a size where its map is long enough:
        every page free but the first. It goes on to create one allocator. */
    constructor (start: nat, size: nat)
      requires LargeEnough(start, size) && LayoutFor(start, size).count > 0 && MapApart(LayoutFor(start, size))
      ensures Valid() && fresh(Repr) && spans == map[] && blocks == [] && payloads == []
      ensures mapAddress == LayoutFor(start, size).map_ && base == LayoutFor(start, size).pages
      ensures table[..] == StartPages(LayoutFor(start, size).count)
    {
      hide LayoutFor, LargeEnough, Does, Distinct, Marked, Handed, Paid;
      var layout := ComputeLayout(start, size);
      mapAddress := layout.map_;
      base := layout.pages;
      table := new PageInformation[layout.count](i => if i == 0 then RESERVED_PAGE else FREE_PAGE);
      allocators := map[];
      spans := map[];
      blocks := [];
      payloads := [];
      Repr := {this, table};
      new;
      StartValid(layout.count);
      assert table[..] == StartPages(layout.count);
    }

    /** Whatever was asked for, in whatever order: nothing handed out shares a byte, and
        the bytes asked for lie in what was handed out. */
    lemma NothingIsShared()
      requires Valid()
      ensures NothingShared(base, Bytes(mapAddress, mapAddress + table.Length), spans, blocks, payloads)
      ensures RequestsApart(base, spans, blocks)
    {
      hide Does, Marked, Handed, Paid, NothingShared, RequestsApart;
      RequestsOfHanded(base, spans, blocks, table[..]);
      EverythingApart(table[..], spans, blocks, payloads, base, Bytes(mapAddress, mapAddress + table.Length));
    }

    /** MiCreateAllocator. The kernel halts where it returns none. */
    method Create(lineCount: nat) returns (found: Option<nat>)
      requires Valid()
      modifies this, table
      ensures Valid() && fresh(Repr - old(Repr)) && blocks == old(blocks) && payloads == old(payloads)
      ensures found.None? <==> !HasRun(old(OccupiedPages(table[..])), CreatePages(lineCount))
      ensures found.None? ==> spans == old(spans)
      ensures found.Some? ==>
        IsFirstRun(old(OccupiedPages(table[..])), CreatePages(lineCount), found.value)
        && found.value !in old(spans) && spans == old(spans)[found.value := Span(CreatePages(lineCount), 0)]
    {
      hide Does, Handed, Marked, Paid, HasRun, IsFirstRun, LinesAt, LinesOf, LayoutOf, WithSpan, LineAllocator.Valid;
      var lines := if lineCount < LINE_BASE then LINE_BASE else lineCount;
      var rawSize := lines * LINE_SIZE;
      var pageCount := rawSize / PAGE_SIZE;
      if rawSize % PAGE_SIZE != 0 {
        pageCount := pageCount + 1;
      }
      CreatedServes(lineCount);
      assert table[0..] == table[..];
      found := FindFreePage(table, 0, pageCount);
      if found.Some? {
        FreeRun(table[..], pageCount, found.value);
        Place(found.value, pageCount);
      }
    }

    /** The second half of MiCreateAllocator, on the pages found. */
    method Place(index: nat, pageCount: nat)
      requires Valid() && pageCount > 0 && index + pageCount <= table.Length
      requires forall k :: index <= k < index + pageCount ==> !table[..][k].occupied
      modifies this, table
      ensures Valid() && fresh(Repr - old(Repr)) && blocks == old(blocks) && payloads == old(payloads)
      ensures index !in old(spans) && spans == old(spans)[index := Span(pageCount, 0)]
    {
      hide Does, Handed, Marked, Paid, LinesOf, LayoutOf, WithSpan, LineAllocator.Valid, LineAllocator.Marks, IsPrefix;
      PaidStays(table[..], payloads, index, pageCount);
      SpanAdded(table[..], spans, index, pageCount);
      HandedNew(spans, blocks, index, pageCount);
      OccupySpan(index, pageCount);
      var target := new LineAllocator(base + index * PAGE_SIZE, pageCount);
      NewDoes(target, base, index, pageCount);
      forall i | i in allocators
        ensures Does(allocators[i], base, i, spans[i])
      {
        assert old(Does(allocators[i], base, i, spans[i]));
      }
      Enter(index, target, pageCount);
    }

    method Enter(index: nat, target: LineAllocator, ghost pageCount: nat)
      requires Footprint() && index !in spans && Does(target, base, index, Span(pageCount, 0))
      requires target !in Repr && target.bitmap !in Repr
      requires forall i :: i in allocators ==> Does(allocators[i], base, i, spans[i])
      requires Marked(table[..], spans[index := Span(pageCount, 0)])
          && Handed(spans[index := Span(pageCount, 0)], blocks)
      requires Paid(table[..], payloads) && mapAddress + table.Length <= base
      modifies this`allocators, this`spans, this`Repr
      ensures Valid() && Repr == old(Repr) + {target, target.bitmap}
      ensures spans == old(spans)[index := Span(pageCount, 0)]
    {
      hide Does, Handed, Marked, Paid, Distinct;
      DistinctMore(allocators, index, target);
      allocators := allocators[index := target];
      spans := spans[index := Span(pageCount, 0)];
      Repr := Repr + {target, target.bitmap};
    }

    method OccupySpan(index: nat, count: nat)
      requires count > 0 && index + count <= table.Length
      modifies table
      ensures table[..] == WithSpan(old(table[..]), index, count)
    {
      table[index] := ALLOCATOR_PAGE;
      for z := 1 to count
        invariant table[..] == WithSpan(old(table[..]), index, z)
      {
        table[index + z] := SPACE_PAGE;
      }
    }

    /** MiLocateAllocator: the first allocator with enough free lines, or a new one. */
    method Locate(lineCount: nat) returns (found: Option<nat>)
      requires Valid()
      modifies this, table
      ensures Valid() && fresh(Repr - old(Repr)) && blocks == old(blocks) && payloads == old(payloads)
      ensures SomeServes(old(spans), lineCount) ==>
        found.Some? && FirstServing(old(spans), lineCount, found.value) && spans == old(spans)
      ensures !SomeServes(old(spans), lineCount) ==>
        && (found.None? <==> !HasRun(old(OccupiedPages(table[..])), CreatePages(lineCount)))
        && (found.None? ==> spans == old(spans))
        && (found.Some? ==> spans == old(spans)[found.value := Span(CreatePages(lineCount), 0)])
    {
      hide Does, Handed, Marked, Paid, HasRun, IsFirstRun, LinesOf, FirstServing, SomeServes;
      for i := 0 to table.Length
        invariant Valid() && spans == old(spans) && blocks == old(blocks) && payloads == old(payloads)
        invariant Repr == old(Repr) && table[..] == old(table[..])
        invariant forall j: nat :: j < i ==> !Serves(spans, lineCount, j)
      {
        FlagMeans(table[..], spans, i);
        if table[i].allocator {
          DoesFree(allocators[i], base, i, spans[i]);
          if allocators[i].freeLines >= lineCount {
            ServingFound(spans, lineCount, i);
            return Some(i);
          }
        }
      }
      NoneServing(table[..], spans, lineCount);
      found := Create(lineCount);
    }

    /** MmAllocateMemory. It halts, returning none, on exactly the refused requests.
        A request no allocator can serve needs a new one that can: if the new one is
        too small the recount leaves its arrays. */
    method AllocateMemory(size: nat) returns (address: Option<nat>)
      requires Valid()
      requires SomeServes(spans, LinesFor(size)) || LinesFor(size) <= CreatedLines(LinesFor(size))
      modifies Repr
      ensures Valid() && fresh(Repr - old(Repr)) && payloads == old(payloads)
      ensures address.None? ==> blocks == old(blocks)
      ensures address.Some? ==> Answered(base, spans, old(blocks), blocks, size, address.value)
      ensures address.None? <==> Refused(old(table[..]), old(spans), LinesFor(size))
    {
      hide Does, Handed, Marked, Paid, HasRun, IsFirstRun, LinesOf, LinesAt, LayoutOf, Serves, FirstServing, SomeServes,
        CreatePages, CreatedLines, OccupiedPages, Answered;
      var lineCount := size / LINE_SIZE;
      if size % LINE_SIZE != 0 {
        lineCount := lineCount + 1;
      }
      var target := Locate(lineCount);
      if target.None? {
        NoneFirst(old(spans), lineCount);
        return None;
      }
      Chosen(old(table[..]), old(spans), spans, lineCount, target.value);
      address := AllocateAt(target.value, lineCount, size);
    }

    /** MiAllocatorAllocate on the allocator found. */
    method AllocateAt(k: nat, lineCount: nat, ghost size: nat) returns (address: Option<nat>)
      requires Valid() && lineCount == LinesFor(size) && k in allocators && Serves(spans, lineCount, k)
      modifies Repr
      ensures Valid() && Repr == old(Repr) && payloads == old(payloads)
      ensures address.None? <==> !Serves(old(spans), Max(lineCount, 1), k)
      ensures address.None? ==> blocks == old(blocks)
      ensures address.Some? ==> Answered(base, spans, old(blocks), blocks, size, address.value)
    {
      hide Does, Handed, Marked, Paid, Serves, Answered, Max;
      address := AllocateIn(allocators[k], k, lineCount, size);
    }

    /** MiAllocatorAllocate on the allocator in page k. */
    method AllocateIn(a: LineAllocator, ghost k: nat, lineCount: nat, ghost size: nat)
        returns (address: Option<nat>)
      requires Valid() && lineCount == LinesFor(size)
      requires k in allocators && a == allocators[k] && Serves(spans, lineCount, k)
      modifies this`spans, this`blocks, a`freeLines, a`allocatedCount, a.bitmap
      ensures Valid()
      ensures address.None? <==> !Serves(old(spans), Max(lineCount, 1), k)
      ensures address.None? ==> blocks == old(blocks) && spans == old(spans)
      ensures address.Some? ==>
        var n := Max(lineCount, 1); var s: Span := old(spans)[k];
        && spans == old(spans)[k := Span(s.pages, s.used + n)] && blocks == old(blocks) + [Block(k, s.used, n, size)]
        && Answered(base, spans, old(blocks), blocks, size, address.value)
    {
      hide Handed, Marked, Paid, LinesOf, LinesAt, Does, Serves, Answered, Max;
      var pointer := Serve(a, k, lineCount);
      if pointer == 0 {
        address := None;
      } else {
        address := Some(pointer);
        AnsweredBy(base, spans, blocks, k, size);
        LinesHold(size);
        Record(k, Max(lineCount, 1), size);
      }
    }

    /** The lines just marked enter the history. */
    ghost method Record(k: nat, n: nat, size: nat)
      requires size <= 32 * n
      requires Footprint() && k in spans && spans[k].used + n <= LinesOf(spans[k])
      requires Does(allocators[k], base, k, Span(spans[k].pages, spans[k].used + n))
      requires forall i :: i in allocators && i != k ==> Does(allocators[i], base, i, spans[i])
      requires Marked(table[..], spans) && Handed(spans, blocks) && Paid(table[..], payloads)
      requires mapAddress + table.Length <= base
      modifies this`spans, this`blocks
      ensures Valid()
      ensures spans == old(spans)[k := Span(old(spans[k].pages), old(spans[k].used) + n)]
      ensures blocks == old(blocks) + [Block(k, old(spans[k].used), n, size)]
    {
      hide Handed, Marked, Paid, LinesOf, Does;
      HandedMore(spans, blocks, k, n, size);
      MarkedStays(table[..], spans, k, n);
      blocks := blocks + [Block(k, spans[k].used, n, size)];
      spans := spans[k := Span(spans[k].pages, spans[k].used + n)];
    }

    /** The request itself, and what it leaves of the other allocators. */
    method Serve(a: LineAllocator, ghost k: nat, lineCount: nat) returns (pointer: nat)
      requires Footprint() && k in allocators && a == allocators[k] && Serves(spans, lineCount, k)
      requires forall i :: i in allocators ==> Does(allocators[i], base, i, spans[i])
      modifies a`freeLines, a`allocatedCount, a.bitmap
      ensures pointer == 0 <==> !Serves(spans, Max(lineCount, 1), k)
      ensures pointer == 0 ==> Does(a, base, k, spans[k])
      ensures pointer != 0 ==>
        var n := Max(lineCount, 1); var s: Span := spans[k];
        && s.pages > 0 && s.used + n <= LinesOf(s)
        && pointer == LinesAt(base, k, s.pages) + s.used * LINE_SIZE && Does(a, base, k, Span(s.pages, s.used + n))
      ensures forall i :: i in allocators && i != k ==> Does(allocators[i], base, i, spans[i])
    {
      hide LinesOf, LinesAt, LayoutOf, IsPrefix, LineAllocator.Marks, LineAllocator.Valid, Does;
      ghost var s: Span := spans[k];
      DoesFree(a, base, k, s);
      pointer := a.Allocate(lineCount, s.used);
      ServeOutcome(a, base, k, s, Max(lineCount, 1), pointer);
      forall i | i in allocators && i != k
        ensures Does(allocators[i], base, i, spans[i])
      {
        assert old(Does(allocators[i], base, i, spans[i]));
      }
    }

    method OccupyPayload(start: nat, count: nat)
      requires start + count <= table.Length
      modifies table
      ensures table[..] == WithPayload(old(table[..]), Payload(start, count))
    {
      for z := 0 to count
        invariant table[..] == WithPayload(old(table[..]), Payload(start, z))
      {
        table[start + z] := PAYLOAD_PAGE;
      }
    }

    /** MmAllocatePayload: whole pages, marked so; none where the kernel halts. */
    method AllocatePayload(pageCount: nat) returns (address: Option<nat>)
      requires Valid()
      modifies table, this`payloads
      ensures Valid()
      ensures address.None? <==> pageCount == 0 || !HasRun(old(OccupiedPages(table[..])), pageCount)
      ensures address.None? ==> table[..] == old(table[..]) && payloads == old(payloads)
      ensures address.Some? ==>
        && |payloads| > 0 && var p := payloads[|payloads| - 1];
           && payloads == old(payloads) + [p] && p.count == pageCount
           && IsFirstRun(old(OccupiedPages(table[..])), pageCount, p.start)
           && address.value == base + p.start * PAGE_SIZE && table[..] == WithPayload(old(table[..]), p)
    {
      hide Does, Handed, Marked, Paid, HasRun, IsFirstRun, WithPayload;
      assert table[0..] == table[..];
      var found := FindFreePage(table, 0, pageCount);
      if found.None? {
        return None;
      }
      var start := found.value;
      ghost var p := Payload(start, pageCount);
      FreeRun(table[..], pageCount, start);
      PagesTaken(table[..], spans, p);
      PaidMore(table[..], payloads, p);
      OccupyPayload(start, pageCount);
      payloads := payloads + [p];
      address := Some(base + start * PAGE_SIZE);
    }
  }

  lemma FreeRun(pages: PageMap, count: nat, start: nat)
    requires IsFirstRun(OccupiedPages(pages), count, start)
    ensures start + count <= |pages| && forall k :: start <= k < start + count ==> !pages[k].occupied
  {
  }
}
