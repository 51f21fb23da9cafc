/** Blocks that were handed out and not given back, in pools that also free
    (inuoskrnl/ga/base.c): what keeps them apart. */
module LiveBlocks {
  import opened FirstFit
  import opened Ga
  import opened HeapRuns
  import opened Memory

  // ----- in one pool's marks

  /** All cells of a block are marked. */
  ghost predicate HeldIn(s: Marks, b: Block) {
    b.n > 0 && b.start + b.n <= |s| && forall i :: b.start <= i < b.start + b.n ==> s[i]
  }

  predicate BlocksApart(b: Block, c: Block) {
    b.pool != c.pool || b.start + b.n <= c.start || c.start + c.n <= b.start
  }

  /** A block placed in a free run overlaps none that is held, and all stay held. */
  lemma MarkKeeps(s: Marks, b: Block, c: Block)
    requires HeldIn(s, b) && c.n > 0 && IsRun(s, c.start, c.n)
    ensures HeldIn(MarkRun(s, c.start, c.n), b) && BlocksApart(b, c)
  {
    // wherever the later of the two starts, the other does not reach it
    var _, _ := s[b.start], s[c.start];
  }

  lemma MarkHolds(s: Marks, c: Block)
    requires c.n > 0 && IsRun(s, c.start, c.n)
    ensures HeldIn(MarkRun(s, c.start, c.n), c)
  {
  }

  /** Freeing a block leaves those apart from it held. */
  lemma ClearKeeps(s: Marks, b: Block, c: Block)
    requires HeldIn(s, b) && b.pool == c.pool && BlocksApart(b, c)
    ensures HeldIn(ClearRun(s, c.start, c.n), b)
  {
  }

  // ----- in memory

  ghost predicate PoolsApart(extents: seq<Extent>) {
    && (forall i {:trigger extents[i]} :: 0 <= i < |extents| ==> extents[i].count > 0)
    && (forall i, j {:trigger extents[i], extents[j]} :: 0 <= i < j < |extents| ==> Apart(extents[i], extents[j]))
  }

  /** The block lies among its pool's blocks. */
  ghost predicate Placed(extents: seq<Extent>, b: Block) {
    b.pool < |extents| && extents[b.pool].count > 0 && b.start + b.n <= Capacity(extents[b.pool].count)
  }

  function AddressOf(base: nat, extents: seq<Extent>, b: Block): nat
    requires b.pool < |extents| && extents[b.pool].count > 0
  {
    DataOf(base, extents[b.pool]) + BLOCK_SIZE * b.start
  }

  function BytesOf(base: nat, extents: seq<Extent>, b: Block): Bytes
    requires b.pool < |extents| && extents[b.pool].count > 0
  {
    Bytes(AddressOf(base, extents, b), AddressOf(base, extents, b) + BLOCK_SIZE * b.n)
  }

  /** A placed block lies behind its pool's header and bitmap and inside its pages. */
  lemma LiveInside(base: nat, extents: seq<Extent>, b: Block)
    requires Placed(extents, b)
    ensures DataOf(base, extents[b.pool]) <= BytesOf(base, extents, b).from
    ensures BytesOf(base, extents, b).to <= PageAddress(base, extents[b.pool].first + extents[b.pool].count)
    ensures PageAddress(base, extents[b.pool].first) + POOL_HEADER <= DataOf(base, extents[b.pool])
  {
    hide LayoutOf, Capacity;
    CapacityFits(extents[b.pool].count);
  }

  /** Blocks apart in their pools are apart in memory. */
  lemma LiveDisjoint(base: nat, extents: seq<Extent>, b: Block, c: Block)
    requires PoolsApart(extents) && Placed(extents, b) && Placed(extents, c) && BlocksApart(b, c)
    ensures Disjoint(BytesOf(base, extents, b), BytesOf(base, extents, c))
  {
    hide LayoutOf, Capacity, DataOf;
    if b.pool != c.pool {
      LiveInside(base, extents, b);
      LiveInside(base, extents, c);
      var e, f := extents[b.pool], extents[c.pool];
      assert Apart(e, f) || Apart(f, e);
    }
  }

  /** The bytes asked for with two requests whose blocks are apart are apart, and lie in
      their pools behind the headers. */
  lemma RequestsDisjoint(base: nat, extents: seq<Extent>, b: Block, m: nat, c: Block, n: nat)
    requires PoolsApart(extents) && Placed(extents, b) && Placed(extents, c) && BlocksApart(b, c)
    requires m <= 64 * b.n && n <= 64 * c.n
    ensures var p, q := AddressOf(base, extents, b), AddressOf(base, extents, c);
            && (p + m <= q || q + n <= p)
            && base + 4096 * extents[b.pool].first + 28 <= p
            && p + m <= base + 4096 * (extents[b.pool].first + extents[b.pool].count)
  {
    hide LayoutOf, Capacity, DataOf, PoolsApart, Placed, BlocksApart, AddressOf;
    LiveDisjoint(base, extents, b, c);
    LiveInside(base, extents, b);
    RequestInside(base, extents, b, m);
    RequestInside(base, extents, c, n);
  }

  lemma RequestInside(base: nat, extents: seq<Extent>, b: Block, m: nat)
    requires Placed(extents, b) && m <= 64 * b.n
    ensures AddressOf(base, extents, b) == BytesOf(base, extents, b).from
    ensures AddressOf(base, extents, b) + m <= BytesOf(base, extents, b).to
  {
    hide LayoutOf, Capacity, DataOf;
  }

  // ----- the requests

  /** Every live block holds the bytes asked for. */
  ghost predicate Sized(live: map<Block, nat>) {
    forall b :: b in live ==> 0 < live[b] <= 64 * b.n
  }

  lemma SizedMore(live: map<Block, nat>, b: Block, size: nat)
    requires Sized(live) && 0 < size <= 64 * b.n
    ensures Sized(live[b := size])
  {
  }

  lemma SizedLess(live: map<Block, nat>, b: Block)
    requires Sized(live)
    ensures Sized(live - {b})
  {
  }

  ghost predicate AllApart(live: map<Block, nat>) {
    forall b, c :: b in live && c in live && b != c ==> BlocksApart(b, c)
  }

  lemma ApartMore(live: map<Block, nat>, b: Block, size: nat)
    requires AllApart(live) && forall c :: c in live && c.pool == b.pool ==> BlocksApart(c, b)
    ensures AllApart(live[b := size])
  {
    forall c | c in live && c != b
      ensures BlocksApart(b, c) && BlocksApart(c, b)
    {
      if c.pool == b.pool {
        assert BlocksApart(c, b);
      }
    }
  }

  lemma ApartLess(live: map<Block, nat>, b: Block)
    requires AllApart(live)
    ensures AllApart(live - {b})
    ensures b in live ==> forall c :: c in live && c != b ==> BlocksApart(c, b)
  {
    hide BlocksApart;
  }
}
