/** The five-level tables of inuoskrnl/pvm/base.c, as values: what the pages hold,
    what an address finds in them, and the invariant every map call keeps. */
module PageTables {
  import Arith
  import opened Bits

  const COUNT: nat := 512
  const PF_GRANULARITY: nat := 4096
  const LPTE_GRANULARITY: nat := 2097152
  const LPDE_GRANULARITY: nat := 1073741824
  const GPDE_GRANULARITY: nat := 281474976710656

  datatype Attributes = Attributes(present: bool, rw: bool, us: bool, global: bool, wt: bool, cd: bool)

  /** One 64-bit entry of any level. The address field has 48 bits, but on IA32
      it only ever receives 32-bit pointers and frames. */
  datatype Entry = Entry(address: U32, attributes: Attributes)

  const CLEAR: Attributes := Attributes(false, false, false, false, false, false)
  const ZERO: Entry := Entry(0, CLEAR)

  function ZeroTable(): (t: seq<Entry>)
    ensures |t| == COUNT && forall i :: 0 <= i < COUNT ==> t[i] == ZERO
  {
    seq(COUNT, i => ZERO)
  }

  /** A table's place: its level, root first, and the address bits above it. */
  datatype Slot = Slot(level: nat, prefix: nat)

  const ROOT: Slot := Slot(0, 0)

  function Child(s: Slot, i: nat): Slot {
    Slot(s.level + 1, s.prefix * COUNT + i)
  }

  function Parent(s: Slot): Slot {
    Slot(if s.level == 0 then 0 else s.level - 1, s.prefix / COUNT)
  }

  /** The last-level table responsible for a page. */
  function LeafSlot(page: nat): Slot {
    Slot(4, page / COUNT)
  }

  type Pages = map<U32, seq<Entry>>
  type Layout = map<Slot, U32>
  type Mapping = map<nat, Entry>

  function AddressOf(at: Layout, s: Slot): U32 {
    if s in at then at[s] else 0
  }

  function LeafOf(mapped: Mapping, page: nat): Entry {
    if page in mapped then mapped[page] else ZERO
  }

  /** What the table at slot s must hold: the addresses of the tables below it, or
      at the last level the frames and attributes themselves. */
  ghost predicate TableHolds(table: seq<Entry>, at: Layout, mapped: Mapping, s: Slot) {
    && |table| == COUNT
    && (s.level < 4 ==> forall i :: 0 <= i < COUNT ==> table[i].address == AddressOf(at, Child(s, i)))
    && (s.level == 4 ==> forall i :: 0 <= i < COUNT ==> table[i] == LeafOf(mapped, s.prefix * COUNT + i))
  }

  ghost predicate Injective(at: Layout) {
    forall s, t :: s in at && t in at && at[s] == at[t] ==> s == t
  }

  /** There is one root, and every other table hangs below a table of the level above. */
  ghost predicate Closed(at: Layout, mapped: Mapping) {
    && ROOT in at
    && (forall s :: s in at && s.level == 0 ==> s == ROOT)
    && (forall s {:trigger Parent(s)} :: s in at && s.level > 0 ==> Parent(s) in at)
    && (forall page {:trigger LeafSlot(page)} :: page in mapped ==> LeafSlot(page) in at)
  }

  /** The pages in memory are exactly the tables of the layout, each holds what its
      slot demands, and no two slots share a page. */
  ghost predicate Linked(pages: Pages, at: Layout, mapped: Mapping) {
    && Closed(at, mapped)
    && Injective(at)
    && (forall s :: s in at ==> s.level <= 4 && at[s] != 0 && at[s] in pages && TableHolds(pages[at[s]], at, mapped, s))
    && (forall a :: a in pages ==> exists s :: s in at && at[s] == a)
  }

  lemma ClosedOf(pages: Pages, at: Layout, mapped: Mapping)
    requires Linked(pages, at, mapped)
    ensures Closed(at, mapped)
  {
  }

  // ----- the three ways a map call changes memory

  function SetAddress(pages: Pages, table: U32, i: nat, a: U32): Pages
    requires table in pages && i < |pages[table]|
  {
    pages[table := pages[table][i := pages[table][i].(address := a)]]
  }

  function SetAttributes(pages: Pages, table: U32, i: nat, attributes: Attributes): Pages
    requires table in pages && i < |pages[table]|
  {
    pages[table := pages[table][i := pages[table][i].(attributes := attributes)]]
  }

  lemma ChildInjective(s: Slot, i: nat, t: Slot, j: nat)
    requires i < COUNT && j < COUNT && Child(s, i) == Child(t, j)
    ensures s == t && i == j
  {
  }

  lemma ChildParent(s: Slot, i: nat)
    requires i < COUNT
    ensures Parent(Child(s, i)) == s
  {
  }

  lemma LeafPage(s: Slot, i: nat)
    requires s.level == 4 && i < COUNT
    ensures LeafSlot(s.prefix * COUNT + i) == s
  {
  }

  lemma NothingBelow(at: Layout, mapped: Mapping, c: Slot, j: nat)
    requires Closed(at, mapped) && c !in at && j < COUNT
    ensures Child(c, j) !in at
    ensures c.level == 4 ==> c.prefix * COUNT + j !in mapped
  {
    ChildParent(c, j);
    if c.level == 4 {
      LeafPage(c, j);
    }
  }

  lemma NewTableEmpty(at: Layout, mapped: Mapping, c: Slot, a: U32)
    requires Closed(at, mapped) && c !in at && c.level <= 4
    ensures TableHolds(ZeroTable(), at[c := a], mapped, c)
  {
    hide Closed;
    var table := ZeroTable();
    forall j | 0 <= j < COUNT
      ensures c.level < 4 ==> table[j].address == AddressOf(at[c := a], Child(c, j))
      ensures c.level == 4 ==> table[j] == LeafOf(mapped, c.prefix * COUNT + j)
    {
      NothingBelow(at, mapped, c, j);
    }
  }

  lemma OldTableKept(pages: Pages, at: Layout, mapped: Mapping, s: Slot, i: nat, a: U32, t: Slot)
    requires s in at && t in at && at[s] in pages && at[t] in pages && (at[s] == at[t] ==> s == t)
    requires TableHolds(pages[at[s]], at, mapped, s) && TableHolds(pages[at[t]], at, mapped, t)
    requires s.level < 4 && i < COUNT && Child(s, i) !in at && a !in pages
    ensures TableHolds(SetAddress(pages[a := ZeroTable()], at[s], i, a)[at[t]], at[Child(s, i) := a], mapped, t)
  {
    var c := Child(s, i);
    var at' := at[c := a];
    var table := SetAddress(pages[a := ZeroTable()], at[s], i, a)[at[t]];
    if t.level < 4 {
      forall j | 0 <= j < COUNT
        ensures table[j].address == AddressOf(at', Child(t, j))
      {
        if Child(t, j) == c {
          ChildInjective(s, i, t, j);
        }
      }
    }
  }

  lemma TableLength(table: seq<Entry>, at: Layout, mapped: Mapping, s: Slot)
    requires TableHolds(table, at, mapped, s)
    ensures |table| == COUNT
  {
  }

  lemma ClosedUnderAdd(at: Layout, mapped: Mapping, s: Slot, i: nat, a: U32)
    requires Closed(at, mapped) && s in at && i < COUNT
    ensures Closed(at[Child(s, i) := a], mapped)
  {
    ChildParent(s, i);
  }

  /** A fresh table below an empty entry keeps the tables linked. */
  lemma AddTable(pages: Pages, at: Layout, mapped: Mapping, s: Slot, i: nat, a: U32)
    requires Linked(pages, at, mapped)
    requires s in at && s.level < 4 && i < COUNT && Child(s, i) !in at
    requires a != 0 && a !in pages
    ensures Linked(SetAddress(pages[a := ZeroTable()], at[s], i, a), at[Child(s, i) := a], mapped)
  {
    hide TableHolds, Closed;
    var c := Child(s, i);
    var at' := at[c := a];
    assert |pages[at[s]]| == COUNT by {
      assert TableHolds(pages[at[s]], at, mapped, s);
      TableLength(pages[at[s]], at, mapped, s);
    }
    var pages' := SetAddress(pages[a := ZeroTable()], at[s], i, a);
    ClosedUnderAdd(at, mapped, s, i, a);
    NewTableEmpty(at, mapped, c, a);
    forall t | t in at
      ensures TableHolds(pages'[at'[t]], at', mapped, t)
    {
      OldTableKept(pages, at, mapped, s, i, a, t);
    }
    forall b | b in pages'
      ensures exists t :: t in at' && at'[t] == b
    {
      if b == a {
        assert at'[c] == b;
      } else {
        var t :| t in at && at[t] == b;
        assert at'[t] == b;
      }
    }
  }

  /** The attributes of an entry above the last level carry no meaning here. */
  lemma ChangeAttributes(pages: Pages, at: Layout, mapped: Mapping, s: Slot, i: nat, attributes: Attributes)
    requires Linked(pages, at, mapped)
    requires s in at && s.level < 4 && i < COUNT
    ensures Linked(SetAttributes(pages, at[s], i, attributes), at, mapped)
  {
    var pages' := SetAttributes(pages, at[s], i, attributes);
    forall t | t in at
      ensures TableHolds(pages'[at[t]], at, mapped, t)
    {
    }
  }

  /** Writing a last-level entry changes what its page maps to, and no other page. */
  lemma ChangeLeaf(pages: Pages, at: Layout, mapped: Mapping, s: Slot, i: nat, e: Entry)
    requires Linked(pages, at, mapped)
    requires s in at && s.level == 4 && i < COUNT
    ensures Linked(pages[at[s] := pages[at[s]][i := e]], at, mapped[s.prefix * COUNT + i := e])
  {
    var pages' := pages[at[s] := pages[at[s]][i := e]];
    var mapped' := mapped[s.prefix * COUNT + i := e];
    forall t | t in at
      ensures TableHolds(pages'[at[t]], at, mapped', t)
    {
    }
  }

  // ----- walking

  /** The bits of a page number that select a table of the given level, root 0;
      level 5 is the page itself. */
  function Prefix(level: nat, page: nat): nat
    requires level <= 5
    decreases 5 - level
  {
    if level == 5 then page else Prefix(level + 1, page) / COUNT
  }

  function PathSlot(level: nat, page: nat): Slot
    requires level <= 5
  {
    Slot(level, Prefix(level, page))
  }

  function Index(level: nat, page: nat): (i: nat)
    requires level <= 4
    ensures i < COUNT
  {
    Prefix(level + 1, page) % COUNT
  }

  lemma PathStep(level: nat, page: nat)
    requires level <= 4
    ensures Child(PathSlot(level, page), Index(level, page)) == PathSlot(level + 1, page)
    ensures Parent(PathSlot(level + 1, page)) == PathSlot(level, page)
  {
  }

  /** What the five-level walk finds for a page, entering at a table of the given
      level: the last-level entry, or the zero entry where a link is missing. */
  function Descend(pages: Pages, table: U32, level: nat, page: nat): Entry
    requires level <= 4
    decreases 4 - level
  {
    if table !in pages || |pages[table]| != COUNT then ZERO
    else
      var e := pages[table][Index(level, page)];
      if level == 4 then e
      else if e.address == 0 then ZERO
      else Descend(pages, e.address, level + 1, page)
  }

  /** The walk agrees with the mapping the calls built. */
  lemma {:induction false} DescendFinds(pages: Pages, at: Layout, mapped: Mapping, level: nat, page: nat)
    requires Linked(pages, at, mapped) && level <= 4 && PathSlot(level, page) in at
    ensures Descend(pages, at[PathSlot(level, page)], level, page) == LeafOf(mapped, page)
    decreases 4 - level
  {
    hide Closed, Prefix;
    PathStep(level, page);
    var s := PathSlot(level, page);
    assert TableHolds(pages[at[s]], at, mapped, s);
    if level < 4 {
      if PathSlot(level + 1, page) in at {
        DescendFinds(pages, at, mapped, level + 1, page);
      } else {
        MissingPath(at, mapped, level + 1, page);
      }
    } else {
      LastIndex(page);
    }
  }

  lemma LastIndex(page: nat)
    ensures PathSlot(4, page) == LeafSlot(page)
    ensures LeafSlot(page).prefix * COUNT + Index(4, page) == page
  {
    assert Prefix(5, page) == page;
  }

  /** Below a missing table there is nothing. */
  lemma {:induction false} MissingPath(at: Layout, mapped: Mapping, level: nat, page: nat)
    requires Closed(at, mapped) && level <= 4 && PathSlot(level, page) !in at
    ensures page !in mapped && LeafSlot(page) !in at
    decreases 4 - level
  {
    hide Prefix;
    if level < 4 {
      PathStep(level, page);
      MissingPath(at, mapped, level + 1, page);
    } else {
      LastIndex(page);
    }
  }

  const PAGES: nat := 0x10_0000

  lemma Paths32(page: nat)
    requires page < PAGES
    ensures PathSlot(0, page) == ROOT && PathSlot(1, page) == Slot(1, 0) && PathSlot(2, page) == Slot(2, 0)
    ensures PathSlot(3, page) == Slot(3, page / 0x4_0000) && page / 0x4_0000 < 4
    ensures PathSlot(4, page) == Slot(4, page / 512) && page / 512 < 2048
    ensures Index(0, page) == Index(1, page) == 0 && Index(2, page) == page / 0x4_0000
    ensures Index(3, page) == page % 0x4_0000 / 512 && Index(4, page) == page % 512
  {
    assert Prefix(5, page) == page;
    assert Prefix(4, page) == page / 512;
    assert Prefix(3, page) == page / 512 / 512;
    assert Prefix(2, page) == Prefix(3, page) / 512 == 0;
    assert Prefix(1, page) == Prefix(2, page) / 512 == 0;
    assert Prefix(0, page) == Prefix(1, page) / 512 == 0;
  }

  /** The five-level walk of a 32-bit address. */
  function Walk(pages: Pages, root: U32, vaddr: U32): Entry {
    Descend(pages, root, 0, vaddr / PF_GRANULARITY)
  }

  lemma WalkFinds(pages: Pages, at: Layout, mapped: Mapping, vaddr: U32)
    requires Linked(pages, at, mapped)
    ensures Walk(pages, at[ROOT], vaddr) == LeafOf(mapped, vaddr / PF_GRANULARITY)
  {
    hide Prefix;
    Paths32(vaddr / PF_GRANULARITY);
    DescendFinds(pages, at, mapped, 0, vaddr / PF_GRANULARITY);
  }

  // ----- ownership

  /** Entry i of a table above the last level points to page a. */
  ghost predicate PointsTo(pages: Pages, table: U32, i: nat, a: U32) {
    table in pages && i < |pages[table]| && pages[table][i].address == a
  }

  /** Two entries above the last level that hold the same address are one entry. */
  lemma OneOwner(pages: Pages, at: Layout, mapped: Mapping, s: Slot, i: nat, t: Slot, j: nat)
    requires Linked(pages, at, mapped)
    requires s in at && t in at && s.level < 4 && t.level < 4 && i < COUNT && j < COUNT
    requires pages[at[s]][i].address == pages[at[t]][j].address != 0
    ensures s == t && i == j
  {
    hide Closed;
    assert TableHolds(pages[at[s]], at, mapped, s);
    assert TableHolds(pages[at[t]], at, mapped, t);
    assert pages[at[s]][i].address == AddressOf(at, Child(s, i));
    assert pages[at[t]][j].address == AddressOf(at, Child(t, j));
    ChildInjective(s, i, t, j);
  }

  /** Every page but the root is pointed to by an entry above the last level. */
  lemma HasOwner(pages: Pages, at: Layout, mapped: Mapping, a: U32) returns (s: Slot, i: nat)
    requires Linked(pages, at, mapped) && a in pages && a != at[ROOT]
    ensures s in at && s.level < 4 && i < COUNT && PointsTo(pages, at[s], i, a)
  {
    var c :| c in at && at[c] == a;
    s, i := Parent(c), c.prefix % COUNT;
    assert Child(s, i) == c;
    assert TableHolds(pages[at[s]], at, mapped, s);
    assert pages[at[s]][i].address == AddressOf(at, c);
  }

  /** The table on the given level that the links of a page lead to, entering at a
      table of an upper level; zero where a link is missing. */
  function TableAt(pages: Pages, table: U32, from: nat, level: nat, page: nat): U32
    requires from <= level <= 4
    decreases level - from
  {
    if from == level then table
    else if table !in pages || |pages[table]| != COUNT then 0
    else TableAt(pages, pages[table][Index(from, page)].address, from + 1, level, page)
  }

  lemma {:induction false} TableReached(pages: Pages, at: Layout, mapped: Mapping, from: nat, level: nat, page: nat)
    requires Linked(pages, at, mapped) && from <= level <= 4 && PathSlot(level, page) in at
    ensures PathSlot(from, page) in at
    ensures TableAt(pages, at[PathSlot(from, page)], from, level, page) == at[PathSlot(level, page)]
    decreases level - from
  {
    hide Closed, Prefix;
    if from < level {
      TableReached(pages, at, mapped, from + 1, level, page);
      PathStep(from, page);
      ParentPresent(at, mapped, PathSlot(from + 1, page));
      assert TableHolds(pages[at[PathSlot(from, page)]], at, mapped, PathSlot(from, page));
    }
  }

  lemma ParentPresent(at: Layout, mapped: Mapping, s: Slot)
    requires Closed(at, mapped) && s in at
    ensures ROOT in at && (s.level > 0 ==> Parent(s) in at) && (s.level == 0 ==> s == ROOT)
  {
  }

  /** The first page a table is responsible for. */
  function FirstPage(s: Slot): nat
    requires s.level <= 5
    decreases 5 - s.level
  {
    if s.level == 5 then s.prefix else FirstPage(Child(s, 0))
  }

  lemma {:induction false} FirstPagePath(s: Slot)
    requires s.level <= 5
    ensures Prefix(s.level, FirstPage(s)) == s.prefix
    decreases 5 - s.level
  {
    if s.level < 5 {
      FirstPagePath(Child(s, 0));
      Arith.DivUnique(s.prefix * COUNT, COUNT, s.prefix, 0);
    }
  }

  /** No table is unreachable: from the root the links of some page lead to it. */
  lemma EveryTableReached(pages: Pages, at: Layout, mapped: Mapping, a: U32) returns (level: nat, page: nat)
    requires Linked(pages, at, mapped) && a in pages
    ensures ROOT in at && level <= 4 && TableAt(pages, at[ROOT], 0, level, page) == a
  {
    hide TableAt, Prefix, Closed;
    var s :| s in at && at[s] == a;
    level, page := s.level, FirstPage(s);
    FirstPagePath(s);
    assert PathSlot(level, page) == s;
    TableReached(pages, at, mapped, 0, level, page);
    ParentPresent(at, mapped, PathSlot(0, page));
  }

  // ----- which tables exist

  /** The tables a set of mapped pages needs: the root and every table on a path. */
  ghost function Needed(mapped: set<nat>): set<Slot> {
    {ROOT} + OnPaths(1, mapped) + OnPaths(2, mapped) + OnPaths(3, mapped) + OnPaths(4, mapped)
  }

  ghost function OnPaths(level: nat, mapped: set<nat>): set<Slot>
    requires level <= 4
  {
    set page | page in mapped :: PathSlot(level, page)
  }

  ghost function Prefixes(level: nat, mapped: set<nat>): set<nat>
    requires level <= 4
  {
    set page | page in mapped :: Prefix(level, page)
  }

  lemma NeededGrows(mapped: set<nat>, page: nat)
    ensures Needed(mapped + {page}) ==
            Needed(mapped) + {PathSlot(1, page), PathSlot(2, page), PathSlot(3, page), PathSlot(4, page)}
  {
    OnPathsGrows(1, mapped, page);
    OnPathsGrows(2, mapped, page);
    OnPathsGrows(3, mapped, page);
    OnPathsGrows(4, mapped, page);
  }

  lemma OnPathsGrows(level: nat, mapped: set<nat>, page: nat)
    requires level <= 4
    ensures OnPaths(level, mapped + {page}) == OnPaths(level, mapped) + {PathSlot(level, page)}
  {
  }

  lemma {:induction false} SlotsCount(level: nat, prefixes: set<nat>)
    ensures |set p | p in prefixes :: Slot(level, p)| == |prefixes|
    decreases prefixes
  {
    if prefixes != {} {
      var p :| p in prefixes;
      SlotsCount(level, prefixes - {p});
      assert (set q | q in prefixes :: Slot(level, q))
          == (set q | q in prefixes - {p} :: Slot(level, q)) + {Slot(level, p)};
    } else {
      assert (set q | q in prefixes :: Slot(level, q)) == {};
    }
  }

  lemma AddLevel(above: set<Slot>, level: nat, mapped: set<nat>) returns (all: set<Slot>)
    requires level <= 4 && forall s :: s in above ==> s.level < level
    ensures all == above + OnPaths(level, mapped)
    ensures |all| == |above| + |Prefixes(level, mapped)|
    ensures forall s :: s in all ==> s.level < level + 1
  {
    SlotsCount(level, Prefixes(level, mapped));
    assert OnPaths(level, mapped) == set p | p in Prefixes(level, mapped) :: Slot(level, p);
    all := above + OnPaths(level, mapped);
    assert above !! OnPaths(level, mapped);
  }

  /** One table per distinct prefix at each level below the root. */
  lemma TableCount(mapped: set<nat>)
    ensures |Needed(mapped)|
      == 1 + |Prefixes(1, mapped)| + |Prefixes(2, mapped)| + |Prefixes(3, mapped)| + |Prefixes(4, mapped)|
  {
    hide OnPaths, Prefixes;
    var l1 := AddLevel({ROOT}, 1, mapped);
    var l2 := AddLevel(l1, 2, mapped);
    var l3 := AddLevel(l2, 3, mapped);
    var l4 := AddLevel(l3, 4, mapped);
  }

  // ----- the full map

  ghost function Below(n: nat): (s: set<nat>)
    ensures forall x: nat :: x in s <==> x < n
  {
    if n == 0 then {} else Below(n - 1) + {n - 1}
  }

  lemma {:induction false} BelowSize(n: nat)
    ensures |Below(n)| == n
  {
    if n > 0 {
      BelowSize(n - 1);
      var below := Below(n - 1);
      assert n - 1 !in below && Below(n) == below + {n - 1};
    }
  }

  lemma FullPrefixes()
    ensures Prefixes(1, Below(PAGES)) == Below(1) && Prefixes(2, Below(PAGES)) == Below(1)
  {
    hide Prefix;
    forall page: nat | page < PAGES
      ensures Prefix(1, page) == Prefix(2, page) == 0
    {
      Paths32(page);
    }
    Paths32(0);
    assert 0 in Below(PAGES);
  }

  lemma FullPrefixes3()
    ensures Prefixes(3, Below(PAGES)) == Below(4)
  {
    hide Prefix;
    forall page: nat | page < PAGES
      ensures Prefix(3, page) < 4
    {
      Paths32(page);
    }
    forall x: nat | x < 4
      ensures x in Prefixes(3, Below(PAGES))
    {
      var page := x * 0x4_0000;
      Arith.DivUnique(page, 0x4_0000, x, 0);
      Paths32(page);
      assert page in Below(PAGES);
    }
  }

  lemma FullPrefixes4()
    ensures Prefixes(4, Below(PAGES)) == Below(2048)
  {
    hide Prefix;
    forall page: nat | page < PAGES
      ensures Prefix(4, page) < 2048
    {
      Paths32(page);
    }
    forall x: nat | x < 2048
      ensures x in Prefixes(4, Below(PAGES))
    {
      var page := x * 512;
      Arith.DivUnique(page, 512, x, 0);
      Paths32(page);
      assert page in Below(PAGES);
    }
  }

  /** Mapping the whole 32-bit space takes 2054 tables below the root. */
  lemma FullMapTables()
    ensures |Needed(Below(PAGES))| == 1 + 2054
  {
    hide Needed, Prefixes;
    TableCount(Below(PAGES));
    FullPrefixes();
    FullPrefixes3();
    FullPrefixes4();
    BelowSize(1);
    BelowSize(4);
    BelowSize(2048);
  }

  /** More pages never need fewer tables. */
  lemma NeededMonotone(p: set<nat>, q: set<nat>)
    requires p <= q
    ensures Needed(p) <= Needed(q)
  {
  }
}
