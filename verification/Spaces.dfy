/** Address space descriptions and the map calls of inuoskrnl/pvm/base.c. */
module Spaces {
  import Arith
  import opened Bits
  import opened PageTables
  import opened Permissions

  /** Page addresses the page allocator has not handed out yet. */
  ghost predicate Supply(free: seq<U32>, used: set<U32>) {
    && (forall i, j :: 0 <= i < j < |free| ==> free[i] != free[j])
    && (forall i :: 0 <= i < |free| ==> free[i] != 0 && free[i] % PF_GRANULARITY == 0 && free[i] !in used)
  }

  /** Tables missing from the given level down on the path to a page. */
  ghost function Missing(at: Layout, page: nat, level: nat): nat
    requires 1 <= level <= 5
    decreases 5 - level
  {
    if level == 5 then 0
    else (if PathSlot(level, page) in at then 0 else 1) + Missing(at, page, level + 1)
  }

  ghost function PathFrom(level: nat, page: nat): set<Slot>
    requires 1 <= level <= 5
    decreases 5 - level
  {
    if level == 5 then {} else {PathSlot(level, page)} + PathFrom(level + 1, page)
  }

  ghost predicate Extends(at: Layout, at': Layout) {
    forall s :: s in at ==> s in at' && at'[s] == at[s]
  }

  /** A Description together with the memory it allocates from. */
  class Description {
    var pages: Pages               // abstract table pages, by address
    var native: map<U32, Words>    // native table pages, by address
    var free: seq<U32>
    var gpde: U32
    var global: U32
    var modified: bool
    ghost var at: Layout
    ghost var mapped: Mapping
    ghost var recent: Regions

    ghost predicate Valid()
      reads this
    {
      && Linked(pages, at, mapped) && Permits(pages, at, recent)
      && at[ROOT] == gpde
      && Supply(free, pages.Keys + native.Keys)
      && pages.Keys !! native.Keys
    }

    /** VmCreateDescription followed by HalInitializeDescription. */
    constructor (supply: seq<U32>)
      requires |supply| > 0 && Supply(supply, {})
      ensures Valid()
      ensures mapped == map[] && recent == map[] && at.Keys == {ROOT} && native == map[] && !modified
      ensures free == supply[1..]
    {
      pages := map[supply[0] := ZeroTable()];
      native := map[];
      free := supply[1..];
      gpde := supply[0];
      global := 0;
      modified := false;
      at := map[ROOT := supply[0]];
      mapped := map[];
      recent := map[];
      new;
      EmptyLinked(supply[0]);
      EmptyPermits(supply[0]);
    }

    /** ObCreatePayload(1): a zeroed page nobody else holds. */
    method CreatePayload() returns (a: U32)
      requires |free| > 0
      modifies this`free, this`pages
      ensures a == old(free[0]) && free == old(free[1..])
      ensures pages == old(pages)[a := ZeroTable()]
    {
      a := free[0];
      free := free[1..];
      pages := pages[a := ZeroTable()];
    }

    /** The same for a page of native words, filled with what the caller copies in. */
    method CreateNative(words: Words) returns (a: U32)
      requires Valid() && |free| > 0
      modifies this`free, this`native
      ensures Valid() && free == old(free[1..])
      ensures a == old(free[0]) && a % PF_GRANULARITY == 0 && a !in old(native)
      ensures native == old(native)[a := words]
    {
      hide Linked;
      a := free[0];
      free := free[1..];
      native := native[a := words];
    }

    /** The loop never advances its pointer: only the first entry is cleared. */
    method TableInitialize(a: U32)
      requires a in pages && |pages[a]| == COUNT
      modifies this`pages
      ensures pages == old(SetAddress(pages, a, 0, 0))
    {
      var i := 0;
      while i < COUNT
        invariant 0 <= i
        invariant pages == if i == 0 then old(pages) else old(SetAddress(pages, a, 0, 0))
      {
        SetTwice(old(pages), a, 0, 0);
        pages := SetAddress(pages, a, 0, 0);
        i := i + 1;
      }
    }

    /** The allocation every level shares: a missing table is created below the
        entry, and the entry made to point to it. */
    method Ensure(table: U32, i: nat, ghost level: nat, ghost page: nat) returns (below: U32)
      requires Valid() && level < 4 && PathSlot(level, page) in at
      requires table == at[PathSlot(level, page)] && i == Index(level, page)
      requires Ready(pages, at, recent, level, page)
      requires |free| >= Missing(at, page, level + 1)
      modifies this`free, this`pages, this`at
      ensures Valid() && Extends(old(at), at)
      ensures at.Keys == old(at).Keys + {PathSlot(level + 1, page)} && below == at[PathSlot(level + 1, page)]
      ensures |at| + |free| == old(|at| + |free|)
      ensures |free| >= Missing(at, page, level + 2)
    {
      hide Linked, Permits, Ready, Supply, Prefix, Missing;
      EntryOnPath(pages, at, mapped, level, page);
      MissingStep(at, page, level + 1);
      if pages[table][i].address == 0 {
        AddTableOnPath(pages, at, mapped, native.Keys, free, level, page);
        PermitsAdd(pages, at, mapped, recent, level, page, free[0]);
        TableInPlace(pages, table, i, free[0]);
        var data := CreatePayload();
        pages := SetAddress(pages, table, i, data);
        TableInitialize(pages[table][i].address);
        at := at[PathSlot(level + 1, page) := data];
      }
      below := pages[table][i].address;
    }

    /** The two attributes every map call sets on the upper levels. */
    method Allow(table: U32, i: nat, ghost level: nat, ghost page: nat)
      requires Valid() && level < 3 && PathSlot(level, page) in at
      requires table == at[PathSlot(level, page)] && i == Index(level, page)
      modifies this`pages
      ensures Valid() && pages.Keys == old(pages.Keys) && Ready(pages, at, recent, level, page)
    {
      hide Linked, Permits, Ready, Supply, Prefix;
      EntryOnPath(pages, at, mapped, level, page);
      LinkedUnderAttributes(pages, at, mapped, level, page);
      OpenExactly(pages, at, mapped, recent, level, page);
      var attributes := pages[table][i].attributes.(present := true, rw := true);
      PermitsSet(pages, at, mapped, recent, level, page, attributes);
      pages := SetAttributes(pages, table, i, attributes);
    }

    /** VmiMapGpde: index 0, because the address has only 32 bits. */
    method MapGpde(table: U32, i: nat, baseOffset: nat, paddr: U32, vaddr: U32, attr: Attributes)
      requires Valid() && table == gpde && i == 0 && baseOffset == vaddr
      requires PathSlot(0, vaddr / PF_GRANULARITY) in at && Ready(pages, at, recent, 0, vaddr / PF_GRANULARITY)
      requires |free| >= Missing(at, vaddr / PF_GRANULARITY, 1)
      modifies this`free, this`pages, this`at, this`mapped, this`recent
      ensures Valid() && Extends(old(at), at)
      ensures at.Keys == old(at).Keys + PathFrom(1, vaddr / PF_GRANULARITY)
      ensures |at| + |free| == old(|at| + |free|)
      ensures mapped == old(mapped)[vaddr / PF_GRANULARITY := Entry(paddr, attr)]
      ensures recent == WithRegion(old(recent), 3, vaddr / PF_GRANULARITY, attr)
    {
      hide Linked, Permits, Ready, Supply, Prefix, Missing, PathFrom;
      ghost var page := vaddr / PF_GRANULARITY;
      Offsets(vaddr);
      RootOnPath(pages, at, mapped, page);
      var mpdeData := Ensure(table, i, 0, page);
      var mpdeIndex := baseOffset / GPDE_GRANULARITY;
      Allow(mpdeData, mpdeIndex, 1, page);
      var offset := baseOffset - mpdeIndex * GPDE_GRANULARITY;
      PathFromStep(1, page);
      MapMpde(mpdeData, mpdeIndex, offset, paddr, vaddr, attr);
    }

    method MapMpde(table: U32, i: nat, baseOffset: nat, paddr: U32, vaddr: U32, attr: Attributes)
      requires Valid() && PathSlot(1, vaddr / PF_GRANULARITY) in at && table == at[PathSlot(1, vaddr / PF_GRANULARITY)]
      requires Ready(pages, at, recent, 1, vaddr / PF_GRANULARITY)
      requires i == Index(1, vaddr / PF_GRANULARITY) && baseOffset == vaddr
      requires |free| >= Missing(at, vaddr / PF_GRANULARITY, 2)
      modifies this`free, this`pages, this`at, this`mapped, this`recent
      ensures Valid() && Extends(old(at), at)
      ensures at.Keys == old(at).Keys + PathFrom(2, vaddr / PF_GRANULARITY)
      ensures |at| + |free| == old(|at| + |free|)
      ensures mapped == old(mapped)[vaddr / PF_GRANULARITY := Entry(paddr, attr)]
      ensures recent == WithRegion(old(recent), 3, vaddr / PF_GRANULARITY, attr)
    {
      hide Linked, Permits, Ready, Supply, Prefix, Missing, PathFrom;
      ghost var page := vaddr / PF_GRANULARITY;
      Offsets(vaddr);
      var lpdeData := Ensure(table, i, 1, page);
      var lpdeIndex := baseOffset / LPDE_GRANULARITY;
      Allow(lpdeData, lpdeIndex, 2, page);
      var offset := baseOffset - lpdeIndex * LPDE_GRANULARITY;
      PathFromStep(2, page);
      MapLpde(lpdeData, lpdeIndex, offset, paddr, vaddr, attr);
    }

    method MapLpde(table: U32, i: nat, baseOffset: nat, paddr: U32, vaddr: U32, attr: Attributes)
      requires Valid() && PathSlot(2, vaddr / PF_GRANULARITY) in at && table == at[PathSlot(2, vaddr / PF_GRANULARITY)]
      requires Ready(pages, at, recent, 2, vaddr / PF_GRANULARITY)
      requires i == Index(2, vaddr / PF_GRANULARITY) && baseOffset == vaddr % LPDE_GRANULARITY
      requires |free| >= Missing(at, vaddr / PF_GRANULARITY, 3)
      modifies this`free, this`pages, this`at, this`mapped, this`recent
      ensures Valid() && Extends(old(at), at)
      ensures at.Keys == old(at).Keys + PathFrom(3, vaddr / PF_GRANULARITY)
      ensures |at| + |free| == old(|at| + |free|)
      ensures mapped == old(mapped)[vaddr / PF_GRANULARITY := Entry(paddr, attr)]
      ensures recent == WithRegion(old(recent), 3, vaddr / PF_GRANULARITY, attr)
    {
      hide Linked, Permits, Ready, Supply, Prefix, Missing, PathFrom;
      ghost var page := vaddr / PF_GRANULARITY;
      Offsets(vaddr);
      var lpteData := Ensure(table, i, 2, page);
      var pteIndex := baseOffset / LPTE_GRANULARITY;
      EntryOnPath(pages, at, mapped, 3, page);
      LinkedUnderAttributes(pages, at, mapped, 3, page);
      PermitsSet(pages, at, mapped, recent, 3, page, attr);
      pages := SetAttributes(pages, lpteData, pteIndex, attr);
      recent := WithRegion(recent, 3, page, attr);
      var offset := baseOffset - pteIndex * LPTE_GRANULARITY;
      PathFromStep(3, page);
      MapLpte(lpteData, pteIndex, offset, paddr, vaddr, attr);
    }

    method MapLpte(table: U32, i: nat, baseOffset: nat, paddr: U32, vaddr: U32, attr: Attributes)
      requires Valid() && PathSlot(3, vaddr / PF_GRANULARITY) in at && table == at[PathSlot(3, vaddr / PF_GRANULARITY)]
      requires Ready(pages, at, recent, 3, vaddr / PF_GRANULARITY)
      requires i == Index(3, vaddr / PF_GRANULARITY) && baseOffset == vaddr % LPTE_GRANULARITY
      requires |free| >= Missing(at, vaddr / PF_GRANULARITY, 4)
      modifies this`free, this`pages, this`at, this`mapped
      ensures Valid() && Extends(old(at), at)
      ensures at.Keys == old(at).Keys + PathFrom(4, vaddr / PF_GRANULARITY)
      ensures |at| + |free| == old(|at| + |free|)
      ensures mapped == old(mapped)[vaddr / PF_GRANULARITY := Entry(paddr, attr)]
    {
      hide Linked, Permits, Ready, Supply, Prefix, Missing, PathFrom;
      ghost var page := vaddr / PF_GRANULARITY;
      Offsets(vaddr);
      var pfData := Ensure(table, i, 3, page);
      var pfIndex := baseOffset / PF_GRANULARITY;
      PathFromStep(4, page);
      MapPf(pfData, pfIndex, paddr, page, attr);
    }

    method MapPf(table: U32, i: nat, paddr: U32, ghost page: nat, attr: Attributes)
      requires Valid() && PathSlot(4, page) in at && table == at[PathSlot(4, page)] && i == Index(4, page)
      modifies this`pages, this`mapped
      ensures Valid()
      ensures mapped == old(mapped)[page := Entry(paddr, attr)]
    {
      hide Linked, Permits, Supply, Prefix;
      PermitsLeaf(pages, at, mapped, recent, page, Entry(paddr, attr));
      LeafOnPath(pages, at, mapped, page, Entry(paddr, attr));
      pages := pages[table := pages[table][i := Entry(paddr, attr)]];
      mapped := mapped[page := Entry(paddr, attr)];
    }

    /** Whatever calls were made, every table page is reached from the root. */
    lemma EveryPageReached(a: U32) returns (level: nat, page: nat)
      requires Valid() && a in pages
      ensures level <= 4 && TableAt(pages, gpde, 0, level, page) == a
    {
      hide Linked, Permits, Supply, TableAt;
      level, page := EveryTableReached(pages, at, mapped, a);
    }

    /** VmMapDescription. The index into the root comes from the physical address,
        which for 32-bit addresses is the same zero. */
    method Map(paddr: U32, vaddr: U32, attr: Attributes)
      requires Valid()
      requires |free| >= Missing(at, vaddr / PF_GRANULARITY, 1)
      modifies this`free, this`pages, this`at, this`mapped, this`recent
      ensures Valid() && Extends(old(at), at)
      ensures at.Keys == old(at).Keys + PathFrom(1, vaddr / PF_GRANULARITY)
      ensures |at| + |free| == old(|at| + |free|)
      ensures mapped == old(mapped)[vaddr / PF_GRANULARITY := Entry(paddr, attr)]
      ensures recent == old(recent)[vaddr / PF_GRANULARITY / COUNT := attr]
    {
      hide Linked, Permits, Ready, Supply, Prefix, Missing, PathFrom;
      var gpdeIndex := paddr / GPDE_GRANULARITY;
      Offsets(vaddr);
      RootOnPath(pages, at, mapped, vaddr / PF_GRANULARITY);
      Allow(gpde, gpdeIndex, 0, vaddr / PF_GRANULARITY);
      var offset := vaddr - gpdeIndex * GPDE_GRANULARITY;
      MapGpde(gpde, gpdeIndex, offset, paddr, vaddr, attr);
      LastIndex(vaddr / PF_GRANULARITY);
    }
  }

  /** Splitting an address level by level gives the indices of its page's path. */
  lemma Offsets(vaddr: U32)
    ensures var page := vaddr / PF_GRANULARITY;
            && Index(0, page) == Index(1, page) == 0
            && Index(2, page) == vaddr / LPDE_GRANULARITY
            && Index(3, page) == vaddr % LPDE_GRANULARITY / LPTE_GRANULARITY
            && Index(4, page) == vaddr % LPTE_GRANULARITY / PF_GRANULARITY
    ensures vaddr % LPDE_GRANULARITY % LPTE_GRANULARITY == vaddr % LPTE_GRANULARITY
  {
    hide Prefix, Index;
    var page, f := Arith.DivMod(vaddr, PF_GRANULARITY);
    var i2, below := Arith.DivMod(page, 0x4_0000);
    var i3, i4 := Arith.DivMod(below, COUNT);
    Paths32(page);
    Arith.DivUnique(page, COUNT, i2 * COUNT + i3, i4);
    Arith.DivUnique(vaddr, LPDE_GRANULARITY, i2, below * PF_GRANULARITY + f);
    Arith.DivUnique(vaddr, LPTE_GRANULARITY, i2 * COUNT + i3, i4 * PF_GRANULARITY + f);
    Arith.DivUnique(below * PF_GRANULARITY + f, LPTE_GRANULARITY, i3, i4 * PF_GRANULARITY + f);
    Arith.DivUnique(i4 * PF_GRANULARITY + f, PF_GRANULARITY, i4, f);
  }

  lemma RootOnPath(pages: Pages, at: Layout, mapped: Mapping, page: nat)
    requires Linked(pages, at, mapped) && page < PAGES
    ensures PathSlot(0, page) == ROOT && ROOT in at
  {
    hide Prefix;
    Paths32(page);
  }

  lemma PathFromStep(level: nat, page: nat)
    requires 1 <= level <= 4
    ensures PathFrom(level, page) == {PathSlot(level, page)} + PathFrom(level + 1, page)
    ensures PathFrom(5, page) == {}
  {
  }

  lemma LinkedUnderAttributes(pages: Pages, at: Layout, mapped: Mapping, level: nat, page: nat)
    requires Linked(pages, at, mapped) && level < 4 && PathSlot(level, page) in at
    ensures at[PathSlot(level, page)] in pages && Index(level, page) < |pages[at[PathSlot(level, page)]]|
    ensures forall attributes ::
      var pages' := SetAttributes(pages, at[PathSlot(level, page)], Index(level, page), attributes);
      Linked(pages', at, mapped) && pages'.Keys == pages.Keys
  {
    hide Linked, Prefix;
    EntryOnPath(pages, at, mapped, level, page);
    forall attributes
      ensures Linked(SetAttributes(pages, at[PathSlot(level, page)], Index(level, page), attributes), at, mapped)
    {
      ChangeAttributes(pages, at, mapped, PathSlot(level, page), Index(level, page), attributes);
    }
  }

  lemma LeafOnPath(pages: Pages, at: Layout, mapped: Mapping, page: nat, e: Entry)
    requires Linked(pages, at, mapped) && PathSlot(4, page) in at
    ensures var table := at[PathSlot(4, page)];
            && table in pages && |pages[table]| == COUNT
            && Linked(pages[table := pages[table][Index(4, page) := e]], at, mapped[page := e])
            && pages[table := pages[table][Index(4, page) := e]].Keys == pages.Keys
  {
    hide Closed, Prefix;
    var s := PathSlot(4, page);
    LastIndex(page);
    assert TableHolds(pages[at[s]], at, mapped, s);
    ChangeLeaf(pages, at, mapped, s, Index(4, page), e);
  }

  lemma SetTwice(pages: Pages, table: U32, i: nat, a: U32)
    requires table in pages && i < |pages[table]|
    ensures SetAddress(SetAddress(pages, table, i, a), table, i, a) == SetAddress(pages, table, i, a)
  {
    var t, e := pages[table], pages[table][i].(address := a);
    assert t[i := e][i := e] == t[i := e];
  }

  /** Clearing the first entry clears a table exactly when the others hold no link. */
  lemma ClearedExactly(pages: Pages, a: U32)
    requires a in pages && |pages[a]| == COUNT
    ensures (forall i :: 0 <= i < COUNT ==> SetAddress(pages, a, 0, 0)[a][i].address == 0) <==>
            (forall i :: 1 <= i < COUNT ==> pages[a][i].address == 0)
  {
    if forall i :: 0 <= i < COUNT ==> SetAddress(pages, a, 0, 0)[a][i].address == 0 {
      forall i | 1 <= i < COUNT
        ensures pages[a][i].address == 0
      {
        assert SetAddress(pages, a, 0, 0)[a][i].address == 0;
      }
    }
  }

  /** One link behind the first entry survives. */
  lemma ClearedExample(pages: Pages, a: U32)
    requires a in pages && pages[a] == ZeroTable()[1 := Entry(4096, CLEAR)]
    ensures !forall i :: 0 <= i < COUNT ==> SetAddress(pages, a, 0, 0)[a][i].address == 0
  {
    assert pages[a][1].address == 4096;
    ClearedExactly(pages, a);
  }

  /** Clearing the first entry of a zeroed page changes nothing. */
  lemma TableInPlace(pages: Pages, table: U32, i: nat, a: U32)
    requires table in pages && i < |pages[table]| && a !in pages
    ensures var pages' := SetAddress(pages[a := ZeroTable()], table, i, a);
            pages'[table][i].address == a && SetAddress(pages', a, 0, 0) == pages'
  {
    assert ZeroTable()[0 := ZERO] == ZeroTable();
  }

  lemma EntryOnPath(pages: Pages, at: Layout, mapped: Mapping, level: nat, page: nat)
    requires Linked(pages, at, mapped) && level < 4 && PathSlot(level, page) in at
    ensures var table := at[PathSlot(level, page)];
            && table in pages && |pages[table]| == COUNT
            && pages[table][Index(level, page)].address == AddressOf(at, PathSlot(level + 1, page))
            && (PathSlot(level + 1, page) in at ==> at[PathSlot(level + 1, page)] != 0)
  {
    hide Closed, Prefix;
    PathStep(level, page);
    var s := PathSlot(level, page);
    assert TableHolds(pages[at[s]], at, mapped, s);
  }

  lemma AddTableOnPath(pages: Pages, at: Layout, mapped: Mapping, others: set<U32>, free: seq<U32>, level: nat,
      page: nat)
    requires Linked(pages, at, mapped) && level < 4 && PathSlot(level, page) in at && PathSlot(level + 1, page) !in at
    requires Supply(free, pages.Keys + others) && |free| > 0
    ensures at[PathSlot(level, page)] in pages && Index(level, page) < |pages[at[PathSlot(level, page)]]|
    ensures free[0] !in pages && free[0] !in others
    ensures var a := free[0];
            var at' := at[PathSlot(level + 1, page) := a];
            var pages' := SetAddress(pages[a := ZeroTable()], at[PathSlot(level, page)], Index(level, page), a);
            && Linked(pages', at', mapped)
            && pages'.Keys == pages.Keys + {a}
            && Supply(free[1..], pages'.Keys + others)
            && at'.Keys == at.Keys + {PathSlot(level + 1, page)} && |at'| == |at| + 1
            && Missing(at', page, level + 2) == Missing(at, page, level + 2)
  {
    hide Linked, Prefix, Missing;
    EntryOnPath(pages, at, mapped, level, page);
    PathStep(level, page);
    AddTable(pages, at, mapped, PathSlot(level, page), Index(level, page), free[0]);
    var at' := at[PathSlot(level + 1, page) := free[0]];
    assert at'.Keys == at.Keys + {PathSlot(level + 1, page)};
    MissingUnchanged(at, at', page, level + 2);
  }

  lemma EmptyPermits(a: U32)
    ensures Permits(map[a := ZeroTable()], map[ROOT := a], map[])
  {
  }

  lemma EmptyLinked(a: U32)
    requires a != 0
    ensures Linked(map[a := ZeroTable()], map[ROOT := a], map[])
  {
  }

  lemma MissingStep(at: Layout, page: nat, level: nat)
    requires 1 <= level <= 4
    ensures Missing(at, page, level) == (if PathSlot(level, page) in at then 0 else 1) + Missing(at, page, level + 1)
  {
  }

  /** A table on one level of the path does not count on the levels below it. */
  lemma {:induction false} MissingUnchanged(at: Layout, at': Layout, page: nat, level: nat)
    requires 1 <= level <= 5
    requires forall s: Slot :: s.level >= level ==> (s in at <==> s in at')
    ensures Missing(at, page, level) == Missing(at', page, level)
    decreases 5 - level
  {
    if level < 5 {
      MissingUnchanged(at, at', page, level + 1);
    }
  }

  // ----- whole runs

  datatype Call = Call(paddr: U32, vaddr: U32, attr: Attributes) {
    function Page(): nat {
      vaddr / PF_GRANULARITY
    }
  }

  /** The entry of the last call for a page, if there is one. */
  function LastCall(calls: seq<Call>, page: nat): Entry {
    if calls == [] then ZERO
    else
      var c := calls[|calls| - 1];
      if c.Page() == page then Entry(c.paddr, c.attr) else LastCall(calls[..|calls| - 1], page)
  }

  /** The attributes of the last call in a 2 MiB region. */
  function LastAttributes(calls: seq<Call>, region: nat): Attributes {
    if calls == [] then CLEAR
    else
      var c := calls[|calls| - 1];
      if c.Page() / COUNT == region then c.attr else LastAttributes(calls[..|calls| - 1], region)
  }

  ghost function PagesOf(calls: seq<Call>): set<nat> {
    set c | c in calls :: c.Page()
  }

  lemma {:induction false} PathFromCount(at: Layout, page: nat, level: nat)
    requires 1 <= level <= 5
    ensures |at.Keys + PathFrom(level, page)| == |at.Keys| + Missing(at, page, level)
    decreases 5 - level
  {
    hide Prefix, PathFrom, Missing;
    PathFromEnd(at, page);
    if level == 5 {
      assert at.Keys + PathFrom(5, page) == at.Keys;
    } else {
      PathFromCount(at, page, level + 1);
      PathFromBelow(level + 1, page);
      PathFromStep(level, page);
      MissingStep(at, page, level);
      InsertSize(at.Keys, PathFrom(level + 1, page), PathSlot(level, page));
    }
  }

  lemma InsertSize<T>(s: set<T>, t: set<T>, x: T)
    requires x !in t
    ensures |s + ({x} + t)| == |s + t| + (if x in s then 0 else 1)
  {
    if x in s {
      assert s + ({x} + t) == s + t;
    } else {
      assert s + ({x} + t) == (s + t) + {x};
    }
  }

  lemma PathFromEnd(at: Layout, page: nat)
    ensures PathFrom(5, page) == {} && Missing(at, page, 5) == 0
  {
  }

  lemma {:induction false} PathFromBelow(level: nat, page: nat)
    requires 1 <= level <= 5
    ensures forall s :: s in PathFrom(level, page) ==> s.level >= level
    decreases 5 - level
  {
    if level < 5 {
      PathFromBelow(level + 1, page);
    }
  }

  lemma NeededAfter(mapped: set<nat>, page: nat)
    ensures Needed(mapped + {page}) == Needed(mapped) + PathFrom(1, page)
  {
    hide Prefix, Needed;
    NeededGrows(mapped, page);
    PathFromStep(1, page);
    PathFromStep(2, page);
    PathFromStep(3, page);
    PathFromStep(4, page);
  }

  /** Enough pages for the tables of a larger set of pages are enough for one more
      page of that set. */
  lemma SupplySuffices(at: Layout, mapped: set<nat>, page: nat, all: set<nat>, free: nat)
    requires at.Keys == Needed(mapped) && mapped <= all && page in all
    requires |at| + free >= |Needed(all)|
    ensures free >= Missing(at, page, 1)
  {
    hide Prefix, Needed, Missing, PathFrom;
    PathFromCount(at, page, 1);
    NeededAfter(mapped, page);
    NeededMonotone(mapped + {page}, all);
    SubsetSize(Needed(mapped + {page}), Needed(all));
  }

  lemma {:induction false} SubsetSize<T>(a: set<T>, b: set<T>)
    requires a <= b
    ensures |a| <= |b|
  {
    assert b == a + (b - a);
  }

  /** Any run of map calls on a fresh description: each address then finds the frame
      and attributes of the last call for its page, the entries on the way there
      allow the access, and exactly the tables those pages need were allocated. */
  method Replay(calls: seq<Call>, supply: seq<U32>) returns (d: Description)
    requires Supply(supply, {}) && |supply| >= |Needed(PagesOf(calls))|
    ensures fresh(d) && d.Valid() && d.mapped.Keys == PagesOf(calls) && Recorded(d.mapped, calls)
    ensures forall vaddr: U32 :: Walk(d.pages, d.gpde, vaddr) == LastCall(calls, vaddr / PF_GRANULARITY)
    ensures forall page :: page in PagesOf(calls) ==>
          WayOpen(d.pages, d.gpde, 0, page, LastAttributes(calls, page / COUNT))
    ensures d.at.Keys == Needed(PagesOf(calls))
    ensures |supply| - |d.free| == |Needed(PagesOf(calls))|
  {
    hide Linked, Permits, Supply, LastCall, LastAttributes, Needed, PagesOf, Walk, WayOpen, Replayed;
    NeededNone();
    SubsetSize({ROOT}, Needed(PagesOf(calls)));
    d := new Description(supply);
    var i := 0;
    ReplayedStart(d, calls, |supply|);
    while i < |calls|
      invariant 0 <= i <= |calls| && d.Valid() && fresh(d)
      invariant Replayed(d, calls[..i], |supply|)
    {
      ReplayCall(d, calls, i, |supply|);
      i := i + 1;
    }
    assert calls[..i] == calls;
    ReplayedEnd(d, calls, |supply|);
  }

  /** The description reflects the calls made so far, out of total pages. */
  ghost predicate Replayed(d: Description, calls: seq<Call>, total: nat)
    reads d
  {
    && d.mapped.Keys == PagesOf(calls) && d.at.Keys == Needed(d.mapped.Keys)
    && |d.at| + |d.free| == total
    && Recorded(d.mapped, calls) && RegionsRecorded(d.recent, calls)
  }

  lemma ReplayedStart(d: Description, calls: seq<Call>, total: nat)
    requires d.mapped == map[] && d.recent == map[] && d.at.Keys == {ROOT} && 1 + |d.free| == total
    ensures Replayed(d, calls[..0], total)
  {
    NeededNone();
    LastCallStart(d.mapped, calls);
    assert |d.at.Keys| == 1;
  }

  method ReplayCall(d: Description, calls: seq<Call>, i: nat, ghost total: nat)
    requires d.Valid() && i < |calls| && Replayed(d, calls[..i], total)
    requires total >= |Needed(PagesOf(calls))|
    modifies d
    ensures d.Valid() && Replayed(d, calls[..i + 1], total)
  {
    hide Linked, Permits, Prefix, Missing, PathFrom, Supply, LastCall, Needed, PagesOf, Recorded, RegionsRecorded;
    RecordedStep(d.mapped, calls, i);
    RegionStep(d.recent, calls, i);
    SupplySuffices(d.at, d.mapped.Keys, calls[i].Page(), PagesOf(calls), |d.free|);
    NeededAfter(d.mapped.Keys, calls[i].Page());
    d.Map(calls[i].paddr, calls[i].vaddr, calls[i].attr);
    assert d.mapped.Keys == old(d.mapped.Keys) + {calls[i].Page()};
  }

  lemma ReplayedEnd(d: Description, calls: seq<Call>, total: nat)
    requires d.Valid() && Replayed(d, calls, total)
    ensures d.mapped.Keys == PagesOf(calls) && Recorded(d.mapped, calls)
    ensures forall vaddr: U32 :: Walk(d.pages, d.gpde, vaddr) == LastCall(calls, vaddr / PF_GRANULARITY)
    ensures forall page :: page in PagesOf(calls) ==>
          WayOpen(d.pages, d.gpde, 0, page, LastAttributes(calls, page / COUNT))
    ensures d.at.Keys == Needed(PagesOf(calls))
    ensures total - |d.free| == |Needed(PagesOf(calls))|
  {
    hide Linked, Permits, LastCall, LastAttributes, Needed, PagesOf, Walk, WayOpen, Recorded, Supply;
    RootOnPath(d.pages, d.at, d.mapped, 0);
    forall page | page in PagesOf(calls)
      ensures WayOpen(d.pages, d.gpde, 0, page, LastAttributes(calls, page / COUNT))
    {
      PagesAre32(calls, page);
      RootOnPath(d.pages, d.at, d.mapped, page);
      WayIsOpen(d.pages, d.at, d.mapped, d.recent, 0, page);
    }
    WalksRecorded(d.pages, d.at, d.mapped, calls);
    assert |d.at| == |d.at.Keys|;
  }

  lemma PagesAre32(calls: seq<Call>, page: nat)
    requires page in PagesOf(calls)
    ensures page < PAGES
  {
  }

  lemma WalksRecorded(pages: Pages, at: Layout, mapped: Mapping, calls: seq<Call>)
    requires ROOT in at && Linked(pages, at, mapped) && Recorded(mapped, calls)
    ensures forall vaddr: U32 :: Walk(pages, at[ROOT], vaddr) == LastCall(calls, vaddr / PF_GRANULARITY)
  {
    hide Linked, LastCall, Walk;
    forall vaddr: U32
      ensures Walk(pages, at[ROOT], vaddr) == LastCall(calls, vaddr / PF_GRANULARITY)
    {
      WalkFinds(pages, at, mapped, vaddr);
    }
  }

  ghost predicate RegionsRecorded(recent: Regions, calls: seq<Call>) {
    forall region :: region in recent ==> recent[region] == LastAttributes(calls, region)
  }

  lemma RegionStep(recent: Regions, calls: seq<Call>, i: nat)
    requires i < |calls| && RegionsRecorded(recent, calls[..i])
    ensures RegionsRecorded(recent[calls[i].Page() / COUNT := calls[i].attr], calls[..i + 1])
  {
    assert calls[..i + 1][..i] == calls[..i];
  }

  ghost predicate Recorded(mapped: Mapping, calls: seq<Call>) {
    forall page :: LeafOf(mapped, page) == LastCall(calls, page)
  }

  lemma NeededNone()
    ensures Needed({}) == {ROOT} && forall mapped :: ROOT in Needed(mapped)
  {
  }

  lemma LastCallStart(mapped: Mapping, calls: seq<Call>)
    requires mapped == map[]
    ensures Recorded(mapped, calls[..0]) && PagesOf(calls[..0]) == {}
  {
  }

  lemma RecordedStep(mapped: Mapping, calls: seq<Call>, i: nat)
    requires i < |calls| && Recorded(mapped, calls[..i])
    ensures Recorded(mapped[calls[i].Page() := Entry(calls[i].paddr, calls[i].attr)], calls[..i + 1])
    ensures PagesOf(calls[..i + 1]) == PagesOf(calls[..i]) + {calls[i].Page()}
    ensures calls[i].Page() in PagesOf(calls) && PagesOf(calls[..i]) <= PagesOf(calls)
  {
    assert calls[..i + 1][..i] == calls[..i];
    assert calls[..i + 1] == calls[..i] + [calls[i]];
    var c := calls[i];
    var mapped' := mapped[c.Page() := Entry(c.paddr, c.attr)];
    forall page
      ensures LeafOf(mapped', page) == LastCall(calls[..i + 1], page)
    {
      assert LeafOf(mapped, page) == LastCall(calls[..i], page);
    }
  }
}
