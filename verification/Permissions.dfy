/** The attributes on the way to a page: what the map calls of inuoskrnl/pvm/base.c
    leave in the entries above the last level. */
module Permissions {
  import opened Bits
  import opened PageTables

  /** The attributes of the last call in each 2 MiB region. */
  type Regions = map<nat, Attributes>

  /** Present and writable for the kernel, and nothing else. */
  const OPEN: Attributes := Attributes(true, true, false, false, false, false)

  /** What an entry must carry before it leads to the table at slot c: on the upper
      levels just that, above the last level the attributes of the region. */
  predicate Allows(a: Attributes, c: Slot, recent: Regions) {
    if c.level < 4 then a == OPEN else c.prefix in recent && recent[c.prefix] == a
  }

  /** Every entry above the last level is still clear or as it must be, and where a
      table hangs below it, as it must be. */
  ghost predicate Permits(pages: Pages, at: Layout, recent: Regions) {
    forall s: Slot, i: nat {:trigger Child(s, i)} :: s in at && Child(s, i).level <= 4 && i < COUNT ==>
      at[s] in pages && i < |pages[at[s]]| && Carries(pages[at[s]][i].attributes, at, Child(s, i), recent)
  }

  predicate Carries(a: Attributes, at: Layout, c: Slot, recent: Regions) {
    Allows(a, c, recent) || (a == CLEAR && c !in at)
  }

  /** The entry for a page in its table of the given level may get a table below. */
  predicate Ready(pages: Pages, at: Layout, recent: Regions, level: nat, page: nat)
    requires level < 4
  {
    && PathSlot(level, page) in at && at[PathSlot(level, page)] in pages
    && Index(level, page) < |pages[at[PathSlot(level, page)]]|
    && Allows(pages[at[PathSlot(level, page)]][Index(level, page)].attributes, PathSlot(level + 1, page), recent)
  }

  lemma SameTable(pages: Pages, at: Layout, mapped: Mapping, s: Slot, t: Slot)
    requires Linked(pages, at, mapped) && s in at && t in at
    ensures at[s] in pages && at[t] in pages && |pages[at[t]]| == COUNT
    ensures at[s] == at[t] ==> s == t
  {
    assert TableHolds(pages[at[t]], at, mapped, t);
  }

  /** A new table under an entry that is ready for it. */
  lemma PermitsAdd(pages: Pages, at: Layout, mapped: Mapping, recent: Regions, level: nat, page: nat, a: U32)
    requires Linked(pages, at, mapped) && Permits(pages, at, recent)
    requires level < 4 && Ready(pages, at, recent, level, page) && PathSlot(level + 1, page) !in at && a !in pages
    ensures Permits(SetAddress(pages[a := ZeroTable()], at[PathSlot(level, page)], Index(level, page), a),
                    at[PathSlot(level + 1, page) := a], recent)
  {
    hide Allows, TableHolds, Prefix;
    var s: Slot, c: Slot := PathSlot(level, page), PathSlot(level + 1, page);
    var i := Index(level, page);
    PathStep(level, page);
    var pages': Pages := SetAddress(pages[a := ZeroTable()], at[s], i, a);
    var at': Layout := at[c := a];
    forall t: Slot, j: nat {:trigger Child(t, j)} | t in at' && Child(t, j).level <= 4 && j < COUNT
      ensures at'[t] in pages' && j < |pages'[at'[t]]|
      ensures Carries(pages'[at'[t]][j].attributes, at', Child(t, j), recent)
    {
      if t == c {
        NothingBelow(at, mapped, c, j);
      } else {
        SameTable(pages, at, mapped, s, t);
        if Child(t, j) == c {
          ChildInjective(s, i, t, j);
        }
      }
    }
  }

  function WithRegion(recent: Regions, level: nat, page: nat, attributes: Attributes): Regions
    requires level < 4
  {
    if level == 3 then recent[PathSlot(4, page).prefix := attributes] else recent
  }

  /** Setting an entry's attributes makes it ready and disturbs no other entry. */
  lemma PermitsSet(pages: Pages, at: Layout, mapped: Mapping, recent: Regions, level: nat, page: nat,
      attributes: Attributes)
    requires Linked(pages, at, mapped) && Permits(pages, at, recent)
    requires level < 4 && PathSlot(level, page) in at
    requires level < 3 ==> attributes == OPEN
    ensures at[PathSlot(level, page)] in pages && Index(level, page) < |pages[at[PathSlot(level, page)]]|
    ensures var pages' := SetAttributes(pages, at[PathSlot(level, page)], Index(level, page), attributes);
            var recent' := WithRegion(recent, level, page, attributes);
            Permits(pages', at, recent') && Ready(pages', at, recent', level, page)
  {
    hide TableHolds, Prefix;
    var s: Slot, c: Slot := PathSlot(level, page), PathSlot(level + 1, page);
    var i := Index(level, page);
    PathStep(level, page);
    SameTable(pages, at, mapped, s, s);
    var pages': Pages := SetAttributes(pages, at[s], i, attributes);
    var recent' := WithRegion(recent, level, page, attributes);
    forall t: Slot, j: nat {:trigger Child(t, j)} | t in at && Child(t, j).level <= 4 && j < COUNT
      ensures at[t] in pages' && j < |pages'[at[t]]| && Carries(pages'[at[t]][j].attributes, at, Child(t, j), recent')
    {
      SameTable(pages, at, mapped, s, t);
      if Child(t, j) == c {
        ChildInjective(s, i, t, j);
      }
    }
  }

  /** Writing a last-level entry concerns no entry above. */
  lemma PermitsLeaf(pages: Pages, at: Layout, mapped: Mapping, recent: Regions, page: nat, e: Entry)
    requires Linked(pages, at, mapped) && Permits(pages, at, recent) && PathSlot(4, page) in at
    ensures at[PathSlot(4, page)] in pages && Index(4, page) < |pages[at[PathSlot(4, page)]]|
    ensures var table := at[PathSlot(4, page)];
            Permits(pages[table := pages[table][Index(4, page) := e]], at, recent)
  {
    hide Allows, TableHolds, Prefix;
    var s: Slot := PathSlot(4, page);
    SameTable(pages, at, mapped, s, s);
    var pages': Pages := pages[at[s] := pages[at[s]][Index(4, page) := e]];
    forall t: Slot, j: nat {:trigger Child(t, j)} | t in at && Child(t, j).level <= 4 && j < COUNT
      ensures at[t] in pages' && j < |pages'[at[t]]| && Carries(pages'[at[t]][j].attributes, at, Child(t, j), recent)
    {
      SameTable(pages, at, mapped, s, t);
    }
  }

  /** On the upper levels, setting present and writable leaves exactly these two. */
  lemma OpenExactly(pages: Pages, at: Layout, mapped: Mapping, recent: Regions, level: nat, page: nat)
    requires Linked(pages, at, mapped) && Permits(pages, at, recent)
    requires level < 3 && PathSlot(level, page) in at
    ensures at[PathSlot(level, page)] in pages && Index(level, page) < |pages[at[PathSlot(level, page)]]|
    ensures pages[at[PathSlot(level, page)]][Index(level, page)].attributes.(present := true, rw := true) == OPEN
  {
    hide Linked, Prefix;
    PathStep(level, page);
    assert Child(PathSlot(level, page), Index(level, page)).level < 4;
  }

  /** From a table of the given level down to the last, every entry on the way to a
      page is present and writable and for the kernel only, and the one above the last
      level has these attributes. */
  predicate WayOpen(pages: Pages, table: U32, level: nat, page: nat, attributes: Attributes)
    requires level <= 4
    decreases 4 - level
  {
    level == 4 ||
    (table in pages && |pages[table]| == COUNT
     && var e := pages[table][Index(level, page)];
        && e.attributes == (if level < 3 then Attributes(true, true, false, false, false, false) else attributes)
        && WayOpen(pages, e.address, level + 1, page, attributes))
  }

  lemma {:induction false} WayIsOpen(pages: Pages, at: Layout, mapped: Mapping, recent: Regions, level: nat, page: nat)
    requires Linked(pages, at, mapped) && Permits(pages, at, recent)
    requires level <= 4 && page in mapped
    ensures page / COUNT in recent && PathSlot(level, page) in at
    ensures WayOpen(pages, at[PathSlot(level, page)], level, page, recent[page / COUNT])
    decreases 4 - level
  {
    hide Linked, Permits, Prefix;
    OnWay(pages, at, mapped, level, page);
    OnWay(pages, at, mapped, 4, page);
    OnWay(pages, at, mapped, 3, page);
    StepOpen(pages, at, mapped, recent, 3, page);
    if level < 4 {
      StepOpen(pages, at, mapped, recent, level, page);
      WayIsOpen(pages, at, mapped, recent, level + 1, page);
    }
  }

  lemma OnWay(pages: Pages, at: Layout, mapped: Mapping, level: nat, page: nat)
    requires Linked(pages, at, mapped) && level <= 4 && page in mapped
    ensures PathSlot(level, page) in at
  {
    hide Prefix;
    if PathSlot(level, page) !in at {
      MissingPath(at, mapped, level, page);
    }
  }

  lemma StepOpen(pages: Pages, at: Layout, mapped: Mapping, recent: Regions, level: nat, page: nat)
    requires Linked(pages, at, mapped) && Permits(pages, at, recent) && level < 4 && page in mapped
    requires PathSlot(level, page) in at
    ensures PathSlot(level + 1, page) in at && at[PathSlot(level, page)] in pages
        && |pages[at[PathSlot(level, page)]]| == COUNT
    ensures var e := pages[at[PathSlot(level, page)]][Index(level, page)];
            && e.address == at[PathSlot(level + 1, page)]
            && (if level < 3 then e.attributes == OPEN
                else page / COUNT in recent && e.attributes == recent[page / COUNT])
  {
    hide Closed, Prefix;
    OnWay(pages, at, mapped, level + 1, page);
    PathStep(level, page);
    LastIndex(page);
    assert TableHolds(pages[at[PathSlot(level, page)]], at, mapped, PathSlot(level, page));
    assert Child(PathSlot(level, page), Index(level, page)) in at;
  }
}
