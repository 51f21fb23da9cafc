/** The pages the paging code allocates from, as the page allocator hands them out. */
module Supplies {
  import opened Bits
  import opened Memory
  import HeapRuns
  import PageTables
  import Spaces

  /** The addresses of the payload pages of a state, in the order they were handed out. */
  ghost function PayloadAddresses(h: HeapRuns.State): (addresses: seq<U32>)
    requires HeapRuns.Sound(h) && h.base + |h.occupied| * PAGE_SIZE <= WORD32
    ensures |addresses| == |h.payloads|
  {
    seq(|h.payloads|, i requires 0 <= i < |h.payloads| =>
      PayloadFits(h, i);
      HeapRuns.PageAddress(h.base, h.payloads[i].first))
  }

  lemma PayloadFits(h: HeapRuns.State, i: nat)
    requires HeapRuns.Sound(h) && h.base + |h.occupied| * PAGE_SIZE <= WORD32 && i < |h.payloads|
    ensures 0 < HeapRuns.PageAddress(h.base, h.payloads[i].first) < WORD32
  {
    assert HeapRuns.Owned(h.occupied, h.payloads[i]);
  }

  /** They are what the paging code needs: distinct, aligned and not null. */
  lemma PayloadsSupply(h: HeapRuns.State)
    requires HeapRuns.Sound(h) && h.base + |h.occupied| * PAGE_SIZE <= WORD32 && h.base % PAGE_SIZE == 0
    ensures Spaces.Supply(PayloadAddresses(h), {})
  {
    hide HeapRuns.BlocksInOrder;
    var addresses := PayloadAddresses(h);
    forall i, j | 0 <= i < j < |addresses|
      ensures addresses[i] != addresses[j]
    {
      assert HeapRuns.Apart(h.payloads[i], h.payloads[j]);
      assert HeapRuns.Owned(h.occupied, h.payloads[i]) && HeapRuns.Owned(h.occupied, h.payloads[j]);
    }
    forall i | 0 <= i < |addresses|
      ensures addresses[i] != 0 && addresses[i] % PageTables.PF_GRANULARITY == 0
    {
      PayloadFits(h, i);
    }
  }

  /** In any run of heap and payload allocations the payload pages are such a supply. */
  lemma RunSupplies(h: HeapRuns.State, steps: seq<HeapRuns.Step>)
    requires HeapRuns.Initialized(h) && HeapRuns.Possible(h, steps) && h.base % PAGE_SIZE == 0
    requires var end := HeapRuns.Run(h, steps); end.base + |end.occupied| * PAGE_SIZE <= WORD32
    ensures var end := HeapRuns.Run(h, steps); HeapRuns.Sound(end) && Spaces.Supply(PayloadAddresses(end), {})
  {
    hide HeapRuns.Sound, Spaces.Supply, HeapRuns.Initialized, PayloadAddresses;
    HeapRuns.InitializedSound(h);
    HeapRuns.RunSound(h, steps);
    PayloadsSupply(HeapRuns.Run(h, steps));
  }
}
