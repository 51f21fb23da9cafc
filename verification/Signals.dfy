/** Control levels and the signal table: inufw/platform/pc/base.c. */
module Signals {

  const SIGNAL_COUNT: nat := 256

  type Level = x: int | -128 <= x < 128

  // ----- the table as values

  /** What a registered signal is doing, and the level it runs at. */
  datatype Status = Status(level: Level, masked: bool)

  datatype Entry = Unused | Registered(signal: Status)

  type Table = seq<Entry>

  function Raised(t: Table, value: Level): (r: Table)
    ensures |r| == |t|
  {
    seq(|t|, i requires 0 <= i < |t| =>
      if t[i].Registered? && t[i].signal.level < value then Registered(t[i].signal.(masked := true)) else t[i])
  }

  function Lowered(t: Table, value: Level): (r: Table)
    ensures |r| == |t|
  {
    seq(|t|, i requires 0 <= i < |t| =>
      if t[i].Registered? && t[i].signal.level > value then Registered(t[i].signal.(masked := false)) else t[i])
  }

  /** Signals below the level are masked and signals above it are not. */
  ghost predicate Ordered(t: Table, level: Level) {
    forall i :: 0 <= i < |t| && t[i].Registered? ==>
      (t[i].signal.level < level ==> t[i].signal.masked) && (t[i].signal.level > level ==> !t[i].signal.masked)
  }

  predicate Deliverable(t: Table, i: nat) {
    i < |t| && t[i].Registered? && !t[i].signal.masked
  }

  /** The table while a signal's handler runs, and after it returned. */
  function During(t: Table, i: nat): Table
    requires i < |t| && t[i].Registered?
  {
    Raised(t, t[i].signal.level)
  }

  function After(t: Table, level: Level, i: nat): Table
    requires i < |t| && t[i].Registered?
  {
    Lowered(During(t, i), level)
  }

  /** Lowering to a level establishes the order exactly when nothing below it was
      left unmasked, as when the kernel enters the passive level. */
  lemma LoweredOrdered(t: Table, level: Level)
    ensures Ordered(Lowered(t, level), level) <==>
            forall i :: 0 <= i < |t| && t[i].Registered? && t[i].signal.level < level ==> t[i].signal.masked
  {
    var r := Lowered(t, level);
    if i :| 0 <= i < |t| && t[i].Registered? && t[i].signal.level < level && !t[i].signal.masked {
      assert r[i] == t[i];
    }
  }

  /** A deliverable signal does not run below the current level. */
  lemma DeliveryRaises(t: Table, level: Level, i: nat)
    requires Ordered(t, level) && Deliverable(t, i)
    ensures level <= t[i].signal.level && Ordered(During(t, i), t[i].signal.level)
  {
  }

  lemma DeliveryRestores(t: Table, level: Level, i: nat)
    requires Ordered(t, level) && Deliverable(t, i)
    ensures Ordered(After(t, level, i), level)
  {
    DeliveryRaises(t, level, i);
  }

  // ----- runs of deliveries

  ghost predicate Possible(t: Table, level: Level, deliveries: seq<nat>)
    decreases |deliveries|
  {
    deliveries == []
    || (Deliverable(t, deliveries[0]) && Possible(After(t, level, deliveries[0]), level, deliveries[1..]))
  }

  function Run(t: Table, level: Level, deliveries: seq<nat>): Table
    requires Possible(t, level, deliveries)
    decreases |deliveries|
  {
    if deliveries == [] then t else Run(After(t, level, deliveries[0]), level, deliveries[1..])
  }

  lemma {:induction false} RunOrdered(t: Table, level: Level, deliveries: seq<nat>)
    requires Ordered(t, level) && Possible(t, level, deliveries)
    ensures Ordered(Run(t, level, deliveries), level)
    decreases |deliveries|
  {
    hide Ordered;
    if deliveries != [] {
      DeliveryRestores(t, level, deliveries[0]);
      RunOrdered(After(t, level, deliveries[0]), level, deliveries[1..]);
    }
  }

  /** Some delivery of the run went above the level it interrupted. */
  predicate WentAbove(t: Table, level: Level, deliveries: seq<nat>)
  {
    exists d :: 0 <= d < |deliveries| && deliveries[d] < |t| && t[deliveries[d]].Registered?
        && t[deliveries[d]].signal.level > level
  }

  /** After a run every signal is as it was, except that signals exactly at the
      interrupted level stay masked once any delivery went above that level. */
  lemma {:induction false} RunExactly(t: Table, level: Level, deliveries: seq<nat>, i: nat)
    requires Ordered(t, level) && Possible(t, level, deliveries) && i < |t|
    ensures |Run(t, level, deliveries)| == |t|
    ensures Run(t, level, deliveries)[i] ==
      if t[i].Registered? && t[i].signal.level == level && WentAbove(t, level, deliveries)
      then Registered(t[i].signal.(masked := true)) else t[i]
    decreases |deliveries|
  {
    if deliveries != [] {
      var t' := After(t, level, deliveries[0]);
      DeliveryExactly(t, level, deliveries[0], i);
      DeliveryRestores(t, level, deliveries[0]);
      SameLevels(t, level, deliveries[0]);
      RunExactly(t', level, deliveries[1..], i);
      AboveStep(t, t', level, deliveries);
    }
  }

  lemma DeliveryExactly(t: Table, level: Level, d: nat, i: nat)
    requires Ordered(t, level) && Deliverable(t, d) && i < |t|
    ensures After(t, level, d)[i] ==
      if t[i].Registered? && t[i].signal.level == level && t[d].signal.level > level
      then Registered(t[i].signal.(masked := true)) else t[i]
  {
  }

  lemma SameLevels(t: Table, level: Level, d: nat)
    requires Deliverable(t, d)
    ensures var t' := After(t, level, d);
            |t'| == |t| && forall i :: 0 <= i < |t| ==>
              (t'[i].Registered? <==> t[i].Registered?)
                  && (t[i].Registered? ==> t'[i].signal.level == t[i].signal.level)
  {
  }

  lemma AboveStep(t: Table, t': Table, level: Level, deliveries: seq<nat>)
    requires deliveries != [] && Deliverable(t, deliveries[0]) && |t'| == |t|
    requires forall i :: 0 <= i < |t| ==>
      (t'[i].Registered? <==> t[i].Registered?) && (t[i].Registered? ==> t'[i].signal.level == t[i].signal.level)
    ensures WentAbove(t, level, deliveries) <==>
          t[deliveries[0]].signal.level > level || WentAbove(t', level, deliveries[1..])
  {
    if WentAbove(t', level, deliveries[1..]) {
      var d :| 0 <= d < |deliveries[1..]| && deliveries[1..][d] < |t'| && t'[deliveries[1..][d]].Registered?
          && t'[deliveries[1..][d]].signal.level > level;
      assert deliveries[d + 1] == deliveries[1..][d];
    }
    if WentAbove(t, level, deliveries) && !(t[deliveries[0]].signal.level > level) {
      var d :| 0 <= d < |deliveries| && deliveries[d] < |t| && t[deliveries[d]].Registered?
          && t[deliveries[d]].signal.level > level;
      assert deliveries[1..][d - 1] == deliveries[d];
    }
  }

  // ----- the firmware's state

  class Signal {
    const controlLevel: Level
    var masked: bool
    var executing: bool

    constructor (level: Level)
      ensures controlLevel == level && !masked && !executing
    {
      controlLevel := level;
      masked := false;
      executing := false;
    }
  }

  class Firmware {
    const signals: array<Signal?>
    var level: Level
    var prev: Level
    var interruptIndex: int

    ghost predicate Valid()
      reads this, signals
    {
      signals.Length == SIGNAL_COUNT
    }

    ghost function Objects(): set<object>
      reads this, signals
    {
      set i | 0 <= i < signals.Length && signals[i] != null :: signals[i]
    }

    ghost function Entry(s: Signal?): Entry
      reads s
    {
      if s == null then Unused else Registered(Status(s.controlLevel, s.masked))
    }

    ghost function View(): (t: Table)
      reads this, signals, Objects()
      ensures |t| == signals.Length
    {
      seq(signals.Length, i requires 0 <= i < signals.Length reads this, signals, Objects() => Entry(signals[i]))
    }

    /** FwRaiseControlLevel. One signal may be registered at several places. */
    method RaiseControlLevel(value: Level)
      requires Valid()
      modifies this`level, Objects()
      ensures Valid() && level == value && View() == old(Raised(View(), value))
      ensures forall s: Signal :: s in old(Objects()) ==> s.executing == old(s.executing)
    {
      level := value;
      for i := 0 to SIGNAL_COUNT
        invariant Valid() && level == value
        invariant forall s: Signal :: s in old(Objects()) ==> s.executing == old(s.executing)
        invariant forall s: Signal :: s in old(Objects()) && s.masked != old(s.masked) ==>
            s.masked && s.controlLevel < value
        invariant forall j :: 0 <= j < i && signals[j] != null && signals[j].controlLevel < value ==> signals[j].masked
      {
        if signals[i] != null {
          if signals[i].controlLevel < value {
            signals[i].masked := true;
          }
        }
      }
    }

    /** FwLowerControlLevel. */
    method LowerControlLevel(value: Level)
      requires Valid()
      modifies this`level, Objects()
      ensures Valid() && level == value && View() == old(Lowered(View(), value))
      ensures forall s: Signal :: s in old(Objects()) ==> s.executing == old(s.executing)
    {
      level := value;
      for i := 0 to SIGNAL_COUNT
        invariant Valid() && level == value
        invariant forall s: Signal :: s in old(Objects()) ==> s.executing == old(s.executing)
        invariant forall s: Signal :: s in old(Objects()) && s.masked != old(s.masked) ==>
            !s.masked && s.controlLevel > value
        invariant forall j :: 0 <= j < i && signals[j] != null && signals[j].controlLevel > value ==> !signals[j].masked
      {
        if signals[i] != null {
          if signals[i].controlLevel > value {
            signals[i].masked := false;
          }
        }
      }
    }

    /** FwBeginSignal. The interrupted level goes into the only slot there is. */
    method BeginSignal(index: nat)
      requires Valid() && index < SIGNAL_COUNT && signals[index] != null
      modifies this`level, this`prev, this`interruptIndex, Objects()
      ensures Valid() && prev == old(level) && level == signals[index].controlLevel && interruptIndex == index
      ensures View() == old(During(View(), index))
      ensures forall s: Signal :: s in old(Objects()) ==> s.executing == (s == signals[index] || old(s.executing))
    {
      prev := level;
      interruptIndex := index;
      RaiseControlLevel(signals[index].controlLevel);
      label raised:
      signals[index].executing := true;
      assert View() == old@raised(View());
    }

    /** FwEndSignal. */
    method EndSignal(index: nat)
      requires Valid() && index < SIGNAL_COUNT && signals[index] != null
      modifies this`level, this`interruptIndex, Objects()
      ensures Valid() && level == old(prev) && interruptIndex == -1
      ensures View() == old(Lowered(View(), prev))
      ensures forall s: Signal :: s in old(Objects()) ==> s.executing == (s != signals[index] && old(s.executing))
    {
      signals[index].executing := false;
      interruptIndex := -1;
      LowerControlLevel(prev);
    }

    /** FwExecuteSignal, with a handler that leaves levels and masks alone. */
    method ExecuteSignal(index: nat)
      requires Valid() && index < SIGNAL_COUNT && signals[index] != null
      modifies this`level, this`prev, this`interruptIndex, Objects()
      ensures Valid() && level == old(level) && interruptIndex == -1
      ensures View() == old(After(View(), level, index))
      ensures forall s: Signal :: s in old(Objects()) ==> s.executing == (s != signals[index] && old(s.executing))
    {
      BeginSignal(index);
      EndSignal(index);
    }

    /** A run of deliveries, one after the other. */
    method Deliver(deliveries: seq<nat>)
      requires Valid() && Possible(View(), level, deliveries)
      modifies this`level, this`prev, this`interruptIndex, Objects()
      ensures Valid() && level == old(level)
      ensures View() == old(Run(View(), level, deliveries))
    {
      ghost var objects := Objects();
      for i := 0 to |deliveries|
        invariant Valid() && level == old(level) && Objects() == objects
        invariant Possible(View(), level, deliveries[i..])
        invariant Run(View(), level, deliveries[i..]) == old(Run(View(), level, deliveries))
      {
        assert deliveries[i..][1..] == deliveries[i + 1..];
        ExecuteSignal(deliveries[i]);
      }
    }

    /** A signal delivered while another runs overwrites the slot: the level restored
        at the end is the outer signal's own, not the one it interrupted. */
    method ExecuteNested(outer: nat, inner: nat)
      requires Valid() && outer < SIGNAL_COUNT && inner < SIGNAL_COUNT && signals[outer] != null
          && signals[inner] != null
      modifies this`level, this`prev, this`interruptIndex, Objects()
      ensures Valid() && level == signals[outer].controlLevel
    {
      BeginSignal(outer);
      BeginSignal(inner);
      EndSignal(inner);
      EndSignal(outer);
    }
  }
}
