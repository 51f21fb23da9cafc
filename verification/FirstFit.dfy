/** Free runs in an occupancy map: what the allocators search for and cache. */
module FirstFit {
  type Marks = seq<bool>

  ghost predicate IsRun(s: Marks, start: nat, n: nat) {
    start + n <= |s| && forall i :: start <= i < start + n ==> !s[i]
  }

  /** The lowest start of a free run of length n. */
  ghost predicate IsFirstRun(s: Marks, n: nat, start: nat) {
    IsRun(s, start, n) && forall j: nat :: j < start ==> !IsRun(s, j, n)
  }

  ghost predicate HasRun(s: Marks, n: nat) {
    exists start: nat :: IsRun(s, start, n)
  }

  lemma FirstRunExists(s: Marks, n: nat, start: nat)
    requires IsFirstRun(s, n, start)
    ensures HasRun(s, n)
  {
  }

  lemma FirstRunUnique(s: Marks, n: nat, a: nat, b: nat)
    requires IsFirstRun(s, n, a) && IsFirstRun(s, n, b)
    ensures a == b
  {
  }

  function MarkRun(s: Marks, start: nat, n: nat): (r: Marks)
    ensures |r| == |s|
    ensures forall i :: 0 <= i < |s| ==> r[i] == (s[i] || start <= i < start + n)
  {
    seq(|s|, i requires 0 <= i < |s| => s[i] || start <= i < start + n)
  }

  function ClearRun(s: Marks, start: nat, n: nat): (r: Marks)
    ensures |r| == |s|
    ensures forall i :: 0 <= i < |s| ==> r[i] == (s[i] && !(start <= i < start + n))
  {
    seq(|s|, i requires 0 <= i < |s| => s[i] && !(start <= i < start + n))
  }

  // ----- the longest free run

  /** Length of the free run that ends the map. */
  function TailRun(s: Marks): (r: nat)
    ensures r <= |s|
  {
    if s == [] || s[|s| - 1] then 0 else 1 + TailRun(s[..|s| - 1])
  }

  /** One more cell of a scan. */
  lemma LongestStep(s: Marks, i: nat)
    requires i < |s|
    ensures TailRun(s[..i + 1]) == if s[i] then 0 else TailRun(s[..i]) + 1
    ensures Longest(s[..i + 1]) == if TailRun(s[..i + 1]) > Longest(s[..i]) then TailRun(s[..i + 1])
        else Longest(s[..i])
  {
    assert s[..i + 1][..i] == s[..i];
  }

  lemma LongestNone(s: Marks)
    ensures TailRun(s[..0]) == 0 == Longest(s[..0])
  {
  }

  function Longest(s: Marks): (r: nat)
    ensures TailRun(s) <= r <= |s|
  {
    if s == [] then 0
    else
      var m := Longest(s[..|s| - 1]);
      if TailRun(s) > m then TailRun(s) else m
  }

  lemma {:induction false} TailRunMeans(s: Marks)
    ensures IsRun(s, |s| - TailRun(s), TailRun(s))
    ensures TailRun(s) < |s| ==> s[|s| - TailRun(s) - 1]
  {
    if s != [] && !s[|s| - 1] {
      TailRunMeans(s[..|s| - 1]);
    }
  }

  /** The scan's maximum is the length of a run that exists and none is longer. */
  lemma {:induction false} LongestMeans(s: Marks)
    ensures HasRun(s, Longest(s))
    ensures forall start: nat, n: nat :: IsRun(s, start, n) ==> n <= Longest(s)
  {
    if s == [] {
      assert IsRun(s, 0, 0);
    } else {
      var front := s[..|s| - 1];
      LongestMeans(front);
      TailRunMeans(s);
      assert IsRun(s, |s| - TailRun(s), TailRun(s));
      var at: nat :| IsRun(front, at, Longest(front));
      assert IsRun(s, at, Longest(front));
      forall start: nat, n: nat | IsRun(s, start, n)
        ensures n <= Longest(s)
      {
        if start + n < |s| {
          assert IsRun(front, start, n);
        } else if TailRun(s) < |s| {
          assert s[|s| - TailRun(s) - 1];
        }
      }
    }
  }

  /** A run of a given length exists exactly up to the longest. */
  lemma HasRunExactly(s: Marks, n: nat)
    ensures HasRun(s, n) <==> n <= Longest(s)
  {
    LongestMeans(s);
    if n <= Longest(s) {
      var at: nat :| IsRun(s, at, Longest(s));
      assert IsRun(s, at, n);
    }
  }

  /** Clearing marks never shortens the longest run. */
  lemma LongestMonotone(s: Marks, t: Marks)
    requires |s| == |t| && forall i :: 0 <= i < |s| ==> t[i] ==> s[i]
    ensures Longest(s) <= Longest(t)
  {
    LongestMeans(s);
    LongestMeans(t);
    var at: nat :| IsRun(s, at, Longest(s));
    assert IsRun(t, at, Longest(s));
  }

  // ----- the scan shared by the allocators

  /** State of the scan after i cells: a free run of `length` cells ends at i, an
      occupied cell or the start of the map is before it, and no run of length n has
      been completed. */
  ghost predicate Scanned(s: Marks, n: nat, i: nat, initial: nat, length: nat) {
    && i <= |s| && initial + length == i
    && IsRun(s, initial, length)
    && (initial > 0 ==> s[initial - 1])
    && (forall j: nat :: j + n <= i ==> !IsRun(s, j, n))
  }

  lemma ScanOccupied(s: Marks, n: nat, i: nat, initial: nat, length: nat)
    requires n > 0 && Scanned(s, n, i, initial, length) && i < |s| && s[i]
    ensures Scanned(s, n, i + 1, i + 1, 0)
  {
    forall j: nat | j + n <= i + 1
      ensures !IsRun(s, j, n)
    {
      assert s[i];
    }
  }

  lemma ScanFree(s: Marks, n: nat, i: nat, initial: nat, length: nat)
    requires n > 0 && Scanned(s, n, i, initial, length) && i < |s| && !s[i]
    ensures length + 1 < n ==> Scanned(s, n, i + 1, initial, length + 1)
    ensures length + 1 == n ==> IsFirstRun(s, n, initial)
  {
    forall j: nat | j < initial
      ensures !IsRun(s, j, n)
    {
      if j + n > i {
        assert s[initial - 1];
      }
    }
    forall j: nat | length + 1 < n && j + n <= i + 1
      ensures !IsRun(s, j, n)
    {
    }
  }

  lemma ScanEnd(s: Marks, n: nat, initial: nat, length: nat)
    requires n > 0 && Scanned(s, n, |s|, initial, length)
    ensures !HasRun(s, n)
  {
  }

  // ----- occupancy that is always a prefix

  ghost predicate IsPrefix(s: Marks, used: nat) {
    used <= |s| && forall i :: 0 <= i < |s| ==> (s[i] <==> i < used)
  }

  lemma {:induction false} PrefixTail(s: Marks, used: nat)
    requires IsPrefix(s, used)
    ensures TailRun(s) == |s| - used && Longest(s) == |s| - used
  {
    if used < |s| {
      PrefixTail(s[..|s| - 1], used);
    } else if s != [] {
      PrefixTail(s[..|s| - 1], used - 1);
    }
  }

  /** First fit on a prefix takes the cells right behind it. */
  lemma PrefixFirstRun(s: Marks, used: nat, n: nat)
    requires IsPrefix(s, used) && n > 0
    ensures HasRun(s, n) <==> used + n <= |s|
    ensures used + n <= |s| ==> IsFirstRun(s, n, used) && IsPrefix(MarkRun(s, used, n), used + n)
  {
    HasRunExactly(s, n);
    PrefixTail(s, used);
    forall j: nat | j < used
      ensures !IsRun(s, j, n)
    {
      if j + n <= |s| {
        assert s[j];
      }
    }
  }
}
