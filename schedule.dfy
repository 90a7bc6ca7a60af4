/** What an employee's schedule is made of: the shifts joined from the
    employee's assignments, and the in-place bubble sort that orders them by
    the string `date + startTime`. */
module Schedule {
  import opened Text
  import opened Records

  /** The sort key: the date text followed by the `HH:MM` start time. */
  function StartKey(s: Shift): string {
    s.date + ClockText(s.startTime)
  }

  /** The swap test of the sort: `x.date + x.startTime > y.date + y.startTime`. */
  predicate StartsAfter(x: Shift, y: Shift) {
    LexLess(StartKey(y), StartKey(x))
  }

  /** No shift starts after a later one. */
  ghost predicate SortedByStart(s: seq<Shift>) {
    forall i, j | 0 <= i < j < |s| :: !StartsAfter(s[i], s[j])
  }

  /** For dates of one width (`YYYY-MM-DD`), the concatenated key orders by
      date first and then by start time on the clock. */
  lemma StartKeyOrder(x: Shift, y: Shift)
    requires |x.date| == |y.date|
    ensures StartsAfter(x, y) <==>
            LexLess(y.date, x.date) || (y.date == x.date && Minutes(y.startTime) < Minutes(x.startTime))
  {
    LexLessConcat(y.date, x.date, ClockText(y.startTime), ClockText(x.startTime));
    ClockTextOrder(y.startTime, x.startTime);
  }

  lemma NotAfterReflexive(x: Shift)
    ensures !StartsAfter(x, x)
  {
    LexLessIrreflexive(StartKey(x));
  }

  lemma NotAfterTransitive(x: Shift, y: Shift, z: Shift)
    requires !StartsAfter(x, y) && !StartsAfter(y, z)
    ensures !StartsAfter(x, z)
  {
    if StartsAfter(x, z) {
      LexLessTotal(StartKey(x), StartKey(y));
      if LexLess(StartKey(x), StartKey(y)) {
        LexLessTransitive(StartKey(z), StartKey(x), StartKey(y));
      }
      assert false;
    }
  }

  lemma SwappedNotAfter(x: Shift, y: Shift)
    requires StartsAfter(x, y)
    ensures !StartsAfter(y, x)
  {
    LexLessAsymmetric(StartKey(x), StartKey(y));
  }

  /** Exchanges two cells of the array. */
  method Swap(a: array<Shift>, i: int, j: int)
    requires 0 <= i < a.Length && 0 <= j < a.Length
    modifies a
    ensures a[..] == old(a[..])[i := old(a[j])][j := old(a[i])]
    ensures multiset(a[..]) == old(multiset(a[..]))
  {
    a[i], a[j] := a[j], a[i];
  }

  /** The cells from `lo` on are in order. */
  ghost predicate SortedFrom(s: seq<Shift>, lo: nat) {
    forall p, q | lo <= p < q < |s| :: !StartsAfter(s[p], s[q])
  }

  /** No cell before `lo` starts after a cell from `lo` on. */
  ghost predicate Partitioned(s: seq<Shift>, lo: nat) {
    forall p, q | 0 <= p < lo <= q < |s| :: !StartsAfter(s[p], s[q])
  }

  /** The inner loop's invariant: `s[j]` starts no earlier than any cell
      before it, and the cells from `hi + 1` on are sorted and bound the rest. */
  ghost predicate PassInvariant(s: seq<Shift>, j: nat, hi: nat) {
    j <= hi < |s| &&
    (forall p | 0 <= p <= j :: !StartsAfter(s[p], s[j])) &&
    SortedFrom(s, hi + 1) && Partitioned(s, hi + 1)
  }

  /** Swapping an out-of-order pair `s[j]`, `s[j + 1]` moves the invariant
      one cell on. */
  lemma PassSwapStep(s: seq<Shift>, j: nat, hi: nat)
    requires PassInvariant(s, j, hi) && j < hi
    requires StartsAfter(s[j], s[j + 1])
    ensures PassInvariant(s[j := s[j + 1]][j + 1 := s[j]], j + 1, hi)
  {
    var t := s[j := s[j + 1]][j + 1 := s[j]];
    SwappedNotAfter(s[j], s[j + 1]);
    NotAfterReflexive(s[j]);
    assert forall p | 0 <= p < j :: t[p] == s[p];
    assert forall q | hi + 1 <= q < |s| :: t[q] == s[q];
    forall p, q | 0 <= p < hi + 1 <= q < |t| ensures !StartsAfter(t[p], t[q]) {
      if p == j { assert t[p] == s[j + 1]; }
      else if p == j + 1 { assert t[p] == s[j]; }
    }
  }

  /** Leaving an ordered pair `s[j]`, `s[j + 1]` in place moves the
      invariant one cell on. */
  lemma PassKeepStep(s: seq<Shift>, j: nat, hi: nat)
    requires PassInvariant(s, j, hi) && j < hi
    requires !StartsAfter(s[j], s[j + 1])
    ensures PassInvariant(s, j + 1, hi)
  {
    forall p | 0 <= p < j ensures !StartsAfter(s[p], s[j + 1]) {
      NotAfterTransitive(s[p], s[j], s[j + 1]);
    }
    NotAfterReflexive(s[j + 1]);
  }

  /** The pass starts with the invariant at `j = 0`. */
  lemma PassStart(s: seq<Shift>, hi: nat)
    requires hi < |s| && SortedFrom(s, hi + 1) && Partitioned(s, hi + 1)
    ensures PassInvariant(s, 0, hi)
  {
    NotAfterReflexive(s[0]);
  }

  /** At `j = hi` the sorted suffix has grown by one cell. */
  lemma PassDone(s: seq<Shift>, hi: nat)
    requires PassInvariant(s, hi, hi)
    ensures SortedFrom(s, hi) && Partitioned(s, hi)
  {
  }

  /** One pass of the inner loop: neighbours `a[j]`, `a[j + 1]` for `j < hi`
      are swapped when the left one starts after the right one, which brings
      the latest-starting shift of `a[..hi + 1]` to `a[hi]`. */
  method BubblePass(a: array<Shift>, hi: nat)
    requires hi < a.Length
    requires SortedFrom(a[..], hi + 1) && Partitioned(a[..], hi + 1)
    modifies a
    ensures SortedFrom(a[..], hi) && Partitioned(a[..], hi)
    ensures multiset(a[..]) == old(multiset(a[..]))
  {
    var j := 0;
    PassStart(a[..], hi);
    while j < hi
      invariant PassInvariant(a[..], j, hi)
      invariant multiset(a[..]) == old(multiset(a[..]))
    {
      if StartsAfter(a[j], a[j + 1]) {
        PassSwapStep(a[..], j, hi);
        Swap(a, j, j + 1);
      } else {
        PassKeepStep(a[..], j, hi);
      }
      j := j + 1;
    }
    PassDone(a[..], hi);
  }

  /** The bubble sort of the schedule: pass `i` carries the latest-starting
      shift of `a[..n - i]` to position `n - 1 - i`. */
  method BubbleSortByStart(a: array<Shift>)
    modifies a
    ensures SortedByStart(a[..])
    ensures multiset(a[..]) == old(multiset(a[..]))
  {
    var n := a.Length;
    var i := 0;
    while i + 1 < n
      invariant 0 <= i <= n && (n == 0 || i < n)
      invariant SortedFrom(a[..], n - i) && Partitioned(a[..], n - i)
      invariant multiset(a[..]) == old(multiset(a[..]))
    {
      BubblePass(a, n - 1 - i);
      i := i + 1;
    }
    if n > 0 {
      assert SortedFrom(a[..], 1) && Partitioned(a[..], 1);
    }
  }

  // ---------------------------------------------------------------------
  // The join
  // ---------------------------------------------------------------------

  /** The shifts with the given id, in catalog order. */
  function ShiftsWithId(shifts: seq<Shift>, shiftId: string): (r: seq<Shift>)
    ensures forall s :: s in r <==> s in shifts && s.shiftId == shiftId
  {
    if |shifts| == 0 then []
    else
      var last := shifts[|shifts| - 1];
      var front := shifts[..|shifts| - 1];
      assert shifts == front + [last];
      ShiftsWithId(front, shiftId) + (if last.shiftId == shiftId then [last] else [])
  }

  /** The inner scan of the join: pushes, in catalog order, every shift
      whose id equals `shiftId`. */
  method ScanShiftsWithId(shifts: seq<Shift>, shiftId: string) returns (named: seq<Shift>)
    ensures named == ShiftsWithId(shifts, shiftId)
  {
    named := [];
    for j := 0 to |shifts|
      invariant named == ShiftsWithId(shifts[..j], shiftId)
    {
      assert shifts[..j + 1][..j] == shifts[..j];
      if shifts[j].shiftId == shiftId {
        named := named + [shifts[j]];
      }
    }
    assert shifts[..|shifts|] == shifts;
  }

  /** For each assignment, in order, every shift of the catalog with its id;
      an assignment whose shift is missing contributes nothing. */
  function ShiftsOf(assignments: seq<Assignment>, shifts: seq<Shift>): seq<Shift>
  {
    if |assignments| == 0 then []
    else
      ShiftsOf(assignments[..|assignments| - 1], shifts) +
        ShiftsWithId(shifts, assignments[|assignments| - 1].shiftId)
  }

  /** A shift is in the join exactly when it is in the catalog and some
      assignment names its id. */
  lemma {:induction false} ShiftsOfMembers(assignments: seq<Assignment>, shifts: seq<Shift>, s: Shift)
    ensures s in ShiftsOf(assignments, shifts) <==>
            s in shifts && exists a | a in assignments :: a.shiftId == s.shiftId
  {
    if |assignments| > 0 {
      var front := assignments[..|assignments| - 1];
      var last := assignments[|assignments| - 1];
      assert assignments == front + [last];
      ShiftsOfMembers(front, shifts, s);
      assert ShiftsOf(assignments, shifts) == ShiftsOf(front, shifts) + ShiftsWithId(shifts, last.shiftId);
    }
  }

  lemma ShiftsOfAppend(assignments: seq<Assignment>, a: Assignment, shifts: seq<Shift>)
    ensures ShiftsOf(assignments + [a], shifts) == ShiftsOf(assignments, shifts) + ShiftsWithId(shifts, a.shiftId)
  {
    assert (assignments + [a])[..|assignments|] == assignments;
  }
}
