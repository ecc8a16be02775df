/** The time calls of the MINIX process manager: do_time, do_utctime and do_stime of
    servers/pm/time.c, on mathematical integers. Time runs in ticks, hz to the second. */
module TimeCalls {
  const MICROS: nat := 1000000

  /** Timestamps behind which a leap second was inserted. */
  const LEAP_SECONDS: seq<int> := [
    78796799, 94694399, 126230399, 157766399, 189302399, 220924799, 252460799, 283996799, 315532799,
    362793599, 394329599, 425865599, 489023999, 567993599, 631151999, 662687999, 709948799, 741484799,
    773020799, 820454399, 867715199, 915148799, 1136073599, 1230767999, 1341100799, 1435708799, 1483228799]

  // ----- seconds and microseconds

  /** The fraction of a second that the reply carries. */
  function Fraction(uptime: nat, hz: nat): nat
    requires hz > 0
  {
    uptime % hz * MICROS / hz
  }

  lemma DivisionIsUnique(a: nat, d: nat, q: nat, r: nat)
    requires d > 0 && a == q * d + r && r < d
    ensures a / d == q
  {
    var q', r' := a / d, a % d;
    assert a == q' * d + r';
    if q' < q {
      MultiplesAreApart(q', q, d);
      assert false;
    } else if q < q' {
      MultiplesAreApart(q, q', d);
      assert false;
    }
  }

  lemma {:induction false} MultiplesAreApart(p: nat, q: nat, d: nat)
    requires p < q
    ensures p * d + d <= q * d
  {
    assert q * d == (q - 1) * d + d;
    if p < q - 1 {
      MultiplesAreApart(p, q - 1, d);
    }
  }

  lemma Rearranged(q: nat, r: nat, hz: nat, m: nat)
    ensures (q * hz + r) * m == q * m * hz + r * m
  {
    assert (q * hz + r) * m == q * hz * m + r * m;
    assert q * hz * m == q * (hz * m) == q * (m * hz) == q * m * hz;
  }

  lemma DivisionOfProduct(n: nat, d: nat)
    requires d > 0
    ensures n == n / d * d + n % d && n % d < d
  {
  }

  lemma ScaledQuotient(q: nat, r: nat, f: nat, g: nat, hz: nat, m: nat)
    requires hz > 0 && r * m == f * hz + g && g < hz
    ensures (q * hz + r) * m / hz == q * m + f
  {
    Rearranged(q, r, hz, m);
    assert (q * m + f) * hz == q * m * hz + f * hz;
    DivisionIsUnique((q * hz + r) * m, hz, q * m + f, g);
  }

  lemma ScaledDivision(u: nat, hz: nat, m: nat)
    requires hz > 0
    ensures u / hz * m + u % hz * m / hz == u * m / hz
  {
    var q, r := u / hz, u % hz;
    var rm := r * m;
    DivisionOfProduct(u, hz);
    DivisionOfProduct(rm, hz);
    ScaledQuotient(q, r, rm / hz, rm % hz, hz, m);
  }

  /** Seconds and fraction together are the uptime in microseconds, rounded down once: nothing is
      lost by splitting it, and the fraction is always less than a second. */
  lemma SplitLosesNothing(uptime: nat, hz: nat)
    requires hz > 0
    ensures uptime / hz * 1000000 + Fraction(uptime, hz) == uptime * 1000000 / hz
    ensures Fraction(uptime, hz) < 1000000
  {
    ScaledDivision(uptime, hz, MICROS);
    MultiplesAreApart(uptime % hz, hz, MICROS);
    if Fraction(uptime, hz) >= MICROS {
      assert false;
    }
  }

  lemma DivisionIsMonotone(a: nat, b: nat, d: nat)
    requires a <= b && d > 0
    ensures a / d <= b / d
  {
    if b / d < a / d {
      MultiplesAreApart(b / d, a / d, d);
      assert false;
    }
  }

  /** Later replies are never earlier, compared by seconds and then by microseconds. */
  lemma RepliesAreMonotone(u: nat, v: nat, hz: nat)
    requires u <= v && hz > 0
    ensures u / hz < v / hz || (u / hz == v / hz && Fraction(u, hz) <= Fraction(v, hz))
  {
    SplitLosesNothing(u, hz);
    SplitLosesNothing(v, hz);
    DivisionIsMonotone(u, v, hz);
    DivisionIsMonotone(u * MICROS, v * MICROS, hz);
  }

  // ----- leap seconds

  predicate StrictlyIncreasing(s: seq<int>) {
    forall i, j :: 0 <= i < j < |s| ==> s[i] < s[j]
  }

  /** How many entries of the table lie before t, wherever in the table they are. */
  function CountBelow(leaps: seq<int>, t: int): (n: nat)
    ensures n <= |leaps|
  {
    if leaps == [] then 0 else (if leaps[0] < t then 1 else 0) + CountBelow(leaps[1..], t)
  }

  /** UTC seconds for POSIX seconds: ten inherent ones and the leap seconds so far. */
  function Utc(leaps: seq<int>, t: int): int {
    t + CountBelow(leaps, t) + 10
  }

  lemma {:induction false} CountIsIndex(leaps: seq<int>, t: int, k: nat)
    requires StrictlyIncreasing(leaps) && k <= |leaps|
    requires k > 0 ==> leaps[k - 1] < t
    requires k < |leaps| ==> leaps[k] >= t
    ensures CountBelow(leaps, t) == k
  {
    if leaps != [] {
      CountIsIndex(leaps[1..], t, if k == 0 then 0 else k - 1);
    }
  }

  /** UTC of an entry of the table: its own leap second is still to come. */
  lemma UtcOfEntry(leaps: seq<int>, i: nat)
    requires StrictlyIncreasing(leaps) && i < |leaps|
    ensures Utc(leaps, leaps[i]) == leaps[i] + i + 10
  {
    CountIsIndex(leaps, leaps[i], i);
  }

  lemma {:induction false} CountStep(leaps: seq<int>, t: int)
    requires StrictlyIncreasing(leaps)
    ensures CountBelow(leaps, t + 1) == CountBelow(leaps, t) + if t in leaps then 1 else 0
  {
    if leaps != [] {
      CountStep(leaps[1..], t);
      assert leaps == [leaps[0]] + leaps[1..];
      if t == leaps[0] {
        assert t !in leaps[1..];
      }
    }
  }

  /** One second later UTC is one second later, but two right behind an entry of the table. */
  lemma UtcStep(leaps: seq<int>, t: int)
    requires StrictlyIncreasing(leaps)
    ensures Utc(leaps, t + 1) == Utc(leaps, t) + if t in leaps then 2 else 1
  {
    CountStep(leaps, t);
  }

  lemma {:induction false} UtcIncreases(leaps: seq<int>, s: int, t: int)
    requires StrictlyIncreasing(leaps) && s < t
    ensures Utc(leaps, s) < Utc(leaps, t)
    decreases t - s
  {
    UtcStep(leaps, t - 1);
    if s < t - 1 {
      UtcIncreases(leaps, s, t - 1);
    }
  }

  /** The UTC seconds at which a leap second is inserted, which no POSIX second stands for. */
  predicate IsSkipped(leaps: seq<int>, u: int) {
    exists i :: 0 <= i < |leaps| && u == leaps[i] + i + 11
  }

  /** How many entries have their own UTC second before u. */
  function EntriesBefore(leaps: seq<int>, u: int, k: nat): (n: nat)
    requires k <= |leaps|
    ensures k <= n <= |leaps|
    ensures n > k ==> leaps[n - 1] + (n - 1) + 10 < u
    ensures n < |leaps| ==> leaps[n] + n + 10 >= u
    decreases |leaps| - k
  {
    if k < |leaps| && leaps[k] + k + 10 < u then EntriesBefore(leaps, u, k + 1) else k
  }

  /** Back from UTC: the exact inverse. Every UTC second stands for one POSIX second, or is the
      leap second behind an entry of the table, and never both. */
  lemma UtcHasInverse(leaps: seq<int>, u: int) returns (t: int)
    requires StrictlyIncreasing(leaps)
    ensures if IsSkipped(leaps, u) then forall x :: Utc(leaps, x) != u
            else forall x :: Utc(leaps, x) == u <==> x == t
  {
    if i :| 0 <= i < |leaps| && u == leaps[i] + i + 11 {
      UtcOfEntry(leaps, i);
      UtcStep(leaps, leaps[i]);
      t := leaps[i];
      forall x
        ensures Utc(leaps, x) != u
      {
        if x < t { UtcIncreases(leaps, x, t); }
        if t + 1 < x { UtcIncreases(leaps, t + 1, x); }
      }
    } else {
      var k := EntriesBefore(leaps, u, 0);
      t := u - 10 - k;
      assert k > 0 ==> u != leaps[k - 1] + (k - 1) + 11;
      CountIsIndex(leaps, t, k);
      forall x
        ensures Utc(leaps, x) == u <==> x == t
      {
        if x < t { UtcIncreases(leaps, x, t); }
        if t < x { UtcIncreases(leaps, t, x); }
      }
    }
  }

  /** The leap seconds of the first n entries. */
  function SkippedSeconds(leaps: seq<int>, n: nat): set<int>
    requires n <= |leaps|
  {
    if n == 0 then {} else SkippedSeconds(leaps, n - 1) + {leaps[n - 1] + (n - 1) + 11}
  }

  lemma {:induction false} SkippedSecondsAreOfEntries(leaps: seq<int>, n: nat, u: int)
    requires n <= |leaps|
    ensures u in SkippedSeconds(leaps, n) <==> exists i :: 0 <= i < n && u == leaps[i] + i + 11
  {
    if n > 0 {
      SkippedSecondsAreOfEntries(leaps, n - 1, u);
    }
  }

  /** Different entries skip different seconds, so as many are skipped as there are entries. */
  lemma {:induction false} EveryEntrySkipsOne(leaps: seq<int>, n: nat)
    requires StrictlyIncreasing(leaps) && n <= |leaps|
    ensures |SkippedSeconds(leaps, n)| == n
  {
    if n > 0 {
      EveryEntrySkipsOne(leaps, n - 1);
      SkippedSecondsAreOfEntries(leaps, n - 1, leaps[n - 1] + (n - 1) + 11);
    }
  }

  lemma SkippedIffNoPreimage(leaps: seq<int>, u: int)
    requires StrictlyIncreasing(leaps)
    ensures u in SkippedSeconds(leaps, |leaps|) <==> forall x :: Utc(leaps, x) != u
  {
    var t := UtcHasInverse(leaps, u);
    SkippedSecondsAreOfEntries(leaps, |leaps|, u);
    if !IsSkipped(leaps, u) {
      assert Utc(leaps, t) == u;
    }
  }

  /** The seconds that no POSIX second stands for are as many as the table has entries. */
  lemma AsManySkippedAsEntries(leaps: seq<int>)
    requires StrictlyIncreasing(leaps)
    ensures |SkippedSeconds(leaps, |leaps|)| == |leaps|
    ensures forall u :: u in SkippedSeconds(leaps, |leaps|) <==> forall x :: Utc(leaps, x) != u
  {
    EveryEntrySkipsOne(leaps, |leaps|);
    forall u
      ensures u in SkippedSeconds(leaps, |leaps|) <==> forall x :: Utc(leaps, x) != u
    {
      SkippedIffNoPreimage(leaps, u);
    }
  }

  /** With the table of the source, exactly 27 seconds have no POSIX second. */
  lemma TwentySevenAreSkipped() returns (skipped: set<int>)
    ensures |skipped| == 27
    ensures forall u :: u in skipped <==> forall x :: Utc(LEAP_SECONDS, x) != u
  {
    TableIncreases();
    AsManySkippedAsEntries(LEAP_SECONDS);
    skipped := SkippedSeconds(LEAP_SECONDS, |LEAP_SECONDS|);
  }

  lemma {:induction false} NeighboursIncrease(s: seq<int>, i: nat, j: nat)
    requires i < j < |s| && forall k :: 0 < k < |s| ==> s[k - 1] < s[k]
    ensures s[i] < s[j]
  {
    if i < j - 1 {
      NeighboursIncrease(s, i, j - 1);
    }
  }

  lemma TableIncreases()
    ensures |LEAP_SECONDS| == 27 && StrictlyIncreasing(LEAP_SECONDS)
  {
    forall i, j | 0 <= i < j < |LEAP_SECONDS|
      ensures LEAP_SECONDS[i] < LEAP_SECONDS[j]
    {
      NeighboursIncrease(LEAP_SECONDS, i, j);
    }
  }

  // ----- what the table holds

  function IsLeap(year: int): bool {
    year % 4 == 0 && (year % 100 != 0 || year % 400 == 0)
  }

  /** The days from the beginning of 1970 to the beginning of a year, year by year. */
  function DaysBefore(year: int): nat
    decreases year
  {
    if year <= 1970 then 0 else DaysBefore(year - 1) + if IsLeap(year - 1) then 366 else 365
  }

  function YearsBefore(year: int, period: int): int
    requires period > 0
  {
    (year - 1) / period - 1969 / period
  }

  /** The same with the leap years counted. */
  lemma {:induction false} DaysAreCounted(year: int)
    requires year >= 1970
    ensures DaysBefore(year) == 365 * (year - 1970) + YearsBefore(year, 4) - YearsBefore(year, 100) + YearsBefore(year, 400)
  {
    if year > 1970 {
      DaysAreCounted(year - 1);
      LeapYearIsCounted(year - 1);
    }
  }

  lemma NextMultiple(y: nat, p: nat)
    requires y > 0 && p > 0
    ensures y / p == (y - 1) / p + if y % p == 0 then 1 else 0
  {
    var q, r := y / p, y % p;
    DivisionOfProduct(y, p);
    if r == 0 {
      assert q > 0 && y - 1 == (q - 1) * p + (p - 1);
      DivisionIsUnique(y - 1, p, q - 1, p - 1);
    } else {
      DivisionIsUnique(y - 1, p, q, r - 1);
    }
  }

  lemma DividesMultiple(y: nat, e: nat, f: nat)
    requires e > 0 && f > 0 && y % (f * e) == 0
    ensures y % e == 0
  {
    var q := y / (f * e);
    DivisionOfProduct(y, f * e);
    assert y == q * (f * e) == q * f * e;
    DivisionIsUnique(y, e, q * f, 0);
  }

  lemma LeapYearIsCounted(year: nat)
    requires year > 0
    ensures YearsBefore(year + 1, 4) - YearsBefore(year + 1, 100) + YearsBefore(year + 1, 400)
         == YearsBefore(year, 4) - YearsBefore(year, 100) + YearsBefore(year, 400) + if IsLeap(year) then 1 else 0
  {
    NextMultiple(year, 4);
    NextMultiple(year, 100);
    NextMultiple(year, 400);
    if year % 100 == 0 {
      DividesMultiple(year, 4, 25);
    }
    if year % 400 == 0 {
      DividesMultiple(year, 100, 4);
    }
  }

  /** The end of June or of December of a year, in days since the beginning of 1970. */
  function DaysThrough(year: int, december: bool): nat
    requires year >= 1970
  {
    if december then DaysBefore(year + 1)
    else DaysBefore(year) + 31 + (if IsLeap(year) then 29 else 28) + 31 + 30 + 31 + 30
  }

  /** When leap seconds were inserted: the year, and whether at the end of December or of June. */
  const INSERTED: seq<(int, bool)> := [
    (1972, false), (1972, true), (1973, true), (1974, true), (1975, true), (1976, true), (1977, true),
    (1978, true), (1979, true), (1981, false), (1982, false), (1983, false), (1985, false), (1987, true),
    (1989, true), (1990, true), (1992, false), (1993, false), (1994, false), (1995, true), (1997, false),
    (1998, true), (2005, true), (2008, true), (2012, false), (2015, false), (2016, true)]

  function Closed(year: int, december: bool): int {
    365 * (year - 1970) + (year - 1969) / 4 - (year - 1901) / 100 + (year - 1601) / 400
    + if december then (if IsLeap(year) then 366 else 365) else (if IsLeap(year) then 182 else 181)
  }

  lemma ClosedIsDays(year: int, december: bool)
    requires year >= 1970
    ensures DaysThrough(year, december) == Closed(year, december)
  {
    DaysAreCounted(year);
  }

  /** Entry i of the table is the last second of the half-year behind which the i-th leap second was
      inserted. */
  predicate IsHalfYearEnd(i: nat)
    requires i < |LEAP_SECONDS| == |INSERTED|
  {
    var (year, december) := INSERTED[i];
    year >= 1972 && LEAP_SECONDS[i] + 1 == 86400 * DaysThrough(year, december)
  }

  lemma EarlyEntries(i: nat)
    requires i < 9
    ensures |LEAP_SECONDS| == |INSERTED| == 27
    ensures INSERTED[i].0 >= 1972 && LEAP_SECONDS[i] + 1 == 86400 * Closed(INSERTED[i].0, INSERTED[i].1)
  {
  }

  lemma MiddleEntries(i: nat)
    requires 9 <= i < 18
    ensures |LEAP_SECONDS| == |INSERTED| == 27
    ensures INSERTED[i].0 >= 1972 && LEAP_SECONDS[i] + 1 == 86400 * Closed(INSERTED[i].0, INSERTED[i].1)
  {
  }

  lemma LateEntries(i: nat)
    requires 18 <= i < 27
    ensures |LEAP_SECONDS| == |INSERTED| == 27
    ensures INSERTED[i].0 >= 1972 && LEAP_SECONDS[i] + 1 == 86400 * Closed(INSERTED[i].0, INSERTED[i].1)
  {
  }

  lemma EntriesAreHalfYearEnds(i: nat)
    requires i < 27
    ensures |LEAP_SECONDS| == |INSERTED| == 27 && IsHalfYearEnd(i)
  {
    if i < 9 {
      EarlyEntries(i);
    } else if i < 18 {
      MiddleEntries(i);
    } else {
      LateEntries(i);
    }
    ClosedIsDays(INSERTED[i].0, INSERTED[i].1);
  }

  /** Ten seconds up to the end of June 1972, and 37 from 2017 on. */
  lemma UtcAtTheEnds(t: int)
    ensures t < 86400 * DaysThrough(1972, false) ==> Utc(LEAP_SECONDS, t) == t + 10
    ensures t >= 86400 * DaysThrough(2016, true) ==> Utc(LEAP_SECONDS, t) == t + 37
  {
    EntriesAreHalfYearEnds(0);
    EntriesAreHalfYearEnds(26);
    TableIncreases();
    if t <= LEAP_SECONDS[0] {
      CountIsIndex(LEAP_SECONDS, t, 0);
    } else if LEAP_SECONDS[26] < t {
      CountIsIndex(LEAP_SECONDS, t, 27);
    }
  }

  // ----- the calls

  datatype Status = OK | EPERM

  class ProcessManager {
    const hz: nat
    var boottime: int   // of the kernel
    var replyTime: int
    var replyUtime: int

    constructor (hz: nat, boottime: int)
      requires hz > 0
      ensures this.hz == hz && this.boottime == boottime
    {
      this.hz, this.boottime := hz, boottime;
      replyTime, replyUtime := 0, 0;
    }

    method DoTime(uptime: nat) returns (status: Status)
      requires hz > 0
      modifies this`replyTime, this`replyUtime
      ensures status == OK
      ensures (replyTime - boottime) * 1000000 + replyUtime == uptime * 1000000 / hz
      ensures 0 <= replyUtime < 1000000
      ensures replyTime == boottime + uptime / hz
    {
      SplitLosesNothing(uptime, hz);
      replyTime := boottime + uptime / hz;
      replyUtime := uptime % hz * MICROS / hz;
      return OK;
    }

    /** The scan stops at the first entry that is not before the time; because the table is
        sorted, it has then passed all that are. */
    method DoUtctime(uptime: nat) returns (status: Status)
      requires hz > 0
      modifies this`replyTime, this`replyUtime
      ensures status == OK
      ensures replyTime == Utc(LEAP_SECONDS, boottime + uptime / hz)
      ensures replyUtime == Fraction(uptime, hz)
    {
      var utctime := boottime + uptime / hz;
      TableIncreases();
      var i := 0;
      while i < 27
        invariant 0 <= i <= 27
        invariant i > 0 ==> LEAP_SECONDS[i - 1] < utctime
      {
        if !(utctime > LEAP_SECONDS[i]) {
          break;
        }
        i := i + 1;
      }
      CountIsIndex(LEAP_SECONDS, utctime, i);
      replyTime := utctime + i + 10;
      replyUtime := uptime % hz * MICROS / hz;
      return OK;
    }

    /** Sets the boot time so that the time is now what was asked for. */
    method DoStime(isSuperUser: bool, stime: int, uptime: nat) returns (status: Status)
      requires hz > 0
      modifies this`boottime
      ensures status == if isSuperUser then OK else EPERM
      ensures if isSuperUser then boottime + uptime / hz == stime else boottime == old(boottime)
    {
      if !isSuperUser {
        return EPERM;
      }
      boottime := stime - uptime / hz;
      return OK;
    }

    /** After the time was set, reading it gives the set time and the whole seconds since. */
    method SetThenRead(stime: int, uptime: nat, later: nat) returns (seconds: int)
      requires hz > 0 && uptime <= later
      modifies this
      ensures seconds == stime + later / hz - uptime / hz >= stime
      ensures later - uptime == hz ==> seconds == stime + 1
    {
      var _ := DoStime(true, stime, uptime);
      var _ := DoTime(later);
      DivisionIsMonotone(uptime, later, hz);
      if later - uptime == hz {
        DivisionIsUnique(later, hz, uptime / hz + 1, uptime % hz) by {
          assert (uptime / hz + 1) * hz == uptime / hz * hz + hz;
        }
      }
      return replyTime;
    }
  }
}
