/** The GPS/Unix time converter of `src/Time.php`: epoch seconds moved
    between the GPS scale (no leap seconds) and the Unix scale, using a table
    of the GPS seconds at which leap seconds were inserted. Times are exact
    reals, so the half second the converter adds at a leap instant is exact.

    The converter's functions take the table as a parameter `leaps`; the
    source's own table is `Leaps`. The counting and round-trip facts hold for
    every table whose entries are at least two seconds apart, and `Leaps` is
    such a table. */
module Time {

  /** getleaps: the GPS second of each tabulated leap-second insertion, in
      table order. */
  const Leaps: seq<int> := [
    46828800, 78364801, 109900802, 173059203, 252028804, 315187205, 346723206, 393984007,
    425520008, 457056009, 504489610, 551750411, 599184012, 820108813, 914803214, 1025136015
  ]

  /** Unix time of the GPS epoch, 1980-01-06T00:00:00 UTC. */
  const GpsEpochOffset: int := 315964800

  /** Each entry is at least two seconds after the one before. */
  predicate WellSpaced(leaps: seq<int>) {
    forall i :: 0 <= i < |leaps| - 1 ==> leaps[i] + 2 <= leaps[i + 1]
  }

  /** Entries further apart in a well-spaced table are further apart in time. */
  lemma {:induction false} SpacedApart(leaps: seq<int>, i: nat, j: nat)
    requires WellSpaced(leaps) && i < j < |leaps|
    ensures leaps[i] + 2 * (j - i) <= leaps[j]
    decreases j - i
  {
    if i + 1 < j {
      SpacedApart(leaps, i + 1, j);
    }
  }

  /** Table order and time order agree in a well-spaced table. */
  lemma Ordered(leaps: seq<int>, i: nat, j: nat)
    requires WellSpaced(leaps) && i < |leaps| && j < |leaps|
    ensures i < j <==> leaps[i] < leaps[j]
  {
    if i < j {
      SpacedApart(leaps, i, j);
    } else if j < i {
      SpacedApart(leaps, j, i);
    }
  }

  /** The source's table holds 16 entries, strictly ascending, each at least
      two seconds after the one before (the real gaps are months). */
  lemma LeapTable()
    ensures |Leaps| == 16 && WellSpaced(Leaps)
    ensures forall i, j :: 0 <= i < j < |Leaps| ==> Leaps[i] < Leaps[j]
  {
    forall i | 0 <= i < |Leaps| - 1
      ensures Leaps[i] + 2 <= Leaps[i + 1]
    {
      assert i == 0 || i == 1 || i == 2 || i == 3 || i == 4 || i == 5 || i == 6 || i == 7
          || i == 8 || i == 9 || i == 10 || i == 11 || i == 12 || i == 13 || i == 14;
    }
    forall i, j | 0 <= i < j < |Leaps|
      ensures Leaps[i] < Leaps[j]
    {
      Ordered(Leaps, i, j);
    }
  }

  /** The direction flag of countleaps, 'gps2unix' or 'unix2gps'. */
  datatype Direction = GpsToUnixCount | UnixToGpsCount

  /** What entry i is compared against: L[i] when converting GPS to Unix
      time, and L[i] - i when converting back, where the i leap seconds
      before entry i are already missing from the Unix-derived time. */
  function Threshold(leaps: seq<int>, dir: Direction, i: nat): int
    requires i < |leaps|
  {
    if dir == GpsToUnixCount then leaps[i] else leaps[i] - i
  }

  /** Entry i counts for time t. */
  predicate Passed(leaps: seq<int>, t: real, dir: Direction, i: nat)
    requires i < |leaps|
  {
    t >= Threshold(leaps, dir, i) as real
  }

  /** Both kinds of threshold rise strictly along a well-spaced table; the
      unix2gps kind needs the gaps of at least two. */
  lemma ThresholdsAscend(leaps: seq<int>, dir: Direction, i: nat)
    requires WellSpaced(leaps) && i + 1 < |leaps|
    ensures Threshold(leaps, dir, i) < Threshold(leaps, dir, i + 1)
  {
  }

  /** The count of the loop in countleaps over the entries from index i on.
      In a well-spaced table the thresholds ascend, so the entries that count
      are exactly the first ones: a prefix of the table. */
  function CountFrom(leaps: seq<int>, t: real, dir: Direction, i: nat): (n: nat)
    requires i <= |leaps|
    ensures i + n <= |leaps|
    ensures WellSpaced(leaps) ==>
      forall j :: i <= j < |leaps| ==> (Passed(leaps, t, dir, j) <==> j < i + n)
    decreases |leaps| - i
  {
    if i == |leaps| then 0
    else
      var rest := CountFrom(leaps, t, dir, i + 1);
      assert WellSpaced(leaps) && i + 1 < |leaps| ==> (Passed(leaps, t, dir, i + 1) ==> Passed(leaps, t, dir, i)) by {
        if WellSpaced(leaps) && i + 1 < |leaps| {
          ThresholdsAscend(leaps, dir, i);
        }
      }
      (if Passed(leaps, t, dir, i) then 1 else 0) + rest
  }

  /** countleaps(t, dirFlag): the number of entries that count for t. It is
      at most the table size, and in a well-spaced table entry j counts
      exactly when j is below the result. */
  function CountLeaps(leaps: seq<int>, t: real, dir: Direction): (n: nat)
    ensures n <= |leaps|
    ensures WellSpaced(leaps) ==>
      forall j :: 0 <= j < |leaps| ==> (Passed(leaps, t, dir, j) <==> j < n)
  {
    CountFrom(leaps, t, dir, 0)
  }

  /** Later times count at least as many entries. */
  lemma CountLeapsMonotone(leaps: seq<int>, t1: real, t2: real, dir: Direction)
    requires WellSpaced(leaps) && t1 <= t2
    ensures CountLeaps(leaps, t1, dir) <= CountLeaps(leaps, t2, dir)
  {
    var n1 := CountLeaps(leaps, t1, dir);
    if n1 > 0 {
      assert Passed(leaps, t1, dir, n1 - 1);
      assert Passed(leaps, t2, dir, n1 - 1);
    }
  }

  /** The search of isleap over the entries from index i on. */
  function LeapFrom(leaps: seq<int>, t: real, i: nat): (found: bool)
    requires i <= |leaps|
    ensures found <==> exists j :: i <= j < |leaps| && t == leaps[j] as real
    decreases |leaps| - i
  {
    if i == |leaps| then false else t == leaps[i] as real || LeapFrom(leaps, t, i + 1)
  }

  /** isleap(t): t is one of the tabulated leap instants. */
  function IsLeap(leaps: seq<int>, t: real): (leap: bool)
    ensures leap <==> exists j :: 0 <= j < |leaps| && t == leaps[j] as real
  {
    LeapFrom(leaps, t, 0)
  }

  /** A leap instant is the latest entry gps2unix counts for it, and every
      time that equals its latest counted entry is a leap instant. */
  lemma LeapIsLatestCounted(leaps: seq<int>, t: real)
    requires WellSpaced(leaps)
    ensures IsLeap(leaps, t) <==>
      var n := CountLeaps(leaps, t, GpsToUnixCount);
      n > 0 && t == leaps[n - 1] as real
  {
    var n := CountLeaps(leaps, t, GpsToUnixCount);
    if IsLeap(leaps, t) {
      var k :| 0 <= k < |leaps| && t == leaps[k] as real;
      assert Passed(leaps, t, GpsToUnixCount, k);
      assert Passed(leaps, t, GpsToUnixCount, n - 1);
      Ordered(leaps, k, n - 1);
    } else if n > 0 {
      assert t != leaps[n - 1] as real;
    }
  }

  /** A time with no fractional part; `fmod(t, 1) != 0` is its negation. */
  predicate IsWhole(t: real) {
    t.Floor as real == t
  }

  /** A whole time stays whole when whole seconds are added, and a half
      second more makes it fractional. */
  lemma WholeShift(t: real, k: int)
    ensures IsWhole(t) ==> IsWhole(t + k as real) && !IsWhole(t + k as real + 0.5)
  {
    if IsWhole(t) {
      var w := t.Floor + k;
      assert t + k as real == w as real;
      HalfAboveWhole(w);
    }
  }

  /** A whole second plus a half has that second as its floor. */
  lemma HalfAboveWhole(w: int)
    ensures IsWhole(w as real) && (w as real + 0.5).Floor == w
  {
  }

  /** A time that is whole or lies half a second past a whole second has a
      whole part, and only the latter is fractional. */
  lemma WholeOrHalf(u: real)
    ensures IsWhole(u) || IsWhole(u - 0.5) ==> IsWhole(if IsWhole(u) then u else u - 0.5)
    ensures IsWhole(u) ==> IsWhole(u - GpsEpochOffset as real)
    ensures IsWhole(u - 0.5) ==> !IsWhole(u) && IsWhole(u - 0.5 - GpsEpochOffset as real)
  {
    if IsWhole(u) {
      var w := u.Floor;
      assert u - GpsEpochOffset as real == (w - GpsEpochOffset) as real;
      HalfAboveWhole(w - GpsEpochOffset);
    }
    if IsWhole(u - 0.5) {
      var w := (u - 0.5).Floor;
      assert u == w as real + 0.5;
      HalfAboveWhole(w);
      assert u - 0.5 - GpsEpochOffset as real == (w - GpsEpochOffset) as real;
      HalfAboveWhole(w - GpsEpochOffset);
    }
  }

  /** gps2unix: add the epoch offset, take off the leap seconds counted so
      far, and add half a second when the time is itself a leap instant. On
      a whole GPS second the result is whole exactly off the leap instants,
      and ends in .5 at them. */
  function GpsToUnix(leaps: seq<int>, gpsTime: real): (r: real)
    ensures IsWhole(gpsTime) ==> (IsWhole(r) <==> !IsLeap(leaps, gpsTime))
    ensures IsWhole(gpsTime) && IsLeap(leaps, gpsTime) ==> IsWhole(r - 0.5)
  {
    var nleaps := CountLeaps(leaps, gpsTime, GpsToUnixCount);
    var unixTime := gpsTime + GpsEpochOffset as real - nleaps as real;
    WholeShift(gpsTime, GpsEpochOffset - nleaps);
    if IsLeap(leaps, gpsTime) then unixTime + 0.5 else unixTime
  }

  /** unix2gps: a fractional time is taken as the half second of a leap
      instant, its half removed and one second added back at the end; the
      leap seconds are counted with the index-shifted thresholds. A whole
      Unix second, or one and a half, gives a whole GPS second, and in a
      well-spaced table the GPS second found for a whole Unix second is
      never a leap instant. */
  function UnixToGps(leaps: seq<int>, unixTime: real): (r: real)
    ensures IsWhole(unixTime) || IsWhole(unixTime - 0.5) ==> IsWhole(r)
    ensures WellSpaced(leaps) && IsWhole(unixTime) ==> !IsLeap(leaps, r)
  {
    var (whole, isLeap) := if !IsWhole(unixTime) then (unixTime - 0.5, 1) else (unixTime, 0);
    var gpsTime := whole - GpsEpochOffset as real;
    var nleaps := CountLeaps(leaps, gpsTime, UnixToGpsCount);
    WholeOrHalf(unixTime);
    WholeShift(gpsTime, nleaps + isLeap);
    assert WellSpaced(leaps) && IsWhole(unixTime) ==> !IsLeap(leaps, gpsTime + nleaps as real) by {
      if WellSpaced(leaps) && IsWhole(unixTime) {
        var g' := unixTime.Floor - GpsEpochOffset;
        assert gpsTime == g' as real;
        NoLeapAfterUnixToGps(leaps, g');
      }
    }
    gpsTime + nleaps as real + isLeap as real
  }

  /** Before the first entry of a well-spaced table nothing counts in
      either direction and no time is a leap instant. */
  lemma BeforeFirstLeap(leaps: seq<int>, t: real)
    requires WellSpaced(leaps) && |leaps| > 0 && t < leaps[0] as real
    ensures CountLeaps(leaps, t, GpsToUnixCount) == 0
    ensures CountLeaps(leaps, t, UnixToGpsCount) == 0
    ensures !IsLeap(leaps, t)
  {
    assert !Passed(leaps, t, GpsToUnixCount, 0);
    assert !Passed(leaps, t, UnixToGpsCount, 0);
    forall j | 0 <= j < |leaps|
      ensures t != leaps[j] as real
    {
      Ordered(leaps, 0, j);
    }
  }

  /** The two epochs correspond under the source's table: GPS second 0 is
      Unix second 315964800, and back. */
  lemma EpochsCorrespond()
    ensures GpsToUnix(Leaps, 0.0) == 315964800.0
    ensures UnixToGps(Leaps, 315964800.0) == 0.0
  {
    LeapTable();
    BeforeFirstLeap(Leaps, 0.0);
    UnixToGpsWhole(Leaps, 315964800.0, 315964800, false);
  }

  /** Unfolds gps2unix on a whole second. */
  lemma GpsToUnixWhole(leaps: seq<int>, t: real, g: int)
    requires t == g as real
    ensures var n := CountLeaps(leaps, t, GpsToUnixCount);
      GpsToUnix(leaps, t) == (g + GpsEpochOffset - n) as real + if IsLeap(leaps, t) then 0.5 else 0.0
  {
  }

  /** Unfolds unix2gps on a whole second w, or on w + 0.5 when half is set. */
  lemma UnixToGpsWhole(leaps: seq<int>, u: real, w: int, half: bool)
    requires u == w as real + if half then 0.5 else 0.0
    ensures var g := (w - GpsEpochOffset) as real;
      UnixToGps(leaps, u) == g + CountLeaps(leaps, g, UnixToGpsCount) as real + if half then 1.0 else 0.0
  {
    assert u.Floor == w;
    assert half ==> u - 0.5 == w as real;
  }

  /** At the leap instant L[k], gps2unix counts k + 1 entries, and unix2gps
      counts k entries at the time gps2unix yields for it. */
  lemma CountsAtLeap(leaps: seq<int>, k: nat)
    requires WellSpaced(leaps) && k < |leaps|
    ensures CountLeaps(leaps, leaps[k] as real, GpsToUnixCount) == k + 1
    ensures CountLeaps(leaps, (leaps[k] - k - 1) as real, UnixToGpsCount) == k
  {
    var t := leaps[k] as real;
    assert Passed(leaps, t, GpsToUnixCount, k);
    if k + 1 < |leaps| {
      assert !Passed(leaps, t, GpsToUnixCount, k + 1);
    }
    var g' := (leaps[k] - k - 1) as real;
    assert !Passed(leaps, g', UnixToGpsCount, k);
    if k > 0 {
      assert Passed(leaps, g', UnixToGpsCount, k - 1);
    }
  }

  /** Away from the leap instants, unix2gps counts as many entries at
      g - n as gps2unix counts at g. */
  lemma CountsOffLeap(leaps: seq<int>, g: int)
    requires WellSpaced(leaps) && !IsLeap(leaps, g as real)
    ensures var n := CountLeaps(leaps, g as real, GpsToUnixCount);
      CountLeaps(leaps, (g - n) as real, UnixToGpsCount) == n
  {
    var n := CountLeaps(leaps, g as real, GpsToUnixCount);
    var g' := (g - n) as real;
    if n > 0 {
      var last := leaps[n - 1];
      assert Passed(leaps, g as real, GpsToUnixCount, n - 1);
      assert last as real != g as real;
      assert g - n >= last - (n - 1);
      assert Passed(leaps, g', UnixToGpsCount, n - 1);
    }
    if n < |leaps| {
      var next := leaps[n];
      assert !Passed(leaps, g as real, GpsToUnixCount, n);
      assert g - n < next - n;
      assert !Passed(leaps, g', UnixToGpsCount, n);
    }
  }

  /** unix2gps undoes gps2unix on every whole GPS second, leap instants
      included: the half second marks the leap, and the index-shifted
      thresholds count one entry fewer there. */
  lemma UnixToGpsInvertsGpsToUnix(leaps: seq<int>, g: int)
    requires WellSpaced(leaps)
    ensures UnixToGps(leaps, GpsToUnix(leaps, g as real)) == g as real
  {
    if IsLeap(leaps, g as real) {
      var k :| 0 <= k < |leaps| && g as real == leaps[k] as real;
      RoundTripAtLeap(leaps, k);
    } else {
      RoundTripOffLeap(leaps, g);
    }
  }

  /** The leap-instant case: L[k] goes to a half second and back. */
  lemma RoundTripAtLeap(leaps: seq<int>, k: nat)
    requires WellSpaced(leaps) && k < |leaps|
    ensures UnixToGps(leaps, GpsToUnix(leaps, leaps[k] as real)) == leaps[k] as real
  {
    var g := leaps[k];
    assert IsLeap(leaps, g as real);
    CountsAtLeap(leaps, k);
    GpsToUnixWhole(leaps, g as real, g);
    UnixToGpsWhole(leaps, GpsToUnix(leaps, g as real), g + GpsEpochOffset - (k + 1), true);
  }

  /** The case away from the leap instants: a whole second goes to a whole
      second and back. */
  lemma RoundTripOffLeap(leaps: seq<int>, g: int)
    requires WellSpaced(leaps) && !IsLeap(leaps, g as real)
    ensures UnixToGps(leaps, GpsToUnix(leaps, g as real)) == g as real
  {
    var n := CountLeaps(leaps, g as real, GpsToUnixCount);
    CountsOffLeap(leaps, g);
    GpsToUnixWhole(leaps, g as real, g);
    UnixToGpsWhole(leaps, GpsToUnix(leaps, g as real), g + GpsEpochOffset - n, false);
  }

  /** gps2unix undoes unix2gps on every whole Unix second: the GPS second
      found is never a leap instant, and the two counts agree there. */
  lemma GpsToUnixInvertsUnixToGps(leaps: seq<int>, u: int)
    requires WellSpaced(leaps)
    ensures GpsToUnix(leaps, UnixToGps(leaps, u as real)) == u as real
  {
    var g' := u - GpsEpochOffset;
    var m := CountLeaps(leaps, g' as real, UnixToGpsCount);
    var g := g' + m;
    UnixToGpsWhole(leaps, u as real, u, false);
    CountsAfterUnixToGps(leaps, g');
    NoLeapAfterUnixToGps(leaps, g');
    GpsToUnixWhole(leaps, UnixToGps(leaps, u as real), g);
  }

  /** At the GPS second unix2gps finds for a whole Unix second, gps2unix
      counts the same entries. */
  lemma CountsAfterUnixToGps(leaps: seq<int>, g': int)
    requires WellSpaced(leaps)
    ensures var g := g' + CountLeaps(leaps, g' as real, UnixToGpsCount);
      CountLeaps(leaps, g as real, GpsToUnixCount) == CountLeaps(leaps, g' as real, UnixToGpsCount)
  {
    var m := CountLeaps(leaps, g' as real, UnixToGpsCount);
    var g := g' + m;
    if m > 0 {
      var last := leaps[m - 1];
      assert Passed(leaps, g' as real, UnixToGpsCount, m - 1);
      assert g' >= last - (m - 1);
      assert g > last;
      assert Passed(leaps, g as real, GpsToUnixCount, m - 1);
    }
    if m < |leaps| {
      var next := leaps[m];
      assert !Passed(leaps, g' as real, UnixToGpsCount, m);
      assert g' < next - m;
      assert g < next;
      assert !Passed(leaps, g as real, GpsToUnixCount, m);
    }
  }

  /** The GPS second unix2gps finds for a whole Unix second is never a leap
      instant: it lies strictly between the entries it counts and the rest. */
  lemma NoLeapAfterUnixToGps(leaps: seq<int>, g': int)
    requires WellSpaced(leaps)
    ensures !IsLeap(leaps, (g' + CountLeaps(leaps, g' as real, UnixToGpsCount)) as real)
  {
    var m := CountLeaps(leaps, g' as real, UnixToGpsCount);
    var g := g' + m;
    forall j | 0 <= j < |leaps|
      ensures g as real != leaps[j] as real
    {
      var entry := leaps[j];
      if j < m {
        assert Passed(leaps, g' as real, UnixToGpsCount, j);
        assert g' >= entry - j;
      } else {
        assert !Passed(leaps, g' as real, UnixToGpsCount, j);
        assert g' < entry - j;
      }
    }
  }

  /** With the source's table, unix2gps and gps2unix invert each other on
      whole seconds in both directions. */
  lemma SourceTableRoundTrips(g: int, u: int)
    ensures UnixToGps(Leaps, GpsToUnix(Leaps, g as real)) == g as real
    ensures GpsToUnix(Leaps, UnixToGps(Leaps, u as real)) == u as real
  {
    LeapTable();
    UnixToGpsInvertsGpsToUnix(Leaps, g);
    GpsToUnixInvertsUnixToGps(Leaps, u);
  }
}
