/** Kinematic statistics over one channel: speed and acceleration by finite differences at
    50 frames per second, their first maxima, the positions where they exceed the channel's
    limits, and the `m:ss` rendering of a frame number. */
module Stats {
  import opened Text
  import opened Series

  /** Frames per second of the recorded animation. */
  const Fps: nat := 50

  /** Seconds between two frames. */
  const Dt: real := 1.0 / (Fps as real)

  /** A channel's speed and acceleration limits. */
  datatype Limit = Limit(speed: real, accel: real)

  /** What `calculateStats` returns. The `*Frame` fields and the events' frames are positions
      in the frame list given to it, not frame numbers. */
  datatype Stats = Stats(
    maxSpeed: real,
    maxAccel: real,
    maxSpeedFrame: nat,
    maxAccelFrame: nat,
    exceededSpeedFrames: seq<Event>,
    exceededAccelFrames: seq<Event>)

  /** The two finite-difference scans: speed looks one sample back, acceleration two. */
  datatype Derivative = Speed | Accel

  function Order(d: Derivative): nat {
    match d
    case Speed => 1
    case Accel => 2
  }

  function Abs(x: real): real {
    if x < 0.0 then -x else x
  }

  /** The sample of each listed frame, 0 where the series has none. */
  function Samples(series: FrameSeries, frames: seq<nat>): (v: seq<real>)
    ensures |v| == |frames|
    ensures forall k :: 0 <= k < |frames| ==>
      v[k] == (if frames[k] in series then series[frames[k]] else 0.0)
  {
    if |frames| == 0 then [] else [ValueOrZero(series, frames[0])] + Samples(series, frames[1..])
  }

  /** Speed at position `i` (first difference over `Dt`, divided by 6) or acceleration
      (second difference over `Dt` squared, divided by 6). */
  function Magnitude(d: Derivative, v: seq<real>, i: nat): (r: real)
    requires Order(d) <= i < |v|
    ensures r >= 0.0
    ensures d == Speed ==> (r == 0.0 <==> v[i] == v[i - 1])
    ensures d == Accel ==> (r == 0.0 <==> v[i] - v[i - 1] == v[i - 1] - v[i - 2])
  {
    match d
    case Speed => Abs((v[i] - v[i - 1]) / Dt) / 6.0
    case Accel => Abs((v[i] - 2.0 * v[i - 1] + v[i - 2]) / (Dt * Dt)) / 6.0
  }

  /** `max` is the largest magnitude at positions `Order(d)..n-1` (or 0 if none is positive) and
      `at` the first position reaching it under a strict `>` scan, 0 when nothing exceeded 0. */
  ghost predicate FirstMaxBefore(d: Derivative, v: seq<real>, n: nat, max: real, at: nat) {
    && 0.0 <= max
    && (forall i :: Order(d) <= i < n && i < |v| ==> Magnitude(d, v, i) <= max)
    && (at == 0 <==> max == 0.0)
    && (max != 0.0 ==>
          && Order(d) <= at < n && at < |v|
          && Magnitude(d, v, at) == max
          && forall j :: Order(d) <= j < at ==> Magnitude(d, v, j) < max)
  }

  /** `events` lists, in ascending position order, exactly the positions among
      `Order(d)..n-1` whose magnitude is strictly above `limit`, each with that magnitude. */
  ghost predicate ExceedancesBefore(d: Derivative, v: seq<real>, n: nat, limit: real, events: seq<Event>) {
    && (forall e :: e in events <==>
          Order(d) <= e.frame < n && e.frame < |v| && e.magnitude == Magnitude(d, v, e.frame) && limit < e.magnitude)
    && (forall k :: 0 <= k < |events| - 1 ==> events[k].frame < events[k + 1].frame)
  }

  /** One pass of `calculateStats`: positions `Order(d)..|values|-1` in ascending order, a running
      maximum updated under strict `>`, and every magnitude strictly above `limit` pushed with
      its position. */
  method ScanDerivative(d: Derivative, values: seq<real>, limit: real)
    returns (max: real, at: nat, exceeded: seq<Event>)
    ensures FirstMaxBefore(d, values, |values|, max, at)
    ensures ExceedancesBefore(d, values, |values|, limit, exceeded)
  {
    max, at, exceeded := 0.0, 0, [];
    var i := Order(d);
    while i < |values|
      invariant Order(d) <= i && (i <= |values| || |values| < Order(d))
      invariant FirstMaxBefore(d, values, i, max, at)
      invariant ExceedancesBefore(d, values, i, limit, exceeded)
    {
      var m := Magnitude(d, values, i);
      if m > max {
        max, at := m, i;
      }
      if m > limit {
        exceeded := exceeded + [Event(i, m)];
      }
      i := i + 1;
    }
  }

  /** The specification of the maximum leaves no choice: its value and position are unique. */
  lemma FirstMaxUnique(d: Derivative, v: seq<real>, n: nat, max1: real, at1: nat, max2: real, at2: nat)
    requires FirstMaxBefore(d, v, n, max1, at1) && FirstMaxBefore(d, v, n, max2, at2)
    ensures max1 == max2 && at1 == at2
  {
    if max1 != 0.0 {
      assert max1 <= max2;
    }
    if max2 != 0.0 {
      assert max2 <= max1;
    }
  }

  /** Frames that rise from each event to the next rise between any two events. */
  lemma {:induction false} FramesRise(events: seq<Event>, i: nat, j: nat)
    requires forall k :: 0 <= k < |events| - 1 ==> events[k].frame < events[k + 1].frame
    requires i < j < |events|
    ensures events[i].frame < events[j].frame
    decreases j - i
  {
    if i + 1 < j {
      FramesRise(events, i + 1, j);
    }
  }

  /** A list with the same members as a non-empty list is not empty. */
  lemma SharedFirst(a: seq<Event>, b: seq<Event>)
    requires forall e :: e in a <==> e in b
    requires |a| > 0
    ensures |b| > 0
  {
    assert a[0] in b;
  }

  /** Two lists of events with rising frames and the same members are the same list. */
  lemma {:induction false} RisingListsEqual(a: seq<Event>, b: seq<Event>)
    requires forall k :: 0 <= k < |a| - 1 ==> a[k].frame < a[k + 1].frame
    requires forall k :: 0 <= k < |b| - 1 ==> b[k].frame < b[k + 1].frame
    requires forall e :: e in a <==> e in b
    ensures a == b
    decreases |a|
  {
    if |a| > 0 {
      SharedFirst(a, b);
    }
    if |b| > 0 {
      SharedFirst(b, a);
    }
    if |a| > 0 {
      assert a[0] in b;
      var j :| 0 <= j < |b| && b[j] == a[0];
      assert b[0] in a;
      var i :| 0 <= i < |a| && a[i] == b[0];
      if j > 0 {
        FramesRise(b, 0, j);
        if i > 0 {
          FramesRise(a, 0, i);
        }
      } else if i > 0 {
        FramesRise(a, 0, i);
      }
      assert a[0] == b[0];
      forall e ensures e in a[1..] <==> e in b[1..] {
        if e in a[1..] {
          var k :| 0 <= k < |a| - 1 && a[1..][k] == e;
          FramesRise(a, 0, k + 1);
          assert e in b && e != b[0];
        }
        if e in b[1..] {
          var k :| 0 <= k < |b| - 1 && b[1..][k] == e;
          FramesRise(b, 0, k + 1);
          assert e in a && e != a[0];
        }
      }
      RisingListsEqual(a[1..], b[1..]);
    }
  }

  /** The specification of the exceedance list leaves no choice either. */
  lemma ExceedancesUnique(d: Derivative, v: seq<real>, n: nat, limit: real, events1: seq<Event>, events2: seq<Event>)
    requires ExceedancesBefore(d, v, n, limit, events1) && ExceedancesBefore(d, v, n, limit, events2)
    ensures events1 == events2
  {
    RisingListsEqual(events1, events2);
  }

  /** Every exceedance lies at a scanned position. */
  lemma ExceedancesWithin(d: Derivative, v: seq<real>, n: nat, limit: real, events: seq<Event>)
    requires ExceedancesBefore(d, v, n, limit, events)
    ensures forall k :: 0 <= k < |events| ==> Order(d) <= events[k].frame < |v| && events[k].frame < n
    ensures |events| > 0 ==> Order(d) <= events[0].frame < |v|
  {
    forall k | 0 <= k < |events| ensures Order(d) <= events[k].frame < |v| && events[k].frame < n {
      assert events[k] in events;
    }
  }

  /** Acceleration needs three samples: with fewer, nothing exceeds its limit. */
  lemma AccelNeedsThreeSamples(v: seq<real>, n: nat, limit: real, events: seq<Event>)
    requires ExceedancesBefore(Accel, v, n, limit, events)
    requires |v| < 3
    ensures events == []
  {
    ExceedancesWithin(Accel, v, n, limit, events);
  }

  /** `calculateStats(framesMap, frames, column, limits)`: the speed pass, then the
      acceleration pass, over the samples of the listed frames. */
  method CalculateStats(series: FrameSeries, frames: seq<nat>, column: string, limits: map<string, Limit>)
    returns (stats: Stats)
    requires column in limits
    ensures FirstMaxBefore(Speed, Samples(series, frames), |frames|, stats.maxSpeed, stats.maxSpeedFrame)
    ensures FirstMaxBefore(Accel, Samples(series, frames), |frames|, stats.maxAccel, stats.maxAccelFrame)
    ensures ExceedancesBefore(Speed, Samples(series, frames), |frames|, limits[column].speed, stats.exceededSpeedFrames)
    ensures ExceedancesBefore(Accel, Samples(series, frames), |frames|, limits[column].accel, stats.exceededAccelFrames)
  {
    var values := Samples(series, frames);
    var limit := limits[column];
    var maxSpeed, maxSpeedFrame, exceededSpeedFrames := ScanDerivative(Speed, values, limit.speed);
    var maxAccel, maxAccelFrame, exceededAccelFrames := ScanDerivative(Accel, values, limit.accel);
    stats := Stats(maxSpeed, maxAccel, maxSpeedFrame, maxAccelFrame, exceededSpeedFrames, exceededAccelFrames);
  }

  /** JavaScript's `Math.trunc` on a real. */
  function Truncate(x: real): int {
    if x < 0.0 then -((-x).Floor) else x.Floor
  }

  /** JavaScript's `%` on numbers: the remainder takes the sign of the dividend. */
  function Remainder(x: real, y: real): (r: real)
    requires y != 0.0
    ensures y > 0.0 && x >= 0.0 ==> 0.0 <= r < y
    ensures y > 0.0 && x < 0.0 ==> -y < r <= 0.0
  {
    if y > 0.0 then RemainderRange(x, y); x - y * (Truncate(x / y) as real)
    else x - y * (Truncate(x / y) as real)
  }

  /** The truncated quotient is off from the exact one by less than one, towards zero. */
  lemma RemainderRange(x: real, y: real)
    requires y > 0.0
    ensures var r := x - y * (Truncate(x / y) as real);
      && (x >= 0.0 ==> 0.0 <= r < y)
      && (x < 0.0 ==> -y < r <= 0.0)
  {
    var z := x / y;
    var t := Truncate(z) as real;
    assert x == y * z;
    if x >= 0.0 {
      assert z >= 0.0 by { ScaleSign(y, z); }
      assert 0.0 <= z - t < 1.0;
      ScaledFraction(x, y, z, t);
    } else {
      assert z < 0.0 by { ScaleSign(y, z); }
      assert 0.0 <= t - z < 1.0;
      ScaledFraction(-x, y, -z, -t);
    }
  }

  /** A positive factor keeps the sign of the other. */
  lemma ScaleSign(y: real, z: real)
    requires y > 0.0
    ensures z >= 0.0 <==> y * z >= 0.0
  {
  }

  /** When `x = y * z` and `t` is below `z` by a fraction, `x - y * t` is below `y`. */
  lemma ScaledFraction(x: real, y: real, z: real, t: real)
    requires y > 0.0 && x == y * z && 0.0 <= z - t < 1.0
    ensures 0.0 <= x - y * t < y
  {
    var f := z - t;
    assert x - y * t == y * f;
    assert y * f < y by {
      assert y - y * f == y * (1.0 - f);
    }
  }

  /** `s` left-padded with zeros to two characters (`padStart(2, '0')`). */
  function PadTwo(s: string): (r: string)
    ensures |r| == if |s| < 2 then 2 else |s|
    ensures r[|r| - |s|..] == s
    ensures forall i :: 0 <= i < |r| - |s| ==> r[i] == '0'
  {
    if |s| == 0 then "00" else if |s| == 1 then ['0'] + s else s
  }

  lemma DivisionOfFrames(frame: nat)
    ensures frame / 3000 == (frame / 50) / 60
  {
    var a, b := frame / 50, frame % 50;
    var c, d := a / 60, a % 60;
    assert frame == 3000 * c + (50 * d + b);
    assert 0 <= 50 * d + b < 3000;
  }

  lemma FloorOfQuotient(n: nat, m: nat)
    requires m > 0
    ensures ((n as real) / (m as real)).Floor == n / m
  {
    var q, r := n / m, n % m;
    var x := (n as real) / (m as real);
    assert (n as real) == (q as real) * (m as real) + (r as real);
    assert 0.0 <= (r as real) / (m as real) < 1.0;
    assert x == (q as real) + (r as real) / (m as real);
    assert (q as real) <= x < (q as real) + 1.0;
  }

  /** The two fields of `frameToTimestamp`: the floor of the minutes and the floor of the
      seconds remainder, computed on reals as the source does, are whole-number divisions of
      the frame number. */
  lemma TimestampFields(frame: nat)
    ensures ((((frame as real) / (Fps as real)) / 60.0).Floor) == frame / 3000
    ensures Remainder((frame as real) / (Fps as real), 60.0).Floor == (frame / 50) % 60
  {
    var totalSeconds := (frame as real) / (Fps as real);
    var minutes := (totalSeconds / 60.0).Floor;
    assert totalSeconds / 60.0 == (frame as real) / 3000.0;
    FloorOfQuotient(frame, 3000);
    assert minutes == frame / 3000;
    DivisionOfFrames(frame);
    assert Truncate(totalSeconds / 60.0) == minutes;
    assert Remainder(totalSeconds, 60.0) == totalSeconds - 60.0 * (minutes as real);
    FloorOfQuotient(frame, 50);
    var a := frame / 50;
    assert totalSeconds - (a as real) == ((frame % 50) as real) / 50.0;
    assert 0.0 <= totalSeconds - (a as real) < 1.0;
    assert Remainder(totalSeconds, 60.0).Floor == a - 60 * minutes;
  }

  /** `frameToTimestamp(frameNumber)`: `minutes:seconds` of a frame at 50 frames per second;
      the minutes are the whole minutes elapsed, written without leading zeros, and the
      seconds, always two digits, the whole seconds within the current minute. */
  function FrameToTimestamp(frame: nat): (r: string)
    ensures |r| >= 4 && r[|r| - 3] == ':'
    ensures r[..|r| - 3] == DecimalString(frame / 3000)
    ensures AllDigits(r[..|r| - 3]) && DecimalValue(r[..|r| - 3]) == frame / 3000
    ensures |r| > 4 ==> r[0] != '0'
    ensures AllDigits(r[|r| - 2..]) && DecimalValue(r[|r| - 2..]) == (frame / 50) % 60
  {
    var totalSeconds := (frame as real) / (Fps as real);
    var minutes := (totalSeconds / 60.0).Floor;
    var seconds := Remainder(totalSeconds, 60.0).Floor;
    TimestampFields(frame);
    // the real-valued fields are whole-number divisions of the frame number
    assert minutes == frame / 3000 && seconds == (frame / 50) % 60;
    Clock(frame / 3000, (frame / 50) % 60)
  }

  /** The text `${minutes}:${seconds padded to two}`: the minutes field is their decimal
      rendering, and the seconds field is two digits denoting them. */
  function Clock(minutes: nat, seconds: nat): (r: string)
    requires seconds < 60
    ensures |r| >= 4 && r[|r| - 3] == ':'
    ensures r[..|r| - 3] == DecimalString(minutes)
    ensures |r| > 4 ==> r[0] != '0'
    ensures AllDigits(r[|r| - 2..]) && DecimalValue(r[|r| - 2..]) == seconds
  {
    PadTwoValue(DecimalString(seconds));
    FieldsAround(DecimalString(minutes), ':', PadTwo(DecimalString(seconds)));
    DecimalString(minutes) + ":" + PadTwo(DecimalString(seconds))
  }

  /** Padding a one- or two-digit field keeps it digits and keeps its value. */
  lemma PadTwoValue(field: string)
    requires 1 <= |field| <= 2 && AllDigits(field)
    ensures AllDigits(PadTwo(field)) && DecimalValue(PadTwo(field)) == DecimalValue(field)
  {
    if |field| == 1 {
      var padded := PadTwo(field);
      assert padded[..1] == "0" && padded[1..] == field;
    }
  }

  /** The two fields of `left + [sep] + right` are found again by position. */
  lemma FieldsAround(left: string, sep: char, right: string)
    requires |left| >= 1 && |right| == 2
    ensures var r := left + [sep] + right;
      |r| == |left| + 3 && r[|r| - 3] == sep && r[..|r| - 3] == left && r[0] == left[0] && r[|r| - 2..] == right
  {
    var r := left + [sep] + right;
    assert r[..|r| - 3] == left;
    assert r[|r| - 2..] == right;
  }
}
