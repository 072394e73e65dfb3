/** The metrics collector as it runs: a circular array updated in place and a table. */
module MetricsCollector {
  import opened MetricsRing
  import opened MetricsQuery

  /** Where the i-th newest sample lies. */
  function Slot(head: nat, i: nat): (k: nat)
    requires i < MAX_SAMPLES && head < MAX_SAMPLES
    ensures k < MAX_SAMPLES
  {
    (head - i + MAX_SAMPLES) % MAX_SAMPLES
  }

  /** A circular array read from its oldest sample to its newest. */
  function Unrolled(a: seq<Sample>, head: nat, count: nat): seq<Sample>
    requires |a| == MAX_SAMPLES && head < MAX_SAMPLES && count <= MAX_SAMPLES
  {
    seq(count, j requires 0 <= j < count => a[Slot(head, count - 1 - j)])
  }

  /** Writing over the slot after the newest drops the oldest sample of a full ring only. */
  lemma PushUnrolled(a: seq<Sample>, head: nat, count: nat, s: Sample)
    requires |a| == MAX_SAMPLES && head < MAX_SAMPLES && count <= MAX_SAMPLES
    ensures var next := (head + 1) % MAX_SAMPLES;
            Unrolled(a[next := s], next, if count < MAX_SAMPLES then count + 1 else count)
            == Push(Unrolled(a, head, count), s)
  {
    var next := (head + 1) % MAX_SAMPLES;
    var count' := if count < MAX_SAMPLES then count + 1 else count;
    var pushed, got := Push(Unrolled(a, head, count), s), Unrolled(a[next := s], next, count');
    forall j | 0 <= j < count'
      ensures got[j] == pushed[j]
    {
      if j < count' - 1 {
        SlotBehind(head, count' - 2 - j);
      } else {
        assert Slot(next, 0) == next;
      }
    }
  }

  /** Seen from the next slot, every sample lies one further back. */
  lemma SlotBehind(head: nat, i: nat)
    requires head < MAX_SAMPLES && i + 1 < MAX_SAMPLES
    ensures var next := (head + 1) % MAX_SAMPLES;
            Slot(next, i + 1) == Slot(head, i) != next && Slot(next, 0) == next
  {
  }

  class Collector {
    const ring: array<Sample>
    var head: nat
    var count: nat
    var table: seq<Sample>
    const retentionDays: nat
    ghost var history: seq<Sample> // the table at the start and every sample since
    ghost var cutoffs: set<int> // of the retention passes since the start

    /** The ring is a ring, and the table is in key order. */
    ghost predicate Valid()
      reads `head, `count, `table, ring
    {
      ring.Length == MAX_SAMPLES && head < MAX_SAMPLES && count <= MAX_SAMPLES && Increasing(table)
    }

    /** The samples in the ring, oldest first. */
    ghost function Contents(): (c: seq<Sample>)
      requires Valid()
      reads `head, `count, `table, ring
      ensures |c| == count
    {
      Unrolled(ring[..], head, count)
    }

    ghost function Abstract(): State
      requires Valid()
      reads this, ring
    {
      State(Contents(), table, history, cutoffs)
    }

    /** A start over a stored table: the ring from its newest rows, then a retention pass. */
    constructor (retentionDays: nat, table: seq<Sample>, now: int)
      requires Increasing(table)
      ensures Valid() && fresh(ring) && this.retentionDays == retentionDays
      ensures Abstract() == Step(Rebuilt(table), Retain(now - retentionDays * 86_400))
    {
      ring := new Sample[MAX_SAMPLES](_ => Sample(0, 0.0));
      head, count := 0, 0;
      this.table, this.retentionDays := table, retentionDays;
      history, cutoffs := table, {};
      new;
      PopulateRing();
      Cleanup(now);
    }

    /** Put one sample into the ring, over the oldest when it is full. */
    method PushSample(s: Sample)
      requires Valid()
      modifies `head, `count, ring
      ensures Valid()
      ensures Contents() == Push(old(Contents()), s)
    {
      PushUnrolled(ring[..], head, count, s);
      head := (head + 1) % MAX_SAMPLES;
      ring[head] := s;
      if count < MAX_SAMPLES { count := count + 1; }
    }

    /** SELECT ... ORDER BY time DESC LIMIT. */
    method SelectNewest(limit: nat) returns (rows: seq<Sample>)
      ensures rows == Reverse(Last(table, limit))
    {
      hide Reverse;
      rows := [];
      var n := |table|;
      var from := if n <= limit then 0 else n - limit;
      assert Last(table, limit) == table[from..n];
      ReverseEmpty(table[n..n]);
      for i := n downto from
        invariant rows == Reverse(table[i..n])
      {
        ReverseFrom(table, i, n);
        rows := rows + [table[i]];
      }
    }

    /** Load the newest rows and push them oldest first. */
    method PopulateRing()
      requires Valid()
      modifies `head, `count, ring
      ensures Valid()
      ensures Contents() == Last(old(Contents()) + Last(table, MAX_SAMPLES), MAX_SAMPLES)
    {
      var loaded := SelectNewest(MAX_SAMPLES);
      ghost var newest := Last(table, MAX_SAMPLES);
      ghost var before := Contents();
      ReverseIndex(newest);
      assert before + newest[..0] == before && Last(before, MAX_SAMPLES) == before;
      hide Reverse, Unrolled, Push, Last, Increasing;
      for i := |loaded| downto 0
        invariant Valid() && |loaded| == |newest|
        invariant Contents() == Last(before + newest[..|loaded| - i], MAX_SAMPLES)
      {
        ghost var done := newest[..|loaded| - i - 1];
        assert loaded[i] == newest[|loaded| - i - 1];
        PushSample(loaded[i]);
        PushAfter(before, done, loaded[i]);
        assert done + [loaded[i]] == newest[..|loaded| - i];
      }
      assert newest[..|loaded|] == newest;
    }

    /** One collection: into the ring, then into the table. */
    method CollectSample(s: Sample)
      requires Valid()
      modifies `head, `count, `table, `history, ring
      ensures Valid() && Abstract() == Step(old(Abstract()), Collect(s))
    {
      PushSample(s);
      InsertKeepsOrder(table, s);
      table := Insert(table, s);
      history := history + [s];
    }

    method Cleanup(now: int)
      requires Valid()
      modifies `table, `cutoffs
      ensures Valid() && Abstract() == Step(old(Abstract()), Retain(now - retentionDays * 86_400))
    {
      var cutoff := now - retentionDays * 24 * 60 * 60;
      CleanKeepsOrder(table, cutoff);
      table := Clean(table, cutoff);
      cutoffs := cutoffs + {cutoff};
    }

    /** The ring query. The position of each picked row is a floating-point product: any value
        within a thousandth of the exact one, and 0 at the start. */
    method QueryRing(now: int, after: int, maxPoints: int) returns (rows: seq<Sample>, ghost picks: seq<nat>)
      requires Valid()
      ensures var window := Scan(Contents(), now + after);
              if 0 < maxPoints < |window| then |rows| == maxPoints && rows[0] == window[0] else rows == window
      ensures var window := Scan(Contents(), now + after);
              0 < maxPoints < |window| ==>
                && |rows| == |picks| && picks[0] == 0
                && (forall i, j :: 0 <= i < j < |picks| ==> picks[i] < picks[j])
                && (forall i :: 0 <= i < |rows| ==> picks[i] < |window| && rows[i] == window[picks[i]])
                && Evenly(picks, |window|, maxPoints)
      ensures Inv(Abstract()) && Spaced(history, now) && -MAX_SAMPLES * INTERVAL <= after <= 0 ==>
                Scan(Contents(), now + after) + Missed(history, now + after) == Reverse(Clean(history, now + after))
    {
      RingShows(Abstract(), now, after);
      hide Inv, Spaced, Missed, Scan, Reverse, Clean, Increasing, Unrolled;
      rows := ScanRing(now + after);
      picks := [];
      if 0 < maxPoints < |rows| {
        rows, picks := Downsample(rows, maxPoints);
      }
    }

    /** From the newest sample back, up to the first one before the cutoff. */
    method ScanRing(cutoff: int) returns (rows: seq<Sample>)
      requires Valid()
      ensures rows == Scan(Contents(), cutoff)
      ensures |rows| <= MAX_SAMPLES
    {
      hide Increasing;
      ghost var c := Contents();
      rows := [];
      assert c[..count] == c && Scan(c[..0], cutoff) == [];
      hide Scan;
      for i := 0 to count
        invariant rows + Scan(c[..count - i], cutoff) == Scan(c, cutoff)
        invariant |rows| == i
      {
        var s := ring[Slot(head, i)];
        assert c[count - i - 1] == s;
        hide Unrolled;
        ScanGoesOn(c, count - i, cutoff, rows);
        if s.time < cutoff { break; }
        rows := rows + [s];
      }
    }

    /** The table query: bucket averages, newest bucket first, at most `maxPoints`. What the
        response leaves out of the window is old: unless samples lie ahead of the clock, it is
        within b + maxPoints - 1 seconds of the window's start. */
    method QueryTable(now: int, after: int, maxPoints: nat) returns (points: seq<Point>)
      requires Valid() && after < 0 < maxPoints && AfterEpoch(table)
      ensures Responds(points, table, now, after, maxPoints)
    {
      hide BucketSeconds, Increasing, Responds;
      CleanAfterEpoch(table, now + after);
      var window, b := Clean(table, now + after), BucketSeconds(-after, maxPoints);
      BucketsHaveRows(table, now + after, b, maxPoints);
      points := ScanRows(Limit(Group(window, b), maxPoints));
      AveragesRespond(points, table, now, after, maxPoints);
    }

    /** The rows of the grouped result, as they come. */
    static method ScanRows(buckets: seq<Bucket>) returns (points: seq<Point>)
      requires Filled(buckets)
      ensures Averages(points, buckets)
    {
      points := [];
      for i := 0 to |buckets|
        invariant |points| == i
        invariant forall k :: 0 <= k < i ==> points[k] == Point(buckets[k].start, Average(buckets[k]))
      {
        points := points + [Point(buckets[i].start, Average(buckets[i]))];
      }
    }

    /** The last half hour comes from the ring, anything longer from the table. */
    method Query(now: int, after: int, maxPoints: nat) returns (points: seq<Point>, ghost picks: seq<nat>)
      requires Valid() && maxPoints > 0 && AfterEpoch(table)
      ensures after < -1800 ==> Responds(points, table, now, after, maxPoints)
      ensures after >= -1800 ==>
                var window := Scan(Contents(), now + after);
                && |points| == |picks| == (if |window| <= maxPoints then |window| else maxPoints)
                && (forall i :: 0 <= i < |points| ==>
                      && picks[i] < |window|
                      && points[i].time == window[picks[i]].time && points[i].value == window[picks[i]].value)
                && (if |window| <= maxPoints then forall i :: 0 <= i < |picks| ==> picks[i] == i
                    else Evenly(picks, |window|, maxPoints))
    {
      if after >= -MAX_SAMPLES * INTERVAL {
        hide Scan, Evenly, Unrolled, Inv, Spaced;
        var rows;
        rows, picks := QueryRing(now, after, maxPoints);
        points := Points(rows);
        if |Scan(Contents(), now + after)| <= maxPoints { picks := seq(|rows|, i => i); }
      } else {
        points := QueryTable(now, after, maxPoints);
        picks := [];
      }
    }
  }

  function Points(rows: seq<Sample>): seq<Point> {
    seq(|rows|, i requires 0 <= i < |rows| => Point(rows[i].time, rows[i].value))
  }

  lemma RingShows(st: State, now: int, after: int)
    ensures Inv(st) && Spaced(st.history, now) && -MAX_SAMPLES * INTERVAL <= after <= 0 ==>
              Scan(st.ring, now + after) + Missed(st.history, now + after) == Reverse(Clean(st.history, now + after))
  {
    if Inv(st) && Spaced(st.history, now) && -MAX_SAMPLES * INTERVAL <= after <= 0 {
      RingWindowExactly(st.history, now, -after);
    }
  }

  /** A response to a table query answers it over the rows of the window, and shows every row
      that is not near the start of the window. */
  ghost predicate Responds(points: seq<Point>, table: seq<Sample>, now: int, after: int, maxPoints: nat)
    requires after < 0 < maxPoints && AfterEpoch(table)
  {
    CleanAfterEpoch(table, now + after);
    var window, b := Clean(table, now + after), BucketSeconds(-after, maxPoints);
    && Answers(points, window, b, maxPoints)
    && (NoneAhead(table, now) ==>
          forall r :: 0 <= r < |window| && !Shown(points, BucketStart(window[r].time, b)) ==>
            -after >= maxPoints && window[r].time < now + after + b + maxPoints - 1)
  }

  ghost predicate NoneAhead(table: seq<Sample>, now: int) {
    forall s :: s in table ==> s.time <= now
  }

  lemma AveragesRespond(points: seq<Point>, table: seq<Sample>, now: int, after: int, maxPoints: nat)
    requires after < 0 < maxPoints && AfterEpoch(table) && Increasing(table)
    requires AfterEpoch(Clean(table, now + after))
    requires Averages(points, Limit(Group(Clean(table, now + after), BucketSeconds(-after, maxPoints)), maxPoints))
    ensures Responds(points, table, now, after, maxPoints)
  {
    var window, b := Clean(table, now + after), BucketSeconds(-after, maxPoints);
    CleanKeepsOrder(table, now + after);
    assert Nondecreasing(window);
    hide Group, Clean, Increasing, BucketSeconds, BucketStart, Averages, Answers, Nondecreasing, AfterEpoch;
    AveragesAnswer(points, window, b, maxPoints);
    if NoneAhead(table, now) {
      AveragesShow(points, table, now, after, maxPoints);
    }
  }

  lemma AveragesShow(points: seq<Point>, table: seq<Sample>, now: int, after: int, maxPoints: nat)
    requires after < 0 < maxPoints && NoneAhead(table, now)
    requires AfterEpoch(Clean(table, now + after)) && Nondecreasing(Clean(table, now + after))
    requires Averages(points, Limit(Group(Clean(table, now + after), BucketSeconds(-after, maxPoints)), maxPoints))
    ensures var window, b := Clean(table, now + after), BucketSeconds(-after, maxPoints);
            forall r :: 0 <= r < |window| && !Shown(points, BucketStart(window[r].time, b)) ==>
              -after >= maxPoints && window[r].time < now + after + b + maxPoints - 1
  {
    var window, b := Clean(table, now + after), BucketSeconds(-after, maxPoints);
    CleanIsWindow(table, now + after);
    hide Group, Clean, BucketSeconds, BucketStart, Averages, Nondecreasing, Limit;
    forall r | 0 <= r < |window| && !Shown(points, BucketStart(window[r].time, b))
      ensures -after >= maxPoints && window[r].time < now + after + b + maxPoints - 1
    {
      UnshownIsOldest(points, window, now, -after, maxPoints, r);
    }
  }

  ghost predicate Filled(buckets: seq<Bucket>) {
    forall i :: 0 <= i < |buckets| ==> buckets[i].n > 0
  }

  lemma BucketsHaveRows(table: seq<Sample>, cutoff: int, b: nat, limit: nat)
    requires b > 0 && Increasing(table) && AfterEpoch(Clean(table, cutoff))
    ensures Filled(Limit(Group(Clean(table, cutoff), b), limit))
  {
    CleanKeepsOrder(table, cutoff);
    GroupOrdered(Clean(table, cutoff), b);
    hide Group, Clean;
  }

  lemma CleanIsWindow(rows: seq<Sample>, cutoff: int)
    ensures forall i :: 0 <= i < |Clean(rows, cutoff)| ==>
              Clean(rows, cutoff)[i] in rows && Clean(rows, cutoff)[i].time >= cutoff
  {
  }

  /** The product of an index and the step, as floating point may compute it. */
  method Position(i: nat, n: nat, p: nat) returns (pos: real)
    requires p > 0
    ensures Near(pos, i, n, p)
  {
    var step := n as real / p as real;
    pos := *;
    if !(-0.001 <= pos - i as real * step <= 0.001) || i == 0 { pos := i as real * step; }
  }

  /** Thin out the rows of a response to `p`, from the newest. */
  method Downsample(rows: seq<Sample>, p: nat) returns (sampled: seq<Sample>, ghost picks: seq<nat>)
    requires 0 < p < |rows| <= MAX_SAMPLES
    ensures |sampled| == |picks| == p && picks[0] == 0
    ensures forall i, j :: 0 <= i < j < p ==> picks[i] < picks[j]
    ensures forall i :: 0 <= i < p ==> picks[i] < |rows| && sampled[i] == rows[picks[i]]
    ensures Evenly(picks, |rows|, p)
  {
    sampled, picks := [], [];
    var n := |rows|;
    ghost var last := 0.0;
    for i := 0 to p
      invariant |sampled| == |picks| == i
      invariant i > 0 ==> picks[0] == 0 && Near(last, i - 1, n, p) && picks[i - 1] == last.Floor
      invariant forall j, k :: 0 <= j < k < i ==> picks[j] < picks[k]
      invariant forall j :: 0 <= j < i ==> picks[j] < n && sampled[j] == rows[picks[j]]
      invariant forall j :: 0 <= j < i ==> IsPick(picks[j], j, n, p)
    {
      var pos := Position(i, n, p);
      PicksAdvance(n, p, i, pos, pos);
      if i > 0 { PicksAdvance(n, p, i - 1, last, pos); }
      NearPicks(n, p, i, pos);
      hide Near, IsPick;
      sampled := sampled + [rows[pos.Floor]];
      picks, last := picks + [pos.Floor], pos;
    }
  }

  lemma ReverseEmpty<T>(s: seq<T>)
    requires s == []
    ensures Reverse(s) == []
  {
  }

  lemma ReverseFrom<T>(s: seq<T>, i: nat, n: nat)
    requires i < n <= |s|
    ensures Reverse(s[i..n]) == Reverse(s[i + 1..n]) + [s[i]]
  {
    ReverseConcat([s[i]], s[i + 1..n]);
    assert [s[i]] + s[i + 1..n] == s[i..n];
    assert [s[i]][..0] == [];
  }

  lemma ScanGoesOn(c: seq<Sample>, n: nat, cutoff: int, rows: seq<Sample>)
    requires 0 < n <= |c| && rows + Scan(c[..n], cutoff) == Scan(c, cutoff)
    ensures if c[n - 1].time < cutoff then rows == Scan(c, cutoff)
            else rows + [c[n - 1]] + Scan(c[..n - 1], cutoff) == Scan(c, cutoff)
  {
    var s, rest := c[n - 1], Scan(c[..n - 1], cutoff);
    assert c[..n][..n - 1] == c[..n - 1];
    assert Scan(c[..n], cutoff) == if s.time < cutoff then [] else [s] + rest;
    hide Scan;
    assert rows + ([s] + rest) == (rows + [s]) + rest;
  }

  lemma PushAfter(before: seq<Sample>, done: seq<Sample>, s: Sample)
    ensures Push(Last(before + done, MAX_SAMPLES), s) == Last(before + (done + [s]), MAX_SAMPLES)
  {
    LastOfLast(before + done, s, MAX_SAMPLES);
    assert before + done + [s] == before + (done + [s]);
  }

  lemma ReverseIndex<T>(s: seq<T>)
    ensures |Reverse(s)| == |s| && forall i :: 0 <= i < |s| ==> Reverse(s)[i] == s[|s| - 1 - i]
  {
  }

  lemma CleanAfterEpoch(rows: seq<Sample>, cutoff: int)
    requires AfterEpoch(rows)
    ensures AfterEpoch(Clean(rows, cutoff))
  {
  }
}
