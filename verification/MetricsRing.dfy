/** The metrics collector: a ring of the newest samples in front of a table keyed by second. */
module MetricsRing {
  import opened Collections

  const MAX_SAMPLES := 360
  const INTERVAL := 5 // seconds between samples

  /** A sample and its value on the charted column. */
  datatype Sample = Sample(time: int, value: real)

  // ---------- Sequences of samples, oldest first ----------

  function Last<T>(s: seq<T>, n: nat): seq<T> {
    if |s| <= n then s else s[|s| - n..]
  }

  function Reverse<T>(s: seq<T>): seq<T> {
    if s == [] then [] else [s[|s| - 1]] + Reverse(s[..|s| - 1])
  }

  lemma LastOfLast<T>(s: seq<T>, x: T, n: nat)
    requires n > 0
    ensures Last(Last(s, n) + [x], n) == Last(s + [x], n)
  {
  }

  lemma LastOfLonger<T>(s: seq<T>, m: nat, n: nat)
    ensures Last(Last(s, m), n) == Last(s, if m < n then m else n)
  {
  }

  lemma LastBeforeNewest<T>(s: seq<T>, x: T, n: nat)
    requires n > 0
    ensures var l := Last(s + [x], n); l != [] && l[|l| - 1] == x && l[..|l| - 1] == Last(s, n - 1)
  {
  }

  lemma LastAt<T>(s: seq<T>, n: nat, i: nat)
    requires i < |Last(s, n)|
    ensures |Last(s, n)| == (if |s| <= n then |s| else n)
    ensures Last(s, n)[i] == s[|s| - |Last(s, n)| + i]
  {
  }

  lemma LastLength<T>(s: seq<T>, n: nat)
    ensures |Last(s, n)| == if |s| <= n then |s| else n
  {
  }

  ghost predicate Increasing(s: seq<Sample>) {
    forall i, j :: 0 <= i < j < |s| ==> s[i].time < s[j].time
  }

  ghost predicate Nondecreasing(s: seq<Sample>) {
    forall i, j :: 0 <= i < j < |s| ==> s[i].time <= s[j].time
  }

  // ---------- The table: rows in primary-key order ----------

  /** INSERT OR REPLACE. */
  function Insert(rows: seq<Sample>, s: Sample): seq<Sample> {
    if rows == [] then [s]
    else
      var n := |rows| - 1;
      if rows[n].time < s.time then rows + [s]
      else if rows[n].time == s.time then rows[..n] + [s]
      else Insert(rows[..n], s) + [rows[n]]
  }

  /** DELETE WHERE time < cutoff. */
  function Clean(rows: seq<Sample>, cutoff: int): seq<Sample> {
    if rows == [] then []
    else
      var rest := Clean(rows[1..], cutoff);
      if rows[0].time < cutoff then rest else [rows[0]] + rest
  }

  function AsMap(rows: seq<Sample>): map<int, real> {
    if rows == [] then map[] else AsMap(rows[..|rows| - 1])[rows[|rows| - 1].time := rows[|rows| - 1].value]
  }

  lemma AsMapSnoc(rows: seq<Sample>, s: Sample)
    ensures AsMap(rows + [s]) == AsMap(rows)[s.time := s.value]
  {
    assert (rows + [s])[..|rows|] == rows;
  }

  lemma {:induction false} InsertKeepsOrder(rows: seq<Sample>, s: Sample)
    requires Increasing(rows)
    ensures Increasing(Insert(rows, s))
    decreases |rows|
  {
    if rows == [] {
    } else {
      var n := |rows| - 1;
      if s.time < rows[n].time {
        InsertKeepsOrder(rows[..n], s);
        InsertBelow(rows[..n], s, rows[n].time);
        hide Insert;
      }
    }
  }

  /** The table is a last-write-wins map from second to sample. */
  lemma {:induction false} InsertIsMapUpdate(rows: seq<Sample>, s: Sample)
    requires Increasing(rows)
    ensures AsMap(Insert(rows, s)) == AsMap(rows)[s.time := s.value]
    decreases |rows|
  {
    if rows == [] {
      AsMapSnoc([], s);
      assert [] + [s] == [s];
    } else {
      var front, last := rows[..|rows| - 1], rows[|rows| - 1];
      assert rows == front + [last] && Increasing(front);
      hide Increasing, AsMap;
      InsertBefore(front, last, s);
      if s.time < last.time { InsertIsMapUpdate(front, s); }
      hide Insert;
      AsMapSnoc(front, last);
      AsMapSnoc(rows, s);
      AsMapSnoc(front, s);
      AsMapSnoc(Insert(front, s), last);
      UpdatesCommute(AsMap(front), s, last);
    }
  }

  lemma InsertBefore(front: seq<Sample>, last: Sample, s: Sample)
    ensures Insert(front + [last], s)
            == if last.time < s.time then front + [last] + [s]
               else if last.time == s.time then front + [s]
               else Insert(front, s) + [last]
  {
    assert (front + [last])[..|front|] == front;
  }

  lemma UpdatesCommute(m: map<int, real>, a: Sample, b: Sample)
    ensures a.time == b.time ==> m[b.time := b.value][a.time := a.value] == m[a.time := a.value]
    ensures a.time != b.time ==>
              m[b.time := b.value][a.time := a.value] == m[a.time := a.value][b.time := b.value]
  {
  }

  lemma InsertBelow(rows: seq<Sample>, s: Sample, t: int)
    requires s.time < t && forall i :: 0 <= i < |rows| ==> rows[i].time < t
    ensures forall i :: 0 <= i < |Insert(rows, s)| ==> Insert(rows, s)[i].time < t
  {
  }

  lemma {:induction false} CleanSnoc(h: seq<Sample>, s: Sample, cutoff: int)
    ensures Clean(h + [s], cutoff) == if s.time < cutoff then Clean(h, cutoff) else Clean(h, cutoff) + [s]
    decreases |h|
  {
    if h == [] {
      assert h + [s] == [s] && [s][1..] == [];
    } else {
      var first, rest := h[0], h[1..];
      assert (h + [s])[1..] == rest + [s] && (h + [s])[0] == first;
      CleanSnoc(rest, s, cutoff);
      assert [first] + (Clean(rest, cutoff) + [s]) == [first] + Clean(rest, cutoff) + [s];
    }
  }

  /** DELETE as a restriction of the map. */
  function Since(m: map<int, real>, cutoff: int): map<int, real> {
    map t | t in m && t >= cutoff :: m[t]
  }

  lemma {:induction false} CleanIsRestriction(rows: seq<Sample>, cutoff: int)
    ensures AsMap(Clean(rows, cutoff)) == Since(AsMap(rows), cutoff)
    decreases |rows|
  {
    if rows == [] {
    } else {
      var front, last := rows[..|rows| - 1], rows[|rows| - 1];
      assert rows == front + [last];
      CleanIsRestriction(front, cutoff);
      CleanSnoc(front, last, cutoff);
      AsMapSnoc(front, last);
      AsMapSnoc(Clean(front, cutoff), last);
      hide AsMap, Clean;
    }
  }

  lemma CleanKeepsOrder(rows: seq<Sample>, cutoff: int)
    requires Increasing(rows)
    ensures Increasing(Clean(rows, cutoff))
  {
    CleanIsSuffix(rows, cutoff);
    hide Clean, Old;
  }

  lemma CleanRecent(rows: seq<Sample>, cutoff: int)
    requires forall i :: 0 <= i < |rows| ==> rows[i].time >= cutoff
    ensures Clean(rows, cutoff) == rows
  {
  }

  /** How many leading rows are before the cutoff. */
  function Old(rows: seq<Sample>, cutoff: int): (k: nat)
    ensures k <= |rows|
  {
    if rows == [] || rows[0].time >= cutoff then 0 else 1 + Old(rows[1..], cutoff)
  }

  lemma OldIsOld(rows: seq<Sample>, cutoff: int, i: nat)
    requires i < Old(rows, cutoff)
    ensures rows[i].time < cutoff
  {
    if i == 0 {
    } else {
      OldIsOld(rows[1..], cutoff, i - 1);
    }
  }

  /** Retention deletes a prefix of the rows. */
  lemma {:induction false} CleanIsSuffix(rows: seq<Sample>, cutoff: int)
    requires Increasing(rows)
    ensures Clean(rows, cutoff) == rows[Old(rows, cutoff)..]
    decreases |rows|
  {
    if rows == [] || rows[0].time >= cutoff {
      CleanRecent(rows, cutoff);
    } else {
      var rest := rows[1..];
      assert Increasing(rest);
      CleanIsSuffix(rest, cutoff);
      assert rest[Old(rest, cutoff)..] == rows[Old(rest, cutoff) + 1..];
    }
  }

  // ---------- The collector over runs ----------

  /** Contents of the ring oldest first, the table, and the samples and cutoffs since the ring
      was last built. */
  datatype State = State(ring: seq<Sample>, table: seq<Sample>, history: seq<Sample>, cutoffs: set<int>)

  /** A collected and stored sample, a retention pass, or a restart; a death after a sample went
      into the ring and before it was stored loses that sample. */
  datatype Event = Collect(s: Sample) | Retain(cutoff: int) | Restart(lost: Option<Sample>)

  function Push(ring: seq<Sample>, s: Sample): seq<Sample> {
    Last(ring + [s], MAX_SAMPLES)
  }

  /** A process that starts over a table. */
  function Rebuilt(table: seq<Sample>): State {
    State(Last(table, MAX_SAMPLES), table, table, {})
  }

  function Step(st: State, e: Event): State {
    match e
    case Collect(s) => State(Push(st.ring, s), Insert(st.table, s), st.history + [s], st.cutoffs)
    case Retain(cutoff) => st.(table := Clean(st.table, cutoff), cutoffs := st.cutoffs + {cutoff})
    case Restart(_) => Rebuilt(st.table)
  }

  /** What a step does to the table read as a map from second to value. */
  function StepStored(m: map<int, real>, e: Event): map<int, real> {
    match e
    case Collect(s) => m[s.time := s.value]
    case Retain(cutoff) => Since(m, cutoff)
    case Restart(_) => m
  }

  function StepAll(st: State, events: seq<Event>): State
    decreases |events|
  {
    if events == [] then st else StepAll(Step(st, events[0]), events[1..])
  }

  function StoredAll(m: map<int, real>, events: seq<Event>): map<int, real>
    decreases |events|
  {
    if events == [] then m else StoredAll(StepStored(m, events[0]), events[1..])
  }

  /** Whatever the sample times, over any steps the table's rows stay in key order and are the
      last-write-wins map of everything stored, restricted at each retention pass. */
  lemma {:induction false} TableIsMap(st: State, events: seq<Event>)
    requires Increasing(st.table)
    ensures var rows := StepAll(st, events).table;
            Increasing(rows) && AsMap(rows) == StoredAll(AsMap(st.table), events)
    decreases |events|
  {
    if events == [] {
    } else {
      match events[0] {
        case Collect(s) =>
          InsertKeepsOrder(st.table, s);
          InsertIsMapUpdate(st.table, s);
        case Retain(cutoff) =>
          CleanKeepsOrder(st.table, cutoff);
          CleanIsRestriction(st.table, cutoff);
        case Restart(_) =>
      }
      hide Increasing, AsMap, Insert, Clean;
      TableIsMap(Step(st, events[0]), events[1..]);
    }
  }

  /** Sample times strictly increase. */
  ghost predicate InOrder(st: State, e: Event) {
    e.Collect? ==> forall s :: s in st.history ==> s.time < e.s.time
  }

  ghost predicate IsRun(states: seq<State>, events: seq<Event>) {
    && |states| == |events| + 1
    && states[0] == State([], [], [], {})
    && forall i :: 0 <= i < |events| ==> InOrder(states[i], events[i]) && states[i + 1] == Step(states[i], events[i])
  }

  ghost predicate Cut(st: State, s: Sample) {
    exists c :: c in st.cutoffs && s.time < c
  }

  /** The ring is the newest part of the history, the table the part retention has left. */
  ghost predicate Inv(st: State) {
    && Increasing(st.history)
    && st.ring == Last(st.history, MAX_SAMPLES)
    && |st.table| <= |st.history| && st.table == Last(st.history, |st.table|)
    && forall i :: 0 <= i < |st.history| - |st.table| ==> Cut(st, st.history[i])
  }

  lemma InsertNewest(rows: seq<Sample>, s: Sample)
    requires rows == [] || rows[|rows| - 1].time < s.time
    ensures Insert(rows, s) == rows + [s]
  {
  }

  lemma CollectKeepsInv(st: State, s: Sample)
    requires Inv(st) && InOrder(st, Collect(s))
    ensures Inv(Step(st, Collect(s)))
  {
    var h, n := st.history, |st.history|;
    NewestIsNewer(st, s);
    InsertNewest(st.table, s);
    LastOfLast(h, s, MAX_SAMPLES);
    LastPlus(h, s, |st.table|);
    IncreasingSnoc(h, s);
    var st' := Step(st, Collect(s));
    hide Insert, Last, Increasing, InOrder;
    forall i | 0 <= i < n - |st.table|
      ensures Cut(st', st'.history[i])
    {
      assert Cut(st, h[i]);
    }
  }

  lemma NewestIsNewer(st: State, s: Sample)
    requires Inv(st) && InOrder(st, Collect(s))
    ensures st.table == [] || st.table[|st.table| - 1].time < s.time
  {
    if st.table != [] {
      LastAt(st.history, |st.table|, |st.table| - 1);
      assert st.history[|st.history| - 1] in st.history;
    }
  }

  lemma IncreasingSnoc(h: seq<Sample>, s: Sample)
    requires Increasing(h) && forall r :: r in h ==> r.time < s.time
    ensures Increasing(h + [s])
  {
    assert forall i :: 0 <= i < |h| ==> h[i] in h;
  }

  lemma LastPlus<T>(s: seq<T>, x: T, n: nat)
    requires n <= |s|
    ensures Last(s + [x], n + 1) == Last(s, n) + [x]
  {
  }

  lemma RetainKeepsInv(st: State, cutoff: int)
    requires Inv(st)
    ensures Inv(Step(st, Retain(cutoff)))
  {
    var h, gone := st.history, |st.history| - |st.table|;
    assert st.table == h[gone..];
    assert Increasing(st.table);
    CleanIsSuffix(st.table, cutoff);
    var k := Old(st.table, cutoff);
    var st' := Step(st, Retain(cutoff));
    assert st'.table == h[gone + k..];
    hide Clean, Increasing, Old;
    forall i | 0 <= i < gone + k
      ensures Cut(st', h[i])
    {
      if i < gone {
        var c :| c in st.cutoffs && h[i].time < c;
        assert c in st'.cutoffs;
      } else {
        OldIsOld(st.table, cutoff, i - gone);
        assert st.table[i - gone] == h[i] && cutoff in st'.cutoffs;
      }
    }
  }

  lemma RestartKeepsInv(st: State, lost: Option<Sample>)
    requires Inv(st)
    ensures Inv(Step(st, Restart(lost)))
  {
    var gone := |st.history| - |st.table|;
    assert forall i :: 0 <= i < |st.table| ==> st.table[i] == st.history[gone + i];
  }

  lemma StepKeepsInv(st: State, e: Event)
    requires Inv(st) && InOrder(st, e)
    ensures Inv(Step(st, e))
  {
    hide *;
    match e
    case Collect(s) => CollectKeepsInv(st, s);
    case Retain(cutoff) => RetainKeepsInv(st, cutoff);
    case Restart(lost) => RestartKeepsInv(st, lost);
  }

  lemma {:induction false} RunKeepsInv(states: seq<State>, events: seq<Event>, n: nat)
    requires IsRun(states, events) && n <= |events|
    ensures Inv(states[n])
  {
    if n == 0 {
    } else {
      RunKeepsInv(states, events, n - 1);
      StepKeepsInv(states[n - 1], events[n - 1]);
    }
  }

  /** The ring the process dies with: with a death between push and store, one more sample. */
  function DyingRing(st: State, lost: Option<Sample>): seq<Sample> {
    if lost.Some? then Push(st.ring, lost.value) else st.ring
  }

  /** How a rebuilt ring relates to the ring the process died with: it is the newest rows of the
      table; counted from the newest stored sample the two agree; what only the old ring has was
      cut by retention or, for its newest, not yet stored; and the new ring reaches at most one
      sample further back, when one was lost. */
  ghost predicate Rebuilds(before: State, lost: Option<Sample>, after: seq<Sample>) {
    var died := DyingRing(before, lost);
    var stored := if lost.Some? && died != [] then died[..|died| - 1] else died;
    var common := if |after| < |stored| then |after| else |stored|;
    && after == Last(before.table, MAX_SAMPLES)
    && Last(after, common) == Last(stored, common)
    && (forall i :: 0 <= i < |stored| - common ==> Cut(before, stored[i]))
    && |after| - common <= (if lost.Some? then 1 else 0)
    && (lost.Some? ==> died != [] && died[|died| - 1] == lost.value)
  }

  lemma RestartOf(st: State, lost: Option<Sample>)
    requires Inv(st)
    ensures Rebuilds(st, lost, Last(st.table, MAX_SAMPLES))
  {
    hide Last, Increasing;
    var h, rows := st.history, |st.table|;
    var after, died := Last(st.table, MAX_SAMPLES), DyingRing(st, lost);
    var held := if lost.Some? then MAX_SAMPLES - 1 else MAX_SAMPLES;
    if lost.Some? {
      LastOfLast(h, lost.value, MAX_SAMPLES);
      LastBeforeNewest(h, lost.value, MAX_SAMPLES);
    }
    var stored := if lost.Some? && died != [] then died[..|died| - 1] else died;
    assert stored == Last(h, held);
    LastOfLonger(h, rows, MAX_SAMPLES);
    var reach := if rows < MAX_SAMPLES then rows else MAX_SAMPLES;
    assert after == Last(h, reach);
    LastLength(h, held);
    LastLength(h, reach);
    var common := if |after| < |stored| then |after| else |stored|;
    LastOfLonger(h, reach, common);
    LastOfLonger(h, held, common);
    forall i | 0 <= i < |stored| - common
      ensures Cut(st, stored[i])
    {
      LastAt(h, held, i);
    }
  }

  /** Every restart of every run rebuilds the ring so. */
  lemma RestartRebuildsRing(states: seq<State>, events: seq<Event>, n: nat)
    requires IsRun(states, events) && n < |events| && events[n].Restart?
    ensures Rebuilds(states[n], events[n].lost, states[n + 1].ring)
  {
    RunKeepsInv(states, events, n);
    RestartOf(states[n], events[n].lost);
  }
}
