/** The schedules table, the scheduler's tick and the manual steps, as a state machine over a
    clock that never goes back. Steps are serialised and table updates succeed. */
module Schedules {
  import opened Collections
  import opened Calendar
  import opened GoStrings

  datatype Kind = Snapshot | Scrub | SmartTest | UnknownKind(name: string)

  /** A row; the run times are whole Unix seconds. */
  datatype Schedule = Schedule(kind: Kind, target: string, frequency: Frequency, retention: int,
                               prefix: string, enabled: bool,
                               lastRun: Option<int>, nextRun: Option<int>)

  type Table = map<int, Schedule>

  /** The WHERE clause of the due query. */
  predicate IsDue(s: Schedule, nowSec: int) {
    s.enabled && (s.nextRun.None? || s.nextRun.value <= nowSec)
  }

  function Due(table: Table, nowSec: int): set<int> {
    set id | id in table && IsDue(table[id], nowSec)
  }

  /** A row after a run that began at `now`, whatever came of the run. */
  function Ran(s: Schedule, now: int): Schedule {
    s.(lastRun := Some(Sec(now)), nextRun := Some(Sec(NextRun(s.frequency, now))))
  }

  function UpdateRun(table: Table, id: int, now: int): Table {
    if id in table then table[id := Ran(table[id], now)] else table
  }

  // ---------- The state machine ----------

  /** One automatic run: which row, when it began, the row's frequency then. */
  datatype AutoRun = AutoRun(id: int, at: int, frequency: Frequency)

  datatype State = State(clock: int, table: Table, auto: seq<AutoRun>)

  datatype Start = Start(id: int, at: int)

  datatype Event =
    | Create(id: int, row: Schedule, now: int)
    | Toggle(id: int, now: int)
    | Delete(id: int, now: int)
    | RunNow(id: int, now: int)
    | Tick(now: int, starts: seq<Start>)

  /** A row the create handler inserts at `now`. */
  predicate NewRow(row: Schedule, now: int) {
    row.enabled && row.lastRun == None && row.nextRun == Some(Sec(NextRun(row.frequency, now)))
  }

  /** The due rows of a tick, once each in any order, begin at times that do not go back. */
  ghost predicate Serves(starts: seq<Start>, due: set<int>, now: int) {
    && InOrder(starts, now)
    && (forall i :: 0 <= i < |starts| ==> starts[i].id in due)
    && (forall id :: id in due ==> exists i :: 0 <= i < |starts| && starts[i].id == id)
  }

  ghost predicate InOrder(starts: seq<Start>, now: int) {
    && (forall i :: 0 <= i < |starts| ==> now <= starts[i].at)
    && (forall i, j :: 0 <= i < j < |starts| ==> starts[i].id != starts[j].id && starts[i].at <= starts[j].at)
  }

  ghost predicate Possible(s: State, e: Event) {
    && s.clock <= e.now
    && (e.Create? ==> e.id !in s.table && NewRow(e.row, e.now))
    && (e.Tick? ==> Serves(e.starts, Due(s.table, Sec(e.now)), e.now))
  }

  function RunAuto(s: State, start: Start): State {
    if start.id in s.table then
      State(start.at, UpdateRun(s.table, start.id, start.at),
            s.auto + [AutoRun(start.id, start.at, s.table[start.id].frequency)])
    else s.(clock := start.at)
  }

  function RunAll(s: State, starts: seq<Start>): State
    decreases |starts|
  {
    if starts == [] then s else RunAll(RunAuto(s, starts[0]), starts[1..])
  }

  function Apply(s: State, e: Event): State {
    var s := s.(clock := e.now);
    match e
    case Create(id, row, _) => s.(table := s.table[id := row])
    case Toggle(id, _) =>
      if id in s.table then s.(table := s.table[id := s.table[id].(enabled := !s.table[id].enabled)]) else s
    case Delete(id, _) => s.(table := s.table - {id})
    case RunNow(id, now) => s.(table := UpdateRun(s.table, id, now))
    case Tick(_, starts) => RunAll(s, starts)
  }

  ghost predicate IsRun(states: seq<State>, events: seq<Event>) {
    && |states| == |events| + 1
    && states[0].table == map[] && states[0].auto == []
    && forall i :: 0 <= i < |events| ==> Possible(states[i], events[i]) && states[i + 1] == Apply(states[i], events[i])
  }

  ghost predicate Reachable(s: State) {
    exists states, events :: IsRun(states, events) && s == states[|events|]
  }

  // ---------- The invariant ----------

  /** A stored next run is never earlier than the boundary after any automatic run of the row. */
  ghost predicate Guarded(table: Table, auto: seq<AutoRun>) {
    forall id, i :: id in table && 0 <= i < |auto| && auto[i].id == id ==>
      table[id].nextRun.Some? && Sec(NextRun(table[id].frequency, auto[i].at)) <= table[id].nextRun.value
  }

  ghost predicate Separated(auto: seq<AutoRun>) {
    forall i, j :: 0 <= i < j < |auto| && auto[i].id == auto[j].id ==>
      Sec(NextRun(auto[j].frequency, auto[i].at)) <= Sec(auto[j].at)
  }

  /** Every row has a next run, and one that has run has the next run of its last run. */
  ghost predicate Cached(table: Table) {
    forall id :: id in table ==>
      && table[id].nextRun.Some?
      && (table[id].lastRun.Some? ==>
            table[id].nextRun.value == Sec(NextRun(table[id].frequency, table[id].lastRun.value * SECOND)))
  }

  ghost predicate Inv(s: State) {
    && Cached(s.table) && Guarded(s.table, s.auto) && Separated(s.auto)
    && forall i :: 0 <= i < |s.auto| ==> s.auto[i].at <= s.clock
  }

  lemma SecMonotone(t1: int, t2: int)
    requires t1 <= t2
    ensures Sec(t1) <= Sec(t2)
  {
  }

  /** A next run computed now is past the boundary after anything that began before. */
  lemma NextRunGuards(f: Frequency, auto: seq<AutoRun>, now: int)
    requires forall i :: 0 <= i < |auto| ==> auto[i].at <= now
    ensures forall i :: 0 <= i < |auto| ==> Sec(NextRun(f, auto[i].at)) <= Sec(NextRun(f, now))
  {
    hide NextRun, Sec;
    forall i | 0 <= i < |auto|
      ensures Sec(NextRun(f, auto[i].at)) <= Sec(NextRun(f, now))
    {
      NextRunMonotone(f, auto[i].at, now);
      SecMonotone(NextRun(f, auto[i].at), NextRun(f, now));
    }
  }

  lemma UpdateRunKeepsInv(s: State, id: int, now: int)
    requires Inv(s) && s.clock <= now
    ensures Inv(s.(clock := now, table := UpdateRun(s.table, id, now)))
  {
    hide NextRun, Sec;
    if id in s.table {
      NextRunGuards(s.table[id].frequency, s.auto, now);
      NextRunOfSecond(s.table[id].frequency, now);
    }
  }

  lemma RunAutoKeepsInv(s: State, start: Start)
    requires Inv(s) && s.clock <= start.at
    requires start.id in s.table && IsDue(s.table[start.id], Sec(start.at))
    ensures Inv(RunAuto(s, start))
  {
    hide NextRun, Sec;
    UpdateRunKeepsInv(s, start.id, start.at);
    var s' := RunAuto(s, start);
    assert forall i :: 0 <= i < |s.auto| ==> s'.auto[i] == s.auto[i];
  }

  /** The runs of a tick keep the invariant; rows still to run stay due. */
  lemma {:induction false} RunAllKeepsInv(s: State, starts: seq<Start>, since: int)
    requires Inv(s) && since <= s.clock && InOrder(starts, s.clock)
    requires forall i :: 0 <= i < |starts| ==>
               starts[i].id in s.table && IsDue(s.table[starts[i].id], Sec(since))
    ensures Inv(RunAll(s, starts))
    decreases |starts|
  {
    hide NextRun, Sec;
    if starts == [] {
    } else {
      SecMonotone(since, starts[0].at);
      RunAutoKeepsInv(s, starts[0]);
      var rest := starts[1..];
      assert forall i :: 0 <= i < |rest| ==> rest[i] == starts[i + 1];
      RunAllKeepsInv(RunAuto(s, starts[0]), rest, since);
    }
  }

  lemma ApplyKeepsInv(s: State, e: Event)
    requires Inv(s) && Possible(s, e)
    ensures Inv(Apply(s, e))
  {
    hide NextRun, Sec;
    match e
    case Create(id, row, now) => NextRunGuards(row.frequency, s.auto, now);
    case Toggle(_, _) =>
    case Delete(_, _) =>
    case RunNow(id, now) => UpdateRunKeepsInv(s, id, now);
    case Tick(now, starts) =>
      RunAllKeepsInv(s.(clock := now), starts, now);
  }

  lemma {:induction false} RunKeepsInv(states: seq<State>, events: seq<Event>, n: nat)
    requires IsRun(states, events) && n <= |events|
    ensures Inv(states[n])
  {
    if n == 0 {
    } else {
      RunKeepsInv(states, events, n - 1);
      ApplyKeepsInv(states[n - 1], events[n - 1]);
    }
  }

  /** In every reachable state, a boundary of the schedule's period lies between any two of its
      automatic runs: after the earlier, no later than the later. */
  lemma AutoRunsAreSeparated(s: State, i: nat, j: nat)
    requires Reachable(s) && i < j < |s.auto| && s.auto[i].id == s.auto[j].id
    requires !s.auto[j].frequency.Unknown?
    ensures exists b :: s.auto[i].at < b <= s.auto[j].at && Boundary(s.auto[j].frequency, b)
  {
    var states, events :| IsRun(states, events) && s == states[|events|];
    RunKeepsInv(states, events, |events|);
    var f := s.auto[j].frequency;
    var b := NextRun(f, s.auto[i].at);
    NextRunIsLeastBoundary(f, s.auto[i].at, b);
    BoundaryIsWholeSecond(f, b);
    assert Separated(s.auto);
    assert b <= s.auto[j].at;
  }

  /** Nothing the tick ran is due again at the tick's own instant, or before the next boundary. */
  lemma RanIsNotDue(row: Schedule, now: int, at: int)
    requires now <= at
    ensures !IsDue(Ran(row, at), Sec(now))
    ensures !row.frequency.Unknown? ==>
              forall t :: at <= t < NextRun(row.frequency, at) ==> !IsDue(Ran(row, at), Sec(t))
  {
    if row.frequency.Unknown? {
    } else {
      NextRunIsLeastBoundary(row.frequency, at, 0);
      BoundaryIsWholeSecond(row.frequency, NextRun(row.frequency, at));
      hide NextRun;
      assert Sec(now) <= Sec(at);
    }
  }

  /** The automatic runs that begin when the given rows are run. */
  function Begun(table: Table, starts: seq<Start>): seq<AutoRun>
    requires forall i :: 0 <= i < |starts| ==> starts[i].id in table
  {
    seq(|starts|, i requires 0 <= i < |starts| => AutoRun(starts[i].id, starts[i].at, table[starts[i].id].frequency))
  }

  lemma {:induction false} RunAllRunsEach(s: State, starts: seq<Start>)
    requires forall i :: 0 <= i < |starts| ==> starts[i].id in s.table
    requires forall i, j :: 0 <= i < j < |starts| ==> starts[i].id != starts[j].id
    ensures var s' := RunAll(s, starts);
            && s'.auto == s.auto + Begun(s.table, starts)
            && s'.table.Keys == s.table.Keys
            && (forall i :: 0 <= i < |starts| ==> s'.table[starts[i].id] == Ran(s.table[starts[i].id], starts[i].at))
            && (forall id :: id in s.table && (forall i :: 0 <= i < |starts| ==> starts[i].id != id) ==>
                  s'.table[id] == s.table[id])
    decreases |starts|
  {
    hide NextRun, Sec;
    if starts == [] {
    } else {
      var rest := starts[1..];
      assert forall i :: 0 <= i < |rest| ==> rest[i] == starts[i + 1];
      var s1 := RunAuto(s, starts[0]);
      assert RunAll(s, starts) == RunAll(s1, rest);
      assert s1.table == s.table[starts[0].id := Ran(s.table[starts[0].id], starts[0].at)];
      assert s1.auto == s.auto + [AutoRun(starts[0].id, starts[0].at, s.table[starts[0].id].frequency)];
      hide Ran, RunAll, RunAuto;
      RunAllRunsEach(s1, rest);
      assert s.auto + Begun(s.table, starts) == s1.auto + Begun(s1.table, rest);
    }
  }

  /** A tick at any time, however late, runs each enabled row that is due exactly once and
      moves it past the tick, touches no other row, and leaves nothing due at its own instant. */
  lemma TickServesAllDueOnce(s: State, now: int, starts: seq<Start>)
    requires Possible(s, Tick(now, starts))
    ensures var s', due := Apply(s, Tick(now, starts)), Due(s.table, Sec(now));
            && s'.auto == s.auto + Begun(s.table, starts)
            && |starts| == |due|
            && s'.table.Keys == s.table.Keys
            && (forall id :: id in due ==>
                  exists i :: 0 <= i < |starts| && starts[i].id == id && s'.table[id] == Ran(s.table[id], starts[i].at))
            && (forall id :: id in s.table && id !in due ==> s'.table[id] == s.table[id])
            && Due(s'.table, Sec(now)) == {}
  {
    hide NextRun, Sec;
    var due := Due(s.table, Sec(now));
    RunAllRunsEach(s.(clock := now), starts);
    hide RunAll, Ran, Begun;
    var s' := Apply(s, Tick(now, starts));
    DistinctCover(starts, due);
    forall id | id in s.table
      ensures !IsDue(s'.table[id], Sec(now))
    {
      if id in due {
        var i :| 0 <= i < |starts| && starts[i].id == id;
        RanIsNotDue(s.table[id], now, starts[i].at);
      }
    }
  }

  lemma DueExactly(table: Table, now: int, id: int)
    requires id in table
    ensures id in Due(table, Sec(now)) <==>
            table[id].enabled && (table[id].nextRun == None || table[id].nextRun.value <= now / 1_000_000_000)
  {
  }

  /** Which rows a tick runs, from the stored columns: the enabled ones that have no next run or
      whose next run has come. */
  lemma TickRunsExactly(s: State, now: int, starts: seq<Start>, id: int)
    requires Possible(s, Tick(now, starts)) && id in s.table
    ensures (exists i :: 0 <= i < |starts| && starts[i].id == id) <==>
            var row := s.table[id];
            row.enabled && (row.nextRun == None || row.nextRun.value <= now / 1_000_000_000)
  {
    DueExactly(s.table, now, id);
    hide InOrder, Due, Sec;
  }

  lemma {:induction false} DistinctCover(starts: seq<Start>, ids: set<int>)
    requires forall i :: 0 <= i < |starts| ==> starts[i].id in ids
    requires forall id :: id in ids ==> exists i :: 0 <= i < |starts| && starts[i].id == id
    requires forall i, j :: 0 <= i < j < |starts| ==> starts[i].id != starts[j].id
    ensures |starts| == |ids|
    decreases |starts|
  {
    if starts == [] {
      if ids != {} {
        var id := AnElement(ids);
        assert false;
      }
    } else {
      var last := |starts| - 1;
      DistinctCover(starts[..last], ids - {starts[last].id});
    }
  }

  // ---------- Stored and recomputed due tests ----------

  /** The due test the replication tasks use, which recomputes the next run from the last. */
  predicate RecomputedDue(f: Frequency, lastRunSec: int, now: int) {
    now > NextRun(f, lastRunSec * SECOND)
  }

  /** In every reachable state, for an enabled row that has run, the stored test and the
      recomputing test give the same answer at every instant but the boundary itself. */
  lemma DueTestsDifferOnlyAtBoundary(s: State, id: int, now: int)
    requires Reachable(s) && id in s.table && s.table[id].enabled && s.table[id].lastRun.Some?
    ensures var row := s.table[id];
            var next := NextRun(row.frequency, row.lastRun.value * SECOND);
            && row.nextRun == Some(Sec(next))
            && (RecomputedDue(row.frequency, row.lastRun.value, now) <==> now > next)
            && (IsDue(row, Sec(now)) <==> RecomputedDue(row.frequency, row.lastRun.value, now) || now == next)
  {
    var states, events :| IsRun(states, events) && s == states[|events|];
    RunKeepsInv(states, events, |events|);
    var row := s.table[id];
    assert Sec(row.lastRun.value * SECOND) == row.lastRun.value;
    NextRunOfSecond(row.frequency, row.lastRun.value * SECOND);
    hide NextRun;
    assert Cached(s.table);
  }

  // ---------- The scheduler and its table ----------

  class Scheduler {
    var clock: int
    var table: Table
    ghost var auto: seq<AutoRun>

    ghost function Abstract(): State
      reads this
    {
      State(clock, table, auto)
    }

    constructor (now: int)
      ensures Abstract() == State(now, map[], [])
    {
      clock, table, auto := now, map[], [];
    }

    /** `time.Now`: any instant not before the last reading. */
    method Now() returns (now: int)
      modifies `clock
      ensures old(clock) <= now == clock
    {
      now := *;
      if now < clock { now := clock; }
      clock := now;
    }

    /** The create form: the prefix is trimmed and defaults to "auto", and a form without a kind,
        target or frequency is refused; the row id is one not in use. */
    method Create(kind: Kind, target: string, frequency: Frequency, retention: int, prefix: string)
      returns (id: int, ok: bool)
      modifies this
      ensures ok <==> kind != UnknownKind("") && target != "" && frequency != Unknown("")
      ensures !ok ==> Abstract() == old(Abstract())
      ensures ok ==> id in table && id !in old(table)
      ensures ok ==> table[id].enabled && table[id].lastRun == None
                     && table[id].nextRun == Some(NextRun(frequency, clock) / 1_000_000_000)
      ensures ok ==> table[id].kind == kind && table[id].target == target && table[id].frequency == frequency
                     && table[id].retention == retention
                     && table[id].prefix == (if TrimSpace(prefix) == "" then "auto" else TrimSpace(prefix))
      ensures ok ==> Possible(old(Abstract()), Event.Create(id, table[id], clock))
                     && Abstract() == Apply(old(Abstract()), Event.Create(id, table[id], clock))
      ensures auto == old(auto)
    {
      hide TrimSpace, NextRun, Sec;
      id, ok := 0, false;
      var prefix := TrimSpace(prefix);
      if prefix == "" { prefix := "auto"; }
      if kind == UnknownKind("") || target == "" || frequency == Unknown("") { return; }
      var now := Now();
      var next, _ := NextRunTime(frequency, now, 0);
      SecIs(next);
      id := FreshId(table.Keys);
      table := table[id := Schedule(kind, target, frequency, retention, prefix, true, None, Some(Sec(next)))];
      ok := true;
    }

    method Toggle(id: int)
      modifies this
      ensures Abstract() == Apply(old(Abstract()), Event.Toggle(id, clock)) && old(clock) <= clock
    {
      var now := Now();
      if id in table {
        table := table[id := table[id].(enabled := !table[id].enabled)];
      }
    }

    method Delete(id: int)
      modifies this
      ensures Abstract() == Apply(old(Abstract()), Event.Delete(id, clock)) && old(clock) <= clock
    {
      var now := Now();
      table := table - {id};
    }

    /** One run: the next run is computed from the clock before the work starts, and the row is
        updated whether or not the snapshot, scrub or self-test works. */
    method Run(id: int, sched: Schedule, works: bool) returns (at: int, ok: bool)
      modifies this
      ensures ok <==> works && (sched.kind == Snapshot || sched.kind == Scrub || sched.kind == SmartTest)
      ensures old(clock) <= at <= clock
      ensures table == if id in old(table)
                       then old(table)[id := old(table)[id].(lastRun := Some(Sec(at)),
                                                            nextRun := Some(Sec(NextRun(sched.frequency, at))))]
                       else old(table)
      ensures auto == old(auto)
    {
      at := Now();
      var next, _ := NextRunTime(sched.frequency, at, 0);
      ok := works;
      if sched.kind.UnknownKind? { ok := false; }
      if id in table {
        table := table[id := table[id].(lastRun := Some(Sec(at)), nextRun := Some(Sec(next)))];
      }
    }

    method RunNow(id: int, works: bool) returns (found: bool, at: int)
      modifies this
      ensures found <==> id in old(table)
      ensures old(clock) <= at <= clock
      ensures Abstract() == Apply(old(Abstract()), Event.RunNow(id, at)).(clock := clock)
    {
      found, at := id in table, clock;
      if found {
        var ok;
        at, ok := Run(id, table[id], works);
      }
    }

    /** The due query, then each row by its id. */
    method DueSchedules() returns (now: int, due: seq<(int, Schedule)>)
      modifies `clock
      ensures old(clock) <= now == clock
      ensures forall i :: 0 <= i < |due| ==> due[i].0 in Due(table, Sec(now)) && due[i].1 == table[due[i].0]
      ensures forall id :: id in Due(table, Sec(now)) ==> exists i :: 0 <= i < |due| && due[i].0 == id
      ensures forall id :: id in table ==>
                ((exists i :: 0 <= i < |due| && due[i].0 == id) <==>
                 table[id].enabled && (table[id].nextRun == None || table[id].nextRun.value <= now / 1_000_000_000))
      ensures forall i, j :: 0 <= i < j < |due| ==> due[i].0 != due[j].0
    {
      now := Now();
      due := [];
      var ids := Due(table, Sec(now));
      while ids != {}
        invariant old(clock) <= now == clock
        invariant ids <= Due(table, Sec(now))
        invariant forall i :: 0 <= i < |due| ==>
                    due[i].0 in Due(table, Sec(now)) && due[i].0 !in ids && due[i].1 == table[due[i].0]
        invariant forall id :: id in Due(table, Sec(now)) && id !in ids ==> exists i :: 0 <= i < |due| && due[i].0 == id
        invariant forall i, j :: 0 <= i < j < |due| ==> due[i].0 != due[j].0
        decreases ids
      {
        var id := Pick(ids);
        ids := ids - {id};
        ghost var before := due;
        due := due + [(id, table[id])];
        assert due[|before|].0 == id;
        assert forall i :: 0 <= i < |before| ==> due[i] == before[i];
      }
      hide IsDue, Sec;
      forall id | id in table
        ensures (exists i :: 0 <= i < |due| && due[i].0 == id) <==>
                table[id].enabled && (table[id].nextRun == None || table[id].nextRun.value <= now / 1_000_000_000)
      {
        DueExactly(table, now, id);
      }
    }

    /** One tick: a step of the machine whose automatic runs are the due rows, each once. */
    method Tick() returns (ghost now: int, ghost starts: seq<Start>)
      modifies this
      ensures Possible(old(Abstract()), Event.Tick(now, starts))
      ensures Abstract() == Apply(old(Abstract()), Event.Tick(now, starts)).(clock := clock)
    {
      ghost var before := Abstract();
      var at0, due := DueSchedules();
      now, starts := at0, [];
      for k := 0 to |due|
        invariant now <= clock && Ticking(before, now, due, k, starts, Abstract())
      {
        ghost var s := Abstract();
        hide *;
        var works: bool := *;
        var at, ok := Run(due[k].0, due[k].1, works);
        auto := auto + [AutoRun(due[k].0, at, due[k].1.frequency)];
        TickGoesOn(before, now, due, k, starts, s, at, Abstract());
        starts := starts + [Start(due[k].0, at)];
      }
      TickEnds(before, now, due, starts, Abstract());
    }
  }

  /** A tick under way: the first `k` due rows have run, the others are as the query saw them. */
  ghost predicate Ticking(before: State, now: int, due: seq<(int, Schedule)>, k: nat, starts: seq<Start>, s: State) {
    && |starts| == k <= |due| && InOrder(starts, now)
    && (forall i :: 0 <= i < k ==> starts[i].id == due[i].0 && starts[i].at <= s.clock)
    && (forall i, j :: 0 <= i < j < |due| ==> due[i].0 != due[j].0)
    && s == RunAll(before.(clock := now), starts).(clock := s.clock)
    && (forall i :: k <= i < |due| ==> due[i].0 in s.table && s.table[due[i].0] == due[i].1)
  }

  lemma TickGoesOn(before: State, now: int, due: seq<(int, Schedule)>, k: nat, starts: seq<Start>,
                   s: State, at: int, s': State)
    requires Ticking(before, now, due, k, starts, s) && k < |due| && now <= s.clock <= at <= s'.clock
    requires s'.table == s.table[due[k].0 := Ran(s.table[due[k].0], at)]
    requires s'.auto == s.auto + [AutoRun(due[k].0, at, due[k].1.frequency)]
    ensures Ticking(before, now, due, k + 1, starts + [Start(due[k].0, at)], s')
  {
    hide Ran;
    RunAllSnoc(before.(clock := now), starts, Start(due[k].0, at));
    hide RunAll;
  }

  lemma TickEnds(before: State, now: int, due: seq<(int, Schedule)>, starts: seq<Start>, s: State)
    requires Ticking(before, now, due, |due|, starts, s) && before.clock <= now
    requires forall i :: 0 <= i < |due| ==> due[i].0 in Due(before.table, Sec(now))
    requires forall id :: id in Due(before.table, Sec(now)) ==> exists i :: 0 <= i < |due| && due[i].0 == id
    ensures Possible(before, Event.Tick(now, starts))
    ensures s == Apply(before, Event.Tick(now, starts)).(clock := s.clock)
  {
    hide RunAll, Due, Sec;
    forall id | id in Due(before.table, Sec(now))
      ensures exists i :: 0 <= i < |starts| && starts[i].id == id
    {
      var i :| 0 <= i < |due| && due[i].0 == id;
      assert starts[i].id == id;
    }
  }

  method FreshId(ids: set<int>) returns (id: int)
    ensures id !in ids
  {
    id := 1;
    var above := ids;
    while id in above
      invariant above <= ids
      invariant forall k :: k in ids && k !in above ==> k < id
      decreases above
    {
      above := above - {id};
      id := id + 1;
    }
  }

  lemma {:induction false} RunAllSnoc(s: State, starts: seq<Start>, start: Start)
    ensures RunAll(s, starts + [start]) == RunAuto(RunAll(s, starts), start)
    decreases |starts|
  {
    hide RunAuto;
    if starts == [] {
      assert RunAll(RunAuto(s, start), []) == RunAuto(s, start);
    } else {
      assert (starts + [start])[1..] == starts[1..] + [start];
      RunAllSnoc(RunAuto(s, starts[0]), starts[1..], start);
    }
  }
}
