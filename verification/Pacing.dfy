/** A snapshot schedule beside a replication task of the same dataset: how often a replication must
    be recorded so that the schedule's retention never costs the task its base. */
module Pacing {
  import opened Calendar
  import opened Replication
  import Schedules

  /** The instant of the n-th boundary after another one. */
  function After(f: Frequency, t: int, n: nat): int {
    if n == 0 then t else NextRun(f, After(f, t, n - 1))
  }

  /** What happens to the source and the task: an automatic run of the schedule that took a
      snapshot, given by its number among all automatic runs, or anything else at an instant. */
  datatype Moment =
    | Auto(run: nat, stamp: string, held: set<string>)
    | Other(event: Event, at: int)

  /** The steps of the replication machine: an automatic run takes a snapshot and prunes. */
  function Events(moments: seq<Moment>, prefix: string, retention: int): seq<Event> {
    if moments == [] then []
    else
      var rest := Events(moments[1..], prefix, retention);
      match moments[0]
      case Auto(_, stamp, held) => ScheduledEvents(prefix, stamp, retention, held) + rest
      case Other(event, _) => [event] + rest
  }

  /** By hand nothing is destroyed, rolled back or pruned, and no snapshot of the prefix taken. */
  predicate HandsOff(event: Event, prefix: string) {
    match event
    case Prune(_, _, _) => false
    case Destroy(_) => false
    case Rollback(_) => false
    case Create(snapName) => !(prefix <= snapName)
    case _ => true
  }

  /** The moments follow each other from an instant on; the automatic runs are runs of the
      schedule, in the order of the scheduler's log, from number `next`. */
  ghost predicate Follows(moments: seq<Moment>, auto: seq<Schedules.AutoRun>, id: int, f: Frequency, prefix: string,
                          from: int, next: nat)
    decreases |moments|
  {
    moments != [] ==>
      match moments[0]
      case Auto(run, _, _) =>
        && next <= run < |auto| && auto[run].id == id && auto[run].frequency == f && from <= auto[run].at
        && Follows(moments[1..], auto, id, f, prefix, auto[run].at, run + 1)
      case Other(event, at) =>
        from <= at && HandsOff(event, prefix) && Follows(moments[1..], auto, id, f, prefix, at, next)
  }

  predicate Records(event: Event) {
    event.Replicate? && event.outcome.Recorded?
  }

  /** Every automatic run comes before the boundary number retention - 1 after the last recorded
      replication. */
  ghost predicate KeepsPace(moments: seq<Moment>, auto: seq<Schedules.AutoRun>, f: Frequency, retention: int,
                            recorded: int)
    decreases |moments|
  {
    moments != [] ==>
      match moments[0]
      case Auto(run, _, _) =>
        && (retention > 0 ==> run < |auto| && auto[run].at < After(f, recorded, retention - 1))
        && KeepsPace(moments[1..], auto, f, retention, recorded)
      case Other(event, at) =>
        KeepsPace(moments[1..], auto, f, retention, if Records(event) then at else recorded)
  }

  /** What the scheduler guarantees of its log: the next run after an earlier automatic run of a
      schedule is not after a later one. */
  ghost predicate RunsApart(auto: seq<Schedules.AutoRun>, id: int, f: Frequency) {
    forall i, j :: 0 <= i < j < |auto| && auto[i].id == auto[j].id == id && auto[j].frequency == f ==>
      NextRun(f, auto[i].at) <= auto[j].at
  }

  lemma ReachableRunsApart(s: Schedules.State, id: int, f: Frequency)
    requires Schedules.Reachable(s) && !f.Unknown?
    ensures RunsApart(s.auto, id, f)
  {
    hide Schedules.Reachable, NextRun, Boundary;
    forall i, j | 0 <= i < j < |s.auto| && s.auto[i].id == s.auto[j].id == id && s.auto[j].frequency == f
      ensures NextRun(f, s.auto[i].at) <= s.auto[j].at
    {
      Schedules.AutoRunsAreSeparated(s, i, j);
      var b :| s.auto[i].at < b <= s.auto[j].at && Boundary(f, b);
      NextRunIsLeastBoundary(f, s.auto[i].at, b);
    }
  }

  lemma {:induction false} AfterIncreases(f: Frequency, t: int, m: nat, n: nat)
    ensures m < n <==> After(f, t, m) < After(f, t, n)
    decreases m + n
  {
    hide NextRun;
    if m == n {
    } else if m < n {
      NextRunMonotone(f, After(f, t, n - 1), After(f, t, n - 1));
      AfterIncreases(f, t, m, n - 1);
    } else {
      NextRunMonotone(f, After(f, t, m - 1), After(f, t, m - 1));
      AfterIncreases(f, t, m - 1, n);
      AfterIncreases(f, t, n, m - 1);
    }
  }

  /** Where the schedule stands since the last recorded replication: `n` of its labels have been
      taken, the newest no earlier than the boundary number n - 1. */
  ghost predicate Stands(taken: seq<string>, auto: seq<Schedules.AutoRun>, id: int, f: Frequency, prefix: string,
                         recorded: int, from: int, next: nat, last: int) {
    recorded <= from && IsLate(CountLabels(taken, prefix), auto, id, f, recorded, next, last)
  }

  ghost predicate IsLate(n: nat, auto: seq<Schedules.AutoRun>, id: int, f: Frequency, recorded: int, next: nat,
                         last: int) {
    n > 0 ==>
      0 <= last < next && last < |auto| && auto[last].id == id && After(f, recorded, n - 1) <= auto[last].at
  }

  /** One more automatic run is late enough, and too early to reach the retention. */
  lemma AnotherRun(taken: seq<string>, auto: seq<Schedules.AutoRun>, id: int, f: Frequency, prefix: string,
                   recorded: int, from: int, next: nat, last: int, run: nat, snapName: string, k: int)
    requires Stands(taken, auto, id, f, prefix, recorded, from, next, last) && RunsApart(auto, id, f)
    requires next <= run < |auto| && auto[run].id == id && auto[run].frequency == f && from <= auto[run].at
    requires prefix <= snapName
    ensures Stands(taken + [snapName], auto, id, f, prefix, recorded, auto[run].at, run + 1, run)
    ensures k > 0 && auto[run].at < After(f, recorded, k - 1) ==> CountLabels(taken + [snapName], prefix) < k
  {
    hide NextRun;
    var n := CountLabels(taken, prefix);
    CountLabelsSnoc(taken, snapName, prefix);
    hide CountLabels;
    if n > 0 {
      NextRunMonotone(f, After(f, recorded, n - 1), auto[last].at);
    }
    assert After(f, recorded, n) <= auto[run].at;
    if k > 0 {
      AfterIncreases(f, recorded, n, k - 1);
    }
  }

  lemma AutoPaced(taken: seq<string>, snapName: string, prefix: string, retention: int, held: set<string>,
                  rest: seq<Event>)
    requires retention <= 0 || CountLabels(taken + [snapName], prefix) < retention
    requires Paced(taken + [snapName], rest)
    ensures Paced(taken, [Create(snapName), Prune(prefix, retention, held)] + rest)
  {
    var events := [Create(snapName), Prune(prefix, retention, held)] + rest;
    var after := [Prune(prefix, retention, held)] + rest;
    hide CountLabels;
    assert events[1..] == after && after[1..] == rest;
    assert Paced(taken + [snapName], after);
  }

  lemma OtherPaced(taken: seq<string>, event: Event, prefix: string, rest: seq<Event>)
    requires HandsOff(event, prefix) && Paced(TakenAfter(taken, event), rest)
    ensures Paced(taken, [event] + rest)
  {
    assert ([event] + rest)[1..] == rest;
    hide CountLabels;
  }

  lemma OtherCounts(taken: seq<string>, event: Event, prefix: string)
    requires HandsOff(event, prefix)
    ensures CountLabels(TakenAfter(taken, event), prefix) == if Records(event) then 0 else CountLabels(taken, prefix)
  {
    if event.Create? {
      CountLabelsSnoc(taken, event.snapName, prefix);
    }
  }

  /** Any other moment leaves the schedule where it stood, or starts it over. */
  lemma OtherStands(taken: seq<string>, auto: seq<Schedules.AutoRun>, id: int, f: Frequency, prefix: string,
                    recorded: int, from: int, next: nat, last: int, event: Event, at: int)
    requires Stands(taken, auto, id, f, prefix, recorded, from, next, last)
    requires HandsOff(event, prefix) && from <= at
    ensures Stands(TakenAfter(taken, event), auto, id, f, prefix, if Records(event) then at else recorded,
                   at, next, last)
  {
    OtherCounts(taken, event, prefix);
    assert Records(event) ==> IsLate(0, auto, id, f, at, next, last);
    hide IsLate, CountLabels, TakenAfter, HandsOff, Records;
  }

  /** A schedule that is kept pace with keeps the pace its retention asks for. */
  lemma {:induction false} PacedBySchedule(moments: seq<Moment>, auto: seq<Schedules.AutoRun>, id: int, f: Frequency,
                                           prefix: string, retention: int, taken: seq<string>, recorded: int,
                                           from: int, next: nat, last: int)
    requires RunsApart(auto, id, f) && Stands(taken, auto, id, f, prefix, recorded, from, next, last)
    requires Follows(moments, auto, id, f, prefix, from, next) && KeepsPace(moments, auto, f, retention, recorded)
    ensures Paced(taken, Events(moments, prefix, retention))
    decreases |moments|
  {
    hide Stands, IsLate, RunsApart, Paced, CountLabels, NextRun, After;
    if moments == [] {
      NoStepsPaced(taken);
    } else {
      var rest := Events(moments[1..], prefix, retention);
      match moments[0]
      case Auto(run, stamp, held) =>
        var snapName := prefix + "-" + stamp;
        assert prefix <= prefix + "-" + stamp;
        AnotherRun(taken, auto, id, f, prefix, recorded, from, next, last, run, snapName, retention);
        PacedBySchedule(moments[1..], auto, id, f, prefix, retention, taken + [snapName], recorded, auto[run].at,
                        run + 1, run);
        AutoPaced(taken, snapName, prefix, retention, held, rest);
      case Other(event, at) =>
        OtherStands(taken, auto, id, f, prefix, recorded, from, next, last, event, at);
        PacedBySchedule(moments[1..], auto, id, f, prefix, retention, TakenAfter(taken, event),
                        if Records(event) then at else recorded, at, next, last);
        OtherPaced(taken, event, prefix, rest);
    }
  }

  lemma NoStepsPaced(taken: seq<string>)
    ensures Paced(taken, [])
  {
  }

  /** Take any reachable state of the scheduler and let its log drive the source of a task whose
      newest snapshot has just been replicated. If every automatic run comes before the boundary
      number retention - 1 after the last recorded replication, every later plan is up to date or
      incremental, and its stream can be received. */
  lemma ScheduleKeepsReplicationIncremental(sched: Schedules.State, id: int, f: Frequency, prefix: string,
                                            retention: int, s: State, moments: seq<Moment>, recorded: int, next: nat)
    requires Schedules.Reachable(sched) && !f.Unknown?
    requires Consistent(s) && Chain(s) && s.snaps != [] && s.last == s.snaps[|s.snaps| - 1].snapName
    requires Follows(moments, sched.auto, id, f, prefix, recorded, next)
    requires KeepsPace(moments, sched.auto, f, retention, recorded)
    requires CarefulRun(s, Events(moments, prefix, retention))
    ensures var s' := Run(s, Events(moments, prefix, retention));
            && (PlanOf(s').UpToDate? || PlanOf(s').Incremental?)
            && (PlanOf(s').Incremental? ==> forall kept :: Receive(s', kept).Some?)
  {
    ReachableRunsApart(sched, id, f);
    hide Schedules.Reachable, RunsApart, Follows, KeepsPace, CarefulRun, Consistent, Chain, PlanOf, Run, Receive;
    PacedBySchedule(moments, sched.auto, id, f, prefix, retention, [], recorded, recorded, next, -1);
    PacedRunStaysIncremental(s, Events(moments, prefix, retention));
  }
}
