/** The alert cooldown and its pruned history. Instants are whole Unix seconds on a clock that
    never goes back; history writes succeed. */
module AlertCooldown {
  const HOUR := 3_600
  const RETENTION := 7 * 24 * HOUR // how long the history is kept

  datatype Alert = Alert(event: string, target: string, at: int)

  predicate SameSubject(a: Alert, event: string, target: string) {
    a.event == event && a.target == target
  }

  /** The history table, and every alert ever sent, in order. */
  datatype State = State(clock: int, history: seq<Alert>, sent: seq<Alert>)

  /** An attempt reads the clock when it tests the history and again when it records; a prune
      ends each round of checks. */
  datatype Event = Attempt(event: string, target: string, tested: int, recorded: int) | Prune(now: int)

  predicate FiredRecently(history: seq<Alert>, event: string, target: string, cutoff: int) {
    exists i :: 0 <= i < |history| && SameSubject(history[i], event, target) && history[i].at > cutoff
  }

  function Keep(history: seq<Alert>, cutoff: int): seq<Alert> {
    if history == [] then []
    else
      var rest := Keep(history[1..], cutoff);
      if history[0].at < cutoff then rest else [history[0]] + rest
  }

  function Step(s: State, cooldown: int, e: Event): State {
    match e
    case Attempt(event, target, tested, recorded) =>
      if FiredRecently(s.history, event, target, tested - cooldown) then s.(clock := recorded)
      else
        var alert := Alert(event, target, recorded);
        State(recorded, s.history + [alert], s.sent + [alert])
    case Prune(now) => s.(clock := now, history := Keep(s.history, now - RETENTION))
  }

  predicate Possible(s: State, e: Event) {
    match e
    case Attempt(_, _, tested, recorded) => s.clock <= tested <= recorded
    case Prune(now) => s.clock <= now
  }

  ghost predicate IsRun(states: seq<State>, cooldown: int, events: seq<Event>) {
    && |states| == |events| + 1
    && states[0].history == [] && states[0].sent == []
    && forall i :: 0 <= i < |events| ==>
         Possible(states[i], events[i]) && states[i + 1] == Step(states[i], cooldown, events[i])
  }

  ghost predicate SpacedApart(sent: seq<Alert>, cooldown: int) {
    forall i, j :: 0 <= i < j < |sent| && sent[i].event == sent[j].event && sent[i].target == sent[j].target ==>
      sent[i].at + cooldown <= sent[j].at
  }

  /** What left the history is older than the retention. */
  ghost predicate Inv(s: State, cooldown: int) {
    && (forall i :: 0 <= i < |s.sent| ==> s.sent[i].at <= s.clock)
    && (forall i :: 0 <= i < |s.sent| ==> s.sent[i] in s.history || s.sent[i].at + RETENTION < s.clock)
    && SpacedApart(s.sent, cooldown)
  }

  lemma KeepKeeps(history: seq<Alert>, cutoff: int)
    ensures forall a :: a in Keep(history, cutoff) <==> a in history && a.at >= cutoff
  {
  }

  lemma StepKeepsInv(s: State, cooldown: int, e: Event)
    requires Inv(s, cooldown) && Possible(s, e) && cooldown <= RETENTION
    ensures Inv(Step(s, cooldown, e), cooldown)
  {
    match e
    case Attempt(event, target, tested, recorded) =>
      if !FiredRecently(s.history, event, target, tested - cooldown) {
        forall i | 0 <= i < |s.sent| && SameSubject(s.sent[i], event, target)
          ensures s.sent[i].at + cooldown <= tested
        {
          if s.sent[i] in s.history {
            var k :| 0 <= k < |s.history| && s.history[k] == s.sent[i];
            assert SameSubject(s.history[k], event, target);
          }
        }
      }
    case Prune(now) => KeepKeeps(s.history, now - RETENTION);
  }

  lemma {:induction false} RunKeepsInv(states: seq<State>, cooldown: int, events: seq<Event>, n: nat)
    requires IsRun(states, cooldown, events) && n <= |events| && cooldown <= RETENTION
    ensures Inv(states[n], cooldown)
  {
    if n == 0 {
    } else {
      RunKeepsInv(states, cooldown, events, n - 1);
      StepKeepsInv(states[n - 1], cooldown, events[n - 1]);
    }
  }

  /** Alerts for one subject are at least the cooldown apart in every run exactly for cooldowns
      of at most 168 hours: beyond that, pruning the history lets an alert through early. */
  lemma SpacingExactlyUpToRetention(hours: int)
    ensures (forall states: seq<State>, events: seq<Event> :: IsRun(states, hours * 3_600, events) ==>
               SpacedApart(states[|events|].sent, hours * 3_600))
            <==> hours <= 168
  {
    var cooldown := hours * 3_600;
    if hours <= 168 {
      forall states: seq<State>, events: seq<Event> | IsRun(states, cooldown, events)
        ensures SpacedApart(states[|events|].sent, cooldown)
      {
        RunKeepsInv(states, cooldown, events, |events|);
      }
    } else {
      var early := RETENTION + 1;
      var events := [Attempt("pool_health", "p", 0, 0), Prune(early), Attempt("pool_health", "p", early, early)];
      var a, b := Alert("pool_health", "p", 0), Alert("pool_health", "p", early);
      var states := [State(0, [], []), State(0, [a], [a]), State(early, [], [a]), State(early, [b], [a, b])];
      assert Keep([a], 1) == [];
      assert states[1] == Step(states[0], cooldown, events[0]);
      assert states[2] == Step(states[1], cooldown, events[1]);
      assert states[3] == Step(states[2], cooldown, events[2]);
      assert IsRun(states, cooldown, events);
      var last := states[|events|];
      assert last.sent == [a, b] && SameSubject(last.sent[1], last.sent[0].event, last.sent[0].target);
      assert !SpacedApart(last.sent, cooldown);
    }
  }

  lemma {:induction false} HistoryWasSent(states: seq<State>, cooldown: int, events: seq<Event>, n: nat)
    requires IsRun(states, cooldown, events) && n <= |events|
    ensures forall a :: a in states[n].history ==> a in states[n].sent
  {
    if n == 0 {
    } else {
      HistoryWasSent(states, cooldown, events, n - 1);
      if events[n - 1].Prune? {
        KeepKeeps(states[n - 1].history, events[n - 1].now - RETENTION);
      }
    }
  }

  lemma {:induction false} SentOnlyGrows(states: seq<State>, cooldown: int, events: seq<Event>, m: nat, n: nat)
    requires IsRun(states, cooldown, events) && m <= n <= |events|
    ensures forall a :: a in states[m].sent ==> a in states[n].sent
    decreases n
  {
    if m == n {
    } else {
      SentOnlyGrows(states, cooldown, events, m, n - 1);
      assert states[n] == Step(states[n - 1], cooldown, events[n - 1]);
    }
  }

  /** Every attempt leaves an alert for its subject among those sent that is less than the
      cooldown older than the attempt's test. */
  lemma AttemptFindsAlert(states: seq<State>, cooldown: int, events: seq<Event>, p: nat) returns (recent: Alert)
    requires IsRun(states, cooldown, events) && p < |events| && cooldown > 0 && events[p].Attempt?
    ensures recent in states[p + 1].sent && SameSubject(recent, events[p].event, events[p].target)
    ensures events[p].tested < recent.at + cooldown
  {
    var before, after, e := states[p], states[p + 1], events[p];
    if FiredRecently(before.history, e.event, e.target, e.tested - cooldown) {
      var i :| 0 <= i < |before.history| && SameSubject(before.history[i], e.event, e.target)
               && before.history[i].at > e.tested - cooldown;
      HistoryWasSent(states, cooldown, events, p);
      recent := before.history[i];
      assert recent in before.sent;
    } else {
      recent := Alert(e.event, e.target, e.recorded);
      assert after.sent[|before.sent|] == recent;
    }
  }

  /** While a condition persists and is attempted at most `gap` apart, every attempt after the
      first finds an alert sent less than cooldown + gap before its test. */
  lemma PersistentConditionKeepsAlerting(states: seq<State>, cooldown: int, events: seq<Event>, p: nat, n: nat,
                                         gap: int)
    requires IsRun(states, cooldown, events) && p < n < |events| && cooldown > 0
    requires events[p].Attempt? && events[n].Attempt?
    requires events[p].event == events[n].event && events[p].target == events[n].target
    requires events[n].tested - events[p].tested <= gap
    ensures exists a :: a in states[n].sent && SameSubject(a, events[n].event, events[n].target)
                        && events[n].tested < a.at + cooldown + gap
  {
    var recent := AttemptFindsAlert(states, cooldown, events, p);
    SentOnlyGrows(states, cooldown, events, p + 1, n);
  }

  predicate AttemptOf(e: Event, event: string, target: string) {
    e.Attempt? && e.event == event && e.target == target
  }

  /** Every attempt for the subject but the first records at most `gap` after an earlier attempt
      for it tested. */
  ghost predicate Persists(events: seq<Event>, event: string, target: string, gap: int) {
    forall m, n ::
      0 <= m < n < |events| && AttemptOf(events[m], event, target) && AttemptOf(events[n], event, target) ==>
        exists p ::
          0 <= p < n && AttemptOf(events[p], event, target) && events[n].recorded - events[p].tested <= gap
  }

  /** Alerts are sent in the order of their times. */
  lemma {:induction false} SentInOrder(states: seq<State>, cooldown: int, events: seq<Event>, n: nat)
    requires IsRun(states, cooldown, events) && n <= |events|
    ensures forall i :: 0 <= i < |states[n].sent| ==> states[n].sent[i].at <= states[n].clock
    ensures forall i, j :: 0 <= i < j < |states[n].sent| ==> states[n].sent[i].at <= states[n].sent[j].at
  {
    if n == 0 {
    } else {
      SentInOrder(states, cooldown, events, n - 1);
      assert states[n] == Step(states[n - 1], cooldown, events[n - 1]) && Possible(states[n - 1], events[n - 1]);
      hide FiredRecently, Keep;
    }
  }

  /** The attempt that sent an alert, after all the alerts before it. */
  lemma {:induction false} SentBy(states: seq<State>, cooldown: int, events: seq<Event>, n: nat, j: nat)
    returns (k: nat)
    requires IsRun(states, cooldown, events) && n <= |events| && j < |states[n].sent|
    ensures k < n && states[k].sent == states[n].sent[..j]
    ensures var a := states[n].sent[j];
            AttemptOf(events[k], a.event, a.target) && events[k].recorded == a.at
    decreases n
  {
    assert n > 0 && states[n] == Step(states[n - 1], cooldown, events[n - 1]);
    hide FiredRecently, Keep;
    var before := states[n - 1].sent;
    if j < |before| {
      k := SentBy(states, cooldown, events, n - 1, j);
      assert before[..j] == states[n].sent[..j];
    } else {
      k := n - 1;
      assert before == states[n].sent[..j];
    }
  }

  /** While a condition persists, two consecutive alerts for it are less than cooldown + gap
      apart. */
  lemma ConsecutiveAlertsAreNear(states: seq<State>, cooldown: int, events: seq<Event>, i: nat, j: nat, gap: int)
    requires IsRun(states, cooldown, events) && cooldown > 0
    requires var sent := states[|events|].sent;
             && i < j < |sent| && Persists(events, sent[j].event, sent[j].target, gap)
             && SameSubject(sent[i], sent[j].event, sent[j].target)
             && forall k :: i < k < j ==> !SameSubject(sent[k], sent[j].event, sent[j].target)
    ensures states[|events|].sent[j].at < states[|events|].sent[i].at + cooldown + gap
  {
    assert |states| == |events| + 1;
    hide IsRun;
    var sent := states[|events|].sent;
    var event, target := sent[j].event, sent[j].target;
    var m := SentBy(states, cooldown, events, |events|, i);
    var n := SentBy(states, cooldown, events, |events|, j);
    SentEarlier(states, cooldown, events, m, n, i, j);
    var p :| 0 <= p < n && AttemptOf(events[p], event, target) && events[n].recorded - events[p].tested <= gap;
    var recent := AttemptFindsAlert(states, cooldown, events, p);
    SentOnlyGrows(states, cooldown, events, p + 1, n);
    assert recent in sent[..j];
    var k :| 0 <= k < j && sent[k] == recent;
    SentInOrder(states, cooldown, events, |events|);
    assert k <= i && sent[k].at <= sent[i].at;
  }

  lemma SentEarlier(states: seq<State>, cooldown: int, events: seq<Event>, m: nat, n: nat, i: nat, j: nat)
    requires IsRun(states, cooldown, events) && m <= |events| && n <= |events| && i < j
    requires |states[m].sent| == i && |states[n].sent| == j
    ensures m < n
  {
    if n <= m {
      SentCount(states, cooldown, events, n, m);
    }
  }

  lemma {:induction false} SentCount(states: seq<State>, cooldown: int, events: seq<Event>, m: nat, n: nat)
    requires IsRun(states, cooldown, events) && m <= n <= |events|
    ensures |states[m].sent| <= |states[n].sent|
    decreases n
  {
    if m == n {
    } else {
      SentCount(states, cooldown, events, m, n - 1);
      assert states[n] == Step(states[n - 1], cooldown, events[n - 1]);
    }
  }

  // ---------- The checks as they run ----------

  class Alerts {
    var clock: int
    var history: seq<Alert>
    ghost var sent: seq<Alert>

    ghost function Abstract(): State
      reads this
    {
      State(clock, history, sent)
    }

    constructor (now: int)
      ensures Abstract() == State(now, [], [])
    {
      clock, history, sent := now, [], [];
    }

    method Now() returns (now: int)
      modifies `clock
      ensures old(clock) <= now == clock
    {
      now := *;
      if now < clock { now := clock; }
      clock := now;
    }

    method AlertFiredRecently(event: string, target: string, cooldown: int) returns (recent: bool, ghost tested: int)
      modifies `clock
      ensures old(clock) <= tested == clock
      ensures recent <==> FiredRecently(history, event, target, tested - cooldown)
      ensures recent <==> exists a :: a in history && a.event == event && a.target == target && a.at > tested - cooldown
    {
      var now := Now();
      tested := now;
      var cutoff := now - cooldown;
      var count := 0;
      for i := 0 to |history|
        invariant clock == tested && 0 <= count
        invariant count > 0 <==>
                  exists k :: 0 <= k < i && SameSubject(history[k], event, target) && history[k].at > cutoff
      {
        if SameSubject(history[i], event, target) && history[i].at > cutoff { count := count + 1; }
      }
      recent := count > 0;
      if recent {
        var k :| 0 <= k < |history| && SameSubject(history[k], event, target) && history[k].at > cutoff;
        assert history[k] in history;
      }
    }

    /** Send an alert unless one for the same subject was sent within the cooldown. */
    method FireAlert(cooldown: int, event: string, target: string) returns (ghost tested: int)
      modifies this
      ensures var e := Attempt(event, target, tested, clock);
              Possible(old(Abstract()), e) && Abstract() == Step(old(Abstract()), cooldown, e)
      ensures if exists a :: a in old(history) && a.event == event && a.target == target && a.at > tested - cooldown
              then history == old(history) && sent == old(sent)
              else history == old(history) + [Alert(event, target, clock)]
                   && sent == old(sent) + [Alert(event, target, clock)]
    {
      var recent;
      recent, tested := AlertFiredRecently(event, target, cooldown);
      if recent { return; }
      var now := Now();
      history := history + [Alert(event, target, now)];
      sent := sent + [Alert(event, target, now)];
    }

    method PruneAlertHistory()
      modifies this
      ensures Possible(old(Abstract()), Prune(clock))
      ensures Abstract() == Step(old(Abstract()), 0, Prune(clock))
      ensures forall a :: a in history <==> a in old(history) && a.at >= clock - 604_800
    {
      var now := Now();
      var kept: seq<Alert> := [];
      for i := 0 to |history|
        invariant clock == now && sent == old(sent) && history == old(history) && old(clock) <= now
        invariant kept + Keep(history[i..], now - RETENTION) == Keep(history, now - RETENTION)
      {
        assert history[i..][0] == history[i] && history[i..][1..] == history[i + 1..];
        ghost var rest := Keep(history[i + 1..], now - RETENTION);
        assert kept + ([history[i]] + rest) == (kept + [history[i]]) + rest;
        if history[i].at >= now - RETENTION { kept := kept + [history[i]]; }
      }
      assert history[|history|..] == [];
      KeepKeeps(history, now - RETENTION);
      history := kept;
    }
  }
}
