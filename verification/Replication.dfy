/** One non-recursive replication task: send planning, the receiving side as an environment, and
    the bookkeeping of the last replicated snapshot, over every interleaving of writes,
    snapshots, prunes, destroys, rollbacks and replication runs. */
module Replication {
  import opened GoStrings
  import opened Collections
  import opened Snapshots

  // ---------- Streams ----------

  /** The changes from one content to another, as an incremental stream carries them. */
  datatype Delta = Delta(dropped: set<string>, written: Content)

  function Diff(a: Content, b: Content): Delta {
    Delta(a.Keys - b.Keys, map k | k in b && !(k in a && a[k] == b[k]) :: b[k])
  }

  function Patch(a: Content, d: Delta): Content {
    (a - d.dropped) + d.written
  }

  lemma PatchDiff(a: Content, b: Content)
    ensures Patch(a, Diff(a, b)) == b
  {
  }

  // ---------- Send planning ----------

  datatype Plan =
    | NoSnapshots
    | UpToDate(current: string)
    | Full(newest: string)
    | Incremental(base: string, newest: string)

  /** What a run sends, from the listed names, oldest first, and the recorded last snapshot. */
  function PlanSend(source: string, names: seq<string>, last: string): Plan {
    if names == [] then NoSnapshots
    else
      var newest := names[|names| - 1];
      var current := newest[LastIndex(newest, '@') + 1..];
      if last != "" && last == current then UpToDate(current)
      else if last != "" && source + "@" + last in names then Incremental(source + "@" + last, newest)
      else Full(newest)
  }

  method IsListed(names: seq<string>, wanted: string) returns (listed: bool)
    ensures listed <==> wanted in names
  {
    for i := 0 to |names|
      invariant wanted !in names[..i]
    {
      if names[i] == wanted { return true; }
    }
    return false;
  }

  /** The planning of the replication endpoint as written, with its search for the base. */
  method PlanRun(source: string, names: seq<string>, last: string) returns (plan: Plan)
    ensures plan == PlanSend(source, names, last)
  {
    hide LastIndex;
    if |names| == 0 { return NoSnapshots; }
    var newest := names[|names| - 1];
    var current := newest[LastIndex(newest, '@') + 1..];
    if last != "" && last == current { return UpToDate(current); }
    var base := "";
    if last != "" {
      var listed := IsListed(names, source + "@" + last);
      if listed { base := source + "@" + last; }
    }
    return if base != "" then Incremental(base, newest) else Full(newest);
  }

  function Names(snaps: seq<Snap>): seq<string> {
    seq(|snaps|, i requires 0 <= i < |snaps| => Name(snaps[i]))
  }

  /** The position of a snapshot by its label. */
  function Find(snaps: seq<Snap>, snapName: string): (i: int)
    ensures -1 <= i < |snaps|
    ensures i >= 0 ==> snaps[i].snapName == snapName
    ensures i < 0 <==> forall s :: s in snaps ==> s.snapName != snapName
  {
    if snaps == [] then -1
    else if snaps[0].snapName == snapName then 0
    else
      var i := Find(snaps[1..], snapName);
      if i < 0 then -1 else i + 1
  }

  // ---------- The state machine ----------

  type Target = map<string, Content>

  /** `born` remembers the content every label had when the source last took it. */
  datatype State = State(source: string, live: Content, snaps: seq<Snap>,
                         target: Target, last: string, born: map<string, Content>)

  /** How a run that sends ends. `Unrecorded` is a completed receive whose result never reaches
      the task table: the process dies first, or the sender exits with an error after the last
      byte. `kept` are the snapshots a forced receive leaves on the target. */
  datatype Outcome = Failed | Recorded(kept: set<string>) | Unrecorded(kept: set<string>)

  datatype Event =
    | Write(content: Content)
    | Create(snapName: string)
    | Prune(prefix: string, keep: int, held: set<string>)
    | Destroy(snapName: string)
    | Rollback(snapName: string)
    | Replicate(outcome: Outcome)

  function PlanOf(s: State): Plan {
    PlanSend(s.source, Names(s.snaps), s.last)
  }

  /** A receive can succeed for a full stream only on a target without snapshots, and for an
      incremental one only on a target that holds the base; the base gets the stream's changes. */
  function Receive(s: State, kept: set<string>): Option<Target> {
    if s.snaps == [] then None
    else
      var newest := s.snaps[|s.snaps| - 1];
      match PlanOf(s)
      case Full(_) =>
        if s.target == map[] then Some(map[newest.snapName := newest.content]) else None
      case Incremental(_, _) =>
        var i := Find(s.snaps, s.last);
        if s.last in s.target && i >= 0 then
          var remaining := map n | n in s.target && (n in kept || n == s.last) :: s.target[n];
          Some(remaining[newest.snapName := Patch(s.target[s.last], Diff(s.snaps[i].content, newest.content))])
        else None
      case _ => None
  }

  predicate CanCreate(s: State, snapName: string) {
    snapName != "" && '@' !in snapName && Find(s.snaps, snapName) < 0
  }

  function Step(s: State, e: Event): State {
    match e
    case Write(content) => s.(live := content)
    case Create(snapName) =>
      if CanCreate(s, snapName) then
        s.(snaps := s.snaps + [Snap(s.source, snapName, s.live)], born := s.born[snapName := s.live])
      else s
    case Prune(prefix, keep, held) => s.(snaps := Pruned(s.snaps, s.source, prefix, keep, held))
    case Destroy(snapName) => s.(snaps := Without(s.snaps, {s.source + "@" + snapName}))
    case Rollback(snapName) =>
      var i := Find(s.snaps, snapName);
      if i >= 0 then s.(snaps := s.snaps[..i + 1], live := s.snaps[i].content) else s
    case Replicate(Failed) => s
    case Replicate(Recorded(kept)) =>
      var received := Receive(s, kept);
      if received.Some? && s.snaps != [] then
        s.(target := received.value, last := s.snaps[|s.snaps| - 1].snapName)
      else s
    case Replicate(Unrecorded(kept)) =>
      var received := Receive(s, kept);
      if received.Some? then s.(target := received.value) else s
  }

  function Run(s: State, events: seq<Event>): State
    decreases |events|
  {
    if events == [] then s else Run(Step(s, events[0]), events[1..])
  }

  // ---------- The chain ----------

  ghost predicate Consistent(s: State) {
    && WellNamed(s.snaps)
    && (forall p :: p in s.snaps ==> p.dataset == s.source && p.snapName != "")
    && (forall p :: p in s.snaps ==> p.snapName in s.born && s.born[p.snapName] == p.content)
  }

  /** The recorded last snapshot is on the target, with the content the source gave that label. */
  ghost predicate Chain(s: State) {
    s.last != "" ==> s.last in s.target && s.last in s.born && s.target[s.last] == s.born[s.last]
  }

  /** No step takes the label of the last replicated snapshot again. */
  predicate Careful(s: State, e: Event) {
    e.Create? ==> e.snapName != s.last || !CanCreate(s, e.snapName)
  }

  ghost predicate CarefulRun(s: State, events: seq<Event>)
    decreases |events|
  {
    events != [] ==> Careful(s, events[0]) && CarefulRun(Step(s, events[0]), events[1..])
  }

  /** A task just created: nothing sent yet, whatever the target holds. */
  ghost predicate Initial(s: State) {
    Consistent(s) && s.last == ""
  }

  lemma DistinctLabels(s: State)
    requires Consistent(s)
    ensures forall i, j :: 0 <= i < j < |s.snaps| ==> s.snaps[i].snapName != s.snaps[j].snapName
  {
    forall i, j | 0 <= i < j < |s.snaps|
      ensures s.snaps[i].snapName != s.snaps[j].snapName
    {
      assert s.snaps[i] in s.snaps && s.snaps[j] in s.snaps;
    }
  }

  /** What the planner's strings mean: a run has nothing to send exactly without snapshots, is up
      to date exactly when the last snapshot is the newest, is incremental exactly when the last
      snapshot is an older one, and otherwise full. */
  lemma PlanMeaning(s: State)
    requires Consistent(s)
    ensures var n, i := |s.snaps|, Find(s.snaps, s.last);
            PlanOf(s) == (if n == 0 then NoSnapshots
                          else if i == n - 1 then UpToDate(s.last)
                          else if i >= 0 then Incremental(Name(s.snaps[i]), Name(s.snaps[n - 1]))
                          else Full(Name(s.snaps[n - 1])))
  {
    var n, i := |s.snaps|, Find(s.snaps, s.last);
    if n > 0 {
      var newest := s.snaps[n - 1];
      LastIsNewest(s);
      BaseIsListed(s);
      assert newest in s.snaps && Names(s.snaps)[n - 1] == Name(newest);
      PlanByLabel(s.source, Names(s.snaps), s.last, newest);
      hide PlanSend, Name, Names, Find, Consistent;
    }
  }

  lemma LastIsNewest(s: State)
    requires Consistent(s) && s.snaps != []
    ensures s.last == s.snaps[|s.snaps| - 1].snapName <==> Find(s.snaps, s.last) == |s.snaps| - 1
  {
    DistinctLabels(s);
    hide Consistent;
    assert s.snaps[|s.snaps| - 1] in s.snaps;
  }

  lemma PlanByLabel(source: string, names: seq<string>, last: string, newest: Snap)
    requires names != [] && names[|names| - 1] == Name(newest) && '@' !in newest.snapName
    ensures PlanSend(source, names, last)
            == if last != "" && last == newest.snapName then UpToDate(last)
               else if last != "" && source + "@" + last in names then Incremental(source + "@" + last, Name(newest))
               else Full(Name(newest))
  {
    NameSplits(newest);
    hide LastIndex, Name;
  }

  /** The name searched for is listed exactly when the last snapshot is still there. */
  lemma BaseIsListed(s: State)
    requires Consistent(s)
    ensures s.source + "@" + s.last in Names(s.snaps) <==> Find(s.snaps, s.last) >= 0
    ensures var i := Find(s.snaps, s.last);
            i >= 0 ==> s.last != "" && Name(s.snaps[i]) == s.source + "@" + s.last
  {
    var i := Find(s.snaps, s.last);
    if i >= 0 {
      assert s.snaps[i] in s.snaps && Names(s.snaps)[i] == s.source + "@" + s.last;
    } else {
      forall k | 0 <= k < |s.snaps|
        ensures Names(s.snaps)[k] != s.source + "@" + s.last
      {
        assert s.snaps[k] in s.snaps;
        LabelOfName(s.source, s.snaps[k].snapName, s.last);
      }
    }
  }

  lemma LabelOfName(source: string, a: string, b: string)
    ensures source + "@" + a == source + "@" + b ==> a == b
  {
    assert (source + "@" + a)[|source| + 1..] == a;
    assert (source + "@" + b)[|source| + 1..] == b;
  }

  // ---------- Every step keeps the chain ----------

  lemma PrunedIsConsistent(s: State, prefix: string, keep: int, held: set<string>)
    requires Consistent(s)
    ensures Consistent(Step(s, Prune(prefix, keep, held)))
  {
    if keep > 0 {
      SurvivorsAreAllButOldest(s.snaps, s.source, prefix, keep, held);
      WithoutWellNamed(s.snaps, OldestMatching(s.snaps, s.source, prefix, keep) - held);
    }
  }

  lemma CreatedIsConsistent(s: State, snapName: string)
    requires Consistent(s)
    ensures Consistent(Step(s, Create(snapName)))
  {
    if CanCreate(s, snapName) {
      var created := Snap(s.source, snapName, s.live);
      forall i | 0 <= i < |s.snaps|
        ensures Name(s.snaps[i]) != Name(created)
      {
        assert s.snaps[i] in s.snaps;
        LabelOfName(s.source, s.snaps[i].snapName, snapName);
      }
      hide Name, Find;
    }
  }

  lemma StepIsConsistent(s: State, e: Event)
    requires Consistent(s)
    ensures Consistent(Step(s, e))
  {
    match e
    case Write(_) =>
    case Create(snapName) => CreatedIsConsistent(s, snapName);
    case Prune(prefix, keep, held) => PrunedIsConsistent(s, prefix, keep, held);
    case Destroy(snapName) => WithoutWellNamed(s.snaps, {s.source + "@" + snapName});
    case Rollback(snapName) =>
    case Replicate(_) =>
  }

  /** A completed receive puts the newest snapshot on the target with its source content. */
  lemma ReceivedIsExact(s: State, kept: set<string>)
    requires Consistent(s) && Chain(s) && Receive(s, kept).Some?
    ensures s.snaps != []
    ensures var newest, target := s.snaps[|s.snaps| - 1], Receive(s, kept).value;
            && newest.snapName in target && target[newest.snapName] == newest.content
            && (s.last != "" ==> s.last in target && target[s.last] == s.born[s.last])
  {
    PlanMeaning(s);
    hide PlanOf, Names;
    var n, i := |s.snaps|, Find(s.snaps, s.last);
    var newest := s.snaps[n - 1];
    assert newest in s.snaps;
    if i >= 0 {
      assert s.snaps[i] in s.snaps;
      DistinctLabels(s);
      PatchDiff(s.snaps[i].content, newest.content);
    }
  }

  /** Each careful step keeps the chain; only a recorded send moves it, and then to the newest. */
  lemma StepKeepsChain(s: State, e: Event)
    requires Consistent(s) && Chain(s) && Careful(s, e)
    ensures Consistent(Step(s, e)) && Chain(Step(s, e))
    ensures Step(s, e).last != s.last ==>
              e.Replicate? && e.outcome.Recorded? && s.snaps != [] &&
              Step(s, e).last == s.snaps[|s.snaps| - 1].snapName
  {
    StepIsConsistent(s, e);
    if e.Replicate? && !e.outcome.Failed? && Receive(s, e.outcome.kept).Some? {
      ReceivedIsExact(s, e.outcome.kept);
      assert s.snaps[|s.snaps| - 1] in s.snaps;
    }
  }

  /** In every state a careful run can reach, a recorded last snapshot is on the target with the
      content the source's snapshot of that label had. */
  lemma {:induction false} ChainInEveryRun(s: State, events: seq<Event>)
    requires Consistent(s) && Chain(s) && CarefulRun(s, events)
    ensures Consistent(Run(s, events)) && Chain(Run(s, events))
    decreases |events|
  {
    if events == [] {
    } else {
      StepKeepsChain(s, events[0]);
      ChainInEveryRun(Step(s, events[0]), events[1..]);
    }
  }

  /** Taking the label of the last replicated snapshot again breaks the chain exactly when the
      live content differs from what the target holds under it. */
  lemma CreateKeepsChainExactly(s: State, snapName: string)
    requires Consistent(s) && Chain(s)
    ensures Chain(Step(s, Create(snapName))) <==>
            Careful(s, Create(snapName)) || s.live == s.target[s.last]
  {
  }

  /** From any state whose newest snapshot is replicated: destroying it and taking its label
      again over other content makes the next run report being up to date over a target that
      holds something else. */
  lemma ReusedLabelBreaksChain(s: State, content: Content)
    requires Consistent(s) && Chain(s) && s.snaps != []
    requires s.last == s.snaps[|s.snaps| - 1].snapName && content != s.target[s.last]
    ensures var s' := Run(s, [Destroy(s.last), Write(content), Create(s.last)]);
            && PlanOf(s') == UpToDate(s.last) && !Chain(s')
            && s'.snaps != [] && s'.snaps[|s'.snaps| - 1] == Snap(s.source, s.last, content)
            && s'.last == s.last && s'.target == s.target
  {
    assert s.snaps[|s.snaps| - 1] in s.snaps;
    var s1 := Step(s, Destroy(s.last));
    var s2 := Step(s1, Write(content));
    var s3 := Step(s2, Create(s.last));
    StepIsConsistent(s, Destroy(s.last));
    StepIsConsistent(s1, Write(content));
    StepIsConsistent(s2, Create(s.last));
    DestroyedIsGone(s);
    RunThree(s, Destroy(s.last), Write(content), Create(s.last));
    assert CanCreate(s2, s.last);
    assert s3.last == s.last && s3.snaps == s1.snaps + [Snap(s.source, s.last, content)];
    NewestIsUpToDate(s3);
  }

  lemma NewestIsUpToDate(s: State)
    requires Consistent(s) && s.snaps != [] && s.last == s.snaps[|s.snaps| - 1].snapName
    ensures PlanOf(s) == UpToDate(s.last)
  {
    hide PlanOf;
    PlanMeaning(s);
    var n, i := |s.snaps|, Find(s.snaps, s.last);
    assert s.snaps[n - 1] in s.snaps;
    DistinctLabels(s);
  }

  lemma DestroyedIsGone(s: State)
    requires Consistent(s)
    ensures Find(Step(s, Destroy(s.last)).snaps, s.last) < 0
  {
    WithoutWellNamed(s.snaps, {s.source + "@" + s.last});
  }

  lemma RunThree(s: State, a: Event, b: Event, c: Event)
    ensures Run(s, [a, b, c]) == Step(Step(Step(s, a), b), c)
  {
    hide Step;
    assert [a, b, c][1..] == [b, c] && [b, c][1..] == [c] && [c][1..] == [];
    assert Run(Step(s, a), [b, c]) == Run(Step(Step(s, a), b), [c]);
    assert Run(Step(Step(s, a), b), [c]) == Run(Step(Step(Step(s, a), b), c), []);
  }

  // ---------- When a task can still make progress ----------

  /** Nothing sent yet but the target has snapshots, or the last snapshot has left the source. */
  predicate Stuck(s: State) {
    if s.last == "" then s.target != map[] else Find(s.snaps, s.last) < 0
  }

  lemma {:induction false} StuckStep(s: State, e: Event)
    requires Consistent(s) && Chain(s) && Careful(s, e) && Stuck(s)
    ensures Stuck(Step(s, e)) && Step(s, e).last == s.last
  {
    match e
    case Write(_) =>
    case Create(_) =>
      FindAppended(s.snaps, Snap(s.source, e.snapName, s.live), s.last);
    case Prune(prefix, keep, held) => PrunedIsPart(s.snaps, s.source, prefix, keep, held);
    case Destroy(snapName) => WithoutWellNamed(s.snaps, {s.source + "@" + snapName});
    case Rollback(_) =>
    case Replicate(_) => StuckCannotReceive(s);
  }

  lemma {:induction false} FindAppended(snaps: seq<Snap>, p: Snap, snapName: string)
    ensures Find(snaps + [p], snapName) ==
            if Find(snaps, snapName) >= 0 then Find(snaps, snapName)
            else if p.snapName == snapName then |snaps|
            else -1
  {
    if snaps == [] {
      assert snaps + [p] == [p];
    } else {
      assert (snaps + [p])[1..] == snaps[1..] + [p];
      FindAppended(snaps[1..], p, snapName);
    }
  }

  lemma StuckCannotReceive(s: State)
    requires Consistent(s) && Chain(s) && Stuck(s)
    ensures forall kept :: Receive(s, kept) == None
  {
    hide PlanOf;
    PlanMeaning(s);
    assert Find(s.snaps, "") < 0;
  }

  lemma {:induction false} StuckRun(s: State, events: seq<Event>)
    requires Consistent(s) && Chain(s) && CarefulRun(s, events) && Stuck(s)
    ensures Run(s, events).last == s.last
    decreases |events|
  {
    if events == [] {
    } else {
      StuckStep(s, events[0]);
      StepKeepsChain(s, events[0]);
      StuckRun(Step(s, events[0]), events[1..]);
    }
  }

  /** A task can record another snapshot, by some careful sequence of steps, exactly when it is
      not stuck: once it is, no sequence of writes, snapshots, prunes, destroys, rollbacks and
      replication runs ever moves it again. */
  lemma ProgressExactlyUnlessStuck(s: State)
    requires Consistent(s) && Chain(s)
    ensures (exists events :: CarefulRun(s, events) && Run(s, events).last != s.last) <==> !Stuck(s)
  {
    if Stuck(s) {
      forall events | CarefulRun(s, events)
        ensures Run(s, events).last == s.last
      {
        StuckRun(s, events);
      }
    } else {
      var events := UnstuckAdvances(s);
    }
  }

  /** A new snapshot and one recorded run move a task that is not stuck. */
  lemma UnstuckAdvances(s: State) returns (events: seq<Event>)
    requires Consistent(s) && Chain(s) && !Stuck(s)
    ensures CarefulRun(s, events) && Run(s, events).last != s.last
  {
    var unused := FreshLabel(s.born.Keys + {s.last});
    events := [Create(unused), Replicate(Recorded({}))];
    RunTwo(s, events[0], events[1]);
    SendsNew(s, unused);
  }

  /** A task that is not stuck replicates a snapshot with a new label as soon as it is taken. */
  lemma SendsNew(s: State, unused: string)
    requires Consistent(s) && Chain(s) && !Stuck(s)
    requires unused !in s.born && unused != s.last && unused != "" && '@' !in unused
    ensures Careful(s, Create(unused))
    ensures Step(Step(s, Create(unused)), Replicate(Recorded({}))).last == unused
  {
    assert CanCreate(s, unused);
    var s1 := Step(s, Create(unused));
    StepKeepsChain(s, Create(unused));
    FindAppended(s.snaps, Snap(s.source, unused, s.live), s.last);
    hide Consistent, Chain, Receive;
    SendsNewest(s1, {});
  }

  /** A receive of a task that is not stuck completes, unless there is nothing to send. */
  lemma CanReceive(s: State, kept: set<string>)
    requires Consistent(s) && Chain(s) && !Stuck(s) && s.snaps != []
    ensures Receive(s, kept).Some? || s.last == s.snaps[|s.snaps| - 1].snapName
  {
    NoEmptyLabel(s);
    PlanMeaning(s);
    hide PlanOf, Consistent, Diff, Patch, Names, Name;
  }

  /** A run that succeeds records the newest snapshot, unless the task is stuck. */
  lemma SendsNewest(s: State, kept: set<string>)
    requires Consistent(s) && Chain(s) && !Stuck(s) && s.snaps != []
    ensures Step(s, Replicate(Recorded(kept))).last == s.snaps[|s.snaps| - 1].snapName
    ensures Step(s, Replicate(Recorded(kept))).snaps == s.snaps
  {
    CanReceive(s, kept);
    StepOfRun(s, kept);
    hide Receive, Step, Consistent, Chain, Stuck;
  }

  lemma NoEmptyLabel(s: State)
    requires Consistent(s)
    ensures Find(s.snaps, "") < 0
  {
  }

  lemma RunTwo(s: State, a: Event, b: Event)
    ensures Run(s, [a, b]) == Step(Step(s, a), b)
    ensures CarefulRun(s, [a, b]) <==> Careful(s, a) && Careful(Step(s, a), b)
  {
    hide Step;
    assert [a, b][1..] == [b] && [b][1..] == [];
    assert Run(Step(s, a), [b]) == Run(Step(Step(s, a), b), []);
    assert CarefulRun(Step(s, a), [b]) <==> Careful(Step(s, a), b);
  }

  /** A label longer than all the given ones. */
  lemma FreshLabel(used: set<string>) returns (snapName: string)
    ensures snapName !in used && snapName != "" && '@' !in snapName
  {
    if used == {} {
      snapName := "s";
    } else {
      var n := LongestOf(used);
      snapName := seq(n + 1, _ => 's');
    }
  }

  lemma LongestOf(used: set<string>) returns (n: nat)
    ensures forall u :: u in used ==> |u| <= n
  {
    n := 0;
    if used == {} {
    } else {
      var u := AnElement(used);
      var m := LongestOf(used - {u});
      n := if |u| > m then |u| else m;
      assert forall v :: v in used ==> v == u || v in used - {u};
    }
  }

  /** A first run whose result is not recorded leaves the task stuck for good. */
  lemma UnrecordedFirstRunIsFatal(s: State, kept: set<string>)
    requires Consistent(s) && s.last == "" && s.target == map[] && s.snaps != []
    ensures !Stuck(s) && Stuck(Step(s, Replicate(Unrecorded(kept))))
  {
    PlanMeaning(s);
    hide PlanOf;
    assert Find(s.snaps, "") < 0;
    var newest := s.snaps[|s.snaps| - 1].snapName;
    assert newest in Step(s, Replicate(Unrecorded(kept))).target;
  }

  // ---------- Retention and the chain ----------

  /** A step that leaves the last replicated snapshot on the source: a prune with fewer than
      `keep` newer matching snapshots, a destroy of another one, a rollback not behind it. */
  predicate Protects(s: State, e: Event) {
    var i := Find(s.snaps, s.last);
    i >= 0 ==>
      match e
      case Prune(prefix, keep, held) =>
        keep <= 0 || !Goes(s.snaps[i], s.snaps[i + 1..], s.source, prefix, keep, held)
      case Destroy(snapName) => snapName != s.last
      case Rollback(snapName) => var j := Find(s.snaps, snapName); j < 0 || i <= j
      case _ => true
  }

  /** The last replicated snapshot stays on the source exactly through protecting steps. */
  lemma KeepsLastExactly(s: State, e: Event)
    requires Consistent(s) && Find(s.snaps, s.last) >= 0
    ensures Find(Step(s, e).snaps, s.last) >= 0 <==> Protects(s, e)
  {
    hide Find, Consistent, Step;
    match e
    case Write(_) => OthersKeepLast(s, e);
    case Create(_) => OthersKeepLast(s, e);
    case Prune(prefix, keep, held) =>
      if keep > 0 {
        PruneKeepsLastExactly(s, prefix, keep, held);
      } else {
        OthersKeepLast(s, e);
      }
    case Destroy(snapName) => DestroyKeepsLastExactly(s, snapName);
    case Rollback(snapName) => RollbackKeepsLastExactly(s, snapName);
    case Replicate(_) => OthersKeepLast(s, e);
  }

  lemma OthersKeepLast(s: State, e: Event)
    requires Find(s.snaps, s.last) >= 0 && (e.Write? || e.Create? || e.Replicate? || (e.Prune? && e.keep <= 0))
    ensures Find(Step(s, e).snaps, s.last) >= 0
  {
    if e.Create? {
      FindAppended(s.snaps, Snap(s.source, e.snapName, s.live), s.last);
    } else if e.Replicate? {
      ReplicateFrame(s, e.outcome);
    }
    hide Find, Receive;
  }

  lemma RollbackKeepsLastExactly(s: State, snapName: string)
    requires Find(s.snaps, s.last) >= 0
    ensures var j := Find(s.snaps, snapName);
            Find(Step(s, Rollback(snapName)).snaps, s.last) >= 0 <==> j < 0 || Find(s.snaps, s.last) <= j
  {
    hide Find, Pruned, Receive, Without, CanCreate;
    var j := Find(s.snaps, snapName);
    if j >= 0 { FindPrefix(s.snaps, j + 1, s.last); }
  }

  lemma PruneKeepsLastExactly(s: State, prefix: string, keep: int, held: set<string>)
    requires Consistent(s) && Find(s.snaps, s.last) >= 0 && keep > 0
    ensures var i := Find(s.snaps, s.last);
            Find(Step(s, Prune(prefix, keep, held)).snaps, s.last) >= 0 <==>
              !Goes(s.snaps[i], s.snaps[i + 1..], s.source, prefix, keep, held)
  {
    hide Pruned, Goes, Find;
    var i := Find(s.snaps, s.last);
    SurvivesExactly(s.snaps, i, s.source, prefix, keep, held);
    PrunedIsPart(s.snaps, s.source, prefix, keep, held);
    FoundExactly(s, Step(s, Prune(prefix, keep, held)));
  }

  lemma DestroyKeepsLastExactly(s: State, snapName: string)
    requires Consistent(s) && Find(s.snaps, s.last) >= 0
    ensures Find(Step(s, Destroy(snapName)).snaps, s.last) >= 0 <==> snapName != s.last
  {
    hide Find;
    var i := Find(s.snaps, s.last);
    assert s.snaps[i] in s.snaps;
    LabelOfName(s.source, s.last, snapName);
    WithoutWellNamed(s.snaps, {s.source + "@" + snapName});
    FoundExactly(s, Step(s, Destroy(snapName)));
  }

  lemma {:induction false} FindPrefix(snaps: seq<Snap>, n: nat, snapName: string)
    requires n <= |snaps|
    ensures Find(snaps[..n], snapName) == if Find(snaps, snapName) < n then Find(snaps, snapName) else -1
  {
    if n == 0 {
    } else {
      assert snaps[..n][1..] == snaps[1..][..n - 1];
      FindPrefix(snaps[1..], n - 1, snapName);
    }
  }

  /** Where snapshots only go, a label is found exactly when its snapshot is still there. */
  lemma FoundExactly(s: State, s': State)
    requires Consistent(s) && Find(s.snaps, s.last) >= 0
    requires forall p :: p in s'.snaps ==> p in s.snaps
    ensures Find(s'.snaps, s.last) >= 0 <==> s.snaps[Find(s.snaps, s.last)] in s'.snaps
  {
    var j := Find(s'.snaps, s.last);
    if j >= 0 {
      DistinctLabels(s);
      assert s'.snaps[j] in s'.snaps;
    }
  }

  ghost predicate ProtectedRun(s: State, events: seq<Event>)
    decreases |events|
  {
    events != [] ==>
      Careful(s, events[0]) && Protects(s, events[0]) && ProtectedRun(Step(s, events[0]), events[1..])
  }

  /** Once a snapshot is replicated, in every run in which each prune finds fewer than `keep`
      matching snapshots newer than the last replicated one, no destroy names it and no rollback
      goes behind it, every replication is up to date or incremental, and its stream can be
      received. */
  lemma {:induction false} RetentionKeepsIncremental(s: State, events: seq<Event>)
    requires Consistent(s) && Chain(s) && Find(s.snaps, s.last) >= 0 && ProtectedRun(s, events)
    ensures var s' := Run(s, events);
            && (PlanOf(s').UpToDate? || PlanOf(s').Incremental?)
            && (PlanOf(s').Incremental? ==> forall kept :: Receive(s', kept).Some?)
    decreases |events|
  {
    hide Step, PlanOf, Receive;
    if events == [] {
      SendableWithLast(s);
    } else {
      var s1 := Step(s, events[0]);
      StepKeepsChain(s, events[0]);
      KeepsLastExactly(s, events[0]);
      MovedLastIsFound(s, events[0]);
      RetentionKeepsIncremental(s1, events[1..]);
    }
  }

  lemma SendableWithLast(s: State)
    requires Consistent(s) && Chain(s) && Find(s.snaps, s.last) >= 0
    ensures PlanOf(s).UpToDate? || PlanOf(s).Incremental?
    ensures PlanOf(s).Incremental? ==> forall kept :: Receive(s, kept).Some?
  {
    PlanMeaning(s);
    hide PlanOf;
    assert Find(s.snaps, "") < 0;
  }

  lemma MovedLastIsFound(s: State, e: Event)
    requires Consistent(s)
    ensures Step(s, e).last != s.last ==> Find(Step(s, e).snaps, Step(s, e).last) >= 0
  {
    assert s.snaps != [] ==> s.snaps[|s.snaps| - 1] in s.snaps;
  }

  // ---------- Pacing: a condition on the steps alone ----------

  /** How many of the labels begin with a prefix. */
  function CountLabels(labels: seq<string>, prefix: string): nat {
    if labels == [] then 0
    else CountLabels(labels[..|labels| - 1], prefix) + (if prefix <= labels[|labels| - 1] then 1 else 0)
  }

  /** No manual destroys or rollbacks, and before each prune that keeps `keep` fewer than `keep`
      snapshots with its prefix have been taken since the last recorded run; `taken` are the
      labels taken since then. */
  ghost predicate Paced(taken: seq<string>, events: seq<Event>)
    decreases |events|
  {
    events != [] ==>
      var rest := events[1..];
      match events[0]
      case Write(_) => Paced(taken, rest)
      case Create(snapName) => Paced(taken + [snapName], rest)
      case Prune(prefix, keep, _) => (keep <= 0 || CountLabels(taken, prefix) < keep) && Paced(taken, rest)
      case Destroy(_) => false
      case Rollback(_) => false
      case Replicate(outcome) => Paced(if outcome.Recorded? then [] else taken, rest)
  }

  /** The snapshots newer than the last replicated one were all taken since. */
  ghost predicate NewerWereTaken(s: State, taken: seq<string>) {
    var i := Find(s.snaps, s.last);
    i >= 0 && forall prefix :: Count(s.snaps[i + 1..], s.source, prefix) <= CountLabels(taken, prefix)
  }

  function TakenAfter(taken: seq<string>, e: Event): seq<string> {
    if e.Create? then taken + [e.snapName]
    else if e.Replicate? && e.outcome.Recorded? then []
    else taken
  }

  lemma CreatePaced(s: State, taken: seq<string>, snapName: string)
    requires Consistent(s) && NewerWereTaken(s, taken)
    ensures NewerWereTaken(Step(s, Create(snapName)), taken + [snapName])
  {
    var i, s' := Find(s.snaps, s.last), Step(s, Create(snapName));
    var created := Snap(s.source, snapName, s.live);
    FindAppended(s.snaps, created, s.last);
    hide Consistent, Find, Count, CountLabels;
    assert s'.snaps != s.snaps ==> s'.snaps[i + 1..] == s.snaps[i + 1..] + [created];
    hide CanCreate;
    forall prefix
      ensures Count(s'.snaps[i + 1..], s.source, prefix) <= CountLabels(taken + [snapName], prefix)
    {
      OneMoreTaken(s.snaps[i + 1..], taken, created, prefix);
    }
  }

  lemma OneMoreTaken(newer: seq<Snap>, taken: seq<string>, created: Snap, prefix: string)
    requires Count(newer, created.dataset, prefix) <= CountLabels(taken, prefix)
    ensures Count(newer, created.dataset, prefix) <= CountLabels(taken + [created.snapName], prefix)
    ensures Count(newer + [created], created.dataset, prefix) <= CountLabels(taken + [created.snapName], prefix)
  {
    CountLabelsSnoc(taken, created.snapName, prefix);
    CountAppended(newer, created, created.dataset, prefix);
    hide Count, CountLabels;
  }

  lemma CountLabelsSnoc(labels: seq<string>, snapName: string, prefix: string)
    ensures CountLabels(labels + [snapName], prefix)
            == CountLabels(labels, prefix) + (if prefix <= snapName then 1 else 0)
  {
    assert (labels + [snapName])[..|labels|] == labels;
  }

  lemma PrunePaced(s: State, taken: seq<string>, prefix: string, keep: int, held: set<string>)
    requires Consistent(s) && NewerWereTaken(s, taken) && (keep <= 0 || CountLabels(taken, prefix) < keep)
    ensures Protects(s, Prune(prefix, keep, held))
    ensures NewerWereTaken(Step(s, Prune(prefix, keep, held)), taken)
  {
    var i, s' := Find(s.snaps, s.last), Step(s, Prune(prefix, keep, held));
    assert Protects(s, Prune(prefix, keep, held));
    if keep > 0 {
      PrunedIsConsistent(s, prefix, keep, held);
      hide Consistent, Pruned, Goes, Find, Protects;
      var k := PrunedTail(s.snaps, i, s.source, prefix, keep, held);
      FoundAt(s', k);
      hide Count;
      forall other
        ensures Count(s'.snaps[k + 1..], s.source, other) <= CountLabels(taken, other)
      {
        CountNeverGrows(s.snaps[i + 1..], s.source, prefix, keep, held, other);
      }
    }
  }

  lemma FoundAt(s: State, k: nat)
    requires Consistent(s) && k < |s.snaps|
    ensures Find(s.snaps, s.snaps[k].snapName) == k
  {
    DistinctLabels(s);
    hide Consistent;
    assert s.snaps[k] in s.snaps;
  }

  lemma ReplicatePaced(s: State, taken: seq<string>, outcome: Outcome)
    requires Consistent(s) && Chain(s) && NewerWereTaken(s, taken)
    ensures NewerWereTaken(Step(s, Replicate(outcome)), if outcome.Recorded? then [] else taken)
  {
    ReplicateFrame(s, outcome);
    if outcome.Recorded? {
      NoEmptyLabel(s);
      hide Consistent, Chain, Step;
      SendsNewest(s, outcome.kept);
      NoneNewer(s, Step(s, Replicate(outcome)));
    } else {
      hide Consistent, Chain, Step, Count, CountLabels, Find;
    }
  }

  lemma NoneNewer(s: State, s': State)
    requires Consistent(s) && s.snaps != [] && s'.snaps == s.snaps && s'.last == s.snaps[|s.snaps| - 1].snapName
    ensures NewerWereTaken(s', [])
  {
    FoundAt(s, |s.snaps| - 1);
    hide Consistent, Find;
    assert s'.snaps[|s.snaps|..] == [];
  }

  lemma ReplicateFrame(s: State, outcome: Outcome)
    ensures var s' := Step(s, Replicate(outcome));
            s'.snaps == s.snaps && s'.source == s.source && (!outcome.Recorded? ==> s'.last == s.last)
  {
  }

  /** The pace protects: no prune of a paced run reaches the last replicated snapshot. */
  lemma {:induction false} PacedIsProtected(s: State, taken: seq<string>, events: seq<Event>)
    requires Consistent(s) && Chain(s) && NewerWereTaken(s, taken)
    requires CarefulRun(s, events) && Paced(taken, events)
    ensures ProtectedRun(s, events)
    decreases |events|
  {
    if events == [] {
    } else {
      var e := events[0];
      StepKeepsChain(s, e);
      match e {
        case Write(_) =>
        case Create(snapName) => CreatePaced(s, taken, snapName);
        case Prune(prefix, keep, held) => PrunePaced(s, taken, prefix, keep, held);
        case Replicate(outcome) => ReplicatePaced(s, taken, outcome);
      }
      hide Consistent, Chain, NewerWereTaken;
      PacedIsProtected(Step(s, e), TakenAfter(taken, e), events[1..]);
    }
  }

  /** From a state whose newest snapshot is replicated, every careful run without manual destroys
      or rollbacks, in which each replication is recorded before `keep` further snapshots with a
      pruned prefix are taken, ends with a task that is up to date or can go on incrementally. */
  lemma PacedRunStaysIncremental(s: State, events: seq<Event>)
    requires Consistent(s) && Chain(s) && s.snaps != [] && s.last == s.snaps[|s.snaps| - 1].snapName
    requires CarefulRun(s, events) && Paced([], events)
    ensures var s' := Run(s, events);
            && (PlanOf(s').UpToDate? || PlanOf(s').Incremental?)
            && (PlanOf(s').Incremental? ==> forall kept :: Receive(s', kept).Some?)
  {
    LastIsNewest(s);
    assert s.snaps[|s.snaps|..] == [];
    PacedIsProtected(s, [], events);
    RetentionKeepsIncremental(s, events);
  }

  /** A scheduled run, which takes a snapshot and prunes its own prefix, costs the task its base
      exactly when the base matches and all but one of the retained places are newer already. */
  lemma ScheduledRunKeepsLastExactly(s: State, prefix: string, stamp: string, retention: int, held: set<string>)
    requires Consistent(s) && Find(s.snaps, s.last) >= 0 && retention > 0 && CanCreate(s, prefix + "-" + stamp)
    ensures var i := Find(s.snaps, s.last);
            var s' := Run(s, [Create(prefix + "-" + stamp), Prune(prefix, retention, held)]);
            Find(s'.snaps, s'.last) >= 0 <==>
              !(prefix <= s.last) || Name(s.snaps[i]) in held ||
              Count(s.snaps[i + 1..], s.source, prefix) + 1 < retention
  {
    hide Step, Run, CanCreate, Protects, Count, Find, Consistent;
    var snapName := prefix + "-" + stamp;
    var s1 := Step(s, Create(snapName));
    CreatedBehindLast(s, snapName, prefix);
    StepIsConsistent(s, Create(snapName));
    RunTwo(s, Create(snapName), Prune(prefix, retention, held));
    KeepsLastExactly(s1, Prune(prefix, retention, held));
    ScheduledArithmetic(s, s1, prefix, stamp, retention, held);
    PruneKeepsRecord(s1, prefix, retention, held);
  }

  lemma PruneKeepsRecord(s: State, prefix: string, keep: int, held: set<string>)
    ensures Step(s, Prune(prefix, keep, held)).last == s.last
  {
  }

  lemma CreatedBehindLast(s: State, snapName: string, prefix: string)
    requires CanCreate(s, snapName) && Find(s.snaps, s.last) >= 0
    ensures var i, taken, s1 := Find(s.snaps, s.last), Snap(s.source, snapName, s.live), Step(s, Create(snapName));
            && s1 == s.(snaps := s1.snaps, born := s1.born)
            && Find(s1.snaps, s.last) == i && s1.snaps[i] == s.snaps[i]
            && Count(s1.snaps[i + 1..], s.source, prefix)
               == Count(s.snaps[i + 1..], s.source, prefix) + (if Matches(taken, s.source, prefix) then 1 else 0)
  {
    var i, taken := Find(s.snaps, s.last), Snap(s.source, snapName, s.live);
    hide Find, Count;
    FindAppended(s.snaps, taken, s.last);
    CountAppended(s.snaps[i + 1..], taken, s.source, prefix);
    assert (s.snaps + [taken])[i + 1..] == s.snaps[i + 1..] + [taken];
  }

  lemma ScheduledArithmetic(s: State, s1: State, prefix: string, stamp: string, retention: int, held: set<string>)
    requires Consistent(s) && retention > 0
    requires s1 == s.(snaps := s1.snaps, born := s1.born)
    requires var i := Find(s.snaps, s.last);
             var taken := Snap(s.source, prefix + "-" + stamp, s.live);
             && 0 <= i == Find(s1.snaps, s.last) && s1.snaps[i] == s.snaps[i]
             && Count(s1.snaps[i + 1..], s.source, prefix)
                == Count(s.snaps[i + 1..], s.source, prefix) + (if Matches(taken, s.source, prefix) then 1 else 0)
    ensures var i := Find(s.snaps, s.last);
            Protects(s1, Prune(prefix, retention, held)) <==>
              !(prefix <= s.last) || Name(s.snaps[i]) in held ||
              Count(s.snaps[i + 1..], s.source, prefix) + 1 < retention
  {
    var i := Find(s.snaps, s.last);
    assert s.snaps[i] in s.snaps;
    assert prefix <= prefix + "-" + stamp;
    hide Name, Count, Find;
  }

  // ---------- The task as the scheduler runs it ----------

  /** A scheduled snapshot of the source as steps: it is taken, then its prefix is pruned. */
  function ScheduledEvents(prefix: string, stamp: string, retention: int, held: set<string>): seq<Event> {
    [Create(prefix + "-" + stamp), Prune(prefix, retention, held)]
  }

  /** What the environment answers during a run: whether the listing works, whether the sender and
      the receiver exit without an error, and what a forced receive keeps of the target. */
  datatype Answers = Answers(listed: bool, sent: bool, received: bool, kept: set<string>)

  /** How a run ends: in success when nothing is to be sent or both commands work; unrecorded when
      the stream was received and the sender failed after it; in failure otherwise. */
  function OutcomeOf(s: State, a: Answers): Outcome {
    if !a.listed || s.snaps == [] then Failed
    else if PlanOf(s).UpToDate? then Recorded({})
    else if !a.received || Receive(s, a.kept).None? then Failed
    else if a.sent then Recorded(a.kept)
    else Unrecorded(a.kept)
  }

  /** A death before the update loses the record of a run, not its effect on the target. */
  function Dying(outcome: Outcome): Outcome {
    if outcome.Recorded? then Unrecorded(outcome.kept) else outcome
  }

  class Task {
    const source: string
    var live: Content
    const host: Host // holds the source's snapshots
    var target: Target
    var last: string // last_snapshot
    var lastRun: Option<int> // last_run_at
    var status: string // last_status
    var error: string // last_error
    ghost var born: map<string, Content>

    ghost function Abstract(): State
      reads this, host
    {
      State(source, live, host.snaps, target, last, born)
    }

    constructor (source: string, target: Target)
      ensures Initial(Abstract()) && Abstract() == State(source, map[], [], target, "", map[])
      ensures lastRun == None && status == "" && error == "" && fresh(host)
    {
      this.source, this.target := source, target;
      live, last, lastRun, status, error, born := map[], "", None, "", "", map[];
      host := new Host([], {});
    }

    // What else happens to the source: each of these is a step of the machine too.

    method Write(content: Content)
      modifies `live
      ensures Abstract() == Step(old(Abstract()), Event.Write(content))
    {
      live := content;
    }

    method TakeSnapshot(snapName: string, works: bool) returns (ok: bool)
      requires Consistent(Abstract())
      modifies host`snaps, `born
      ensures ok <==> works && source != "" && CanCreate(old(Abstract()), snapName)
      ensures Abstract() == if ok then Step(old(Abstract()), Create(snapName)) else old(Abstract())
    {
      ghost var before := Abstract();
      FreeExactly(before, snapName);
      ok := host.Create(source, snapName, live, works);
      if ok {
        born := born[snapName := live];
      }
    }

    method DestroySnapshot(snapName: string) returns (ok: bool)
      requires Consistent(Abstract())
      modifies host`snaps
      ensures ok <==> source + "@" + snapName !in host.stuck && Find(old(host.snaps), snapName) >= 0
      ensures Abstract() == if ok then Step(old(Abstract()), Destroy(snapName)) else old(Abstract())
    {
      FoundByName(Abstract(), snapName);
      ghost var before := host.snaps;
      ok := host.Destroy(source + "@" + snapName);
      if !ok && source + "@" + snapName !in host.stuck { WithoutAbsent(before, source + "@" + snapName); }
    }

    method PruneSnapshots(prefix: string, keep: int)
      requires Consistent(Abstract())
      modifies host`snaps
      ensures Abstract() == Step(old(Abstract()), Prune(prefix, keep, host.stuck))
    {
      host.Prune(source, prefix, keep);
    }

    /** `zfs rollback -r`: the data goes back, and every newer snapshot of the dataset goes. */
    method RollBack(snapName: string, works: bool) returns (ok: bool)
      modifies host`snaps, `live
      ensures ok <==> works && Find(old(host.snaps), snapName) >= 0
      ensures Abstract() == if ok then Step(old(Abstract()), Rollback(snapName)) else old(Abstract())
    {
      ok := works;
      var i := Find(host.snaps, snapName);
      if i < 0 { ok := false; }
      if ok {
        live := host.snaps[i].content;
        host.snaps := host.snaps[..i + 1];
      }
    }

    /** A scheduled snapshot of the source is two steps, taking and pruning. */
    method ScheduledSnapshot(prefix: string, retention: int, stamp: string, works: bool) returns (ok: bool)
      requires Consistent(Abstract())
      modifies host`snaps, `born
      ensures ok <==> works && source != "" && CanCreate(old(Abstract()), prefix + "-" + stamp)
      ensures Abstract() == if ok then Run(old(Abstract()), ScheduledEvents(prefix, stamp, retention, host.stuck))
                            else old(Abstract())
    {
      ghost var before := Abstract();
      var snapName := prefix + "-" + stamp;
      FreeExactly(before, snapName);
      ok := host.RunSnapshot(source, prefix, retention, stamp, live, works);
      if ok {
        hide Consistent, CanCreate, Pruned, Run, Find;
        born := born[snapName := live];
        RunTwo(before, Create(snapName), Prune(prefix, retention, host.stuck));
      }
    }

    /** `zfs send | zfs receive`: either command may fail, the sender even after a complete
        receive; what a forced receive keeps of the target is up to the receiver. */
    method SendAndReceive(a: Answers) returns (sent: bool, received: bool)
      modifies `target
      ensures sent == a.sent && (received <==> a.received && Receive(old(Abstract()), a.kept).Some?)
      ensures target == if received then Receive(old(Abstract()), a.kept).value else old(target)
    {
      var result := Receive(State(source, live, host.snaps, target, last, map[]), a.kept);
      sent, received := a.sent, a.received && result.Some?;
      if received { target := result.value; }
    }

    /** The plan of a run, and the label of the newest snapshot, cut from its listed name. */
    method Prepare() returns (plan: Plan, current: string)
      requires Consistent(Abstract())
      ensures plan == PlanOf(Abstract())
      ensures host.snaps != [] ==> current == host.snaps[|host.snaps| - 1].snapName
    {
      hide LastIndex, Consistent;
      current := "";
      var names := Names(host.snaps);
      plan := PlanRun(source, names, last);
      if |names| > 0 {
        NewestLabel(Abstract());
        var newest := names[|names| - 1];
        current := newest[LastIndex(newest, '@') + 1..];
      }
    }

    /** One replication run; `current` is the label it reports. It succeeds exactly when the listing
        works, there is a snapshot, and either the last one is the newest or both commands work
        and the target can take the stream. */
    method RunReplication(a: Answers) returns (ok: bool, current: string)
      requires Consistent(Abstract())
      modifies `target
      ensures ok <==> && a.listed && host.snaps != []
                      && (last == host.snaps[|host.snaps| - 1].snapName ||
                          (a.sent && a.received && Receive(old(Abstract()), a.kept).Some?))
      ensures ok ==> current == host.snaps[|host.snaps| - 1].snapName
      ensures ok <==> OutcomeOf(old(Abstract()), a).Recorded?
      ensures Abstract().(last := if ok then current else last)
              == Step(old(Abstract()), Replicate(OutcomeOf(old(Abstract()), a)))
    {
      hide PlanOf, Consistent, Receive, Step;
      ghost var s := Abstract();
      ok, current := false, "";
      StepOfRun(s, a.kept);
      if !a.listed { return; }
      var plan;
      plan, current := Prepare();
      PlanKinds(s);
      if plan.NoSnapshots? { return; }
      if plan.UpToDate? {
        UpToDateSendsNothing(s);
        ok := true;
        return;
      }
      var sent, received := SendAndReceive(a);
      ok := sent && received;
    }

    /** UPDATE of the four result columns. */
    method UpdateResult(snapName: string, now: int, status: string, error: string)
      modifies `last, `lastRun, `status, `error
      ensures last == snapName && lastRun == Some(now) && this.status == status && this.error == error
    {
      last, lastRun, this.status, this.error := snapName, Some(now), status, error;
    }

    /** The scheduler's and the manual run of the task: a failure writes the old last snapshot
        back with its message, a success the reported one, and a process that dies writes
        nothing. `now` is the second of the update. */
    method RunTask(a: Answers, now: int, dies: bool, message: string)
      requires Consistent(Abstract())
      modifies `target, `last, `lastRun, `status, `error
      ensures var outcome := OutcomeOf(old(Abstract()), a);
              && Abstract() == Step(old(Abstract()), Replicate(if dies then Dying(outcome) else outcome))
              && (lastRun, status, error)
                 == (if dies then (old(lastRun), old(status), old(error))
                     else if outcome.Recorded? then (Some(now), "ok", "")
                     else (Some(now), "error", message))
      ensures last != old(last) ==> status == "ok"
      ensures status == "error" && old(status) != "error" ==> last == old(last)
    {
      hide PlanOf, Consistent;
      ghost var s := Abstract();
      var ok, current := RunReplication(a);
      DyingKeepsTarget(s, OutcomeOf(s, a));
      hide Receive, Step, OutcomeOf;
      if dies { return; }
      if ok {
        UpdateResult(current, now, "ok", "");
      } else {
        UpdateResult(last, now, "error", message);
      }
    }
  }

  lemma DyingKeepsTarget(s: State, outcome: Outcome)
    ensures var s1, s2 := Step(s, Replicate(outcome)), Step(s, Replicate(Dying(outcome)));
            s2 == s1.(last := s.last) && (!outcome.Recorded? ==> s1.last == s.last)
  {
    hide PlanOf, Find;
  }

  lemma PlanKinds(s: State)
    requires Consistent(s)
    ensures PlanOf(s).NoSnapshots? <==> s.snaps == []
    ensures PlanOf(s).UpToDate? <==> s.snaps != [] && s.last == s.snaps[|s.snaps| - 1].snapName
    ensures PlanOf(s).UpToDate? ==> forall kept :: Receive(s, kept) == None
  {
    PlanMeaning(s);
    if s.snaps != [] { LastIsNewest(s); }
    hide PlanSend, Consistent, Find, Names, Name;
  }

  lemma UpToDateSendsNothing(s: State)
    requires Consistent(s) && PlanOf(s).UpToDate?
    ensures s.snaps != [] && s.last == s.snaps[|s.snaps| - 1].snapName
    ensures Step(s, Replicate(Recorded({}))) == s
  {
    PlanMeaning(s);
    assert Receive(s, {}) == None;
    StepOfRun(s, {});
    hide PlanOf, Consistent, Step;
  }

  /** A completed receive, recorded or not, against a failed one. */
  lemma StepOfRun(s: State, kept: set<string>)
    ensures Step(s, Replicate(Failed)) == s
    ensures var received := Receive(s, kept);
            if received.Some? then
              && s.snaps != []
              && Step(s, Replicate(Unrecorded(kept))) == s.(target := received.value)
              && Step(s, Replicate(Recorded(kept)))
                 == s.(target := received.value, last := s.snaps[|s.snaps| - 1].snapName)
            else Step(s, Replicate(Unrecorded(kept))) == s && Step(s, Replicate(Recorded(kept))) == s
  {
    assert Receive(s, kept).Some? ==> s.snaps != [];
    hide PlanOf, Find, Receive;
  }

  /** A name is in use exactly when its label is found. */
  lemma FoundByName(s: State, snapName: string)
    requires Consistent(s)
    ensures (exists p :: p in s.snaps && Name(p) == s.source + "@" + snapName) <==> Find(s.snaps, snapName) >= 0
  {
    var i := Find(s.snaps, snapName);
    if i >= 0 {
      assert s.snaps[i] in s.snaps;
    } else {
      forall p | p in s.snaps
        ensures Name(p) != s.source + "@" + snapName
      {
        LabelOfName(s.source, p.snapName, snapName);
      }
    }
  }

  /** A label can be taken exactly when it is proper and no name holds it. */
  lemma FreeExactly(s: State, snapName: string)
    requires Consistent(s)
    ensures CanCreate(s, snapName) <==>
            && snapName != "" && '@' !in snapName
            && forall p :: p in s.snaps ==> Name(p) != s.source + "@" + snapName
  {
    FoundByName(s, snapName);
    hide Consistent, Find, Name;
  }

  lemma NewestLabel(s: State)
    requires Consistent(s) && s.snaps != []
    ensures var newest := Names(s.snaps)[|s.snaps| - 1];
            newest[LastIndex(newest, '@') + 1..] == s.snaps[|s.snaps| - 1].snapName
  {
    hide LastIndex, Name;
    var newest := s.snaps[|s.snaps| - 1];
    assert newest in s.snaps && '@' !in newest.snapName;
    hide Consistent;
    NameSplits(newest);
    assert Names(s.snaps)[|s.snaps| - 1] == Name(newest);
  }

  // ---------- What a rollback restores ----------

  /** No step takes the given label. */
  predicate NeverTakes(events: seq<Event>, snapName: string) {
    forall e :: e in events ==> e != Create(snapName)
  }

  lemma {:induction false} BornStays(s: State, events: seq<Event>, snapName: string)
    requires Consistent(s) && snapName in s.born && NeverTakes(events, snapName)
    ensures var s' := Run(s, events);
            Consistent(s') && s'.source == s.source && snapName in s'.born && s'.born[snapName] == s.born[snapName]
    decreases |events|
  {
    if events == [] {
    } else {
      StepIsConsistent(s, events[0]);
      var s1 := Step(s, events[0]);
      assert events[0] in events && forall e :: e in events[1..] ==> e in events;
      assert s1.source == s.source && snapName in s1.born && s1.born[snapName] == s.born[snapName];
      hide Step, Consistent;
      BornStays(s1, events[1..], snapName);
    }
  }

  /** Whatever steps lie between, rolling back to a snapshot that is still there brings back the
      data of the moment it was taken, with that snapshot the newest. */
  lemma RollbackRestores(s: State, snapName: string, events: seq<Event>)
    requires Consistent(s) && CanCreate(s, snapName) && NeverTakes(events, snapName)
    ensures var s' := Run(Step(s, Create(snapName)), events);
            var back := Step(s', Rollback(snapName));
            Find(s'.snaps, snapName) >= 0 ==>
              && back.live == s.live && back.snaps <= s'.snaps
              && back.snaps != [] && back.snaps[|back.snaps| - 1] == Snap(s.source, snapName, s.live)
  {
    var s1 := Step(s, Create(snapName));
    CreatedIsConsistent(s, snapName);
    BornStays(s1, events, snapName);
    var s' := Run(s1, events);
    hide Run;
    var i := Find(s'.snaps, snapName);
    if i >= 0 {
      assert s'.snaps[i] in s'.snaps;
    }
  }
}
