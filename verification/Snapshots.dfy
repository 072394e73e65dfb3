/** The snapshots of a pool in creation order, and the host agent's retention loop. */
module Snapshots {
  import opened GoStrings
  import opened Collections
  import Calendar

  /** What a dataset holds, block by block. */
  type Content = map<string, string>

  datatype Snap = Snap(dataset: string, snapName: string, content: Content)

  function Name(s: Snap): string {
    s.dataset + "@" + s.snapName
  }

  /** Snapshot names are unique, and a snapshot label never holds an at sign. */
  ghost predicate WellNamed(snaps: seq<Snap>) {
    && (forall s :: s in snaps ==> '@' !in s.snapName)
    && (forall i, j :: 0 <= i < j < |snaps| ==> Name(snaps[i]) != Name(snaps[j]))
  }

  /** The agent's filter on a listed name: its dataset is exactly the requested one and its
      label begins with the prefix. */
  predicate MatchesName(name: string, dataset: string, prefix: string) {
    var at := LastIndex(name, '@');
    at >= 0 && name[..at] == dataset && prefix <= name[at + 1..]
  }

  predicate Matches(s: Snap, dataset: string, prefix: string) {
    s.dataset == dataset && prefix <= s.snapName
  }

  lemma NameSplits(s: Snap)
    requires '@' !in s.snapName
    ensures LastIndex(Name(s), '@') == |s.dataset|
    ensures Name(s)[..|s.dataset|] == s.dataset && Name(s)[|s.dataset| + 1..] == s.snapName
  {
    var name := Name(s);
    assert name[|s.dataset|] == '@';
    assert forall k :: |s.dataset| < k < |name| ==> name[k] == s.snapName[k - |s.dataset| - 1];
  }

  /** How many of the snapshots match. */
  function Count(snaps: seq<Snap>, dataset: string, prefix: string): nat {
    if snaps == [] then 0
    else (if Matches(snaps[0], dataset, prefix) then 1 else 0) + Count(snaps[1..], dataset, prefix)
  }

  /** A snapshot goes when it matches, at least `keep` newer ones match, and its destroy works. */
  predicate Goes(s: Snap, newer: seq<Snap>, dataset: string, prefix: string, keep: int, held: set<string>) {
    Matches(s, dataset, prefix) && Count(newer, dataset, prefix) >= keep && Name(s) !in held
  }

  /** What a prune leaves, when destroying fails exactly for the names in `held`. */
  function Pruned(snaps: seq<Snap>, dataset: string, prefix: string, keep: int, held: set<string>): seq<Snap> {
    if keep <= 0 || snaps == [] then snaps
    else
      var rest := Pruned(snaps[1..], dataset, prefix, keep, held);
      if Goes(snaps[0], snaps[1..], dataset, prefix, keep, held) then rest else [snaps[0]] + rest
  }

  // ---------- The retention loop ----------

  function Without(snaps: seq<Snap>, names: set<string>): seq<Snap> {
    if snaps == [] then []
    else (if Name(snaps[0]) in names then [] else [snaps[0]]) + Without(snaps[1..], names)
  }

  function MatchingNames(snaps: seq<Snap>, dataset: string, prefix: string): seq<string> {
    if snaps == [] then []
    else (if Matches(snaps[0], dataset, prefix) then [Name(snaps[0])] else [])
         + MatchingNames(snaps[1..], dataset, prefix)
  }

  lemma WithoutTwice(snaps: seq<Snap>, a: set<string>, b: set<string>)
    ensures Without(Without(snaps, a), b) == Without(snaps, a + b)
  {
    if snaps == [] {
    } else {
      WithoutTwice(snaps[1..], a, b);
      var rest := Without(snaps[1..], a);
      if Name(snaps[0]) in a {
        assert Without(snaps, a) == rest;
      } else {
        assert Without(snaps, a)[0] == snaps[0] && Without(snaps, a)[1..] == rest;
      }
    }
  }

  lemma WithoutNone(snaps: seq<Snap>)
    ensures Without(snaps, {}) == snaps
  {
  }

  function AllButNewest(names: seq<string>, keep: nat): seq<string> {
    if |names| <= keep then [] else names[..|names| - keep]
  }

  lemma AllButNewestCons(name: string, names: seq<string>, keep: nat)
    requires name !in names
    ensures name !in AllButNewest(names, keep)
    ensures name in AllButNewest([name] + names, keep) <==> |names| >= keep
    ensures forall n :: n != name ==> (n in AllButNewest([name] + names, keep) <==> n in AllButNewest(names, keep))
  {
    assert AllButNewest([name] + names, keep) == if |names| < keep then [] else [name] + AllButNewest(names, keep);
  }

  /** The oldest matching names: all but the newest `keep`. */
  function OldestMatching(snaps: seq<Snap>, dataset: string, prefix: string, keep: nat): set<string> {
    ToSet(AllButNewest(MatchingNames(snaps, dataset, prefix), keep))
  }

  /** The names `gone` are, of the given snapshots, the oldest matching ones that are not held. */
  ghost predicate GoneAreOldest(snaps: seq<Snap>, dataset: string, prefix: string, keep: nat,
                                gone: set<string>, held: set<string>) {
    var oldest := AllButNewest(MatchingNames(snaps, dataset, prefix), keep);
    forall s :: s in snaps ==> (Name(s) in gone <==> Name(s) !in held && Name(s) in oldest)
  }

  lemma MatchingNamesCons(snaps: seq<Snap>, dataset: string, prefix: string)
    requires snaps != [] && WellNamed(snaps)
    ensures var s0, mr := snaps[0], MatchingNames(snaps[1..], dataset, prefix);
            && Name(s0) !in mr && |mr| == Count(snaps[1..], dataset, prefix)
            && MatchingNames(snaps, dataset, prefix) == (if Matches(s0, dataset, prefix) then [Name(s0)] + mr else mr)
            && forall s :: s in snaps[1..] ==> Name(s) != Name(s0)
  {
    MatchingNamesAre(snaps[1..], dataset, prefix);
    hide Matches, Name, Count;
  }

  lemma GoneCons(snaps: seq<Snap>, dataset: string, prefix: string, keep: nat, gone: set<string>, held: set<string>)
    requires snaps != [] && WellNamed(snaps) && GoneAreOldest(snaps, dataset, prefix, keep, gone, held)
    ensures GoneAreOldest(snaps[1..], dataset, prefix, keep, gone, held)
    ensures Name(snaps[0]) in gone <==> Goes(snaps[0], snaps[1..], dataset, prefix, keep, held)
  {
    MatchingNamesCons(snaps, dataset, prefix);
    hide Name, Matches, Count, MatchingNames, WellNamed;
    var s0, rest := snaps[0], snaps[1..];
    AllButNewestCons(Name(s0), MatchingNames(rest, dataset, prefix), keep);
    hide AllButNewest;
    assert s0 in snaps && forall s :: s in rest ==> s in snaps;
  }

  lemma {:induction false} WithoutGoneIsPruned(snaps: seq<Snap>, dataset: string, prefix: string, keep: int,
                                               gone: set<string>, held: set<string>)
    requires WellNamed(snaps) && keep > 0 && GoneAreOldest(snaps, dataset, prefix, keep, gone, held)
    ensures Without(snaps, gone) == Pruned(snaps, dataset, prefix, keep, held)
  {
    if snaps == [] {
    } else {
      GoneCons(snaps, dataset, prefix, keep, gone, held);
      hide Goes, Name, GoneAreOldest;
      WithoutGoneIsPruned(snaps[1..], dataset, prefix, keep, gone, held);
    }
  }

  lemma MatchingNamesAre(snaps: seq<Snap>, dataset: string, prefix: string)
    ensures |MatchingNames(snaps, dataset, prefix)| == Count(snaps, dataset, prefix)
    ensures forall n :: n in MatchingNames(snaps, dataset, prefix) <==>
              exists s :: s in snaps && Name(s) == n && Matches(s, dataset, prefix)
  {
  }

  /** The destroy loop after its first `j` names: those are gone whose destroys do not fail. */
  ghost predicate Destroying(listing: seq<Snap>, now: seq<Snap>, all: seq<string>, j: nat, stuck: set<string>) {
    j <= |all| && now == Without(listing, ToSet(all[..j]) - stuck)
  }

  lemma DestroyingStarts(listing: seq<Snap>, all: seq<string>, stuck: set<string>)
    ensures Destroying(listing, listing, all, 0, stuck)
  {
    WithoutNone(listing);
    hide Without;
    assert ToSet(all[..0]) - stuck == {};
  }

  lemma DestroyingGoesOn(listing: seq<Snap>, now: seq<Snap>, all: seq<string>, j: nat, stuck: set<string>)
    requires Destroying(listing, now, all, j, stuck) && j < |all|
    ensures Destroying(listing, if all[j] in stuck then now else Without(now, {all[j]}), all, j + 1, stuck)
  {
    WithoutTwice(listing, ToSet(all[..j]) - stuck, {all[j]});
    hide Without;
    assert all[..j + 1] == all[..j] + [all[j]];
    assert ToSet(all[..j + 1]) - stuck
           == if all[j] in stuck then ToSet(all[..j]) - stuck else ToSet(all[..j]) - stuck + {all[j]};
  }

  lemma DestroyingEnds(listing: seq<Snap>, now: seq<Snap>, dataset: string, prefix: string, keep: nat, j: nat,
                       stuck: set<string>)
    requires WellNamed(listing) && keep > 0
    requires var all := MatchingNames(listing, dataset, prefix);
             && Destroying(listing, now, all, j, stuck)
             && |all| - j <= keep && (j > 0 ==> |all| - j >= keep)
    ensures now == Pruned(listing, dataset, prefix, keep, stuck) && WellNamed(now)
  {
    SurvivorsAreAllButOldest(listing, dataset, prefix, keep, stuck);
    var all := MatchingNames(listing, dataset, prefix);
    WithoutWellNamed(listing, ToSet(all[..j]) - stuck);
    hide Without, WellNamed, MatchingNames, Pruned;
    if |all| > keep {
      assert j == |all| - keep;
    } else {
      assert j == 0 && all[..0] == [];
    }
    assert ToSet(all[..j]) == OldestMatching(listing, dataset, prefix, keep);
  }

  class Host {
    var snaps: seq<Snap>
    var stuck: set<string> // the names whose destroy fails, as things stand

    constructor (snaps: seq<Snap>, stuck: set<string>)
      ensures this.snaps == snaps && this.stuck == stuck
    {
      this.snaps, this.stuck := snaps, stuck;
    }

    /** `zfs destroy` of one snapshot; where it fails nothing changes. */
    method Destroy(name: string) returns (ok: bool)
      modifies `snaps
      ensures ok <==> name !in stuck && exists s :: s in old(snaps) && Name(s) == name
      ensures snaps == if name in stuck then old(snaps) else Without(old(snaps), {name})
    {
      ok := name !in stuck && exists s :: s in snaps && Name(s) == name;
      if ok {
        snaps := Without(snaps, {name});
      } else if name !in stuck {
        WithoutAbsent(snaps, name);
      }
    }

    /** The listed names of the dataset that begin with the prefix, oldest first. */
    method Matching(dataset: string, prefix: string) returns (matching: seq<string>)
      requires WellNamed(snaps)
      ensures matching == MatchingNames(snaps, dataset, prefix)
    {
      hide LastIndex;
      matching := [];
      for i := 0 to |snaps|
        invariant matching + MatchingNames(snaps[i..], dataset, prefix) == MatchingNames(snaps, dataset, prefix)
      {
        assert snaps[i..][0] == snaps[i] && snaps[i..][1..] == snaps[i + 1..];
        NameSplits(snaps[i]);
        if MatchesName(Name(snaps[i]), dataset, prefix) {
          matching := matching + [Name(snaps[i])];
        }
      }
      assert snaps[|snaps|..] == [];
    }

    /** The prune endpoint: collect the matching names, then destroy from the oldest while more
        than `keep` remain, going on whether or not a destroy worked. */
    method Prune(dataset: string, prefix: string, keep: int)
      requires WellNamed(snaps)
      modifies `snaps
      ensures snaps == Pruned(old(snaps), dataset, prefix, keep, stuck)
      ensures WellNamed(snaps)
    {
      if keep <= 0 { return; }
      ghost var listing := snaps;
      var matching := Matching(dataset, prefix);
      ghost var all := matching;
      ghost var j := 0;
      DestroyingStarts(listing, all, stuck);
      while |matching| > keep
        invariant Destroying(listing, snaps, all, j, stuck)
        invariant matching == all[j..]
        invariant j > 0 ==> |matching| >= keep
      {
        DestroyingGoesOn(listing, snaps, all, j, stuck);
        var ok := Destroy(matching[0]);
        matching := matching[1..];
        j := j + 1;
      }
      DestroyingEnds(listing, snaps, dataset, prefix, keep, j, stuck);
    }

    /** `zfs snapshot`: refused without a dataset or label, for a label with an at sign and for a
        name in use; whether the command works otherwise is given. */
    method Create(dataset: string, snapName: string, content: Content, works: bool) returns (ok: bool)
      requires WellNamed(snaps)
      modifies `snaps
      ensures ok <==> && works && dataset != "" && snapName != "" && '@' !in snapName
                      && forall s :: s in old(snaps) ==> Name(s) != dataset + "@" + snapName
      ensures snaps == if ok then old(snaps) + [Snap(dataset, snapName, content)] else old(snaps)
      ensures WellNamed(snaps)
    {
      ok := works;
      var created := Snap(dataset, snapName, content);
      if dataset == "" || snapName == "" || '@' in snapName { ok := false; }
      if exists s :: s in snaps && Name(s) == Name(created) { ok := false; }
      assert Name(created) == dataset + "@" + snapName;
      if ok {
        assert forall i :: 0 <= i < |snaps| ==> snaps[i] in snaps;
        hide Name;
        snaps := snaps + [created];
      }
    }

    /** A scheduled snapshot run: take `prefix-stamp`, then prune its prefix. The new one is kept
        as the newest; unless destroys fail, min(retention, n + 1) of the matching ones are left
        where there were n. */
    method RunSnapshot(dataset: string, prefix: string, retention: int, stamp: string, content: Content, works: bool)
      returns (ok: bool)
      requires WellNamed(snaps)
      modifies `snaps
      ensures WellNamed(snaps)
      ensures ok <==> && works && dataset != "" && '@' !in prefix + "-" + stamp
                      && forall s :: s in old(snaps) ==> Name(s) != dataset + "@" + (prefix + "-" + stamp)
      ensures !ok ==> snaps == old(snaps)
      ensures ok ==>
        var taken := Snap(dataset, prefix + "-" + stamp, content);
        && WellNamed(old(snaps) + [taken]) && taken.snapName != ""
        && snaps != [] && snaps[|snaps| - 1] == taken
        && snaps == Pruned(old(snaps) + [taken], dataset, prefix, retention, stuck)
        && (retention > 0 && stuck == {} ==>
              var before := Count(old(snaps), dataset, prefix);
              Count(snaps, dataset, prefix) == if before < retention then before + 1 else retention)
    {
      ghost var before := snaps;
      ok := Create(dataset, prefix + "-" + stamp, content, works);
      if !ok { return; }
      ghost var taken := Snap(dataset, prefix + "-" + stamp, content);
      CountAppended(before, taken, dataset, prefix);
      if retention > 0 {
        ghost var listing := snaps;
        Prune(dataset, prefix, retention);
        CountPruned(listing, dataset, prefix, retention, stuck);
        NewestSurvives(before, taken, dataset, prefix, retention, stuck);
        assert prefix <= taken.snapName;
      }
    }
  }

  lemma WithoutAbsent(snaps: seq<Snap>, name: string)
    requires forall s :: s in snaps ==> Name(s) != name
    ensures Without(snaps, {name}) == snaps
  {
  }

  lemma CountAppended(snaps: seq<Snap>, s: Snap, dataset: string, prefix: string)
    ensures Count(snaps + [s], dataset, prefix)
            == Count(snaps, dataset, prefix) + (if Matches(s, dataset, prefix) then 1 else 0)
  {
    if snaps == [] {
      assert snaps + [s] == [s];
    } else {
      assert (snaps + [s])[1..] == snaps[1..] + [s];
      CountAppended(snaps[1..], s, dataset, prefix);
    }
  }

  /** The newest snapshot survives every prune that keeps any. */
  lemma NewestSurvives(snaps: seq<Snap>, newest: Snap, dataset: string, prefix: string, keep: int, held: set<string>)
    requires keep > 0
    ensures var left := Pruned(snaps + [newest], dataset, prefix, keep, held);
            left != [] && left[|left| - 1] == newest
  {
    if snaps == [] {
      assert snaps + [newest] == [newest] && [newest][1..] == [];
    } else {
      assert (snaps + [newest])[1..] == snaps[1..] + [newest];
      NewestSurvives(snaps[1..], newest, dataset, prefix, keep, held);
    }
  }

  lemma WithoutWellNamed(snaps: seq<Snap>, names: set<string>)
    requires WellNamed(snaps)
    ensures WellNamed(Without(snaps, names))
    ensures forall s :: s in Without(snaps, names) <==> s in snaps && Name(s) !in names
  {
    if snaps == [] {
    } else {
      WithoutWellNamed(snaps[1..], names);
    }
  }

  // ---------- What retention promises ----------

  /** A snapshot survives a prune exactly when it does not match, fewer than `keep` newer ones
      match, or its destroy fails. */
  lemma {:induction false} SurvivesExactly(snaps: seq<Snap>, i: nat, dataset: string, prefix: string, keep: int,
                                           held: set<string>)
    requires WellNamed(snaps) && i < |snaps| && keep > 0
    ensures snaps[i] in Pruned(snaps, dataset, prefix, keep, held) <==>
            !Goes(snaps[i], snaps[i + 1..], dataset, prefix, keep, held)
  {
    hide Goes, Name;
    var rest := snaps[1..];
    PrunedIsPart(rest, dataset, prefix, keep, held);
    if i == 0 {
      assert snaps[0] !in rest;
    } else {
      assert rest[i - 1] == snaps[i] && rest[i..] == snaps[i + 1..];
      SurvivesExactly(rest, i - 1, dataset, prefix, keep, held);
    }
  }

  lemma PrunedIsPart(snaps: seq<Snap>, dataset: string, prefix: string, keep: int, held: set<string>)
    ensures forall s :: s in Pruned(snaps, dataset, prefix, keep, held) ==> s in snaps
  {
  }

  /** The survivors of a prune are all snapshots, in order, except the oldest matching ones
      beyond the newest `keep`, less those whose destroy fails. */
  lemma SurvivorsAreAllButOldest(snaps: seq<Snap>, dataset: string, prefix: string, keep: nat, held: set<string>)
    requires WellNamed(snaps) && keep > 0
    ensures Pruned(snaps, dataset, prefix, keep, held)
            == Without(snaps, OldestMatching(snaps, dataset, prefix, keep) - held)
  {
    WithoutGoneIsPruned(snaps, dataset, prefix, keep, OldestMatching(snaps, dataset, prefix, keep) - held, held);
  }

  /** A prune that can take a snapshot leaves `keep` newer matching ones. */
  lemma {:induction false} CountPruned(snaps: seq<Snap>, dataset: string, prefix: string, keep: int, held: set<string>)
    requires keep > 0
    ensures var n := Count(snaps, dataset, prefix);
            var n' := Count(Pruned(snaps, dataset, prefix, keep, held), dataset, prefix);
            && n' <= n && (n >= keep ==> n' >= keep) && (n < keep ==> n' == n)
            && (held == {} ==> n' == if n < keep then n else keep)
  {
    if snaps == [] {
    } else {
      CountPruned(snaps[1..], dataset, prefix, keep, held);
      hide Matches, Name;
    }
  }

  /** Pruning again changes nothing. */
  lemma PruneIdempotent(snaps: seq<Snap>, dataset: string, prefix: string, keep: int, held: set<string>)
    ensures var once := Pruned(snaps, dataset, prefix, keep, held);
            Pruned(once, dataset, prefix, keep, held) == once
  {
    if keep <= 0 || snaps == [] {
    } else {
      PruneIdempotent(snaps[1..], dataset, prefix, keep, held);
      CountPruned(snaps[1..], dataset, prefix, keep, held);
      var once, rest := Pruned(snaps, dataset, prefix, keep, held), Pruned(snaps[1..], dataset, prefix, keep, held);
      if !Goes(snaps[0], snaps[1..], dataset, prefix, keep, held) {
        assert once[0] == snaps[0] && once[1..] == rest;
      }
    }
  }

  /** A prune for one prefix leaves the number matching another, when neither extends the other. */
  lemma CountUnaffected(snaps: seq<Snap>, dataset: string, p: string, q: string, keep: int, held: set<string>)
    requires !(p <= q) && !(q <= p)
    ensures Count(Pruned(snaps, dataset, p, keep, held), dataset, q) == Count(snaps, dataset, q)
  {
    if keep <= 0 || snaps == [] {
    } else {
      CountUnaffected(snaps[1..], dataset, p, q, keep, held);
      NotBoth(snaps[0], dataset, p, q);
    }
  }

  lemma NotBoth(s: Snap, dataset: string, p: string, q: string)
    requires !(p <= q) && !(q <= p)
    ensures !(Matches(s, dataset, p) && Matches(s, dataset, q))
  {
    PrefixesCompare(p, q, s.snapName);
  }

  lemma PrefixesCompare(p: string, q: string, s: string)
    ensures p <= s && q <= s ==> p <= q || q <= p
  {
    assert p <= s ==> p == s[..|p|];
    assert q <= s ==> q == s[..|q|];
  }

  /** Prunes of one dataset for two prefixes commute when neither prefix extends the other. */
  lemma {:induction false} PrunesCommute(snaps: seq<Snap>, dataset: string, p: string, q: string, kp: int, kq: int,
                                         held: set<string>)
    requires !(p <= q) && !(q <= p)
    ensures Pruned(Pruned(snaps, dataset, p, kp, held), dataset, q, kq, held)
            == Pruned(Pruned(snaps, dataset, q, kq, held), dataset, p, kp, held)
  {
    if kp <= 0 || kq <= 0 || snaps == [] {
    } else {
      var s0, rest := snaps[0], snaps[1..];
      PrunesCommute(rest, dataset, p, q, kp, kq, held);
      CountUnaffected(rest, dataset, p, q, kp, held);
      CountUnaffected(rest, dataset, q, p, kq, held);
      NotBoth(s0, dataset, p, q);
      PrunedCons(s0, Pruned(rest, dataset, p, kp, held), dataset, q, kq, held);
      PrunedCons(s0, Pruned(rest, dataset, q, kq, held), dataset, p, kp, held);
    }
  }

  lemma PrunedCons(s0: Snap, rest: seq<Snap>, dataset: string, prefix: string, keep: int, held: set<string>)
    requires keep > 0
    ensures Pruned([s0] + rest, dataset, prefix, keep, held)
            == (if Goes(s0, rest, dataset, prefix, keep, held) then [] else [s0])
               + Pruned(rest, dataset, prefix, keep, held)
  {
    assert ([s0] + rest)[1..] == rest;
  }

  /** The snapshots of one dataset, in order. */
  function Own(snaps: seq<Snap>, dataset: string): seq<Snap> {
    if snaps == [] then []
    else (if snaps[0].dataset == dataset then [snaps[0]] else []) + Own(snaps[1..], dataset)
  }

  lemma CountOwn(snaps: seq<Snap>, dataset: string, prefix: string)
    ensures Count(Own(snaps, dataset), dataset, prefix) == Count(snaps, dataset, prefix)
  {
    if snaps == [] {
    } else {
      CountOwn(snaps[1..], dataset, prefix);
      var rest := Own(snaps[1..], dataset);
      if snaps[0].dataset == dataset {
        assert Own(snaps, dataset)[0] == snaps[0] && Own(snaps, dataset)[1..] == rest;
      } else {
        assert Own(snaps, dataset) == rest;
      }
    }
  }

  /** A prune acts on the pruned dataset as if the rest of the listing were not there, and on
      every other dataset, children included, not at all. */
  lemma {:induction false} PruneIsLocal(snaps: seq<Snap>, dataset: string, prefix: string, keep: int,
                                        held: set<string>, other: string)
    ensures Own(Pruned(snaps, dataset, prefix, keep, held), dataset)
            == Pruned(Own(snaps, dataset), dataset, prefix, keep, held)
    ensures other != dataset ==> Own(Pruned(snaps, dataset, prefix, keep, held), other) == Own(snaps, other)
  {
    if keep <= 0 || snaps == [] {
    } else {
      var s0, rest := snaps[0], snaps[1..];
      PruneIsLocal(rest, dataset, prefix, keep, held, other);
      CountOwn(rest, dataset, prefix);
      PrunedCons(s0, Own(rest, dataset), dataset, prefix, keep, held);
      OwnCons(s0, Pruned(rest, dataset, prefix, keep, held), dataset);
      OwnCons(s0, Pruned(rest, dataset, prefix, keep, held), other);
      if s0.dataset == dataset {
        assert Own(snaps, dataset) == [s0] + Own(rest, dataset);
      } else {
        assert Own(snaps, dataset) == Own(rest, dataset);
      }
    }
  }

  lemma OwnCons(s0: Snap, rest: seq<Snap>, dataset: string)
    ensures Own([s0] + rest, dataset) == (if s0.dataset == dataset then [s0] else []) + Own(rest, dataset)
  {
    assert ([s0] + rest)[1..] == rest;
  }

  /** What follows a survivor in a pruned listing is the pruned rest. */
  lemma {:induction false} PrunedTail(snaps: seq<Snap>, i: nat, dataset: string, prefix: string, keep: int,
                                      held: set<string>)
    returns (k: nat)
    requires i < |snaps| && keep > 0 && !Goes(snaps[i], snaps[i + 1..], dataset, prefix, keep, held)
    ensures var left := Pruned(snaps, dataset, prefix, keep, held);
            && k < |left| && left[k] == snaps[i]
            && left[k + 1..] == Pruned(snaps[i + 1..], dataset, prefix, keep, held)
    decreases i
  {
    var left := Pruned(snaps, dataset, prefix, keep, held);
    if i == 0 {
      k := 0;
      assert left[1..] == Pruned(snaps[1..], dataset, prefix, keep, held);
    } else {
      var rest := snaps[1..];
      assert rest[i - 1] == snaps[i] && rest[i..] == snaps[i + 1..];
      var j := PrunedTail(rest, i - 1, dataset, prefix, keep, held);
      var tail := Pruned(rest, dataset, prefix, keep, held);
      if Goes(snaps[0], rest, dataset, prefix, keep, held) {
        k := j;
        assert left == tail;
      } else {
        k := j + 1;
        assert left == [snaps[0]] + tail;
        assert left[k + 1..] == tail[j + 1..];
      }
    }
  }

  /** A prune never leaves more snapshots matching any prefix. */
  lemma CountNeverGrows(snaps: seq<Snap>, dataset: string, prefix: string, keep: int, held: set<string>, other: string)
    ensures Count(Pruned(snaps, dataset, prefix, keep, held), dataset, other) <= Count(snaps, dataset, other)
  {
    if keep <= 0 || snaps == [] {
    } else {
      CountNeverGrows(snaps[1..], dataset, prefix, keep, held, other);
    }
  }

  // ---------- Schedules beside each other ----------

  predicate IsDigit(c: char) {
    '0' <= c <= '9'
  }

  function Digit(c: char): int {
    c as int - '0' as int
  }

  function TwoDigits(s: string, i: nat): int
    requires i + 2 <= |s|
  {
    10 * Digit(s[i]) + Digit(s[i + 1])
  }

  /** A date and time of the calendar in the form 20060102-150405. */
  predicate IsStamp(s: string) {
    HasStampShape(s) &&
    InCalendar(TwoDigits(s, 0), TwoDigits(s, 2), TwoDigits(s, 4), TwoDigits(s, 6),
               TwoDigits(s, 9), TwoDigits(s, 11), TwoDigits(s, 13))
  }

  predicate HasStampShape(s: string) {
    |s| == 15 && s[8] == '-' && forall i :: 0 <= i < 15 && i != 8 ==> IsDigit(s[i])
  }

  /** A date of the calendar and a time of the day. */
  predicate InCalendar(century: int, rest: int, month: int, date: int, hour: int, minute: int, second: int) {
    && 0 <= century < 100 && 0 <= rest < 100
    && 1 <= month <= 12 && 1 <= date <= Calendar.DaysInMonth(100 * century + rest, month) <= 31
    && 0 <= hour < 24 && 0 <= minute < 60 && 0 <= second < 60
  }

  function DigitChar(n: int): char
    requires 0 <= n < 10
  {
    "0123456789"[n]
  }

  function Padded(n: int): string
    requires 0 <= n < 100
  {
    [DigitChar(n / 10), DigitChar(n % 10)]
  }

  /** The stamp of a second of a day. */
  function Stamp(day: int, second: int): string
    requires 0 <= Calendar.YearOf(day) < 10_000 && 0 <= second < 86_400
  {
    Calendar.MonthOfBrackets(day);
    Calendar.DayOfMonth(day);
    var year, month := Calendar.YearOf(day), Calendar.MonthOf(day);
    Digits(year / 100, year % 100, month, day - Calendar.MonthStart(year, month) + 1,
           second / 3_600, second / 60 % 60, second % 60)
  }

  function Digits(century: int, rest: int, month: int, date: int, hour: int, minute: int, second: int): string
    requires 0 <= century < 100 && 0 <= rest < 100 && 0 <= month < 100 && 0 <= date < 100
    requires 0 <= hour < 100 && 0 <= minute < 100 && 0 <= second < 100
  {
    Padded(century) + Padded(rest) + Padded(month) + Padded(date) + "-" + Padded(hour) + Padded(minute) + Padded(second)
  }

  lemma PaddedReads(n: int)
    requires 0 <= n < 100
    ensures |Padded(n)| == 2 && IsDigit(Padded(n)[0]) && IsDigit(Padded(n)[1]) && TwoDigits(Padded(n), 0) == n
  {
    DigitCharReads(n / 10);
    DigitCharReads(n % 10);
    hide DigitChar, Digit;
  }

  lemma DigitCharReads(n: int)
    requires 0 <= n < 10
    ensures IsDigit(DigitChar(n)) && Digit(DigitChar(n)) == n
  {
  }

  lemma DigitsPad(s: string, i: nat)
    requires i + 2 <= |s| && IsDigit(s[i]) && IsDigit(s[i + 1])
    ensures 0 <= TwoDigits(s, i) < 100 && Padded(TwoDigits(s, i)) == s[i..i + 2]
  {
    var a, b, n := Digit(s[i]), Digit(s[i + 1]), TwoDigits(s, i);
    assert n / 10 == a && n % 10 == b;
    assert DigitChar(a) == s[i] && DigitChar(b) == s[i + 1];
  }

  /** The stamps are exactly what the clock prints in the years 0 to 9999. */
  lemma StampsExactly(s: string)
    ensures IsStamp(s) <==>
            exists day, second :: 0 <= Calendar.YearOf(day) < 10_000 && 0 <= second < 86_400 && s == Stamp(day, second)
  {
    forall day, second | 0 <= Calendar.YearOf(day) < 10_000 && 0 <= second < 86_400 && s == Stamp(day, second)
      ensures IsStamp(s)
    {
      StampIsStamp(day, second);
    }
    if IsStamp(s) {
      var day, second := StampIsOf(s);
    }
  }

  lemma DigitsRead(century: int, rest: int, month: int, date: int, hour: int, minute: int, second: int)
    requires 0 <= century < 100 && 0 <= rest < 100 && 0 <= month < 100 && 0 <= date < 100
    requires 0 <= hour < 100 && 0 <= minute < 100 && 0 <= second < 100
    ensures var s := Digits(century, rest, month, date, hour, minute, second);
            && HasStampShape(s)
            && TwoDigits(s, 0) == century && TwoDigits(s, 2) == rest && TwoDigits(s, 4) == month
            && TwoDigits(s, 6) == date && TwoDigits(s, 9) == hour && TwoDigits(s, 11) == minute
            && TwoDigits(s, 13) == second
  {
    PaddedReads(century);
    PaddedReads(rest);
    PaddedReads(month);
    PaddedReads(date);
    PaddedReads(hour);
    PaddedReads(minute);
    PaddedReads(second);
    hide Padded, IsDigit, Digit;
  }

  lemma DigitsOf(s: string)
    requires HasStampShape(s)
    ensures 0 <= TwoDigits(s, 0) < 100 && 0 <= TwoDigits(s, 2) < 100 && 0 <= TwoDigits(s, 4) < 100
    ensures 0 <= TwoDigits(s, 6) < 100 && 0 <= TwoDigits(s, 9) < 100 && 0 <= TwoDigits(s, 11) < 100
    ensures 0 <= TwoDigits(s, 13) < 100
    ensures s == Digits(TwoDigits(s, 0), TwoDigits(s, 2), TwoDigits(s, 4), TwoDigits(s, 6),
                        TwoDigits(s, 9), TwoDigits(s, 11), TwoDigits(s, 13))
  {
    DigitsPad(s, 0);
    DigitsPad(s, 2);
    DigitsPad(s, 4);
    DigitsPad(s, 6);
    DigitsPad(s, 9);
    DigitsPad(s, 11);
    DigitsPad(s, 13);
    hide Padded, TwoDigits, IsDigit;
    assert s == s[0..2] + s[2..4] + s[4..6] + s[6..8] + "-" + s[9..11] + s[11..13] + s[13..15];
  }

  lemma DigitsAreStamp(century: int, rest: int, month: int, date: int, hour: int, minute: int, second: int)
    requires InCalendar(century, rest, month, date, hour, minute, second)
    ensures IsStamp(Digits(century, rest, month, date, hour, minute, second))
  {
    DigitsRead(century, rest, month, date, hour, minute, second);
    hide Digits, TwoDigits, InCalendar, HasStampShape;
  }

  lemma StampIsStamp(day: int, second: int)
    requires 0 <= Calendar.YearOf(day) < 10_000 && 0 <= second < 86_400
    ensures IsStamp(Stamp(day, second))
  {
    Calendar.MonthOfBrackets(day);
    Calendar.DayOfMonth(day);
    hide IsStamp, Digits, Calendar.YearOf, Calendar.MonthOf, Calendar.MonthStart, Calendar.DaysInMonth;
    var year, month := Calendar.YearOf(day), Calendar.MonthOf(day);
    assert 100 * (year / 100) + year % 100 == year;
    DigitsAreStamp(year / 100, year % 100, month, day - Calendar.MonthStart(year, month) + 1,
                   second / 3_600, second / 60 % 60, second % 60);
  }

  lemma StampIsOf(s: string) returns (day: int, second: int)
    requires IsStamp(s)
    ensures 0 <= Calendar.YearOf(day) < 10_000 && 0 <= second < 86_400 && s == Stamp(day, second)
  {
    DigitsOf(s);
    var century, rest, month, date := TwoDigits(s, 0), TwoDigits(s, 2), TwoDigits(s, 4), TwoDigits(s, 6);
    var hour, minute, last := TwoDigits(s, 9), TwoDigits(s, 11), TwoDigits(s, 13);
    hide Digits, TwoDigits, HasStampShape, InCalendar, Stamp;
    day, second := FieldsHaveStamp(century, rest, month, date, hour, minute, last);
  }

  lemma FieldsHaveStamp(century: int, rest: int, month: int, date: int, hour: int, minute: int, last: int)
    returns (day: int, second: int)
    requires InCalendar(century, rest, month, date, hour, minute, last)
    ensures 0 <= Calendar.YearOf(day) < 10_000 && 0 <= second < 86_400
    ensures Stamp(day, second) == Digits(century, rest, month, date, hour, minute, last)
  {
    hide Digits, Calendar.YearOf, Calendar.MonthOf, Calendar.MonthStart, Calendar.DaysInMonth;
    var year := 100 * century + rest;
    day, second := Calendar.MonthStart(year, month) + date - 1, 3_600 * hour + 60 * minute + last;
    Calendar.MonthLength(year, month);
    Calendar.MonthStartsOnce(day, year, month);
    ClockParts(century, rest, hour, minute, last);
    assert day - Calendar.MonthStart(year, month) + 1 == date;
  }

  lemma ClockParts(century: int, rest: int, hour: int, minute: int, last: int)
    requires 0 <= rest < 100 && 0 <= minute < 60 && 0 <= last < 60
    ensures (100 * century + rest) / 100 == century && (100 * century + rest) % 100 == rest
    ensures var second := 3_600 * hour + 60 * minute + last;
            second / 3_600 == hour && second / 60 % 60 == minute && second % 60 == last
  {
    var second := 3_600 * hour + 60 * minute + last;
    assert second / 60 == 60 * hour + minute;
  }

  /** A begun stamp filled up: the first day of the month where the day is open, the 30th where
      it begins with a 3, and midnight where the time is open. */
  function FilledUp(s: string): string
    requires |s| <= 15
  {
    s + if |s| == 7 && s[6] == '3' then "0-000000" else "00000101-000000"[|s|..]
  }

  /** The beginning of a stamp, told by filling it up. */
  predicate BeginsStamp(s: string) {
    |s| <= 15 && IsStamp(FilledUp(s))
  }

  lemma BeginsStampExactly(s: string)
    ensures BeginsStamp(s) <==> exists stamp :: IsStamp(stamp) && s <= stamp
  {
    if BeginsStamp(s) {
      assert s <= FilledUp(s);
    }
    forall stamp | IsStamp(stamp) && s <= stamp
      ensures BeginsStamp(s)
    {
      FilledUpIsStamp(s, stamp);
    }
  }

  lemma FilledUpAt(s: string, stamp: string)
    requires IsStamp(stamp) && s <= stamp
    ensures var filled, open := FilledUp(s), "00000101-000000";
            && |filled| == 15 && filled[8] == '-'
            && (forall i :: 0 <= i < |s| ==> filled[i] == stamp[i])
            && (forall i :: |s| <= i < 15 && !(|s| == i == 7 && s[6] == '3') ==> filled[i] == open[i])
            && (|s| == 7 && s[6] == '3' ==> filled[7] == '0')
            && forall i :: 0 <= i < 15 && i != 8 ==> IsDigit(filled[i])
  {
    var filled, open := FilledUp(s), "00000101-000000";
    assert forall i :: 0 <= i < |s| ==> filled[i] == stamp[i];
    assert forall i :: |s| <= i < 15 ==> filled[i] == if |s| == i == 7 && s[6] == '3' then '0' else open[i];
  }

  lemma FilledUpIsStamp(s: string, stamp: string)
    requires IsStamp(stamp) && s <= stamp
    ensures IsStamp(FilledUp(s))
  {
    FilledUpAt(s, stamp);
    var filled := FilledUp(s);
    hide FilledUp;
    var year, month := 100 * TwoDigits(stamp, 0) + TwoDigits(stamp, 2), TwoDigits(filled, 4);
    assert 1 <= month <= 12;
    assert TwoDigits(filled, 9) < 24 && TwoDigits(filled, 11) < 60 && TwoDigits(filled, 13) < 60;
    if |s| >= 6 {
      assert month == TwoDigits(stamp, 4);
      assert 100 * TwoDigits(filled, 0) + TwoDigits(filled, 2) == year;
      assert 1 <= TwoDigits(filled, 6) <= Calendar.DaysInMonth(year, month);
    } else {
      assert TwoDigits(filled, 6) == 1;
    }
  }

  /** A snapshot as the schedule of a prefix takes it. */
  ghost predicate TakenFor(s: Snap, dataset: string, prefix: string) {
    s.dataset == dataset && exists stamp :: IsStamp(stamp) && s.snapName == prefix + "-" + stamp
  }

  /** A prefix reaches into the labels of another: it begins the other prefix with its dash, or
      continues it into the stamp. */
  predicate Reaches(p: string, q: string) {
    p <= q + "-" || (q + "-" <= p && BeginsStamp(p[|q| + 1..]))
  }

  /** Some label of the other schedule matches exactly when the prefix reaches it. */
  lemma ReachesExactly(p: string, q: string)
    ensures Reaches(p, q) <==> exists stamp :: IsStamp(stamp) && p <= q + "-" + stamp
  {
    var lead := q + "-";
    if p <= lead {
      assert IsStamp("20240101-000000");
      assert p <= lead + "20240101-000000";
    } else {
      forall stamp | IsStamp(stamp) && p <= lead + stamp
        ensures lead <= p && p[|lead|..] <= stamp
      {
        PrefixOfJoin(p, lead, stamp);
      }
      if lead <= p {
        BeginsStampExactly(p[|lead|..]);
        hide BeginsStamp, IsStamp;
        forall stamp | IsStamp(stamp) && p[|lead|..] <= stamp
          ensures p <= lead + stamp
        {
          assert p == lead + p[|lead|..];
        }
      }
    }
  }

  lemma PrefixOfJoin(p: string, a: string, b: string)
    requires p <= a + b
    ensures p <= a || (a <= p && p[|a|..] <= b)
  {
    if |p| <= |a| {
      assert p == a[..|p|];
    } else {
      assert p[..|a|] == a && p[|a|..] == b[..|p| - |a|];
    }
  }

  /** `n` snapshots that match a prefix, with labels longer than `longer`. */
  function Fillers(dataset: string, prefix: string, longer: nat, n: nat): seq<Snap> {
    if n == 0 then []
    else Fillers(dataset, prefix, longer, n - 1) + [Snap(dataset, prefix + seq(longer + n, _ => 's'), map[])]
  }

  lemma {:induction false} FillersMatch(dataset: string, prefix: string, longer: nat, n: nat)
    requires '@' !in prefix
    ensures var f := Fillers(dataset, prefix, longer, n);
            && |f| == n && Count(f, dataset, prefix) == n
            && (forall i :: 0 <= i < n ==> f[i].dataset == dataset && |f[i].snapName| == |prefix| + longer + i + 1)
            && (forall s :: s in f ==> '@' !in s.snapName)
    decreases n
  {
    if n == 0 {
    } else {
      FillersMatch(dataset, prefix, longer, n - 1);
      var f, filler := Fillers(dataset, prefix, longer, n - 1), seq(longer + n, _ => 's');
      assert prefix <= prefix + filler;
      CountAppended(f, Snap(dataset, prefix + filler, map[]), dataset, prefix);
      hide Count, Fillers;
    }
  }

  lemma LongerLabelsDiffer(snaps: seq<Snap>, dataset: string)
    requires forall s :: s in snaps ==> s.dataset == dataset && '@' !in s.snapName
    requires forall i, j :: 0 <= i < j < |snaps| ==> |snaps[i].snapName| < |snaps[j].snapName|
    ensures WellNamed(snaps)
  {
    forall i, j | 0 <= i < j < |snaps|
      ensures Name(snaps[i]) != Name(snaps[j])
    {
      assert snaps[i] in snaps && snaps[j] in snaps;
      assert |Name(snaps[i])| < |Name(snaps[j])|;
    }
  }

  /** No prune for one schedule's prefix ever takes a snapshot of another schedule of the dataset,
      whatever the listing and whichever destroys fail. */
  ghost predicate Spares(dataset: string, p: string, q: string, keep: int) {
    forall snaps: seq<Snap>, held: set<string>, s: Snap ::
      WellNamed(snaps) && s in snaps && TakenFor(s, dataset, q) ==> s in Pruned(snaps, dataset, p, keep, held)
  }

  /** A schedule leaves the snapshots of another schedule of its dataset alone exactly when its
      prefix does not reach the other's labels. */
  lemma SparesExactly(dataset: string, p: string, q: string, keep: int)
    requires keep > 0 && '@' !in p && '@' !in q
    ensures Spares(dataset, p, q, keep) <==> !Reaches(p, q)
  {
    ReachesExactly(p, q);
    hide Reaches, IsStamp;
    if Reaches(p, q) {
      var stamp :| IsStamp(stamp) && p <= q + "-" + stamp;
      TakesOther(dataset, p, q, keep, stamp);
    } else {
      forall snaps: seq<Snap>, held: set<string>, s: Snap | WellNamed(snaps) && s in snaps && TakenFor(s, dataset, q)
        ensures s in Pruned(snaps, dataset, p, keep, held)
      {
        hide Pruned, WellNamed;
        var i :| 0 <= i < |snaps| && snaps[i] == s;
        SurvivesExactly(snaps, i, dataset, p, keep, held);
      }
    }
  }

  /** An old snapshot of the other schedule goes as soon as `keep` newer ones match, whoever took
      them. */
  lemma TakesOther(dataset: string, p: string, q: string, keep: nat, stamp: string)
    requires keep > 0 && '@' !in p && '@' !in q && IsStamp(stamp) && p <= q + "-" + stamp
    ensures !Spares(dataset, p, q, keep)
  {
    var other := Snap(dataset, q + "-" + stamp, map[]);
    var newer := Fillers(dataset, p, |other.snapName|, keep);
    FillersMatch(dataset, p, |other.snapName|, keep);
    assert '@' !in stamp && '@' !in other.snapName;
    assert TakenFor(other, dataset, q);
    hide Fillers, TakenFor, IsStamp;
    GoesFirst(other, newer, dataset, p, keep);
    var snaps := [other] + newer;
    assert other in snaps && other !in Pruned(snaps, dataset, p, keep, {}) && WellNamed(snaps);
  }

  lemma GoesFirst(other: Snap, newer: seq<Snap>, dataset: string, prefix: string, keep: nat)
    requires keep > 0 && Matches(other, dataset, prefix) && '@' !in other.snapName
    requires |newer| == keep == Count(newer, dataset, prefix)
    requires forall i :: 0 <= i < keep ==>
               newer[i].dataset == dataset && |newer[i].snapName| == |prefix| + |other.snapName| + i + 1
    requires forall s :: s in newer ==> '@' !in s.snapName
    ensures WellNamed([other] + newer) && other !in Pruned([other] + newer, dataset, prefix, keep, {})
  {
    hide Count, Pruned;
    var snaps := [other] + newer;
    LongerLabelsDiffer(snaps, dataset);
    hide WellNamed, Matches, Name;
    assert snaps[0] == other && snaps[1..] == newer;
    SurvivesExactly(snaps, 0, dataset, prefix, keep, {});
  }

  /** A schedule with prefix "auto" takes the snapshots of one with "auto-weekly". */
  lemma AutoTakesAutoWeekly(dataset: string, content: Content)
    ensures Reaches("auto", "auto-weekly") && !Reaches("auto-weekly", "auto")
    ensures var weekly := Snap(dataset, "auto-weekly-20250106-000000", content);
            var daily := Snap(dataset, "auto-20250107-000000", content);
            Pruned([weekly, daily], dataset, "auto", 1, {}) == [daily]
  {
    var weekly := Snap(dataset, "auto-weekly-20250106-000000", content);
    var daily := Snap(dataset, "auto-20250107-000000", content);
    assert [weekly, daily][1..] == [daily] && [daily][1..] == [];
    assert "auto" <= weekly.snapName && "auto" <= daily.snapName;
    assert Count([], dataset, "auto") == 0 && Count([daily], dataset, "auto") == 1;
    assert Pruned([], dataset, "auto", 1, {}) == [] && Pruned([daily], dataset, "auto", 1, {}) == [daily];
    assert "auto-" <= "auto-weekly" && "auto-weekly"[5] == 'w' == "auto-weekly"[|"auto"| + 1..][0];
    hide Name;
  }
}
