/** The file manager's recursive copy, over a file system of directories and plain files that it
    changes while it walks. Operations on the paths that are not reliable may fail at any time. */
module FileCopy {
  import opened Collections

  /** A path as its components; the root is the empty path. */
  type Path = seq<string>

  datatype Node = Dir | File(data: string)

  type Tree = map<Path, Node>

  function Parent(p: Path): Path
    requires p != []
  {
    p[..|p| - 1]
  }

  predicate IsDir(t: Tree, p: Path) {
    p in t && t[p].Dir?
  }

  /** The root is a directory and everything else lies in a directory. */
  ghost predicate WellFormed(t: Tree) {
    IsDir(t, []) && forall p :: p in t && p != [] ==> IsDir(t, Parent(p))
  }

  /** Where a new entry can be made. */
  predicate HasPlace(t: Tree, p: Path) {
    p != [] && IsDir(t, Parent(p))
  }

  /** The names in a directory. */
  function Entries(t: Tree, dir: Path): set<string> {
    set p | p in t && |p| == |dir| + 1 && dir <= p :: p[|dir|]
  }

  /** Everything at or below a path. */
  function Subtree(t: Tree, top: Path): set<Path> {
    set p | p in t && top <= p
  }

  /** Neither path lies in the other. */
  ghost predicate Apart(a: Path, b: Path) {
    exists i :: 0 <= i < |a| && i < |b| && a[i] != b[i]
  }

  /** Nothing outside `top` differs. */
  ghost predicate SameOutside(before: Tree, after: Tree, top: Path) {
    forall p: Path :: !(top <= p) ==> (p in after <==> p in before) && (p in before ==> after[p] == before[p])
  }

  /** The counterpart below `src` of a path below `dst`. */
  function Source(p: Path, src: Path, dst: Path): Path
    requires dst <= p
  {
    src + p[|dst|..]
  }

  /** At and below `dst` there is what was at and below `src`, path by path. */
  ghost predicate CopiedTo(before: Tree, after: Tree, src: Path, dst: Path) {
    forall p: Path :: dst <= p ==>
      var q := Source(p, src, dst);
      (p in after <==> q in before) && (p in after ==> after[p] == before[q])
  }

  /** No unreliable path lies at or below the source or the target of a copy. */
  ghost predicate Undisturbed(unreliable: set<Path>, src: Path, dst: Path) {
    forall q :: q in unreliable ==> !(src <= q) && !(dst <= q)
  }

  // ---------- Paths ----------

  lemma PrefixTransitive(a: Path, b: Path, c: Path)
    requires a <= b && b <= c
    ensures a <= c
  {
    assert a == b[..|a|];
  }

  lemma PrefixLength(a: Path, b: Path)
    ensures a <= b && a != b ==> |a| < |b|
  {
    if a <= b && |a| == |b| { assert a == b[..|a|] == b; }
  }

  lemma PrefixOfChild(a: Path, b: Path, n: string)
    ensures a <= b + [n] ==> a <= b || a == b + [n]
  {
    if a <= b + [n] {
      assert a == (b + [n])[..|a|];
      if |a| <= |b| { assert a == b[..|a|]; }
    }
  }

  lemma ApartNotPrefix(a: Path, b: Path, p: Path)
    requires Apart(a, b) && a <= p
    ensures !(b <= p)
  {
    var i :| 0 <= i < |a| && i < |b| && a[i] != b[i];
    assert p[i] == a[i];
  }

  lemma ApartExtends(a: Path, b: Path, x: Path, y: Path)
    requires Apart(a, b) && a <= x && b <= y
    ensures Apart(x, y)
  {
    var i :| 0 <= i < |a| && i < |b| && a[i] != b[i];
    assert x[i] == a[i] && y[i] == b[i];
  }

  lemma {:induction false} NotPrefixesAreApart(a: Path, b: Path)
    requires !(a <= b) && !(b <= a)
    ensures Apart(a, b)
    decreases |a|
  {
    if a[0] != b[0] {
    } else {
      assert a == [a[0]] + a[1..] && b == [a[0]] + b[1..];
      assert !(a[1..] <= b[1..]) && !(b[1..] <= a[1..]);
      NotPrefixesAreApart(a[1..], b[1..]);
      var i :| 0 <= i < |a[1..]| && i < |b[1..]| && a[1..][i] != b[1..][i];
      assert a[i + 1] != b[i + 1];
    }
  }

  /** In a well-formed tree every prefix of a present path is present, a proper one a directory. */
  lemma {:induction false} PrefixPresent(t: Tree, p: Path, q: Path)
    requires WellFormed(t) && p in t && q <= p
    ensures q in t && (|q| < |p| ==> IsDir(t, q))
    decreases |p|
  {
    if |q| < |p| {
      assert q <= Parent(p);
      if q != Parent(p) {
        PrefixPresent(t, Parent(p), q);
      }
    } else {
      assert q == p;
    }
  }

  lemma EntryUndisturbed(unreliable: set<Path>, src: Path, dst: Path, n: string)
    ensures Undisturbed(unreliable, src, dst) ==> Undisturbed(unreliable, src + [n], dst + [n])
  {
    forall q | q in unreliable && (src + [n] <= q || dst + [n] <= q)
      ensures src <= q || dst <= q
    {
      if src + [n] <= q {
        PrefixTransitive(src, src + [n], q);
      } else {
        PrefixTransitive(dst, dst + [n], q);
      }
    }
  }

  // ---------- Copying one directory, entry by entry ----------

  /** A directory copy under way: the entries in `done` are copied, nothing else is there yet. */
  ghost predicate Partial(before: Tree, now: Tree, src: Path, dst: Path, done: set<string>) {
    && SameOutside(before, now, dst)
    && IsDir(now, dst)
    && forall p: Path :: dst <= p && |p| > |dst| ==>
         var q := Source(p, src, dst);
         && (p in now <==> p[|dst|] in done && q in before)
         && (p in now ==> now[p] == before[q])
  }

  lemma PartialStart(before: Tree, src: Path, dst: Path)
    requires WellFormed(before) && dst !in before && HasPlace(before, dst)
    ensures Partial(before, before[dst := Dir], src, dst, {})
    ensures WellFormed(before[dst := Dir])
  {
    forall p: Path | dst <= p && |p| > |dst|
      ensures p !in before
    {
      if p in before {
        PrefixPresent(before, p, dst);
      }
    }
  }

  lemma BelowChild(p: Path, dst: Path, n: string)
    ensures dst + [n] <= p <==> dst <= p && |p| > |dst| && p[|dst|] == n
  {
    if dst <= p && |p| > |dst| && p[|dst|] == n {
      assert p[..|dst| + 1] == dst + [n];
    } else if dst + [n] <= p {
      PrefixTransitive(dst, dst + [n], p);
    }
  }

  /** Copying one more entry leaves the copy under way with one more entry done. */
  lemma PartialStep(before: Tree, mid: Tree, after: Tree, src: Path, dst: Path, done: set<string>, n: string)
    requires Apart(src, dst) && Partial(before, mid, src, dst, done)
    requires SameOutside(mid, after, dst + [n]) && CopiedTo(mid, after, src + [n], dst + [n])
    ensures Partial(before, after, src, dst, done + {n})
  {
    StillOutside(before, mid, after, src, dst, done, n);
    forall p: Path | dst <= p && |p| > |dst|
      ensures var q := Source(p, src, dst);
              && (p in after <==> p[|dst|] in done + {n} && q in before)
              && (p in after ==> after[p] == before[q])
    {
      BelowChild(p, dst, n);
      var q := Source(p, src, dst);
      if p[|dst|] == n {
        assert Source(p, src + [n], dst + [n]) == q;
        assert src <= q;
        ApartNotPrefix(src, dst, q);
      }
    }
    BelowChild(dst, dst, n);
  }

  /** Whatever became of one entry, nothing outside the directory being made has changed. */
  lemma StillOutside(before: Tree, mid: Tree, after: Tree, src: Path, dst: Path, done: set<string>, n: string)
    requires Partial(before, mid, src, dst, done) && SameOutside(mid, after, dst + [n])
    ensures SameOutside(before, after, dst)
  {
    forall p: Path | !(dst <= p)
      ensures (p in after <==> p in before) && (p in before ==> after[p] == before[p])
    {
      BelowChild(p, dst, n);
    }
  }

  lemma PartialEnd(before: Tree, now: Tree, src: Path, dst: Path)
    requires WellFormed(before) && IsDir(before, src) && Partial(before, now, src, dst, Entries(before, src))
    ensures CopiedTo(before, now, src, dst)
  {
    forall p: Path | dst <= p
      ensures var q := Source(p, src, dst);
              (p in now <==> q in before) && (p in now ==> now[p] == before[q])
    {
      var q := Source(p, src, dst);
      if |p| == |dst| {
        assert p == dst && q == src;
      } else if q in before {
        ChildIsEntry(before, src, q);
      }
    }
  }

  /** Whatever lies below a directory lies at or below one of its entries. */
  lemma ChildIsEntry(t: Tree, dir: Path, q: Path)
    requires WellFormed(t) && q in t && dir <= q && |q| > |dir|
    ensures q[|dir|] in Entries(t, dir) && dir + [q[|dir|]] in t
  {
    var child := dir + [q[|dir|]];
    BelowChild(q, dir, q[|dir|]);
    PrefixPresent(t, q, child);
    assert child[|dir|] == q[|dir|];
  }

  /** Changes below `dst` leave a source apart from it as it was. */
  lemma SourceUntouched(before: Tree, now: Tree, src: Path, dst: Path)
    requires Apart(src, dst) && SameOutside(before, now, dst)
    ensures Entries(now, src) == Entries(before, src) && Subtree(now, src) == Subtree(before, src)
    ensures forall p: Path :: src <= p ==> (p in now <==> p in before) && (p in now ==> now[p] == before[p])
  {
    forall p: Path | src <= p
      ensures (p in now <==> p in before) && (p in now ==> now[p] == before[p])
    {
      ApartNotPrefix(src, dst, p);
    }
  }

  lemma ChildSubtreeSmaller(t: Tree, src: Path, n: string)
    requires src in t
    ensures Subtree(t, src + [n]) < Subtree(t, src)
  {
    assert src in Subtree(t, src) && src !in Subtree(t, src + [n]);
    forall p | p in Subtree(t, src + [n])
      ensures p in Subtree(t, src)
    {
      PrefixTransitive(src, src + [n], p);
    }
  }

  /** Writing a file where one is or can be keeps the tree well formed and changes nothing else. */
  lemma WriteFile(t: Tree, p: Path)
    requires WellFormed(t) && (if p in t then t[p].File? else HasPlace(t, p))
    ensures forall data :: WellFormed(t[p := File(data)]) && SameOutside(t, t[p := File(data)], p)
    ensures SameOutside(t, t, p)
    ensures forall d1, d2 :: t[p := File(d1)][p := File(d2)] == t[p := File(d2)]
  {
  }

  class FileSystem {
    var nodes: Tree
    const unreliable: set<Path> // where operations may fail without need

    /** An empty file system: the root alone. */
    constructor (unreliable: set<Path>)
      ensures nodes == map[[] := Dir] && WellFormed(nodes) && this.unreliable == unreliable
    {
      nodes := map[[] := Dir];
      this.unreliable := unreliable;
    }

    /** Whether an operation on a path is let through. */
    method LetsThrough(p: Path) returns (ok: bool)
      ensures p !in unreliable ==> ok
    {
      ok := true;
      if p in unreliable { ok := *; }
    }

    method Mkdir(p: Path) returns (ok: bool)
      modifies this
      ensures ok ==> p !in old(nodes) && HasPlace(old(nodes), p)
      ensures p !in unreliable ==> (ok <==> p !in old(nodes) && p != [] && IsDir(old(nodes), p[..|p| - 1]))
      ensures nodes == if ok then old(nodes)[p := Dir] else old(nodes)
    {
      ok := LetsThrough(p);
      if p in nodes || !HasPlace(nodes, p) { ok := false; }
      if ok { nodes := nodes[p := Dir]; }
    }

    method ReadDir(dir: Path) returns (ok: bool, names: seq<string>)
      ensures ok ==> IsDir(nodes, dir)
      ensures dir !in unreliable ==> (ok <==> IsDir(nodes, dir))
      ensures ok ==> ToSet(names) == Entries(nodes, dir)
      ensures ok ==> forall i, j :: 0 <= i < j < |names| ==> names[i] != names[j]
    {
      names := [];
      ok := LetsThrough(dir);
      if !IsDir(nodes, dir) { ok := false; }
      var left := Entries(nodes, dir);
      while left != {}
        invariant left <= Entries(nodes, dir)
        invariant ToSet(names) == Entries(nodes, dir) - left
        invariant forall i, j :: 0 <= i < j < |names| ==> names[i] != names[j]
        decreases left
      {
        var n := Pick(left);
        assert n !in ToSet(names);
        assert ToSet(names + [n]) == ToSet(names) + {n};
        left := left - {n};
        names := names + [n];
      }
    }

    /** Open the source, create or truncate the target, then copy what the source holds by then;
        a failure in the middle leaves part of it. */
    method CopyFile(src: Path, dst: Path) returns (ok: bool)
      requires WellFormed(nodes)
      modifies this
      ensures WellFormed(nodes)
      ensures ok ==> src in old(nodes) && old(nodes)[src].File? && (dst in old(nodes) ==> old(nodes)[dst].File?)
      ensures ok ==> nodes == old(nodes)[dst := if src == dst then File("") else old(nodes)[src]]
      ensures !ok ==> SameOutside(old(nodes), nodes, dst)
      ensures src !in unreliable && dst !in unreliable ==>
                && (ok <==> src in old(nodes) && old(nodes)[src].File? && CanWrite(old(nodes), dst))
                && (!ok ==> nodes == old(nodes))
    {
      ok := LetsThrough(src);
      var opens := LetsThrough(dst);
      if !opens { ok := false; }
      if !(src in nodes && nodes[src].File?) { ok := false; }
      if IsDir(nodes, dst) || (dst !in nodes && !HasPlace(nodes, dst)) { ok := false; }
      if !ok { return; }
      WriteFile(nodes, dst);
      hide WellFormed, SameOutside;
      nodes := nodes[dst := File("")];
      var data := nodes[src].data;
      var copied := LetsThrough(src);
      var stored := LetsThrough(dst);
      var written: int := *;
      if !(copied && stored) && 0 <= written < |data| {
        nodes := nodes[dst := File(data[..written])];
        ok := false;
      } else {
        nodes := nodes[dst := File(data)];
      }
    }

    /** The recursive copy. On success the tree at `dst` is the tree at `src`, and in every case
        nothing outside `dst` has changed, the source included. */
    method CopyDir(src: Path, dst: Path) returns (ok: bool)
      requires WellFormed(nodes) && (src <= dst ==> dst in nodes || !HasPlace(nodes, dst))
      modifies this
      ensures WellFormed(nodes) && SameOutside(old(nodes), nodes, dst)
      ensures ok ==> dst !in old(nodes) && IsDir(old(nodes), src) && Apart(src, dst)
      ensures ok ==> CopiedTo(old(nodes), nodes, src, dst)
      ensures Undisturbed(unreliable, src, dst) ==>
                (ok <==> && IsDir(old(nodes), src) && dst !in old(nodes)
                         && dst != [] && IsDir(old(nodes), dst[..|dst| - 1]))
      ensures Undisturbed(unreliable, src, dst) && IsDir(old(nodes), src) && !ok ==> nodes == old(nodes)
      decreases Subtree(nodes, src), 0
    {
      ghost var before := nodes;
      ok := Mkdir(dst);
      if !ok { return; }
      PartialStart(before, src, dst);
      var listed, names := ReadDir(src);
      if !listed { return false; }
      ListedSourceIsApart(before, src, dst);
      SourceUntouched(before, nodes, src, dst);
      assert names[..0] == [] && ToSet<string>([]) == {};
      for i := 0 to |names|
        invariant WellFormed(nodes) && Partial(before, nodes, src, dst, ToSet(names[..i]))
      {
        hide *;
        ghost var mid := nodes;
        EntryFacts(before, mid, src, dst, names, i);
        EntryUndisturbed(unreliable, src, dst, names[i]);
        ok := CopyEntry(src + [names[i]], dst + [names[i]]);
        if !ok {
          StillOutside(before, mid, nodes, src, dst, ToSet(names[..i]), names[i]);
          return false;
        }
        EntryDone(before, mid, nodes, src, dst, names, i);
      }
      assert names[..|names|] == names;
      PartialEnd(before, nodes, src, dst);
      return true;
    }

    /** One entry of a directory: a directory by recursion, a file by its content. */
    method CopyEntry(s: Path, d: Path) returns (ok: bool)
      requires WellFormed(nodes) && s in nodes && d !in nodes && HasPlace(nodes, d) && Apart(s, d) && !(s <= d)
      modifies this
      ensures WellFormed(nodes) && SameOutside(old(nodes), nodes, d)
      ensures ok ==> CopiedTo(old(nodes), nodes, s, d)
      ensures Undisturbed(unreliable, s, d) ==> ok
      decreases Subtree(nodes, s), 1
    {
      if nodes[s].Dir? {
        ok := CopyDir(s, d);
      } else {
        FileCopied(nodes, s, d);
        hide CopiedTo, WellFormed, SameOutside;
        ok := CopyFile(s, d);
      }
    }

    /** The copy of a clipboard path: a directory with everything in it, or one file. */
    method CopyPath(src: Path, dst: Path) returns (ok: bool)
      requires WellFormed(nodes) && !EndlessCopy(nodes, src, dst)
      modifies this
      ensures WellFormed(nodes) && SameOutside(old(nodes), nodes, dst)
      ensures ok ==> src in old(nodes)
      ensures ok && dst !in old(nodes) ==> Apart(src, dst) && CopiedTo(old(nodes), nodes, src, dst)
      ensures ok && dst in old(nodes) ==>
                && old(nodes)[src].File? && old(nodes)[dst].File?
                && nodes == old(nodes)[dst := if src == dst then File("") else old(nodes)[src]]
      ensures Undisturbed(unreliable, src, dst) ==>
                (ok <==> && src in old(nodes)
                         && if dst in old(nodes) then old(nodes)[src].File? && old(nodes)[dst].File?
                            else dst != [] && IsDir(old(nodes), dst[..|dst| - 1]))
      ensures Undisturbed(unreliable, src, dst) ==>
                CopyOf(old(nodes), src, dst) == if ok then Some(nodes) else None
      ensures Undisturbed(unreliable, src, dst) && !ok ==> nodes == old(nodes)
    {
      ok := LetsThrough(src);
      if src !in nodes { ok := false; }
      if !ok { return; }
      ghost var before := nodes;
      if nodes[src].Dir? {
        ok := CopyDir(src, dst);
      } else {
        ok := CopyFile(src, dst);
        if ok && dst !in before {
          NewPlaceIsApart(before, src, dst);
          FileCopied(before, src, dst);
        }
      }
      if ok && dst !in before { CopyIsTree(before, nodes, src, dst); }
    }

    /** The paste of copied clipboard paths, one after the other, stopping at the first failure;
        no path may contain the destination. */
    method PasteCopies(paths: seq<Path>, dest: Path) returns (ok: bool)
      requires WellFormed(nodes)
      requires forall i :: 0 <= i < |paths| ==> paths[i] != [] && !(paths[i] <= dest)
      modifies this
      ensures WellFormed(nodes)
      ensures SameElsewhere(old(nodes), nodes, paths, dest, |paths|)
      ensures ok && LandsFresh(old(nodes), paths, dest) ==>
                && Pasted(old(nodes), nodes, paths, dest, |paths|)
                && forall i :: 0 <= i < |paths| ==>
                     CopiedTo(old(nodes), nodes, paths[i], dest + [paths[i][|paths[i]| - 1]])
      ensures LandsFresh(old(nodes), paths, dest) && IsDir(old(nodes), dest) &&
              AllUndisturbed(unreliable, paths, dest) ==>
                ok
      ensures AllUndisturbed(unreliable, paths, dest) ==> PasteOf(old(nodes), paths, dest) == (ok, nodes)
    {
      ghost var before := nodes;
      ok := true;
      assert paths[0..] == paths;
      for i := 0 to |paths|
        invariant ok && WellFormed(nodes) && SameElsewhere(before, nodes, paths, dest, i)
        invariant LandsFresh(before, paths, dest) ==> Pasted(before, nodes, paths, dest, i)
        invariant AllUndisturbed(unreliable, paths, dest) ==>
                    PasteOf(before, paths, dest) == PasteOf(nodes, paths[i..], dest)
      {
        hide WellFormed, SameOutside, SameElsewhere, CopiedTo, Apart, CopyOf, PasteOf;
        var src := paths[i];
        var target := Landing(src, dest);
        NotEndless(nodes, src, dest);
        ghost var now := nodes;
        ok := CopyPath(src, target);
        ElsewhereGoesOn(before, now, nodes, paths, dest, i);
        PasteOfNext(now, paths, dest, i);
        if LandsFresh(before, paths, dest) && IsDir(before, dest) {
          PasteIsPossible(before, now, paths, dest, i);
        }
        if !ok { return; }
        if LandsFresh(before, paths, dest) {
          LandingStillFree(before, now, paths, dest, i);
          PastedStep(before, now, nodes, paths, dest, i);
        }
      }
      assert paths[|paths|..] == [];
      return true;
    }
  }

  /** The tree with a copy of everything at and below `src` at a new place. */
  ghost function CopiedTree(t: Tree, src: Path, dst: Path): Tree {
    map p | p in t.Keys + (set q | q in t && src <= q :: dst + q[|src|..]) &&
            (if dst <= p then Source(p, src, dst) in t else p in t) ::
      if dst <= p then t[Source(p, src, dst)] else t[p]
  }

  /** What a copy that meets no failure makes of the file system, if it is possible: onto an
      existing path only from file to file. */
  ghost function CopyOf(t: Tree, src: Path, dst: Path): Option<Tree> {
    if src !in t then None
    else if dst in t then
      if t[src].File? && t[dst].File? then Some(t[dst := if src == dst then File("") else t[src]]) else None
    else if dst != [] && IsDir(t, dst[..|dst| - 1]) then Some(CopiedTree(t, src, dst))
    else None
  }

  /** What a paste that meets no failure does: copies in order, up to the first impossible one. */
  ghost function PasteOf(t: Tree, paths: seq<Path>, dest: Path): (bool, Tree)
    requires forall i :: 0 <= i < |paths| ==> paths[i] != []
    decreases |paths|
  {
    if paths == [] then (true, t)
    else
      match CopyOf(t, paths[0], dest + [paths[0][|paths[0]| - 1]])
      case None => (false, t)
      case Some(copied) => PasteOf(copied, paths[1..], dest)
  }

  lemma PasteOfNext(t: Tree, paths: seq<Path>, dest: Path, i: nat)
    requires i < |paths| && forall k :: 0 <= k < |paths| ==> paths[k] != []
    ensures PasteOf(t, paths[i..], dest)
            == match CopyOf(t, paths[i], Landing(paths[i], dest))
               case None => (false, t)
               case Some(copied) => PasteOf(copied, paths[i + 1..], dest)
  {
    assert paths[i..][1..] == paths[i + 1..];
  }

  lemma CopyIsTree(before: Tree, after: Tree, src: Path, dst: Path)
    requires CopiedTo(before, after, src, dst) && SameOutside(before, after, dst)
    ensures after == CopiedTree(before, src, dst)
  {
    var copied := CopiedTree(before, src, dst);
    forall p: Path | dst <= p
      ensures (p in after <==> p in copied) && (p in after ==> after[p] == copied[p])
    {
      var q := Source(p, src, dst);
      if q in before {
        assert src <= q && p == dst + q[|src|..];
      }
    }
    forall p: Path | !(dst <= p)
      ensures (p in after <==> p in copied) && (p in after ==> after[p] == copied[p])
    {
    }
    assert forall p: Path :: p in after <==> p in copied;
  }

  ghost predicate AllUndisturbed(unreliable: set<Path>, paths: seq<Path>, dest: Path) {
    forall i :: 0 <= i < |paths| && paths[i] != [] ==>
      Undisturbed(unreliable, paths[i], dest + [paths[i][|paths[i]| - 1]])
  }

  /** Where a file is or can be. */
  predicate CanWrite(t: Tree, p: Path) {
    if p in t then t[p].File? else p != [] && IsDir(t, p[..|p| - 1])
  }

  function Base(p: Path): string
    requires p != []
  {
    p[|p| - 1]
  }

  /** Where a pasted path goes. */
  function Landing(p: Path, dest: Path): Path
    requires p != []
  {
    dest + [Base(p)]
  }

  /** A path lands in the destination under its own last name. */
  lemma LandingIsInside(dir: Path, n: string, dest: Path)
    ensures Landing(dir + [n], dest) == dest + [n]
  {
  }

  /** The clipboard paths are there and land on distinct new places. */
  ghost predicate LandsFresh(t: Tree, paths: seq<Path>, dest: Path) {
    && (forall i :: 0 <= i < |paths| ==> paths[i] != [] && paths[i] in t && Landing(paths[i], dest) !in t)
    && (forall i, j :: 0 <= i < j < |paths| ==>
          paths[i] != [] && paths[j] != [] && Base(paths[i]) != Base(paths[j]))
  }

  /** The first `n` clipboard paths are pasted, as they were before the paste. */
  ghost predicate Pasted(before: Tree, now: Tree, paths: seq<Path>, dest: Path, n: nat) {
    && n <= |paths|
    && (forall i :: 0 <= i < |paths| ==> paths[i] != [])
    && (forall i :: 0 <= i < n ==> CopiedTo(before, now, paths[i], Landing(paths[i], dest)))
    && SameElsewhere(before, now, paths, dest, n)
  }

  /** Nothing outside the first `n` landings has changed. */
  ghost predicate SameElsewhere(before: Tree, now: Tree, paths: seq<Path>, dest: Path, n: nat) {
    forall p: Path :: Elsewhere(p, paths, dest, n) ==>
      (p in now <==> p in before) && (p in now ==> now[p] == before[p])
  }

  /** A path outside the first `n` landings. */
  ghost predicate Elsewhere(p: Path, paths: seq<Path>, dest: Path, n: nat) {
    forall i :: 0 <= i < n && i < |paths| && paths[i] != [] ==> !(Landing(paths[i], dest) <= p)
  }

  lemma SourceApartFromLanding(t: Tree, src: Path, p: Path, dest: Path)
    requires WellFormed(t) && src in t && p != [] && Landing(p, dest) !in t && !(src <= dest)
    ensures Apart(src, Landing(p, dest))
  {
    var to := Landing(p, dest);
    if to <= src { PrefixPresent(t, src, to); }
    PrefixOfChild(src, dest, Base(p));
    NotPrefixesAreApart(src, to);
  }

  /** The path pasted last is what its source was before the paste began. */
  lemma PastedLast(before: Tree, now: Tree, after: Tree, paths: seq<Path>, dest: Path, n: nat)
    requires n < |paths| && LandsFresh(before, paths, dest) && Pasted(before, now, paths, dest, n)
    requires WellFormed(before) && !(paths[n] <= dest)
    requires CopiedTo(now, after, paths[n], Landing(paths[n], dest))
    ensures CopiedTo(before, after, paths[n], Landing(paths[n], dest))
  {
    var src, to := paths[n], Landing(paths[n], dest);
    forall p: Path | to <= p
      ensures var q := Source(p, src, to);
              (p in after <==> q in before) && (p in after ==> after[p] == before[q])
    {
      var q := Source(p, src, to);
      assert src <= q;
      forall i | 0 <= i < n
        ensures !(Landing(paths[i], dest) <= q)
      {
        SourceApartFromLanding(before, src, paths[i], dest);
        ApartNotPrefix(src, Landing(paths[i], dest), q);
      }
    }
  }

  lemma LandingsApart(a: Path, b: Path, dest: Path)
    requires a != [] && b != [] && Base(a) != Base(b)
    ensures Apart(Landing(a, dest), Landing(b, dest))
  {
    assert Landing(a, dest)[|dest|] != Landing(b, dest)[|dest|];
  }

  /** A copy apart from a pasted one leaves it pasted. */
  lemma CopiedStays(before: Tree, now: Tree, after: Tree, src: Path, dst: Path, other: Path)
    requires CopiedTo(before, now, src, dst) && SameOutside(now, after, other) && Apart(dst, other)
    ensures CopiedTo(before, after, src, dst)
  {
    forall p: Path | dst <= p
      ensures (p in after <==> p in now) && (p in now ==> after[p] == now[p])
    {
      ApartNotPrefix(dst, other, p);
    }
  }

  lemma ElsewhereGoesOn(before: Tree, now: Tree, after: Tree, paths: seq<Path>, dest: Path, n: nat)
    requires n < |paths| && paths[n] != [] && SameElsewhere(before, now, paths, dest, n)
    requires SameOutside(now, after, Landing(paths[n], dest))
    ensures SameElsewhere(before, after, paths, dest, n + 1)
    ensures SameElsewhere(before, after, paths, dest, |paths|)
  {
    forall p: Path | Elsewhere(p, paths, dest, n + 1)
      ensures (p in after <==> p in before) && (p in after ==> after[p] == before[p])
    {
      assert Elsewhere(p, paths, dest, n);
    }
    assert forall p: Path :: Elsewhere(p, paths, dest, |paths|) ==> Elsewhere(p, paths, dest, n + 1);
  }

  /** One more path pasted: its source is still what it was, and the earlier ones stay pasted. */
  lemma PastedStep(before: Tree, now: Tree, after: Tree, paths: seq<Path>, dest: Path, n: nat)
    requires n < |paths| && LandsFresh(before, paths, dest) && Pasted(before, now, paths, dest, n)
    requires WellFormed(before) && !(paths[n] <= dest)
    requires var to := Landing(paths[n], dest);
             SameOutside(now, after, to) && CopiedTo(now, after, paths[n], to)
    ensures Pasted(before, after, paths, dest, n + 1)
  {
    hide LandsFresh, WellFormed, Elsewhere, CopiedTo, SameOutside;
    PastedLast(before, now, after, paths, dest, n);
    PastedEarlier(before, now, after, paths, dest, n);
    ElsewhereGoesOn(before, now, after, paths, dest, n);
    hide SameElsewhere;
  }

  lemma PastedEarlier(before: Tree, now: Tree, after: Tree, paths: seq<Path>, dest: Path, n: nat)
    requires n < |paths| && LandsFresh(before, paths, dest) && Pasted(before, now, paths, dest, n)
    requires SameOutside(now, after, Landing(paths[n], dest))
    ensures forall i :: 0 <= i < n ==> CopiedTo(before, after, paths[i], Landing(paths[i], dest))
  {
    hide CopiedTo, Elsewhere, SameOutside;
    forall i | 0 <= i < n
      ensures CopiedTo(before, after, paths[i], Landing(paths[i], dest))
    {
      LandingsApart(paths[i], paths[n], dest);
      CopiedStays(before, now, after, paths[i], Landing(paths[i], dest), Landing(paths[n], dest));
    }
  }

  lemma LandingStillFree(before: Tree, now: Tree, paths: seq<Path>, dest: Path, n: nat)
    requires n < |paths| && LandsFresh(before, paths, dest) && Pasted(before, now, paths, dest, n)
    ensures Landing(paths[n], dest) !in now
  {
    var to := Landing(paths[n], dest);
    forall i | 0 <= i < n
      ensures !(Landing(paths[i], dest) <= to)
    {
      assert Landing(paths[i], dest)[|dest|] != to[|dest|];
    }
  }

  /** When its turn comes a clipboard path is still there and the destination a directory. */
  lemma PasteIsPossible(before: Tree, now: Tree, paths: seq<Path>, dest: Path, n: nat)
    requires n < |paths| && WellFormed(before) && LandsFresh(before, paths, dest) && IsDir(before, dest)
    requires Pasted(before, now, paths, dest, n) && !(paths[n] <= dest)
    ensures var to := Landing(paths[n], dest);
            paths[n] in now && to !in now && to != [] && IsDir(now, to[..|to| - 1])
  {
    var src, to := paths[n], Landing(paths[n], dest);
    LandingStillFree(before, now, paths, dest, n);
    assert to[..|to| - 1] == dest;
    forall i | 0 <= i < n
      ensures !(Landing(paths[i], dest) <= src) && !(Landing(paths[i], dest) <= dest)
    {
      SourceApartFromLanding(before, src, paths[i], dest);
      ApartNotPrefix(src, Landing(paths[i], dest), src);
    }
    assert Elsewhere(src, paths, dest, n) && Elsewhere(dest, paths, dest, n);
  }

  lemma NotEndless(t: Tree, src: Path, dest: Path)
    requires WellFormed(t) && src != [] && !(src <= dest)
    ensures !EndlessCopy(t, src, Landing(src, dest))
  {
    PrefixOfChild(src, dest, Base(src));
  }

  /** The one case in which the copy does not end: a directory copied to a new place inside
      itself. */
  predicate EndlessCopy(t: Tree, src: Path, dst: Path) {
    IsDir(t, src) && src <= dst && dst !in t && HasPlace(t, dst)
  }

  /** A present source that does not contain a missing target is apart from it. */
  lemma NewPlaceIsApart(t: Tree, src: Path, dst: Path)
    requires WellFormed(t) && src in t && dst !in t && (t[src].File? || !(src <= dst)) && HasPlace(t, dst)
    ensures Apart(src, dst)
  {
    AboveNewPlaceIsDir(t, src, dst);
    if dst <= src { PrefixPresent(t, src, dst); }
    NotPrefixesAreApart(src, dst);
  }

  lemma AboveNewPlaceIsDir(t: Tree, src: Path, dst: Path)
    requires WellFormed(t) && src in t && dst !in t && HasPlace(t, dst)
    ensures src <= dst ==> IsDir(t, src)
  {
    if src <= dst {
      var parent := Parent(dst);
      assert src == dst[..|src|] && dst == dst[..|dst|];
      assert src == parent[..|src|];
      PrefixPresent(t, parent, src);
      if |src| == |parent| { assert src == parent; }
    }
  }

  lemma ListedSourceIsApart(before: Tree, src: Path, dst: Path)
    requires WellFormed(before) && dst !in before && HasPlace(before, dst) && !(src <= dst)
    requires IsDir(before[dst := Dir], src)
    ensures IsDir(before, src) && Apart(src, dst)
  {
    NewPlaceIsApart(before, src, dst);
  }

  lemma EntryIsChild(t: Tree, dir: Path, n: string)
    requires n in Entries(t, dir)
    ensures dir + [n] in t
  {
    var p :| p in t && |p| == |dir| + 1 && dir <= p && p[|dir|] == n;
    assert p == dir + [n];
  }

  /** What holds of an entry when its turn comes. */
  lemma EntryFacts(before: Tree, mid: Tree, src: Path, dst: Path, names: seq<string>, i: nat)
    requires i < |names| && Apart(src, dst) && WellFormed(before) && IsDir(before, src)
    requires Partial(before, mid, src, dst, ToSet(names[..i])) && ToSet(names) == Entries(before, src)
    requires forall i, j :: 0 <= i < j < |names| ==> names[i] != names[j]
    ensures var s, d := src + [names[i]], dst + [names[i]];
            && names[i] !in ToSet(names[..i])
            && s in mid && d !in mid && HasPlace(mid, d) && !(s <= d) && Apart(s, d)
            && Subtree(mid, s) < Subtree(before, src)
  {
    var n := names[i];
    var s, d := src + [n], dst + [n];
    EntryIsChild(before, src, n);
    ApartNotPrefix(src, dst, src);
    SourceUntouched(before, mid, src, dst);
    ChildSubtreeSmaller(mid, src, n);
    ApartExtends(src, dst, s, d);
    if s <= d { ApartNotPrefix(s, d, d); }
    assert Parent(d) == dst;
    assert d[|dst|] == n;
  }

  lemma EntryDone(before: Tree, mid: Tree, after: Tree, src: Path, dst: Path, names: seq<string>, i: nat)
    requires i < |names| && Apart(src, dst) && Partial(before, mid, src, dst, ToSet(names[..i]))
    requires SameOutside(mid, after, dst + [names[i]]) && CopiedTo(mid, after, src + [names[i]], dst + [names[i]])
    ensures Partial(before, after, src, dst, ToSet(names[..i + 1]))
  {
    PartialStep(before, mid, after, src, dst, ToSet(names[..i]), names[i]);
    hide Partial;
    assert names[..i + 1] == names[..i] + [names[i]];
    assert ToSet(names[..i + 1]) == ToSet(names[..i]) + {names[i]};
  }

  lemma FileCopied(t: Tree, s: Path, d: Path)
    requires WellFormed(t) && s in t && t[s].File? && d !in t
    ensures CopiedTo(t, t[d := t[s]], s, d)
  {
    forall p: Path | d <= p
      ensures var q, u := Source(p, s, d), t[d := t[s]];
              (p in u <==> q in t) && (p in u ==> u[p] == t[q])
    {
      var q := Source(p, s, d);
      if p == d {
        assert q == s;
      } else {
        if p in t { PrefixPresent(t, p, d); }
        if q in t { PrefixPresent(t, q, s); }
      }
    }
  }

  // ---------- The copy that does not end ----------

  /** Once a copy of a directory into itself has made its target, whatever the loop does to the
      target's other entries, `now` is what the entry leading to the target finds. */
  ghost predicate ReachesNested(made: Tree, now: Tree, dst: Path, n: string) {
    && WellFormed(now) && IsDir(now, dst) && dst + [n] !in now
    && SameOutside(made, now, dst)
  }

  /** The copy makes its target and, through the entry that leads there, calls itself `depth`
      levels deep without any of these calls being able to end first. */
  ghost predicate Nests(t: Tree, src: Path, dst: Path, depth: nat)
    decreases depth
  {
    depth > 0 ==>
      && dst !in t && HasPlace(t, dst) && src <= dst && |src| < |dst|
      && var made, n := t[dst := Dir], dst[|src|];
         && n in Entries(made, src) && IsDir(made, src + [n])
         && forall now: Tree :: ReachesNested(made, now, dst, n) ==> Nests(now, src + [n], dst + [n], depth - 1)
  }

  /** In the excluded case the copy nests beyond every depth, so only a failing operation stops
      it: the copy ends by itself exactly when the target is not a new place inside the source. */
  lemma {:induction false} EndlessCopyNests(t: Tree, src: Path, dst: Path, depth: nat)
    requires WellFormed(t) && EndlessCopy(t, src, dst)
    ensures Nests(t, src, dst, depth)
    decreases depth
  {
    if depth == 0 {
    } else {
      PrefixLength(src, dst);
      var made, n := t[dst := Dir], dst[|src|];
      PartialStart(t, src, dst);
      ChildIsEntry(made, src, dst);
      var s, d := src + [n], dst + [n];
      BelowChild(dst, src, n);
      PrefixPresent(made, dst, s);
      if |s| == |dst| { assert s == dst[..|s|] == dst; }
      forall now: Tree | ReachesNested(made, now, dst, n)
        ensures Nests(now, s, d, depth - 1)
      {
        assert Parent(d) == dst;
        PrefixPresent(now, dst, s);
        PrefixTransitive(s, dst, d);
        if s == dst {
          assert IsDir(now, s);
        }
        EndlessCopyNests(now, s, d, depth - 1);
      }
    }
  }
}
