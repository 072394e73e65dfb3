/** The tree that the dataset listing builds from flat names. */
module DatasetTree {
  import opened GoStrings

  const EMPTY_THRESHOLD := 1_048_576 // below this a dataset counts as without files

  datatype Dataset = Dataset(name: string, shortName: string, parent: string, kind: string,
                             depth: nat, isPool: bool, hasChildren: bool, hasFiles: bool, canDelete: bool)

  /** The position of the separator before the last component; -1 for a pool. */
  function LastSeparator(name: string): (k: int)
    ensures -1 <= k < |name|
    ensures k >= 0 ==> name[k] == '/' || name[k] == '@'
  {
    var at, slash := LastIndex(name, '@'), LastIndex(name, '/');
    if at > slash then at else slash
  }

  function ShortName(name: string): string {
    var at, slash := LastIndex(name, '@'), LastIndex(name, '/');
    if at > slash then "@" + name[at + 1..]
    else if slash >= 0 then name[slash + 1..]
    else name
  }

  function ParentOf(name: string): string {
    var k := LastSeparator(name);
    if k >= 0 then name[..k] else ""
  }

  function Depth(name: string): nat {
    var at, slash := LastIndex(name, '@'), LastIndex(name, '/');
    if at > slash then CountChar(name[..at], '/') + 1 else CountChar(name, '/')
  }

  predicate IsPool(name: string) {
    '/' !in name && '@' !in name
  }

  /** A name lies below another when it continues it after a separator. */
  predicate IsBelow(n: string, name: string) {
    n != name && (name + "/" <= n || name + "@" <= n)
  }

  predicate HasChildren(names: seq<string>, name: string) {
    exists i :: 0 <= i < |names| && IsBelow(names[i], name)
  }

  function Describe(names: seq<string>, f: seq<string>, refer: int): Dataset
    requires |f| >= 2
  {
    var name := f[0];
    var hasFiles := refer >= EMPTY_THRESHOLD;
    Dataset(name, ShortName(name), ParentOf(name), f[1], Depth(name), IsPool(name), HasChildren(names, name),
            hasFiles, !IsPool(name) && !HasChildren(names, name) && !hasFiles && f[1] == "filesystem")
  }

  // ---------- The listing as written ----------

  function ListedNames(lines: seq<string>): seq<string> {
    if lines == [] then []
    else
      var name, rest := Split(lines[0], '\t')[0], ListedNames(lines[1..]);
      if name != "" then [name] + rest else rest
  }

  function ListedDatasets(names: seq<string>, lines: seq<string>, parseInt: string -> int): seq<Dataset> {
    if lines == [] then []
    else
      var f, rest := Split(lines[0], '\t'), ListedDatasets(names, lines[1..], parseInt);
      if lines[0] != "" && |f| >= 6 then [Describe(names, f, parseInt(f[4]))] + rest else rest
  }

  method ScanForChildren(names: seq<string>, name: string) returns (found: bool)
    ensures found == HasChildren(names, name)
  {
    for i := 0 to |names|
      invariant forall k :: 0 <= k < i ==> !IsBelow(names[k], name)
    {
      if IsBelow(names[i], name) { return true; }
    }
    return false;
  }

  method CollectNames(lines: seq<string>) returns (names: seq<string>)
    ensures names == ListedNames(lines)
  {
    hide Split;
    names := [];
    for i := 0 to |lines|
      invariant names + ListedNames(lines[i..]) == ListedNames(lines)
    {
      assert lines[i..][0] == lines[i] && lines[i..][1..] == lines[i + 1..];
      var f := Split(lines[i], '\t');
      if f[0] != "" { names := names + [f[0]]; }
    }
    assert lines[|lines|..] == [];
  }

  method DescribeLine(names: seq<string>, f: seq<string>, refer: int) returns (d: Dataset)
    requires |f| >= 2
    ensures d == Describe(names, f, refer)
  {
    var name := f[0];
    var hasChildren := ScanForChildren(names, name);
    var hasFiles := refer >= EMPTY_THRESHOLD;
    var canDelete := !IsPool(name) && !hasChildren && !hasFiles && f[1] == "filesystem";
    d := Dataset(name, ShortName(name), ParentOf(name), f[1], Depth(name), IsPool(name), hasChildren,
                 hasFiles, canDelete);
  }

  /** The second pass: describe every complete line. */
  method DescribeLines(names: seq<string>, lines: seq<string>, parseInt: string -> int)
    returns (datasets: seq<Dataset>)
    ensures datasets == ListedDatasets(names, lines, parseInt)
  {
    hide Split, Describe;
    datasets := [];
    for i := 0 to |lines|
      invariant datasets + ListedDatasets(names, lines[i..], parseInt) == ListedDatasets(names, lines, parseInt)
    {
      assert lines[i..][0] == lines[i] && lines[i..][1..] == lines[i + 1..];
      var f := Split(lines[i], '\t');
      if lines[i] != "" && |f| >= 6 {
        var dataset := DescribeLine(names, f, parseInt(f[4]));
        ghost var rest := ListedDatasets(names, lines[i + 1..], parseInt);
        assert datasets + ([dataset] + rest) == (datasets + [dataset]) + rest;
        datasets := datasets + [dataset];
      }
    }
    assert lines[|lines|..] == [];
  }

  /** Two passes over the lines: collect the names, then describe the lines. */
  method ListDatasets(lines: seq<string>, parseInt: string -> int) returns (datasets: seq<Dataset>)
    ensures datasets == ListedDatasets(ListedNames(lines), lines, parseInt)
    ensures Proper(lines) ==> FormsTree(datasets)
    ensures AllComplete(lines) ==> ReadsColumns(datasets, lines, parseInt)
  {
    hide Proper, FormsTree, AllComplete, ReadsColumns, ListedNames, ListedDatasets;
    var names := CollectNames(lines);
    datasets := DescribeLines(names, lines, parseInt);
    if Proper(lines) { ListingFormsTree(lines, parseInt); }
    if AllComplete(lines) { ListingReadsColumns(lines, parseInt); }
  }

  // ---------- The names form a tree ----------

  /** ZFS names: at most one at sign, with no slash after it, and no separator in front. */
  predicate WellFormed(name: string) {
    var at := LastIndex(name, '@');
    && name != "" && name[0] != '/' && name[0] != '@'
    && (at >= 0 ==> '@' !in name[..at] && '/' !in name[at + 1..])
  }

  ghost predicate ClosedUnderParents(names: seq<string>) {
    forall n :: n in names ==> ParentOf(n) == "" || ParentOf(n) in names
  }

  /** The k-th ancestor. */
  function Ancestor(name: string, k: nat): string
    decreases k
  {
    if k == 0 then name else Ancestor(ParentOf(name), k - 1)
  }

  lemma LastSeparatorBeyond(n: string, name: string)
    requires IsBelow(n, name)
    ensures LastSeparator(n) >= |name|
    ensures LastSeparator(n) > |name| ==> IsBelow(ParentOf(n), name)
  {
    BelowContinues(n, name);
    LastIndexReaches(n, n[|name|], |name|);
    hide LastIndex, IsBelow;
    var k := LastSeparator(n);
    if k > |name| {
      StaysBelow(n, name, k);
    }
  }

  lemma BelowContinues(n: string, name: string)
    ensures IsBelow(n, name) <==>
              |n| > |name| && n[..|name|] == name && (n[|name|] == '/' || n[|name|] == '@')
  {
    if |n| > |name| {
      assert n[..|name| + 1] == n[..|name|] + [n[|name|]];
      assert name + "/" == name + ['/'] && name + "@" == name + ['@'];
      assert (name + ['/'])[..|name|] == name && (name + ['@'])[..|name|] == name;
    }
  }

  lemma StaysBelow(n: string, name: string, k: nat)
    requires IsBelow(n, name) && |name| < k <= |n|
    ensures IsBelow(n[..k], name)
  {
    BelowContinues(n, name);
    BelowContinues(n[..k], name);
    hide IsBelow;
    assert n[..k][..|name|] == n[..|name|];
  }

  /** Below a name in a listing closed under parents there is a child of it, and the name is an
      ancestor. */
  lemma {:induction false} BelowHasChild(names: seq<string>, n: string, name: string) returns (child: string, k: nat)
    requires ClosedUnderParents(names) && n in names && IsBelow(n, name) && name != ""
    ensures child in names && ParentOf(child) == name
    ensures k > 0 && Ancestor(n, k) == name
    decreases |n|
  {
    LastSeparatorBeyond(n, name);
    var parent := ParentOf(n);
    if LastSeparator(n) == |name| {
      child, k := n, 1;
      assert Ancestor(parent, 0) == parent == name;
    } else {
      child, k := BelowHasChild(names, parent, name);
      k := k + 1;
    }
  }

  lemma ChildIsBelow(n: string)
    requires ParentOf(n) != ""
    ensures IsBelow(n, ParentOf(n))
  {
    hide LastSeparator;
    var k := LastSeparator(n);
    var parent := ParentOf(n);
    assert parent == n[..k] && parent + [n[k]] == n[..k + 1];
    assert n[k] == '/' ==> parent + "/" == parent + [n[k]];
    assert n[k] == '@' ==> parent + "@" == parent + [n[k]];
    assert n[..k + 1] <= n;
  }

  lemma BelowTransitive(a: string, b: string, c: string)
    requires IsBelow(a, b) && IsBelow(b, c)
    ensures IsBelow(a, c)
  {
    assert b <= a;
  }

  lemma {:induction false} AncestorIsAbove(n: string, k: nat)
    requires Ancestor(n, k) != "" && k > 0
    ensures IsBelow(n, Ancestor(n, k))
    decreases k
  {
    var parent := ParentOf(n);
    if parent == "" {
      RootStaysEmpty(k - 1);
    } else {
      ChildIsBelow(n);
      if k == 1 {
      } else {
        AncestorIsAbove(parent, k - 1);
        BelowTransitive(n, parent, Ancestor(n, k));
      }
    }
  }

  lemma RootStaysEmpty(k: nat)
    ensures Ancestor("", k) == ""
  {
  }

  /** The children flag holds exactly when some entry names the dataset as its parent, and
      exactly when some entry has it among its ancestors. */
  lemma HasChildrenExactly(names: seq<string>, name: string)
    requires ClosedUnderParents(names) && name != ""
    ensures HasChildren(names, name) <==> exists n :: n in names && ParentOf(n) == name
    ensures HasChildren(names, name) <==> exists n, k :: n in names && k > 0 && Ancestor(n, k) == name
  {
    if HasChildren(names, name) {
      var i :| 0 <= i < |names| && IsBelow(names[i], name);
      var child, k := BelowHasChild(names, names[i], name);
    }
    forall n, k: nat | n in names && k > 0 && Ancestor(n, k) == name
      ensures HasChildren(names, name)
    {
      AncestorIsAbove(n, k);
    }
    forall n | n in names && ParentOf(n) == name
      ensures HasChildren(names, name)
    {
      ChildIsBelow(n);
    }
  }

  lemma CountConcat(a: string, b: string, c: char)
    ensures CountChar(a + b, c) == CountChar(a, c) + CountChar(b, c)
  {
    if a == "" {
      assert a + b == b;
    } else {
      assert (a + b)[1..] == a[1..] + b;
      CountConcat(a[1..], b, c);
    }
  }

  lemma CountZero(s: string, c: char)
    ensures CountChar(s, c) == 0 <==> c !in s
  {
  }

  /** The parent of a well-formed name is well formed and one level up; names without a parent
      are the pools, at level 0. */
  lemma ParentIsOneUp(name: string)
    requires WellFormed(name)
    ensures IsPool(name) <==> ParentOf(name) == ""
    ensures IsPool(name) <==> Depth(name) == 0
    ensures !IsPool(name) ==> WellFormed(ParentOf(name)) && Depth(name) == Depth(ParentOf(name)) + 1
  {
    var at, slash := LastIndex(name, '@'), LastIndex(name, '/');
    CountZero(name, '/');
    hide LastIndex;
    if at > slash {
      assert '@' !in name[..at];
    } else if slash >= 0 {
      var parent := name[..slash];
      assert name == parent + ("/" + name[slash + 1..]);
      CountConcat(parent, "/" + name[slash + 1..], '/');
      CountZero(name[slash + 1..], '/');
      assert ("/" + name[slash + 1..])[1..] == name[slash + 1..];
      hide CountChar;
    }
  }

  /** Following parents from any listed name reaches a listed pool after exactly its depth. */
  lemma {:induction false} ChainEndsAtPool(names: seq<string>, name: string)
    requires ClosedUnderParents(names) && name in names && WellFormed(name)
    ensures Ancestor(name, Depth(name)) in names && IsPool(Ancestor(name, Depth(name)))
    decreases Depth(name)
  {
    ParentIsOneUp(name);
    if IsPool(name) {
    } else {
      ChainEndsAtPool(names, ParentOf(name));
    }
  }

  /** A name is its parent, the separator and its short name, which has no separator of its own;
      the short name of a snapshot keeps the at sign, and a pool is its own short name. */
  lemma NameIsParentAndShortName(name: string)
    requires WellFormed(name)
    ensures IsPool(name) ==> ShortName(name) == name
    ensures !IsPool(name) ==> name == ParentOf(name) + (if '@' in name then "" else "/") + ShortName(name)
    ensures '/' !in ShortName(name) && '@' !in (if '@' in name then ShortName(name)[1..] else ShortName(name))
  {
    var at, slash := LastIndex(name, '@'), LastIndex(name, '/');
    if at > slash {
      SnapshotName(name, at);
    } else {
      NoAtSign(name);
      PlainName(name, slash);
    }
  }

  lemma PlainName(name: string, slash: int)
    requires '@' !in name && slash == LastIndex(name, '/')
    ensures '@' !in ShortName(name) && '/' !in ShortName(name) && (IsPool(name) ==> ShortName(name) == name)
    ensures !IsPool(name) ==> name == ParentOf(name) + "/" + ShortName(name)
  {
    assert LastIndex(name, '@') == -1;
    hide LastIndex;
    assert IsPool(name) <==> slash < 0;
    if slash < 0 {
      assert ShortName(name) == name;
    } else {
      assert ShortName(name) == name[slash + 1..] && ParentOf(name) == name[..slash];
      hide ShortName, ParentOf, IsPool;
      JoinSlash(name, slash);
    }
  }

  lemma JoinSlash(name: string, slash: nat)
    requires slash < |name| && name[slash] == '/'
    ensures name == name[..slash] + "/" + name[slash + 1..]
  {
  }

  lemma SnapshotName(name: string, at: nat)
    requires WellFormed(name) && at == LastIndex(name, '@') > LastIndex(name, '/')
    ensures '@' in name && ShortName(name) == "@" + name[at + 1..] && name == ParentOf(name) + "" + ShortName(name)
    ensures '/' !in ShortName(name) && '@' !in ShortName(name)[1..]
  {
    hide LastIndex;
    assert ("@" + name[at + 1..])[1..] == name[at + 1..];
    assert name == name[..at] + ("@" + name[at + 1..]) && name[..at] + "" == name[..at];
  }

  /** Behind the at sign of a snapshot comes no slash. */
  lemma NoAtSign(name: string)
    requires WellFormed(name) && LastIndex(name, '@') <= LastIndex(name, '/')
    ensures '@' !in name
  {
    hide LastIndex;
  }

  /** The listing offers a dataset for deletion exactly when it is a small file system that is no
      pool and no listed name descends from it. */
  lemma DeletableExactly(names: seq<string>, f: seq<string>, refer: int)
    requires ClosedUnderParents(names) && |f| >= 2 && f[0] != ""
    ensures Describe(names, f, refer).canDelete <==>
              && f[1] == "filesystem" && refer < 1_048_576 && !IsPool(f[0])
              && forall n, k :: n in names && k > 0 ==> Ancestor(n, k) != f[0]
  {
    HasChildrenExactly(names, f[0]);
    hide Ancestor, HasChildren, IsPool;
  }

  // ---------- The produced listing is that tree ----------

  /** A line with a name and all its columns. */
  predicate Complete(line: string) {
    |Split(line, '\t')| >= 6 && Split(line, '\t')[0] != ""
  }

  ghost predicate AllComplete(lines: seq<string>) {
    forall i :: 0 <= i < |lines| ==> Complete(lines[i])
  }

  /** Each entry has the name, the kind and the size class of its own line. */
  ghost predicate ReadsColumns(datasets: seq<Dataset>, lines: seq<string>, parseInt: string -> int) {
    && |datasets| == |lines|
    && forall i :: 0 <= i < |lines| ==>
         var f, d := Split(lines[i], '\t'), datasets[i];
         |f| >= 6 && d.name == f[0] && d.kind == f[1] && (d.hasFiles <==> parseInt(f[4]) >= 1_048_576)
  }

  lemma ListingReadsColumns(lines: seq<string>, parseInt: string -> int)
    requires AllComplete(lines)
    ensures ReadsColumns(ListedDatasets(ListedNames(lines), lines, parseInt), lines, parseInt)
  {
    var names := ListedNames(lines);
    OneEntryPerLine(names, lines, parseInt);
    hide Split, ListedNames, ListedDatasets, Complete, Describe;
    forall i | 0 <= i < |lines|
      ensures var f, d := Split(lines[i], '\t'), ListedDatasets(names, lines, parseInt)[i];
              |f| >= 6 && d.kind == f[1] && (d.hasFiles <==> parseInt(f[4]) >= 1_048_576)
    {
      DescribeNames(names, Split(lines[i], '\t'), parseInt(Split(lines[i], '\t')[4]));
    }
  }

  /** Output whose lines are complete, with well-formed unique names closed under parents. */
  ghost predicate Proper(lines: seq<string>) {
    var names := ListedNames(lines);
    && AllComplete(lines)
    && (forall n :: n in names ==> WellFormed(n))
    && (forall i, j :: 0 <= i < j < |names| ==> names[i] != names[j])
    && ClosedUnderParents(names)
  }

  /** Of complete lines the listing has one entry each, in order, described by its own line. */
  lemma {:induction false} OneEntryPerLine(names: seq<string>, lines: seq<string>, parseInt: string -> int)
    requires AllComplete(lines)
    ensures var ds := ListedDatasets(names, lines, parseInt);
            && |ds| == |lines| == |ListedNames(lines)|
            && forall i :: 0 <= i < |lines| ==>
                 var f := Split(lines[i], '\t');
                 |f| >= 6 && ListedNames(lines)[i] == f[0] == ds[i].name && ds[i] == Describe(names, f, parseInt(f[4]))
  {
    if lines == [] {
    } else {
      assert Complete(lines[0]);
      assert lines[0] != "" by { hide Describe, Split; EmptyLineIsShort(); }
      hide Split, Describe;
      var rest := lines[1..];
      assert forall i :: 0 <= i < |rest| ==> rest[i] == lines[i + 1];
      OneEntryPerLine(names, rest, parseInt);
      DescribeNames(names, Split(lines[0], '\t'), parseInt(Split(lines[0], '\t')[4]));
    }
  }

  lemma EmptyLineIsShort()
    ensures !Complete("")
  {
  }

  lemma DescribeNames(names: seq<string>, f: seq<string>, refer: int)
    requires |f| >= 2
    ensures var d := Describe(names, f, refer);
            && d.name == f[0] && d.parent == ParentOf(f[0]) && d.depth == Depth(f[0]) && d.isPool == IsPool(f[0])
            && d.hasChildren == HasChildren(names, f[0])
            && d.shortName == ShortName(f[0]) && d.kind == f[1] && (d.hasFiles <==> refer >= 1_048_576)
            && (d.canDelete <==> d.kind == "filesystem" && !d.isPool && !d.hasChildren && !d.hasFiles)
  {
  }

  /** An entry with children is the parent of a listed one, every entry but a pool has its parent
      listed one level up, and nothing listed descends from an entry offered for deletion. */
  ghost predicate EntryInTree(datasets: seq<Dataset>, d: Dataset) {
    && (d.hasChildren <==> exists e :: e in datasets && e.parent == d.name)
    && (d.isPool <==> d.parent == "") && (d.isPool <==> d.depth == 0)
    && (d.parent != "" ==> exists e :: e in datasets && e.name == d.parent && d.depth == e.depth + 1)
    && ComposedName(d)
    && (d.canDelete <==> d.kind == "filesystem" && !d.isPool && !d.hasChildren && !d.hasFiles)
    && (d.canDelete ==> !d.isPool && forall e, k :: e in datasets && k > 0 ==> Ancestor(e.name, k) != d.name)
  }

  /** What the entries of a listing say of each other; names are unique. */
  ghost predicate FormsTree(datasets: seq<Dataset>) {
    && (forall d :: d in datasets ==> EntryInTree(datasets, d))
    && (forall d, e :: d in datasets && e in datasets && d.name == e.name ==> d == e)
  }

  /** Proper output lists as a tree: the flags and depths agree with the entries' parents, and
      nothing listed descends from an entry offered for deletion. */
  lemma ListingFormsTree(lines: seq<string>, parseInt: string -> int)
    requires Proper(lines)
    ensures FormsTree(ListedDatasets(ListedNames(lines), lines, parseInt))
  {
    var names := ListedNames(lines);
    var ds := ListedDatasets(names, lines, parseInt);
    OneEntryPerLine(names, lines, parseInt);
    hide Split, ListedNames, ListedDatasets, Describe, EntryFits, FormsTree, Complete, WellFormed, ClosedUnderParents;
    forall i | 0 <= i < |ds|
      ensures ds[i].name == names[i] && EntryFits(names, ds[i])
    {
      EntryOfLine(names, lines, ds, i, parseInt);
    }
    NamesFormTree(names, ds);
  }

  lemma EntryOfLine(names: seq<string>, lines: seq<string>, ds: seq<Dataset>, i: nat, parseInt: string -> int)
    requires i < |lines| == |ds| == |names| && Complete(lines[i]) && names[i] == Split(lines[i], '\t')[0]
    requires ds[i] == Describe(names, Split(lines[i], '\t'), parseInt(Split(lines[i], '\t')[4]))
    requires WellFormed(names[i]) && ClosedUnderParents(names)
    ensures ds[i].name == names[i] && EntryFits(names, ds[i])
  {
    var f := Split(lines[i], '\t');
    hide Split, Describe, ClosedUnderParents, WellFormed, EntryFits;
    EntryFitsNames(names, f, parseInt(f[4]));
    DescribeNames(names, f, parseInt(f[4]));
  }

  /** A name is the parent's with the short name behind it. */
  ghost predicate ComposedName(d: Dataset) {
    if d.isPool then d.shortName == d.name
    else d.name == d.parent + (if '@' in d.name then "" else "/") + d.shortName
  }

  /** An entry as its name and the listed names determine it. */
  ghost predicate EntryFits(names: seq<string>, d: Dataset) {
    && d.parent == ParentOf(d.name) && d.depth == Depth(d.name)
    && (d.hasChildren <==> exists n :: n in names && ParentOf(n) == d.name)
    && (d.isPool <==> d.parent == "") && (d.isPool <==> d.depth == 0)
    && (!d.isPool ==> d.depth == Depth(d.parent) + 1 && d.parent in names)
    && ComposedName(d)
    && (d.canDelete <==> d.kind == "filesystem" && !d.isPool && !d.hasChildren && !d.hasFiles)
    && (d.canDelete ==> !d.isPool && forall n, k :: n in names && k > 0 ==> Ancestor(n, k) != d.name)
  }

  lemma EntryFitsNames(names: seq<string>, f: seq<string>, refer: int)
    requires |f| >= 6 && f[0] in names && WellFormed(f[0]) && ClosedUnderParents(names)
    ensures EntryFits(names, Describe(names, f, refer))
  {
    DescribeNames(names, f, refer);
    HasChildrenExactly(names, f[0]);
    ParentIsOneUp(f[0]);
    DeletableExactly(names, f, refer);
    DescribeComposes(names, f, refer);
    var d := Describe(names, f, refer);
    hide Describe, WellFormed, Depth, IsPool, HasChildren, Ancestor, ParentOf, ShortName, ComposedName;
    assert d.hasChildren <==> exists n :: n in names && ParentOf(n) == d.name;
    assert d.canDelete ==> forall n, k :: n in names && k > 0 ==> Ancestor(n, k) != d.name;
  }

  lemma DescribeComposes(names: seq<string>, f: seq<string>, refer: int)
    requires |f| >= 2 && WellFormed(f[0])
    ensures ComposedName(Describe(names, f, refer))
  {
    DescribeNames(names, f, refer);
    NameIsParentAndShortName(f[0]);
    hide Describe, ShortName, ParentOf, IsPool, WellFormed;
  }

  /** Every listed name has its entry, and only listed names have. */
  ghost predicate EntriesOf(names: seq<string>, ds: seq<Dataset>) {
    && |ds| == |names| && (forall i :: 0 <= i < |ds| ==> ds[i].name == names[i] && EntryFits(names, ds[i]))
    && (forall i, j :: 0 <= i < j < |names| ==> names[i] != names[j])
  }

  lemma EntryOfName(names: seq<string>, ds: seq<Dataset>, n: string) returns (e: Dataset)
    requires EntriesOf(names, ds) && n in names
    ensures e in ds && e.name == n && EntryFits(names, e)
  {
    hide EntryFits;
    var i :| 0 <= i < |names| && names[i] == n;
    e := ds[i];
  }

  lemma EntryIsListed(names: seq<string>, ds: seq<Dataset>, e: Dataset)
    requires EntriesOf(names, ds) && e in ds
    ensures e.name in names && EntryFits(names, e)
    ensures forall d :: d in ds && d.name == e.name ==> d == e
  {
    hide EntryFits;
    var i :| 0 <= i < |ds| && ds[i] == e;
    assert ds[i].name == names[i];
  }

  lemma NamesFormTree(names: seq<string>, ds: seq<Dataset>)
    requires EntriesOf(names, ds)
    ensures FormsTree(ds)
  {
    hide EntriesOf, EntryFits;
    forall d | d in ds
      ensures EntryInTree(ds, d)
    {
      EntryIsListed(names, ds, d);
      ChildrenListed(names, ds, d);
      ParentListed(names, ds, d);
      NoneListedBelow(names, ds, d);
    }
    forall d, e | d in ds && e in ds && d.name == e.name
      ensures d == e
    {
      EntryIsListed(names, ds, e);
    }
  }

  lemma ChildrenListed(names: seq<string>, ds: seq<Dataset>, d: Dataset)
    requires EntriesOf(names, ds) && EntryFits(names, d)
    ensures d.hasChildren <==> exists e :: e in ds && e.parent == d.name
  {
    hide EntriesOf, ParentOf, Depth, Ancestor;
    if d.hasChildren {
      var n :| n in names && ParentOf(n) == d.name;
      var e := EntryOfName(names, ds, n);
    }
    forall e | e in ds && e.parent == d.name
      ensures d.hasChildren
    {
      EntryIsListed(names, ds, e);
    }
  }

  lemma ParentListed(names: seq<string>, ds: seq<Dataset>, d: Dataset)
    requires EntriesOf(names, ds) && EntryFits(names, d)
    ensures (d.isPool <==> d.parent == "") && (d.isPool <==> d.depth == 0)
    ensures d.parent != "" ==> exists e :: e in ds && e.name == d.parent && d.depth == e.depth + 1
  {
    hide EntriesOf, ParentOf, Depth, Ancestor;
    if d.parent != "" {
      var e := EntryOfName(names, ds, d.parent);
    }
  }

  lemma NoneListedBelow(names: seq<string>, ds: seq<Dataset>, d: Dataset)
    requires EntriesOf(names, ds) && EntryFits(names, d)
    ensures ComposedName(d)
    ensures d.canDelete <==> d.kind == "filesystem" && !d.isPool && !d.hasChildren && !d.hasFiles
    ensures d.canDelete ==> !d.isPool && forall e, k :: e in ds && k > 0 ==> Ancestor(e.name, k) != d.name
  {
    hide EntriesOf, ParentOf, Depth, Ancestor;
    if d.canDelete {
      forall e, k: nat | e in ds && k > 0
        ensures Ancestor(e.name, k) != d.name
      {
        EntryIsListed(names, ds, e);
      }
    }
  }
}
