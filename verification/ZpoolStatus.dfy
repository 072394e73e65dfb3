/** The line machine that reads `zpool status`. */
module ZpoolStatus {
  import opened GoStrings
  import opened Collections

  datatype Vdev = Vdev(name: string, state: string, read: string, write: string, cksum: string,
                       indentPx: nat, healthy: bool)

  datatype Pool = Pool(name: string, state: string, status: string, action: string, scan: string,
                       errors: string, vdevs: seq<Vdev>, healthy: bool)

  /** Pools read so far, the pool being read, and where in its config section the machine is. */
  datatype Reader = Reader(pools: seq<Pool>, cur: Option<Pool>, inConfig: bool, headerSeen: bool)

  const START := Reader([], None, false, false)

  /** The text after a key. */
  function After(t: string, key: string): string {
    TrimSpace(TrimPrefix(t, key))
  }

  function NewPool(t: string): Pool {
    Pool(After(t, "pool:"), "", "", "", "", "", [], false)
  }

  predicate IsPoolLine(line: string) {
    "pool:" <= TrimSpace(line)
  }

  /** A row of the config tree; two spaces of indentation make one level. */
  function ReadVdev(line: string): Option<Vdev> {
    var f := Fields(TrimSpace(line));
    if f == [] then None
    else
      var state := if |f| >= 2 then f[1] else "";
      var counted := |f| >= 5;
      Some(Vdev(f[0], state, if counted then f[2] else "", if counted then f[3] else "",
                if counted then f[4] else "", Indent(TrimPrefix(line, "\t")) / 2 * 16, state == "ONLINE"))
  }

  function Flush(r: Reader): Reader {
    if r.cur.Some? then r.(pools := r.pools + [r.cur.value], cur := None) else r
  }

  /** One line inside a pool. */
  function ReadInPool(r: Reader, p: Pool, line: string): Reader {
    var t := TrimSpace(line);
    if "state:" <= t then
      var state := After(t, "state:");
      r.(cur := Some(p.(state := state, healthy := state == "ONLINE")))
    else if "status:" <= t then r.(cur := Some(p.(status := After(t, "status:"))))
    else if "action:" <= t then r.(cur := Some(p.(action := After(t, "action:"))))
    else if "scan:" <= t then r.(cur := Some(p.(scan := After(t, "scan:"))))
    else if "errors:" <= t then r.(cur := Some(p.(errors := After(t, "errors:"))), inConfig := false)
    else if "config:" <= t then r.(inConfig := true, headerSeen := false)
    else if !r.inConfig || t == "" then r
    else if !r.headerSeen then (if "NAME" <= t then r.(headerSeen := true) else r)
    else
      match ReadVdev(line)
      case None => r
      case Some(v) => r.(cur := Some(p.(vdevs := p.vdevs + [v])))
  }

  function ReadLine(r: Reader, line: string): Reader {
    if IsPoolLine(line) then
      Flush(r).(cur := Some(NewPool(TrimSpace(line))), inConfig := false, headerSeen := false)
    else if r.cur.None? then r
    else ReadInPool(r, r.cur.value, line)
  }

  function ReadLines(r: Reader, lines: seq<string>): Reader
    decreases |lines|
  {
    if lines == [] then r else ReadLines(ReadLine(r, lines[0]), lines[1..])
  }

  function Parse(lines: seq<string>): seq<Pool> {
    Flush(ReadLines(START, lines)).pools
  }

  /** The parser as written, one loop over the lines. */
  method ParseZpoolStatus(lines: seq<string>) returns (pools: seq<Pool>)
    ensures pools == Parse(lines)
  {
    pools := [];
    var cur: Option<Pool> := None;
    var inConfig, headerSeen := false, false;
    for i := 0 to |lines|
      invariant ReadLines(Reader(pools, cur, inConfig, headerSeen), lines[i..]) == ReadLines(START, lines)
    {
      hide TrimSpace, Fields, Indent;
      assert lines[i..][0] == lines[i] && lines[i..][1..] == lines[i + 1..];
      var line := lines[i];
      var t := TrimSpace(line);
      if "pool:" <= t {
        if cur.Some? { pools := pools + [cur.value]; }
        cur := Some(NewPool(t));
        inConfig, headerSeen := false, false;
      } else if cur.Some? {
        var p := cur.value;
        if "state:" <= t {
          var state := TrimSpace(TrimPrefix(t, "state:"));
          cur := Some(p.(state := state, healthy := state == "ONLINE"));
        } else if "status:" <= t {
          cur := Some(p.(status := TrimSpace(TrimPrefix(t, "status:"))));
        } else if "action:" <= t {
          cur := Some(p.(action := TrimSpace(TrimPrefix(t, "action:"))));
        } else if "scan:" <= t {
          cur := Some(p.(scan := TrimSpace(TrimPrefix(t, "scan:"))));
        } else if "errors:" <= t {
          cur := Some(p.(errors := TrimSpace(TrimPrefix(t, "errors:"))));
          inConfig := false;
        } else if "config:" <= t {
          inConfig, headerSeen := true, false;
        } else if inConfig && t != "" {
          if !headerSeen {
            if "NAME" <= t { headerSeen := true; }
          } else {
            var row := ReadVdev(line);
            if row.Some? { cur := Some(p.(vdevs := p.vdevs + [row.value])); }
          }
        }
      }
    }
    assert lines[|lines|..] == [];
    if cur.Some? { pools := pools + [cur.value]; }
  }

  // ---------- Composition ----------

  /** Pools already read never influence how the machine goes on. */
  lemma {:induction false} EarlierPoolsDoNotMatter(r: Reader, earlier: seq<Pool>, lines: seq<string>)
    ensures var more := r.(pools := earlier + r.pools);
            ReadLines(more, lines) == ReadLines(r, lines).(pools := earlier + ReadLines(r, lines).pools)
    decreases |lines|
  {
    if lines == [] {
    } else {
      var more := r.(pools := earlier + r.pools);
      var next := ReadLine(r, lines[0]);
      assert ReadLine(more, lines[0]) == next.(pools := earlier + next.pools) by {
        hide TrimSpace, After, ReadVdev;
        if r.cur.Some? {
          assert earlier + r.pools + [r.cur.value] == earlier + (r.pools + [r.cur.value]);
        }
      }
      hide ReadLine;
      EarlierPoolsDoNotMatter(next, earlier, lines[1..]);
    }
  }

  lemma {:induction false} ReadLinesConcat(r: Reader, a: seq<string>, b: seq<string>)
    ensures ReadLines(r, a + b) == ReadLines(ReadLines(r, a), b)
    decreases |a|
  {
    hide ReadLine;
    if a == [] {
      assert a + b == b;
    } else {
      assert (a + b)[0] == a[0] && (a + b)[1..] == a[1..] + b;
      ReadLinesConcat(ReadLine(r, a[0]), a[1..], b);
    }
  }

  /** Output split before a pool line parses to the pools of the parts: nothing a part says about
      its pools reaches the pools of another. */
  lemma {:induction false} ParseComposes(a: seq<string>, b: seq<string>)
    requires b == [] || IsPoolLine(b[0])
    ensures Parse(a + b) == Parse(a) + Parse(b)
  {
    ReadLinesConcat(START, a, b);
    var r := ReadLines(START, a);
    if b != [] {
      var fromStart := ReadLine(START, b[0]);
      var earlier := Flush(r).pools;
      EarlierPoolsDoNotMatter(fromStart, earlier, b[1..]);
      assert ReadLine(r, b[0]) == fromStart.(pools := earlier + fromStart.pools);
      var end := ReadLines(fromStart, b[1..]);
      hide ReadLine, ReadLines;
      assert ReadLines(r, b) == end.(pools := earlier + end.pools);
    }
  }

  function PoolLines(lines: seq<string>): nat {
    if lines == [] then 0 else (if IsPoolLine(lines[0]) then 1 else 0) + PoolLines(lines[1..])
  }

  lemma {:induction false} PoolsCounted(r: Reader, lines: seq<string>)
    ensures |Flush(ReadLines(r, lines)).pools| == |Flush(r).pools| + PoolLines(lines)
    decreases |lines|
  {
    if lines == [] {
    } else {
      assert |Flush(ReadLine(r, lines[0])).pools| == |Flush(r).pools| + (if IsPoolLine(lines[0]) then 1 else 0) by {
        hide TrimSpace, After, ReadVdev;
      }
      hide ReadLine;
      PoolsCounted(ReadLine(r, lines[0]), lines[1..]);
    }
  }

  /** As many pools come out as there are pool lines. */
  lemma OnePoolPerPoolLine(lines: seq<string>)
    ensures |Parse(lines)| == PoolLines(lines)
  {
    PoolsCounted(START, lines);
  }

  // ---------- Reading back what zpool prints ----------

  const KEYS := ["pool:", "state:", "status:", "action:", "scan:", "errors:", "config:"]

  /** A device whose columns are there from the left: its state, then all three counters. */
  ghost predicate Printable(v: Vdev) {
    && Word(v.name) && (forall k :: k in KEYS ==> !(k <= v.name))
    && (v.state == "" || Word(v.state))
    && (v.read != "" || v.write != "" || v.cksum != "" ==>
          Word(v.state) && Word(v.read) && Word(v.write) && Word(v.cksum))
    && v.indentPx % 16 == 0
    && v.healthy == (v.state == "ONLINE")
  }

  ghost predicate PrintablePool(p: Pool) {
    && Trimmed(p.name) && Trimmed(p.state) && Trimmed(p.status) && Trimmed(p.action)
    && Trimmed(p.scan) && Trimmed(p.errors)
    && AllPrintable(p.vdevs)
    && p.healthy == (p.state == "ONLINE")
  }

  function Columns(v: Vdev): seq<string> {
    if v.state == "" then [v.name]
    else if v.read == "" then [v.name, v.state]
    else [v.name, v.state, v.read, v.write, v.cksum]
  }

  /** A row of the config tree, with any padding between its columns. */
  function VdevLine(v: Vdev, pad: nat -> nat): string {
    "\t" + Blanks(v.indentPx / 8) + Laid(Columns(v), pad)
  }

  /** The text of a device's row, with some padding. */
  ghost predicate IsRow(line: string, v: Vdev) {
    exists pad: nat -> nat :: line == VdevLine(v, pad)
  }

  ghost predicate AreRows(rows: seq<string>, vdevs: seq<Vdev>) {
    |rows| == |vdevs| && forall i :: 0 <= i < |rows| ==> IsRow(rows[i], vdevs[i])
  }

  const HEADER := "\tNAME  STATE  READ WRITE CKSUM"

  function KeyLine(lead: string, key: string, value: string): string {
    lead + key + " " + value
  }

  /** A line that is printed only for a value. */
  function OptionalLine(lead: string, key: string, value: string): seq<string> {
    if value == "" then [] else [KeyLine(lead, key, value)]
  }

  function Head(p: Pool): seq<string> {
    [KeyLine("  ", "pool:", p.name), KeyLine(" ", "state:", p.state)]
    + OptionalLine("", "status:", p.status)
    + OptionalLine("", "action:", p.action)
    + OptionalLine("  ", "scan:", p.scan)
    + [KeyLine("", "config:", ""), "", HEADER]
  }

  function Foot(p: Pool): seq<string> {
    ["", KeyLine("", "errors:", p.errors), ""]
  }

  /** One pool as `zpool status` prints it: without the status and action lines of a healthy pool,
      and without a scan line before the first scan. */
  function Print(p: Pool, rows: seq<string>): seq<string> {
    Head(p) + rows + Foot(p)
  }

  function PrintAll(pools: seq<Pool>, rows: seq<seq<string>>): seq<string>
    requires |rows| == |pools|
  {
    if pools == [] then [] else Print(pools[0], rows[0]) + PrintAll(pools[1..], rows[1..])
  }

  /** Any row of words, with or without the leading tab: the name, then the state, then three
      counters when there are at least five words, whatever follows them; every two spaces of
      indentation are one level. */
  lemma RowReads(words: seq<string>, tab: bool, spaces: nat, pad: nat -> nat)
    requires words != [] && forall w :: w in words ==> Word(w)
    ensures var n := |words|;
            ReadVdev((if tab then "\t" else "") + Blanks(spaces) + Laid(words, pad))
            == Some(Vdev(words[0], if n >= 2 then words[1] else "",
                         if n >= 5 then words[2] else "", if n >= 5 then words[3] else "",
                         if n >= 5 then words[4] else "",
                         spaces / 2 * 16, n >= 2 && words[1] == "ONLINE"))
  {
    RowTrims(words, tab, spaces, pad);
    FieldsLaid(words, pad);
    hide Laid, TrimSpace, Fields, Indent, TrimPrefix, Blanks;
  }

  lemma RowTrims(words: seq<string>, tab: bool, spaces: nat, pad: nat -> nat)
    requires words != [] && forall w :: w in words ==> Word(w)
    ensures var line := (if tab then "\t" else "") + Blanks(spaces) + Laid(words, pad);
            TrimSpace(line) == Laid(words, pad) && Indent(TrimPrefix(line, "\t")) == spaces
  {
    var text, lead := Laid(words, pad), (if tab then "\t" else "") + Blanks(spaces);
    LaidIsTrimmed(words, pad);
    hide Laid, TrimSpace, Fields, Indent;
    assert words[0][0] == text[0] && Word(words[0]) && words[0][0] in words[0];
    IndentBlanks(spaces, text);
    TrimSpaceLed(lead, text);
    var line := lead + text;
    if tab {
      assert line[1..] == Blanks(spaces) + text;
    } else {
      assert line == Blanks(spaces) + text;
      assert line != "" && line[0] != '\t';
    }
  }

  lemma ColumnsAreWords(v: Vdev)
    requires Printable(v)
    ensures Columns(v) != [] && Columns(v)[0] == v.name && forall w :: w in Columns(v) ==> Word(w)
  {
    hide Word;
  }

  /** A row reads back as its device: depth from the indentation, columns from the words. */
  lemma VdevRowReads(v: Vdev, pad: nat -> nat)
    requires Printable(v)
    ensures TrimSpace(VdevLine(v, pad)) == Laid(Columns(v), pad)
    ensures ReadVdev(VdevLine(v, pad)) == Some(v)
  {
    ColumnsAreWords(v);
    RowTrims(Columns(v), true, v.indentPx / 8, pad);
    RowReads(Columns(v), true, v.indentPx / 8, pad);
    hide ReadVdev, TrimSpace, Laid, Word;
    assert v.indentPx / 8 / 2 * 16 == v.indentPx;
  }

  /** No key starts a row. */
  lemma RowIsNoKey(v: Vdev, pad: nat -> nat)
    requires Printable(v)
    ensures forall key :: key in KEYS ==> !(key <= Laid(Columns(v), pad))
  {
    ColumnsAreWords(v);
    LaidIsTrimmed(Columns(v), pad);
    hide Laid, Columns, Word;
    forall key | key in KEYS
      ensures !(key <= Laid(Columns(v), pad))
    {
      assert ' ' !in key;
    }
  }

  /** More rows for the pool being read. */
  function WithRows(r: Reader, vdevs: seq<Vdev>): Reader
    requires r.cur.Some?
  {
    r.(cur := Some(r.cur.value.(vdevs := r.cur.value.vdevs + vdevs)))
  }

  lemma RowLine(r: Reader, line: string, v: Vdev)
    requires r.cur.Some? && r.inConfig && r.headerSeen && ReadVdev(line) == Some(v) && TrimSpace(line) != ""
    requires forall key :: key in KEYS ==> !(key <= TrimSpace(line))
    ensures ReadLine(r, line) == WithRows(r, [v])
  {
    hide ReadVdev, TrimSpace, After;
    assert KEYS[0] in KEYS && KEYS[1] in KEYS && KEYS[2] in KEYS && KEYS[3] in KEYS && KEYS[4] in KEYS &&
           KEYS[5] in KEYS && KEYS[6] in KEYS;
  }

  lemma RowIsAdded(r: Reader, v: Vdev, pad: nat -> nat)
    requires Printable(v) && r.cur.Some? && r.inConfig && r.headerSeen
    ensures ReadLine(r, VdevLine(v, pad)) == WithRows(r, [v])
  {
    hide ReadVdev, TrimSpace, Laid, VdevLine, Columns, Printable, ReadLine, Trimmed;
    VdevRowReads(v, pad);
    RowIsNoKey(v, pad);
    ColumnsAreWords(v);
    LaidIsTrimmed(Columns(v), pad);
    RowLine(r, VdevLine(v, pad), v);
  }

  lemma NextLine(r: Reader, lines: seq<string>, i: nat)
    requires i < |lines|
    ensures ReadLines(r, lines[i..]) == ReadLines(ReadLine(r, lines[i]), lines[i + 1..])
  {
    hide ReadLine;
    assert lines[i..][1..] == lines[i + 1..];
  }

  lemma NoMoreLines(r: Reader, lines: seq<string>)
    ensures ReadLines(r, lines[|lines|..]) == r
  {
  }

  lemma ReadLinesSnoc(r: Reader, lines: seq<string>, line: string)
    ensures ReadLines(r, lines + [line]) == ReadLine(ReadLines(r, lines), line)
  {
    ReadLinesConcat(r, lines, [line]);
    NextLine(ReadLines(r, lines), [line], 0);
    hide ReadLine, ReadLines;
    NoMoreLines(ReadLine(ReadLines(r, lines), line), [line]);
    assert [line][0..] == [line];
  }

  lemma WithRowsSnoc(r: Reader, vdevs: seq<Vdev>, v: Vdev)
    requires r.cur.Some?
    ensures WithRows(WithRows(r, vdevs), [v]) == WithRows(r, vdevs + [v])
  {
    var above := r.cur.value.vdevs;
    assert above + vdevs + [v] == above + (vdevs + [v]);
  }

  lemma RowFollows(r: Reader, vdevs: seq<Vdev>, v: Vdev, row: string)
    requires Printable(v) && IsRow(row, v) && r.cur.Some? && r.inConfig && r.headerSeen
    ensures ReadLine(WithRows(r, vdevs), row) == WithRows(r, vdevs + [v])
  {
    hide ReadLine, Printable, VdevLine;
    var pad: nat -> nat :| row == VdevLine(v, pad);
    RowIsAdded(WithRows(r, vdevs), v, pad);
    WithRowsSnoc(r, vdevs, v);
  }

  ghost predicate AllPrintable(vdevs: seq<Vdev>) {
    forall i :: 0 <= i < |vdevs| ==> Printable(vdevs[i])
  }

  lemma NoRows(r: Reader, rows: seq<string>, vdevs: seq<Vdev>)
    requires r.cur.Some?
    ensures ReadLines(r, rows[..0]) == WithRows(r, vdevs[..0])
  {
    assert r.cur.value.vdevs + vdevs[..0] == r.cur.value.vdevs;
  }

  lemma {:induction false} RowsUpTo(r: Reader, rows: seq<string>, vdevs: seq<Vdev>, n: nat)
    requires AllPrintable(vdevs) && AreRows(rows, vdevs) && n <= |rows|
    requires r.cur.Some? && r.inConfig && r.headerSeen
    ensures ReadLines(r, rows[..n]) == WithRows(r, vdevs[..n])
    decreases n
  {
    hide ReadLine, ReadLines, Printable, IsRow, WithRows;
    if n == 0 {
      NoRows(r, rows, vdevs);
    } else {
      RowsUpTo(r, rows, vdevs, n - 1);
      RowFollows(r, vdevs[..n - 1], vdevs[n - 1], rows[n - 1]);
      ReadLinesSnoc(r, rows[..n - 1], rows[n - 1]);
      hide AllPrintable, AreRows;
      assert rows[..n] == rows[..n - 1] + [rows[n - 1]];
      assert vdevs[..n] == vdevs[..n - 1] + [vdevs[n - 1]];
    }
  }

  lemma RowsAreAdded(r: Reader, rows: seq<string>, vdevs: seq<Vdev>)
    requires AllPrintable(vdevs) && AreRows(rows, vdevs) && r.cur.Some? && r.inConfig && r.headerSeen
    ensures ReadLines(r, rows) == WithRows(r, vdevs)
  {
    RowsUpTo(r, rows, vdevs, |rows|);
    hide ReadLines, WithRows, AllPrintable;
    assert rows[..|rows|] == rows && vdevs[..|rows|] == vdevs;
  }

  /** A key's line reads as the key and its value. */
  lemma KeyLineReads(lead: string, key: string, value: string)
    requires Blank(lead) && key != "" && Trimmed(key) && Trimmed(value)
    ensures var t := TrimSpace(KeyLine(lead, key, value));
            key <= t && After(t, key) == value
  {
    var padded := key + " " + value;
    assert KeyLine(lead, key, value) == lead + padded;
    if value == "" {
      assert lead + padded == lead + key + " ";
      TrimSpaceLedThen(lead, key);
      assert key[|key|..] == "";
    } else {
      assert Trimmed(padded);
      TrimSpaceLed(lead, padded);
      TrimSpacePadded(' ', value, ' ');
      assert padded[|key|..] == [' '] + value;
    }
  }

  lemma PoolKeyIsRead(r: Reader, lead: string, value: string)
    requires Blank(lead) && Trimmed(value)
    ensures ReadLine(r, KeyLine(lead, "pool:", value))
            == Reader(Flush(r).pools, Some(Pool(value, "", "", "", "", "", [], false)), false, false)
    ensures IsPoolLine(KeyLine(lead, "pool:", value))
  {
    KeyLineReads(lead, "pool:", value);
    hide TrimSpace, After, KeyLine, Trimmed;
  }

  /** A line goes to the branch of the key it begins with. */
  lemma KeyDispatches(r: Reader, line: string, key: string)
    requires r.cur.Some? && key in KEYS && key != "pool:" && key <= TrimSpace(line)
    ensures var p, r', value := r.cur.value, ReadLine(r, line), After(TrimSpace(line), key);
            && (key == "state:" ==> r' == r.(cur := Some(p.(state := value, healthy := value == "ONLINE"))))
            && (key == "status:" ==> r' == r.(cur := Some(p.(status := value))))
            && (key == "action:" ==> r' == r.(cur := Some(p.(action := value))))
            && (key == "scan:" ==> r' == r.(cur := Some(p.(scan := value))))
            && (key == "errors:" ==> r' == r.(cur := Some(p.(errors := value)), inConfig := false))
            && (key == "config:" ==> r' == r.(inConfig := true, headerSeen := false))
  {
    hide TrimSpace, After;
    var t := TrimSpace(line);
    assert t[..|key|] == key;
    OtherKeys(t, key);
    if key == "state:" {
    } else if key == "status:" {
    } else if key == "action:" {
    } else if key == "scan:" {
    } else if key == "errors:" {
    }
  }

  lemma OtherKeys(t: string, key: string)
    requires key in KEYS && key <= t
    ensures "pool:" <= t <==> key == "pool:"
    ensures "state:" <= t <==> key == "state:"
    ensures "status:" <= t <==> key == "status:"
    ensures "action:" <= t <==> key == "action:"
    ensures "scan:" <= t <==> key == "scan:"
    ensures "errors:" <= t <==> key == "errors:"
    ensures "config:" <= t <==> key == "config:"
  {
    assert t[0] == key[0] && t[1] == key[1] && t[4] == key[4];
  }

  lemma KeyIsRead(r: Reader, lead: string, key: string, value: string)
    requires r.cur.Some? && key in KEYS && key != "pool:" && Blank(lead) && Trimmed(value)
    ensures var p, r' := r.cur.value, ReadLine(r, KeyLine(lead, key, value));
            && (key == "state:" ==> r' == r.(cur := Some(p.(state := value, healthy := value == "ONLINE"))))
            && (key == "status:" ==> r' == r.(cur := Some(p.(status := value))))
            && (key == "action:" ==> r' == r.(cur := Some(p.(action := value))))
            && (key == "scan:" ==> r' == r.(cur := Some(p.(scan := value))))
            && (key == "errors:" ==> r' == r.(cur := Some(p.(errors := value)), inConfig := false))
            && (key == "config:" ==> r' == r.(inConfig := true, headerSeen := false))
  {
    assert Trimmed(key) && key != "";
    KeyLineReads(lead, key, value);
    var line := KeyLine(lead, key, value);
    hide TrimSpace, After, KeyLine, Trimmed, Blank;
    KeyDispatches(r, line, key);
  }

  lemma BlankLineIsSkipped(r: Reader)
    ensures ReadLine(r, "") == r
  {
  }

  lemma HeaderText()
    ensures TrimSpace(HEADER) == HEADER[1..] && HEADER[1..] != ""
    ensures forall key :: key in KEYS ==> !(key <= HEADER[1..])
    ensures "NAME" <= HEADER[1..]
  {
    assert Blank("\t") && HEADER == "\t" + HEADER[1..];
    TrimSpaceLed("\t", HEADER[1..]);
  }

  lemma HeaderIsSeen(r: Reader)
    requires r.cur.Some? && r.inConfig && !r.headerSeen
    ensures ReadLine(r, HEADER) == r.(headerSeen := true)
  {
    HeaderText();
    assert KEYS[0] in KEYS && KEYS[1] in KEYS && KEYS[2] in KEYS && KEYS[3] in KEYS && KEYS[4] in KEYS &&
           KEYS[5] in KEYS && KEYS[6] in KEYS;
    hide TrimSpace, After, ReadVdev, HEADER, KEYS;
  }

  lemma FirstLinesRead(p: Pool)
    requires Trimmed(p.name) && Trimmed(p.state) && p.healthy == (p.state == "ONLINE")
    ensures ReadLines(START, [KeyLine("  ", "pool:", p.name), KeyLine(" ", "state:", p.state)])
            == Reader([], Some(Pool(p.name, p.state, "", "", "", "", [], p.healthy)), false, false)
  {
    var l1, l2 := KeyLine("  ", "pool:", p.name), KeyLine(" ", "state:", p.state);
    var r1 := Reader([], Some(Pool(p.name, "", "", "", "", "", [], false)), false, false);
    hide ReadLine, KeyLine, ReadLines, Trimmed;
    PoolKeyIsRead(START, "  ", p.name);
    KeyIsRead(r1, " ", "state:", p.state);
    ReadLinesSnoc(START, [l1], l2);
    ReadLinesSnoc(START, [], l1);
    NoMoreLines(START, []);
    var none: seq<string> := [];
    assert none + [l1] == [l1] && [l1] + [l2] == [l1, l2] && none[|none|..] == [];
  }

  /** An optional line that is missing leaves the empty value the pool began with. */
  lemma OptionalLineReads(r: Reader, lead: string, key: string, value: string)
    requires r.cur.Some? && key in ["status:", "action:", "scan:"] && Blank(lead) && Trimmed(value)
    ensures var p, r' := r.cur.value, ReadLines(r, OptionalLine(lead, key, value));
            && (key == "status:" && p.status == "" ==> r' == r.(cur := Some(p.(status := value))))
            && (key == "action:" && p.action == "" ==> r' == r.(cur := Some(p.(action := value))))
            && (key == "scan:" && p.scan == "" ==> r' == r.(cur := Some(p.(scan := value))))
  {
    var none: seq<string> := [];
    assert none[|none|..] == [] && none + [KeyLine(lead, key, value)] == [KeyLine(lead, key, value)];
    KeyIsRead(r, lead, key, value);
    hide ReadLine, KeyLine, ReadLines, Trimmed, Blank;
    NoMoreLines(r, none);
    ReadLinesSnoc(r, none, KeyLine(lead, key, value));
  }

  lemma ConfigReads(r: Reader)
    requires r.cur.Some?
    ensures ReadLines(r, [KeyLine("", "config:", ""), "", HEADER]) == r.(inConfig := true, headerSeen := true)
  {
    var h, r6 := [KeyLine("", "config:", ""), "", HEADER], r.(inConfig := true, headerSeen := false);
    assert Trimmed("");
    KeyIsRead(r, "", "config:", "");
    hide ReadLine, KeyLine, ReadLines, Trimmed, HEADER;
    BlankLineIsSkipped(r6);
    HeaderIsSeen(r6);
    NextLine(r, h, 0);
    NextLine(r6, h, 1);
    NextLine(r6, h, 2);
    NoMoreLines(r6.(headerSeen := true), h);
    assert h[0..] == h;
  }

  lemma HeadReads(p: Pool)
    requires PrintablePool(p)
    ensures ReadLines(START, Head(p)) == Reader([], Some(p.(errors := "", vdevs := [])), true, true)
  {
    var first := [KeyLine("  ", "pool:", p.name), KeyLine(" ", "state:", p.state)];
    var status, action := OptionalLine("", "status:", p.status), OptionalLine("", "action:", p.action);
    var scan, config := OptionalLine("  ", "scan:", p.scan), [KeyLine("", "config:", ""), "", HEADER];
    var r2 := Reader([], Some(Pool(p.name, p.state, "", "", "", "", [], p.healthy)), false, false);
    var r3 := r2.(cur := Some(r2.cur.value.(status := p.status)));
    var r4 := r3.(cur := Some(r3.cur.value.(action := p.action)));
    var r5 := r4.(cur := Some(r4.cur.value.(scan := p.scan)));
    hide ReadLines, KeyLine, OptionalLine, Trimmed, HEADER, Printable;
    FirstLinesRead(p);
    OptionalLineReads(r2, "", "status:", p.status);
    OptionalLineReads(r3, "", "action:", p.action);
    OptionalLineReads(r4, "  ", "scan:", p.scan);
    ConfigReads(r5);
    ReadLinesConcat(START, first, status);
    ReadLinesConcat(START, first + status, action);
    ReadLinesConcat(START, first + status + action, scan);
    ReadLinesConcat(START, first + status + action + scan, config);
  }

  lemma FootReads(r: Reader, p: Pool)
    requires r.cur == Some(p.(errors := "")) && PrintablePool(p)
    ensures ReadLines(r, Foot(p)) == r.(cur := Some(p), inConfig := false)
  {
    var f := Foot(p);
    BlankLineIsSkipped(r);
    KeyIsRead(r, "", KEYS[5], p.errors);
    var r' := ReadLine(r, f[1]);
    BlankLineIsSkipped(r');
    hide ReadLine, KeyLine, ReadLines;
    NextLine(r, f, 0);
    NextLine(r, f, 1);
    NextLine(r', f, 2);
    assert f[0..] == f;
    NoMoreLines(r', f);
  }

  /** What is printed for a pool parses to exactly that pool. */
  lemma PoolRoundTrip(p: Pool, rows: seq<string>)
    requires PrintablePool(p) && AreRows(rows, p.vdevs)
    ensures Parse(Print(p, rows)) == [p] && IsPoolLine(Print(p, rows)[0])
  {
    PoolIsRead(p, rows);
    PoolKeyIsRead(START, "  ", p.name);
    hide ReadLines, IsPoolLine, PrintablePool, AreRows, KeyLine;
  }

  lemma PoolIsRead(p: Pool, rows: seq<string>)
    requires PrintablePool(p) && AreRows(rows, p.vdevs)
    ensures ReadLines(START, Print(p, rows)) == Reader([], Some(p), false, true)
  {
    var r := Reader([], Some(p.(errors := "", vdevs := [])), true, true);
    var r' := Reader([], Some(p.(errors := "")), true, true);
    assert WithRows(r, p.vdevs) == r' by { assert [] + p.vdevs == p.vdevs; }
    assert AllPrintable(p.vdevs);
    hide ReadLines, Head, Foot, AreRows, AllPrintable, WithRows, PrintablePool;
    HeadReads(p);
    RowsAreAdded(r, rows, p.vdevs);
    FootReads(r', p);
    ReadLinesConcat(START, Head(p), rows);
    ReadLinesConcat(START, Head(p) + rows, Foot(p));
  }

  /** Any number of pools print to text that parses to exactly those pools, every device row in
      its own pool. */
  lemma {:induction false} PrintedPoolsReadBack(pools: seq<Pool>, rows: seq<seq<string>>)
    requires |rows| == |pools|
    requires forall i :: 0 <= i < |pools| ==> PrintablePool(pools[i]) && AreRows(rows[i], pools[i].vdevs)
    ensures Parse(PrintAll(pools, rows)) == pools
    ensures pools != [] ==> IsPoolLine(PrintAll(pools, rows)[0])
  {
    hide Parse, PrintablePool, AreRows, IsPoolLine;
    if pools == [] {
      NothingParses();
    } else {
      PoolRoundTrip(pools[0], rows[0]);
      PrintedPoolsReadBack(pools[1..], rows[1..]);
      PrintedIsEmptyExactly(pools[1..], rows[1..]);
      ParseComposes(Print(pools[0], rows[0]), PrintAll(pools[1..], rows[1..]));
      assert [pools[0]] + pools[1..] == pools;
    }
  }

  lemma NothingParses()
    ensures Parse([]) == []
  {
  }

  lemma PrintedIsEmptyExactly(pools: seq<Pool>, rows: seq<seq<string>>)
    requires |rows| == |pools|
    ensures PrintAll(pools, rows) == [] <==> pools == []
  {
    hide Head;
  }
}
