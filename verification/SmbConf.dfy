/** The SMB share fragment files: the host agent's printer and parser. */
module SmbConf {
  import opened GoStrings

  datatype Share = Share(name: string, path: string, comment: string, validUsers: string,
                         readOnly: bool, browseable: bool, guestOK: bool)

  const ZERO_SHARE := Share("", "", "", "", false, false, false)

  // ---------- Parsing ----------

  /** `strings.EqualFold(v, "yes")`; the long s folds to s. */
  predicate FoldsToYes(v: string) {
    |v| == 3 && v[0] in "yY" && v[1] in "eE" && v[2] in ['s', 'S', '\U{17F}']
  }

  predicate BoolVal(v: string) {
    FoldsToYes(TrimSpace(v))
  }

  function Assign(s: Share, key: string, v: string): Share {
    if key == "path" then s.(path := v)
    else if key == "comment" then s.(comment := v)
    else if key == "valid users" then s.(validUsers := v)
    else if key == "read only" then s.(readOnly := BoolVal(v))
    else if key == "browseable" then s.(browseable := BoolVal(v))
    else if key == "guest ok" then s.(guestOK := BoolVal(v))
    else s
  }

  /** A line that begins with an opening and ends with a closing bracket. */
  predicate IsSection(line: string) {
    line != "" && line[0] == '[' && line[|line| - 1] == ']'
  }

  /** The effect of one line of a fragment on the share read so far. */
  function ParseLine(s: Share, raw: string): Share {
    var line := TrimSpace(raw);
    if IsSection(line) then
      s.(name := line[1..|line| - 1])
    else
      var idx := Index(line, '=');
      if idx < 0 then s
      else Assign(s, ToLower(TrimSpace(line[..idx])), TrimSpace(line[idx + 1..]))
  }

  function ParseLines(s: Share, lines: seq<string>): Share
    decreases |lines|
  {
    if lines == [] then s else ParseLines(ParseLine(s, lines[0]), lines[1..])
  }

  function Parse(text: string): Share {
    ParseLines(ZERO_SHARE, Split(text, '\n'))
  }

  /** The parser as written: a loop that assigns the fields line by line. */
  method ParseSMBConf(text: string) returns (s: Share)
    ensures s == Parse(text)
  {
    hide TrimSpace, Split, ToLower, BoolVal;
    s := ZERO_SHARE;
    var lines := Split(text, '\n');
    for i := 0 to |lines|
      invariant ParseLines(s, lines[i..]) == Parse(text)
    {
      assert lines[i..][1..] == lines[i + 1..];
      assert ParseLines(ParseLine(s, lines[i]), lines[i + 1..]) == Parse(text);
      var line := TrimSpace(lines[i]);
      if line != "" && line[0] == '[' && line[|line| - 1] == ']' {
        s := s.(name := line[1..|line| - 1]);
        continue;
      }
      var idx := Index(line, '=');
      if idx < 0 { continue; }
      var k, v := ToLower(TrimSpace(line[..idx])), TrimSpace(line[idx + 1..]);
      match k {
        case "path" => s := s.(path := v);
        case "comment" => s := s.(comment := v);
        case "valid users" => s := s.(validUsers := v);
        case "read only" => s := s.(readOnly := BoolVal(v));
        case "browseable" => s := s.(browseable := BoolVal(v));
        case "guest ok" => s := s.(guestOK := BoolVal(v));
        case _ =>
      }
    }
    assert lines[|lines|..] == [];
  }

  // ---------- Printing ----------

  function BoolStr(b: bool): string {
    if b then "Yes" else "No"
  }

  function Setting(key: string, v: string): string {
    "\t" + key + " = " + v
  }

  function OptionalSetting(key: string, v: string): seq<string> {
    if v == "" then [] else [Setting(key, v)]
  }

  /** The lines of a printed share, without their line ends. */
  function PrintedLines(s: Share): seq<string> {
    ["[" + s.name + "]", Setting("path", s.path)]
    + OptionalSetting("comment", s.comment)
    + OptionalSetting("valid users", s.validUsers)
    + [Setting("read only", BoolStr(s.readOnly)),
       Setting("browseable", BoolStr(s.browseable)),
       Setting("guest ok", BoolStr(s.guestOK))]
  }

  function Unlines(lines: seq<string>): string {
    if lines == [] then "" else lines[0] + "\n" + Unlines(lines[1..])
  }

  function Print(s: Share): string {
    Unlines(PrintedLines(s))
  }

  lemma UnlinesSnoc(lines: seq<string>, line: string)
    ensures Unlines(lines + [line]) == Unlines(lines) + line + "\n"
  {
    if lines == [] {
      assert lines + [line] == [line];
    } else {
      assert (lines + [line])[1..] == lines[1..] + [line];
      UnlinesSnoc(lines[1..], line);
    }
  }

  lemma AppendSetting(lines: seq<string>, key: string, v: string)
    ensures Unlines(lines + [Setting(key, v)]) == Unlines(lines) + ("\t" + key + " = " + v + "\n")
  {
    UnlinesSnoc(lines, Setting(key, v));
    var text, line := Unlines(lines), Setting(key, v);
    assert text + line + "\n" == text + (line + "\n");
  }

  lemma SettingLabels()
    ensures "\tpath = " == "\t" + "path" + " = "
    ensures "\tcomment = " == "\t" + "comment" + " = "
    ensures "\tvalid users = " == "\t" + "valid users" + " = "
    ensures "\tread only = " == "\t" + "read only" + " = "
    ensures "\tbrowseable = " == "\t" + "browseable" + " = "
    ensures "\tguest ok = " == "\t" + "guest ok" + " = "
  {
  }

  /** The printer as written: a builder that is appended to. */
  method SmbShareToConf(s: Share) returns (sb: string)
    ensures sb == Print(s)
  {
    ghost var done := ["[" + s.name + "]"];
    sb := "[" + s.name + "]\n";
    assert sb == Unlines(done);
    hide Unlines, Setting, BoolStr;
    SettingLabels();
    AppendSetting(done, "path", s.path);
    sb := sb + ("\tpath = " + s.path + "\n");
    done := done + [Setting("path", s.path)];
    if s.comment != "" {
      AppendSetting(done, "comment", s.comment);
      sb := sb + ("\tcomment = " + s.comment + "\n");
      done := done + [Setting("comment", s.comment)];
    }
    if s.validUsers != "" {
      AppendSetting(done, "valid users", s.validUsers);
      sb := sb + ("\tvalid users = " + s.validUsers + "\n");
      done := done + [Setting("valid users", s.validUsers)];
    }
    ghost var head := done;
    assert head == ["[" + s.name + "]", Setting("path", s.path)]
                   + OptionalSetting("comment", s.comment) + OptionalSetting("valid users", s.validUsers);
    hide OptionalSetting;
    AppendSetting(done, "read only", BoolStr(s.readOnly));
    sb := sb + ("\tread only = " + BoolStr(s.readOnly) + "\n");
    done := done + [Setting("read only", BoolStr(s.readOnly))];
    AppendSetting(done, "browseable", BoolStr(s.browseable));
    sb := sb + ("\tbrowseable = " + BoolStr(s.browseable) + "\n");
    done := done + [Setting("browseable", BoolStr(s.browseable))];
    AppendSetting(done, "guest ok", BoolStr(s.guestOK));
    sb := sb + ("\tguest ok = " + BoolStr(s.guestOK) + "\n");
    done := done + [Setting("guest ok", BoolStr(s.guestOK))];
    assert done == head + [Setting("read only", BoolStr(s.readOnly)),
                           Setting("browseable", BoolStr(s.browseable)),
                           Setting("guest ok", BoolStr(s.guestOK))];
  }

  /** The text of a fragment: optional lines only for a value, and flags as Yes or No. */
  lemma PrintedText(s: Share)
    ensures Print(s) == "[" + s.name + "]\n"
                        + ("\tpath = " + s.path + "\n")
                        + (if s.comment == "" then "" else "\tcomment = " + s.comment + "\n")
                        + (if s.validUsers == "" then "" else "\tvalid users = " + s.validUsers + "\n")
                        + ("\tread only = " + (if s.readOnly then "Yes" else "No") + "\n")
                        + ("\tbrowseable = " + (if s.browseable then "Yes" else "No") + "\n")
                        + ("\tguest ok = " + (if s.guestOK then "Yes" else "No") + "\n")
  {
    var l0 := ["[" + s.name + "]"];
    var l1 := l0 + [Setting("path", s.path)];
    var l2 := l1 + OptionalSetting("comment", s.comment);
    var l3 := l2 + OptionalSetting("valid users", s.validUsers);
    var l4 := l3 + [Setting("read only", BoolStr(s.readOnly))];
    var l5 := l4 + [Setting("browseable", BoolStr(s.browseable))];
    var l6 := l5 + [Setting("guest ok", BoolStr(s.guestOK))];
    assert Unlines(l0) == "[" + s.name + "]\n";
    assert PrintedLines(s) == l6 by { hide Setting, OptionalSetting, BoolStr; }
    SettingLabels();
    AppendSetting(l0, "path", s.path);
    AppendOptional(l1, "comment", s.comment);
    AppendOptional(l2, "valid users", s.validUsers);
    hide Unlines, Setting, OptionalSetting;
    AppendSetting(l3, "read only", BoolStr(s.readOnly));
    AppendSetting(l4, "browseable", BoolStr(s.browseable));
    AppendSetting(l5, "guest ok", BoolStr(s.guestOK));
  }

  lemma AppendOptional(lines: seq<string>, key: string, v: string)
    ensures Unlines(lines + OptionalSetting(key, v))
            == Unlines(lines) + if v == "" then "" else "\t" + key + " = " + v + "\n"
  {
    AppendSetting(lines, key, v);
    hide Unlines, Setting;
    assert lines + [] == lines;
  }

  // ---------- Round trips ----------

  /** What the printer needs of a share: no field spans lines, the values are trimmed. */
  ghost predicate Printable(s: Share) {
    '\n' !in s.name && '\n' !in s.path && '\n' !in s.comment && '\n' !in s.validUsers &&
    Trimmed(s.path) && Trimmed(s.comment) && Trimmed(s.validUsers)
  }

  lemma {:induction false} SplitUnlines(lines: seq<string>)
    requires forall l :: l in lines ==> '\n' !in l
    ensures Split(Unlines(lines), '\n') == lines + [""]
  {
    if lines == [] {
      assert Split("", '\n') == [""];
    } else {
      hide Split, Index;
      var first, rest := lines[0], lines[1..];
      assert lines == [first] + rest;
      assert Unlines(lines) == first + ['\n'] + Unlines(rest);
      hide Unlines;
      SplitUnlines(rest);
      SplitHead(first, '\n', Unlines(rest));
    }
  }

  lemma ParseLinesConcat(s: Share, a: seq<string>, b: seq<string>)
    ensures ParseLines(s, a + b) == ParseLines(ParseLines(s, a), b)
    decreases |a|
  {
    if a == [] {
      assert a + b == b;
    } else {
      assert (a + b)[1..] == a[1..] + b;
      ParseLinesConcat(ParseLine(s, a[0]), a[1..], b);
    }
  }

  lemma ParseName(s: Share, name: string)
    ensures ParseLine(s, "[" + name + "]") == s.(name := name)
  {
    var line := "[" + name + "]";
    TrimSpacePadded(' ', line, ' ');
    assert line[1..|line| - 1] == name;
  }

  lemma IndexIs(s: string, c: char, i: nat)
    requires i < |s| && s[i] == c && c !in s[..i]
    ensures Index(s, c) == i
  {
    assert forall k :: 0 <= k < i ==> s[k] == s[..i][k];
  }

  /** A printed setting reads back as its own value. */
  lemma ParseSetting(s: Share, key: string, v: string)
    requires key != "" && Trimmed(key) && '=' !in key && key[0] != '[' && Trimmed(v)
    ensures ParseLine(s, Setting(key, v)) == Assign(s, ToLower(key), v)
  {
    SettingTrims(key, v);
    hide TrimSpace, ToLower, Assign, IsSpace, Setting;
    SettingBodyParts(key, v);
    hide SettingBody, Trimmed;
  }

  lemma SettingBodyParts(key: string, v: string)
    requires key != "" && '=' !in key
    ensures var body := SettingBody(key, v);
            && body != "" && body[0] == key[0] && Index(body, '=') == |key| + 1
            && body[..|key| + 1] == key + " "
            && body[|key| + 2..] == if v == "" then "" else " " + v
  {
    var body, rest := SettingBody(key, v), if v == "" then "" else " " + v;
    assert body == key + " " + "=" + rest;
    assert body[..|key| + 1] == key + " ";
    IndexIs(body, '=', |key| + 1);
  }

  /** A setting line without the blanks around it. */
  function SettingBody(key: string, v: string): string {
    if v == "" then key + " =" else key + " = " + v
  }

  lemma SettingTrims(key: string, v: string)
    requires key != "" && Trimmed(key) && Trimmed(v)
    ensures TrimSpace(Setting(key, v)) == SettingBody(key, v)
    ensures TrimSpace(key + " ") == key && TrimSpace(" " + v) == v && TrimSpace(v) == v
  {
    var body := SettingBody(key, v);
    assert Trimmed(body) && IsSpace('\t') && IsSpace(' ');
    hide TrimSpace, IsSpace, Trimmed;
    TrimSpacePadded('\t', body, ' ');
    TrimSpacePadded(' ', key, ' ');
    TrimSpacePadded(' ', v, ' ');
    if v == "" {
      assert Setting(key, v) == ['\t'] + body + [' '];
    } else {
      assert Setting(key, v) == ['\t'] + body;
    }
  }

  lemma ParseEmpty(s: Share)
    ensures ParseLine(s, "") == s
  {
  }

  lemma LowerKeywords()
    ensures ToLower("path") == "path" && ToLower("comment") == "comment"
    ensures ToLower("valid users") == "valid users" && ToLower("read only") == "read only"
    ensures ToLower("browseable") == "browseable" && ToLower("guest ok") == "guest ok"
  {
  }

  lemma BoolRoundTrip(b: bool)
    ensures Trimmed(BoolStr(b)) && BoolVal(BoolStr(b)) == b
  {
    TrimSpacePadded(' ', BoolStr(b), ' ');
  }

  lemma ParseOptional(s: Share, key: string, v: string)
    requires key in {"comment", "valid users"} && Trimmed(v)
    requires v == "" ==> Assign(s, key, v) == s
    ensures ParseLines(s, OptionalSetting(key, v)) == Assign(s, key, v)
  {
    LowerKeywords();
    hide ParseLine, Setting;
    if v != "" {
      ParseSetting(s, key, v);
      assert [Setting(key, v)][1..] == [];
      assert ParseLines(ParseLine(s, Setting(key, v)), []) == Assign(s, key, v);
    }
  }

  lemma SplitPrinted(s: Share)
    requires Printable(s)
    ensures Split(Print(s), '\n')
            == (["[" + s.name + "]", Setting("path", s.path)]
                + OptionalSetting("comment", s.comment) + OptionalSetting("valid users", s.validUsers))
               + [Setting("read only", BoolStr(s.readOnly)),
                  Setting("browseable", BoolStr(s.browseable)),
                  Setting("guest ok", BoolStr(s.guestOK)), ""]
  {
    assert forall l :: l in PrintedLines(s) ==> '\n' !in l;
    SplitUnlines(PrintedLines(s));
    hide Setting, OptionalSetting, Unlines, Split, BoolStr;
  }

  /** Printing a share and reading the text back gives the share. */
  lemma {:induction false} PrintParse(s: Share)
    requires Printable(s)
    ensures Parse(Print(s)) == s
  {
    hide ParseLine, Split, Unlines, Setting, OptionalSetting, BoolStr, Trimmed;
    var head := ["[" + s.name + "]", Setting("path", s.path)];
    var comment := OptionalSetting("comment", s.comment);
    var users := OptionalSetting("valid users", s.validUsers);
    var tail := [Setting("read only", BoolStr(s.readOnly)),
                 Setting("browseable", BoolStr(s.browseable)),
                 Setting("guest ok", BoolStr(s.guestOK)), ""];
    var s1 := ZERO_SHARE.(name := s.name, path := s.path);
    var s2 := s1.(comment := s.comment);
    var s3 := s2.(validUsers := s.validUsers);
    ParseHead(s);
    ParseOptional(s1, "comment", s.comment);
    ParseOptional(s2, "valid users", s.validUsers);
    ParseFlags(s3, s);
    SplitPrinted(s);
    hide ParseLines;
    ParseLinesConcat(ZERO_SHARE, head, comment);
    ParseLinesConcat(ZERO_SHARE, head + comment, users);
    ParseLinesConcat(ZERO_SHARE, (head + comment) + users, tail);
  }

  lemma ParseHead(s: Share)
    requires Printable(s)
    ensures ParseLines(ZERO_SHARE, ["[" + s.name + "]", Setting("path", s.path)])
            == ZERO_SHARE.(name := s.name, path := s.path)
  {
    LowerKeywords();
    hide ParseLine, Setting;
    var l1, l2 := "[" + s.name + "]", Setting("path", s.path);
    ParseName(ZERO_SHARE, s.name);
    ParseSetting(ZERO_SHARE.(name := s.name), "path", s.path);
    assert [l1, l2][1..] == [l2] && [l2][1..] == [];
    assert ParseLines(ZERO_SHARE.(name := s.name), [l2]) == ZERO_SHARE.(name := s.name, path := s.path);
  }

  lemma {:induction false} ParseFlags(s3: Share, s: Share)
    requires s3 == s.(readOnly := false, browseable := false, guestOK := false)
    ensures ParseLines(s3, [Setting("read only", BoolStr(s.readOnly)),
                            Setting("browseable", BoolStr(s.browseable)),
                            Setting("guest ok", BoolStr(s.guestOK)), ""]) == s
  {
    hide ParseLine, Setting;
    LowerKeywords();
    BoolRoundTrip(s.readOnly);
    BoolRoundTrip(s.browseable);
    BoolRoundTrip(s.guestOK);
    var l1, l2, l3 := Setting("read only", BoolStr(s.readOnly)),
                      Setting("browseable", BoolStr(s.browseable)),
                      Setting("guest ok", BoolStr(s.guestOK));
    var s4 := s3.(readOnly := s.readOnly);
    var s5 := s4.(browseable := s.browseable);
    ParseSetting(s3, "read only", BoolStr(s.readOnly));
    ParseSetting(s4, "browseable", BoolStr(s.browseable));
    ParseSetting(s5, "guest ok", BoolStr(s.guestOK));
    assert [l1, l2, l3, ""][1..] == [l2, l3, ""];
    assert [l2, l3, ""][1..] == [l3, ""];
    assert [l3, ""][1..] == [""];
    ParseEmpty(s);
    assert [""][1..] == [];
    assert ParseLines(s, [""]) == s;
    assert ParseLines(s5, [l3, ""]) == s;
    assert ParseLines(s4, [l2, l3, ""]) == s;
  }

  lemma ParsedLineIsPrintable(s: Share, raw: string)
    requires Printable(s) && '\n' !in raw
    ensures Printable(ParseLine(s, raw))
  {
    hide TrimSpace, ToLower, BoolVal;
    var line := TrimSpace(raw);
    TrimSpaceTrims(raw);
    hide Trimmed;
    var idx := Index(line, '=');
    if idx >= 0 {
      TrimSpaceTrims(line[idx + 1..]);
    }
  }

  /** Whatever text a share was read from, the share is printable. */
  lemma {:induction false} ParsedIsPrintable(s: Share, lines: seq<string>)
    requires Printable(s) && forall l :: l in lines ==> '\n' !in l
    ensures Printable(ParseLines(s, lines))
    decreases |lines|
  {
    if lines == [] {
    } else {
      ParsedLineIsPrintable(s, lines[0]);
      hide ParseLine, Printable;
      ParsedIsPrintable(ParseLine(s, lines[0]), lines[1..]);
    }
  }

  /** Reading any text at all, printing it and reading again changes nothing. */
  lemma ParsePrintParse(text: string)
    ensures Parse(Print(Parse(text))) == Parse(text)
  {
    ParsedIsPrintable(ZERO_SHARE, Split(text, '\n'));
    PrintParse(Parse(text));
  }

  /** A share survives being written and read exactly when it is printable. */
  lemma PrintParseExactly(s: Share)
    ensures Parse(Print(s)) == s <==> Printable(s)
  {
    if Printable(s) {
      PrintParse(s);
    } else {
      ParsedIsPrintable(ZERO_SHARE, Split(Print(s), '\n'));
    }
  }

  /** A comment of two lines, or one with a blank at its end, does not come back. */
  lemma LostComment()
    ensures var s := Share("data", "/data", "first line\nsecond line", "", false, true, false);
            Parse(Print(s)) != s && Parse(Print(s.(comment := "first line "))) != s.(comment := "first line ")
  {
    var s := Share("data", "/data", "first line\nsecond line", "", false, true, false);
    assert s.comment[10] == '\n';
    PrintParseExactly(s);
    PrintParseExactly(s.(comment := "first line "));
    hide Parse, Print;
  }

  // ---------- Any way of writing a setting ----------

  const SETTINGS := ["path", "comment", "valid users", "read only", "browseable", "guest ok"]

  /** The spellings of yes that `strings.EqualFold` accepts. */
  const YES := ["yes", "yeS", "yEs", "yES", "Yes", "YeS", "YEs", "YES",
                "ye\U{17F}", "yE\U{17F}", "Ye\U{17F}", "YE\U{17F}"]

  lemma BoolValExactly(v: string)
    ensures BoolVal(v) <==> TrimSpace(v) in YES
  {
    hide TrimSpace;
    var t := TrimSpace(v);
    if FoldsToYes(t) {
      assert t == [t[0], t[1], t[2]];
    }
  }

  /** A text in any mixture of cases of a key, the dotted capital I and the Kelvin sign, whose
      lower case is ASCII, included. */
  predicate Spells(k: string, key: string) {
    && |k| == |key|
    && forall i :: 0 <= i < |k| ==>
         || k[i] == key[i]
         || ('a' <= key[i] <= 'z' && k[i] as int == key[i] as int - 32)
         || (key[i] == 'i' && k[i] as int == 304)
         || (key[i] == 'k' && k[i] as int == 8490)
  }

  /** A key is read in exactly these spellings. */
  lemma SpelledExactly(k: string, key: string)
    requires key in SETTINGS
    ensures ToLower(k) == key <==> Spells(k, key)
  {
    assert forall i :: 0 <= i < |key| ==> 'a' <= key[i] <= 'z' || key[i] == ' ';
    if Spells(k, key) {
      assert forall i :: 0 <= i < |k| ==> LowerChar(k[i]) == key[i];
    } else if |k| == |key| {
      forall i | 0 <= i < |k| && LowerChar(k[i]) == key[i]
        ensures k[i] == key[i] || ('a' <= key[i] <= 'z' && k[i] as int == key[i] as int - 32)
                || (key[i] == 'i' && k[i] as int == 304) || (key[i] == 'k' && k[i] as int == 8490)
      {
      }
      assert forall i :: 0 <= i < |k| ==> ToLower(k)[i] == LowerChar(k[i]);
    }
  }

  lemma SpelledKey(k: string, key: string)
    requires key in SETTINGS && Spells(k, key)
    ensures ToLower(k) == key && k != "" && Trimmed(k) && '=' !in k && k[0] != '['
  {
    SpelledExactly(k, key);
    hide ToLower;
    assert forall i :: 0 <= i < |key| ==> 'a' <= key[i] <= 'z' || key[i] == ' ';
    assert 'a' <= key[0] <= 'z' && 'a' <= key[|key| - 1] <= 'z';
  }

  /** A setting reads back from its line however the key is cased and whatever blanks surround the
      key and the value. */
  lemma SettingReads(s: Share, lead: string, k: string, key: string, gap: string, space: string, v: string,
                     trail: string)
    requires key in SETTINGS && Spells(k, key) && Trimmed(v)
    requires Blank(lead) && Blank(gap) && Blank(space) && Blank(trail)
    ensures var s' := ParseLine(s, lead + (k + gap + "=" + space + v) + trail);
            && (key == "path" ==> s' == s.(path := v))
            && (key == "comment" ==> s' == s.(comment := v))
            && (key == "valid users" ==> s' == s.(validUsers := v))
            && (key == "read only" ==> s' == s.(readOnly := v in YES))
            && (key == "browseable" ==> s' == s.(browseable := v in YES))
            && (key == "guest ok" ==> s' == s.(guestOK := v in YES))
  {
    SpelledKey(k, key);
    BoolValExactly(v);
    TrimSpacePadded(' ', v, ' ');
    hide ToLower, BoolVal, Spells, YES;
    LineAssigns(s, lead, k, gap, space, v, trail);
    hide ParseLine;
  }

  lemma LineAssigns(s: Share, lead: string, k: string, gap: string, space: string, v: string, trail: string)
    requires k != "" && Trimmed(k) && '=' !in k && k[0] != '[' && Trimmed(v)
    requires Blank(lead) && Blank(gap) && Blank(space) && Blank(trail)
    ensures ParseLine(s, lead + (k + gap + "=" + space + v) + trail) == Assign(s, ToLower(k), v)
  {
    BodyTrims(lead, k, gap, space, v, trail);
    BodyParts(k, gap, space, v);
    hide TrimSpace, ToLower, Assign, Blank, Trimmed, Sets, ParseLine, LineBody;
    BodyAssigns(s, lead + (k + gap + "=" + space + v) + trail, LineBody(k, gap, space, v), k, v);
  }

  /** A setting line without the blanks around it. */
  function LineBody(k: string, gap: string, space: string, v: string): string {
    if v == "" then k + gap + "=" else k + gap + "=" + space + v
  }

  /** A line that sets a key to a value. */
  ghost predicate Sets(body: string, k: string, v: string) {
    var i := Index(body, '=');
    !IsSection(body) && i >= 0 && TrimSpace(body[..i]) == k && TrimSpace(body[i + 1..]) == v
  }

  lemma BodyAssigns(s: Share, raw: string, body: string, k: string, v: string)
    requires TrimSpace(raw) == body && Sets(body, k, v)
    ensures ParseLine(s, raw) == Assign(s, ToLower(k), v)
  {
    hide TrimSpace, ToLower, Assign, IsSection, Index;
  }

  lemma BodyTrims(lead: string, k: string, gap: string, space: string, v: string, trail: string)
    requires k != "" && Trimmed(k) && Trimmed(v) && Blank(lead) && Blank(space) && Blank(trail)
    ensures TrimSpace(lead + (k + gap + "=" + space + v) + trail) == LineBody(k, gap, space, v)
  {
    var core := k + gap + "=";
    if v == "" {
      assert core + space + v == core + space;
      assert lead + (core + space + v) + trail == lead + core + (space + trail);
      TrimSpaceAround(lead, core, space + trail);
    } else {
      TrimSpaceAround(lead, core + space + v, trail);
    }
  }

  lemma BodyParts(k: string, gap: string, space: string, v: string)
    requires k != "" && Trimmed(k) && '=' !in k && k[0] != '[' && Trimmed(v) && Blank(gap) && Blank(space)
    ensures Sets(LineBody(k, gap, space, v), k, v)
  {
    var head, rest := k + gap, if v == "" then "" else space + v;
    BlankHasNoEquals(gap);
    hide Index, TrimSpace, IsSpace;
    assert "" + k + gap == head && space + v + "" == space + v;
    TrimSpaceAround("", k, gap);
    TrimSpaceAround(space, v, "");
    EmptyTrims();
    hide Blank, Trimmed;
    CutAtEquals(head, rest);
    JoinRest(head, space, v);
    assert head[0] == k[0];
  }

  lemma JoinRest(head: string, space: string, v: string)
    ensures head + "=" + (if v == "" then "" else space + v) == if v == "" then head + "=" else head + "=" + space + v
  {
  }

  lemma BlankHasNoEquals(gap: string)
    requires Blank(gap)
    ensures '=' !in gap
  {
  }

  lemma EmptyTrims()
    ensures TrimSpace("") == ""
  {
  }

  lemma CutAtEquals(head: string, rest: string)
    requires '=' !in head
    ensures var body := head + "=" + rest;
            Index(body, '=') == |head| && body[..|head|] == head && body[|head| + 1..] == rest
            && (head != "" ==> body[0] == head[0])
  {
    var body := head + "=" + rest;
    assert body[..|head|] == head && body[|head|] == '=';
    IndexIs(body, '=', |head|);
  }
}
