/** The functions of Go's `strings` and `unicode` packages the repository calls,
    over Unicode scalar values. */
module GoStrings {

  /** `unicode.IsSpace`. */
  predicate IsSpace(c: char) {
    c == ' ' || '\t' <= c <= '\r' || c == '\U{85}' || c == '\U{A0}' || c == '\U{1680}' ||
    '\U{2000}' <= c <= '\U{200A}' || c == '\U{2028}' || c == '\U{2029}' || c == '\U{202F}' ||
    c == '\U{205F}' || c == '\U{3000}'
  }

  /** The white space of Unicode, by code point. */
  lemma BlankCodes(c: char)
    ensures IsSpace(c) <==> c as int in [9, 10, 11, 12, 13, 32, 133, 160, 5760, 8192, 8193, 8194, 8195, 8196, 8197,
                                         8198, 8199, 8200, 8201, 8202, 8232, 8233, 8239, 8287, 12288]
  {
  }

  predicate Trimmed(s: string) {
    s != "" ==> !IsSpace(s[0]) && !IsSpace(s[|s| - 1])
  }

  function TrimLeft(s: string): string {
    if s != "" && IsSpace(s[0]) then TrimLeft(s[1..]) else s
  }

  function TrimRight(s: string): string {
    if s != "" && IsSpace(s[|s| - 1]) then TrimRight(s[..|s| - 1]) else s
  }

  /** `strings.TrimSpace`. */
  function TrimSpace(s: string): string {
    TrimRight(TrimLeft(s))
  }

  /** `strings.Index` for one character. */
  function Index(s: string, c: char): (i: int)
    ensures -1 <= i < |s|
    ensures i >= 0 ==> s[i] == c && c !in s[..i]
    ensures i < 0 ==> c !in s
  {
    if s == "" then -1
    else if s[0] == c then 0
    else
      var i := Index(s[1..], c);
      if i < 0 then -1 else i + 1
  }

  lemma IndexReaches(s: string, c: char, i: nat)
    requires i < |s| && s[i] == c
    ensures 0 <= Index(s, c) <= i
  {
    if s[0] == c {
    } else {
      IndexReaches(s[1..], c, i - 1);
    }
  }

  /** `strings.LastIndex` for one character. */
  function LastIndex(s: string, c: char): (i: int)
    ensures -1 <= i < |s|
    ensures i >= 0 ==> s[i] == c && c !in s[i + 1..]
    ensures i < 0 ==> c !in s
  {
    if s == "" then -1
    else if s[|s| - 1] == c then |s| - 1
    else LastIndex(s[..|s| - 1], c)
  }

  lemma LastIndexReaches(s: string, c: char, i: nat)
    requires i < |s| && s[i] == c
    ensures LastIndex(s, c) >= i
  {
    if s[|s| - 1] == c {
    } else {
      LastIndexReaches(s[..|s| - 1], c, i);
    }
  }

  /** `strings.Count` for one character. */
  function CountChar(s: string, c: char): nat {
    if s == "" then 0 else (if s[0] == c then 1 else 0) + CountChar(s[1..], c)
  }

  /** `strings.Split` at one character. */
  function Split(s: string, c: char): (parts: seq<string>)
    ensures parts != []
    ensures forall p :: p in parts ==> c !in p
    decreases |s|
  {
    var i := Index(s, c);
    if i < 0 then [s] else [s[..i]] + Split(s[i + 1..], c)
  }

  /** The length of the leading run of non-blank characters. */
  function WordLength(s: string): (n: nat)
    ensures n <= |s|
  {
    if s == "" || IsSpace(s[0]) then 0 else 1 + WordLength(s[1..])
  }

  /** `strings.Fields`. */
  function Fields(s: string): seq<string>
    decreases |s|
  {
    if s == "" then []
    else if IsSpace(s[0]) then Fields(s[1..])
    else [s[..WordLength(s)]] + Fields(s[WordLength(s)..])
  }

  /** `strings.TrimPrefix`. */
  function TrimPrefix(s: string, prefix: string): string {
    if prefix <= s then s[|prefix|..] else s
  }

  /** The number of leading spaces. */
  function Indent(s: string): nat {
    if s != "" && s[0] == ' ' then 1 + Indent(s[1..]) else 0
  }

  /** The characters that `unicode.ToLower` sends to a lower-case ASCII letter are sent there;
      every other character stays put, which no comparison with an ASCII keyword can notice. */
  function LowerChar(c: char): char {
    if 'A' <= c <= 'Z' then ((c as int) + 32) as char
    else if c == '\U{130}' then 'i'
    else if c == '\U{212A}' then 'k'
    else c
  }

  /** `strings.ToLower`, for comparison with ASCII keywords. */
  function ToLower(s: string): string {
    seq(|s|, i requires 0 <= i < |s| => LowerChar(s[i]))
  }

  lemma TrimLeftTrims(s: string)
    ensures TrimLeft(s) != "" ==> !IsSpace(TrimLeft(s)[0])
    ensures |TrimLeft(s)| <= |s| && TrimLeft(s) == s[|s| - |TrimLeft(s)|..]
  {
  }

  lemma TrimRightTrims(s: string)
    ensures TrimRight(s) != "" ==> !IsSpace(TrimRight(s)[|TrimRight(s)| - 1])
    ensures TrimRight(s) <= s
  {
  }

  /** `TrimSpace` returns a trimmed substring. */
  lemma TrimSpaceTrims(s: string)
    ensures Trimmed(TrimSpace(s))
    ensures forall c :: c in TrimSpace(s) ==> c in s
  {
    TrimLeftTrims(s);
    TrimRightTrims(TrimLeft(s));
  }

  /** `TrimSpace` strips one blank on either side of a trimmed text. */
  lemma TrimSpacePadded(a: char, s: string, b: char)
    requires Trimmed(s) && IsSpace(a) && IsSpace(b)
    ensures TrimSpace(s) == s
    ensures TrimSpace([a] + s) == s
    ensures TrimSpace(s + [b]) == s
    ensures TrimSpace([a] + s + [b]) == s
  {
    assert ([a] + s)[1..] == s;
    assert (s + [b])[..|s|] == s;
    if s == "" {
      assert [b][1..] == "" && [a][1..] == "" && ([a] + s + [b])[1..] == [b];
    } else {
      assert ([a] + s + [b])[1..] == s + [b];
    }
  }

  lemma SplitHead(line: string, c: char, rest: string)
    requires c !in line
    ensures Split(line + [c] + rest, c) == [line] + Split(rest, c)
  {
    var s := line + [c] + rest;
    var i := Index(s, c);
    assert s[|line|] == c;
    assert forall k :: 0 <= k < |line| ==> s[k] == line[k];
    assert s[..i] == line && s[i + 1..] == rest;
  }

  predicate Blank(s: string) {
    forall c :: c in s ==> IsSpace(c)
  }

  /** A word: some text without blanks. */
  predicate Word(s: string) {
    s != "" && forall c :: c in s ==> !IsSpace(c)
  }

  function Blanks(n: nat): string {
    seq(n, _ => ' ')
  }

  /** Words on one line, with `pad` more blanks than one between them. */
  function Laid(words: seq<string>, pad: nat -> nat): string {
    if words == [] then ""
    else if |words| == 1 then words[0]
    else words[0] + ([' '] + Blanks(pad(|words|)) + Laid(words[1..], pad))
  }

  lemma TrimLeftLed(lead: string, s: string)
    requires Blank(lead)
    ensures TrimLeft(lead + s) == TrimLeft(s)
  {
    if lead == "" {
      assert lead + s == s;
    } else {
      assert (lead + s)[1..] == lead[1..] + s;
      TrimLeftLed(lead[1..], s);
    }
  }

  lemma TrimSpaceLed(lead: string, s: string)
    requires Blank(lead) && Trimmed(s)
    ensures TrimSpace(lead + s) == s
  {
    TrimLeftLed(lead, s);
    TrimSpacePadded(' ', s, ' ');
  }

  lemma TrimSpaceLedThen(lead: string, s: string)
    requires Blank(lead) && Trimmed(s)
    ensures TrimSpace(lead + s + " ") == s
  {
    TrimLeftLed(lead, s + " ");
    assert lead + s + " " == lead + (s + " ");
    TrimSpacePadded(' ', s, ' ');
  }

  lemma TrimRightTrailed(s: string, trail: string)
    requires Blank(trail)
    ensures TrimRight(s + trail) == TrimRight(s)
  {
    if trail == "" {
      assert s + trail == s;
    } else {
      var n := |trail| - 1;
      assert (s + trail)[..|s| + n] == s + trail[..n];
      TrimRightTrailed(s, trail[..n]);
    }
  }

  /** `TrimSpace` strips any blanks around a trimmed text, and nothing else. */
  lemma TrimSpaceAround(lead: string, s: string, trail: string)
    requires Blank(lead) && Trimmed(s) && Blank(trail)
    ensures TrimSpace(lead + s + trail) == s
  {
    assert lead + s + trail == lead + (s + trail);
    TrimLeftLed(lead, s + trail);
    if s == "" {
      assert s + trail == trail + "";
      TrimLeftLed(trail, "");
    } else {
      assert TrimLeft(s + trail) == s + trail;
      TrimRightTrailed(s, trail);
    }
  }

  lemma IndentBlanks(n: nat, s: string)
    requires s == "" || s[0] != ' '
    ensures Indent(Blanks(n) + s) == n
  {
    if n == 0 {
      assert Blanks(0) + s == s;
    } else {
      assert (Blanks(n) + s)[1..] == Blanks(n - 1) + s;
      IndentBlanks(n - 1, s);
    }
  }

  lemma WordLengthOf(w: string, rest: string)
    requires Word(w) && (rest == "" || IsSpace(rest[0]))
    ensures WordLength(w + rest) == |w|
  {
    assert (w + rest)[1..] == w[1..] + rest;
    if |w| == 1 {
      assert w[1..] + rest == rest;
    } else {
      assert forall c :: c in w[1..] ==> c in w;
      WordLengthOf(w[1..], rest);
    }
  }

  lemma FieldsLed(lead: string, s: string)
    requires Blank(lead)
    ensures Fields(lead + s) == Fields(s)
  {
    if lead == "" {
      assert lead + s == s;
    } else {
      assert (lead + s)[1..] == lead[1..] + s;
      FieldsLed(lead[1..], s);
    }
  }

  lemma FieldsWord(w: string, rest: string)
    requires Word(w) && (rest == "" || IsSpace(rest[0]))
    ensures Fields(w + rest) == [w] + Fields(rest)
  {
    WordLengthOf(w, rest);
    hide WordLength;
    assert w[0] in w && (w + rest)[0] == w[0];
    assert (w + rest)[..|w|] == w && (w + rest)[|w|..] == rest;
  }

  /** `Fields` gives back the words of a line, whatever the padding. */
  lemma {:induction false} FieldsLaid(words: seq<string>, pad: nat -> nat)
    requires forall w :: w in words ==> Word(w)
    ensures Fields(Laid(words, pad)) == words
    decreases |words|
  {
    if words == [] {
    } else if |words| == 1 {
      FieldsWord(words[0], "");
      assert words[0] + "" == words[0];
    } else {
      var lead, rest := [' '] + Blanks(pad(|words|)), Laid(words[1..], pad);
      FieldsWord(words[0], lead + rest);
      FieldsLed(lead, rest);
      FieldsLaid(words[1..], pad);
      hide Fields;
      assert [words[0]] + words[1..] == words;
    }
  }

  lemma {:induction false} LaidIsTrimmed(words: seq<string>, pad: nat -> nat)
    requires words != [] && forall w :: w in words ==> Word(w)
    ensures words[0] != "" && words[0] <= Laid(words, pad) && Trimmed(Laid(words, pad))
    ensures Laid(words, pad) == words[0] || Laid(words, pad)[|words[0]|] == ' '
    decreases |words|
  {
    var word := words[0];
    assert word in words && Word(word);
    assert word[0] in word && word[|word| - 1] in word;
    if |words| == 1 {
    } else {
      LaidIsTrimmed(words[1..], pad);
    }
  }
}
