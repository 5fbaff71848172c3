/** The readers of a listing against what they stand for: the regular expression of an entry, the
    shell-like tokeniser and the split into lines. */
module LsReaders {
  import opened Prelude
  import opened LsListing

  // ---------------------------------------------------------------- the regular expression

  /** The groups of the expression, the type and the permissions as one, and the white space between them. */
  datatype Match = Match(mode: string, links: string, user: string, group: string, size: string,
                         modified: string, filename: string, gaps: seq<string>)

  predicate IsGap(s: string) { s != "" && forall i | 0 <= i < |s| :: IsSpace(s[i]) }

  predicate IsWord(s: string) { s != "" && forall i | 0 <= i < |s| :: !IsSpace(s[i]) }

  predicate IsDate(s: string) {
    s != "" && forall i | 0 <= i < |s| :: '0' <= s[i] <= '9' || s[i] == '-' || s[i] == 'T' || s[i] == ':'
  }

  function Put(word: string, gap: string, rest: string): string { word + (gap + rest) }

  function TextOf(m: Match): string
    requires |m.gaps| == 6
  {
    Put(m.mode, m.gaps[0], Put(m.links, m.gaps[1], Put(m.user, m.gaps[2],
      Put(m.group, m.gaps[3], Put(m.size, m.gaps[4], Put(m.modified, m.gaps[5], m.filename))))))
  }

  /** The line matches with these groups. */
  predicate Matches(line: string, m: Match) {
    && |m.gaps| == 6 && (forall i | 0 <= i < 6 :: IsGap(m.gaps[i]))
    && |m.mode| >= 2 && IsWord(m.mode) && IsNumber(m.links) && IsWord(m.user) && IsWord(m.group)
    && IsNumber(m.size) && IsDate(m.modified) && m.filename != ""
    && line == TextOf(m)
  }

  predicate IsBlank(s: string) { forall i | 0 <= i < |s| :: IsSpace(s[i]) }

  function ColumnsOf(m: Match): Columns { Columns(m.mode, m.user, m.group, m.size, m.modified) }

  predicate AllIn(k: Class, s: string) { s != "" && forall i | 0 <= i < |s| :: In(k, s[i]) }

  lemma {:induction false} RunStops(k: Class, word: string, rest: string)
    requires (forall i | 0 <= i < |word| :: In(k, word[i])) && rest != "" && !In(k, rest[0])
    ensures Run(k, word + rest) == |word|
    decreases |word|
  {
    if word == "" {
      assert word + rest == rest;
    } else {
      assert (word + rest)[1..] == word[1..] + rest;
      RunStops(k, word[1..], rest);
    }
  }

  lemma {:induction false} SpaceRunStops(gap: string, rest: string)
    requires (forall i | 0 <= i < |gap| :: IsSpace(gap[i])) && (rest == "" || !IsSpace(rest[0]))
    ensures SpaceRun(gap + rest) == |gap|
    decreases |gap|
  {
    if gap == "" {
      assert gap + rest == rest;
    } else {
      assert (gap + rest)[1..] == gap[1..] + rest;
      SpaceRunStops(gap[1..], rest);
    }
  }

  lemma ColumnReads(k: Class, word: string, gap: string, rest: string)
    requires AllIn(k, word) && IsGap(gap) && (rest == "" || !IsSpace(rest[0]))
    ensures Column(k, Put(word, gap, rest)) == Some((word, rest))
  {
    var s := Put(word, gap, rest);
    RunStops(k, word, gap + rest);
    SpaceRunStops(gap, rest);
    assert s[..|word|] == word && s[|word|..] == gap + rest;
    assert s[|word| + |gap|..] == rest;
  }

  lemma {:induction false} RunIsIn(k: Class, s: string)
    ensures forall i | 0 <= i < Run(k, s) :: In(k, s[i])
    decreases |s|
  {
    if s != "" && In(k, s[0]) {
      RunIsIn(k, s[1..]);
      assert forall i | 0 < i < |s| :: s[i] == s[1..][i - 1];
    }
  }

  lemma {:induction false} SpaceRunIsSpace(s: string)
    ensures forall i | 0 <= i < SpaceRun(s) :: IsSpace(s[i])
    ensures SpaceRun(s) < |s| ==> !IsSpace(s[SpaceRun(s)])
    decreases |s|
  {
    if s != "" && IsSpace(s[0]) {
      SpaceRunIsSpace(s[1..]);
      assert forall i | 0 < i < |s| :: s[i] == s[1..][i - 1];
    }
  }

  predicate IsOf(k: Class, s: string) {
    match k case NonSpace => IsWord(s) case Digit => IsNumber(s) case DateChar => IsDate(s)
  }

  predicate StartsTight(s: string) { s == "" || !IsSpace(s[0]) }

  lemma ColumnShows(k: Class, s: string) returns (word: string, gap: string, rest: string)
    requires Column(k, s).Some?
    ensures Column(k, s) == Some((word, rest))
    ensures IsOf(k, word) && IsGap(gap) && StartsTight(rest) && s == Put(word, gap, rest)
  {
    var n := Run(k, s);
    var g := SpaceRun(s[n..]);
    word, gap, rest := s[..n], s[n..][..g], s[n + g..];
    RunIsIn(k, s);
    SpaceRunIsSpace(s[n..]);
    assert AllIn(k, word);
    assert s[n..] == gap + rest;
    assert s == s[..n] + s[n..];
  }

  /** The groups of a match whose file name starts with no white space are what the columns give. */
  lemma OwnerReads(line: string, m: Match, rest: string)
    requires |m.gaps| == 6 && (forall i | 0 <= i < 6 :: IsGap(m.gaps[i]))
    requires |m.mode| >= 2 && IsWord(m.mode) && IsNumber(m.links) && IsWord(m.user) && IsWord(m.group)
    requires rest != "" && !IsSpace(rest[0])
    requires line == Put(m.mode, m.gaps[0], Put(m.links, m.gaps[1],
                       Put(m.user, m.gaps[2], Put(m.group, m.gaps[3], rest))))
    ensures MatchOwner(line) == Some((m.mode, m.user, m.group, rest))
  {
    var s4 := Put(m.group, m.gaps[3], rest);
    var s3 := Put(m.user, m.gaps[2], s4);
    var s2 := Put(m.links, m.gaps[1], s3);
    ColumnReads(NonSpace, m.group, m.gaps[3], rest);
    ColumnReads(NonSpace, m.user, m.gaps[2], s4);
    ColumnReads(Digit, m.links, m.gaps[1], s3);
    ColumnReads(NonSpace, m.mode, m.gaps[0], s2);
  }

  lemma MatchReads(line: string, m: Match)
    requires Matches(line, m) && !IsSpace(m.filename[0])
    ensures MatchEntry(line) == Some((ColumnsOf(m), m.filename))
  {
    var s5 := Put(m.modified, m.gaps[5], m.filename);
    var s4 := Put(m.size, m.gaps[4], s5);
    OwnerReads(line, m, s4);
    ColumnReads(DateChar, m.modified, m.gaps[5], m.filename);
    ColumnReads(Digit, m.size, m.gaps[4], s5);
  }

  /** Two columns with the gap after each, and the text that is left. */
  datatype Pair = Pair(a: string, g: string, b: string, h: string, rest: string)

  predicate ShowsPair(s: string, k: Class, l: Class, p: Pair) {
    && IsOf(k, p.a) && IsGap(p.g) && IsOf(l, p.b) && IsGap(p.h) && StartsTight(p.rest)
    && s == Put(p.a, p.g, Put(p.b, p.h, p.rest))
  }

  lemma PairShows(k: Class, l: Class, s: string) returns (p: Pair)
    requires Column(k, s).Some? && Column(l, Column(k, s).value.1).Some?
    ensures ShowsPair(s, k, l, p)
    ensures Column(k, s).value.0 == p.a && Column(l, Column(k, s).value.1) == Some((p.b, p.rest))
  {
    var a, g, t := ColumnShows(k, s);
    var b, h, rest := ColumnShows(l, t);
    p := Pair(a, g, b, h, rest);
  }

  lemma AfterOwner(line: string)
    requires MatchEntry(line).Some?
    ensures Column(NonSpace, line).Some? && Column(Digit, Column(NonSpace, line).value.1).Some?
    ensures var s2 := Column(Digit, Column(NonSpace, line).value.1).value.1;
      Column(NonSpace, s2).Some? && Column(NonSpace, Column(NonSpace, s2).value.1).Some?
      && var s4 := Column(NonSpace, Column(NonSpace, s2).value.1).value.1;
         Column(Digit, s4).Some? && Column(DateChar, Column(Digit, s4).value.1).Some?
  {
  }

  lemma EntryOfPairs(line: string, p: Pair, q: Pair, r: Pair)
    requires MatchEntry(line).Some? && Column(NonSpace, line).Some? && Column(NonSpace, line).value.0 == p.a
    requires Column(Digit, Column(NonSpace, line).value.1) == Some((p.b, p.rest))
    requires Column(NonSpace, p.rest).Some? && Column(NonSpace, p.rest).value.0 == q.a
    requires Column(NonSpace, Column(NonSpace, p.rest).value.1) == Some((q.b, q.rest))
    requires Column(Digit, q.rest).Some? && Column(Digit, q.rest).value.0 == r.a
    requires Column(DateChar, Column(Digit, q.rest).value.1) == Some((r.b, r.rest))
    ensures MatchEntry(line) == Some((Columns(p.a, q.a, q.b, r.a, r.b), r.rest))
    ensures |p.a| >= 2 && r.rest != ""
  {
  }

  lemma PairsShow(line: string) returns (p: Pair, q: Pair, r: Pair)
    requires MatchEntry(line).Some?
    ensures ShowsPair(line, NonSpace, Digit, p) && ShowsPair(p.rest, NonSpace, NonSpace, q)
    ensures ShowsPair(q.rest, Digit, DateChar, r)
    ensures |p.a| >= 2 && r.rest != "" && MatchEntry(line) == Some((Columns(p.a, q.a, q.b, r.a, r.b), r.rest))
  {
    AfterOwner(line);
    p := PairShows(NonSpace, Digit, line);
    q := PairShows(NonSpace, NonSpace, p.rest);
    r := PairShows(Digit, DateChar, q.rest);
    EntryOfPairs(line, p, q, r);
  }

  function MatchOf(p: Pair, q: Pair, r: Pair): Match {
    Match(p.a, p.b, q.a, q.b, r.a, r.b, r.rest, [p.g, p.h, q.g, q.h, r.g, r.h])
  }

  lemma PairsMatch(line: string, p: Pair, q: Pair, r: Pair)
    requires |p.a| >= 2 && r.rest != ""
    requires ShowsPair(line, NonSpace, Digit, p) && ShowsPair(p.rest, NonSpace, NonSpace, q)
    requires ShowsPair(q.rest, Digit, DateChar, r)
    ensures Matches(line, MatchOf(p, q, r)) && !IsSpace(r.rest[0])
  {
  }

  lemma MatchShows(line: string) returns (m: Match)
    requires MatchEntry(line).Some?
    ensures Matches(line, m) && MatchEntry(line) == Some((ColumnsOf(m), m.filename)) && !IsSpace(m.filename[0])
  {
    var p, q, r := PairsShow(line);
    PairsMatch(line, p, q, r);
    m := MatchOf(p, q, r);
  }

  /** For any line: the parser's columns and file name are the groups of a match, the one in which the
      white space before the file name is longest. */
  lemma MatchEntryIff(line: string, cols: Columns, filename: string)
    ensures MatchEntry(line) == Some((cols, filename)) <==>
      exists m :: Matches(line, m) && cols == ColumnsOf(m) && filename == m.filename && !IsSpace(filename[0])
  {
    if MatchEntry(line) == Some((cols, filename)) {
      var m := MatchShows(line);
    }
    if m :| Matches(line, m) && cols == ColumnsOf(m) && filename == m.filename && !IsSpace(filename[0]) {
      MatchReads(line, m);
    }
  }

  /** White space that starts the file name belongs to the gap before it. */
  lemma LongestGap(line: string, m: Match) returns (longest: Match)
    requires Matches(line, m) && !IsBlank(m.filename)
    ensures Matches(line, longest) && !IsSpace(longest.filename[0])
  {
    var n := SpaceRun(m.filename);
    SpaceRunIsSpace(m.filename);
    assert n < |m.filename|;
    var gap := m.gaps[5] + m.filename[..n];
    longest := m.(filename := m.filename[n..], gaps := m.gaps[..5] + [gap]);
    assert gap + m.filename[n..] == m.gaps[5] + m.filename;
  }

  /** And the parser finds nothing exactly if every match has nothing but white space for a file name,
      in which there is no token. */
  lemma NoEntryIff(line: string)
    ensures MatchEntry(line).None? <==> forall m | Matches(line, m) :: IsBlank(m.filename)
  {
    if m :| Matches(line, m) && !IsBlank(m.filename) {
      var longest := LongestGap(line, m);
      MatchReads(line, longest);
    }
    if MatchEntry(line).Some? {
      var m := MatchShows(line);
      assert !IsBlank(m.filename);
    }
  }

  // ---------------------------------------------------------------- the tokeniser

  /** Single quotes keep everything up to the next one, and an open quotation is an error. */
  lemma {:induction false} SingleQuotesKeep(t: string, rest: string, word: string)
    requires '\'' !in t
    ensures Lex(t + (['\''] + rest), Single, word) == Lex(rest, Word, word + t)
    ensures Lex(t, Single, word) == None
    decreases |t|
  {
    var s := t + (['\''] + rest);
    if t == "" {
      assert s == ['\''] + rest && s[1..] == rest && word + t == word;
    } else {
      assert s[1..] == t[1..] + (['\''] + rest);
      SingleQuotesKeep(t[1..], rest, word + [t[0]]);
      assert word + [t[0]] + t[1..] == word + t;
    }
  }

  lemma {:induction false} OpenDoubleQuotesFail(t: string, word: string)
    requires '"' !in t
    ensures Lex(t, Double, word) == None && Lex(t, EscapeInDouble, word) == None
    decreases |t|
  {
    if t != "" {
      OpenDoubleQuotesFail(t[1..], word + [t[0]]);
      OpenDoubleQuotesFail(t[1..], word);
      OpenDoubleQuotesFail(t[1..], word + (if t[0] == '\\' then ['\\'] else ['\\', t[0]]));
    }
  }

  /** A backslash keeps the character after it, and at the end it is an error. */
  lemma BackslashKeeps(c: char, rest: string, word: string)
    ensures Lex(['\\', c] + rest, Word, word) == Lex(rest, Word, word + [c])
    ensures Lex(['\\'], Word, word) == None
  {
    var s, t := ['\\', c] + rest, [c] + rest;
    assert s[0] == '\\' && s[1..] == t && t[0] == c && t[1..] == rest;
    assert Lex(s, Word, word) == LexStep('\\', t, word) == Lex(t, EscapeInWord, word);
    assert ['\\'][1..] == "";
  }

  // ---------------------------------------------------------------- lines

  /** Every break that `splitlines` knows. */
  const BREAKS: seq<string> :=
    ["\n", "\r\n", "\r", "\U{0B}", "\U{0C}", "\U{1C}", "\U{1D}", "\U{1E}", "\U{85}", "\U{2028}", "\U{2029}"]

  predicate HasNoBreak(s: string) { forall i | 0 <= i < |s| :: [s[i]] !in BREAKS }

  datatype BrokenLine = BrokenLine(text: string, end: string)

  function Written(lines: seq<BrokenLine>, last: string): string {
    if lines == [] then last else lines[0].text + (lines[0].end + Written(lines[1..], last))
  }

  function TextsOf(lines: seq<BrokenLine>, last: string): seq<string> {
    if lines == [] then (if last == "" then [] else [last]) else [lines[0].text] + TextsOf(lines[1..], last)
  }

  /** No carriage return is followed by a line feed unless they are one break. */
  predicate AreLines(lines: seq<BrokenLine>, last: string) {
    if lines == [] then HasNoBreak(last)
    else
      && HasNoBreak(lines[0].text) && lines[0].end in BREAKS && AreLines(lines[1..], last)
      && !(lines[0].end == "\r" && "\n" <= Written(lines[1..], last))
  }

  lemma BreakIff(c: char)
    ensures IsBreak(c) <==> [c] in BREAKS
  {
    if IsBreak(c) {
      var k := match c
        case '\n' => 0 case '\r' => 2 case '\U{0B}' => 3 case '\U{0C}' => 4 case '\U{1C}' => 5
        case '\U{1D}' => 6 case '\U{1E}' => 7 case '\U{85}' => 8 case '\U{2028}' => 9 case _ => 10;
      assert BREAKS[k] == [c];
    }
    if [c] in BREAKS {
      var k :| 0 <= k < |BREAKS| && BREAKS[k] == [c];
      assert BREAKS[k][0] == c;
    }
  }

  lemma {:induction false} BreakIsAt(text: string, rest: string)
    requires HasNoBreak(text) && rest != "" && IsBreak(rest[0])
    ensures BreakAt(text + rest) == |text|
    decreases |text|
  {
    if text == "" {
      assert text + rest == rest;
    } else {
      BreakIff(text[0]);
      assert (text + rest)[1..] == text[1..] + rest;
      BreakIsAt(text[1..], rest);
    }
  }

  lemma {:induction false} NoBreakAt(text: string)
    requires HasNoBreak(text)
    ensures BreakAt(text) == |text|
    decreases |text|
  {
    if text != "" {
      BreakIff(text[0]);
      NoBreakAt(text[1..]);
    }
  }

  lemma EndsAreBreaks(end: string)
    requires end in BREAKS
    ensures end != "" && IsBreak(end[0]) && (|end| == 1 || end == "\r\n")
  {
    var k :| 0 <= k < |BREAKS| && BREAKS[k] == end;
    if |end| == 1 {
      assert end == [end[0]];
      BreakIff(end[0]);
    }
  }

  lemma FirstLine(text: string, end: string, rest: string)
    requires HasNoBreak(text) && end in BREAKS && !(end == "\r" && "\n" <= rest)
    ensures Lines(text + (end + rest)) == [text] + Lines(rest)
  {
    var s := text + (end + rest);
    EndsAreBreaks(end);
    BreakIsAt(text, end + rest);
    assert s[..|text|] == text && s[|text|..] == end + rest && s[|text| + |end|..] == rest;
    assert s[|text|] == end[0];
    assert |s| > |text| + 1 ==> s[|text| + 1] == (end + rest)[1];
  }

  /** Text written as lines with any of the breaks is split into those lines; the last one may be open. */
  lemma {:induction false} LinesReadBack(lines: seq<BrokenLine>, last: string)
    requires AreLines(lines, last)
    ensures Lines(Written(lines, last)) == TextsOf(lines, last)
    decreases |lines|
  {
    if lines == [] {
      NoBreakAt(last);
    } else {
      LinesReadBack(lines[1..], last);
      FirstLine(lines[0].text, lines[0].end, Written(lines[1..], last));
    }
  }
}
