/** What `ls -l --quoting-style=c` prints, and the proof that parsing undoes it. */
module LsPrinter {
  import opened Prelude
  import opened Text
  import opened LsListing

  // ---------------------------------------------------------------- names in C quotes

  predicate IsControl(c: char) { c as int < 32 || c as int == 127 }

  predicate IsEscaped(c: char, colon: bool) { c == '"' || c == '\\' || (colon && c == ':') || IsControl(c) }

  function OctalDigit(d: nat): char
    requires d < 8
  {
    ('0' as int + d) as char
  }

  /** What stands for a control character after a backslash: a letter, or three octal digits. */
  function Code(c: char): (code: string)
    requires IsControl(c)
    ensures code != ""
    ensures forall i | 0 <= i < |code| :: '0' <= code[i] <= '7' || 'a' <= code[i] <= 'z'
  {
    var n := c as int;
    if n == 7 then "a" else if n == 8 then "b" else if n == 9 then "t" else if n == 10 then "n"
    else if n == 11 then "v" else if n == 12 then "f" else if n == 13 then "r"
    else [OctalDigit(n / 64), OctalDigit(n / 8 % 8), OctalDigit(n % 8)]
  }

  /** A backslash before every quote and backslash, in folder headers before colons too, and a code
      for every control character. */
  function Escape(s: string, colon: bool): string {
    if s == "" then "" else EscapeChar(s[0], colon) + Escape(s[1..], colon)
  }

  function EscapeChar(c: char, colon: bool): (e: string)
    ensures IsEscaped(c, colon) ==> |e| >= 2
    ensures !IsEscaped(c, colon) ==> e == [c]
  {
    if IsControl(c) then ['\\'] + Code(c) else if IsEscaped(c, colon) then ['\\', c] else [c]
  }

  function Quoted(s: string): string { ['"'] + Escape(s, false) + ['"'] }

  /** What the tokeniser makes of a quoted name: it undoes only quotes and backslashes. */
  function ShownChar(c: char): string { if IsControl(c) then ['\\'] + Code(c) else [c] }

  function Shown(s: string): string { if s == "" then "" else ShownChar(s[0]) + Shown(s[1..]) }

  predicate NoControl(s: string) { forall i | 0 <= i < |s| :: !IsControl(s[i]) }

  /** Names are shown as they are exactly when they have no control character. */
  lemma {:induction false} ShownIsNameIff(s: string)
    ensures |Shown(s)| >= |s| && (Shown(s) == s <==> NoControl(s)) && (|Shown(s)| == |s| <==> NoControl(s))
    decreases |s|
  {
    if s != "" {
      ShownIsNameIff(s[1..]);
      assert s == [s[0]] + s[1..];
      assert forall i | 0 <= i < |s| - 1 :: s[1..][i] == s[i + 1];
      assert forall i | 0 < i < |s| :: s[i] == s[1..][i - 1];
      assert NoControl(s) <==> !IsControl(s[0]) && NoControl(s[1..]);
    }
  }

  lemma {:induction false} EscapedReads(s: string, rest: string, word: string)
    ensures Lex(Escape(s, false) + ['"'] + rest, Double, word) == Lex(rest, Word, word + Shown(s))
    decreases |s|
  {
    if s == "" {
      assert "" + ['"'] + rest == ['"'] + rest && (['"'] + rest)[1..] == rest && word + "" == word;
    } else {
      var c, tail := s[0], Escape(s[1..], false) + ['"'] + rest;
      assert Lex(tail, Double, word + ShownChar(c)) == Lex(rest, Word, word + ShownChar(c) + Shown(s[1..])) by {
        EscapedReads(s[1..], rest, word + ShownChar(c));
      }
      Regroup(word, ShownChar(c), Shown(s[1..]));
      Regroup(EscapeChar(c, false), Escape(s[1..], false), ['"']);
      Regroup(EscapeChar(c, false), Escape(s[1..], false) + ['"'], rest);
      CharReads(c, tail, word);
    }
  }

  lemma Regroup(a: string, b: string, c: string)
    ensures a + b + c == a + (b + c)
  {
  }

  /** Nothing special in double quotes. */
  lemma {:induction false} OrdinaryReads(s: string, tail: string, word: string)
    requires forall i | 0 <= i < |s| :: s[i] != '"' && s[i] != '\\'
    ensures Lex(s + tail, Double, word) == Lex(tail, Double, word + s)
    decreases |s|
  {
    if s == "" {
      assert s + tail == tail && word + s == word;
    } else {
      assert (s + tail)[0] == s[0] && (s + tail)[1..] == s[1..] + tail;
      OrdinaryReads(s[1..], tail, word + [s[0]]);
      assert word + [s[0]] + s[1..] == word + s;
    }
  }

  /** Before anything but a quote or a backslash the tokeniser keeps the backslash. */
  lemma CodeReads(code: string, tail: string, word: string)
    requires code != "" && forall i | 0 <= i < |code| :: code[i] != '"' && code[i] != '\\'
    ensures Lex(['\\'] + code + tail, Double, word) == Lex(tail, Double, word + (['\\'] + code))
  {
    var s := code + tail;
    assert ['\\'] + code + tail == ['\\'] + s && (['\\'] + s)[1..] == s;
    assert s[0] == code[0] && s[1..] == code[1..] + tail;
    assert Lex(s, EscapeInDouble, word) == Lex(code[1..] + tail, Double, word + ['\\', code[0]]);
    OrdinaryReads(code[1..], tail, word + ['\\', code[0]]);
    assert word + ['\\', code[0]] + code[1..] == word + (['\\'] + code);
  }

  lemma CharReads(c: char, tail: string, word: string)
    ensures Lex(EscapeChar(c, false) + tail, Double, word) == Lex(tail, Double, word + ShownChar(c))
  {
    if IsControl(c) {
      CodeReads(Code(c), tail, word);
    } else if IsEscaped(c, false) {
      assert EscapeChar(c, false) + tail == ['\\'] + ([c] + tail);
      assert (['\\'] + ([c] + tail))[1..] == [c] + tail && ([c] + tail)[1..] == tail;
      assert Lex([c] + tail, EscapeInDouble, word) == Lex(tail, Double, word + [c]);
    } else {
      assert ([c] + tail)[1..] == tail;
    }
  }

  lemma QuotedReads(s: string, rest: string)
    ensures Lex(Quoted(s) + rest, Between, "") == Lex(rest, Word, Shown(s))
  {
    var tail := Escape(s, false) + ['"'] + rest;
    assert Quoted(s) + rest == ['"'] + tail && (['"'] + tail)[1..] == tail;
    EscapedReads(s, rest, "");
    assert "" + Shown(s) == Shown(s);
  }

  /** A quoted name is one token, and a name with a link target is three. */
  lemma NameTokens(name: string)
    ensures Tokens(Quoted(name)) == Some([Shown(name)])
  {
    QuotedReads(name, "");
    assert Quoted(name) + "" == Quoted(name);
  }

  lemma ArrowReads(rest: string, name: string)
    ensures Lex([' ', '-', '>', ' '] + rest, Word, name) == Cons(name, Cons(['-', '>'], Lex(rest, Between, "")))
  {
    var d := [' '] + rest;
    var c := ['>'] + d;
    var b := ['-'] + c;
    assert [' ', '-', '>', ' '] + rest == [' '] + b;
    assert ([' '] + b)[1..] == b && b[1..] == c && c[1..] == d && d[1..] == rest;
    assert "" + ['-'] == ['-'] && ['-'] + ['>'] == ['-', '>'];
    assert Lex(b, Between, "") == Lex(c, Word, ['-']);
    assert Lex(c, Word, ['-']) == Lex(d, Word, ['-', '>']);
    assert Lex(d, Word, ['-', '>']) == Cons(['-', '>'], Lex(rest, Between, ""));
  }

  lemma LinkTokens(name: string, target: string)
    ensures Tokens(Quoted(name) + ([' ', '-', '>', ' '] + Quoted(target)))
         == Some([Shown(name), ['-', '>'], Shown(target)])
  {
    var n, t := Shown(name), Shown(target);
    QuotedReads(name, [' ', '-', '>', ' '] + Quoted(target));
    ArrowReads(Quoted(target), n);
    NameTokens(target);
    assert [['-', '>']] + [t] == [['-', '>'], t];
    assert [n] + [['-', '>'], t] == [n, ['-', '>'], t];
  }

  // ---------------------------------------------------------------- trees

  /** The size column; a character or block device shows its major and minor numbers there. */
  datatype Size = FileSize(digits: string) | DeviceNumbers(major: string, minor: string, gapMinor: nat)

  /** The columns of one entry; the gaps are the extra blanks that align them. */
  datatype Meta = Meta(kind: char, permissions: string, links: string, user: string, group: string,
                       size: Size, modified: string, gapLinks: nat, gapUser: nat, gapGroup: nat)

  datatype Node =
    | Leaf(meta: Meta, name: string)
    | Link(meta: Meta, name: string, target: string)
    | Directory(meta: Meta, name: string, total: nat, children: seq<Node>)

  predicate IsPrintable(s: string) { forall i | 0 <= i < |s| :: ' ' <= s[i] <= '~' }

  /** A column of printable characters without blanks. */
  predicate IsWord(s: string) { s != "" && forall i | 0 <= i < |s| :: '!' <= s[i] <= '~' }

  predicate IsDate(s: string) { s != "" && forall i | 0 <= i < |s| :: In(DateChar, s[i]) }

  predicate IsMeta(m: Meta) {
    IsWord([m.kind]) && IsWord(m.permissions) && IsPrintable(m.user) && IsPrintable(m.group) && IsDate(m.modified)
    && m.user != "" && m.group != "" && IsNumber(m.links)
    && match m.size
       case FileSize(digits) => IsNumber(digits)
       case DeviceNumbers(major, minor, _) => IsNumber(major) && IsNumber(minor)
  }

  /** The owner columns are words: no blank in the user's or the group's name. */
  predicate HasWordOwners(n: Node) { IsWord(n.meta.user) && IsWord(n.meta.group) }

  predicate IsAscii(s: string) { forall i | 0 <= i < |s| :: 1 <= s[i] as int < 128 }

  /** Any ASCII text: blanks, quotes, backslashes, arrows and control characters included. */
  predicate IsName(s: string) { s != "" && IsAscii(s) && '/' !in s }

  predicate IsDevice(n: Node) { n.meta.size.DeviceNumbers? }

  predicate IsNode(n: Node) {
    && IsMeta(n.meta) && IsName(n.name)
    && (n.Link? ==> IsAscii(n.target))
    && (IsDevice(n) ==> n.Leaf?)
    && (n.Directory? ==> forall i | 0 <= i < |n.children| :: IsNode(n.children[i]))
  }

  predicate AreNodes(ns: seq<Node>) { forall i | 0 <= i < |ns| :: IsNode(ns[i]) }

  // ---------------------------------------------------------------- one line

  function Blanks(n: nat): (s: string)
    ensures |s| == n
  {
    if n == 0 then "" else [' '] + Blanks(n - 1)
  }

  function Cell(text: string, gap: nat, rest: string): string { text + (Blanks(gap + 1) + rest) }

  function NameText(n: Node): string {
    match n
    case Link(_, name, target) => Quoted(name) + ([' ', '-', '>', ' '] + Quoted(target))
    case _ => Quoted(n.name)
  }

  function PrintSize(m: Meta, rest: string): string {
    match m.size
    case FileSize(digits) => Cell(digits, 0, Cell(m.modified, 0, rest))
    case DeviceNumbers(major, minor, gap) => Cell(major + [','], gap, Cell(minor, 0, Cell(m.modified, 0, rest)))
  }

  function PrintNode(n: Node): string {
    var m := n.meta;
    Cell([m.kind] + m.permissions, m.gapLinks,
      Cell(m.links, 0, Cell(m.user, m.gapUser, Cell(m.group, m.gapGroup, PrintSize(m, NameText(n))))))
  }

  /** The file a line stands for, under the given prefix. */
  function FileOf(n: Node, prefix: string): File {
    FileWith(n.meta, prefix + n.name, if n.Link? then Some(n.target) else None)
  }

  function FileWith(m: Meta, name: string, target: Option<string>): File {
    File(name, m.kind, target, m.user, m.group, m.permissions, m.modified, SizeText(m.size))
  }

  function SizeText(size: Size): string {
    match size
    case FileSize(digits) => digits
    case DeviceNumbers(major, minor, gap) => major + [','] + Blanks(gap + 1) + minor
  }

  lemma {:induction false} SpaceRunOfBlanks(g: nat, rest: string)
    requires rest == "" || !IsSpace(rest[0])
    ensures SpaceRun(Blanks(g) + rest) == g
  {
    if g == 0 {
      assert Blanks(0) + rest == rest;
    } else {
      assert (Blanks(g) + rest)[0] == ' ' && (Blanks(g) + rest)[1..] == Blanks(g - 1) + rest;
      SpaceRunOfBlanks(g - 1, rest);
    }
  }

  lemma {:induction false} RunStops(k: Class, text: string, rest: string)
    requires forall i | 0 <= i < |text| :: In(k, text[i])
    requires rest == "" || !In(k, rest[0])
    ensures Run(k, text + rest) == |text|
    decreases |text|
  {
    if text == "" {
      assert text + rest == rest;
    } else {
      assert (text + rest)[0] == text[0] && (text + rest)[1..] == text[1..] + rest;
      RunStops(k, text[1..], rest);
    }
  }

  predicate StartsWord(s: string) { s != "" && !IsSpace(s[0]) }

  /** A printed column is read back, and the next one follows. */
  lemma CellReads(k: Class, text: string, gap: nat, rest: string)
    requires text != "" && (forall i | 0 <= i < |text| :: In(k, text[i])) && StartsWord(rest)
    ensures Column(k, Cell(text, gap, rest)) == Some((text, rest))
  {
    var tail := Blanks(gap + 1) + rest;
    assert Run(k, text + tail) == |text| by {
      assert tail[0] == ' ';
      RunStops(k, text, tail);
    }
    assert SpaceRun(tail) == gap + 1 by { SpaceRunOfBlanks(gap + 1, rest); }
    ColumnSplits(k, text, tail);
    assert tail[gap + 1..] == rest;
  }

  lemma ColumnSplits(k: Class, text: string, tail: string)
    requires Run(k, text + tail) == |text| > 0 && SpaceRun(tail) > 0
    ensures Column(k, text + tail) == Some((text, tail[SpaceRun(tail)..]))
  {
    var s, g := text + tail, SpaceRun(tail);
    assert s[..|text|] == text && s[|text|..] == tail;
    assert s[|text| + g..] == tail[g..];
  }

  lemma WordCell(text: string, gap: nat, rest: string)
    requires IsWord(text) && StartsWord(rest)
    ensures Column(NonSpace, Cell(text, gap, rest)) == Some((text, rest)) && StartsWord(Cell(text, gap, rest))
  {
    forall i | 0 <= i < |text| ensures In(NonSpace, text[i]) { assert '!' <= text[i] <= '~'; }
    CellReads(NonSpace, text, gap, rest);
  }

  lemma DigitCell(text: string, gap: nat, rest: string)
    requires text != "" && AllDigits(text) && StartsWord(rest)
    ensures Column(Digit, Cell(text, gap, rest)) == Some((text, rest)) && StartsWord(Cell(text, gap, rest))
  {
    CellReads(Digit, text, gap, rest);
    assert IsDigit(text[0]);
  }

  lemma DateCell(text: string, rest: string)
    requires IsDate(text) && StartsWord(rest)
    ensures Column(DateChar, Cell(text, 0, rest)) == Some((text, rest)) && StartsWord(Cell(text, 0, rest))
  {
    CellReads(DateChar, text, 0, rest);
    assert In(DateChar, text[0]);
  }

  lemma NameStarts(n: Node)
    ensures StartsWord(NameText(n))
  {
    assert NameText(n)[0] == '"';
  }

  lemma OwnerReads(n: Node, rest: string)
    requires IsMeta(n.meta) && HasWordOwners(n) && StartsWord(rest)
    ensures var m := n.meta;
      MatchOwner(Cell([m.kind] + m.permissions, m.gapLinks,
        Cell(m.links, 0, Cell(m.user, m.gapUser, Cell(m.group, m.gapGroup, rest)))))
        == Some(([m.kind] + m.permissions, m.user, m.group, rest))
  {
    var m := n.meta;
    var s3 := Cell(m.group, m.gapGroup, rest);
    assert Column(NonSpace, s3) == Some((m.group, rest)) && StartsWord(s3) by { WordCell(m.group, m.gapGroup, rest); }
    var s2 := Cell(m.user, m.gapUser, s3);
    assert Column(NonSpace, s2) == Some((m.user, s3)) && StartsWord(s2) by { WordCell(m.user, m.gapUser, s3); }
    var s1 := Cell(m.links, 0, s2);
    assert Column(Digit, s1) == Some((m.links, s2)) && StartsWord(s1) by { DigitCell(m.links, 0, s2); }
    var mode := [m.kind] + m.permissions;
    assert Column(NonSpace, Cell(mode, m.gapLinks, s1)) == Some((mode, s1)) by { WordCell(mode, m.gapLinks, s1); }
  }

  lemma EntryReads(n: Node)
    requires IsMeta(n.meta) && HasWordOwners(n) && !IsDevice(n)
    ensures var m := n.meta;
      MatchEntry(PrintNode(n))
      == Some((Columns([m.kind] + m.permissions, m.user, m.group, m.size.digits, m.modified), NameText(n)))
  {
    var m := n.meta;
    NameStarts(n);
    DateCell(m.modified, NameText(n));
    DigitCell(m.size.digits, 0, Cell(m.modified, 0, NameText(n)));
    OwnerReads(n, PrintSize(m, NameText(n)));
  }

  /** The comma after a major number is neither a digit nor white space. */
  lemma CommaEndsTheColumn(major: string, rest: string)
    requires AllDigits(major)
    ensures Column(Digit, major + ([','] + rest)).None?
  {
    forall i | 0 <= i < |major| ensures In(Digit, major[i]) { assert IsDigit(major[i]); }
    RunStops(Digit, major, [','] + rest);
    assert (major + ([','] + rest))[|major|..] == [','] + rest;
  }

  /** So the pattern does not match a device's line. */
  lemma DeviceIsNoEntry(n: Node)
    requires IsMeta(n.meta) && HasWordOwners(n) && IsDevice(n)
    ensures MatchEntry(PrintNode(n)).None?
  {
    var m, size := n.meta, n.meta.size;
    var rest := PrintSize(m, NameText(n));
    var tail := Blanks(size.gapMinor + 1) + Cell(size.minor, 0, Cell(m.modified, 0, NameText(n)));
    assert rest == size.major + ([','] + tail);
    assert StartsWord(rest) by { assert IsDigit(size.major[0]) && rest[0] == size.major[0]; }
    OwnerReads(n, rest);
    assert Column(Digit, rest).None? by { CommaEndsTheColumn(size.major, tail); }
  }

  lemma NameTextTokens(n: Node)
    ensures Tokens(NameText(n))
         == Some(if n.Link? then [Shown(n.name), ['-', '>'], Shown(n.target)] else [Shown(n.name)])
  {
    match n {
      case Link(_, name, target) => LinkTokens(name, target);
      case _ => NameTokens(n.name);
    }
  }

  /** What the parser can make of an entry whose owners are words: its file with the names as the
      tokeniser shows them, or nothing for a device. */
  function ReadableFile(n: Node, prefix: string): seq<File> {
    if IsDevice(n) then []
    else [FileWith(n.meta, prefix + Shown(n.name), if n.Link? then Some(Shown(n.target)) else None)]
  }

  /** A printed entry parses to exactly that file, and a device's entry to none. */
  lemma LineReads(n: Node, prefix: string)
    requires IsNode(n) && HasWordOwners(n)
    ensures LineFiles(PrintNode(n), prefix) == Some(ReadableFile(n, prefix))
  {
    if IsDevice(n) {
      DeviceIsNoEntry(n);
    } else {
      EntryReads(n);
      NameTextTokens(n);
      MatchedFile(n, PrintNode(n), prefix);
    }
  }

  lemma MatchedFile(n: Node, line: string, prefix: string)
    requires !IsDevice(n)
    requires var m := n.meta;
      MatchEntry(line)
      == Some((Columns([m.kind] + m.permissions, m.user, m.group, m.size.digits, m.modified), NameText(n)))
    requires Tokens(NameText(n))
          == Some(if n.Link? then [Shown(n.name), ['-', '>'], Shown(n.target)] else [Shown(n.name)])
    ensures LineFiles(line, prefix) == Some(ReadableFile(n, prefix))
  {
    var m := n.meta;
    assert ([m.kind] + m.permissions)[1..] == m.permissions;
  }

  // ---------------------------------------------------------------- which entries read back

  predicate NoSpace(s: string) { forall i | 0 <= i < |s| :: !IsSpace(s[i]) }

  lemma {:induction false} RunHasNoSpace(s: string)
    ensures NoSpace(s[..Run(NonSpace, s)])
    decreases |s|
  {
    if s != "" && In(NonSpace, s[0]) {
      var n := Run(NonSpace, s[1..]);
      RunHasNoSpace(s[1..]);
      assert s[..1 + n] == [s[0]] + s[1..][..n];
    }
  }

  /** Whatever the line, the owners the pattern finds have no white space. */
  lemma MatchedOwnersAreWords(line: string)
    ensures var m := MatchOwner(line); m.Some? ==> NoSpace(m.value.1) && NoSpace(m.value.2)
  {
    var m := MatchOwner(line);
    if m.Some? {
      var s2 := Column(Digit, Column(NonSpace, line).value.1).value.1;
      RunHasNoSpace(s2);
      RunHasNoSpace(Column(NonSpace, s2).value.1);
    }
  }

  lemma EntryOwnersAreWords(line: string)
    ensures var m := MatchEntry(line); m.Some? ==> NoSpace(m.value.0.user) && NoSpace(m.value.0.group)
  {
    MatchedOwnersAreWords(line);
  }

  lemma LineGivesWords(line: string, prefix: string)
    ensures var r := LineFiles(line, prefix);
      r.Some? ==>
        |r.value| <= 1 && forall i | 0 <= i < |r.value| :: NoSpace(r.value[i].user) && NoSpace(r.value[i].group)
  {
    EntryOwnersAreWords(line);
    FilesAreMade(line, prefix);
  }

  lemma FilesAreMade(line: string, prefix: string)
    ensures var m, r := MatchEntry(line), LineFiles(line, prefix);
      r.Some? ==> r.value == [] || (|r.value| == 1 && m.Some? && r.value[0].user == m.value.0.user
                                    && r.value[0].group == m.value.0.group)
  {
  }

  /** Nothing about the entry is lost or changed. */
  predicate IsPlainNode(n: Node) {
    !IsDevice(n) && HasWordOwners(n) && NoControl(n.name) && (n.Link? ==> NoControl(n.target))
  }

  lemma SpacelessIsWord(s: string)
    requires s != "" && IsPrintable(s) && NoSpace(s)
    ensures IsWord(s)
  {
  }

  lemma NamesAgree(p: string, shown: string, q: string, name: string)
    requires |p| >= |q| && |shown| >= |name|
    ensures p + shown == q + name <==> p == q && shown == name
  {
    if p + shown == q + name {
      assert |p + shown| == |q + name|;
      assert p == (p + shown)[..|p|] && q == (q + name)[..|p|];
      assert shown == (p + shown)[|p|..] && name == (q + name)[|p|..];
    }
  }

  /** An entry's line gives its file exactly if the entry is plain and the prefix is the right one. */
  lemma NodeReadsIff(n: Node, p: string, q: string)
    requires IsNode(n) && |p| >= |q|
    ensures LineFiles(PrintNode(n), p) == Some([FileOf(n, q)]) <==> IsPlainNode(n) && p == q
  {
    if HasWordOwners(n) {
      LineReads(n, p);
      ShownIsNameIff(n.name);
      NamesAgree(p, Shown(n.name), q, n.name);
      if n.Link? {
        ShownIsNameIff(n.target);
      }
      if !IsDevice(n) {
        assert ReadableFile(n, p)[0].name == p + Shown(n.name) && [FileOf(n, q)][0].name == q + n.name;
        assert ReadableFile(n, p) == [FileOf(n, q)] <==> ReadableFile(n, p)[0] == FileOf(n, q);
      } else {
        assert |ReadableFile(n, p)| == 0;
      }
    } else if LineFiles(PrintNode(n), p) == Some([FileOf(n, q)]) {
      LineGivesWords(PrintNode(n), p);
      assert [FileOf(n, q)][0].user == n.meta.user && [FileOf(n, q)][0].group == n.meta.group;
      SpacelessIsWord(n.meta.user);
      SpacelessIsWord(n.meta.group);
    }
  }

  // ---------------------------------------------------------------- line breaks and headers

  predicate NoBreak(s: string) { forall i | 0 <= i < |s| :: !IsBreak(s[i]) }

  lemma PrintableHasNoBreak(s: string)
    requires IsPrintable(s)
    ensures NoBreak(s)
  {
  }

  lemma {:induction false} EscapeIsPrintable(s: string, colon: bool)
    requires IsAscii(s)
    ensures IsPrintable(Escape(s, colon))
    decreases |s|
  {
    if s != "" {
      assert IsPrintable(EscapeChar(s[0], colon));
      EscapeIsPrintable(s[1..], colon);
    }
  }

  lemma {:induction false} BlanksArePrintable(n: nat)
    ensures IsPrintable(Blanks(n))
  {
    if n > 0 {
      BlanksArePrintable(n - 1);
    }
  }

  lemma CellIsPrintable(text: string, gap: nat, rest: string)
    requires IsPrintable(text) && IsPrintable(rest)
    ensures IsPrintable(Cell(text, gap, rest))
    ensures rest != "" ==> Cell(text, gap, rest)[|Cell(text, gap, rest)| - 1] == rest[|rest| - 1]
  {
    BlanksArePrintable(gap + 1);
  }

  lemma QuotedIsPrintable(s: string)
    requires IsAscii(s)
    ensures IsPrintable(Quoted(s)) && |Quoted(s)| >= 2 && Quoted(s)[|Quoted(s)| - 1] == '"'
  {
    EscapeIsPrintable(s, false);
  }

  lemma NameTextEnds(n: Node)
    requires IsNode(n)
    ensures IsPrintable(NameText(n)) && NameText(n) != "" && NameText(n)[|NameText(n)| - 1] == '"'
  {
    QuotedIsPrintable(n.name);
    if n.Link? {
      QuotedIsPrintable(n.target);
      var a, b := Quoted(n.name), [' ', '-', '>', ' '];
      assert IsPrintable(b + Quoted(n.target)) && (b + Quoted(n.target))[|b| + |Quoted(n.target)| - 1] == '"';
    }
  }

  lemma SizeIsPrintable(m: Meta, rest: string)
    requires IsMeta(m) && IsPrintable(rest) && rest != ""
    ensures var s := PrintSize(m, rest); IsPrintable(s) && s != "" && s[|s| - 1] == rest[|rest| - 1]
  {
    forall i | 0 <= i < |m.modified| ensures ' ' <= m.modified[i] <= '~' { assert In(DateChar, m.modified[i]); }
    CellIsPrintable(m.modified, 0, rest);
    var tail := Cell(m.modified, 0, rest);
    match m.size {
      case FileSize(digits) => CellIsPrintable(digits, 0, tail);
      case DeviceNumbers(major, minor, gap) =>
        CellIsPrintable(minor, 0, tail);
        CellIsPrintable(major + [','], gap, Cell(minor, 0, tail));
    }
  }

  /** Every entry line is printable and ends in a quote: it can be no folder header. */
  lemma EntryLineEnds(n: Node)
    requires IsNode(n)
    ensures var s := PrintNode(n); IsPrintable(s) && s != "" && s[|s| - 1] == '"'
  {
    var m := n.meta;
    NameTextEnds(n);
    var s4 := PrintSize(m, NameText(n));
    SizeIsPrintable(m, NameText(n));
    var s3 := Cell(m.group, m.gapGroup, s4);
    CellIsPrintable(m.group, m.gapGroup, s4);
    var s2 := Cell(m.user, m.gapUser, s3);
    CellIsPrintable(m.user, m.gapUser, s3);
    var s1 := Cell(m.links, 0, s2);
    CellIsPrintable(m.links, 0, s2);
    assert IsPrintable([m.kind] + m.permissions);
    CellIsPrintable([m.kind] + m.permissions, m.gapLinks, s1);
  }

  lemma EntryIsNoHeader(n: Node)
    requires IsNode(n)
    ensures Header(PrintNode(n)).None? && NoBreak(PrintNode(n))
  {
    EntryLineEnds(n);
    PrintableHasNoBreak(PrintNode(n));
  }
}
