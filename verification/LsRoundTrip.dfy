/** Parsing a printed directory tree gives back its entries. */
module LsRoundTrip {
  import opened Prelude
  import opened Text
  import opened LsListing
  import opened LsPrinter

  // ---------------------------------------------------------------- text and lines

  predicate Clean(lines: seq<string>) { forall i | 0 <= i < |lines| :: NoBreak(lines[i]) }

  predicate NoHeaders(lines: seq<string>) { forall i | 0 <= i < |lines| :: Header(lines[i]).None? }

  lemma {:induction false} BreakAtFeed(line: string, rest: string)
    requires NoBreak(line)
    ensures BreakAt(line + ['\n'] + rest) == |line|
    decreases |line|
  {
    var s := line + ['\n'] + rest;
    if line != "" {
      assert s[0] == line[0] && s[1..] == line[1..] + ['\n'] + rest;
      BreakAtFeed(line[1..], rest);
    }
  }

  lemma LinesTakesALine(line: string, rest: string)
    requires NoBreak(line)
    ensures Lines(line + ['\n'] + rest) == [line] + Lines(rest)
  {
    BreakAtFeed(line, rest);
    var s := line + ['\n'] + rest;
    assert s[..|line|] == line && s[|line| + 1..] == rest;
  }

  lemma {:induction false} LinesOfUnlines(lines: seq<string>)
    requires Clean(lines)
    ensures Lines(Unlines(lines)) == lines
    decreases |lines|
  {
    if lines != [] {
      LinesTakesALine(lines[0], Unlines(lines[1..]));
      LinesOfUnlines(lines[1..]);
    }
  }

  lemma NoBreakNoFeed(line: string)
    requires NoBreak(line)
    ensures '\n' !in line
  {
    assert IsBreak('\n');
  }

  lemma {:induction false} PiecesOfUnlines(lines: seq<string>)
    requires Clean(lines)
    ensures Split(Unlines(lines), '\n') == lines + [""]
    decreases |lines|
  {
    if lines != [] {
      var rest := Unlines(lines[1..]);
      assert Unlines(lines) == lines[0] + ['\n'] + rest;
      NoBreakNoFeed(lines[0]);
      SplitCons(lines[0], '\n', rest);
      PiecesOfUnlines(lines[1..]);
      assert [lines[0]] + (lines[1..] + [""]) == lines + [""];
    }
  }

  /** Lines that are no headers stay together in front of what follows them. */
  lemma {:induction false} BodyStaysTogether(body: seq<string>, more: seq<string>)
    requires NoHeaders(body) && more != []
    ensures SplitFolders(body + more).0 == Unlines(body) + SplitFolders(more).0
    ensures SplitFolders(body + more).1 == SplitFolders(more).1
    decreases |body|
  {
    if body == [] {
      assert body + more == more;
    } else {
      assert (body + more)[1..] == body[1..] + more;
      BodyStaysTogether(body[1..], more);
    }
  }

  // ---------------------------------------------------------------- sections

  /** One folder of the listing. `path` is what the header shows, `rel` the way to it from the
      root folder, every component closed by a slash. */
  datatype Section = Section(path: string, rel: string, total: nat, nodes: seq<Node>)

  function NodeLines(ns: seq<Node>): seq<string> { seq(|ns|, i requires 0 <= i < |ns| => PrintNode(ns[i])) }

  function HeaderLine(path: string): string { ['"'] + Escape(path, true) + ['"', ':'] }

  function TotalLine(total: nat): string { ['t', 'o', 't', 'a', 'l', ' '] + Decimal(total) }

  /** The lines under a header; a blank one separates a folder from the next. */
  function Body(s: Section, last: bool): seq<string> {
    [TotalLine(s.total)] + NodeLines(s.nodes) + (if last then [] else [""])
  }

  function SectionLines(secs: seq<Section>): seq<string> {
    if secs == [] then []
    else [HeaderLine(secs[0].path)] + (Body(secs[0], |secs| == 1) + SectionLines(secs[1..]))
  }

  function FoldersOf(secs: seq<Section>): seq<Folder> {
    if secs == [] then []
    else [Folder(Escape(secs[0].path, true), Unlines(Body(secs[0], |secs| == 1)))] + FoldersOf(secs[1..])
  }

  predicate IsSection(s: Section) { s.path != "" && IsAscii(s.path) && AreNodes(s.nodes) }

  predicate AreSections(secs: seq<Section>) { forall i | 0 <= i < |secs| :: IsSection(secs[i]) }

  lemma HeaderIsHeader(path: string)
    requires path != "" && IsAscii(path)
    ensures Header(HeaderLine(path)) == Some(("", Escape(path, true))) && NoBreak(HeaderLine(path))
  {
    var h, e := HeaderLine(path), Escape(path, true);
    EscapeIsPrintable(path, true);
    assert e != "" by { assert |EscapeChar(path[0], true)| >= 1; }
    assert h[0] == '"' && FirstQuote(h) == 0;
    assert h[|h| - 2] == '"' && h[|h| - 1] == ':';
    assert h[1..|h| - 2] == e && h[..0] == "";
    PrintableHasNoBreak(h);
  }

  lemma {:induction false} FirstQuoteAbsent(s: string)
    requires '"' !in s
    ensures FirstQuote(s) == |s|
    decreases |s|
  {
    if s != "" {
      FirstQuoteAbsent(s[1..]);
    }
  }

  lemma TotalIsPrintable(total: nat)
    ensures NoBreak(TotalLine(total)) && Header(TotalLine(total)).None?
  {
    var d := Decimal(total);
    assert forall i | 0 <= i < |d| :: IsDigit(d[i]);
    assert '"' !in TotalLine(total);
    FirstQuoteAbsent(TotalLine(total));
  }

  lemma TotalIsNoEntry(total: nat, prefix: string)
    ensures Header(TotalLine(total)).None? && NoBreak(TotalLine(total))
    ensures LineFiles(TotalLine(total), prefix) == Some([])
  {
    var d, word := Decimal(total), ['t', 'o', 't', 'a', 'l'];
    TotalIsPrintable(total);
    assert TotalLine(total) == Cell(word, 0, d) by { assert Blanks(1) == [' ']; }
    assert IsDigit(d[0]);
    WordCell(word, 0, d);
    NoGapNoColumn(d);
  }

  /** Digits up to the end of the line are no column: white space must follow. */
  lemma NoGapNoColumn(d: string)
    requires AllDigits(d)
    ensures Column(Digit, d).None?
  {
    DigitRunIsAll(d);
    assert d[|d|..] == "";
  }

  lemma {:induction false} DigitRunIsAll(d: string)
    requires AllDigits(d)
    ensures Run(Digit, d) == |d|
    decreases |d|
  {
    if d != "" {
      assert IsDigit(d[0]);
      DigitRunIsAll(d[1..]);
    }
  }

  lemma BlankIsNoEntry(prefix: string)
    ensures Header("").None? && NoBreak("") && LineFiles("", prefix) == Some([])
  {
  }

  lemma BodyIsClean(s: Section, last: bool)
    requires IsSection(s)
    ensures Clean(Body(s, last)) && NoHeaders(Body(s, last))
  {
    TotalIsNoEntry(s.total, "");
    BlankIsNoEntry("");
    NodeLinesAreClean(s.nodes);
    CleanConcat([TotalLine(s.total)], NodeLines(s.nodes));
    CleanConcat([TotalLine(s.total)] + NodeLines(s.nodes), if last then [] else [""]);
  }

  lemma CleanConcat(a: seq<string>, b: seq<string>)
    requires Clean(a) && NoHeaders(a) && Clean(b) && NoHeaders(b)
    ensures Clean(a + b) && NoHeaders(a + b)
  {
  }

  lemma NodeLinesAreClean(ns: seq<Node>)
    requires AreNodes(ns)
    ensures Clean(NodeLines(ns)) && NoHeaders(NodeLines(ns))
  {
    var ls := NodeLines(ns);
    forall i | 0 <= i < |ls| ensures NoBreak(ls[i]) && Header(ls[i]).None? {
      EntryIsNoHeader(ns[i]);
    }
  }

  // ---------------------------------------------------------------- the files of one section

  /** What the parser can make of a folder's entries whose owners are words. */
  function ReadableFiles(ns: seq<Node>, prefix: string): seq<File> {
    if ns == [] then [] else ReadableFiles(ns[..|ns| - 1], prefix) + ReadableFile(ns[|ns| - 1], prefix)
  }

  /** All of a folder's entries. */
  function FilesOf(ns: seq<Node>, prefix: string): seq<File> {
    seq(|ns|, i requires 0 <= i < |ns| => FileOf(ns[i], prefix))
  }

  predicate AllPlain(ns: seq<Node>) { forall i | 0 <= i < |ns| :: IsPlainNode(ns[i]) }

  predicate AllWordOwners(ns: seq<Node>) { forall i | 0 <= i < |ns| :: HasWordOwners(ns[i]) }

  lemma AllPlainLast(init: seq<Node>, last: Node)
    ensures AllPlain(init + [last]) <==> AllPlain(init) && IsPlainNode(last)
  {
    var ns := init + [last];
    assert ns[|init|] == last && forall i | 0 <= i < |init| :: ns[i] == init[i];
  }

  lemma NodeLinesLast(init: seq<Node>, last: Node)
    ensures NodeLines(init + [last]) == NodeLines(init) + [PrintNode(last)]
  {
  }

  lemma FilesOfLast(init: seq<Node>, last: Node, prefix: string)
    ensures FilesOf(init + [last], prefix) == FilesOf(init, prefix) + [FileOf(last, prefix)]
  {
  }

  lemma NodeLinesExtend(init: seq<Node>, last: Node, prefix: string)
    ensures FolderFiles(NodeLines(init + [last]), prefix)
         == Append(FolderFiles(NodeLines(init), prefix), LineFiles(PrintNode(last), prefix))
  {
    FolderFilesLast(NodeLines(init), PrintNode(last), prefix);
    NodeLinesLast(init, last);
  }

  /** Entries whose owners are words: their files, devices left out. */
  lemma {:induction false} NodeLinesRead(ns: seq<Node>, prefix: string)
    requires AreNodes(ns) && AllWordOwners(ns)
    ensures FolderFiles(NodeLines(ns), prefix) == Some(ReadableFiles(ns, prefix))
    decreases |ns|
  {
    if ns == [] {
      assert NodeLines(ns) == [];
    } else {
      var init, last := ns[..|ns| - 1], ns[|ns| - 1];
      assert ns == init + [last];
      NodeLinesRead(init, prefix);
      LineReads(last, prefix);
      NodeLinesExtend(init, last, prefix);
    }
  }

  /** Appending to no more than the first part of a list gives the list only part by part. */
  lemma AppendAgrees<T>(a: Option<seq<T>>, b: Option<seq<T>>, c: seq<T>, d: seq<T>)
    requires (a.Some? ==> |a.value| <= |c|) && (b.Some? ==> |b.value| <= |d|)
    ensures Append(a, b) == Some(c + d) <==> a == Some(c) && b == Some(d)
  {
    if a.Some? && b.Some? && a.value + b.value == c + d {
      assert |a.value + b.value| == |c + d|;
      assert a.value == (a.value + b.value)[..|c|] && c == (c + d)[..|c|];
      assert b.value == (a.value + b.value)[|c|..] && d == (c + d)[|c|..];
    }
  }

  lemma {:induction false} NoMoreFilesThanLines(lines: seq<string>, prefix: string)
    ensures var r := FolderFiles(lines, prefix); r.Some? ==> |r.value| <= |lines|
    decreases |lines|
  {
    if lines != [] {
      NoMoreFilesThanLines(lines[..|lines| - 1], prefix);
      LineGivesWords(lines[|lines| - 1], prefix);
    }
  }

  /** A folder's lines give its files exactly if every entry is plain and the prefix is the right one. */
  lemma {:induction false} NodeLinesReadIff(ns: seq<Node>, p: string, q: string)
    requires AreNodes(ns) && |p| >= |q|
    ensures FolderFiles(NodeLines(ns), p) == Some(FilesOf(ns, q)) <==> AllPlain(ns) && (ns == [] || p == q)
    decreases |ns|
  {
    if ns == [] {
      assert NodeLines(ns) == [] && FilesOf(ns, q) == [];
    } else {
      var init, last := ns[..|ns| - 1], ns[|ns| - 1];
      assert ns == init + [last];
      NodeLinesReadIff(init, p, q);
      LastLineReadsIff(init, last, p, q);
      AllPlainLast(init, last);
    }
  }

  lemma LastLineReadsIff(init: seq<Node>, last: Node, p: string, q: string)
    requires IsNode(last) && |p| >= |q|
    ensures FolderFiles(NodeLines(init + [last]), p) == Some(FilesOf(init + [last], q))
            <==> FolderFiles(NodeLines(init), p) == Some(FilesOf(init, q)) && IsPlainNode(last) && p == q
  {
    NodeReadsIff(last, p, q);
    NodeLinesExtend(init, last, p);
    FilesOfLast(init, last, q);
    NoMoreFilesThanLines(NodeLines(init), p);
    LineGivesWords(PrintNode(last), p);
    AppendAgrees(FolderFiles(NodeLines(init), p), LineFiles(PrintNode(last), p), FilesOf(init, q), [FileOf(last, q)]);
  }

  lemma OneLine(line: string, prefix: string)
    ensures FolderFiles([line], prefix) == LineFiles(line, prefix)
  {
    FolderFilesLast([], line, prefix);
    assert [] + [line] == [line];
    AppendAssociates(LineFiles(line, prefix), Some([]), Some([]));
  }

  lemma BodyReads(s: Section, last: bool, prefix: string)
    requires IsSection(s)
    ensures FolderFiles(Body(s, last), prefix) == FolderFiles(NodeLines(s.nodes), prefix)
  {
    var total, nodes, blank := [TotalLine(s.total)], NodeLines(s.nodes), if last then [] else [""];
    var files := FolderFiles(NodeLines(s.nodes), prefix);
    FolderFilesConcat(total, nodes, prefix);
    FolderFilesConcat(total + nodes, blank, prefix);
    TotalIsNoEntry(s.total, prefix);
    BlankIsNoEntry(prefix);
    OneLine(TotalLine(s.total), prefix);
    OneLine("", prefix);
    AppendAssociates(files, Some([]), Some([]));
  }

  // ---------------------------------------------------------------- the split undoes the printing

  lemma {:induction false} SectionLinesAreClean(secs: seq<Section>)
    requires AreSections(secs)
    ensures Clean(SectionLines(secs))
    decreases |secs|
  {
    if secs != [] {
      HeaderIsHeader(secs[0].path);
      BodyIsClean(secs[0], |secs| == 1);
      SectionLinesAreClean(secs[1..]);
    }
  }

  /** Cutting a printed listing at its headers gives the folders that were printed. */
  lemma {:induction false} SplitUndoesPrinting(secs: seq<Section>)
    requires AreSections(secs)
    ensures SplitFolders(SectionLines(secs) + [""]) == ("", FoldersOf(secs))
    decreases |secs|
  {
    if secs != [] {
      var header, body, rest := HeaderLine(secs[0].path), Body(secs[0], |secs| == 1), SectionLines(secs[1..]) + [""];
      SplitUndoesPrinting(secs[1..]);
      HeaderIsHeader(secs[0].path);
      assert NoHeaders(body) by { BodyIsClean(secs[0], |secs| == 1); }
      SplitTakesAFolder(header, Escape(secs[0].path, true), body, rest);
      ConcatAssociates([header], body, SectionLines(secs[1..]), [""]);
    }
  }

  lemma ConcatAssociates<T>(a: seq<T>, b: seq<T>, c: seq<T>, d: seq<T>)
    ensures a + (b + c) + d == a + (b + (c + d))
  {
  }

  lemma SplitTakesAFolder(header: string, name: string, body: seq<string>, more: seq<string>)
    requires Header(header) == Some(("", name)) && NoHeaders(body) && more != [] && SplitFolders(more).0 == ""
    ensures SplitFolders([header] + (body + more)) == ("", [Folder(name, Unlines(body))] + SplitFolders(more).1)
  {
    BodyStaysTogether(body, more);
    assert Unlines(body) + "" == Unlines(body);
    assert ([header] + (body + more))[1..] == body + more;
  }

  // ---------------------------------------------------------------- folder names

  function Closed(path: string): string { RStrip(path, '/') + "/" }

  /** The slashes a root path of slashes only has too many. */
  function Slack(root: string): string { if root != "" && RStrip(root, '/') == "" then root[1..] else "" }

  /** What is left of a folder's path when the closed root is taken off its front. */
  function Lead(root: string, rel: string): string { if rel == "" then "" else Slack(root) + rel }

  /** The section stands under the root folder where `rel` says. */
  predicate IsUnder(s: Section, root: string) { Closed(s.path) == Closed(root) + Lead(root, s.rel) }

  lemma {:induction false} EscapeConcat(a: string, b: string)
    ensures Escape(a + b, true) == Escape(a, true) + Escape(b, true)
    decreases |a|
  {
    if a == "" {
      assert a + b == b;
    } else {
      assert (a + b)[0] == a[0] && (a + b)[1..] == a[1..] + b;
      EscapeConcat(a[1..], b);
    }
  }

  lemma EscapeSlash(s: string)
    ensures Escape(s + "/", true) == Escape(s, true) + "/"
  {
    EscapeConcat(s, "/");
    assert Escape("/", true) == "/" by { assert "/"[1..] == ""; }
  }

  lemma {:induction false} EscapeKeepsLastSlash(s: string)
    requires s != ""
    ensures var e := Escape(s, true); e != "" && (e[|e| - 1] == '/' <==> s[|s| - 1] == '/')
    decreases |s|
  {
    var e, tail := EscapeChar(s[0], true), Escape(s[1..], true);
    if |s| > 1 {
      EscapeKeepsLastSlash(s[1..]);
      assert (e + tail)[|e + tail| - 1] == tail[|tail| - 1];
    } else {
      assert tail == "" && e + tail == e;
      LastOfEscape(s[0]);
    }
  }

  lemma LastOfEscape(c: char)
    ensures var e := EscapeChar(c, true); e != "" && (e[|e| - 1] == '/' <==> c == '/')
  {
    if IsControl(c) {
      var code := Code(c);
      assert EscapeChar(c, true)[|code|] == code[|code| - 1];
    }
  }

  lemma StripOneSlash(init: string)
    ensures RStrip(init + "/", '/') == RStrip(init, '/')
  {
    assert (init + "/")[..|init + "/"| - 1] == init;
  }

  lemma {:induction false} StripEscaped(s: string)
    ensures RStrip(Escape(s, true), '/') == Escape(RStrip(s, '/'), true)
    decreases |s|
  {
    if s != "" && s[|s| - 1] == '/' {
      var init := s[..|s| - 1];
      assert s == init + "/";
      EscapeSlash(init);
      StripOneSlash(init);
      StripOneSlash(Escape(init, true));
      StripEscaped(init);
    } else if s != "" {
      EscapeKeepsLastSlash(s);
    }
  }

  lemma ClosedEscaped(path: string)
    ensures Closed(Escape(path, true)) == Escape(Closed(path), true)
  {
    StripEscaped(path);
    EscapeSlash(RStrip(path, '/'));
  }

  /** The name the parser gives a folder is the escaped way from the root folder, after the slashes
      that a root path of slashes only has too many. */
  lemma FolderNameIsRel(s: Section, root: string)
    requires IsUnder(s, root)
    ensures FolderName(Escape(s.path, true), Closed(Escape(root, true))) == Escape(Lead(root, s.rel), true)
  {
    ClosedEscaped(s.path);
    ClosedEscaped(root);
    EscapeConcat(Closed(root), Lead(root, s.rel));
    var r, e := Escape(Closed(root), true), Escape(Lead(root, s.rel), true);
    assert (r + e)[..|r|] == r && (r + e)[|r|..] == e;
  }

  // ---------------------------------------------------------------- the whole listing

  predicate AreUnder(secs: seq<Section>, root: string) { forall i | 0 <= i < |secs| :: IsUnder(secs[i], root) }

  /** What the lines of a listing give, folder by folder, each under its name as its header shows it. */
  function ListedFiles(secs: seq<Section>, root: string): Option<seq<File>> {
    if secs == [] then Some([])
    else Append(FolderFiles(NodeLines(secs[0].nodes), Prefix(secs[0], root)), ListedFiles(secs[1..], root))
  }

  function Prefix(s: Section, root: string): string { Escape(Lead(root, s.rel), true) }

  /** The same where all owners are words: no devices, and names as the tokeniser shows them. */
  function ShownFiles(secs: seq<Section>, root: string): seq<File> {
    if secs == [] then [] else ReadableFiles(secs[0].nodes, Prefix(secs[0], root)) + ShownFiles(secs[1..], root)
  }

  /** All entries in listing order, under their names relative to the root folder. */
  function AllFiles(secs: seq<Section>): seq<File> {
    if secs == [] then [] else FilesOf(secs[0].nodes, secs[0].rel) + AllFiles(secs[1..])
  }

  lemma FolderReads(s: Section, last: bool, root: string)
    requires IsSection(s) && IsUnder(s, root)
    ensures FolderFiles(Lines(Unlines(Body(s, last))), FolderName(Escape(s.path, true), Closed(Escape(root, true))))
         == FolderFiles(NodeLines(s.nodes), Prefix(s, root))
  {
    BodyIsClean(s, last);
    LinesOfUnlines(Body(s, last));
    FolderNameIsRel(s, root);
    BodyReads(s, last, Prefix(s, root));
  }

  lemma {:induction false} FoldersRead(secs: seq<Section>, root: string)
    requires AreSections(secs) && AreUnder(secs, root)
    ensures FoldersFiles(FoldersOf(secs), Closed(Escape(root, true))) == ListedFiles(secs, root)
    decreases |secs|
  {
    if secs != [] {
      var s, last, r := secs[0], |secs| == 1, Closed(Escape(root, true));
      var f := Folder(Escape(s.path, true), Unlines(Body(s, last)));
      FoldersRead(secs[1..], root);
      FolderReads(s, last, root);
      OneFolder(f, r);
      FoldersFilesConcat([f], FoldersOf(secs[1..]), r);
    }
  }

  lemma OneFolder(f: Folder, root: string)
    ensures FoldersFiles([f], root) == FolderFiles(Lines(f.content), FolderName(f.name, root))
  {
    FoldersFilesLast([], f, root);
    assert [] + [f] == [f];
    AppendAssociates(FolderFiles(Lines(f.content), FolderName(f.name, root)), Some([]), Some([]));
  }

  lemma ListingReads(secs: seq<Section>)
    requires secs != [] && AreSections(secs) && AreUnder(secs, secs[0].path)
    ensures Listing(Unlines(SectionLines(secs))) == ListedFiles(secs, secs[0].path)
  {
    var pieces := SectionLines(secs) + [""];
    SectionLinesAreClean(secs);
    PiecesOfUnlines(SectionLines(secs));
    SplitUndoesPrinting(secs);
    HeaderIsHeader(secs[0].path);
    assert pieces[0] == HeaderLine(secs[0].path) && |pieces| >= 2;
    assert StartsWithHeader(pieces);
    FoldersRead(secs, secs[0].path);
    assert FoldersOf(secs)[0].name == Escape(secs[0].path, true);
  }

  // ---------------------------------------------------------------- directory trees

  /** How `ls` names a subfolder: no second slash after a root folder. */
  function Child(path: string, name: string): string {
    if RStrip(path, '/') == "" then path + name else RStrip(path, '/') + "/" + name
  }

  /** `ls -R`: a folder, then each of its subfolders with everything below it, in order. */
  function Sections(path: string, rel: string, total: nat, ns: seq<Node>): seq<Section>
    decreases ns, 1
  {
    [Section(path, rel, total, ns)] + SubSections(path, rel, ns)
  }

  function SubSections(path: string, rel: string, ns: seq<Node>): seq<Section>
    decreases ns, 0
  {
    if ns == [] then []
    else
      (if ns[0].Directory? then
         Sections(Child(path, ns[0].name), rel + ns[0].name + "/", ns[0].total, ns[0].children)
       else [])
      + SubSections(path, rel, ns[1..])
  }

  predicate IsPath(path: string) { path != "" && IsAscii(path) }

  /** A folder's path is the root, or ends in a component and goes on from the root as `rel` says. */
  predicate Placed(path: string, rel: string, root: string) {
    IsPath(path) && IsPath(root)
    && if rel == "" then path == root else RStrip(path, '/') != "" && Closed(path) == Closed(root) + (Slack(root) + rel)
  }

  lemma {:induction false} OnlySlashes(s: string)
    requires s != "" && RStrip(s, '/') == ""
    ensures s[0] == '/'
    decreases |s|
  {
    if |s| > 1 {
      OnlySlashes(s[..|s| - 1]);
    }
  }

  lemma ClosedChild(path: string, name: string)
    requires path != "" && IsName(name)
    ensures var c := Child(path, name);
      RStrip(c, '/') == c && c != "" && Closed(c) == Closed(path) + (Slack(path) + (name + "/"))
  {
    var c := Child(path, name);
    assert name[|name| - 1] != '/' && c[|c| - 1] == name[|name| - 1];
    assert RStrip(c, '/') == c;
    if RStrip(path, '/') == "" {
      OnlySlashes(path);
      assert path == "/" + path[1..];
      assert Closed(path) == "/";
      assert Closed(c) == "/" + path[1..] + name + "/";
    } else {
      assert Closed(c) == RStrip(path, '/') + "/" + name + "/";
    }
  }

  lemma ChildIsPlaced(path: string, rel: string, root: string, name: string)
    requires Placed(path, rel, root) && IsName(name)
    ensures Placed(Child(path, name), rel + name + "/", root)
  {
    ClosedChild(path, name);
    ClosedIsAscii(path);
    assert rel + name + "/" == rel + (name + "/") && rel + (name + "/") != "";
    if rel == "" {
      assert rel + (name + "/") == name + "/";
    } else {
      assert Slack(path) == "";
      assert Closed(root) + (Slack(root) + rel) + ("" + (name + "/"))
          == Closed(root) + (Slack(root) + (rel + (name + "/")));
    }
  }

  lemma {:induction false} StripIsAscii(s: string)
    requires IsAscii(s)
    ensures IsAscii(RStrip(s, '/'))
    decreases |s|
  {
    if s != "" && s[|s| - 1] == '/' {
      StripIsAscii(s[..|s| - 1]);
    }
  }

  lemma ClosedIsAscii(s: string)
    requires IsAscii(s)
    ensures IsAscii(Closed(s))
  {
    StripIsAscii(s);
  }

  lemma {:induction false} SectionsArePlaced(path: string, rel: string, total: nat, ns: seq<Node>, root: string)
    requires AreNodes(ns) && Placed(path, rel, root)
    ensures AreSections(Sections(path, rel, total, ns)) && AreUnder(Sections(path, rel, total, ns), root)
    decreases ns, 1
  {
    SubSectionsArePlaced(path, rel, ns, root);
  }

  lemma {:induction false} SubSectionsArePlaced(path: string, rel: string, ns: seq<Node>, root: string)
    requires AreNodes(ns) && Placed(path, rel, root)
    ensures AreSections(SubSections(path, rel, ns)) && AreUnder(SubSections(path, rel, ns), root)
    decreases ns, 0
  {
    if ns != [] {
      assert IsNode(ns[0]);
      SubSectionsArePlaced(path, rel, ns[1..], root);
      if ns[0].Directory? {
        ChildIsPlaced(path, rel, root, ns[0].name);
        SectionsArePlaced(Child(path, ns[0].name), rel + ns[0].name + "/", ns[0].total, ns[0].children, root);
      }
    }
  }

  function PrintTree(root: string, total: nat, ns: seq<Node>): string {
    Unlines(SectionLines(Sections(root, "", total, ns)))
  }

  /** For every tree, what is returned is what its entry lines give, once each and in listing order,
      under the names of their folders: headers, totals and blank lines never interfere. */
  lemma TreeReads(root: string, total: nat, ns: seq<Node>)
    requires AreNodes(ns) && IsPath(root)
    ensures Listing(PrintTree(root, total, ns)) == ListedFiles(Sections(root, "", total, ns), root)
  {
    SectionsArePlaced(root, "", total, ns, root);
    ListingReads(Sections(root, "", total, ns));
  }

  predicate WordOwners(secs: seq<Section>) { forall i | 0 <= i < |secs| :: AllWordOwners(secs[i].nodes) }

  lemma {:induction false} ListedAreShown(secs: seq<Section>, root: string)
    requires AreSections(secs) && WordOwners(secs)
    ensures ListedFiles(secs, root) == Some(ShownFiles(secs, root))
    decreases |secs|
  {
    if secs != [] {
      ListedAreShown(secs[1..], root);
      NodeLinesRead(secs[0].nodes, Prefix(secs[0], root));
    }
  }

  /** Where no owner's name has a blank: exactly the entries that are no devices, each with its own
      columns, under its name and folder as quoted names and headers show them. */
  lemma TreeShowsItsFiles(root: string, total: nat, ns: seq<Node>)
    requires AreNodes(ns) && IsPath(root) && WordOwners(Sections(root, "", total, ns))
    ensures Listing(PrintTree(root, total, ns)) == Some(ShownFiles(Sections(root, "", total, ns), root))
  {
    TreeReads(root, total, ns);
    SectionsArePlaced(root, "", total, ns, root);
    ListedAreShown(Sections(root, "", total, ns), root);
  }

  // ---------------------------------------------------------------- when the names are exact

  predicate NeedsNoEscape(s: string) { forall i | 0 <= i < |s| :: !IsEscaped(s[i], true) }

  lemma {:induction false} EscapeIsIdentityIff(s: string)
    ensures |Escape(s, true)| >= |s| && (Escape(s, true) == s <==> NeedsNoEscape(s))
    ensures NeedsNoEscape(s) <==> |Escape(s, true)| == |s|
    decreases |s|
  {
    if s != "" {
      EscapeIsIdentityIff(s[1..]);
      assert s == [s[0]] + s[1..];
      assert NeedsNoEscape(s) <==> !IsEscaped(s[0], true) && NeedsNoEscape(s[1..]) by {
        assert forall i | 0 <= i < |s| - 1 :: s[1..][i] == s[i + 1];
        assert forall i | 0 < i < |s| :: s[i] == s[1..][i - 1];
      }
    }
  }

  /** The way to the section comes out as it is. */
  predicate PlainWay(s: Section, root: string) {
    s.rel == "" || (Slack(root) == "" && NeedsNoEscape(s.rel))
  }

  /** Every entry is shown with its columns, under its own name. */
  predicate IsExact(s: Section, root: string) { AllPlain(s.nodes) && (s.nodes == [] || PlainWay(s, root)) }

  predicate AllExact(secs: seq<Section>, root: string) { forall i | 0 <= i < |secs| :: IsExact(secs[i], root) }

  lemma LeadIsRelIff(s: Section, root: string)
    ensures |Prefix(s, root)| >= |s.rel| && (Prefix(s, root) == s.rel <==> PlainWay(s, root))
  {
    var lead := Lead(root, s.rel);
    EscapeIsIdentityIff(lead);
    EscapeIsIdentityIff(s.rel);
    if s.rel != "" && Slack(root) != "" {
      assert |Escape(lead, true)| >= |lead| > |s.rel|;
    } else {
      assert lead == s.rel;
    }
  }

  lemma SectionExactIff(s: Section, root: string)
    requires IsSection(s)
    ensures FolderFiles(NodeLines(s.nodes), Prefix(s, root)) == Some(FilesOf(s.nodes, s.rel)) <==> IsExact(s, root)
  {
    LeadIsRelIff(s, root);
    NodeLinesReadIff(s.nodes, Prefix(s, root), s.rel);
  }

  lemma {:induction false} ListedAtMostAll(secs: seq<Section>, root: string)
    ensures var r := ListedFiles(secs, root); r.Some? ==> |r.value| <= |AllFiles(secs)|
    decreases |secs|
  {
    if secs != [] {
      ListedAtMostAll(secs[1..], root);
      NoMoreFilesThanLines(NodeLines(secs[0].nodes), Prefix(secs[0], root));
    }
  }

  lemma AllExactCons(secs: seq<Section>, root: string)
    requires secs != []
    ensures AllExact(secs, root) <==> IsExact(secs[0], root) && AllExact(secs[1..], root)
  {
    assert forall i | 0 <= i < |secs| - 1 :: secs[1..][i] == secs[i + 1];
    assert forall i | 0 < i < |secs| :: secs[i] == secs[1..][i - 1];
  }

  lemma {:induction false} ListedExactIff(secs: seq<Section>, root: string)
    requires AreSections(secs)
    ensures ListedFiles(secs, root) == Some(AllFiles(secs)) <==> AllExact(secs, root)
    decreases |secs|
  {
    if secs != [] {
      ListedExactIff(secs[1..], root);
      FirstExactIff(secs, root);
      AllExactCons(secs, root);
    }
  }

  lemma FirstExactIff(secs: seq<Section>, root: string)
    requires secs != [] && IsSection(secs[0])
    ensures ListedFiles(secs, root) == Some(AllFiles(secs))
            <==> IsExact(secs[0], root) && ListedFiles(secs[1..], root) == Some(AllFiles(secs[1..]))
  {
    var s, lines, p := secs[0], NodeLines(secs[0].nodes), Prefix(secs[0], root);
    SectionExactIff(s, root);
    NoMoreFilesThanLines(lines, p);
    ListedAtMostAll(secs[1..], root);
    AppendAgrees(FolderFiles(lines, p), ListedFiles(secs[1..], root), FilesOf(s.nodes, s.rel), AllFiles(secs[1..]));
  }

  /** The round trip is exact if and only if no entry is a device or has an owner with a blank in its
      name, no name and no link target has a control character, no folder on the way to an entry has
      one or a quote, a backslash or a colon in its name, and the path to list is not two or more
      slashes with an entry below a subfolder. */
  lemma TreeRoundTripIff(root: string, total: nat, ns: seq<Node>)
    requires AreNodes(ns) && IsPath(root)
    ensures Listing(PrintTree(root, total, ns)) == Some(AllFiles(Sections(root, "", total, ns)))
            <==> AllExact(Sections(root, "", total, ns), root)
  {
    TreeReads(root, total, ns);
    SectionsArePlaced(root, "", total, ns, root);
    ListedExactIff(Sections(root, "", total, ns), root);
  }

  // ---------------------------------------------------------------- one folder, no headers

  function PrintPlain(total: Option<nat>, ns: seq<Node>): string {
    Unlines((if total.Some? then [TotalLine(total.value)] else []) + NodeLines(ns))
  }

  /** A listing of one folder (with its total) or of single entries (without) reads back exactly if
      and only if every entry is plain. */
  lemma PlainRoundTrip(total: Option<nat>, ns: seq<Node>)
    requires AreNodes(ns)
    ensures AllWordOwners(ns) ==> Listing(PrintPlain(total, ns)) == Some(ReadableFiles(ns, ""))
    ensures Listing(PrintPlain(total, ns)) == Some(FilesOf(ns, "")) <==> AllPlain(ns)
  {
    var head := if total.Some? then [TotalLine(total.value)] else [];
    var lines := head + NodeLines(ns);
    if total.Some? {
      TotalIsNoEntry(total.value, "");
      OneLine(TotalLine(total.value), "");
    }
    NodeLinesAreClean(ns);
    CleanConcat(head, NodeLines(ns));
    PiecesOfUnlines(lines);
    LinesOfUnlines(lines);
    assert !StartsWithHeader(lines + [""]) by {
      if |lines| > 0 { assert Header(lines[0]).None? && (lines + [""])[0] == lines[0]; }
    }
    FolderFilesConcat(head, NodeLines(ns), "");
    AppendAssociates(FolderFiles(NodeLines(ns), ""), Some([]), Some([]));
    NodeLinesReadIff(ns, "", "");
    if AllWordOwners(ns) {
      NodeLinesRead(ns, "");
    }
  }
}
