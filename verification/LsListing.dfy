/** Parsing `ls -l --quoting-style=c`, recursive or not. */
module LsListing {
  import opened Prelude
  import opened Text

  // ---------------------------------------------------------------- lines

  /** The characters `str.splitlines` breaks at. */
  predicate IsBreak(c: char) {
    var n := c as int;
    10 <= n <= 13 || 28 <= n <= 30 || n == 0x85 || n == 0x2028 || n == 0x2029
  }

  function BreakAt(s: string): (n: nat)
    ensures n <= |s|
  {
    if s == "" || IsBreak(s[0]) then 0 else 1 + BreakAt(s[1..])
  }

  /** `s.splitlines()`; a carriage return with its line feed is one break. */
  function Lines(s: string): seq<string>
    decreases |s|
  {
    if s == "" then []
    else
      var n := BreakAt(s);
      if n == |s| then [s]
      else
        var k := if s[n] == '\r' && n + 1 < |s| && s[n + 1] == '\n' then 2 else 1;
        [s[..n]] + Lines(s[n + k..])
  }

  function Unlines(lines: seq<string>): string {
    if lines == [] then "" else lines[0] + "\n" + Unlines(lines[1..])
  }

  // ---------------------------------------------------------------- shlex.split

  /** Between words, in a word, in quotes, and after a backslash in a word or in double quotes. */
  datatype Mode = Between | Word | Single | Double | EscapeInWord | EscapeInDouble

  predicate IsShlexBlank(c: char) { c == ' ' || c == '\t' || c == '\r' || c == '\n' }

  /** `None` is the `ValueError` of an open quotation or a trailing backslash. */
  function Lex(s: string, mode: Mode, word: string): Option<seq<string>>
    decreases |s|, 0
  {
    if s == "" then
      match mode case Between => Some([]) case Word => Some([word]) case _ => None
    else
      var c, rest := s[0], s[1..];
      match mode
      case Single => if c == '\'' then Lex(rest, Word, word) else Lex(rest, Single, word + [c])
      case Double =>
        if c == '"' then Lex(rest, Word, word)
        else if c == '\\' then Lex(rest, EscapeInDouble, word)
        else Lex(rest, Double, word + [c])
      case EscapeInDouble =>
        Lex(rest, Double, word + (if c == '\\' || c == '"' then [c] else ['\\', c]))
      case EscapeInWord => Lex(rest, Word, word + [c])
      case Between => if IsShlexBlank(c) then Lex(rest, Between, "") else LexStep(c, rest, "")
      case Word => if IsShlexBlank(c) then Cons(word, Lex(rest, Between, "")) else LexStep(c, rest, word)
  }

  function LexStep(c: char, rest: string, word: string): Option<seq<string>>
    decreases |rest|, 1
  {
    if c == '\'' then Lex(rest, Single, word)
    else if c == '"' then Lex(rest, Double, word)
    else if c == '\\' then Lex(rest, EscapeInWord, word)
    else Lex(rest, Word, word + [c])
  }

  function Tokens(s: string): Option<seq<string>> { Lex(s, Between, "") }

  // ---------------------------------------------------------------- the entry pattern

  datatype Class = NonSpace | Digit | DateChar

  predicate IsSpace(c: char) {
    var n := c as int;
    n == 32 || 9 <= n <= 13 || 28 <= n <= 31 || n == 0x85 || n == 0xA0
  }

  predicate In(k: Class, c: char) {
    match k
    case NonSpace => !IsSpace(c)
    case Digit => IsDigit(c)
    case DateChar => IsDigit(c) || c == '-' || c == 'T' || c == ':'
  }

  function Run(k: Class, s: string): (n: nat)
    ensures n <= |s|
  {
    if s == "" || !In(k, s[0]) then 0 else 1 + Run(k, s[1..])
  }

  function SpaceRun(s: string): (n: nat)
    ensures n <= |s|
  {
    if s == "" || !IsSpace(s[0]) then 0 else 1 + SpaceRun(s[1..])
  }

  /** One column and the white space after it, with the text that is left. No class contains white
      space, so the greedy reading is the only one. */
  function Column(k: Class, s: string): Option<(string, string)> {
    var n := Run(k, s);
    var g := SpaceRun(s[n..]);
    if n == 0 || g == 0 then None else Some((s[..n], s[n + g..]))
  }

  datatype Columns = Columns(mode: string, user: string, group: string, size: string, modified: string)

  /** The columns up to the group, then the rest of the line. */
  function MatchOwner(line: string): Option<(string, string, string, string)> {
    match Column(NonSpace, line)
    case None => None
    case Some((mode, s1)) => if |mode| < 2 then None else
      match Column(Digit, s1)
      case None => None
      case Some((_, s2)) =>
        match Column(NonSpace, s2)
        case None => None
        case Some((user, s3)) =>
          match Column(NonSpace, s3)
          case None => None
          case Some((group, s4)) => Some((mode, user, group, s4))
  }

  /** The pattern of an entry. With nothing but white space for a file name the regular
      expression still matches, but there is no token in it, which comes to the same as no match. */
  function MatchEntry(line: string): Option<(Columns, string)> {
    match MatchOwner(line)
    case None => None
    case Some((mode, user, group, s4)) =>
      match Column(Digit, s4)
      case None => None
      case Some((size, s5)) =>
        match Column(DateChar, s5)
        case None => None
        case Some((modified, filename)) =>
          if filename == "" then None else Some((Columns(mode, user, group, size, modified), filename))
  }

  // ---------------------------------------------------------------- ls_parse_folder

  datatype File = File(name: string, kind: char, linkTarget: Option<string>, user: string, group: string,
                       permissions: string, lastModified: string, size: string)

  function MakeFile(cols: Columns, name: string, target: Option<string>): File {
    var kind := if cols.mode == "" then ' ' else cols.mode[0];
    var permissions := if cols.mode == "" then "" else cols.mode[1..];
    File(name, kind, target, cols.user, cols.group, permissions, cols.modified, cols.size)
  }

  function Append<T>(a: Option<seq<T>>, b: Option<seq<T>>): Option<seq<T>> {
    if a.Some? && b.Some? then Some(a.value + b.value) else None
  }

  /** What one line adds: no file, one file, or the lexer's error. */
  function LineFiles(line: string, path: string): Option<seq<File>> {
    match MatchEntry(line)
    case None => Some([])
    case Some((cols, filename)) =>
      match Tokens(filename)
      case None => None
      case Some(ts) =>
        if |ts| == 1 then Some([MakeFile(cols, path + ts[0], None)])
        else if |ts| == 3 then Some([MakeFile(cols, path + ts[0], Some(ts[2]))])
        else Some([])
  }

  function FolderFiles(lines: seq<string>, path: string): Option<seq<File>> {
    if lines == [] then Some([])
    else Append(FolderFiles(lines[..|lines| - 1], path), LineFiles(lines[|lines| - 1], path))
  }

  lemma AppendAssociates<T>(a: Option<seq<T>>, b: Option<seq<T>>, c: Option<seq<T>>)
    ensures Append(Append(a, b), c) == Append(a, Append(b, c))
    ensures Append(a, Some([])) == a && Append(Some([]), a) == a
  {
    if a.Some? {
      assert a.value + [] == a.value && [] + a.value == a.value;
      if b.Some? && c.Some? {
        assert a.value + b.value + c.value == a.value + (b.value + c.value);
      }
    }
  }

  lemma FolderFilesLast(lines: seq<string>, last: string, path: string)
    ensures FolderFiles(lines + [last], path) == Append(FolderFiles(lines, path), LineFiles(last, path))
  {
    assert (lines + [last])[..|lines|] == lines;
  }

  lemma {:induction false} FolderFilesConcat(a: seq<string>, b: seq<string>, path: string)
    ensures FolderFiles(a + b, path) == Append(FolderFiles(a, path), FolderFiles(b, path))
    decreases |b|
  {
    if b == [] {
      assert a + b == a;
      AppendAssociates(FolderFiles(a, path), Some([]), Some([]));
    } else {
      var init, last := b[..|b| - 1], b[|b| - 1];
      assert b == init + [last];
      FolderFilesConcat(a, init, path);
      FolderFilesLast(init, last, path);
      FolderFilesLast(a + init, last, path);
      assert a + init + [last] == a + b;
      AppendAssociates(FolderFiles(a, path), FolderFiles(init, path), LineFiles(last, path));
    }
  }

  /** One more line, and an error in it is an error of the whole. */
  lemma FolderFilesNext(lines: seq<string>, i: nat, path: string)
    requires i < |lines|
    ensures FolderFiles(lines[..i + 1], path) == Append(FolderFiles(lines[..i], path), LineFiles(lines[i], path))
    ensures FolderFiles(lines[..i + 1], path).None? ==> FolderFiles(lines, path).None?
  {
    var seen, rest := lines[..i + 1], lines[i + 1..];
    assert seen == lines[..i] + [lines[i]] && seen + rest == lines;
    FolderFilesLast(lines[..i], lines[i], path);
    assert FolderFiles(lines, path) == Append(FolderFiles(seen, path), FolderFiles(rest, path)) by {
      FolderFilesConcat(seen, rest, path);
    }
  }

  /** The body of the loop: the pattern matches a line at most once. */
  method AppendLine(files: seq<File>, line: string, path: string) returns (r: Option<seq<File>>)
    ensures r == Append(Some(files), LineFiles(line, path))
  {
    var m := MatchEntry(line);
    if m.None? {
      assert files + [] == files;
      return Some(files);
    }
    var cols, tokens := m.value.0, Tokens(m.value.1);
    if tokens.None? {
      return None;
    }
    if |tokens.value| == 1 {
      r := Some(files + [MakeFile(cols, path + tokens.value[0], None)]);
    } else if |tokens.value| == 3 {
      r := Some(files + [MakeFile(cols, path + tokens.value[0], Some(tokens.value[2]))]);
    } else {
      assert files + [] == files;
      r := Some(files);
    }
  }

  method ParseFolder(content: string, path: string) returns (r: Option<seq<File>>)
    ensures r == FolderFiles(Lines(content), path)
  {
    var lines := Lines(content);
    r := Some([]);
    for i := 0 to |lines|
      invariant r.Some? && FolderFiles(lines[..i], path) == r
    {
      FolderFilesNext(lines, i, path);
      r := AppendLine(r.value, lines[i], path);
      if r.None? {
        return;
      }
    }
    assert lines[..|lines|] == lines;
  }

  // ---------------------------------------------------------------- the split into folders

  function FirstQuote(s: string): (n: nat)
    ensures n <= |s|
  {
    if s == "" || s[0] == '"' then 0 else 1 + FirstQuote(s[1..])
  }

  /** The leftmost match of `"(.+)":` up to the end of a line: what precedes it, and the group. */
  function Header(line: string): Option<(string, string)> {
    var p, n := FirstQuote(line), |line|;
    if p + 4 <= n && line[n - 2] == '"' && line[n - 1] == ':' then Some((line[..p], line[p + 1..n - 2])) else None
  }

  datatype Folder = Folder(name: string, content: string)

  /** `re.split` at headers, over the pieces between line feeds: the text before the first header,
      then every folder with its content. The last piece has no line feed and so is no header. */
  function SplitFolders(pieces: seq<string>): (string, seq<Folder>) {
    if |pieces| <= 1 then (if pieces == [] then "" else pieces[0], [])
    else
      var (content, folders) := SplitFolders(pieces[1..]);
      match Header(pieces[0])
      case Some((before, name)) => (before, [Folder(name, content)] + folders)
      case None => (pieces[0] + "\n" + content, folders)
  }

  predicate StartsWithHeader(pieces: seq<string>) {
    |pieces| >= 2 && Header(pieces[0]).Some? && Header(pieces[0]).value.0 == ""
  }

  function RemovePrefix(text: string, prefix: string): string {
    if prefix <= text then text[|prefix|..] else text
  }

  function FolderName(name: string, root: string): string { RemovePrefix(RStrip(name, '/') + "/", root) }

  function FoldersFiles(folders: seq<Folder>, root: string): Option<seq<File>> {
    if folders == [] then Some([])
    else
      var f := folders[|folders| - 1];
      Append(FoldersFiles(folders[..|folders| - 1], root), FolderFiles(Lines(f.content), FolderName(f.name, root)))
  }

  function Listing(stdout: string): Option<seq<File>> {
    var pieces := Split(stdout, '\n');
    if StartsWithHeader(pieces) then
      var folders := SplitFolders(pieces).1;
      if folders == [] then Some([]) else FoldersFiles(folders, RStrip(folders[0].name, '/') + "/")
    else FolderFiles(Lines(stdout), "")
  }

  lemma FoldersFilesLast(folders: seq<Folder>, f: Folder, root: string)
    ensures FoldersFiles(folders + [f], root)
         == Append(FoldersFiles(folders, root), FolderFiles(Lines(f.content), FolderName(f.name, root)))
  {
    assert (folders + [f])[..|folders|] == folders;
  }

  lemma {:induction false} FoldersFilesConcat(a: seq<Folder>, b: seq<Folder>, root: string)
    ensures FoldersFiles(a + b, root) == Append(FoldersFiles(a, root), FoldersFiles(b, root))
    decreases |b|
  {
    if b == [] {
      assert a + b == a;
      AppendAssociates(FoldersFiles(a, root), Some([]), Some([]));
    } else {
      var init, last := b[..|b| - 1], b[|b| - 1];
      assert b == init + [last];
      FoldersFilesConcat(a, init, root);
      FoldersFilesLast(init, last, root);
      FoldersFilesLast(a + init, last, root);
      assert a + init + [last] == a + b;
      AppendAssociates(FoldersFiles(a, root), FoldersFiles(init, root),
        FolderFiles(Lines(last.content), FolderName(last.name, root)));
    }
  }

  lemma FoldersFilesNext(folders: seq<Folder>, i: nat, root: string)
    requires i < |folders|
    ensures FoldersFiles(folders[..i + 1], root)
         == Append(FoldersFiles(folders[..i], root),
                   FolderFiles(Lines(folders[i].content), FolderName(folders[i].name, root)))
    ensures FoldersFiles(folders[..i + 1], root).None? ==> FoldersFiles(folders, root).None?
  {
    var seen, rest := folders[..i + 1], folders[i + 1..];
    assert seen == folders[..i] + [folders[i]] && seen + rest == folders;
    FoldersFilesLast(folders[..i], folders[i], root);
    assert FoldersFiles(folders, root) == Append(FoldersFiles(seen, root), FoldersFiles(rest, root)) by {
      FoldersFilesConcat(seen, rest, root);
    }
  }

  /** `parse_output` for exit status 0; `None` is the lexer's error. */
  method ParseOutput(stdout: string) returns (r: Option<seq<File>>)
    ensures r == Listing(stdout)
  {
    var pieces := Split(stdout, '\n');
    if !StartsWithHeader(pieces) {
      r := ParseFolder(stdout, "");
      return;
    }
    var folders := SplitFolders(pieces).1;
    var files: seq<File> := [];
    var rootFolder := "";
    for i := 0 to |folders|
      invariant i > 0 ==> rootFolder == RStrip(folders[0].name, '/') + "/"
      invariant FoldersFiles(folders[..i], rootFolder) == Some(files)
    {
      var folder := RStrip(folders[i].name, '/');
      if i == 0 {
        rootFolder := folder + "/";
      }
      FoldersFilesNext(folders, i, rootFolder);
      var more := ParseFolder(folders[i].content, RemovePrefix(folder + "/", rootFolder));
      if more.None? {
        return None;
      }
      files := files + more.value;
    }
    assert folders[..|folders|] == folders;
    r := Some(files);
  }

  /** With `-d` only the first entry is returned. */
  method ParseSingle(stdout: string) returns (r: Option<Option<File>>)
    ensures Listing(stdout).None? <==> r.None?
    ensures r.Some? && |Listing(stdout).value| > 0 ==> r.value == Some(Listing(stdout).value[0])
    ensures r.Some? && Listing(stdout).value == [] ==> r.value == None
  {
    var files := ParseOutput(stdout);
    if files.None? {
      return None;
    }
    r := Some(if |files.value| > 0 then Some(files.value[0]) else None);
  }
}
