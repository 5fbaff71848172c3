/** The `sbatch` command line, and what a POSIX shell makes of it. */
module Sbatch {
  import opened Prelude
  import opened Text

  // ---------------------------------------------------------------- the shell

  /** Between words, in a word, and inside the two kinds of quotes. */
  datatype Mode = Between | Word | Single | Double

  predicate IsBlank(c: char) { c == ' ' || c == '\t' }

  /** Unquoted, these start an operator, an expansion, a pattern or a comment, or end the command. */
  predicate IsSpecial(c: char) { c in "|&;<>()$`\\\n*?[]#~{}!" }

  /**
   * The words of one simple command with only quoting in it (sections 2.2 and 2.3 of the Shell
   * Command Language volume of IEEE Std 1003.1-2017). Anything the shell would expand, match,
   * redirect or treat as a separate command gives `None`, and so does a quote left open.
   */
  function Words(s: string, mode: Mode, word: string): Option<seq<string>>
    decreases |s|, 0
  {
    if s == "" then
      match mode case Between => Some([]) case Word => Some([word]) case _ => None
    else
      var c, rest := s[0], s[1..];
      match mode
      case Single => if c == '\'' then Words(rest, Word, word) else Words(rest, Single, word + [c])
      case Double =>
        if c == '"' then Words(rest, Word, word)
        else if c == '$' || c == '`' || c == '\\' then None
        else Words(rest, Double, word + [c])
      case Between => if IsBlank(c) then Words(rest, Between, "") else WordStep(c, rest, "")
      case Word => if IsBlank(c) then Cons(word, Words(rest, Between, "")) else WordStep(c, rest, word)
  }

  /** A non-blank character outside quotes. */
  function WordStep(c: char, rest: string, word: string): Option<seq<string>>
    decreases |rest|, 1
  {
    if c == '\'' then Words(rest, Single, word)
    else if c == '"' then Words(rest, Double, word)
    else if IsSpecial(c) then None
    else Words(rest, Word, word + [c])
  }

  function Tokens(line: string): Option<seq<string>> { Words(line, Between, "") }

  // ---------------------------------------------------------------- shlex.quote

  predicate IsSafe(c: char) {
    'a' <= c <= 'z' || 'A' <= c <= 'Z' || '0' <= c <= '9' || c in "_@%+=:,./-"
  }

  predicate AllSafe(s: string) { forall i | 0 <= i < |s| :: IsSafe(s[i]) }

  function EscapeQuotes(s: string): string {
    if s == "" then "" else (if s[0] == '\'' then "'\"'\"'" else [s[0]]) + EscapeQuotes(s[1..])
  }

  function Quote(s: string): string {
    if s == "" then "''" else if AllSafe(s) then s else "'" + EscapeQuotes(s) + "'"
  }

  lemma SafeIsOrdinary(c: char)
    requires IsSafe(c)
    ensures !IsBlank(c) && !IsSpecial(c) && c != '\'' && c != '"'
  {
  }

  lemma {:induction false} SafeTextReads(s: string, rest: string, word: string)
    requires AllSafe(s)
    ensures Words(s + rest, Word, word) == Words(rest, Word, word + s)
    decreases |s|
  {
    if s == "" {
      assert s + rest == rest && word + s == word;
    } else {
      assert (s + rest)[0] == s[0] && (s + rest)[1..] == s[1..] + rest;
      SafeIsOrdinary(s[0]);
      SafeTextReads(s[1..], rest, word + [s[0]]);
      assert word + [s[0]] + s[1..] == word + s;
    }
  }

  lemma QuoteInQuotesReads(rest: string, word: string)
    ensures Words("'\"'\"'" + rest, Single, word) == Words(rest, Single, word + ['\''])
  {
    var d := ['\''] + rest;
    var c := ['"'] + d;
    var b := ['\''] + c;
    var a := ['"'] + b;
    assert "'\"'\"'" + rest == ['\''] + a;
    assert (['\''] + a)[1..] == a && a[1..] == b && b[1..] == c && c[1..] == d && d[1..] == rest;
    assert Words(['\''] + a, Single, word) == Words(a, Word, word);
    assert Words(a, Word, word) == Words(b, Double, word);
    assert Words(b, Double, word) == Words(c, Double, word + ['\'']);
    assert Words(c, Double, word + ['\'']) == Words(d, Word, word + ['\'']);
    assert Words(d, Word, word + ['\'']) == Words(rest, Single, word + ['\'']);
  }

  lemma {:induction false} EscapedReads(s: string, rest: string, word: string)
    ensures Words(EscapeQuotes(s) + "'" + rest, Single, word) == Words(rest, Word, word + s)
    decreases |s|
  {
    if s == "" {
      assert EscapeQuotes(s) + "'" + rest == "'" + rest && ("'" + rest)[1..] == rest && word + s == word;
    } else {
      var tail := EscapeQuotes(s[1..]) + "'" + rest;
      EscapedReads(s[1..], rest, word + [s[0]]);
      assert word + [s[0]] + s[1..] == word + s;
      if s[0] == '\'' {
        QuoteInQuotesReads(tail, word);
        assert EscapeQuotes(s) + "'" + rest == "'\"'\"'" + tail;
      } else {
        assert EscapeQuotes(s) + "'" + rest == [s[0]] + tail && ([s[0]] + tail)[1..] == tail;
      }
    }
  }

  /** Quoted text is read back verbatim into the current word, whatever it contains. */
  lemma QuoteReads(v: string, rest: string, word: string)
    ensures Words(Quote(v) + rest, Word, word) == Words(rest, Word, word + v)
  {
    if v == "" {
      assert Quote(v) + rest == "'" + ("'" + rest);
      assert ("'" + ("'" + rest))[1..] == "'" + rest && ("'" + rest)[1..] == rest;
      assert Words("'" + rest, Single, word) == Words(rest, Word, word);
      assert word + v == word;
    } else if AllSafe(v) {
      SafeTextReads(v, rest, word);
    } else {
      EscapedReads(v, rest, word);
      var tail := EscapeQuotes(v) + "'" + rest;
      assert Quote(v) + rest == "'" + tail && ("'" + tail)[1..] == tail;
    }
  }

  // ---------------------------------------------------------------- command lists

  predicate Ends(rest: string) { rest == "" || IsBlank(rest[0]) }

  /** Standing on its own in a line, the text is read as exactly one word, and as that word. */
  ghost predicate ReadsAs(text: string, word: string) {
    forall rest: string | Ends(rest) :: Words(text + rest, Between, "") == Cons(word, Words(rest, Between, ""))
  }

  lemma WordEnds(rest: string, word: string)
    requires Ends(rest)
    ensures Words(rest, Word, word) == Cons(word, Words(rest, Between, ""))
  {
    assert [word] + [] == [word];
  }

  lemma StartsAWord(s: string)
    requires s != "" && !IsBlank(s[0])
    ensures Words(s, Between, "") == Words(s, Word, "")
  {
  }

  lemma OptionReads(name: string, v: string)
    requires name != "" && AllSafe(name)
    ensures ReadsAs(name + Quote(v), name + v)
  {
    forall rest: string | Ends(rest)
      ensures Words((name + Quote(v)) + rest, Between, "") == Cons(name + v, Words(rest, Between, ""))
    {
      var s := (name + Quote(v)) + rest;
      assert s == name + (Quote(v) + rest);
      assert s[0] == name[0] && IsSafe(name[0]);
      StartsAWord(s);
      SafeTextReads(name, Quote(v) + rest, "");
      assert "" + name == name;
      QuoteReads(v, rest, name);
      WordEnds(rest, name + v);
    }
  }

  lemma QuotedReads(v: string)
    ensures ReadsAs(Quote(v), v)
  {
    forall rest: string | Ends(rest) ensures Words(Quote(v) + rest, Between, "") == Cons(v, Words(rest, Between, "")) {
      var s := Quote(v) + rest;
      assert AllSafe(v) && v != "" ==> IsSafe(v[0]);
      StartsAWord(s);
      QuoteReads(v, rest, "");
      assert "" + v == v;
      WordEnds(rest, v);
    }
  }

  lemma BareReads(name: string)
    requires name != "" && AllSafe(name)
    ensures ReadsAs(name, name)
  {
    forall rest: string | Ends(rest) ensures Words(name + rest, Between, "") == Cons(name, Words(rest, Between, "")) {
      assert (name + rest)[0] == name[0] && IsSafe(name[0]);
      StartsAWord(name + rest);
      SafeTextReads(name, rest, "");
      assert "" + name == name;
      WordEnds(rest, name);
    }
  }

  ghost predicate AllRead(texts: seq<string>, words: seq<string>) {
    |texts| == |words| && forall i | 0 <= i < |texts| :: ReadsAs(texts[i], words[i])
  }

  /** Joined by blanks, texts that each read as a word read as the list of those words. */
  lemma {:induction false} JoinReads(texts: seq<string>, words: seq<string>)
    requires texts != [] && AllRead(texts, words)
    ensures Tokens(Join(texts, ' ')) == Some(words)
    decreases |texts|
  {
    assert ReadsAs(texts[0], words[0]);
    if |texts| == 1 {
      assert texts[0] + "" == texts[0] && words == [words[0]] && [words[0]] + [] == words;
      assert Words(texts[0] + "", Between, "") == Cons(words[0], Words("", Between, ""));
    } else {
      var line := Join(texts[1..], ' ');
      JoinReads(texts[1..], words[1..]);
      var rest := " " + line;
      assert Ends(rest) && rest[1..] == line;
      assert Words(texts[0] + rest, Between, "") == Cons(words[0], Words(rest, Between, ""));
      assert Join(texts, ' ') == texts[0] + rest;
      assert words == [words[0]] + words[1..];
    }
  }

  // ---------------------------------------------------------------- SbatchCommand.get_command

  datatype JobDescription = JobDescription(
    environment: seq<(string, string)>,
    workingDirectory: string,
    partition: Option<string>,
    reservation: Option<string>,
    account: Option<string>,
    name: Option<string>,
    standardError: Option<string>,
    standardOutput: Option<string>,
    standardInput: Option<string>,
    constraints: Option<string>,
    scriptPath: Option<string>)

  /** Python's truth of an optional string. */
  predicate IsSet(v: Option<string>) { v.Some? && v.value != "" }

  /** `,`-joined `key=value` pairs, in the dictionary's order. */
  function Assignments(env: seq<(string, string)>): string {
    Join(seq(|env|, i requires 0 <= i < |env| => env[i].0 + "=" + env[i].1), ',')
  }

  /** The argument vector that is meant. */
  function Argument(name: string, v: Option<string>): seq<string> { if IsSet(v) then [name + v.value] else [] }

  function BaseArguments(job: JobDescription): seq<string> {
    ["sbatch", "--export=" + ("ALL," + Assignments(job.environment)), "--chdir=" + job.workingDirectory]
  }

  function PlacementArguments(job: JobDescription): seq<string> {
    Argument("--partition=", job.partition)
    + Argument("--reservation=", job.reservation)
    + Argument("--account=", job.account)
    + Argument("--job-name=", job.name)
  }

  function FileArguments(job: JobDescription): seq<string> {
    Argument("--error=", job.standardError)
    + Argument("--output=", job.standardOutput)
    + Argument("--input=", job.standardInput)
    + Argument("--constraint=", job.constraints)
  }

  function Arguments(job: JobDescription): seq<string> {
    BaseArguments(job) + PlacementArguments(job) + FileArguments(job)
    + Script(job)
  }

  // ---------------------------------------------------------------- what sbatch reads in its arguments

  /** The values given to a long option, `name` being all of it up to its equals sign: options end at the
      first word that is just two dashes. */
  function Values(words: seq<string>, name: string): seq<string> {
    if words == [] || words[0] == "--" then []
    else (if name <= words[0] then [words[0][|name|..]] else []) + Values(words[1..], name)
  }

  /** The words after the options. */
  function Operands(words: seq<string>): seq<string> {
    if words == [] then [] else if words[0] == "--" then words[1..] else Operands(words[1..])
  }

  /** How many options are given. */
  function CountOptions(words: seq<string>): nat {
    if words == [] || words[0] == "--" then 0 else 1 + CountOptions(words[1..])
  }

  /** A value is given once if it is set, and not at all otherwise. */
  function Once(v: Option<string>): seq<string> {
    match v case None => [] case Some(text) => if text == "" then [] else [text]
  }

  predicate DescribesPlaces(given: seq<string>, job: JobDescription) {
    && Values(given, "--export=") == ["ALL," + Assignments(job.environment)]
    && Values(given, "--chdir=") == [job.workingDirectory]
    && Values(given, "--partition=") == Once(job.partition)
    && Values(given, "--reservation=") == Once(job.reservation)
    && Values(given, "--account=") == Once(job.account)
    && Values(given, "--job-name=") == Once(job.name)
  }

  predicate DescribesFiles(given: seq<string>, job: JobDescription) {
    && Values(given, "--error=") == Once(job.standardError)
    && Values(given, "--output=") == Once(job.standardOutput)
    && Values(given, "--input=") == Once(job.standardInput)
    && Values(given, "--constraint=") == Once(job.constraints)
  }

  /** The words are a command line for this job: each of its fields under its own option, nothing else,
      and its script as the only operand. */
  predicate Describes(words: seq<string>, job: JobDescription) {
    && words != [] && words[0] == "sbatch"
    && var given := words[1..];
    && DescribesPlaces(given, job) && DescribesFiles(given, job)
    && Operands(given) == Once(job.scriptPath)
    && CountOptions(given) == 2 + |Once(job.partition)| + |Once(job.reservation)| + |Once(job.account)|
       + |Once(job.name)| + |Once(job.standardError)| + |Once(job.standardOutput)| + |Once(job.standardInput)|
       + |Once(job.constraints)|
  }

  /** An option name ends in its only equals sign. */
  predicate IsOptionName(n: string) {
    |n| > 2 && n[|n| - 1] == '=' && forall i | 0 <= i < |n| - 1 :: n[i] != '='
  }

  datatype Entry = Entry(name: string, values: seq<string>)

  predicate AreEntries(es: seq<Entry>) { forall i | 0 <= i < |es| :: IsOptionName(es[i].name) && |es[i].values| <= 1 }

  function Printed(es: seq<Entry>): seq<string> {
    if es == [] then []
    else (if es[0].values == [] then [] else [es[0].name + es[0].values[0]]) + Printed(es[1..])
  }

  function Collected(es: seq<Entry>, name: string): seq<string> {
    if es == [] then [] else (if es[0].name == name then es[0].values else []) + Collected(es[1..], name)
  }

  function CountValues(es: seq<Entry>): nat { if es == [] then 0 else |es[0].values| + CountValues(es[1..]) }

  /** A word starts with an option name only if it was printed under it. */
  lemma NameIsRead(name: string, other: string, v: string)
    requires IsOptionName(name) && IsOptionName(other)
    ensures name <= other + v <==> name == other
    ensures other + v != "--" && (other + v)[|other|..] == v
  {
    var w := other + v;
    assert w[|other| - 1] == '=' && |w| > 2;
    if name <= w {
      assert w[|name| - 1] == name[|name| - 1] == '=';
      assert forall i | 0 <= i < |name| :: name[i] == w[i];
      assert forall i | 0 <= i < |other| :: other[i] == w[i];
      assert name == w[..|name|] && other == w[..|other|];
    }
    if name == other {
      assert w[..|name|] == name;
    }
  }

  /** One printed word in front of others. */
  lemma WordIsRead(name: string, other: string, v: string, rest: seq<string>)
    requires IsOptionName(name) && IsOptionName(other)
    ensures Values([other + v] + rest, name) == (if other == name then [v] else []) + Values(rest, name)
    ensures Operands([other + v] + rest) == Operands(rest)
    ensures CountOptions([other + v] + rest) == 1 + CountOptions(rest)
  {
    NameIsRead(name, other, v);
    assert ([other + v] + rest)[1..] == rest;
  }

  function One(e: Entry): seq<string> { if e.values == [] then [] else [e.name + e.values[0]] }

  lemma OneIsRead(e: Entry, rest: seq<string>, name: string)
    requires IsOptionName(e.name) && |e.values| <= 1 && IsOptionName(name)
    ensures Values(One(e) + rest, name) == (if e.name == name then e.values else []) + Values(rest, name)
    ensures Operands(One(e) + rest) == Operands(rest) && CountOptions(One(e) + rest) == |e.values| + CountOptions(rest)
  {
    if e.values == [] {
      assert One(e) + rest == rest;
    } else {
      assert e.values == [e.values[0]];
      WordIsRead(name, e.name, e.values[0], rest);
    }
  }

  lemma OneComesFirst(es: seq<Entry>, tail: seq<string>)
    requires es != []
    ensures Printed(es) + tail == One(es[0]) + (Printed(es[1..]) + tail)
  {
  }

  lemma {:induction false} PrintedIsRead(es: seq<Entry>, tail: seq<string>, name: string)
    requires AreEntries(es) && IsOptionName(name) && (tail == [] || tail[0] == "--")
    ensures Values(Printed(es) + tail, name) == Collected(es, name)
    ensures Operands(Printed(es) + tail) == Operands(tail) && CountOptions(Printed(es) + tail) == CountValues(es)
    decreases |es|
  {
    if es == [] {
      assert Printed(es) + tail == tail;
    } else {
      PrintedIsRead(es[1..], tail, name);
      OneComesFirst(es, tail);
      OneIsRead(es[0], Printed(es[1..]) + tail, name);
    }
  }

  lemma {:induction false} NothingCollected(es: seq<Entry>, name: string)
    requires forall i | 0 <= i < |es| :: es[i].name != name
    ensures Collected(es, name) == []
    decreases |es|
  {
    if es != [] {
      NothingCollected(es[1..], name);
    }
  }

  lemma {:induction false} CollectedAt(es: seq<Entry>, k: nat)
    requires k < |es| && forall i | 0 <= i < |es| && i != k :: es[i].name != es[k].name
    ensures Collected(es, es[k].name) == es[k].values
    decreases |es|
  {
    if k == 0 {
      NothingCollected(es[1..], es[0].name);
    } else {
      CollectedAt(es[1..], k - 1);
    }
  }

  function Entries(job: JobDescription): seq<Entry> {
    [Entry("--export=", ["ALL," + Assignments(job.environment)]), Entry("--chdir=", [job.workingDirectory]),
     Entry("--partition=", Once(job.partition)), Entry("--reservation=", Once(job.reservation)),
     Entry("--account=", Once(job.account)), Entry("--job-name=", Once(job.name)),
     Entry("--error=", Once(job.standardError)), Entry("--output=", Once(job.standardOutput)),
     Entry("--input=", Once(job.standardInput)), Entry("--constraint=", Once(job.constraints))]
  }

  function OptionNames(): seq<string> {
    ["--export=", "--chdir=", "--partition=", "--reservation=", "--account=", "--job-name=", "--error=", "--output=",
     "--input=", "--constraint="]
  }

  lemma NamesAreDistinct(i: nat, j: nat)
    requires i < |OptionNames()| && j < |OptionNames()| && i != j
    ensures OptionNames()[i] != OptionNames()[j]
  {
    var ns := OptionNames();
    assert |ns[0]| == 9 && |ns[1]| == 8 && |ns[2]| == 12 && |ns[3]| == 14 && |ns[4]| == 10;
    assert |ns[5]| == 11 && |ns[6]| == 8 && |ns[7]| == 9 && |ns[8]| == 8 && |ns[9]| == 13;
    assert ns[1][2] == 'c' && ns[6][2] == 'e' && ns[8][2] == 'i' && ns[0][2] == 'e' && ns[7][2] == 'o';
  }

  lemma NamesAreNames(i: nat)
    requires i < |OptionNames()|
    ensures IsOptionName(OptionNames()[i])
  {
  }

  lemma EntriesAreEntries(job: JobDescription)
    ensures AreEntries(Entries(job)) && |Entries(job)| == |OptionNames()|
    ensures forall i | 0 <= i < |OptionNames()| :: Entries(job)[i].name == OptionNames()[i]
  {
    forall i | 0 <= i < |Entries(job)|
      ensures Entries(job)[i].name == OptionNames()[i] && IsOptionName(OptionNames()[i])
    {
      NamesAreNames(i);
    }
  }

  lemma EntryIsRead(job: JobDescription, tail: seq<string>, k: nat)
    requires k < |OptionNames()| && (tail == [] || tail[0] == "--")
    ensures |Entries(job)| == |OptionNames()|
    ensures Values(Printed(Entries(job)) + tail, OptionNames()[k]) == Entries(job)[k].values
  {
    var es := Entries(job);
    EntriesAreEntries(job);
    PrintedIsRead(es, tail, es[k].name);
    forall i | 0 <= i < |es| && i != k ensures es[i].name != es[k].name { NamesAreDistinct(i, k); }
    CollectedAt(es, k);
  }

  lemma PrintedCons(e: Entry, rest: seq<Entry>)
    ensures Printed([e] + rest) == One(e) + Printed(rest)
  {
    assert ([e] + rest)[1..] == rest;
  }

  lemma PrintedTwo(a: Entry, b: Entry, rest: seq<Entry>)
    ensures Printed([a, b] + rest) == One(a) + One(b) + Printed(rest)
  {
    PrintedCons(b, rest);
    PrintedCons(a, [b] + rest);
    assert [a] + ([b] + rest) == [a, b] + rest;
    Associates(One(a), One(b), Printed(rest));
  }

  lemma Associates<T>(a: seq<T>, b: seq<T>, c: seq<T>)
    ensures a + b + c == a + (b + c)
  {
  }

  lemma PrintedFour(a: Entry, b: Entry, c: Entry, d: Entry, rest: seq<Entry>)
    ensures Printed([a, b, c, d] + rest) == One(a) + One(b) + One(c) + One(d) + Printed(rest)
  {
    var left, right := One(a) + One(b), One(c) + One(d);
    PrintedTwo(c, d, rest);
    PrintedTwo(a, b, [c, d] + rest);
    assert [a, b] + ([c, d] + rest) == [a, b, c, d] + rest;
    Associates(left, One(c), One(d));
    Associates(left, right, Printed(rest));
  }

  lemma ArgumentIsOne(name: string, v: Option<string>)
    ensures Argument(name, v) == One(Entry(name, Once(v)))
  {
  }

  function Script(job: JobDescription): seq<string> {
    if IsSet(job.scriptPath) then ["--", job.scriptPath.value] else []
  }

  lemma PlacementIsPrinted(job: JobDescription, rest: seq<Entry>)
    ensures PlacementArguments(job) + Printed(rest)
         == Printed([Entry("--partition=", Once(job.partition)), Entry("--reservation=", Once(job.reservation)),
                     Entry("--account=", Once(job.account)), Entry("--job-name=", Once(job.name))] + rest)
  {
    ArgumentIsOne("--partition=", job.partition);
    ArgumentIsOne("--reservation=", job.reservation);
    ArgumentIsOne("--account=", job.account);
    ArgumentIsOne("--job-name=", job.name);
    PrintedFour(Entry("--partition=", Once(job.partition)), Entry("--reservation=", Once(job.reservation)),
                Entry("--account=", Once(job.account)), Entry("--job-name=", Once(job.name)), rest);
  }

  function FileEntries(job: JobDescription): seq<Entry> {
    [Entry("--error=", Once(job.standardError)), Entry("--output=", Once(job.standardOutput)),
     Entry("--input=", Once(job.standardInput)), Entry("--constraint=", Once(job.constraints))]
  }

  lemma FilesArePrinted(job: JobDescription)
    ensures FileArguments(job) == Printed(FileEntries(job))
  {
    ArgumentIsOne("--error=", job.standardError);
    ArgumentIsOne("--output=", job.standardOutput);
    ArgumentIsOne("--input=", job.standardInput);
    ArgumentIsOne("--constraint=", job.constraints);
    PrintedFour(Entry("--error=", Once(job.standardError)), Entry("--output=", Once(job.standardOutput)),
                Entry("--input=", Once(job.standardInput)), Entry("--constraint=", Once(job.constraints)), []);
    assert FileEntries(job) + [] == FileEntries(job);
  }

  lemma LaterEntriesArePrinted(job: JobDescription)
    ensures Printed(Entries(job)[2..]) == PlacementArguments(job) + FileArguments(job)
  {
    var es, files := Entries(job), FileEntries(job);
    FilesArePrinted(job);
    PlacementIsPrinted(job, files);
    assert es[2..] == [es[2], es[3], es[4], es[5]] + files;
  }

  lemma FirstEntriesArePrinted(job: JobDescription)
    ensures |BaseArguments(job)| == 3 && BaseArguments(job)[0] == "sbatch"
    ensures Printed(Entries(job)) == BaseArguments(job)[1..] + Printed(Entries(job)[2..])
  {
    var es := Entries(job);
    assert es == [es[0], es[1]] + es[2..];
    PrintedTwo(es[0], es[1], es[2..]);
    assert One(es[0]) + One(es[1]) == BaseArguments(job)[1..];
  }

  /** The intended arguments are the printed entries, and then the script. */
  lemma ArgumentsAreEntries(job: JobDescription)
    ensures Arguments(job) == ["sbatch"] + (Printed(Entries(job)) + Script(job))
  {
    FirstEntriesArePrinted(job);
    LaterEntriesArePrinted(job);
    var base := BaseArguments(job)[1..];
    assert BaseArguments(job) == ["sbatch"] + base;
    Regrouped(base, PlacementArguments(job), FileArguments(job), Script(job));
  }

  lemma Regrouped(base: seq<string>, a: seq<string>, b: seq<string>, c: seq<string>)
    ensures ["sbatch"] + base + a + b + c == ["sbatch"] + ((base + (a + b)) + c)
  {
  }

  lemma FirstPlacesAreRead(job: JobDescription)
    ensures var given := Printed(Entries(job)) + Script(job);
      && Values(given, "--export=") == ["ALL," + Assignments(job.environment)]
      && Values(given, "--chdir=") == [job.workingDirectory]
      && Values(given, "--partition=") == Once(job.partition)
  {
    EntryIsRead(job, Script(job), 0);
    EntryIsRead(job, Script(job), 1);
    EntryIsRead(job, Script(job), 2);
  }

  lemma PlacesAreRead(job: JobDescription)
    ensures DescribesPlaces(Printed(Entries(job)) + Script(job), job)
  {
    FirstPlacesAreRead(job);
    EntryIsRead(job, Script(job), 3);
    EntryIsRead(job, Script(job), 4);
    EntryIsRead(job, Script(job), 5);
  }

  lemma FilesAreRead(job: JobDescription)
    ensures DescribesFiles(Printed(Entries(job)) + Script(job), job)
  {
    EntryIsRead(job, Script(job), 6);
    EntryIsRead(job, Script(job), 7);
    EntryIsRead(job, Script(job), 8);
    EntryIsRead(job, Script(job), 9);
  }

  lemma CountCons(e: Entry, rest: seq<Entry>)
    ensures CountValues([e] + rest) == |e.values| + CountValues(rest)
  {
    assert ([e] + rest)[1..] == rest;
  }

  lemma CountFour(a: Entry, b: Entry, c: Entry, d: Entry, rest: seq<Entry>)
    ensures CountValues([a, b, c, d] + rest)
         == |a.values| + |b.values| + |c.values| + |d.values| + CountValues(rest)
  {
    CountCons(d, rest);
    CountCons(c, [d] + rest);
    CountCons(b, [c] + ([d] + rest));
    CountCons(a, [b] + ([c] + ([d] + rest)));
    assert [a] + ([b] + ([c] + ([d] + rest))) == [a, b, c, d] + rest;
  }

  lemma CountOfEntries(job: JobDescription)
    ensures CountValues(Entries(job))
         == 2 + |Once(job.partition)| + |Once(job.reservation)| + |Once(job.account)| + |Once(job.name)|
            + |Once(job.standardError)| + |Once(job.standardOutput)| + |Once(job.standardInput)|
            + |Once(job.constraints)|
  {
    var es := Entries(job);
    CountFour(es[6], es[7], es[8], es[9], []);
    CountFour(es[2], es[3], es[4], es[5], [es[6], es[7], es[8], es[9]]);
    CountCons(es[1], es[2..]);
    CountCons(es[0], es[1..]);
    assert [es[6], es[7], es[8], es[9]] + [] == [es[6], es[7], es[8], es[9]];
    assert es[2..] == [es[2], es[3], es[4], es[5]] + [es[6], es[7], es[8], es[9]];
    assert es[1..] == [es[1]] + es[2..] && es == [es[0]] + es[1..];
  }

  /** The intended arguments say everything about the job. */
  lemma ArgumentsDescribe(job: JobDescription)
    ensures Describes(Arguments(job), job)
  {
    var given := Printed(Entries(job)) + Script(job);
    ArgumentsAreEntries(job);
    assert Arguments(job)[1..] == given;
    PlacesAreRead(job);
    FilesAreRead(job);
    EntriesAreEntries(job);
    PrintedIsRead(Entries(job), Script(job), Entries(job)[0].name);
    CountOfEntries(job);
    assert Operands(Script(job)) == Once(job.scriptPath);
  }

  // ---------------------------------------------------------------- the environment

  /** One assignment: everything up to the first equals sign, and everything after it. */
  lemma AssignmentIsRead(key: string, value: string)
    requires '=' !in key
    ensures Split(key + "=" + value, '=')[0] == key && (key + "=" + value)[|key| + 1..] == value
  {
    SplitCons(key, '=', value);
    assert key + "=" + value == key + ['='] + value;
  }

  /** The variables can be read back from the option's value, in order, where they have no comma. */
  lemma EnvironmentIsRead(env: seq<(string, string)>)
    requires forall i | 0 <= i < |env| :: ',' !in env[i].0 && ',' !in env[i].1
    ensures var given := Split("ALL," + Assignments(env), ',');
      && given[0] == "ALL"
      && (env == [] ==> given == ["ALL", ""])
      && (env != [] ==> |given| == |env| + 1 && forall i | 0 <= i < |env| :: given[i + 1] == env[i].0 + "=" + env[i].1)
  {
    var parts := seq(|env|, i requires 0 <= i < |env| => env[i].0 + "=" + env[i].1);
    SplitCons("ALL", ',', Assignments(env));
    assert "ALL," + Assignments(env) == "ALL" + [','] + Assignments(env);
    if env != [] {
      forall p <- parts ensures ',' !in p {
        var i :| 0 <= i < |env| && parts[i] == p;
      }
      SplitJoin(parts, ',');
    } else {
      assert parts == [];
    }
  }

  /** Appending an option under its condition: the list keeps reading as the intended words. */
  method AppendOption(cmd: seq<string>, ghost words: seq<string>, name: string, v: Option<string>)
    returns (r: seq<string>)
    requires cmd != [] && AllRead(cmd, words) && name != "" && AllSafe(name)
    ensures r != [] && AllRead(r, words + Argument(name, v))
  {
    if IsSet(v) {
      OptionReads(name, v.value);
      r := cmd + [name + Quote(v.value)];
    } else {
      r := cmd;
      assert words + Argument(name, v) == words;
    }
  }

  method StartCommand(job: JobDescription) returns (cmd: seq<string>)
    ensures cmd != [] && AllRead(cmd, BaseArguments(job))
  {
    var env := "ALL," + Assignments(job.environment);
    cmd := ["sbatch"];
    cmd := cmd + ["--export=" + Quote(env)];
    cmd := cmd + ["--chdir=" + Quote(job.workingDirectory)];
    BareReads("sbatch");
    OptionReads("--export=", env);
    OptionReads("--chdir=", job.workingDirectory);
  }

  method AppendPlacement(cmd: seq<string>, ghost words: seq<string>, job: JobDescription) returns (r: seq<string>)
    requires cmd != [] && AllRead(cmd, words)
    ensures r != [] && AllRead(r, words + PlacementArguments(job))
  {
    ghost var w := words;
    r := cmd;
    r := AppendOption(r, w, "--partition=", job.partition);
    w := w + Argument("--partition=", job.partition);
    r := AppendOption(r, w, "--reservation=", job.reservation);
    w := w + Argument("--reservation=", job.reservation);
    r := AppendOption(r, w, "--account=", job.account);
    w := w + Argument("--account=", job.account);
    r := AppendOption(r, w, "--job-name=", job.name);
    w := w + Argument("--job-name=", job.name);
    assert w == words + PlacementArguments(job);
  }

  method AppendFiles(cmd: seq<string>, ghost words: seq<string>, job: JobDescription) returns (r: seq<string>)
    requires cmd != [] && AllRead(cmd, words)
    ensures r != [] && AllRead(r, words + FileArguments(job))
  {
    ghost var w := words;
    r := cmd;
    r := AppendOption(r, w, "--error=", job.standardError);
    w := w + Argument("--error=", job.standardError);
    r := AppendOption(r, w, "--output=", job.standardOutput);
    w := w + Argument("--output=", job.standardOutput);
    r := AppendOption(r, w, "--input=", job.standardInput);
    w := w + Argument("--input=", job.standardInput);
    r := AppendOption(r, w, "--constraint=", job.constraints);
    w := w + Argument("--constraint=", job.constraints);
    assert w == words + FileArguments(job);
  }

  /** The shell reads the printed line as exactly the intended arguments, and the command finds in them
      the whole description. */
  method GetCommand(job: JobDescription) returns (line: string)
    ensures Tokens(line) == Some(Arguments(job))
    ensures Describes(Tokens(line).value, job)
  {
    ArgumentsDescribe(job);
    var cmd := StartCommand(job);
    ghost var words := BaseArguments(job);
    cmd := AppendPlacement(cmd, words, job);
    words := words + PlacementArguments(job);
    cmd := AppendFiles(cmd, words, job);
    words := words + FileArguments(job);
    if IsSet(job.scriptPath) {
      LastTwoReads(cmd, words, job.scriptPath.value);
      cmd := cmd + ["-- " + Quote(job.scriptPath.value)];
    } else {
      JoinReads(cmd, words);
      assert words + [] == words;
    }
    line := Join(cmd, ' ');
  }

  lemma {:induction false} JoinEndsWithTwo(cmd: seq<string>, a: string, b: string)
    ensures Join(cmd + [a + " " + b], ' ') == Join(cmd + [a, b], ' ')
    decreases |cmd|
  {
    if cmd == [] {
      assert Join([a, b][1..], ' ') == b;
    } else {
      assert (cmd + [a + " " + b])[1..] == cmd[1..] + [a + " " + b];
      assert (cmd + [a, b])[1..] == cmd[1..] + [a, b];
      JoinEndsWithTwo(cmd[1..], a, b);
    }
  }

  lemma LastTwoReads(cmd: seq<string>, words: seq<string>, path: string)
    requires cmd != [] && AllRead(cmd, words)
    ensures Tokens(Join(cmd + ["-- " + Quote(path)], ' ')) == Some(words + ["--", path])
  {
    assert "--" + " " + Quote(path) == "-- " + Quote(path);
    JoinEndsWithTwo(cmd, "--", Quote(path));
    BareReads("--");
    QuotedReads(path);
    JoinReads(cmd + ["--", Quote(path)], words + ["--", path]);
  }
}
