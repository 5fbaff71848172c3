/** Parsing the line printed by `id`. */
module IdOutput {
  import opened Prelude
  import opened Text

  // ---------------------------------------------------------------- str.find and slices

  function FindFrom(s: string, sub: string, i: nat): (r: int)
    decreases |s| - i
  {
    if i + |sub| > |s| then -1
    else if s[i..i + |sub|] == sub then i
    else FindFrom(s, sub, i + 1)
  }

  /** A Python index: negative ones count from the end. */
  function Index(s: string, i: int): nat {
    if i < 0 then (if i + |s| < 0 then 0 else i + |s|) else if i > |s| then |s| else i
  }

  /** `s.find(sub, start)`. */
  function Find(s: string, sub: string, start: int): int {
    if start > |s| then -1 else FindFrom(s, sub, Index(s, start))
  }

  /** `s[i:j]`. */
  function Slice(s: string, i: int, j: int): string {
    if Index(s, i) >= Index(s, j) then "" else s[Index(s, i)..Index(s, j)]
  }

  // ---------------------------------------------------------------- the parser

  datatype Entry = Entry(name: string, id: string)

  datatype Identity = Identity(user: Entry, group: Entry, groups: seq<Entry>)

  function ParseGroup(g: string): Entry {
    var i, j := Find(g, "(", 0), Find(g, ")", 0);
    Entry(Slice(g, i + 1, j), Slice(g, 0, i))
  }

  function ParseGroups(gs: seq<string>): (es: seq<Entry>)
    ensures |es| == |gs|
  {
    seq(|gs|, i requires 0 <= i < |gs| => ParseGroup(gs[i]))
  }

  function ParseUser(stdout: string): Entry {
    var uidAt := Find(stdout, "uid=", 0);
    var i, j := Find(stdout, "(", uidAt), Find(stdout, ")", uidAt);
    Entry(Slice(stdout, i + 1, j), Slice(stdout, Find(stdout, "=", 0) + 1, i))
  }

  function ParsePrimaryGroup(stdout: string): Entry {
    var idAt := Find(stdout, "=", Find(stdout, ")", Find(stdout, "uid=", 0)));
    var gidAt := Find(stdout, "gid=", 0);
    var i, j := Find(stdout, "(", gidAt), Find(stdout, ")", gidAt);
    Entry(Slice(stdout, i + 1, j), Slice(stdout, idAt + 1, i))
  }

  function GroupsText(stdout: string): string {
    Slice(stdout, Find(stdout, "=", Find(stdout, ")", Find(stdout, "gid=", 0))) + 1, |stdout|)
  }

  function ParseId(stdout: string): Identity {
    Identity(ParseUser(stdout), ParsePrimaryGroup(stdout), ParseGroups(Split(GroupsText(stdout), ',')))
  }

  /** `parse_output` for exit status 0: index expressions, then a loop that reuses its indices. */
  method ParseOutput(stdout: string) returns (r: Identity)
    ensures r == ParseId(stdout)
  {
    var uidI := Find(stdout, "=", 0);
    var nameI := Find(stdout, "(", Find(stdout, "uid=", 0));
    var nameJ := Find(stdout, ")", Find(stdout, "uid=", 0));
    var user := Entry(Slice(stdout, nameI + 1, nameJ), Slice(stdout, uidI + 1, nameI));
    var gidI := Find(stdout, "=", nameJ);
    var gnameI := Find(stdout, "(", Find(stdout, "gid=", 0));
    var gnameJ := Find(stdout, ")", Find(stdout, "gid=", 0));
    var group := Entry(Slice(stdout, gnameI + 1, gnameJ), Slice(stdout, gidI + 1, gnameI));
    var groupList := Split(Slice(stdout, Find(stdout, "=", gnameJ) + 1, |stdout|), ',');
    var groups: seq<Entry> := [];
    for k := 0 to |groupList|
      invariant groups == ParseGroups(groupList)[..k]
    {
      gnameI := Find(groupList[k], "(", 0);
      gnameJ := Find(groupList[k], ")", 0);
      groups := groups + [Entry(Slice(groupList[k], gnameI + 1, gnameJ), Slice(groupList[k], 0, gnameI))];
    }
    r := Identity(user, group, groups);
  }

  // ---------------------------------------------------------------- the printer

  /** A user or a group as `id` knows it: the number always, the name only if there is one. */
  datatype Account = Account(id: string, name: Option<string>)

  datatype Person = Person(user: Account, group: Account, groups: seq<Account>)

  predicate IsNameChar(ch: char) { ch != '(' && ch != ')' && ch != ',' && ch != '=' }

  predicate IsName(s: string) { forall i | 0 <= i < |s| :: IsNameChar(s[i]) }

  /** Names are free of the four delimiters, numbers are digits. */
  predicate IsPrintable(a: Account) { IsNumber(a.id) && (a.name.Some? ==> IsName(a.name.value)) }

  predicate ArePrintable(gs: seq<Account>) { forall i | 0 <= i < |gs| :: IsPrintable(gs[i]) }

  /** A number without a name is printed bare. */
  function PrintAccount(a: Account): string {
    match a.name case Some(name) => a.id + ['('] + name + [')'] case None => a.id
  }

  function PrintAccounts(gs: seq<Account>): seq<string> {
    seq(|gs|, i requires 0 <= i < |gs| => PrintAccount(gs[i]))
  }

  /** The line, with whatever `id` appends after it (a security context, a newline). Without any
      group the last part is not printed. */
  function PrintId(x: Person, suffix: string): string {
    "uid=" + PrintAccount(x.user) + " gid=" + PrintAccount(x.group)
    + ((if x.groups == [] then "" else " groups=" + Join(PrintAccounts(x.groups), ',')) + suffix)
  }

  /** What a reader of the result should find; no name is an empty one. */
  function EntryOf(a: Account): Entry { Entry(if a.name.Some? then a.name.value else "", a.id) }

  function EntriesOf(gs: seq<Account>): seq<Entry> { seq(|gs|, i requires 0 <= i < |gs| => EntryOf(gs[i])) }

  function IdentityOf(x: Person): Identity { Identity(EntryOf(x.user), EntryOf(x.group), EntriesOf(x.groups)) }

  predicate AllNamed(gs: seq<Account>) { forall i | 0 <= i < |gs| :: gs[i].name.Some? }

  // ---------------------------------------------------------------- finding

  lemma {:induction false} FindsChar(s: string, c: char, start: nat, k: nat)
    requires start <= k < |s| && s[k] == c && forall j | start <= j < k :: s[j] != c
    ensures FindFrom(s, [c], start) == k
    decreases k - start
  {
    if start == k {
      assert s[k..k + 1] == [c];
    } else {
      assert s[start..start + 1][0] != c;
      FindsChar(s, c, start + 1, k);
    }
  }

  lemma {:induction false} FindsNotBefore(s: string, c: char, start: nat, k: nat)
    requires start <= k <= |s| && forall j | start <= j < k :: s[j] != c
    ensures FindFrom(s, [c], start) == -1 || k <= FindFrom(s, [c], start) < |s|
    decreases |s| - start
  {
    if start < |s| && s[start..start + 1] != [c] {
      FindsNotBefore(s, c, start + 1, if start < k then k else start + 1);
    } else if start < |s| {
      assert s[start..start + 1][0] == c;
    }
  }

  /** The four-character tag at `k` is the first one when its equals sign is the only one in reach. */
  lemma {:induction false} FindsTag(s: string, tag: string, start: nat, k: nat)
    requires |tag| == 4 && tag[3] == '=' && start <= k && k + 4 <= |s| && s[k..k + 4] == tag
    requires forall j | start <= j < k :: s[j] != tag[0] || s[j + 3] != '='
    ensures FindFrom(s, tag, start) == k
    decreases k - start
  {
    if start < k {
      assert s[start..start + 4][0] == s[start] && s[start..start + 4][3] == s[start + 3];
      FindsTag(s, tag, start + 1, k);
    }
  }

  // ---------------------------------------------------------------- groups

  /** One named entry, whatever follows: both of its parts are found. */
  lemma NamedReadsBack(a: Account, after: string)
    requires IsPrintable(a) && a.name.Some?
    ensures ParseGroup(PrintAccount(a) + after) == EntryOf(a)
  {
    var g, n := PrintAccount(a) + after, a.name.value;
    FindsChar(g, '(', 0, |a.id|);
    FindsChar(g, ')', 0, |a.id| + 1 + |n|);
    assert g[..|a.id|] == a.id;
    assert g[|a.id| + 1..|a.id| + 1 + |n|] == n;
  }

  /** Without parentheses both searches fail, and both parts are the text without its last character. */
  lemma BareTextReads(g: string)
    requires '(' !in g && ')' !in g && g != ""
    ensures ParseGroup(g) == Entry(g[..|g| - 1], g[..|g| - 1])
  {
    FindsNotBefore(g, '(', 0, |g|);
    FindsNotBefore(g, ')', 0, |g|);
  }

  lemma BareMisreads(a: Account, after: string)
    requires IsPrintable(a) && a.name.None? && '(' !in after && ')' !in after
    ensures ParseGroup(PrintAccount(a) + after) != EntryOf(a)
  {
    var g := PrintAccount(a) + after;
    BareTextReads(g);
    assert |g[..|g| - 1]| == |g| - 1;
  }

  /** Text in which an account may be the last thing before it without being changed. */
  predicate IsPlain(suffix: string) { '(' !in suffix && ')' !in suffix && ',' !in suffix }

  lemma JoinSplitsOff(gs: seq<Account>, suffix: string)
    requires |gs| > 1 && ',' !in PrintAccount(gs[0])
    ensures Split(Join(PrintAccounts(gs), ',') + suffix, ',')
         == [PrintAccount(gs[0])] + Split(Join(PrintAccounts(gs[1..]), ',') + suffix, ',')
  {
    var rest := Join(PrintAccounts(gs[1..]), ',');
    assert PrintAccounts(gs)[1..] == PrintAccounts(gs[1..]);
    assert Join(PrintAccounts(gs), ',') + suffix == PrintAccount(gs[0]) + [','] + (rest + suffix);
    SplitCons(PrintAccount(gs[0]), ',', rest + suffix);
  }

  lemma ParseGroupsCons(first: string, rest: seq<string>)
    ensures ParseGroups([first] + rest) == [ParseGroup(first)] + ParseGroups(rest)
  {
  }

  lemma EntriesCons(gs: seq<Account>)
    requires gs != []
    ensures EntriesOf(gs) == [EntryOf(gs[0])] + EntriesOf(gs[1..])
    ensures AllNamed(gs) <==> gs[0].name.Some? && AllNamed(gs[1..])
  {
    assert forall i | 0 < i < |gs| :: gs[i] == gs[1..][i - 1];
    assert forall i | 0 <= i < |gs| - 1 :: gs[1..][i] == gs[i + 1];
  }

  lemma ConsAgrees<T>(a: T, x: seq<T>, b: T, y: seq<T>)
    ensures [a] + x == [b] + y <==> a == b && x == y
  {
    assert ([a] + x)[0] == a && ([b] + y)[0] == b && ([a] + x)[1..] == x && ([b] + y)[1..] == y;
  }

  lemma OneReads(a: Account, after: string)
    requires IsPrintable(a)
    ensures a.name.Some? ==> ParseGroup(PrintAccount(a) + after) == EntryOf(a)
    ensures IsPlain(after) && a.name.None? ==> ParseGroup(PrintAccount(a) + after) != EntryOf(a)
  {
    if a.name.Some? {
      NamedReadsBack(a, after);
    } else if IsPlain(after) {
      BareMisreads(a, after);
    }
  }

  /** The group list reads back if every group has a name, and before plain text only then. */
  lemma {:induction false} GroupsReadBack(gs: seq<Account>, suffix: string)
    requires gs != [] && ArePrintable(gs) && ',' !in suffix
    ensures var es := ParseGroups(Split(Join(PrintAccounts(gs), ',') + suffix, ','));
      (AllNamed(gs) ==> es == EntriesOf(gs)) && (IsPlain(suffix) && es == EntriesOf(gs) ==> AllNamed(gs))
    decreases |gs|
  {
    var first := PrintAccount(gs[0]);
    NoComma(gs[0]);
    EntriesCons(gs);
    if |gs| == 1 {
      SplitAtom(first + suffix, ',');
      OneReads(gs[0], suffix);
      assert ParseGroups([first + suffix])[0] == ParseGroup(first + suffix) && EntriesOf(gs)[0] == EntryOf(gs[0]);
      assert AllNamed(gs[1..]);
    } else {
      var rest := Split(Join(PrintAccounts(gs[1..]), ',') + suffix, ',');
      JoinSplitsOff(gs, suffix);
      GroupsReadBack(gs[1..], suffix);
      OneReads(gs[0], "");
      assert first + "" == first;
      ParseGroupsCons(first, rest);
      ConsAgrees(ParseGroup(first), ParseGroups(rest), EntryOf(gs[0]), EntriesOf(gs[1..]));
    }
  }

  lemma NoComma(a: Account)
    requires IsPrintable(a)
    ensures ',' !in PrintAccount(a)
  {
  }

  // ---------------------------------------------------------------- the user

  predicate Numbers(s: string, i: nat, j: nat) { i <= j <= |s| && forall k | i <= k < j :: IsDigit(s[k]) }

  predicate Names(s: string, i: nat, j: nat) { i <= j <= |s| && forall k | i <= k < j :: IsNameChar(s[k]) }

  /** The characters up to the primary group's tag; (a, b) are the parentheses around the name. */
  predicate UserLaidOut(s: string, a: nat, b: nat) {
    4 <= a < b && b + 6 <= |s|
    && s[0] == 'u' && s[1] == 'i' && s[2] == 'd' && s[3] == '=' && s[a] == '(' && s[b] == ')'
    && s[b + 1] == ' ' && s[b + 2] == 'g' && s[b + 3] == 'i' && s[b + 4] == 'd' && s[b + 5] == '='
    && Numbers(s, 4, a) && Names(s, a + 1, b)
  }

  lemma FindsTags(s: string, a: nat, b: nat)
    requires UserLaidOut(s, a, b)
    ensures Find(s, "uid=", 0) == 0 && Find(s, "gid=", 0) == b + 2
  {
    assert s[0..4] == "uid=";
    FindsTag(s, "uid=", 0, 0);
    assert s[b + 2..b + 6] == "gid=";
    forall j | 0 <= j < b + 2 ensures s[j] != 'g' || s[j + 3] != '=' {
      if j + 3 == a || j + 3 == b { assert s[j + 3] != '='; }
    }
    FindsTag(s, "gid=", 0, b + 2);
  }

  lemma FindsUserMarks(s: string, a: nat, b: nat)
    requires UserLaidOut(s, a, b)
    ensures Find(s, "(", 0) == a && Find(s, ")", 0) == b && Find(s, "=", 0) == 3 && Find(s, "=", b) == b + 5
  {
    FindsChar(s, '(', 0, a);
    FindsChar(s, ')', 0, b);
    FindsChar(s, '=', 0, 3);
    FindsChar(s, '=', b, b + 5);
  }

  lemma ParsesUser(s: string, a: nat, b: nat)
    requires UserLaidOut(s, a, b)
    ensures ParseUser(s) == Entry(s[a + 1..b], s[4..a])
  {
    FindsTags(s, a, b);
    FindsUserMarks(s, a, b);
  }

  /** The line of a named user, whatever follows the primary group's tag. */
  function UserHead(id: string, name: string): string { "uid=" + (id + ['('] + name + [')']) + " gid=" }

  predicate CutsUser(s: string, a: nat, b: nat, id: string, name: string) {
    4 <= a < b && b + 6 <= |s|
    && s[..4] == "uid=" && s[4..a] == id && s[a] == '(' && s[a + 1..b] == name && s[b] == ')'
    && s[b + 1..b + 6] == " gid="
  }

  lemma PrintsUserPieces(id: string, name: string, rest: string)
    ensures var a := 4 + |id|; CutsUser(UserHead(id, name) + rest, a, a + 1 + |name|, id, name)
  {
  }

  lemma UserPiecesAreLaidOut(s: string, a: nat, b: nat, id: string, name: string)
    requires AllDigits(id) && IsName(name) && CutsUser(s, a, b, id, name)
    ensures UserLaidOut(s, a, b)
  {
    assert Numbers(s, 4, a) by { forall k | 4 <= k < a ensures IsDigit(s[k]) { assert s[k] == id[k - 4]; } }
    assert Names(s, a + 1, b) by {
      forall k | a + 1 <= k < b ensures IsNameChar(s[k]) { assert s[k] == name[k - a - 1]; }
    }
    var tag := s[b + 1..b + 6];
    assert s[b + 1] == tag[0] && s[b + 2] == tag[1] && s[b + 3] == tag[2] && s[b + 4] == tag[3] && s[b + 5] == tag[4];
    assert s[0] == s[..4][0] && s[1] == s[..4][1] && s[2] == s[..4][2] && s[3] == s[..4][3];
  }

  lemma UserHeadIsLaidOut(id: string, name: string, rest: string)
    requires AllDigits(id) && IsName(name)
    ensures var s, a := UserHead(id, name) + rest, 4 + |id|;
      var b := a + 1 + |name|;
      UserLaidOut(s, a, b) && s[4..a] == id && s[a + 1..b] == name && |UserHead(id, name)| == b + 6
  {
    var a := 4 + |id|;
    PrintsUserPieces(id, name, rest);
    UserPiecesAreLaidOut(UserHead(id, name) + rest, a, a + 1 + |name|, id, name);
  }

  lemma NamedUserReadsBack(user: Account, rest: string)
    requires IsPrintable(user) && user.name.Some?
    ensures ParseUser(UserHead(user.id, user.name.value) + rest) == EntryOf(user)
  {
    UserHeadIsLaidOut(user.id, user.name.value, rest);
    ParsesUser(UserHead(user.id, user.name.value) + rest, 4 + |user.id|, 4 + |user.id| + 1 + |user.name.value|);
  }

  /** A bare number runs on at least to the next blank. */
  lemma BareUserMisreads(id: string, rest: string)
    requires IsNumber(id)
    ensures |ParseUser("uid=" + id + " gid=" + rest).id| > |id|
  {
    var s, k := "uid=" + id + " gid=" + rest, 4 + |id|;
    assert s[..4] == "uid=";
    assert s[3] == s[..4][3] && s[0] == s[..4][0] && s[1] == s[..4][1] && s[2] == s[..4][2];
    assert s[4..k] == id && s[k] == ' ' && |s| >= k + 5;
    forall j | 0 <= j < k + 1 ensures s[j] != '(' { if 4 <= j < k { assert s[j] == id[j - 4]; } }
    FindsTag(s, "uid=", 0, 0);
    FindsChar(s, '=', 0, 3);
    FindsNotBefore(s, '(', 0, k + 1);
  }

  // ---------------------------------------------------------------- the primary group

  /** The characters of a named group after the tag, up to the group list; (c, d) are its parentheses. */
  predicate GroupLaidOut(s: string, b: nat, c: nat, d: nat) {
    b + 6 <= c < d && d + 9 <= |s| && s[c] == '(' && s[d] == ')' && s[d + 1] == ' ' && s[d + 8] == '='
    && (forall k | d + 1 < k < d + 8 :: s[k] != '=')
    && Numbers(s, b + 6, c) && Names(s, c + 1, d)
  }

  lemma FindsGroupMarks(s: string, a: nat, b: nat, c: nat, d: nat)
    requires UserLaidOut(s, a, b) && GroupLaidOut(s, b, c, d)
    ensures Find(s, "(", b + 2) == c && Find(s, ")", b + 2) == d && Find(s, "=", d) == d + 8
  {
    FindsChar(s, '(', b + 2, c);
    FindsChar(s, ')', b + 2, d);
    FindsChar(s, '=', d, d + 8);
  }

  lemma ParsesPrimaryGroup(s: string, a: nat, b: nat, c: nat, d: nat)
    requires UserLaidOut(s, a, b) && GroupLaidOut(s, b, c, d)
    ensures ParsePrimaryGroup(s) == Entry(s[c + 1..d], s[b + 6..c])
  {
    FindsTags(s, a, b);
    FindsUserMarks(s, a, b);
    FindsGroupMarks(s, a, b, c, d);
  }

  lemma ParsesGroupsText(s: string, a: nat, b: nat, c: nat, d: nat)
    requires UserLaidOut(s, a, b) && GroupLaidOut(s, b, c, d)
    ensures GroupsText(s) == s[d + 9..]
  {
    FindsTags(s, a, b);
    FindsGroupMarks(s, a, b, c, d);
    assert s[d + 9..|s|] == s[d + 9..];
  }

  /** A named primary group and the group list, after the tag. */
  function GroupPart(id: string, name: string, tail: string): string {
    (id + ['('] + name + [')']) + (" groups=" + tail)
  }

  predicate CutsGroup(s: string, b: nat, c: nat, d: nat, id: string, name: string, tail: string) {
    b + 6 <= c < d && d + 9 <= |s|
    && s[b + 6..c] == id && s[c] == '(' && s[c + 1..d] == name && s[d] == ')'
    && s[d + 1..d + 9] == " groups=" && s[d + 9..] == tail
  }

  lemma PrintsGroupPieces(head: string, b: nat, id: string, name: string, tail: string)
    requires |head| == b + 6
    ensures var c := b + 6 + |id|; CutsGroup(head + GroupPart(id, name, tail), b, c, c + 1 + |name|, id, name, tail)
  {
  }

  lemma GroupPiecesAreLaidOut(s: string, b: nat, c: nat, d: nat, id: string, name: string, tail: string)
    requires AllDigits(id) && IsName(name) && CutsGroup(s, b, c, d, id, name, tail)
    ensures GroupLaidOut(s, b, c, d)
  {
    assert Numbers(s, b + 6, c) by {
      forall k | b + 6 <= k < c ensures IsDigit(s[k]) { assert s[k] == id[k - b - 6]; }
    }
    assert Names(s, c + 1, d) by {
      forall k | c + 1 <= k < d ensures IsNameChar(s[k]) { assert s[k] == name[k - c - 1]; }
    }
    forall k | d + 1 < k < d + 8 ensures s[k] != '=' { assert s[k] == s[d + 1..d + 9][k - d - 1]; }
    assert s[d + 1] == s[d + 1..d + 9][0] && s[d + 8] == s[d + 1..d + 9][7];
  }

  lemma NamedGroupReadsBack(user: Account, group: Account, tail: string)
    requires IsPrintable(user) && user.name.Some? && IsPrintable(group) && group.name.Some?
    ensures var s := UserHead(user.id, user.name.value) + GroupPart(group.id, group.name.value, tail);
      ParsePrimaryGroup(s) == EntryOf(group) && GroupsText(s) == tail
  {
    var head, part := UserHead(user.id, user.name.value), GroupPart(group.id, group.name.value, tail);
    var a := 4 + |user.id|;
    var b := a + 1 + |user.name.value|;
    var c := b + 6 + |group.id|;
    var d := c + 1 + |group.name.value|;
    UserHeadIsLaidOut(user.id, user.name.value, part);
    PrintsGroupPieces(head, b, group.id, group.name.value, tail);
    GroupPiecesAreLaidOut(head + part, b, c, d, group.id, group.name.value, tail);
    ParsesPrimaryGroup(head + part, a, b, c, d);
    ParsesGroupsText(head + part, a, b, c, d);
  }

  /** Where a group list follows, a bare number runs on at least to the next blank. */
  lemma BareGroupRunsOn(s: string, a: nat, b: nat, id: string)
    requires UserLaidOut(s, a, b) && IsNumber(id) && |s| > b + 6 + |id| + 1
    requires s[b + 6..b + 6 + |id|] == id && s[b + 6 + |id|] == ' '
    ensures |ParsePrimaryGroup(s).id| > |id|
  {
    var k := b + 6 + |id|;
    forall j | b + 2 <= j < k + 1 ensures s[j] != '(' {
      if b + 6 <= j < k { assert s[j] == id[j - b - 6]; }
    }
    FindsTags(s, a, b);
    FindsUserMarks(s, a, b);
    FindsNotBefore(s, '(', b + 2, k + 1);
  }

  lemma BareGroupMisreads(user: Account, id: string, tail: string)
    requires IsPrintable(user) && user.name.Some? && IsNumber(id)
    ensures |ParsePrimaryGroup(UserHead(user.id, user.name.value) + (id + (" groups=" + tail))).id| > |id|
  {
    var a := 4 + |user.id|;
    var b := a + 1 + |user.name.value|;
    var rest := id + (" groups=" + tail);
    var s := UserHead(user.id, user.name.value) + rest;
    UserHeadIsLaidOut(user.id, user.name.value, rest);
    assert s[b + 6..] == rest;
    assert rest[..|id|] == id && rest[|id|] == ' ';
    assert s[b + 6..b + 6 + |id|] == rest[..|id|] && s[b + 6 + |id|] == rest[|id|];
    BareGroupRunsOn(s, a, b, id);
  }

  // ---------------------------------------------------------------- the whole line

  /** Everybody on the line has a name, and there is a group list. */
  predicate IsReadable(x: Person) { x.user.name.Some? && x.group.name.Some? && x.groups != [] && AllNamed(x.groups) }

  lemma UserReadsIff(x: Person, suffix: string)
    requires IsPrintable(x.user)
    ensures ParseUser(PrintId(x, suffix)) == EntryOf(x.user) <==> x.user.name.Some?
  {
    var tail := (if x.groups == [] then "" else " groups=" + Join(PrintAccounts(x.groups), ',')) + suffix;
    var rest := PrintAccount(x.group) + tail;
    if x.user.name.Some? {
      assert PrintId(x, suffix) == UserHead(x.user.id, x.user.name.value) + rest;
      NamedUserReadsBack(x.user, rest);
    } else {
      assert PrintId(x, suffix) == "uid=" + x.user.id + " gid=" + rest;
      BareUserMisreads(x.user.id, rest);
    }
  }

  lemma GroupReadsIff(x: Person, suffix: string)
    requires IsPrintable(x.user) && IsPrintable(x.group) && x.user.name.Some? && x.groups != []
    ensures ParsePrimaryGroup(PrintId(x, suffix)) == EntryOf(x.group) <==> x.group.name.Some?
    ensures x.group.name.Some? ==> GroupsText(PrintId(x, suffix)) == Join(PrintAccounts(x.groups), ',') + suffix
  {
    var tail := Join(PrintAccounts(x.groups), ',') + suffix;
    var head := UserHead(x.user.id, x.user.name.value);
    assert PrintId(x, suffix) == head + (PrintAccount(x.group) + (" groups=" + tail));
    if x.group.name.Some? {
      NamedGroupReadsBack(x.user, x.group, tail);
    } else {
      BareGroupMisreads(x.user, x.group.id, tail);
    }
  }

  lemma ReadsBack(x: Person, suffix: string)
    requires IsPrintable(x.user) && IsPrintable(x.group) && ArePrintable(x.groups) && ',' !in suffix
    ensures IsReadable(x) ==> ParseId(PrintId(x, suffix)) == IdentityOf(x)
    ensures IsPlain(suffix) && ParseId(PrintId(x, suffix)) == IdentityOf(x) ==> IsReadable(x)
  {
    var s := PrintId(x, suffix);
    assert |ParseGroups(Split(GroupsText(s), ','))| >= 1;
    UserReadsIff(x, suffix);
    if x.user.name.Some? && x.groups != [] {
      GroupReadsIff(x, suffix);
      GroupsReadBack(x.groups, suffix);
    }
  }

  /** Parsing inverts printing, whatever comma-free text follows, if the user, the primary group and
      every group have a name and there is a group. */
  lemma IdRoundTrip(x: Person, suffix: string)
    requires IsPrintable(x.user) && IsPrintable(x.group) && ArePrintable(x.groups) && ',' !in suffix
    requires IsReadable(x)
    ensures ParseId(PrintId(x, suffix)) == IdentityOf(x)
  {
    ReadsBack(x, suffix);
  }

  /** Before text that cannot be taken for a part of the list, only then. */
  lemma IdRoundTripIff(x: Person, suffix: string)
    requires IsPrintable(x.user) && IsPrintable(x.group) && ArePrintable(x.groups) && IsPlain(suffix)
    ensures ParseId(PrintId(x, suffix)) == IdentityOf(x) <==> IsReadable(x)
  {
    ReadsBack(x, suffix);
  }
}
