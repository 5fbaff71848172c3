/** Node lists in bracket notation, expanded by the PBS client and by the OnDemand adapter. */
module NodeRanges {
  import opened Prelude
  import opened Text

  // ---------------------------------------------------------------- zero padding

  function Zeros(k: nat): (s: string)
    ensures |s| == k && AllDigits(s)
  {
    if k == 0 then "" else ['0'] + Zeros(k - 1)
  }

  function Fill(s: string, width: nat): (r: string)
    ensures |r| == Max(|s|, width)
  {
    if |s| >= width then s else Zeros(width - |s|) + s
  }

  /** `n` in decimal, filled up with zeros on the left: `{i:0{width}d}`, and `rjust(width, '0')`. */
  function Pad(n: nat, width: nat): (s: string)
    ensures AllDigits(s) && |s| == Max(|Decimal(n)|, width)
  {
    Fill(Decimal(n), width)
  }

  lemma {:induction false} NatOfZeros(k: nat, s: string)
    requires AllDigits(s)
    ensures AllDigits(Zeros(k) + s) && NatOf(Zeros(k) + s) == NatOf(s)
    decreases k, |s|
  {
    var t := Zeros(k) + s;
    if s != "" {
      NatOfZeros(k, s[..|s| - 1]);
      assert t[..|t| - 1] == Zeros(k) + s[..|s| - 1];
    } else if k > 0 {
      ZerosEnd(k);
      assert t == Zeros(k);
      NatOfZeros(k - 1, "");
      assert Zeros(k - 1) + "" == Zeros(k - 1);
    }
  }

  lemma {:induction false} ZerosEnd(k: nat)
    requires k > 0
    ensures Zeros(k) == Zeros(k - 1) + ['0'] && Zeros(k)[..k - 1] == Zeros(k - 1)
  {
    if k > 1 {
      ZerosEnd(k - 1);
      assert ['0'] + (Zeros(k - 2) + ['0']) == (['0'] + Zeros(k - 2)) + ['0'];
    }
  }

  lemma PadReadsBack(n: nat, width: nat)
    ensures NatOf(Pad(n, width)) == n
  {
    var s := Decimal(n);
    assert NatOf(s) == n by { NatOfDecimal(n); }
    if |s| < width {
      NatOfZeros(width - |s|, s);
    }
  }

  lemma FillExtends(s: string, c: char, width: nat)
    requires |s| <= width
    ensures Fill(s + [c], width + 1) == Fill(s, width) + [c]
  {
    if |s| < width {
      assert Zeros(width - |s|) + (s + [c]) == Zeros(width - |s|) + s + [c];
    }
  }

  lemma FillDigit(c: char, width: nat)
    requires width > 0
    ensures Fill([c], width + 1) == Fill(['0'], width) + [c]
  {
    ZerosEnd(width);
    assert Fill(['0'], width) == Zeros(width);
  }

  lemma DecimalExtends(q: nat, d: nat)
    requires d < 10
    ensures q > 0 ==> Decimal(10 * q + d) == Decimal(q) + [DigitChar(d)]
    ensures q == 0 ==> Decimal(10 * q + d) == [DigitChar(d)] && Decimal(q) == ['0']
  {
    assert (10 * q + d) / 10 == q && (10 * q + d) % 10 == d;
  }

  /** One more digit on the right of a padded number. */
  lemma PadExtends(q: nat, d: nat, width: nat)
    requires d < 10 && |Decimal(q)| <= width
    ensures Pad(10 * q + d, width + 1) == Pad(q, width) + [DigitChar(d)] && |Decimal(10 * q + d)| <= width + 1
  {
    DecimalExtends(q, d);
    if q > 0 {
      FillExtends(Decimal(q), DigitChar(d), width);
    } else {
      FillDigit(DigitChar(d), width);
    }
  }

  /** Reading digits and padding to their own width gives the digits again. */
  lemma {:induction false} PadOfDigits(s: string)
    requires AllDigits(s) && s != ""
    ensures Pad(NatOf(s), |s|) == s && |Decimal(NatOf(s))| <= |s|
    decreases |s|
  {
    var r, d := s[..|s| - 1], DigitValue(s[|s| - 1]);
    assert NatOf(s) == 10 * NatOf(r) + d;
    assert s == r + [DigitChar(d)];
    if r == "" {
      assert NatOf(r) == 0;
    } else {
      PadOfDigits(r);
      PadExtends(NatOf(r), d, |r|);
    }
  }

  // ---------------------------------------------------------------- one range

  /** The expansion of `prefix[a-b]` at a given width. */
  function Names(prefix: string, a: nat, b: nat, width: nat): seq<string> {
    seq(if a <= b then b - a + 1 else 0, i requires i >= 0 => prefix + Pad(a + i, width))
  }

  function Count(a: nat, b: nat): nat { if a <= b then b - a + 1 else 0 }

  /** Every name is the prefix and a number, the numbers run from `a` to `b`, and no name repeats. */
  lemma NamesDecode(prefix: string, a: nat, b: nat, width: nat)
    ensures var ns := Names(prefix, a, b, width);
      |ns| == Count(a, b)
      && (forall i | 0 <= i < |ns| ::
            prefix <= ns[i] && AllDigits(ns[i][|prefix|..]) && NatOf(ns[i][|prefix|..]) == a + i)
      && (forall i, j | 0 <= i < j < |ns| :: ns[i] != ns[j])
  {
    var ns := Names(prefix, a, b, width);
    forall i | 0 <= i < |ns|
      ensures prefix <= ns[i] && AllDigits(ns[i][|prefix|..]) && NatOf(ns[i][|prefix|..]) == a + i
    {
      assert ns[i] == prefix + Pad(a + i, width);
      assert ns[i][|prefix|..] == Pad(a + i, width);
      PadReadsBack(a + i, width);
    }
  }

  lemma NameAt(prefix: string, a: nat, b: nat, width: nat, i: nat)
    requires a + i <= b
    ensures Names(prefix, a, b, width)[i] == prefix + Pad(a + i, width)
    ensures |Names(prefix, a, b, width)[i]| >= |prefix| + width
  {
  }

  lemma NamesAreWide(prefix: string, a: nat, b: nat, width: nat)
    requires a <= b
    ensures forall i: nat | i <= b - a :: |Names(prefix, a, b, width)[i]| >= |prefix| + width
  {
    forall i: nat | i <= b - a ensures |Names(prefix, a, b, width)[i]| >= |prefix| + width {
      NameAt(prefix, a, b, width, i);
    }
  }

  lemma NamesEnds(prefix: string, a: nat, b: nat, width: nat)
    requires a <= b
    ensures var ns := Names(prefix, a, b, width);
      ns[0] == prefix + Pad(a, width) && ns[|ns| - 1] == prefix + Pad(b, width)
  {
    NameAt(prefix, a, b, width, 0);
    NameAt(prefix, a, b, width, b - a);
  }

  /** With the start's own width every name is at least that wide and the first is the start as written. */
  lemma NamesKeepTheStart(prefix: string, start: string, end: string)
    requires AllDigits(start) && AllDigits(end) && start != "" && end != "" && NatOf(start) <= NatOf(end)
    ensures var ns := Names(prefix, NatOf(start), NatOf(end), |start|);
      ns[0] == prefix + start && (|end| == |start| ==> ns[|ns| - 1] == prefix + end)
      && forall i: nat | i < |ns| :: |ns[i]| >= |prefix| + |start|
  {
    NamesAreWide(prefix, NatOf(start), NatOf(end), |start|);
    NamesEnds(prefix, NatOf(start), NatOf(end), |start|);
    assert Pad(NatOf(start), |start|) == start by { PadOfDigits(start); }
    assert Pad(NatOf(end), |end|) == end by { PadOfDigits(end); }
  }

  // ---------------------------------------------------------------- PbsJob._parse_nodelist

  /** The longest start of `s` that has neither of two characters. */
  function Run(s: string, c: char, d: char): (n: nat)
    ensures n <= |s|
  {
    if s == "" || s[0] == c || s[0] == d then 0 else 1 + Run(s[1..], c, d)
  }

  function DigitRun(s: string): (n: nat)
    ensures n <= |s| && AllDigits(s[..n])
  {
    if s == "" || !IsDigit(s[0]) then 0
    else
      var n := DigitRun(s[1..]);
      assert s[..1 + n] == [s[0]] + s[1..][..n];
      1 + n
  }

  datatype Range = Range(prefix: string, start: string, end: string)

  predicate IsRange(r: Range) {
    r.prefix != "" && r.start != "" && r.end != "" && AllDigits(r.start) && AllDigits(r.end)
  }

  /** `(\d+)-(\d+)\]` right after the bracket. */
  function MatchSpanAt(prefix: string, t: string): (m: Option<Range>)
    requires prefix != ""
    ensures m.Some? ==> IsRange(m.value)
  {
    var k := DigitRun(t);
    if k == 0 || k == |t| || t[k] != '-' then None
    else
      var u := t[k + 1..];
      var l := DigitRun(u);
      if l == 0 || l == |u| || u[l] != ']' then None
      else Some(Range(prefix, t[..k], u[..l]))
  }

  /** `re.match(r"([^\[]+)\[(\d+)-(\d+)\]", host)`; what follows the bracket is not looked at. */
  function MatchRange(host: string): (m: Option<Range>)
    ensures m.Some? ==> IsRange(m.value)
  {
    var n := Run(host, '[', '[');
    if n == 0 || n == |host| then None else MatchSpanAt(host[..n], host[n + 1..])
  }

  function HostOf(chunk: string): string { Split(chunk, '/')[0] }

  function ExpandRange(r: Range): seq<string>
    requires IsRange(r)
  {
    Names(r.prefix, NatOf(r.start), NatOf(r.end), |r.start|)
  }

  function ExpandHost(host: string): seq<string> {
    match MatchRange(host)
    case Some(r) => ExpandRange(r)
    case None => [host]
  }

  function ExpandChunks(chunks: seq<string>): seq<string> {
    if chunks == [] then []
    else ExpandChunks(chunks[..|chunks| - 1]) + ExpandHost(HostOf(chunks[|chunks| - 1]))
  }

  function Nodelist(v: Option<string>): string {
    if v.None? || v.value == "" then "None assigned" else Join(ExpandChunks(Split(v.value, '+')), ',')
  }

  lemma NamesPrefix(prefix: string, a: nat, b: nat, width: nat, i: nat)
    requires a + i <= b
    ensures Names(prefix, a, b, width)[..i + 1] == Names(prefix, a, b, width)[..i] + [prefix + Pad(a + i, width)]
  {
    NameAt(prefix, a, b, width, i);
  }

  /** The inner loop: the names of one range, one by one. */
  method AppendRange(nodes: seq<string>, prefix: string, first: nat, last: nat, width: nat) returns (r: seq<string>)
    ensures r == nodes + Names(prefix, first, last, width)
  {
    ghost var names := Names(prefix, first, last, width);
    r := nodes;
    var i := first;
    while i <= last
      invariant first <= i && i - first <= |names|
      invariant i <= last <==> i - first < |names|
      invariant r == nodes + names[..i - first]
    {
      r := r + [prefix + Pad(i, width)];
      NamesPrefix(prefix, first, last, width, i - first);
      i := i + 1;
    }
    assert names[..i - first] == names;
  }

  /** The body of the loop over chunks. */
  method AppendHost(nodes: seq<string>, host: string) returns (r: seq<string>)
    ensures r == nodes + ExpandHost(host)
  {
    var m := MatchRange(host);
    if m.None? {
      return nodes + [host];
    }
    r := AppendRange(nodes, m.value.prefix, NatOf(m.value.start), NatOf(m.value.end), |m.value.start|);
  }

  method ParseNodelist(v: Option<string>) returns (r: string)
    ensures r == Nodelist(v)
    ensures v == None || v == Some("") ==> r == "None assigned"
  {
    if v.None? || v.value == "" {
      return "None assigned";
    }
    var nodes: seq<string> := [];
    var chunks := Split(v.value, '+');
    for c := 0 to |chunks|
      invariant nodes == ExpandChunks(chunks[..c])
    {
      var host := Split(chunks[c], '/')[0];
      nodes := AppendHost(nodes, host);
      assert chunks[..c + 1][..c] == chunks[..c] && chunks[..c + 1][c] == chunks[c];
    }
    assert chunks[..|chunks|] == chunks;
    r := Join(nodes, ',');
  }

  // ---------------------------------------------------------------- what PBS prints

  /** One entry of an `exec_host` list: a node or a range of nodes, then the slot after a slash. */
  datatype Host = Single(name: string) | Ranged(range: Range)

  datatype Entry = Entry(host: Host, slot: string)

  predicate IsHostText(s: string) {
    s != "" && forall i | 0 <= i < |s| :: s[i] != '+' && s[i] != '/' && s[i] != '[' && s[i] != ','
  }

  predicate IsEntry(e: Entry) {
    '+' !in e.slot
    && match e.host
       case Single(n) => IsHostText(n)
       case Ranged(r) => IsHostText(r.prefix) && IsRange(r)
  }

  function PrintRange(r: Range): string { r.prefix + "[" + r.start + "-" + r.end + "]" }

  function PrintHost(h: Host): string {
    match h case Single(n) => n case Ranged(r) => PrintRange(r)
  }

  function PrintEntry(e: Entry): string { PrintHost(e.host) + "/" + e.slot }

  function PrintEntries(es: seq<Entry>): seq<string> { seq(|es|, i requires 0 <= i < |es| => PrintEntry(es[i])) }

  /** The nodes an entry stands for. */
  function NodesOf(e: Entry): seq<string>
    requires IsEntry(e)
  {
    match e.host case Single(n) => [n] case Ranged(r) => ExpandRange(r)
  }

  function AllNodes(es: seq<Entry>): seq<string>
    requires forall i | 0 <= i < |es| :: IsEntry(es[i])
  {
    if es == [] then [] else AllNodes(es[..|es| - 1]) + NodesOf(es[|es| - 1])
  }

  function CountOf(e: Entry): nat
    requires IsEntry(e)
  {
    match e.host case Single(_) => 1 case Ranged(r) => Count(NatOf(r.start), NatOf(r.end))
  }

  function TotalCount(es: seq<Entry>): nat
    requires forall i | 0 <= i < |es| :: IsEntry(es[i])
  {
    if es == [] then 0 else TotalCount(es[..|es| - 1]) + CountOf(es[|es| - 1])
  }

  lemma {:induction false} RunStops(a: string, b: string, c: char, d: char)
    requires forall i | 0 <= i < |a| :: a[i] != c && a[i] != d
    requires b == "" || b[0] == c || b[0] == d
    ensures Run(a + b, c, d) == |a|
    decreases |a|
  {
    if a == "" {
      assert a + b == b;
    } else {
      assert (a + b)[1..] == a[1..] + b;
      RunStops(a[1..], b, c, d);
    }
  }

  lemma {:induction false} DigitRunStops(a: string, b: string)
    requires AllDigits(a) && (b == "" || !IsDigit(b[0]))
    ensures DigitRun(a + b) == |a|
    decreases |a|
  {
    if a == "" {
      assert a + b == b;
    } else {
      assert (a + b)[1..] == a[1..] + b;
      DigitRunStops(a[1..], b);
    }
  }

  lemma MatchesPrefix(p: string, t: string)
    requires p != "" && '[' !in p
    ensures var host := p + "[" + t; Run(host, '[', '[') == |p| && host[|p| + 1..] == t && host[..|p|] == p
  {
    assert p + "[" + t == p + ("[" + t);
    RunStops(p, "[" + t, '[', '[');
  }

  lemma MatchesDigits(a: string, c: char, u: string)
    requires AllDigits(a) && !IsDigit(c)
    ensures var t := a + [c] + u; DigitRun(t) == |a| && t[|a| + 1..] == u && t[..|a|] == a
  {
    assert a + [c] + u == a + ([c] + u);
    DigitRunStops(a, [c] + u);
  }

  lemma SpanReadsBack(r: Range, after: string)
    requires IsRange(r)
    ensures MatchSpanAt(r.prefix, r.start + ['-'] + (r.end + [']'] + after)) == Some(r)
  {
    MatchesDigits(r.start, '-', r.end + [']'] + after);
    MatchesDigits(r.end, ']', after);
  }

  /** The pattern reads a printed range back, whatever follows it. */
  lemma RangeReadsBack(r: Range, after: string)
    requires IsRange(r) && '[' !in r.prefix
    ensures MatchRange(PrintRange(r) + after) == Some(r)
  {
    var t := r.start + ['-'] + (r.end + [']'] + after);
    assert PrintRange(r) + after == r.prefix + "[" + t;
    MatchesPrefix(r.prefix, t);
    SpanReadsBack(r, after);
  }

  /** The host starts with a range as PBS prints one. */
  predicate StartsWith(host: string, r: Range) { IsRange(r) && '[' !in r.prefix && PrintRange(r) <= host }

  lemma {:induction false} RunFindsNone(s: string, c: char, d: char)
    ensures forall i | 0 <= i < Run(s, c, d) :: s[i] != c && s[i] != d
    ensures Run(s, c, d) < |s| ==> s[Run(s, c, d)] == c || s[Run(s, c, d)] == d
    decreases |s|
  {
    if s != "" && s[0] != c && s[0] != d {
      RunFindsNone(s[1..], c, d);
      assert s == [s[0]] + s[1..];
    }
  }

  lemma SpanIsPrinted(prefix: string, t: string)
    requires prefix != "" && MatchSpanAt(prefix, t).Some?
    ensures var r := MatchSpanAt(prefix, t).value;
      r.prefix == prefix && PrintSpan(r) <= t
  {
    var k := DigitRun(t);
    var u := t[k + 1..];
    var l := DigitRun(u);
    var r := MatchSpanAt(prefix, t).value;
    assert t == t[..k] + "-" + u && u == u[..l] + "]" + u[l + 1..];
    assert t == PrintSpan(r) + u[l + 1..];
  }

  function PrintSpan(r: Range): string { r.start + "-" + r.end + "]" }

  lemma PrintedBefore(p: string, r: Range, t: string)
    requires r.prefix == p && PrintSpan(r) <= t
    ensures PrintRange(r) <= p + "[" + t
  {
    var after := t[|PrintSpan(r)|..];
    assert t == PrintSpan(r) + after;
    assert PrintRange(r) == p + "[" + PrintSpan(r);
    assert p + "[" + t == PrintRange(r) + after;
  }

  lemma MatchIsPrinted(host: string)
    requires MatchRange(host).Some?
    ensures StartsWith(host, MatchRange(host).value)
  {
    var n, r := Run(host, '[', '['), MatchRange(host).value;
    var p, t := host[..n], host[n + 1..];
    RunFindsNone(host, '[', '[');
    SpanIsPrinted(p, t);
    PrintedBefore(p, r, t);
    assert host == p + "[" + t;
    assert '[' !in p;
  }

  /** The pattern matches exactly the hosts that start with a printed range, and every other host
      stands for itself. */
  lemma MatchRangeIff(host: string, r: Range)
    ensures MatchRange(host) == Some(r) <==> StartsWith(host, r)
    ensures StartsWith(host, r) ==> ExpandHost(host) == ExpandRange(r)
    ensures (forall q :: !StartsWith(host, q)) ==> ExpandHost(host) == [host]
  {
    if StartsWith(host, r) {
      assert host == PrintRange(r) + host[|PrintRange(r)|..];
      RangeReadsBack(r, host[|PrintRange(r)|..]);
    }
    if MatchRange(host).Some? {
      MatchIsPrinted(host);
    }
  }

  lemma EntryReadsBack(e: Entry)
    requires IsEntry(e)
    ensures ExpandHost(HostOf(PrintEntry(e))) == NodesOf(e) && '+' !in PrintEntry(e)
  {
    var h := PrintHost(e.host);
    assert '/' !in h && '+' !in h;
    SplitCons(h, '/', e.slot);
    assert PrintEntry(e) == h + ['/'] + e.slot;
    match e.host {
      case Single(n) =>
        RunStops(n, "", '[', '[');
        assert n + "" == n;
      case Ranged(r) =>
        RangeReadsBack(r, "");
        assert h + "" == h;
    }
  }

  lemma ExpandChunksExtends(cs: seq<string>, c: string)
    ensures ExpandChunks(cs + [c]) == ExpandChunks(cs) + ExpandHost(HostOf(c))
  {
    assert (cs + [c])[..|cs|] == cs;
  }

  lemma PrintEntriesLast(es: seq<Entry>)
    requires es != []
    ensures PrintEntries(es) == PrintEntries(es[..|es| - 1]) + [PrintEntry(es[|es| - 1])]
  {
  }

  lemma {:induction false} ChunksReadBack(es: seq<Entry>)
    requires forall i | 0 <= i < |es| :: IsEntry(es[i])
    ensures ExpandChunks(PrintEntries(es)) == AllNodes(es)
    decreases |es|
  {
    if es != [] {
      var k := |es| - 1;
      PrintEntriesLast(es);
      ExpandChunksExtends(PrintEntries(es[..k]), PrintEntry(es[k]));
      ChunksReadBack(es[..k]);
      assert ExpandHost(HostOf(PrintEntry(es[k]))) == NodesOf(es[k]) by { EntryReadsBack(es[k]); }
    }
  }

  lemma EntriesSplit(es: seq<Entry>)
    requires es != [] && forall i | 0 <= i < |es| :: IsEntry(es[i])
    ensures var t := Join(PrintEntries(es), '+'); t != "" && Split(t, '+') == PrintEntries(es)
  {
    var cs := PrintEntries(es);
    forall c <- cs ensures '+' !in c {
      var i :| 0 <= i < |cs| && cs[i] == c;
      EntryReadsBack(es[i]);
    }
    SplitJoin(cs, '+');
    assert |cs[0]| > 0;
  }

  /** A printed list parses to the nodes it stands for, entry by entry, in order. */
  lemma NodelistRoundTrip(es: seq<Entry>)
    requires es != [] && forall i | 0 <= i < |es| :: IsEntry(es[i])
    ensures Nodelist(Some(Join(PrintEntries(es), '+'))) == Join(AllNodes(es), ',')
  {
    EntriesSplit(es);
    ChunksReadBack(es);
  }

  lemma {:induction false} CountsAddUp(es: seq<Entry>)
    requires forall i | 0 <= i < |es| :: IsEntry(es[i])
    ensures |AllNodes(es)| == TotalCount(es)
    decreases |es|
  {
    if es != [] {
      CountsAddUp(es[..|es| - 1]);
    }
  }

  lemma NodesOfHaveNoComma(e: Entry)
    requires IsEntry(e)
    ensures forall n <- NodesOf(e) :: ',' !in n
  {
    var ns := NodesOf(e);
    forall n <- ns ensures ',' !in n {
      var i :| 0 <= i < |ns| && ns[i] == n;
      if e.host.Ranged? {
        var r := e.host.range;
        assert n == r.prefix + Pad(NatOf(r.start) + i, |r.start|);
      }
    }
  }

  lemma {:induction false} AllNodesHaveNoComma(es: seq<Entry>)
    requires forall i | 0 <= i < |es| :: IsEntry(es[i])
    ensures forall n <- AllNodes(es) :: ',' !in n
    decreases |es|
  {
    if es != [] {
      AllNodesHaveNoComma(es[..|es| - 1]);
      NodesOfHaveNoComma(es[|es| - 1]);
    }
  }

  /** No entry's nodes are lost: the counts add up, and cutting the text at its commas gives the nodes. */
  lemma NodesCanBeCutOut(es: seq<Entry>)
    requires es != [] && (forall i | 0 <= i < |es| :: IsEntry(es[i])) && TotalCount(es) > 0
    ensures Split(Nodelist(Some(Join(PrintEntries(es), '+'))), ',') == AllNodes(es)
    ensures |Split(Nodelist(Some(Join(PrintEntries(es), '+'))), ',')| == TotalCount(es)
  {
    NodelistRoundTrip(es);
    CountsAddUp(es);
    AllNodesHaveNoComma(es);
    SplitJoin(AllNodes(es), ',');
  }

  // ---------------------------------------------------------------- parse_nodes (OnDemand)

  /** One match of `([^,\[]+)(?:\[([^\]]+)\])?`. */
  datatype Hit = Hit(prefix: string, range: Option<string>)

  /** `[^\]]+\]` right after an opening bracket, and the text after it. */
  function Bracket(t: string): (m: Option<(string, string)>)
    ensures m.Some? ==> |m.value.1| < |t|
  {
    var n := Run(t, ']', ']');
    if n == 0 || n == |t| then None else Some((t[..n], t[n + 1..]))
  }

  function Scan(s: string): seq<Hit>
    decreases |s|
  {
    if s == "" then []
    else
      var n := Run(s, ',', '[');
      if n == 0 then Scan(s[1..])
      else
        var t := s[n..];
        if t == "" || t[0] != '[' then [Hit(s[..n], None)] + Scan(t)
        else
          match Bracket(t[1..])
          case None => [Hit(s[..n], None)] + Scan(t)
          case Some((range, rest)) => [Hit(s[..n], Some(range))] + Scan(rest)
  }

  /** Ruby's `split` forgets empty parts at the end. */
  function DropTrailingEmpty(parts: seq<string>): seq<string> {
    if parts != [] && parts[|parts| - 1] == "" then DropTrailingEmpty(parts[..|parts| - 1]) else parts
  }

  function MatchSpan(x: string): (m: Option<(string, string)>)
    ensures m.Some? ==> AllDigits(m.value.0) && AllDigits(m.value.1)
  {
    var k := DigitRun(x);
    if k == 0 || k == |x| || x[k] != '-' then None
    else
      var u := x[k + 1..];
      if u == "" || DigitRun(u) != |u| then None else Some((x[..k], u))
  }

  function Wider(a: string, b: string): nat { if |a| >= |b| then |a| else |b| }

  function ExpandItem(prefix: string, x: string): seq<string> {
    match MatchSpan(x)
    case None => [prefix + x]
    case Some((a, b)) =>
      Names(prefix, NatOf(a), NatOf(b), Wider(a, b))
  }

  function ExpandItems(prefix: string, xs: seq<string>): seq<string> {
    if xs == [] then [] else ExpandItem(prefix, xs[0]) + ExpandItems(prefix, xs[1..])
  }

  function ExpandHit(h: Hit): seq<string> {
    match h.range
    case Some(t) => ExpandItems(h.prefix, DropTrailingEmpty(Split(t, ',')))
    case None => [h.prefix]
  }

  function ExpandHits(hs: seq<Hit>): seq<string> {
    if hs == [] then [] else ExpandHit(hs[0]) + ExpandHits(hs[1..])
  }

  function ParseNodes(s: string): seq<string> { ExpandHits(Scan(s)) }

  // ---------------------------------------------------------------- what Slurm prints

  datatype Item = One(suffix: string) | Span(start: string, end: string)

  datatype Group = Plain(name: string) | Bracketed(prefix: string, items: seq<Item>)

  predicate IsItem(x: Item) {
    match x
    case One(t) => t != "" && AllDigits(t)
    case Span(a, b) => a != "" && b != "" && AllDigits(a) && AllDigits(b)
  }

  predicate IsGroup(g: Group) {
    match g
    case Plain(n) => IsHostText(n)
    case Bracketed(p, xs) => IsHostText(p) && xs != [] && forall i | 0 <= i < |xs| :: IsItem(xs[i])
  }

  function PrintItem(x: Item): string { match x case One(t) => t case Span(a, b) => a + "-" + b }

  function PrintItems(xs: seq<Item>): seq<string> { seq(|xs|, i requires 0 <= i < |xs| => PrintItem(xs[i])) }

  function PrintGroup(g: Group): string {
    match g case Plain(n) => n case Bracketed(p, xs) => p + "[" + Join(PrintItems(xs), ',') + "]"
  }

  function PrintGroups(gs: seq<Group>): string {
    if gs == [] then "" else if |gs| == 1 then PrintGroup(gs[0]) else PrintGroup(gs[0]) + "," + PrintGroups(gs[1..])
  }

  function ItemNodes(prefix: string, x: Item): seq<string>
    requires IsItem(x)
  {
    match x
    case One(t) => [prefix + t]
    case Span(a, b) => Names(prefix, NatOf(a), NatOf(b), Wider(a, b))
  }

  function ItemsNodes(prefix: string, xs: seq<Item>): seq<string>
    requires forall i | 0 <= i < |xs| :: IsItem(xs[i])
  {
    if xs == [] then [] else ItemNodes(prefix, xs[0]) + ItemsNodes(prefix, xs[1..])
  }

  function GroupNodes(g: Group): seq<string>
    requires IsGroup(g)
  {
    match g case Plain(n) => [n] case Bracketed(p, xs) => ItemsNodes(p, xs)
  }

  function GroupsNodes(gs: seq<Group>): seq<string>
    requires forall i | 0 <= i < |gs| :: IsGroup(gs[i])
  {
    if gs == [] then [] else GroupNodes(gs[0]) + GroupsNodes(gs[1..])
  }

  lemma SpanMatches(a: string, b: string)
    requires a != "" && b != "" && AllDigits(a) && AllDigits(b)
    ensures MatchSpan(a + "-" + b) == Some((a, b))
  {
    MatchesDigits(a, '-', b);
    DigitRunStops(b, "");
    assert b + "" == b;
  }

  lemma ItemReadsBack(prefix: string, x: Item)
    requires IsItem(x)
    ensures ExpandItem(prefix, PrintItem(x)) == ItemNodes(prefix, x)
    ensures PrintItem(x) != "" && ',' !in PrintItem(x) && ']' !in PrintItem(x)
  {
    match x {
      case One(t) =>
        DigitRunStops(t, "");
        assert t + "" == t;
      case Span(a, b) =>
        SpanMatches(a, b);
    }
  }

  lemma {:induction false} ItemsReadBack(prefix: string, xs: seq<Item>)
    requires forall i | 0 <= i < |xs| :: IsItem(xs[i])
    ensures ExpandItems(prefix, PrintItems(xs)) == ItemsNodes(prefix, xs)
    decreases |xs|
  {
    if xs != [] {
      ItemReadsBack(prefix, xs[0]);
      assert PrintItems(xs)[1..] == PrintItems(xs[1..]);
      ItemsReadBack(prefix, xs[1..]);
    }
  }

  lemma BracketReadsBack(prefix: string, xs: seq<Item>)
    requires xs != [] && forall i | 0 <= i < |xs| :: IsItem(xs[i])
    ensures var t := Join(PrintItems(xs), ',');
      t != "" && ']' !in t && ExpandHit(Hit(prefix, Some(t))) == ItemsNodes(prefix, xs)
  {
    var ps := PrintItems(xs);
    forall i | 0 <= i < |ps| ensures ps[i] != "" && ',' !in ps[i] && ']' !in ps[i] { ItemReadsBack(prefix, xs[i]); }
    assert ps[0] != "" && ps[|ps| - 1] != "";
    SplitJoin(ps, ',');
    JoinAvoids(ps, ',', ']');
    assert DropTrailingEmpty(ps) == ps;
    ItemsReadBack(prefix, xs);
    assert Join(ps, ',') != "";
  }

  function HitOf(g: Group): Hit {
    match g case Plain(n) => Hit(n, None) case Bracketed(p, xs) => Hit(p, Some(Join(PrintItems(xs), ',')))
  }

  lemma ScanTakesAName(n: string, after: string)
    requires IsHostText(n) && (after == "" || after[0] == ',')
    ensures Scan(n + after) == [Hit(n, None)] + Scan(after)
  {
    RunStops(n, after, ',', '[');
    assert (n + after)[..|n|] == n && (n + after)[|n|..] == after;
  }

  lemma BracketEnds(t: string, after: string)
    requires ']' !in t && t != ""
    ensures Bracket(t + "]" + after) == Some((t, after))
  {
    var u := t + ("]" + after);
    assert t + "]" + after == u;
    RunStops(t, "]" + after, ']', ']');
    assert u[..|t|] == t && u[|t| + 1..] == after;
  }

  lemma ScanTakesABracket(p: string, t: string, after: string)
    requires IsHostText(p) && t != "" && ']' !in t
    ensures Scan(p + "[" + t + "]" + after) == [Hit(p, Some(t))] + Scan(after)
  {
    var u := t + "]" + after;
    var s := p + ("[" + u);
    assert p + "[" + t + "]" + after == s;
    RunStops(p, "[" + u, ',', '[');
    BracketEnds(t, after);
    assert s[..|p|] == p && s[|p|..] == "[" + u;
    assert ("[" + u)[1..] == u;
  }

  /** The scan takes one printed group and stops before the comma or at the end. */
  lemma ScanTakesAGroup(g: Group, after: string)
    requires IsGroup(g) && (after == "" || after[0] == ',')
    ensures Scan(PrintGroup(g) + after) == [HitOf(g)] + Scan(after)
  {
    match g {
      case Plain(n) =>
        ScanTakesAName(n, after);
      case Bracketed(p, xs) =>
        BracketReadsBack(p, xs);
        ScanTakesABracket(p, Join(PrintItems(xs), ','), after);
    }
  }

  function HitsOf(gs: seq<Group>): seq<Hit> { if gs == [] then [] else [HitOf(gs[0])] + HitsOf(gs[1..]) }

  lemma ScanSkipsAComma(rest: string)
    ensures Scan("," + rest) == Scan(rest)
  {
    assert ("," + rest)[1..] == rest;
    assert Run("," + rest, ',', '[') == 0;
  }

  lemma {:induction false} ScanReadsGroups(gs: seq<Group>)
    requires forall i | 0 <= i < |gs| :: IsGroup(gs[i])
    ensures Scan(PrintGroups(gs)) == HitsOf(gs)
    decreases |gs|
  {
    if |gs| == 1 {
      ScanTakesAGroup(gs[0], "");
      assert PrintGroup(gs[0]) + "" == PrintGroup(gs[0]);
      assert HitsOf(gs[1..]) == [];
    } else if gs != [] {
      var rest := PrintGroups(gs[1..]);
      ScanTakesAGroup(gs[0], "," + rest);
      assert PrintGroups(gs) == PrintGroup(gs[0]) + ("," + rest);
      ScanSkipsAComma(rest);
      ScanReadsGroups(gs[1..]);
    }
  }

  lemma {:induction false} HitsExpand(gs: seq<Group>)
    requires forall i | 0 <= i < |gs| :: IsGroup(gs[i])
    ensures ExpandHits(HitsOf(gs)) == GroupsNodes(gs)
    decreases |gs|
  {
    if gs != [] {
      GroupHit(gs[0]);
      assert HitsOf(gs)[1..] == HitsOf(gs[1..]);
      HitsExpand(gs[1..]);
    }
  }

  /** The OnDemand expander inverts the printer of compressed node lists. */
  lemma ParseNodesRoundTrip(gs: seq<Group>)
    requires forall i | 0 <= i < |gs| :: IsGroup(gs[i])
    ensures ParseNodes(PrintGroups(gs)) == GroupsNodes(gs)
  {
    ScanReadsGroups(gs);
    HitsExpand(gs);
  }

  lemma GroupHit(g: Group)
    requires IsGroup(g)
    ensures ExpandHit(HitOf(g)) == GroupNodes(g)
  {
    if g.Bracketed? {
      BracketReadsBack(g.prefix, g.items);
    }
  }

  // ---------------------------------------------------------------- the two expanders compared

  lemma OneRangeParsesAsNames(r: Range)
    requires IsRange(r) && IsHostText(r.prefix)
    ensures ParseNodes(PrintRange(r)) == Names(r.prefix, NatOf(r.start), NatOf(r.end), Wider(r.start, r.end))
  {
    var t := r.start + "-" + r.end;
    assert PrintRange(r) == r.prefix + "[" + t + "]" + "";
    ItemReadsBack(r.prefix, Span(r.start, r.end));
    ScanTakesABracket(r.prefix, t, "");
    SplitAtom(t, ',');
    assert ExpandItems(r.prefix, [t][1..]) == [];
    assert ExpandHits([Hit(r.prefix, Some(t))][1..]) == [];
  }

  lemma NamesDifferByWidth(prefix: string, a: nat, b: nat, v: nat, w: nat)
    requires |Decimal(a)| <= v < w && a <= b
    ensures Names(prefix, a, b, v) != Names(prefix, a, b, w)
  {
    NamesEnds(prefix, a, b, v);
    NamesEnds(prefix, a, b, w);
    assert |prefix + Pad(a, v)| < |prefix + Pad(a, w)|;
  }

  /** On one range the two agree exactly when the end is written no wider than the start, or the range is empty. */
  lemma ExpandersAgreeIff(r: Range)
    requires IsRange(r) && IsHostText(r.prefix)
    ensures ExpandHost(PrintRange(r)) == ParseNodes(PrintRange(r))
            <==> |r.end| <= |r.start| || NatOf(r.start) > NatOf(r.end)
  {
    var a, b := NatOf(r.start), NatOf(r.end);
    assert ExpandHost(PrintRange(r)) == Names(r.prefix, a, b, |r.start|) by {
      RangeReadsBack(r, "");
      assert PrintRange(r) + "" == PrintRange(r);
    }
    OneRangeParsesAsNames(r);
    if |r.end| > |r.start| && a <= b {
      PadOfDigits(r.start);
      NamesDifferByWidth(r.prefix, a, b, |r.start|, |r.end|);
    }
  }
}
