/** Which configured file system a request path belongs to, and whose health is consulted. */
module FsAdmission {
  import opened Prelude
  import opened Text

  // ---------------------------------------------------------------- os.path.normpath

  /** POSIX gives exactly two leading slashes a meaning of their own; three or more count as one. */
  datatype Root = Relative | OneSlash | TwoSlashes

  function RootOf(p: string): Root {
    if |p| == 0 || p[0] != '/' then Relative
    else if |p| >= 2 && p[1] == '/' && (|p| == 2 || p[2] != '/') then TwoSlashes
    else OneSlash
  }

  function Slashes(r: Root): string {
    match r case Relative => "" case OneSlash => "/" case TwoSlashes => "//"
  }

  function Push(r: Root, stack: seq<string>, part: string): seq<string> {
    if part == "" || part == "." then stack
    else if part != ".." || (r.Relative? && stack == []) || (stack != [] && stack[|stack| - 1] == "..") then
      stack + [part]
    else if stack != [] then stack[..|stack| - 1]
    else stack
  }

  function PushAll(r: Root, stack: seq<string>, parts: seq<string>): seq<string>
    decreases |parts|
  {
    if parts == [] then stack else PushAll(r, Push(r, stack, parts[0]), parts[1..])
  }

  function Comps(p: string): seq<string> { PushAll(RootOf(p), [], Split(p, '/')) }

  function Render(r: Root, cs: seq<string>): string {
    if r.Relative? && cs == [] then "." else Slashes(r) + Join(cs, '/')
  }

  function NormPath(p: string): string { Render(RootOf(p), Comps(p)) }

  // ---------------------------------------------------------------- what normalisation leaves

  predicate IsPart(c: string) { c != "" && c != "." && '/' !in c }

  predicate IsPlaced(r: Root, cs: seq<string>, i: nat)
    requires i < |cs|
  {
    IsPart(cs[i]) && (cs[i] == ".." ==> r.Relative? && (i == 0 || cs[i - 1] == ".."))
  }

  /** Components only; `..` survives only at the front of a relative path. */
  predicate Settled(r: Root, cs: seq<string>) { forall i | 0 <= i < |cs| :: IsPlaced(r, cs, i) }

  lemma SettledAreParts(r: Root, cs: seq<string>)
    requires Settled(r, cs)
    ensures forall c <- cs :: IsPart(c)
  {
    forall c <- cs ensures IsPart(c) {
      var i :| 0 <= i < |cs| && cs[i] == c;
      assert IsPlaced(r, cs, i);
    }
  }

  lemma PushSettles(r: Root, stack: seq<string>, part: string)
    requires Settled(r, stack) && '/' !in part
    ensures Settled(r, Push(r, stack, part))
  {
    var next := Push(r, stack, part);
    assert stack != [] ==> IsPlaced(r, stack, |stack| - 1);
    forall i | 0 <= i < |next| ensures IsPlaced(r, next, i) {
      if i < |stack| {
        assert IsPlaced(r, stack, i);
        assert next[i] == stack[i] && (i > 0 ==> next[i - 1] == stack[i - 1]);
      }
    }
  }

  lemma {:induction false} PushAllSettles(r: Root, stack: seq<string>, parts: seq<string>)
    requires Settled(r, stack) && forall p <- parts :: '/' !in p
    ensures Settled(r, PushAll(r, stack, parts))
    decreases |parts|
  {
    if parts != [] {
      assert parts[0] in parts;
      PushSettles(r, stack, parts[0]);
      PushAllSettles(r, Push(r, stack, parts[0]), parts[1..]);
    }
  }

  lemma CompsAreSettled(p: string)
    ensures Settled(RootOf(p), Comps(p))
  {
    SplitHasNoSep(p, '/');
    PushAllSettles(RootOf(p), [], Split(p, '/'));
  }

  /** An absolute path never escapes: no `..` is left in what is compared with the mounts. */
  lemma NoParentSurvives(p: string)
    requires !RootOf(p).Relative?
    ensures forall c <- Comps(p) :: IsPart(c) && c != ".."
  {
    CompsAreSettled(p);
    forall c <- Comps(p) ensures IsPart(c) && c != ".." {
      var i :| 0 <= i < |Comps(p)| && Comps(p)[i] == c;
      assert IsPlaced(RootOf(p), Comps(p), i);
    }
  }

  lemma {:induction false} SettledPushesThrough(r: Root, done: seq<string>, cs: seq<string>)
    requires Settled(r, done + cs)
    ensures PushAll(r, done, cs) == done + cs
    decreases |cs|
  {
    if cs == [] {
      assert done + cs == done;
    } else {
      assert (done + cs)[|done|] == cs[0];
      assert IsPlaced(r, done + cs, |done|);
      if cs[0] == ".." && done != [] {
        assert (done + cs)[|done| - 1] == done[|done| - 1];
      }
      assert Push(r, done, cs[0]) == done + [cs[0]];
      assert done + cs == (done + [cs[0]]) + cs[1..];
      SettledPushesThrough(r, done + [cs[0]], cs[1..]);
    }
  }

  lemma {:induction false} PushAllConcat(r: Root, stack: seq<string>, a: seq<string>, b: seq<string>)
    ensures PushAll(r, stack, a + b) == PushAll(r, PushAll(r, stack, a), b)
    decreases |a|
  {
    if a == [] {
      assert a + b == b;
    } else {
      assert (a + b)[1..] == a[1..] + b;
      PushAllConcat(r, Push(r, stack, a[0]), a[1..], b);
    }
  }

  /** Entering a directory and leaving it by `..` changes nothing, wherever it stands. */
  lemma ParentCancelsChild(r: Root, stack: seq<string>, before: seq<string>, name: string, after: seq<string>)
    requires IsPart(name) && name != ".."
    ensures PushAll(r, stack, before + [name, ".."] + after) == PushAll(r, stack, before + after)
  {
    PushAllConcat(r, stack, before + [name, ".."], after);
    PushAllConcat(r, stack, before, [name, ".."]);
    PushAllConcat(r, stack, before, after);
    var s := PushAll(r, stack, before);
    assert [name, ".."][1..] == [".."] && [".."][1..] == [];
    assert Push(r, Push(r, s, name), "..") == s;
    assert PushAll(r, s, [name, ".."]) == PushAll(r, Push(r, s, name), [".."]) == PushAll(r, s, []);
  }

  /** Empty components and single dots stand for nothing, wherever they are. */
  lemma EmptyPartsVanish(r: Root, stack: seq<string>, before: seq<string>, part: string, after: seq<string>)
    requires part == "" || part == "."
    ensures PushAll(r, stack, before + [part] + after) == PushAll(r, stack, before + after)
  {
    PushAllConcat(r, stack, before + [part], after);
    PushAllConcat(r, stack, before, [part]);
    PushAllConcat(r, stack, before, after);
    assert [part][1..] == [];
  }

  /** The root is its own parent. */
  lemma RootIsItsOwnParent(r: Root, before: seq<string>, after: seq<string>)
    requires !r.Relative? && PushAll(r, [], before) == []
    ensures PushAll(r, [], before + [".."] + after) == PushAll(r, [], before + after)
  {
    PushAllConcat(r, [], before + [".."], after);
    PushAllConcat(r, [], before, [".."]);
    PushAllConcat(r, [], before, after);
    assert [".."][1..] == [];
  }

  // ---------------------------------------------------------------- rendered paths

  lemma {:induction false} JoinEnds(cs: seq<string>)
    requires cs != [] && forall c <- cs :: IsPart(c)
    ensures var s := Join(cs, '/'); |s| > 0 && s[0] != '/' && s[|s| - 1] != '/'
    decreases |cs|
  {
    assert IsPart(cs[0]);
    if |cs| > 1 {
      JoinEnds(cs[1..]);
    }
  }

  lemma RootOfRender(r: Root, cs: seq<string>)
    requires Settled(r, cs)
    ensures RootOf(Render(r, cs)) == r
  {
    if cs != [] {
      SettledAreParts(r, cs);
      JoinEnds(cs);
    } else {
      assert Slashes(r) + Join(cs, '/') == Slashes(r);
    }
  }

  lemma SlashesSplitOff(r: Root, s: string)
    ensures PushAll(r, [], Split(Slashes(r) + s, '/')) == PushAll(r, [], Split(s, '/'))
  {
    match r {
      case Relative =>
        assert Slashes(r) + s == s;
      case OneSlash =>
        SplitCons("", '/', s);
        assert "" + ['/'] + s == Slashes(r) + s;
        assert ([""] + Split(s, '/'))[1..] == Split(s, '/');
      case TwoSlashes =>
        SplitCons("", '/', s);
        SplitCons("", '/', "/" + s);
        assert "" + ['/'] + s == "/" + s && "" + ['/'] + ("/" + s) == Slashes(r) + s;
        assert ([""] + Split(s, '/'))[1..] == Split(s, '/');
        assert ([""] + Split("/" + s, '/'))[1..] == Split("/" + s, '/');
    }
  }

  /** A rendered path reads back as the same root and components. */
  lemma CompsOfRender(r: Root, cs: seq<string>)
    requires Settled(r, cs)
    ensures RootOf(Render(r, cs)) == r && Comps(Render(r, cs)) == cs
  {
    RootOfRender(r, cs);
    if cs == [] {
      assert Slashes(r) + Join(cs, '/') == Slashes(r) + "";
      SlashesSplitOff(r, "");
      SplitAtom(".", '/');
      assert PushAll(r, [], [""]) == [] && PushAll(r, [], ["."]) == [];
    } else {
      SlashesSplitOff(r, Join(cs, '/'));
      SettledAreParts(r, cs);
      SplitJoin(cs, '/');
      assert [] + cs == cs;
      SettledPushesThrough(r, [], cs);
    }
  }

  lemma NormPathIsIdempotent(p: string)
    ensures NormPath(NormPath(p)) == NormPath(p)
  {
    CompsAreSettled(p);
    CompsOfRender(RootOf(p), Comps(p));
  }

  // ---------------------------------------------------------------- the string test

  /** `norm == mount or norm.startswith(mount.rstrip("/") + "/")`. */
  predicate Accepts(mount: string, norm: string) {
    norm == mount || RStrip(mount, '/') + "/" <= norm
  }

  /** The component-wise reading: same kind of root and a prefix of the components, or a bare root. */
  predicate Contains(mount: string, path: string) {
    !RootOf(mount).Relative?
    && (Comps(mount) == [] || (RootOf(mount) == RootOf(path) && Comps(mount) <= Comps(path)))
  }

  /** Every component followed by a slash. */
  function Terminated(cs: seq<string>): string {
    if cs == [] then "" else cs[0] + "/" + Terminated(cs[1..])
  }

  lemma {:induction false} TerminatedIsJoin(cs: seq<string>)
    requires cs != []
    ensures Terminated(cs) == Join(cs, '/') + "/"
    decreases |cs|
  {
    if |cs| == 1 {
      assert Terminated(cs[1..]) == "";
    } else {
      TerminatedIsJoin(cs[1..]);
    }
  }

  /** Two slash-free heads, each before a slash: one text starts the other only if the heads agree. */
  lemma HeadsAgree(a: string, x: string, b: string, y: string)
    requires '/' !in a && '/' !in b
    ensures a + "/" + x <= b + "/" + y <==> a == b && x <= y
  {
    var s, t := a + "/" + x, b + "/" + y;
    if s <= t {
      assert s[|a|] == '/' && t[|b|] == '/' && t[|a|] == s[|a|];
      assert forall i | 0 <= i < |b| :: t[i] == b[i] && t[i] != '/';
      assert forall i | 0 <= i < |a| :: s[i] == a[i] && s[i] != '/';
      assert a == s[..|a|] == t[..|a|] == b;
      assert x == s[|a| + 1..] && y == t[|a| + 1..];
      assert s == t[..|s|] && x == y[..|x|];
    }
    if a == b && x <= y {
      assert y == x + y[|x|..];
      assert t == s + y[|x|..];
    }
  }

  lemma {:induction false} TerminatedPrefixIff(ds: seq<string>, cs: seq<string>)
    requires (forall c <- cs :: IsPart(c)) && forall d <- ds :: IsPart(d)
    ensures Terminated(ds) <= Terminated(cs) <==> ds <= cs
    decreases |ds|
  {
    if ds != [] && cs != [] {
      assert IsPart(ds[0]) && IsPart(cs[0]);
      HeadsAgree(ds[0], Terminated(ds[1..]), cs[0], Terminated(cs[1..]));
      TerminatedPrefixIff(ds[1..], cs[1..]);
      PrefixCons(ds, cs);
    }
  }

  lemma PrefixCons(ds: seq<string>, cs: seq<string>)
    requires ds != [] && cs != []
    ensures ds <= cs <==> ds[0] == cs[0] && ds[1..] <= cs[1..]
  {
    if ds[0] == cs[0] && ds[1..] <= cs[1..] {
      assert cs == [cs[0]] + cs[1..] && ds == [ds[0]] + ds[1..];
      assert cs[1..] == ds[1..] + cs[1..][|ds| - 1..];
      assert cs == ds + cs[1..][|ds| - 1..];
    }
    if ds <= cs {
      assert cs == ds + cs[|ds|..];
      assert cs[1..] == ds[1..] + cs[|ds|..];
    }
  }

  lemma CommonPrefixCancels(p: string, x: string, y: string)
    ensures p + x <= p + y <==> x <= y
  {
    if p + x <= p + y {
      assert x == (p + x)[|p|..] && y == (p + y)[|p|..];
      assert p + x == (p + y)[..|p| + |x|];
      assert x == y[..|x|];
    }
    if x <= y {
      assert p + y == (p + x) + y[|x|..];
    }
  }

  lemma DifferentSlashesDiffer(r: Root, x: string, q: Root, y: string)
    requires r != q && x != "" && x[0] != '/' && y != "" && y[0] != '/'
    ensures !(Slashes(r) + x <= Slashes(q) + y)
  {
    var s, t := Slashes(r) + x, Slashes(q) + y;
    var k := if |Slashes(r)| < |Slashes(q)| then |Slashes(r)| else |Slashes(q)|;
    assert s[k] != t[k];
  }

  lemma SlashesAgree(r: Root, x: string, q: Root, y: string)
    requires x != "" && x[0] != '/' && y != "" && y[0] != '/'
    ensures Slashes(r) + x <= Slashes(q) + y <==> r == q && x <= y
  {
    if r == q {
      CommonPrefixCancels(Slashes(r), x, y);
    } else {
      DifferentSlashesDiffer(r, x, q, y);
    }
  }

  lemma RStripOfRender(r: Root, cs: seq<string>)
    requires Settled(r, cs)
    ensures cs != [] ==> RStrip(Render(r, cs), '/') == Render(r, cs)
    ensures cs == [] && !r.Relative? ==> RStrip(Render(r, cs), '/') == ""
  {
    if cs != [] {
      SettledAreParts(r, cs);
      JoinEnds(cs);
    } else if !r.Relative? {
      assert Slashes(r) + Join(cs, '/') == Slashes(r);
      assert Slashes(r)[..|Slashes(r)| - 1] == if r == OneSlash then "" else "/";
      assert RStrip("", '/') == "";
      assert "/"[..0] == "";
      assert RStrip("/", '/') == "";
    }
  }

  /** A path is the mount or lies under it when, closed by a slash, it starts with the closed mount. */
  lemma UnderIffClosedPrefix(m: string, n: string)
    ensures n == m || m + "/" <= n <==> m + "/" <= n + "/"
  {
    if m + "/" <= n {
      assert n + "/" == (m + "/") + (n[|m| + 1..] + "/");
    }
    if m + "/" <= n + "/" && |n| == |m| {
      assert m == (m + "/")[..|m|] == (n + "/")[..|m|] == n;
    }
    if m + "/" <= n + "/" && |n| > |m| {
      assert m + "/" == (n + "/")[..|m| + 1] == n[..|m| + 1];
    }
  }

  lemma ClosedRenderIsTerminated(r: Root, cs: seq<string>)
    requires Settled(r, cs) && cs != []
    ensures Render(r, cs) + "/" == Slashes(r) + Terminated(cs)
    ensures Terminated(cs) != "" && Terminated(cs)[0] != '/'
    ensures forall c <- cs :: IsPart(c)
  {
    SettledAreParts(r, cs);
    JoinEnds(cs);
    TerminatedIsJoin(cs);
  }

  lemma AcceptsIffClosedPrefix(r: Root, ds: seq<string>, n: string)
    requires Settled(r, ds) && ds != []
    ensures Accepts(Render(r, ds), n) <==> Slashes(r) + Terminated(ds) <= n + "/"
  {
    RStripOfRender(r, ds);
    UnderIffClosedPrefix(Render(r, ds), n);
    ClosedRenderIsTerminated(r, ds);
  }

  lemma NothingBelowABareRoot(r: Root, ds: seq<string>, q: Root)
    requires Settled(r, ds) && ds != [] && !q.Relative?
    ensures !Accepts(Render(r, ds), Render(q, []))
  {
    AcceptsIffClosedPrefix(r, ds, Render(q, []));
    ClosedRenderIsTerminated(r, ds);
    var m, n := Slashes(r) + Terminated(ds), Render(q, []) + "/";
    assert forall i | 0 <= i < |n| :: n[i] == '/';
    assert m[|Slashes(r)|] != '/';
  }

  lemma AcceptsRenderedIff(r: Root, ds: seq<string>, q: Root, cs: seq<string>)
    requires Settled(r, ds) && Settled(q, cs) && ds != [] && cs != []
    ensures Accepts(Render(r, ds), Render(q, cs)) <==> r == q && ds <= cs
  {
    AcceptsIffClosedPrefix(r, ds, Render(q, cs));
    ClosedRenderIsTerminated(r, ds);
    ClosedRenderIsTerminated(q, cs);
    SlashesAgree(r, Terminated(ds), q, Terminated(cs));
    TerminatedPrefixIff(ds, cs);
  }

  lemma BareRootsAcceptAll(r: Root, q: Root, cs: seq<string>)
    requires Settled(q, cs) && !q.Relative?
    ensures Accepts(Render(r, []), Render(q, cs)) <==> !r.Relative?
  {
    assert Slashes(q) + Join(cs, '/') == ['/'] + (Slashes(q)[1..] + Join(cs, '/'));
    assert Render(q, cs)[0] == '/';
    if r.Relative? {
      assert Render(r, []) == ".";
      assert RStrip(".", '/') == ".";
      assert (RStrip(".", '/') + "/")[0] == '.';
    } else {
      RStripOfRender(r, []);
      assert "" + "/" == "/";
      assert Render(q, cs)[..1] == "/";
    }
  }

  /** The test on strings is containment of components, for every mount setting and every absolute path. */
  lemma AcceptsIsContainment(mount: string, path: string)
    requires !RootOf(path).Relative?
    ensures Accepts(NormPath(mount), NormPath(path)) <==> Contains(mount, path)
  {
    CompsAreSettled(mount);
    CompsAreSettled(path);
    if Comps(mount) == [] {
      BareRootsAcceptAll(RootOf(mount), RootOf(path), Comps(path));
    } else if Comps(path) == [] {
      NothingBelowABareRoot(RootOf(mount), Comps(mount), RootOf(path));
    } else {
      AcceptsRenderedIff(RootOf(mount), Comps(mount), RootOf(path), Comps(path));
      assert RootOf(mount) == RootOf(path) ==> !RootOf(mount).Relative?;
    }
  }

  /** The comparison is of whole kinds of root: a path written with two slashes is under no ordinary mount. */
  lemma TwoSlashesLeaveTheMount(mount: string, path: string)
    requires RootOf(mount) == OneSlash && RootOf(path) == TwoSlashes
    ensures Accepts(NormPath(mount), NormPath(path)) <==> Comps(mount) == []
  {
    AcceptsIsContainment(mount, path);
  }

  // ---------------------------------------------------------------- admission and health

  datatype Kind = Filesystem | OtherKind

  datatype Service = Service(kind: Kind, path: string, healthy: bool)

  datatype Refusal = PathMissing | NotAbsolute | NoFileSystem | Unhealthy(path: string)

  function FirstAccepted(mounts: seq<string>, norm: string): Option<string> {
    if mounts == [] then None
    else if Accepts(mounts[0], norm) then Some(mounts[0])
    else FirstAccepted(mounts[1..], norm)
  }

  function FirstService(services: seq<Service>, norm: string): Option<Service> {
    if services == [] then None
    else if services[0].kind.Filesystem? && Accepts(services[0].path, norm) then Some(services[0])
    else FirstService(services[1..], norm)
  }

  /** `__file_system_health`: the admitted mount, or why the request is refused. */
  function Admit(mounts: seq<string>, services: seq<Service>, path: Option<string>): Result<string, Refusal> {
    match path
    case None => Err(PathMissing)
    case Some(p) =>
      if !("/" <= p) then Err(NotAbsolute)
      else
        var norm := NormPath(p);
        match FirstAccepted(mounts, norm)
        case None => Err(NoFileSystem)
        case Some(m) =>
          match FirstService(services, norm)
          case Some(s) => if s.healthy then Ok(m) else Err(Unhealthy(s.path))
          case None => Ok(m)
  }

  /** The configured mounts, each normalised when the settings are read. */
  function Mounts(settings: seq<string>): (ms: seq<string>)
    ensures |ms| == |settings|
  {
    seq(|settings|, i requires 0 <= i < |settings| => NormPath(settings[i]))
  }

  /** The results of the file system checks among all results. */
  function FilesystemResults(services: seq<Service>): seq<Service> {
    if services == [] then []
    else (if services[0].kind.Filesystem? then [services[0]] else []) + FilesystemResults(services[1..])
  }

  /** One result per mount in configuration order; results of other checks may stand anywhere. */
  predicate InConfigurationOrder(mounts: seq<string>, services: seq<Service>) {
    var rs := FilesystemResults(services);
    |rs| == |mounts| && forall i | 0 <= i < |rs| :: rs[i].path == mounts[i]
  }

  /** The position of the first setting that contains the path, or the number of settings. */
  function FirstContaining(settings: seq<string>, path: string): (i: nat)
    ensures i <= |settings|
  {
    if settings == [] then 0
    else if Contains(settings[0], path) then 0
    else 1 + FirstContaining(settings[1..], path)
  }

  lemma {:induction false} FirstContainingIsFirst(settings: seq<string>, path: string)
    ensures var i := FirstContaining(settings, path);
      (i < |settings| ==> Contains(settings[i], path)) && forall j | 0 <= j < i :: !Contains(settings[j], path)
    decreases |settings|
  {
    if settings != [] && !Contains(settings[0], path) {
      FirstContainingIsFirst(settings[1..], path);
      var i := FirstContaining(settings, path);
      forall j | 0 <= j < i ensures !Contains(settings[j], path) {
        assert j > 0 ==> settings[j] == settings[1..][j - 1];
      }
    }
  }

  lemma {:induction false} FirstAcceptedIsFirstContaining(settings: seq<string>, path: string)
    requires !RootOf(path).Relative?
    ensures var i := FirstContaining(settings, path);
      FirstAccepted(Mounts(settings), NormPath(path)) == if i < |settings| then Some(Mounts(settings)[i]) else None
    decreases |settings|
  {
    if settings != [] {
      AcceptsIsContainment(settings[0], path);
      assert Mounts(settings)[1..] == Mounts(settings[1..]);
      FirstAcceptedIsFirstContaining(settings[1..], path);
    }
  }

  lemma {:induction false} FirstServiceSkipsOthers(services: seq<Service>, norm: string)
    ensures FirstService(services, norm) == FirstService(FilesystemResults(services), norm)
    decreases |services|
  {
    if services != [] {
      var rest := FilesystemResults(services[1..]);
      FirstServiceSkipsOthers(services[1..], norm);
      if services[0].kind.Filesystem? {
        assert FilesystemResults(services)[1..] == rest;
      } else {
        assert FilesystemResults(services) == rest;
      }
    }
  }

  lemma {:induction false} ResultsAreFilesystems(services: seq<Service>)
    ensures var rs := FilesystemResults(services); forall i | 0 <= i < |rs| :: rs[i].kind.Filesystem?
    decreases |services|
  {
    if services != [] {
      var rs, rest := FilesystemResults(services), FilesystemResults(services[1..]);
      ResultsAreFilesystems(services[1..]);
      var head := if services[0].kind.Filesystem? then [services[0]] else [];
      assert rs == head + rest;
      forall i | 0 <= i < |rs| ensures rs[i].kind.Filesystem? {
        assert rs[i] == if i < |head| then head[i] else FilesystemResults(services[1..])[i - |head|];
      }
    }
  }

  predicate ReportOn(rs: seq<Service>, settings: seq<string>) {
    |rs| == |settings| && forall i | 0 <= i < |rs| :: rs[i].kind.Filesystem? && rs[i].path == NormPath(settings[i])
  }

  lemma ResultsReport(settings: seq<string>, services: seq<Service>)
    requires InConfigurationOrder(Mounts(settings), services)
    ensures ReportOn(FilesystemResults(services), settings)
  {
    ResultsAreFilesystems(services);
    var rs, ms := FilesystemResults(services), Mounts(settings);
    forall i | 0 <= i < |rs| ensures rs[i].path == NormPath(settings[i]) {
      assert rs[i].path == ms[i];
    }
  }

  lemma {:induction false} ResultsInOrder(settings: seq<string>, rs: seq<Service>, path: string)
    requires !RootOf(path).Relative? && ReportOn(rs, settings)
    ensures var i := FirstContaining(settings, path);
      FirstService(rs, NormPath(path)) == if i < |settings| then Some(rs[i]) else None
    decreases |rs|
  {
    if rs != [] {
      AcceptsIsContainment(settings[0], path);
      ResultsInOrder(settings[1..], rs[1..], path);
    }
  }

  lemma ConsultsFirstContaining(settings: seq<string>, services: seq<Service>, path: string)
    requires !RootOf(path).Relative? && InConfigurationOrder(Mounts(settings), services)
    ensures var i := FirstContaining(settings, path);
      FirstService(services, NormPath(path)) == if i < |settings| then Some(FilesystemResults(services)[i]) else None
  {
    FirstServiceSkipsOthers(services, NormPath(path));
    ResultsReport(settings, services);
    ResultsInOrder(settings, FilesystemResults(services), path);
  }

  /**
   * Admission, said of components only: the path must be absolute and inside some mount; the first
   * such mount in configuration order is the one chosen, and it is that mount's result that decides.
   * Where file systems are not probed the mount alone decides, whatever other results there are.
   */
  lemma AdmissionIsFirstContainingMount(settings: seq<string>, services: seq<Service>, path: string)
    requires FilesystemResults(services) == [] || InConfigurationOrder(Mounts(settings), services)
    ensures Admit(Mounts(settings), services, Some(path)) == AdmitByComponents(settings, services, path)
    ensures Admit(Mounts(settings), services, None) == Err(PathMissing)
  {
    assert "/" <= path <==> !RootOf(path).Relative?;
    if !RootOf(path).Relative? {
      FirstAcceptedIsFirstContaining(settings, path);
      if FilesystemResults(services) == [] {
        FirstServiceSkipsOthers(services, NormPath(path));
      } else {
        ConsultsFirstContaining(settings, services, path);
      }
    }
  }

  function AdmitByComponents(settings: seq<string>, services: seq<Service>, path: string): Result<string, Refusal>
    requires FilesystemResults(services) == [] || InConfigurationOrder(Mounts(settings), services)
  {
    var i := FirstContaining(settings, path);
    if RootOf(path).Relative? then Err(NotAbsolute)
    else if i == |settings| then Err(NoFileSystem)
    else if FilesystemResults(services) == [] || FilesystemResults(services)[i].healthy then Ok(NormPath(settings[i]))
    else Err(Unhealthy(NormPath(settings[i])))
  }

  /** A mount inside an earlier one is never chosen, so its health is never consulted. */
  lemma NestedAfterParentIsNeverChosen(settings: seq<string>, i: nat, j: nat, path: string)
    requires i < j < |settings| && !RootOf(settings[j]).Relative? && Contains(settings[i], settings[j])
    ensures FirstContaining(settings, path) != j
  {
    FirstContainingIsFirst(settings, path);
    if Contains(settings[j], path) && Comps(settings[i]) != [] {
      var a, b, c := Comps(settings[i]), Comps(settings[j]), Comps(path);
      assert b != [];
      assert c == b + c[|b|..] && b == a + b[|a|..];
      assert c == a + (b[|a|..] + c[|b|..]);
      assert Contains(settings[i], path);
    }
  }
}
