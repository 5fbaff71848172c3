/** Merging the accounting view and the queue view of Slurm jobs.

    Both clients ask two sources, accounting first, and fold the answers into one dictionary: a
    record is stored when its id is new, and overwrites the stored one when it is PENDING. */
module JobMerge {
  import opened Prelude

  datatype Job = Job(id: string, state: string, limit: Option<int>)

  predicate Pending(job: Job) { job.state == "PENDING" }

  // ---------------------------------------------------------------- declarative result

  /** The distinct ids in the order in which they are first seen. */
  function FirstSeen(rs: seq<Job>): seq<string> {
    if rs == [] then []
    else
      var ids := FirstSeen(rs[..|rs| - 1]);
      var last := rs[|rs| - 1];
      if last.id in ids then ids else ids + [last.id]
  }

  predicate HasId(rs: seq<Job>, id: string) { exists k :: 0 <= k < |rs| && rs[k].id == id }

  lemma HasIdSnoc(rs: seq<Job>, id: string)
    requires rs != []
    ensures HasId(rs, id) <==> HasId(rs[..|rs| - 1], id) || rs[|rs| - 1].id == id
  {
    var n := |rs| - 1;
    if HasId(rs, id) {
      var k :| 0 <= k < |rs| && rs[k].id == id;
      if k < n {
        assert rs[..n][k].id == id;
      }
    }
    if HasId(rs[..n], id) {
      var k :| 0 <= k < n && rs[..n][k].id == id;
      assert rs[k].id == id;
    }
  }

  lemma {:induction false} FirstSeenHasId(rs: seq<Job>, id: string)
    ensures id in FirstSeen(rs) <==> HasId(rs, id)
    decreases |rs|
  {
    if rs != [] {
      FirstSeenHasId(rs[..|rs| - 1], id);
      HasIdSnoc(rs, id);
    }
  }

  lemma {:induction false} FirstSeenDistinct(rs: seq<Job>)
    ensures forall i, j | 0 <= i < j < |FirstSeen(rs)| :: FirstSeen(rs)[i] != FirstSeen(rs)[j]
    decreases |rs|
  {
    if rs != [] {
      FirstSeenDistinct(rs[..|rs| - 1]);
    }
  }

  /** `k` is the record kept for `id`: the last pending one if any is pending, else the first. */
  predicate IsKept(rs: seq<Job>, id: string, k: int) {
    && 0 <= k < |rs| && rs[k].id == id
    && if rs[k].state == "PENDING" then forall j | k < j < |rs| :: !(rs[j].id == id && rs[j].state == "PENDING")
       else && (forall j | 0 <= j < |rs| :: !(rs[j].id == id && rs[j].state == "PENDING"))
            && (forall j | 0 <= j < k :: rs[j].id != id)
  }

  ghost predicate IsRecordFor(rs: seq<Job>, id: string, job: Job) {
    exists k :: IsKept(rs, id, k) && job == rs[k]
  }

  lemma KeptIsUnique(rs: seq<Job>, id: string, k: int, j: int)
    requires IsKept(rs, id, k) && IsKept(rs, id, j)
    ensures k == j
  {
    assert rs[k].id == id && rs[j].id == id;
  }

  /** What the dictionary holds after the records `rs`. */
  function TableOf(rs: seq<Job>): map<string, Job> {
    if rs == [] then map[]
    else
      var table := TableOf(rs[..|rs| - 1]);
      var last := rs[|rs| - 1];
      if last.id !in table || Pending(last) then table[last.id := last] else table
  }

  lemma {:induction false} TableKeys(rs: seq<Job>)
    ensures forall id :: id in TableOf(rs) <==> id in FirstSeen(rs)
    decreases |rs|
  {
    if rs != [] {
      TableKeys(rs[..|rs| - 1]);
    }
  }

  /** `list(jobs.values())` for a dictionary with these keys in insertion order. */
  function ValuesOf(keys: seq<string>, table: map<string, Job>): (jobs: seq<Job>)
    requires forall i | 0 <= i < |keys| :: keys[i] in table
    ensures |jobs| == |keys|
  {
    seq(|keys|, i requires 0 <= i < |keys| => table[keys[i]])
  }

  /** The merged jobs: for each id in first-seen order, the record the dictionary ends up with. */
  function Merged(rs: seq<Job>): (jobs: seq<Job>)
    ensures |jobs| == |FirstSeen(rs)|
  {
    TableKeys(rs);
    ValuesOf(FirstSeen(rs), TableOf(rs))
  }

  /** The dictionary meets the declarative rule: last pending record, else first record. */
  lemma {:induction false} TableHoldsKept(rs: seq<Job>, id: string) returns (k: nat)
    requires id in TableOf(rs)
    ensures IsKept(rs, id, k) && TableOf(rs)[id] == rs[k]
    decreases |rs|
  {
    var n := |rs| - 1;
    var last := rs[n];
    if last.id == id && (Pending(last) || id !in TableOf(rs[..n])) {
      k := n;
      if !Pending(last) {
        NotBefore(rs, id);
      }
    } else {
      k := TableHoldsKept(rs[..n], id);
      KeptExtends(rs, id, k);
    }
  }

  lemma NotBefore(rs: seq<Job>, id: string)
    requires rs != [] && id !in TableOf(rs[..|rs| - 1])
    ensures forall j | 0 <= j < |rs| - 1 :: rs[j].id != id
  {
    var before := rs[..|rs| - 1];
    TableKeys(before);
    FirstSeenHasId(before, id);
    assert forall j | 0 <= j < |before| :: before[j] == rs[j];
  }

  lemma KeptExtends(rs: seq<Job>, id: string, k: int)
    requires rs != [] && IsKept(rs[..|rs| - 1], id, k)
    requires rs[|rs| - 1].id == id ==> !Pending(rs[|rs| - 1])
    ensures IsKept(rs, id, k)
  {
    var before := rs[..|rs| - 1];
    assert forall j | 0 <= j < |before| :: before[j] == rs[j];
  }

  /** The merge, for all record lists: one job per distinct id, in first-seen order, each being the
      last pending record of its id if there is one and the first record otherwise. */
  lemma MergeMeetsItsRule(rs: seq<Job>)
    ensures forall id :: id in FirstSeen(rs) <==> HasId(rs, id)
    ensures forall i, j | 0 <= i < j < |FirstSeen(rs)| :: FirstSeen(rs)[i] != FirstSeen(rs)[j]
    ensures forall i | 0 <= i < |Merged(rs)| :: IsRecordFor(rs, FirstSeen(rs)[i], Merged(rs)[i])
  {
    forall id ensures id in FirstSeen(rs) <==> HasId(rs, id) {
      FirstSeenHasId(rs, id);
    }
    FirstSeenDistinct(rs);
    forall i | 0 <= i < |Merged(rs)| ensures IsRecordFor(rs, FirstSeen(rs)[i], Merged(rs)[i]) {
      TableKeys(rs);
      var k := TableHoldsKept(rs, FirstSeen(rs)[i]);
      assert Merged(rs)[i] == rs[k];
    }
  }

  /** First-seen order, declaratively: an id comes before another in the output exactly when its
      first record comes before the other's first record in the input. */
  lemma {:induction false} FirstSeenOrder(rs: seq<Job>, a: nat, b: nat) returns (i: nat, j: nat)
    requires a < b < |rs| && rs[a].id != rs[b].id
    requires forall k | 0 <= k < b :: rs[k].id != rs[b].id
    ensures i < j < |FirstSeen(rs)| && FirstSeen(rs)[i] == rs[a].id && FirstSeen(rs)[j] == rs[b].id
    decreases |rs|
  {
    var n := |rs| - 1;
    var before := FirstSeen(rs[..n]);
    if b == n {
      FirstSeenHasId(rs[..n], rs[a].id);
      FirstSeenHasId(rs[..n], rs[b].id);
      assert rs[..n][a].id == rs[a].id;
      i :| 0 <= i < |before| && before[i] == rs[a].id;
      j := |before|;
    } else {
      i, j := FirstSeenOrder(rs[..n], a, b);
    }
  }

  // ---------------------------------------------------------------- the dictionary

  /** A Python dictionary of jobs: overwriting a key keeps its place. */
  class JobTable {
    var keys: seq<string>
    var table: map<string, Job>

    ghost predicate Holds(rs: seq<Job>)
      reads this
    {
      keys == FirstSeen(rs) && table == TableOf(rs)
    }

    constructor ()
      ensures Holds([])
    {
      keys, table := [], map[];
    }

    /** The body of the inner loops. */
    method Offer(job: Job, ghost rs: seq<Job>)
      requires Holds(rs)
      modifies this
      ensures Holds(rs + [job])
    {
      TableKeys(rs);
      assert (rs + [job])[..|rs|] == rs;
      if job.id !in table || job.state == "PENDING" {
        if job.id !in table {
          keys := keys + [job.id];
        }
        table := table[job.id := job];
      }
    }

    /** The inner loop over one source's records. */
    method OfferAll(rows: seq<Job>, ghost rs: seq<Job>)
      requires Holds(rs)
      modifies this
      ensures Holds(rs + rows)
    {
      ghost var seen := rs;
      for k := 0 to |rows|
        invariant seen == rs + rows[..k] && Holds(seen)
      {
        Offer(rows[k], seen);
        assert rows[..k + 1] == rows[..k] + [rows[k]];
        seen := seen + [rows[k]];
      }
      assert rows[..|rows|] == rows;
    }

    /** The same for a REST source, which first turns a limit in minutes into seconds. */
    method OfferAllScaled(rows: seq<Job>, ghost rs: seq<Job>)
      requires Holds(rs)
      modifies this
      ensures Holds(rs + ScaleAll(rows))
    {
      ghost var scaled := ScaleAll(rows);
      ghost var seen := rs;
      for k := 0 to |rows|
        invariant seen == rs + scaled[..k] && Holds(seen)
      {
        var job := rows[k];
        if job.limit.Some? {
          job := job.(limit := Some(job.limit.value * 60));
        }
        Offer(job, seen);
        seen := seen + [job];
        ScaledPrefix(rows, k);
      }
      assert scaled[..|rows|] == scaled;
    }

    /** `list(jobs.values())`. */
    method Values(ghost rs: seq<Job>) returns (jobs: seq<Job>)
      requires Holds(rs)
      ensures jobs == Merged(rs)
    {
      TableKeys(rs);
      jobs := seq(|keys|, i requires 0 <= i < |keys| && keys[i] in table reads this => table[keys[i]]);
    }
  }

  // ---------------------------------------------------------------- command-line client

  /** What one `sacct` or `squeue` call yields: nothing, an exception, or rows. */
  datatype Reply<T> = Nothing | Failure | Rows(rows: seq<T>)

  datatype Error = SchedulerError | MissingUser

  /** All rows of all replies, unless one of them failed. */
  function Rows<T>(replies: seq<Reply<T>>): Result<seq<T>, Error> {
    if replies == [] then Ok([])
    else
      var last := replies[|replies| - 1];
      match Rows(replies[..|replies| - 1])
      case Err(e) => Err(e)
      case Ok(rows) =>
        match last
        case Nothing => Ok(rows)
        case Failure => Err(SchedulerError)
        case Rows(more) => Ok(rows + more)
  }

  /** `SlurmCliClient.get_jobs`. */
  method CliGetJobs(replies: seq<Reply<Job>>) returns (r: Result<seq<Job>, Error>)
    ensures Rows(replies).Err? ==> r == Err(Rows(replies).error)
    ensures Rows(replies).Ok? ==> r == Ok(Merged(Rows(replies).value))
  {
    var jobs := new JobTable();
    ghost var seen: seq<Job> := [];
    for i := 0 to |replies|
      invariant jobs.Holds(seen) && Rows(replies[..i]) == Ok(seen)
    {
      var result := replies[i];
      assert replies[..i + 1][..i] == replies[..i];
      if result.Failure? {
        RowsPrefixFails(replies, i + 1);
        return Err(SchedulerError);
      }
      if result.Rows? {
        jobs.OfferAll(result.rows, seen);
        seen := seen + result.rows;
      }
    }
    assert replies[..|replies|] == replies;
    var values := jobs.Values(seen);
    return Ok(values);
  }

  lemma {:induction false} RowsPrefixFails<T>(replies: seq<Reply<T>>, n: nat)
    requires n <= |replies| && Rows(replies[..n]).Err?
    ensures Rows(replies) == Rows(replies[..n])
    decreases |replies| - n
  {
    if n < |replies| {
      assert replies[..n + 1][..n] == replies[..n];
      RowsPrefixFails(replies, n + 1);
    } else {
      assert replies[..n] == replies;
    }
  }

  /** `SlurmCliClient.get_job`: the same, with None for an empty dictionary. */
  method CliGetJob(replies: seq<Reply<Job>>) returns (r: Result<Option<seq<Job>>, Error>)
    ensures Rows(replies).Err? ==> r == Err(Rows(replies).error)
    ensures Rows(replies).Ok? ==> var rows := Rows(replies).value;
      r == Ok(if rows == [] then None else Some(Merged(rows)))
  {
    var all := CliGetJobs(replies);
    match all
    case Err(e) => return Err(e);
    case Ok(jobs) =>
      MergedEmptyIff(Rows(replies).value);
      return Ok(if |jobs| > 0 then Some(jobs) else None);
  }

  // ---------------------------------------------------------------- REST client

  /** A value of the decoded JSON object. */
  datatype Field = Absent | Null | Str(text: string)

  datatype Raw = Raw(job: Job, user: Field, userName: Field, name: Field)

  /** The filter of `get_job` as its conditional expression parses: `allusers` only applies to
      records with a `user` key. None where `job["user_name"]` raises. */
  function KeepOne(raw: Raw, allUsers: bool, username: string): Option<bool> {
    if !raw.user.Absent? then Some(allUsers || raw.user == Str(username))
    else if raw.userName.Absent? then None
    else Some(raw.userName == Str(username))
  }

  predicate Falsy(f: Field) { f.Absent? || f.Null? || f.text == "" }

  /** `matches` in `get_jobs`. */
  function KeepMany(raw: Raw, allUsers: bool, username: string, name: Option<string>): bool {
    var jobUser := if Falsy(raw.user) then raw.userName else raw.user;
    (allUsers || jobUser == Str(username)) && (name.None? || name.value == "" || raw.name == Str(name.value))
  }

  function FilterOne(allUsers: bool, username: string): Raw -> Option<bool> {
    (raw: Raw) => KeepOne(raw, allUsers, username)
  }

  function FilterMany(allUsers: bool, username: string, name: Option<string>): Raw -> Option<bool> {
    (raw: Raw) => Some(KeepMany(raw, allUsers, username, name))
  }

  /** The two filters as written differ exactly here: `get_job` raises on a record with neither key
      and, for all users, still drops other owners' records that only have `user_name`; `get_jobs`
      falls back to `user_name` when `user` is present but empty. */
  lemma FiltersDifferIff(raw: Raw, allUsers: bool, username: string)
    ensures KeepOne(raw, allUsers, username) != Some(KeepMany(raw, allUsers, username, None)) <==>
      if raw.user.Absent? then raw.userName.Absent? || (allUsers && raw.userName != Str(username))
      else !allUsers && Falsy(raw.user) && (raw.user == Str(username)) != (raw.userName == Str(username))
  {
  }

  /** Minutes to seconds. */
  function Scale(job: Job): Job {
    if job.limit.Some? then job.(limit := Some(job.limit.value * 60)) else job
  }

  function ScaleAll(rs: seq<Job>): seq<Job> { seq(|rs|, i requires 0 <= i < |rs| => Scale(rs[i])) }

  lemma ScaledPrefix(rows: seq<Job>, k: nat)
    requires k < |rows|
    ensures ScaleAll(rows)[..k + 1] == ScaleAll(rows)[..k] + [Scale(rows[k])]
  {
  }

  /** The records that pass a filter, in order; None where the filter raises on one of them. */
  function Filtered(keep: Raw -> Option<bool>, raws: seq<Raw>): Option<seq<Job>> {
    if raws == [] then Some([])
    else
      var n := |raws| - 1;
      match (Filtered(keep, raws[..n]), keep(raws[n]))
      case (Some(jobs), Some(kept)) => Some(if kept then jobs + [raws[n].job] else jobs)
      case _ => None
  }

  function RestRows(keep: Raw -> Option<bool>, replies: seq<Reply<Raw>>): Result<seq<Job>, Error> {
    if replies == [] then Ok([])
    else
      var last := replies[|replies| - 1];
      match RestRows(keep, replies[..|replies| - 1])
      case Err(e) => Err(e)
      case Ok(rows) =>
        match last
        case Nothing => Ok(rows)
        case Failure => Err(SchedulerError)
        case Rows(raws) =>
          match Filtered(keep, raws)
          case None => Err(MissingUser)
          case Some(more) => Ok(rows + more)
  }

  /** `list(filter(keep, result["jobs"]))`. */
  method FilterJobs(keep: Raw -> Option<bool>, raws: seq<Raw>) returns (jobs: Option<seq<Job>>)
    ensures jobs == Filtered(keep, raws)
  {
    var kept: seq<Job> := [];
    for i := 0 to |raws|
      invariant Filtered(keep, raws[..i]) == Some(kept)
    {
      assert raws[..i + 1][..i] == raws[..i];
      var verdict := keep(raws[i]);
      if verdict.None? {
        FilteredPrefixFails(keep, raws, i + 1);
        return None;
      }
      if verdict.value {
        kept := kept + [raws[i].job];
      }
    }
    assert raws[..|raws|] == raws;
    return Some(kept);
  }

  lemma {:induction false} FilteredPrefixFails(keep: Raw -> Option<bool>, raws: seq<Raw>, n: nat)
    requires n <= |raws| && Filtered(keep, raws[..n]).None?
    ensures Filtered(keep, raws).None?
    decreases |raws| - n
  {
    if n < |raws| {
      assert raws[..n + 1][..n] == raws[..n];
      FilteredPrefixFails(keep, raws, n + 1);
    } else {
      assert raws[..n] == raws;
    }
  }

  lemma ScaleAllConcat(a: seq<Job>, b: seq<Job>)
    ensures ScaleAll(a) + ScaleAll(b) == ScaleAll(a + b)
  {
  }

  /** The loop of `SlurmRestClient.get_job` and `get_jobs`, for either filter. */
  method RestMerge(keep: Raw -> Option<bool>, replies: seq<Reply<Raw>>) returns (r: Result<seq<Job>, Error>)
    ensures RestRows(keep, replies).Err? ==> r == Err(RestRows(keep, replies).error)
    ensures RestRows(keep, replies).Ok? ==> r == Ok(Merged(ScaleAll(RestRows(keep, replies).value)))
  {
    var jobs := new JobTable();
    ghost var seen: seq<Job> := [];
    for i := 0 to |replies|
      invariant RestRows(keep, replies[..i]) == Ok(seen) && jobs.Holds(ScaleAll(seen))
    {
      var result := replies[i];
      assert replies[..i + 1][..i] == replies[..i] && replies[..i + 1][i] == result;
      if result.Failure? {
        RestPrefixFails(keep, replies, i + 1);
        return Err(SchedulerError);
      }
      if result.Rows? {
        var filtered := FilterJobs(keep, result.rows);
        if filtered.None? {
          RestPrefixFails(keep, replies, i + 1);
          return Err(MissingUser);
        }
        jobs.OfferAllScaled(filtered.value, ScaleAll(seen));
        ScaleAllConcat(seen, filtered.value);
        seen := seen + filtered.value;
      }
    }
    assert replies[..|replies|] == replies;
    var values := jobs.Values(ScaleAll(seen));
    return Ok(values);
  }

  lemma {:induction false} RestPrefixFails(keep: Raw -> Option<bool>, replies: seq<Reply<Raw>>, n: nat)
    requires n <= |replies| && RestRows(keep, replies[..n]).Err?
    ensures RestRows(keep, replies) == RestRows(keep, replies[..n])
    decreases |replies| - n
  {
    if n < |replies| {
      assert replies[..n + 1][..n] == replies[..n];
      RestPrefixFails(keep, replies, n + 1);
    } else {
      assert replies[..n] == replies;
    }
  }

  /** `SlurmRestClient.get_jobs`. */
  method RestGetJobs(replies: seq<Reply<Raw>>, allUsers: bool, username: string, name: Option<string>)
    returns (r: Result<seq<Job>, Error>)
    ensures var rows := RestRows(FilterMany(allUsers, username, name), replies);
      r == if rows.Err? then Err(rows.error) else Ok(Merged(ScaleAll(rows.value)))
  {
    r := RestMerge(FilterMany(allUsers, username, name), replies);
  }

  /** `SlurmRestClient.get_job`. */
  method RestGetJob(replies: seq<Reply<Raw>>, allUsers: bool, username: string)
    returns (r: Result<Option<seq<Job>>, Error>)
    ensures var rows := RestRows(FilterOne(allUsers, username), replies);
      r == if rows.Err? then Err(rows.error)
           else Ok(if rows.value == [] then None else Some(Merged(ScaleAll(rows.value))))
  {
    var all := RestMerge(FilterOne(allUsers, username), replies);
    match all
    case Err(e) => return Err(e);
    case Ok(jobs) =>
      ghost var rows := RestRows(FilterOne(allUsers, username), replies).value;
      MergedEmptyIff(ScaleAll(rows));
      return Ok(if |jobs| > 0 then Some(jobs) else None);
  }

  lemma MergedEmptyIff(rs: seq<Job>)
    ensures |Merged(rs)| == 0 <==> rs == []
  {
    if rs != [] {
      assert HasId(rs, rs[0].id);
      FirstSeenHasId(rs, rs[0].id);
    }
  }

  /** Scaling changes neither ids nor states, so it commutes with merging: every job returned by
      the REST client is the record the merge selects, with its limit multiplied by 60 once. */
  lemma MergeScalesOnce(rs: seq<Job>)
    ensures Merged(ScaleAll(rs)) == ScaleAll(Merged(rs))
  {
    ScaledTable(rs);
    TableKeys(rs);
  }

  lemma {:induction false} ScaledTable(rs: seq<Job>)
    ensures FirstSeen(ScaleAll(rs)) == FirstSeen(rs)
    ensures TableOf(ScaleAll(rs)).Keys == TableOf(rs).Keys
    ensures forall id <- TableOf(rs) :: TableOf(ScaleAll(rs))[id] == Scale(TableOf(rs)[id])
    decreases |rs|
  {
    if rs != [] {
      var n := |rs| - 1;
      assert ScaleAll(rs)[..n] == ScaleAll(rs[..n]);
      ScaledTable(rs[..n]);
    }
  }

  // ---------------------------------------------------------------- what the answers hold

  /** One of the replies has this row. */
  ghost predicate InReplies<T>(replies: seq<Reply<T>>, row: T) {
    exists i :: 0 <= i < |replies| && replies[i].Rows? && row in replies[i].rows
  }

  ghost predicate AnyFailed<T>(replies: seq<Reply<T>>) { exists i :: 0 <= i < |replies| && replies[i].Failure? }

  lemma InRepliesSnoc<T>(init: seq<Reply<T>>, last: Reply<T>, row: T)
    ensures InReplies(init + [last], row) <==> InReplies(init, row) || (last.Rows? && row in last.rows)
  {
    var all := init + [last];
    assert all[|init|] == last;
    assert forall i | 0 <= i < |init| :: all[i] == init[i];
  }

  lemma AnyFailedSnoc<T>(init: seq<Reply<T>>, last: Reply<T>)
    ensures AnyFailed(init + [last]) <==> AnyFailed(init) || last.Failure?
  {
    var all := init + [last];
    assert all[|init|] == last;
    assert forall i | 0 <= i < |init| :: all[i] == init[i];
  }

  /** The rows are lost exactly if a reply failed, and otherwise they are the rows of the replies. */
  lemma {:induction false} RowsAre<T>(replies: seq<Reply<T>>)
    ensures Rows(replies).Err? <==> AnyFailed(replies)
    ensures Rows(replies).Ok? ==> forall row :: row in Rows(replies).value <==> InReplies(replies, row)
    decreases |replies|
  {
    if replies != [] {
      var init, last := replies[..|replies| - 1], replies[|replies| - 1];
      assert replies == init + [last];
      RowsAre(init);
      AnyFailedSnoc(init, last);
      if Rows(replies).Ok? {
        forall row ensures row in Rows(replies).value <==> InReplies(replies, row) { InRepliesSnoc(init, last, row); }
      }
    }
  }

  /** A row that the filter keeps, or on which it raises. */
  ghost predicate Kept(keep: Raw -> Option<bool>, raws: seq<Raw>, job: Job) {
    exists raw <- raws :: keep(raw) == Some(true) && raw.job == job
  }

  lemma {:induction false} FilteredAre(keep: Raw -> Option<bool>, raws: seq<Raw>)
    ensures Filtered(keep, raws).None? <==> exists raw <- raws :: keep(raw).None?
    ensures Filtered(keep, raws).Some? ==> forall job :: job in Filtered(keep, raws).value <==> Kept(keep, raws, job)
    decreases |raws|
  {
    if raws != [] {
      var n := |raws| - 1;
      assert raws == raws[..n] + [raws[n]];
      FilteredAre(keep, raws[..n]);
      if Filtered(keep, raws).Some? {
        forall job ensures job in Filtered(keep, raws).value <==> Kept(keep, raws, job) {
          assert Kept(keep, raws, job) <==>
            Kept(keep, raws[..n], job) || (keep(raws[n]) == Some(true) && raws[n].job == job);
        }
      }
    }
  }

  ghost predicate AnyRaises(keep: Raw -> Option<bool>, replies: seq<Reply<Raw>>) {
    exists raw: Raw :: InReplies(replies, raw) && keep(raw).None?
  }

  ghost predicate KeptInReplies(keep: Raw -> Option<bool>, replies: seq<Reply<Raw>>, job: Job) {
    exists raw: Raw :: InReplies(replies, raw) && keep(raw) == Some(true) && raw.job == job
  }

  lemma RaisesSnoc(keep: Raw -> Option<bool>, init: seq<Reply<Raw>>, last: Reply<Raw>)
    ensures AnyRaises(keep, init + [last]) <==>
      AnyRaises(keep, init) || (last.Rows? && exists raw <- last.rows :: keep(raw).None?)
  {
    forall raw: Raw
      ensures InReplies(init + [last], raw) <==> InReplies(init, raw) || (last.Rows? && raw in last.rows)
    {
      InRepliesSnoc(init, last, raw);
    }
  }

  lemma KeptSnoc(keep: Raw -> Option<bool>, init: seq<Reply<Raw>>, last: Reply<Raw>, job: Job)
    ensures KeptInReplies(keep, init + [last], job) <==>
      KeptInReplies(keep, init, job) || (last.Rows? && Kept(keep, last.rows, job))
  {
    forall raw: Raw
      ensures InReplies(init + [last], raw) <==> InReplies(init, raw) || (last.Rows? && raw in last.rows)
    {
      InRepliesSnoc(init, last, raw);
    }
  }

  /** The filtered rows are lost exactly if a reply failed or the filter raises on a row. */
  lemma {:induction false} RestRowsAre(keep: Raw -> Option<bool>, replies: seq<Reply<Raw>>)
    ensures RestRows(keep, replies).Err? <==> AnyFailed(replies) || AnyRaises(keep, replies)
    ensures RestRows(keep, replies).Ok? ==>
      forall job :: job in RestRows(keep, replies).value <==> KeptInReplies(keep, replies, job)
    decreases |replies|
  {
    if replies != [] {
      var init, last := replies[..|replies| - 1], replies[|replies| - 1];
      assert replies == init + [last];
      RestRowsAre(keep, init);
      AnyFailedSnoc(init, last);
      RaisesSnoc(keep, init, last);
      if last.Rows? {
        FilteredAre(keep, last.rows);
      }
      if RestRows(keep, replies).Ok? {
        forall job ensures job in RestRows(keep, replies).value <==> KeptInReplies(keep, replies, job) {
          KeptSnoc(keep, init, last, job);
        }
      }
    }
  }

  /** Merging keeps all ids and makes up no record. */
  lemma MergedAre(rs: seq<Job>)
    ensures forall id :: HasId(Merged(rs), id) <==> HasId(rs, id)
    ensures forall job <- Merged(rs) :: job in rs
  {
    MergeMeetsItsRule(rs);
    var jobs, ids := Merged(rs), FirstSeen(rs);
    forall i | 0 <= i < |jobs| ensures jobs[i].id == ids[i] && jobs[i] in rs {
      assert IsRecordFor(rs, ids[i], jobs[i]);
    }
    forall id ensures HasId(jobs, id) <==> HasId(rs, id) {
      if id in ids {
        var i :| 0 <= i < |ids| && ids[i] == id;
        assert jobs[i].id == id;
      }
    }
  }

  /** The job as reported, its limit in seconds instead of minutes. */
  predicate IsReportOf(job: Job, raw: Raw) {
    job.id == raw.job.id && job.state == raw.job.state
    && match raw.job.limit case None => job.limit == None case Some(minutes) => job.limit == Some(60 * minutes)
  }

  /** The jobs are those of the wanted records: every id of one, and no job of another. */
  ghost predicate AreJobsOf(jobs: seq<Job>, replies: seq<Reply<Raw>>, wanted: Raw -> bool) {
    && (forall id :: HasId(jobs, id) <==> exists raw: Raw :: InReplies(replies, raw) && wanted(raw) && raw.job.id == id)
    && (forall job <- jobs :: exists raw: Raw :: InReplies(replies, raw) && wanted(raw) && IsReportOf(job, raw))
  }

  lemma JobsOfKept(keep: Raw -> Option<bool>, wanted: Raw -> bool, replies: seq<Reply<Raw>>)
    requires RestRows(keep, replies).Ok? && forall raw :: keep(raw) == Some(true) <==> wanted(raw)
    ensures AreJobsOf(Merged(ScaleAll(RestRows(keep, replies).value)), replies, wanted)
  {
    var rows := RestRows(keep, replies).value;
    var jobs := Merged(ScaleAll(rows));
    RestRowsAre(keep, replies);
    MergedAre(ScaleAll(rows));
    forall id
      ensures HasId(jobs, id) <==> exists raw: Raw :: InReplies(replies, raw) && wanted(raw) && raw.job.id == id
    {
      ScaledIds(rows, id);
      if HasId(rows, id) {
        var k :| 0 <= k < |rows| && rows[k].id == id;
        assert KeptInReplies(keep, replies, rows[k]);
      }
      if raw: Raw :| InReplies(replies, raw) && wanted(raw) && raw.job.id == id {
        assert KeptInReplies(keep, replies, raw.job);
        var k :| 0 <= k < |rows| && rows[k] == raw.job;
      }
    }
    forall job <- jobs
      ensures exists raw: Raw :: InReplies(replies, raw) && wanted(raw) && IsReportOf(job, raw)
    {
      var k :| 0 <= k < |rows| && ScaleAll(rows)[k] == job;
      assert KeptInReplies(keep, replies, rows[k]);
      var raw: Raw :| InReplies(replies, raw) && keep(raw) == Some(true) && raw.job == rows[k];
      assert IsReportOf(job, raw);
    }
  }

  lemma ScaledIds(rows: seq<Job>, id: string)
    ensures HasId(ScaleAll(rows), id) <==> HasId(rows, id)
  {
    assert forall k | 0 <= k < |rows| :: ScaleAll(rows)[k].id == rows[k].id;
  }

  /** The record names this owner: in `user`, or in `user_name` where `user` is missing, null or empty. */
  predicate IsOwnedBy(raw: Raw, username: string) {
    (raw.user == Str(username) && username != "")
    || ((raw.user == Absent || raw.user == Null || raw.user == Str("")) && raw.userName == Str(username))
  }

  predicate IsNamed(raw: Raw, name: Option<string>) { name == None || name == Some("") || raw.name == Str(name.value) }

  /** `get_jobs` fails exactly if a source failed. Otherwise it returns the jobs of the records with the
      owner that is asked for, or of any where all users are, and with the name, if one is asked for. */
  lemma RestJobsAreThoseAskedFor(replies: seq<Reply<Raw>>, allUsers: bool, username: string, name: Option<string>)
    ensures var rows := RestRows(FilterMany(allUsers, username, name), replies);
      && (rows.Err? <==> AnyFailed(replies))
      && (rows.Ok? ==> AreJobsOf(Merged(ScaleAll(rows.value)), replies,
                         (raw: Raw) => (allUsers || IsOwnedBy(raw, username)) && IsNamed(raw, name)))
  {
    var keep := FilterMany(allUsers, username, name);
    var wanted := (raw: Raw) => (allUsers || IsOwnedBy(raw, username)) && IsNamed(raw, name);
    RestRowsAre(keep, replies);
    if RestRows(keep, replies).Ok? {
      JobsOfKept(keep, wanted, replies);
    }
  }

  /** `get_job` fails exactly if a source failed or a record names no owner. Otherwise it returns the jobs
      of the records with a `user`, the requested one or any where all users are asked for, and of the
      records with only a `user_name`, the requested one in any case. */
  lemma RestJobIsTheOneAskedFor(replies: seq<Reply<Raw>>, allUsers: bool, username: string)
    ensures var rows := RestRows(FilterOne(allUsers, username), replies);
      && (rows.Err? <==>
            AnyFailed(replies)
            || exists raw: Raw :: InReplies(replies, raw) && raw.user == Absent && raw.userName == Absent)
      && (rows.Ok? ==> AreJobsOf(Merged(ScaleAll(rows.value)), replies,
                         (raw: Raw) => if raw.user != Absent then allUsers || raw.user == Str(username)
                                       else raw.userName == Str(username)))
  {
    var keep := FilterOne(allUsers, username);
    var wanted := (raw: Raw) =>
      if raw.user != Absent then allUsers || raw.user == Str(username) else raw.userName == Str(username);
    RestRowsAre(keep, replies);
    if RestRows(keep, replies).Ok? {
      JobsOfKept(keep, wanted, replies);
    }
  }

  /** The command-line client fails exactly if a command failed. Otherwise it returns the ids of all rows,
      and no job that is not one of them. */
  lemma CliJobsAreTheRows(replies: seq<Reply<Job>>)
    ensures Rows(replies).Err? <==> AnyFailed(replies)
    ensures Rows(replies).Ok? ==> var jobs := Merged(Rows(replies).value);
      && (forall id :: HasId(jobs, id) <==> exists row: Job :: InReplies(replies, row) && row.id == id)
      && (forall job <- jobs :: InReplies(replies, job))
  {
    RowsAre(replies);
    if Rows(replies).Ok? {
      var rows := Rows(replies).value;
      MergedAre(rows);
      forall id ensures HasId(rows, id) <==> exists row: Job :: InReplies(replies, row) && row.id == id {
        if HasId(rows, id) {
          var k :| 0 <= k < |rows| && rows[k].id == id;
          assert InReplies(replies, rows[k]);
        }
        if row: Job :| InReplies(replies, row) && row.id == id {
          var k :| 0 <= k < |rows| && rows[k] == row;
        }
      }
    }
  }
}
