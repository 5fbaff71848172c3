/** The file streamer: one end cuts a file into frames, the other rebuilds it.

    SHA-256 and the JSON reader are parameters: the digest is any function of the bytes fed so
    far, and the reader is only known to undo the sender's own header. */
module Streamer {
  import opened Prelude

  const CHUNK_SIZE: nat := 5 * 1024 * 1024

  predicate IsHexDigit(c: char) { '0' <= c <= '9' || 'a' <= c <= 'f' }

  type Hex = s: string | forall i | 0 <= i < |s| :: IsHexDigit(s[i])

  /** A data frame of RFC 6455, section 5.6. */
  datatype Frame = Text(text: string) | Binary(bytes: Bytes)

  /** How the iteration over the socket ends once the frames are used up. */
  datatype Ending = CleanClose | ConnectionLost

  /** The part of the init message the receiver uses later: the divisor of its progress report,
      absent when that value is missing or not a number. */
  datatype Header = Header(numChunks: Option<int>) {
    predicate CanReport() { numChunks.Some? && numChunks.value != 0 }
  }

  /** `loadsInit` and `loadsHash` are None where the Python expression raises. */
  datatype Engine = Engine(
    digest: Bytes -> Hex,
    loadsInit: Bytes -> Option<Header>,
    loadsHash: string -> Option<string>)
  {
    ghost predicate ReadsOwnInit() {
      forall n: nat, size: nat {:trigger InitText(n, size)} ::
        loadsInit(ToBytes(InitText(n, size))) == Some(Header(Some(n)))
    }
  }

  // ---------------------------------------------------------------- messages

  /** `json.dumps` puts a space after every colon and comma. */
  const INIT_CHUNKS := "{\"type\": \"init\", \"num_chunks\": "
  const INIT_SIZE := ", \"file_size\": "
  const EOF_HASH := "{\"type\": \"eof\", \"sha256_hash\": \""

  function InitText(numChunks: nat, fileSize: nat): (s: string)
    ensures IsAsciiText(s)
  {
    INIT_CHUNKS + Decimal(numChunks) + INIT_SIZE + Decimal(fileSize) + "}"
  }

  function EofText(hash: Hex): (s: string)
    ensures IsAsciiText(s)
  {
    EOF_HASH + hash + "\"}"
  }

  predicate IsErrorFrame(f: Frame) { f.Text? && "{\"type\":\"error\"" <= f.text }

  predicate IsEofFrame(f: Frame) { f.Text? && "{\"type\":\"eof\"" <= f.text }

  // ---------------------------------------------------------------- sender

  function Chunks(file: Bytes): seq<Bytes> {
    if file == [] then []
    else if |file| <= CHUNK_SIZE then [file]
    else [file[..CHUNK_SIZE]] + Chunks(file[CHUNK_SIZE..])
  }

  function Concat(parts: seq<Bytes>): Bytes {
    if parts == [] then [] else parts[0] + Concat(parts[1..])
  }

  function DataFrames(parts: seq<Bytes>): seq<Frame> {
    seq(|parts|, i requires 0 <= i < |parts| => Binary(parts[i]))
  }

  function NumChunks(size: nat): nat { (size + CHUNK_SIZE - 1) / CHUNK_SIZE }

  function InitFrame(file: Bytes): Frame { Binary(ToBytes(InitText(NumChunks(|file|), |file|))) }

  /** Everything the sender transmits for a file. */
  function SentFrames(engine: Engine, file: Bytes): seq<Frame> {
    [InitFrame(file)] + DataFrames(Chunks(file)) + [Binary(ToBytes(EofText(engine.digest(file))))]
  }

  /** The number of chunks announced is the number sent; every chunk is non-empty, all but the
      last are full, and together they are the file. */
  lemma {:induction false} ChunksCutTheFile(file: Bytes)
    ensures var cs := Chunks(file);
      && |cs| == NumChunks(|file|)
      && Concat(cs) == file
      && (forall i: nat | i < |cs| :: 0 < |cs[i]| <= CHUNK_SIZE)
      && (forall i: nat | i + 1 < |cs| :: |cs[i]| == CHUNK_SIZE)
    decreases |file|
  {
    if |file| <= CHUNK_SIZE {
      if file != [] {
        assert Chunks(file)[1..] == [];
        assert NumChunks(|file|) == 1;
      }
    } else {
      var rest := file[CHUNK_SIZE..];
      ChunksCutTheFile(rest);
      assert Chunks(file)[1..] == Chunks(rest);
      assert file[..CHUNK_SIZE] + rest == file;
      assert NumChunks(|file|) == NumChunks(|rest|) + 1;
    }
  }

  datatype SendOutcome = SendOutcome(frames: seq<Frame>, ok: bool, closeCode: Option<int>)

  function Prefix<T>(s: seq<T>, n: nat): seq<T> { if n <= |s| then s[..n] else s }

  lemma {:induction false} ChunksFrom(file: Bytes, pos: nat)
    requires pos < |file|
    ensures var next := if pos + CHUNK_SIZE <= |file| then pos + CHUNK_SIZE else |file|;
      Chunks(file[pos..]) == [file[pos..next]] + Chunks(file[next..])
  {
    var next := if pos + CHUNK_SIZE <= |file| then pos + CHUNK_SIZE else |file|;
    assert file[pos..][..next - pos] == file[pos..next];
    if pos + CHUNK_SIZE < |file| {
      assert file[pos..][CHUNK_SIZE..] == file[next..];
    } else {
      assert file[pos..] == file[pos..next];
    }
  }

  lemma FramesFrom(file: Bytes, pos: nat)
    requires pos < |file|
    ensures var next := if pos + CHUNK_SIZE <= |file| then pos + CHUNK_SIZE else |file|;
      DataFrames(Chunks(file[pos..])) == [Binary(file[pos..next])] + DataFrames(Chunks(file[next..]))
  {
    ChunksFrom(file, pos);
  }

  /** A send after the peer has gone: `ConnectionClosedError` has a handler of its own, the
      `ConnectionClosedOK` of a peer that closed cleanly reaches the general one. */
  function Interrupted(frames: seq<Frame>, ending: Ending): SendOutcome {
    SendOutcome(frames, false, if ending.CleanClose? then Some(1011) else None)
  }

  /** `stream_send`. The connection accepts `alive` frames; if that is not enough, `ending` says how
      it ended. */
  method StreamSend(engine: Engine, target: Option<Bytes>, alive: nat, ending: Ending) returns (r: SendOutcome)
    ensures target.None? ==> r == SendOutcome([], false, Some(3003))
    ensures target.Some? ==> var all := SentFrames(engine, target.value);
      r == if alive >= |all| then SendOutcome(all, true, None) else Interrupted(Prefix(all, alive), ending)
    ensures r.ok <==> target.Some? && alive >= |SentFrames(engine, target.value)|
    ensures target.Some? ==> var all := SentFrames(engine, target.value);
      r.frames <= all && |r.frames| == Min(alive, |all|)
    ensures r.ok || (target.Some? && ending.ConnectionLost?) ==> r.closeCode == None
    ensures target.Some? && !r.ok && ending.CleanClose? ==> r.closeCode == Some(1011)
  {
    if target.None? {
      return SendOutcome([], false, Some(3003));
    }
    var file := target.value;
    var frames: seq<Frame> := [];
    if |frames| >= alive {
      return Interrupted(frames, ending);
    }
    frames := [InitFrame(file)];
    var pos, hashed, chunkCount := 0, [], 0;
    ghost var tail := [Binary(ToBytes(EofText(engine.digest(file))))];
    while pos < |file|
      invariant 0 <= pos <= |file| && hashed == file[..pos]
      invariant |frames| == chunkCount + 1 <= alive
      invariant SentFrames(engine, file) == frames + DataFrames(Chunks(file[pos..])) + tail
      decreases |file| - pos
    {
      var next := if pos + CHUNK_SIZE <= |file| then pos + CHUNK_SIZE else |file|;
      var chunk := file[pos..next];
      FramesFrom(file, pos);
      if |frames| >= alive {
        assert frames == SentFrames(engine, file)[..alive];
        return Interrupted(frames, ending);
      }
      frames := frames + [Binary(chunk)];
      hashed := hashed + chunk;
      chunkCount := chunkCount + 1;
      pos := next;
    }
    assert hashed == file;
    if |frames| >= alive {
      assert frames == SentFrames(engine, file)[..alive];
      return Interrupted(frames, ending);
    }
    frames := frames + [Binary(ToBytes(EofText(engine.digest(hashed))))];
    return SendOutcome(frames, true, None);
  }

  // ---------------------------------------------------------------- receiver

  /** The return value, what is left at the target path, and the close code sent, if any. */
  datatype Outcome = Outcome(ok: bool, disk: Option<Bytes>, closeCode: Option<int>)

  predicate Refused(limit: Option<int>, count: nat) {
    limit.Some? && count * CHUNK_SIZE > limit.value
  }

  /** The receive loop after the init frame: `got` is on disk and hashed, `count` data frames
      were accepted. */
  function Drain(engine: Engine, header: Header, limit: Option<int>, got: Bytes, count: nat,
                 frames: seq<Frame>, ending: Ending): Outcome
    decreases |frames|
  {
    if frames == [] then
      if ending.CleanClose? then Outcome(true, Some(got), None) else Outcome(false, Some(got), Some(1011))
    else
      var f := frames[0];
      if IsErrorFrame(f) then Outcome(false, Some(got), Some(1011))
      else if IsEofFrame(f) then
        match engine.loadsHash(f.text)
        case None => Outcome(false, Some(got), Some(1011))
        case Some(hash) => Outcome(true, if engine.digest(got) == hash then Some(got) else None, None)
      else if Refused(limit, count + 1) then Outcome(false, None, Some(1009))
      else if f.Text? then Outcome(false, Some(got), Some(1011))
      else if !header.CanReport() then Outcome(false, Some(got + f.bytes), Some(1011))
      else Drain(engine, header, limit, got + f.bytes, count + 1, frames[1..], ending)
  }

  function Receive(engine: Engine, target: Option<Bytes>, limit: Option<int>, frames: seq<Frame>, ending: Ending)
    : Outcome
  {
    if target.Some? then Outcome(false, target, Some(3003))
    else if frames == [] then Drain(engine, Header(None), limit, [], 0, [], ending)
    else if frames[0].Text? then Outcome(false, Some([]), Some(1011))
    else match engine.loadsInit(frames[0].bytes)
      case None => Outcome(false, Some([]), Some(1011))
      case Some(header) => Drain(engine, header, limit, [], 0, frames[1..], ending)
  }

  /** `stream_receive`, statement by statement: `disk` is the file, `hashed` what the digest has
      been fed. The invariants say that both are always the data accepted so far. */
  method StreamReceive(engine: Engine, target: Option<Bytes>, limit: Option<int>, frames: seq<Frame>, ending: Ending)
    returns (r: Outcome)
    ensures r == Receive(engine, target, limit, frames, ending)
  {
    if target.Some? {
      return Outcome(false, target, Some(3003));
    }
    var disk: Option<Bytes> := Some([]);
    var init: Option<Header> := None;
    var hashed: Bytes := [];
    var transferSize, chunkCount := 0, 0;
    ghost var accepted: seq<Bytes> := [];
    var i := 0;
    while i < |frames|
      invariant 0 <= i <= |frames| && transferSize == chunkCount * CHUNK_SIZE
      invariant |accepted| == chunkCount && hashed == Concat(accepted) && disk == Some(hashed)
      invariant i == 0 <==> init.None?
      invariant i == 0 ==> hashed == [] && chunkCount == 0
      invariant i > 0 ==> Drain(engine, init.value, limit, hashed, chunkCount, frames[i..], ending)
                          == Receive(engine, target, limit, frames, ending)
    {
      var message := frames[i];
      if init.None? {
        if message.Text? {
          return Outcome(false, disk, Some(1011));
        }
        init := engine.loadsInit(message.bytes);
        if init.None? {
          return Outcome(false, disk, Some(1011));
        }
      } else {
        assert frames[i..][0] == message && frames[i..][1..] == frames[i + 1..];
        if IsErrorFrame(message) {
          return Outcome(false, disk, Some(1011));
        }
        if IsEofFrame(message) {
          var hash := engine.loadsHash(message.text);
          if hash.None? {
            return Outcome(false, disk, Some(1011));
          }
          if engine.digest(hashed) != hash.value {
            disk := None;
          }
          return Outcome(true, disk, None);
        }
        transferSize := transferSize + CHUNK_SIZE;
        if limit.Some? && transferSize > limit.value {
          disk := None;
          return Outcome(false, disk, Some(1009));
        }
        if message.Text? {
          return Outcome(false, disk, Some(1011));
        }
        disk := Some(disk.value + message.bytes);
        hashed := hashed + message.bytes;
        chunkCount := chunkCount + 1;
        ConcatSnoc(accepted, message.bytes);
        accepted := accepted + [message.bytes];
        if !init.value.CanReport() {
          return Outcome(false, disk, Some(1011));
        }
      }
      i := i + 1;
    }
    return if ending.CleanClose? then Outcome(true, disk, None) else Outcome(false, disk, Some(1011));
  }

  lemma {:induction false} ConcatSnoc(parts: seq<Bytes>, last: Bytes)
    ensures Concat(parts + [last]) == Concat(parts) + last
  {
    if parts == [] {
      assert [last][1..] == [];
    } else {
      assert (parts + [last])[1..] == parts[1..] + [last];
      ConcatSnoc(parts[1..], last);
    }
  }

  // ---------------------------------------------------------------- end to end

  /** While the header can be divided by and the limit allows, data frames are accepted one for
      one: afterwards the disk holds what it held, followed by their concatenation. */
  lemma {:induction false} DrainData(engine: Engine, header: Header, limit: Option<int>, got: Bytes, count: nat,
                                     parts: seq<Bytes>, rest: seq<Frame>, ending: Ending)
    requires parts != [] ==> header.CanReport() && !Refused(limit, count + |parts|)
    ensures Drain(engine, header, limit, got, count, DataFrames(parts) + rest, ending)
         == Drain(engine, header, limit, got + Concat(parts), count + |parts|, rest, ending)
    decreases |parts|
  {
    if parts == [] {
      assert DataFrames(parts) + rest == rest;
      assert got + Concat(parts) == got;
    } else {
      var frames := DataFrames(parts) + rest;
      assert frames[0] == Binary(parts[0]) && frames[1..] == DataFrames(parts[1..]) + rest;
      DrainData(engine, header, limit, got + parts[0], count + 1, parts[1..], rest, ending);
      assert got + parts[0] + Concat(parts[1..]) == got + Concat(parts);
    }
  }

  /** The first data frame over the limit ends the transfer and removes the file. */
  lemma {:induction false} DrainRefuses(engine: Engine, header: Header, limit: Option<int>, got: Bytes, count: nat,
                                        parts: seq<Bytes>, rest: seq<Frame>, ending: Ending)
    requires parts != [] && header.CanReport() && Refused(limit, count + |parts|)
    ensures Drain(engine, header, limit, got, count, DataFrames(parts) + rest, ending)
         == Outcome(false, None, Some(1009))
    decreases |parts|
  {
    var frames := DataFrames(parts) + rest;
    assert frames[0] == Binary(parts[0]) && frames[1..] == DataFrames(parts[1..]) + rest;
    if !Refused(limit, count + 1) {
      DrainRefuses(engine, header, limit, got + parts[0], count + 1, parts[1..], rest, ending);
    }
  }

  /** The round trip with an eof frame the receiver recognises: the copy is exact when the digest
      matches, the target is removed when it does not, and a transfer over the limit leaves
      nothing either. Nothing after the eof is looked at. */
  lemma RecognisedEofCompletesTheCopy(engine: Engine, file: Bytes, limit: Option<int>, eof: Frame, after: seq<Frame>,
                                      ending: Ending)
    requires engine.ReadsOwnInit() && IsEofFrame(eof) && engine.loadsHash(eof.text).Some?
    ensures Receive(engine, None, limit, [InitFrame(file)] + DataFrames(Chunks(file)) + [eof] + after, ending)
         == if file != [] && Refused(limit, NumChunks(|file|)) then Outcome(false, None, Some(1009))
            else if engine.loadsHash(eof.text).value == engine.digest(file) then Outcome(true, Some(file), None)
            else Outcome(true, None, None)
  {
    var rest := [eof] + after;
    Regroup([InitFrame(file)], DataFrames(Chunks(file)), [eof], after);
    AfterTheData(engine, file, limit, rest, ending);
    DrainEof(engine, Header(Some(NumChunks(|file|))), limit, file, NumChunks(|file|), eof, after, ending);
  }

  /** Whatever follows the sender's data frames is handled with the whole file on disk, unless
      the data alone exceed the limit. */
  lemma AfterTheData(engine: Engine, file: Bytes, limit: Option<int>, rest: seq<Frame>, ending: Ending)
    requires engine.ReadsOwnInit()
    ensures var n := NumChunks(|file|);
      Receive(engine, None, limit, [InitFrame(file)] + (DataFrames(Chunks(file)) + rest), ending)
        == if file != [] && Refused(limit, n) then Outcome(false, None, Some(1009))
           else Drain(engine, Header(Some(n)), limit, file, n, rest, ending)
  {
    var cs := Chunks(file);
    var header := Header(Some(|cs|));
    ChunksCutTheFile(file);
    OwnHeader(engine, file);
    ReceiveAfterInit(engine, header, limit, InitFrame(file), DataFrames(cs) + rest, ending);
    if cs != [] && Refused(limit, |cs|) {
      DrainRefuses(engine, header, limit, [], 0, cs, rest, ending);
    } else {
      DrainData(engine, header, limit, [], 0, cs, rest, ending);
      assert [] + Concat(cs) == file;
    }
  }

  lemma Regroup<T>(a: seq<T>, b: seq<T>, c: seq<T>, d: seq<T>)
    ensures a + b + c + d == a + (b + (c + d))
  {
  }

  lemma ReceiveAfterInit(engine: Engine, header: Header, limit: Option<int>, init: Frame, frames: seq<Frame>,
                         ending: Ending)
    requires init.Binary? && engine.loadsInit(init.bytes) == Some(header)
    ensures Receive(engine, None, limit, [init] + frames, ending) == Drain(engine, header, limit, [], 0, frames, ending)
  {
    assert ([init] + frames)[1..] == frames;
  }

  lemma DrainEof(engine: Engine, header: Header, limit: Option<int>, got: Bytes, count: nat, eof: Frame,
                 after: seq<Frame>, ending: Ending)
    requires IsEofFrame(eof) && engine.loadsHash(eof.text).Some?
    ensures Drain(engine, header, limit, got, count, [eof] + after, ending)
         == Outcome(true, if engine.digest(got) == engine.loadsHash(eof.text).value then Some(got) else None, None)
  {
    assert ([eof] + after)[0] == eof;
    assert eof.text[10] == "{\"type\":\"eof\""[10] == 'o';
    assert "{\"type\":\"error\""[10] == 'r';
  }

  lemma OwnHeader(engine: Engine, file: Bytes)
    requires engine.ReadsOwnInit()
    ensures engine.loadsInit(InitFrame(file).bytes) == Some(Header(Some(NumChunks(|file|))))
  {
  }

  function EofBytes(engine: Engine, file: Bytes): (b: Bytes)
    ensures |b| > 0
  {
    ToBytes(EofText(engine.digest(file)))
  }

  /** The two ends as written. The sender's eof is a binary frame, so the receiver counts it as
      data: within the limit it is appended to the file (and, for an empty file, the progress
      report then divides by zero); at the limit it gets the whole transfer refused. */
  lemma OwnEofIsStoredAsData(engine: Engine, file: Bytes, limit: Option<int>, ending: Ending)
    requires engine.ReadsOwnInit()
    ensures Receive(engine, None, limit, SentFrames(engine, file), ending)
         == if Refused(limit, NumChunks(|file|) + 1) then Outcome(false, None, Some(1009))
            else if file == [] then Outcome(false, Some(EofBytes(engine, file)), Some(1011))
            else Ended(file + EofBytes(engine, file), ending)
  {
    var n := NumChunks(|file|);
    var eof := Binary(EofBytes(engine, file));
    assert SentFrames(engine, file) == [InitFrame(file)] + (DataFrames(Chunks(file)) + [eof]);
    AfterTheData(engine, file, limit, [eof], ending);
    DrainLastData(engine, Header(Some(n)), limit, file, n, eof, ending);
    if file == [] {
      assert file + eof.bytes == eof.bytes;
    }
  }

  /** How the receiver ends when the connection does, with `got` on disk. */
  function Ended(got: Bytes, ending: Ending): Outcome {
    if ending.CleanClose? then Outcome(true, Some(got), None) else Outcome(false, Some(got), Some(1011))
  }

  lemma DrainLastData(engine: Engine, header: Header, limit: Option<int>, got: Bytes, count: nat, f: Frame,
                      ending: Ending)
    requires f.Binary?
    ensures Drain(engine, header, limit, got, count, [f], ending)
         == if Refused(limit, count + 1) then Outcome(false, None, Some(1009))
            else if header.CanReport() then Ended(got + f.bytes, ending)
            else Outcome(false, Some(got + f.bytes), Some(1011))
  {
    assert [f][1..] == [];
  }

  /** So a transfer that is not cut never leaves the file, between the two ends as written. */
  lemma OwnTransferNeverLeavesTheFile(engine: Engine, file: Bytes, limit: Option<int>, ending: Ending)
    requires engine.ReadsOwnInit()
    ensures Receive(engine, None, limit, SentFrames(engine, file), ending).disk != Some(file)
  {
    OwnEofIsStoredAsData(engine, file, limit, ending);
    assert |file + EofBytes(engine, file)| > |file|;
  }

  // ---------------------------------------------------------------- cut transfers

  /** A transfer cut after `k` chunks: refused over the limit, and otherwise the chunks so far are
      on disk, with the answer `true` whenever the connection was closed cleanly. */
  lemma CutTransfer(engine: Engine, file: Bytes, limit: Option<int>, k: nat, ending: Ending)
    requires engine.ReadsOwnInit() && k <= |Chunks(file)|
    ensures Receive(engine, None, limit, [InitFrame(file)] + DataFrames(Chunks(file)[..k]), ending)
         == if k > 0 && Refused(limit, k) then Outcome(false, None, Some(1009))
            else Ended(Concat(Chunks(file)[..k]), ending)
  {
    var parts, header := Chunks(file)[..k], Header(Some(NumChunks(|file|)));
    ChunksCutTheFile(file);
    OwnHeader(engine, file);
    ReceiveAfterInit(engine, header, limit, InitFrame(file), DataFrames(parts), ending);
    assert DataFrames(parts) + [] == DataFrames(parts);
    if k > 0 && Refused(limit, k) {
      DrainRefuses(engine, header, limit, [], 0, parts, [], ending);
    } else {
      DrainData(engine, header, limit, [], 0, parts, [], ending);
      assert [] + Concat(parts) == Concat(parts);
    }
  }

  lemma {:induction false} ConcatSplit(a: seq<Bytes>, b: seq<Bytes>)
    ensures Concat(a + b) == Concat(a) + Concat(b)
    decreases |a|
  {
    if a == [] {
      assert a + b == b;
    } else {
      assert (a + b)[1..] == a[1..] + b;
      ConcatSplit(a[1..], b);
    }
  }

  /** Fewer chunks than all of them are less than the file. */
  lemma FewerChunksAreLess(file: Bytes, k: nat)
    requires k <= |Chunks(file)|
    ensures Concat(Chunks(file)[..k]) == file <==> k == |Chunks(file)|
  {
    var cs := Chunks(file);
    ChunksCutTheFile(file);
    assert cs == cs[..k] + cs[k..];
    ConcatSplit(cs[..k], cs[k..]);
    if k < |cs| {
      assert Concat(cs[k..]) == cs[k] + Concat(cs[k + 1..]) by { assert cs[k..][1..] == cs[k + 1..]; }
      assert |Concat(cs[k..])| > 0;
      assert |file| == |Concat(cs[..k])| + |Concat(cs[k..])|;
    } else {
      assert cs[..k] == cs;
    }
  }

  lemma SentPrefix(engine: Engine, file: Bytes, n: nat)
    requires 0 < n <= |Chunks(file)| + 1
    ensures n <= |SentFrames(engine, file)|
    ensures SentFrames(engine, file)[..n] == [InitFrame(file)] + DataFrames(Chunks(file)[..n - 1])
  {
  }

  /** Every chunk has arrived, no limit was exceeded, and the eof has not been sent. */
  predicate StopsInTime(file: Bytes, limit: Option<int>, n: nat) {
    (n == |Chunks(file)| + 1 || (n == 0 && file == [])) && !(file != [] && Refused(limit, |Chunks(file)|))
  }

  /** For every cut of the sender's own frames, and none: exactly when the file is left on disk. */
  lemma FileIsLeftIff(engine: Engine, file: Bytes, limit: Option<int>, n: nat, ending: Ending)
    requires engine.ReadsOwnInit() && n <= |SentFrames(engine, file)|
    ensures Receive(engine, None, limit, SentFrames(engine, file)[..n], ending).disk == Some(file)
            <==> StopsInTime(file, limit, n)
  {
    ChunksCutTheFile(file);
    if n == 0 {
      assert SentFrames(engine, file)[..n] == [];
    } else if n <= |Chunks(file)| + 1 {
      SentPrefix(engine, file, n);
      CutTransfer(engine, file, limit, n - 1, ending);
      FewerChunksAreLess(file, n - 1);
    } else {
      assert SentFrames(engine, file)[..n] == SentFrames(engine, file);
      OwnTransferNeverLeavesTheFile(engine, file, limit, ending);
    }
  }

  // ---------------------------------------------------------------- inbound limit

  /** How many frames after the init one add to `transfer_size` if no limit is set. */
  function Counted(header: Header, frames: seq<Frame>): nat {
    if frames == [] || IsErrorFrame(frames[0]) || IsEofFrame(frames[0]) then 0
    else if frames[0].Text? || !header.CanReport() then 1
    else 1 + Counted(header, frames[1..])
  }

  /** For any peer: a transfer is refused exactly when the counted frames exceed the limit. */
  lemma {:induction false} RefusedExactlyOverTheLimit(engine: Engine, header: Header, limit: Option<int>, got: Bytes,
                                                      count: nat, frames: seq<Frame>, ending: Ending)
    requires count == 0 || !Refused(limit, count)
    ensures var r := Drain(engine, header, limit, got, count, frames, ending);
      && (r.closeCode == Some(1009) <==> Counted(header, frames) > 0 && Refused(limit, count + Counted(header, frames)))
      && (r.closeCode == Some(1009) ==> !r.ok && r.disk.None?)
    decreases |frames|
  {
    if frames != [] && !IsErrorFrame(frames[0]) && !IsEofFrame(frames[0]) && !Refused(limit, count + 1)
       && frames[0].Binary? && header.CanReport()
    {
      RefusedExactlyOverTheLimit(engine, header, limit, got + frames[0].bytes, count + 1, frames[1..], ending);
    }
  }

  lemma TransferRefusedIff(engine: Engine, limit: Option<int>, frames: seq<Frame>, ending: Ending)
    ensures Receive(engine, None, limit, frames, ending).closeCode == Some(1009) <==>
      && frames != [] && frames[0].Binary? && engine.loadsInit(frames[0].bytes).Some?
      && var n := Counted(engine.loadsInit(frames[0].bytes).value, frames[1..]);
         n > 0 && Refused(limit, n)
  {
    if frames != [] && frames[0].Binary? && engine.loadsInit(frames[0].bytes).Some? {
      RefusedExactlyOverTheLimit(engine, engine.loadsInit(frames[0].bytes).value, limit, [], 0, frames[1..], ending);
    }
  }

  predicate AllBinary(frames: seq<Frame>) { forall i | 0 <= i < |frames| :: frames[i].Binary? }

  /** The bytes carried by a run of binary frames. */
  function Payload(frames: seq<Frame>): Bytes
    requires AllBinary(frames)
  {
    if frames == [] then [] else frames[0].bytes + Payload(frames[1..])
  }

  lemma {:induction false} PayloadSize(frames: seq<Frame>, max: nat)
    requires AllBinary(frames) && forall i | 0 <= i < |frames| :: |frames[i].bytes| <= max
    ensures |Payload(frames)| <= |frames| * max
    decreases |frames|
  {
    if frames != [] {
      PayloadSize(frames[1..], max);
      assert |frames| * max == max + (|frames| - 1) * max;
    }
  }

  /** For any peer: `k` data frames are accepted, all binary and counted from the start; times the
      chunk size they are within the limit, and their payloads are exactly what is on disk. */
  lemma {:induction false} AcceptedFramesStayWithinTheLimit(engine: Engine, header: Header, limit: Option<int>,
                                                            got: Bytes, count: nat, frames: seq<Frame>, ending: Ending)
    returns (k: nat)
    requires count == 0 || !Refused(limit, count)
    ensures k <= |frames| && AllBinary(frames[..k]) && (count + k == 0 || !Refused(limit, count + k))
    ensures var r := Drain(engine, header, limit, got, count, frames, ending);
      r.disk.Some? ==> r.disk.value == got + Payload(frames[..k])
    decreases |frames|
  {
    k := 0;
    if frames != [] && !IsErrorFrame(frames[0]) && !IsEofFrame(frames[0]) && !Refused(limit, count + 1)
       && frames[0].Binary?
    {
      var bytes, rest := frames[0].bytes, 0;
      if header.CanReport() {
        rest := AcceptedFramesStayWithinTheLimit(engine, header, limit, got + bytes, count + 1, frames[1..], ending);
      }
      k := 1 + rest;
      PayloadOfFirst(frames, k);
      assert got + bytes + Payload(frames[1..][..rest]) == got + (bytes + Payload(frames[1..][..rest]));
    } else {
      assert got + Payload(frames[..0]) == got;
    }
  }

  lemma PayloadOfFirst(frames: seq<Frame>, k: nat)
    requires 0 < k <= |frames| && frames[0].Binary? && AllBinary(frames[1..][..k - 1])
    ensures AllBinary(frames[..k]) && Payload(frames[..k]) == frames[0].bytes + Payload(frames[1..][..k - 1])
  {
    assert frames[..k] == [frames[0]] + frames[1..][..k - 1];
    assert frames[..k][1..] == frames[1..][..k - 1];
  }

  /** Bytes kept are within the limit for the sender's own frames, and within 5/4 of it under the
      server's maximum frame size. */
  lemma BytesStayWithinTheLimit(engine: Engine, limit: nat, frames: seq<Frame>, ending: Ending, max: nat)
    requires max == CHUNK_SIZE || 4 * max == 5 * CHUNK_SIZE
    requires forall f <- frames | f.Binary? :: |f.bytes| <= max
    ensures var r := Receive(engine, None, Some(limit), frames, ending);
      r.disk.Some? ==> if max == CHUNK_SIZE then |r.disk.value| <= limit else 4 * |r.disk.value| <= 5 * limit
  {
    if frames != [] && frames[0].Binary? && engine.loadsInit(frames[0].bytes).Some? {
      var header, data := engine.loadsInit(frames[0].bytes).value, frames[1..];
      var k := AcceptedFramesStayWithinTheLimit(engine, header, Some(limit), [], 0, data, ending);
      if Drain(engine, header, Some(limit), [], 0, data, ending).disk.Some? {
        forall i | 0 <= i < k ensures |data[..k][i].bytes| <= max { assert data[i] in frames; }
        PayloadSize(data[..k], max);
        assert [] + Payload(data[..k]) == Payload(data[..k]);
      }
    }
  }
}
