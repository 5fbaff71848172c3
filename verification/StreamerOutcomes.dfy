/** When a transfer is answered with success, for any peer, and what the messages say. */
module StreamerOutcomes {
  import opened Prelude
  import opened Text
  import opened Streamer

  // ---------------------------------------------------------------- existing targets

  /** A target that exists is kept as it is, whatever the peer sends, and the transfer is refused. */
  lemma ExistingTargetIsKept(engine: Engine, target: Option<Bytes>, limit: Option<int>, frames: seq<Frame>,
                             ending: Ending)
    requires target.Some?
    ensures var r := Receive(engine, target, limit, frames, ending);
      r.disk == target && !r.ok && r.closeCode == Some(3003)
  {
  }

  // ---------------------------------------------------------------- success

  /** The data end well after `k` frames: all of them binary, within the limit and with a header whose
      chunk count can be divided by, and then the peer closes cleanly or sends a readable eof. */
  predicate EndsWellAt(engine: Engine, header: Header, limit: Option<int>, count: nat, frames: seq<Frame>,
                       ending: Ending, k: nat)
  {
    && k <= |frames| && (forall i | 0 <= i < k :: frames[i].Binary?)
    && (k > 0 ==> header.numChunks.Some? && header.numChunks.value != 0)
    && (k > 0 && limit.Some? ==> (count + k) * CHUNK_SIZE <= limit.value)
    && if k == |frames| then ending.CleanClose?
       else frames[k].Text? && "{\"type\":\"eof\"" <= frames[k].text && engine.loadsHash(frames[k].text).Some?
  }

  /** The bytes of the first `k` frames. */
  function BytesOf(frames: seq<Frame>, k: nat): Bytes
    requires k <= |frames| && forall i | 0 <= i < k :: frames[i].Binary?
  {
    if k == 0 then [] else BytesOf(frames, k - 1) + frames[k - 1].bytes
  }

  lemma {:induction false} BytesOfFirst(frames: seq<Frame>, k: nat)
    requires 0 < k <= |frames| && forall i | 0 <= i < k :: frames[i].Binary?
    ensures BytesOf(frames, k) == frames[0].bytes + BytesOf(frames[1..], k - 1)
  {
    if k > 1 {
      BytesOfFirst(frames, k - 1);
      assert frames[1..][k - 2] == frames[k - 1];
    } else {
      assert BytesOf(frames, 0) == [] && BytesOf(frames[1..], 0) == [];
    }
  }

  lemma WithinEarlier(limit: int, a: nat, b: nat)
    requires a <= b && b * CHUNK_SIZE <= limit
    ensures a * CHUNK_SIZE <= limit
  {
  }

  lemma EofIsNoError(text: string)
    requires "{\"type\":\"eof\"" <= text
    ensures !("{\"type\":\"error\"" <= text)
  {
    assert text[10] == "{\"type\":\"eof\""[10] == 'o';
    assert "{\"type\":\"error\""[10] == 'r';
  }

  lemma EndsWellLater(engine: Engine, header: Header, limit: Option<int>, count: nat, frames: seq<Frame>,
                      ending: Ending, k: nat)
    requires k > 0 && frames != []
    ensures EndsWellAt(engine, header, limit, count, frames, ending, k) ==>
      frames[0].Binary? && EndsWellAt(engine, header, limit, count + 1, frames[1..], ending, k - 1)
    ensures frames[0].Binary? && header.CanReport() && !Refused(limit, count + 1) ==>
      EndsWellAt(engine, header, limit, count + 1, frames[1..], ending, k - 1) ==>
      EndsWellAt(engine, header, limit, count, frames, ending, k)
  {
    assert forall i | 0 < i < |frames| :: frames[1..][i - 1] == frames[i];
    assert forall i | 0 <= i < |frames| - 1 :: frames[1..][i] == frames[i + 1];
  }

  /** If the data end well somewhere the answer is success, and the bytes before that are the file,
      unless an eof with another digest takes it away. */
  lemma {:induction false} DrainSucceeds(engine: Engine, header: Header, limit: Option<int>, got: Bytes, count: nat,
                                         frames: seq<Frame>, ending: Ending, k: nat)
    requires EndsWellAt(engine, header, limit, count, frames, ending, k)
    ensures var all := got + BytesOf(frames, k);
      var corrupted := k < |frames| && engine.loadsHash(frames[k].text).value != engine.digest(all);
      Drain(engine, header, limit, got, count, frames, ending)
      == Outcome(true, if corrupted then None else Some(all), None)
    decreases |frames|
  {
    if k == 0 {
      assert got + BytesOf(frames, 0) == got;
      if frames != [] {
        EofIsNoError(frames[0].text);
      }
    } else {
      var bytes := frames[0].bytes;
      EndsWellLater(engine, header, limit, count, frames, ending, k);
      if limit.Some? {
        WithinEarlier(limit.value, count + 1, count + k);
      }
      DrainSucceeds(engine, header, limit, got + bytes, count + 1, frames[1..], ending, k - 1);
      BytesOfFirst(frames, k);
      assert got + bytes + BytesOf(frames[1..], k - 1) == got + BytesOf(frames, k);
    }
  }

  /** And only then. */
  lemma {:induction false} SuccessEndsWell(engine: Engine, header: Header, limit: Option<int>, got: Bytes, count: nat,
                                           frames: seq<Frame>, ending: Ending) returns (k: nat)
    requires Drain(engine, header, limit, got, count, frames, ending).ok
    ensures EndsWellAt(engine, header, limit, count, frames, ending, k)
    decreases |frames|
  {
    k := 0;
    if frames != [] && !IsEofFrame(frames[0]) {
      var rest := SuccessEndsWell(engine, header, limit, got + frames[0].bytes, count + 1, frames[1..], ending);
      k := rest + 1;
      EndsWellLater(engine, header, limit, count, frames, ending, k);
    }
  }

  /** The init message can be read. */
  predicate HasInit(engine: Engine, frames: seq<Frame>) {
    frames != [] && frames[0].Binary? && engine.loadsInit(frames[0].bytes).Some?
  }

  /** For any peer, limit and ending, the receiver answers success exactly if the target is new and
      either nothing comes before a clean close, or a readable init comes and data that end well. */
  lemma SucceedsIff(engine: Engine, target: Option<Bytes>, limit: Option<int>, frames: seq<Frame>, ending: Ending)
    ensures Receive(engine, target, limit, frames, ending).ok <==>
      && target.None?
      && if frames == [] then ending.CleanClose?
         else HasInit(engine, frames) && exists k: nat ::
           EndsWellAt(engine, engine.loadsInit(frames[0].bytes).value, limit, 0, frames[1..], ending, k)
  {
    if target.None? && HasInit(engine, frames) {
      var header := engine.loadsInit(frames[0].bytes).value;
      if k: nat :| EndsWellAt(engine, header, limit, 0, frames[1..], ending, k) {
        DrainSucceeds(engine, header, limit, [], 0, frames[1..], ending, k);
      }
      if Drain(engine, header, limit, [], 0, frames[1..], ending).ok {
        var k := SuccessEndsWell(engine, header, limit, [], 0, frames[1..], ending);
      }
    }
  }

  lemma {:induction false} DrainCodes(engine: Engine, header: Header, limit: Option<int>, got: Bytes, count: nat,
                                      frames: seq<Frame>, ending: Ending)
    ensures var r := Drain(engine, header, limit, got, count, frames, ending);
      && (r.ok <==> r.closeCode == None) && (!r.ok ==> r.closeCode == Some(1009) || r.closeCode == Some(1011))
      && (r.closeCode == Some(1009) ==> r.disk == None) && (r.closeCode == Some(1011) ==> r.disk.Some?)
    decreases |frames|
  {
    if frames != [] && frames[0].Binary? {
      DrainCodes(engine, header, limit, got + frames[0].bytes, count + 1, frames[1..], ending);
    }
  }

  /** The socket is closed with a code exactly on a failure: 3003 for an existing target, 1009 over the
      limit, which alone removes what was received, and 1011 for everything else. */
  lemma CodesClassifyFailures(engine: Engine, target: Option<Bytes>, limit: Option<int>, frames: seq<Frame>,
                              ending: Ending)
    ensures var r := Receive(engine, target, limit, frames, ending);
      && (r.ok <==> r.closeCode == None)
      && (!r.ok ==> r.closeCode == Some(3003) || r.closeCode == Some(1009) || r.closeCode == Some(1011))
      && (r.closeCode == Some(3003) <==> target.Some?)
      && (!r.ok ==> (r.disk == None <==> r.closeCode == Some(1009)))
  {
    if target.None? && HasInit(engine, frames) {
      DrainCodes(engine, engine.loadsInit(frames[0].bytes).value, limit, [], 0, frames[1..], ending);
    } else if target.None? && frames == [] {
      DrainCodes(engine, Header(None), limit, [], 0, [], ending);
    }
  }

  // ---------------------------------------------------------------- messages

  lemma {:induction false} DecimalHasNo(n: nat, c: char)
    requires !IsDigit(c)
    ensures c !in Decimal(n)
  {
    assert AllDigits(Decimal(n));
  }

  lemma ThreeMembers(a: string, b: string, c: string)
    requires ',' !in a && ',' !in b && ',' !in c
    ensures Split(a + [','] + (b + [','] + c), ',') == [a, b, c]
  {
    SplitCons(a, ',', b + [','] + c);
    SplitCons(b, ',', c);
    SplitAtom(c, ',');
  }

  lemma InitInThree(chunks: string, size: string)
    ensures INIT_CHUNKS + chunks + INIT_SIZE + size + "}"
         == "{\"type\": \"init\"" + [','] + ((" \"num_chunks\": " + chunks) + [','] + (" \"file_size\": " + size + "}"))
  {
    assert INIT_CHUNKS == "{\"type\": \"init\"" + [','] + " \"num_chunks\": ";
    assert INIT_SIZE == [','] + " \"file_size\": ";
  }

  /** The members of the init object: its type, the number of chunks, and then the size of the file. */
  lemma InitNamesItsNumbers(numChunks: nat, fileSize: nat)
    ensures Split(InitText(numChunks, fileSize), ',')
         == ["{\"type\": \"init\"", " \"num_chunks\": " + Decimal(numChunks),
             " \"file_size\": " + Decimal(fileSize) + "}"]
  {
    var chunks, size := Decimal(numChunks), Decimal(fileSize);
    DecimalHasNo(numChunks, ',');
    DecimalHasNo(fileSize, ',');
    InitInThree(chunks, size);
    ThreeMembers("{\"type\": \"init\"", " \"num_chunks\": " + chunks, " \"file_size\": " + size + "}");
  }

  lemma EofInTwo(hash: string)
    ensures EOF_HASH + hash + "\"}" == "{\"type\": \"eof\"" + [','] + (" \"sha256_hash\": \"" + hash + "\"}")
  {
    assert EOF_HASH == "{\"type\": \"eof\"" + [','] + " \"sha256_hash\": \"";
  }

  lemma HexHasNoComma(hash: Hex)
    ensures ',' !in hash
  {
    assert forall i | 0 <= i < |hash| :: IsHexDigit(hash[i]);
  }

  lemma TwoMembers(a: string, b: string)
    requires ',' !in a && ',' !in b
    ensures Split(a + [','] + b, ',') == [a, b]
  {
    SplitCons(a, ',', b);
    SplitAtom(b, ',');
  }

  /** The members of the eof object: its type and the digest. */
  lemma EofCarriesTheDigest(hash: Hex)
    ensures Split(EofText(hash), ',') == ["{\"type\": \"eof\"", " \"sha256_hash\": \"" + hash + "\"}"]
  {
    HexHasNoComma(hash);
    EofInTwo(hash);
    TwoMembers("{\"type\": \"eof\"", " \"sha256_hash\": \"" + hash + "\"}");
  }

  /** The sender announces the chunks it sends and the size of the file. */
  lemma InitAnnouncesTheFile(engine: Engine, file: Bytes)
    ensures SentFrames(engine, file)[0] == Binary(ToBytes(InitText(|Chunks(file)|, |file|)))
  {
    ChunksCutTheFile(file);
  }

  /** The sender's eof comes last and carries the digest of the whole file, and even as a text frame it
      would not be recognised: the receiver expects no blank after the first colon. */
  lemma OwnEofIsLastAndUnrecognised(engine: Engine, file: Bytes)
    ensures var sent := SentFrames(engine, file);
      |sent| >= 2 && sent[|sent| - 1] == Binary(ToBytes(EofText(engine.digest(file))))
    ensures !IsEofFrame(Text(EofText(engine.digest(file))))
    ensures IsEofFrame(Text("{\"type\":\"eof\",\"sha256_hash\":\"" + engine.digest(file) + "\"}"))
  {
    assert EOF_HASH[8] == ' ' && "{\"type\":\"eof\""[8] == '\"';
    assert EofText(engine.digest(file))[8] == EOF_HASH[8];
    var compact := "{\"type\":\"eof\",\"sha256_hash\":\"";
    assert "{\"type\":\"eof\"" <= compact;
  }
}
