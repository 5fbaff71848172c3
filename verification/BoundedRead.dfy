/** Remote commands with a bounded output, and the file view built on one.

    `dd`'s behaviour on a regular file and the text decoder are the environment. The decoder is a
    parameter: ASCII results need only that it maps ASCII bytes one for one, results about other
    text that it undoes UTF-8 encoding and never decodes some bytes to nothing. */
module BoundedRead {
  import opened Prelude
  import Utf8

  datatype Failure = BadRequest | OutputLimitExceeded

  // ---------------------------------------------------------------- SSHClient.execute

  /** `_read_limit`: the first `limit` bytes, or all there are. */
  function ReadLimit(stream: Bytes, limit: nat): Bytes {
    if |stream| <= limit then stream else stream[..limit]
  }

  datatype Streams = Streams(stdout: Bytes, stderr: Bytes)

  /** `execute` up to the call of `parse_output`: both streams are cut at the limit, and either
      one reaching it is an error. */
  function Execute(out: Streams, limit: nat): (r: Result<Streams, Failure>)
    ensures r == if |out.stdout| >= limit || |out.stderr| >= limit then Err(OutputLimitExceeded) else Ok(out)
  {
    var stdout, stderr := ReadLimit(out.stdout, limit), ReadLimit(out.stderr, limit);
    if |stdout| >= limit || |stderr| >= limit then Err(OutputLimitExceeded) else Ok(Streams(stdout, stderr))
  }

  // ---------------------------------------------------------------- DdCommand

  datatype DdCommand = DdCommand(size: nat, offset: nat, skip: nat)

  function MakeDd(size: Option<int>, offset: Option<nat>, sizeLimit: nat): DdCommand
    requires sizeLimit > 0 && (size.Some? ==> size.value > 0)
  {
    var bs: nat := if size.None? || size.value > sizeLimit then sizeLimit else size.value;
    if offset.None? then DdCommand(bs, 0, 0) else DdCommand(bs, offset.value, offset.value / bs)
  }

  /** A missing size and one over the limit are the limit, and a missing offset is the start of the file. */
  lemma MissingArguments(size: Option<int>, offset: Option<nat>, sizeLimit: nat)
    requires sizeLimit > 0 && (size.Some? ==> size.value > 0)
    ensures MakeDd(None, offset, sizeLimit) == MakeDd(Some(sizeLimit), offset, sizeLimit)
    ensures size.Some? && size.value > sizeLimit ==> MakeDd(size, offset, sizeLimit) == MakeDd(None, offset, sizeLimit)
    ensures MakeDd(size, offset, sizeLimit).size <= sizeLimit
    ensures MakeDd(size, None, sizeLimit) == MakeDd(size, Some(0), sizeLimit)
  {
    ZeroQuotient(MakeDd(size, None, sizeLimit).size);
  }

  lemma ZeroQuotient(n: nat)
    requires n > 0
    ensures 0 / n == 0
  {
  }

  /** `dd bs=.. skip=.. count=2`: two blocks starting at block `skip`, as far as the file goes. */
  function DdOutput(file: Bytes, cmd: DdCommand): Bytes {
    Slice(file, cmd.skip * cmd.size, cmd.skip * cmd.size + 2 * cmd.size)
  }

  /** Python's slice `s[i : j]` for `0 <= i <= j`. */
  function Slice<T>(s: seq<T>, i: nat, j: nat): seq<T> {
    if i >= |s| then [] else s[i..Min(Max(i, j), |s|)]
  }

  /** A decoder that agrees with one byte per character on ASCII input. */
  ghost predicate DecodesAscii(decode: Bytes -> string) {
    forall b: Bytes {:trigger decode(b)} | IsAsciiBytes(b) :: decode(b) == ToText(b)
  }

  function ParseDd(cmd: DdCommand, stdout: string): string
    requires cmd.size > 0
  {
    var i := cmd.offset % cmd.size;
    Slice(stdout, i, i + cmd.size)
  }

  // ---------------------------------------------------------------- get_view

  /** The endpoint: guards, command, bounded execution, window. `stderr` is what dd prints there. */
  function View(file: Bytes, offset: int, size: int, limit: nat, stderr: Bytes, decode: Bytes -> string)
    : Result<string, Failure>
  {
    if offset < 0 then Err(BadRequest)
    else if size <= 0 then Err(BadRequest)
    else if size > limit then Err(BadRequest)
    else
      var cmd := MakeDd(Some(size), Some(offset), limit);
      match Execute(Streams(DdOutput(file, cmd), stderr), limit)
      case Err(e) => Err(e)
      case Ok(out) => Ok(ParseDd(cmd, decode(out.stdout)))
  }

  /** How many bytes the two blocks around the offset hold. */
  function BlockBytes(n: nat, offset: nat, size: nat): nat
    requires size > 0
  {
    Min(2 * size, Max(0, n - offset / size * size))
  }

  /** A window of a window of the file is a window of the file. */
  lemma WindowOfWindow<T>(file: seq<T>, start: nat, width: nat, i: nat, size: nat)
    requires i + size <= width
    ensures Slice(Slice(file, start, start + width), i, i + size) == Slice(file, start + i, start + i + size)
  {
    if start + i < |file| {
      var end := Min(start + width, |file|);
      assert Slice(file, start, start + width) == file[start..end];
      var k := Min(i + size, end - start);
      assert file[start..end][i..k] == file[start + i..start + k];
    }
  }

  lemma BlockStart(offset: nat, size: nat)
    requires size > 0
    ensures 0 <= offset / size * size && offset / size * size + offset % size == offset
  {
  }

  lemma TextSlice(b: Bytes, i: nat, j: nat)
    requires IsAsciiBytes(b)
    ensures IsAsciiBytes(Slice(b, i, j)) && Slice(ToText(b), i, j) == ToText(Slice(b, i, j))
  {
  }

  /** The two blocks dd reads for a window. */
  function TwoBlocks(file: Bytes, offset: nat, size: nat): Bytes
    requires size > 0
  {
    Slice(file, offset / size * size, offset / size * size + 2 * size)
  }

  lemma WindowOfBlocks(file: Bytes, offset: nat, size: nat)
    requires size > 0
    ensures Slice(TwoBlocks(file, offset, size), offset % size, offset % size + size)
         == Slice(file, offset, offset + size)
  {
    BlockStart(offset, size);
    WindowOfWindow(file, offset / size * size, 2 * size, offset % size, size);
  }

  lemma ViewUnfolds(file: Bytes, offset: nat, size: nat, limit: nat, stderr: Bytes, decode: Bytes -> string)
    requires 0 < size <= limit
    ensures var two := TwoBlocks(file, offset, size);
      View(file, offset, size, limit, stderr, decode)
      == if |two| >= limit || |stderr| >= limit then Err(OutputLimitExceeded)
         else Ok(Slice(decode(two), offset % size, offset % size + size))
  {
    var cmd := MakeDd(Some(size), Some(offset), limit);
    assert DdOutput(file, cmd) == TwoBlocks(file, offset, size);
  }

  /** For every file: the limit error exactly when the two-block read (or dd's own messages)
      reaches the limit, never a truncated window; otherwise the window of the decoded blocks,
      which on ASCII blocks is the slice of the file that was asked for. */
  lemma ViewIsTheSlice(file: Bytes, offset: nat, size: nat, limit: nat, stderr: Bytes, decode: Bytes -> string)
    requires 0 < size <= limit
    ensures var two, i := TwoBlocks(file, offset, size), offset % size;
      && View(file, offset, size, limit, stderr, decode)
         == (if BlockBytes(|file|, offset, size) >= limit || |stderr| >= limit then Err(OutputLimitExceeded)
             else Ok(Slice(decode(two), i, i + size)))
      && (DecodesAscii(decode) && IsAsciiBytes(two) ==>
          IsAsciiBytes(Slice(file, offset, offset + size))
          && Slice(decode(two), i, i + size) == ToText(Slice(file, offset, offset + size)))
  {
    ViewUnfolds(file, offset, size, limit, stderr, decode);
    assert |TwoBlocks(file, offset, size)| == BlockBytes(|file|, offset, size);
    if DecodesAscii(decode) && IsAsciiBytes(TwoBlocks(file, offset, size)) {
      AsciiWindow(file, offset, size, decode);
    }
  }

  lemma AsciiWindow(file: Bytes, offset: nat, size: nat, decode: Bytes -> string)
    requires size > 0 && DecodesAscii(decode) && IsAsciiBytes(TwoBlocks(file, offset, size))
    ensures IsAsciiBytes(Slice(file, offset, offset + size))
    ensures Slice(decode(TwoBlocks(file, offset, size)), offset % size, offset % size + size)
         == ToText(Slice(file, offset, offset + size))
  {
    var two, i := TwoBlocks(file, offset, size), offset % size;
    assert Slice(two, i, i + size) == Slice(file, offset, offset + size) by { WindowOfBlocks(file, offset, size); }
    TextSlice(two, i, i + size);
    assert decode(two) == ToText(two);
  }

  predicate IsWindow(file: Bytes, o: nat, size: nat, shown: Result<string, Failure>) {
    IsAsciiBytes(Slice(file, o, o + size)) && shown == Ok(ToText(Slice(file, o, o + size)))
  }

  lemma TwoBlocksAreAscii(file: Bytes, offset: nat, size: nat)
    requires size > 0 && IsAsciiBytes(file)
    ensures IsAsciiBytes(TwoBlocks(file, offset, size))
  {
    BlockStart(offset, size);
    TextSlice(file, offset / size * size, offset / size * size + 2 * size);
  }

  lemma AsciiView(file: Bytes, offset: nat, size: nat, limit: nat, stderr: Bytes, decode: Bytes -> string)
    requires 0 < size <= limit && IsAsciiBytes(file) && DecodesAscii(decode)
    requires |stderr| < limit && (|file| < limit || 2 * size < limit)
    ensures IsWindow(file, offset, size, View(file, offset, size, limit, stderr, decode))
  {
    TwoBlocksAreAscii(file, offset, size);
    ViewUnfolds(file, offset, size, limit, stderr, decode);
    AsciiWindow(file, offset, size, decode);
  }

  // ---------------------------------------------------------------- text that is not ASCII

  /** The reply is the requested bytes of the file. */
  predicate IsWindowReply(file: Bytes, offset: nat, size: nat, reply: Result<string, Failure>) {
    reply.Ok? && Utf8.Encode(reply.value) == Slice(file, offset, offset + size)
  }

  predicate ShowsWindow(file: Bytes, offset: nat, size: nat, limit: nat, stderr: Bytes, decode: Bytes -> string) {
    IsWindowReply(file, offset, size, View(file, offset, size, limit, stderr, decode))
  }

  predicate NeverMisleads(file: Bytes, offset: nat, size: nat, limit: nat, stderr: Bytes, decode: Bytes -> string) {
    var reply := View(file, offset, size, limit, stderr, decode);
    reply.Ok? ==> IsWindowReply(file, offset, size, reply)
  }

  /** Every view of a size that always succeeds is the requested window. */
  ghost predicate ShowsEveryWindow(file: Bytes, limit: nat, stderr: Bytes, decode: Bytes -> string) {
    forall offset: nat, size: nat | 0 < size && 2 * size < limit ::
      ShowsWindow(file, offset, size, limit, stderr, decode)
  }

  /** Every view of any size that succeeds is the requested window. */
  ghost predicate AlwaysHonest(file: Bytes, limit: nat, stderr: Bytes, decode: Bytes -> string) {
    forall offset: nat, size: nat | 0 < size <= limit :: NeverMisleads(file, offset, size, limit, stderr, decode)
  }

  lemma AsciiIsHonest(file: Bytes, offset: nat, size: nat, limit: nat, stderr: Bytes, decode: Bytes -> string)
    requires Utf8.IsDecoder(decode) && IsAsciiBytes(file) && 0 < size <= limit
    ensures NeverMisleads(file, offset, size, limit, stderr, decode)
  {
    DecodersDecodeAscii(decode);
    TwoBlocksAreAscii(file, offset, size);
    ViewUnfolds(file, offset, size, limit, stderr, decode);
    AsciiWindow(file, offset, size, decode);
    Utf8.DecodedAscii(decode, Slice(file, offset, offset + size));
  }

  lemma AsciiShowsWindow(file: Bytes, offset: nat, size: nat, limit: nat, stderr: Bytes, decode: Bytes -> string)
    requires Utf8.IsDecoder(decode) && IsAsciiBytes(file) && 0 < size && 2 * size < limit && |stderr| < limit
    ensures ShowsWindow(file, offset, size, limit, stderr, decode)
  {
    SmallViewsSucceed(file, offset, size, limit, stderr, decode);
    AsciiIsHonest(file, offset, size, limit, stderr, decode);
  }

  lemma DecodersDecodeAscii(decode: Bytes -> string)
    requires Utf8.IsDecoder(decode)
    ensures DecodesAscii(decode)
  {
    forall b: Bytes {:trigger decode(b)} | IsAsciiBytes(b) ensures decode(b) == ToText(b) {
      Utf8.DecodedAscii(decode, b);
    }
  }

  lemma FirstBlocks(file: Bytes, size: nat)
    requires 0 < size && |file| <= 2 * size
    ensures TwoBlocks(file, 0, size) == file
  {
    BlockStart(0, size);
  }

  /** All but the last byte asked for: the characters fit in, and the whole text comes back. */
  lemma WholeTextForAWindow(t: string, limit: nat, stderr: Bytes, decode: Bytes -> string)
    requires Utf8.IsDecoder(decode) && !IsAsciiText(t) && |Utf8.Encode(t)| < limit && |stderr| < limit
    ensures |Utf8.Encode(t)| >= 2
    ensures View(Utf8.Encode(t), 0, |Utf8.Encode(t)| - 1, limit, stderr, decode) == Ok(t)
  {
    var file := Utf8.Encode(t);
    Utf8.EncodedLength(t);
    assert t != "";
    ViewUnfolds(file, 0, |file| - 1, limit, stderr, decode);
    FirstBlocks(file, |file| - 1);
    assert Slice(t, 0, |file| - 1) == t;
  }

  /** A view of one byte inside the file is one character. */
  lemma OneByteIsOneCharacter(file: Bytes, o: nat, limit: nat, stderr: Bytes, decode: Bytes -> string)
    requires Utf8.IsDecoder(decode) && o < |file| && 2 < limit && |stderr| < limit
    ensures var r := View(file, o, 1, limit, stderr, decode); r.Ok? && |r.value| == 1
  {
    SmallViewsSucceed(file, o, 1, limit, stderr, decode);
    assert o / 1 == o && o % 1 == 0;
    assert TwoBlocks(file, o, 1) == Slice(file, o, o + 2) && Slice(file, o, o + 2) != [];
    assert decode(TwoBlocks(file, o, 1)) != "";
  }

  /** It is the requested byte only if that byte is ASCII. */
  lemma OneByteIsAscii(file: Bytes, o: nat, limit: nat, stderr: Bytes, decode: Bytes -> string)
    requires Utf8.IsDecoder(decode) && o < |file| && 2 < limit && |stderr| < limit
    requires NeverMisleads(file, o, 1, limit, stderr, decode)
    ensures file[o] as int < 128
  {
    OneByteIsOneCharacter(file, o, limit, stderr, decode);
    var t := View(file, o, 1, limit, stderr, decode).value;
    assert Slice(file, o, o + 1) == [file[o]];
    Utf8.EncodedLength(t);
    Utf8.EncodedAscii(t);
    assert Utf8.Encode(t)[0] == file[o] && ToBytes(t)[0] as int == t[0] as int;
  }

  lemma HonestIsAscii(file: Bytes, limit: nat, stderr: Bytes, decode: Bytes -> string)
    requires Utf8.IsDecoder(decode) && 2 < limit && |stderr| < limit
    requires forall o: nat | o < |file| :: NeverMisleads(file, o, 1, limit, stderr, decode)
    ensures IsAsciiBytes(file)
  {
    forall o | 0 <= o < |file| ensures file[o] as int < 128 {
      OneByteIsAscii(file, o, limit, stderr, decode);
    }
  }

  /** The window of characters is the window of bytes, for all offsets and all sizes that always
      succeed, exactly for ASCII files. */
  lemma ViewsAreWindowsIff(file: Bytes, limit: nat, stderr: Bytes, decode: Bytes -> string)
    requires Utf8.IsDecoder(decode) && 2 < limit && |stderr| < limit
    ensures ShowsEveryWindow(file, limit, stderr, decode) <==> IsAsciiBytes(file)
  {
    if IsAsciiBytes(file) {
      forall offset: nat, size: nat | 0 < size && 2 * size < limit
        ensures ShowsWindow(file, offset, size, limit, stderr, decode)
      {
        AsciiShowsWindow(file, offset, size, limit, stderr, decode);
      }
    } else if ShowsEveryWindow(file, limit, stderr, decode) {
      forall o: nat | o < |file| ensures NeverMisleads(file, o, 1, limit, stderr, decode) {
        assert ShowsWindow(file, o, 1, limit, stderr, decode);
      }
      HonestIsAscii(file, limit, stderr, decode);
    }
  }

  /** With errors allowed, the same for all sizes the endpoint accepts. */
  lemma RepliesAreHonestIff(file: Bytes, limit: nat, stderr: Bytes, decode: Bytes -> string)
    requires Utf8.IsDecoder(decode) && 2 < limit && |stderr| < limit
    ensures AlwaysHonest(file, limit, stderr, decode) <==> IsAsciiBytes(file)
  {
    if IsAsciiBytes(file) {
      forall offset: nat, size: nat | 0 < size <= limit
        ensures NeverMisleads(file, offset, size, limit, stderr, decode)
      {
        AsciiIsHonest(file, offset, size, limit, stderr, decode);
      }
    } else if AlwaysHonest(file, limit, stderr, decode) {
      HonestIsAscii(file, limit, stderr, decode);
    }
  }

  /** The smallest instance: the first byte of a two-byte character brings both. */
  lemma MultiByteTextShiftsTheWindow(limit: nat, decode: Bytes -> string)
    requires limit > 2 && Utf8.IsDecoder(decode)
    ensures View([0xC3, 0xA9], 0, 1, limit, [], decode) == Ok(['\U{E9}'])
  {
    assert ['\U{E9}'][1..] == "" && Utf8.Encode("") == [];
    assert Utf8.Encode(['\U{E9}']) == [0xC3, 0xA9];
    WholeTextForAWindow(['\U{E9}'], limit, [], decode);
  }

  /** The guards, for the remaining inputs. */
  lemma ViewRejectsBadWindows(file: Bytes, offset: int, size: int, limit: nat, stderr: Bytes, decode: Bytes -> string)
    ensures View(file, offset, size, limit, stderr, decode) == Err(BadRequest) <==>
      offset < 0 || size <= 0 || size > limit
  {
  }

  /** Half the limit is always safe, whatever the file and the offset. */
  lemma SmallViewsSucceed(file: Bytes, offset: nat, size: nat, limit: nat, stderr: Bytes, decode: Bytes -> string)
    requires 0 < size && 2 * size < limit && |stderr| < limit
    ensures View(file, offset, size, limit, stderr, decode)
         == Ok(Slice(decode(TwoBlocks(file, offset, size)), offset % size, offset % size + size))
  {
    ViewIsTheSlice(file, offset, size, limit, stderr, decode);
  }

  /** Views of one size, by offset. */
  function Viewer(file: Bytes, size: nat, limit: nat, stderr: Bytes, decode: Bytes -> string)
    : nat -> Result<string, Failure>
  {
    (o: nat) => View(file, o, size, limit, stderr, decode)
  }

  /** The text of successive views, each starting where the one before it ended. */
  function SuccessiveViews(view: nat -> Result<string, Failure>, offset: nat, size: nat, count: nat)
    : Result<string, Failure>
    decreases count
  {
    if count == 0 then Ok("")
    else match (view(offset), SuccessiveViews(view, offset + size, size, count - 1))
      case (Ok(text), Ok(rest)) => Ok(text + rest)
      case (Ok(_), Err(e)) => Err(e)
      case (Err(e), _) => Err(e)
  }

  ghost predicate ShowsWindows(file: Bytes, view: nat -> Result<string, Failure>, size: nat) {
    forall o: nat :: IsWindow(file, o, size, view(o))
  }

  lemma SliceSplit<T>(s: seq<T>, offset: nat, size: nat)
    ensures Slice(s, offset, offset + size) + Slice(s, offset + size, |s|) == Slice(s, offset, |s|)
  {
  }

  lemma {:induction false} WindowsTile(file: Bytes, view: nat -> Result<string, Failure>, offset: nat, size: nat,
                                       count: nat)
    requires size > 0 && IsAsciiBytes(file) && |file| <= offset + count * size
    requires ShowsWindows(file, view, size)
    ensures IsAsciiBytes(Slice(file, offset, |file|))
    ensures SuccessiveViews(view, offset, size, count) == Ok(ToText(Slice(file, offset, |file|)))
    decreases count
  {
    if count == 0 {
      assert ToText([]) == "";
    } else {
      OneLess(|file|, offset, size, count);
      WindowsTile(file, view, offset + size, size, count - 1);
      OneMoreWindow(file, view, offset, size, count);
    }
  }

  lemma OneLess(n: nat, offset: nat, size: nat, count: nat)
    requires count > 0 && n <= offset + count * size
    ensures n <= offset + size + (count - 1) * size
  {
    assert count * size == size + (count - 1) * size;
  }

  lemma OneMoreWindow(file: Bytes, view: nat -> Result<string, Failure>, offset: nat, size: nat, count: nat)
    requires count > 0 && IsAsciiBytes(file) && ShowsWindows(file, view, size)
    requires IsAsciiBytes(Slice(file, offset + size, |file|))
    requires SuccessiveViews(view, offset + size, size, count - 1) == Ok(ToText(Slice(file, offset + size, |file|)))
    ensures IsAsciiBytes(Slice(file, offset, |file|))
    ensures SuccessiveViews(view, offset, size, count) == Ok(ToText(Slice(file, offset, |file|)))
  {
    assert IsWindow(file, offset, size, view(offset));
    SliceSplit(file, offset, size);
    TextOfConcat(Slice(file, offset, offset + size), Slice(file, offset + size, |file|));
  }

  /** Successive views of an ASCII file tile it: nothing is skipped and nothing is repeated. */
  lemma ViewsTileTheFile(file: Bytes, offset: nat, size: nat, limit: nat, stderr: Bytes, decode: Bytes -> string,
                         count: nat)
    requires 0 < size && 2 * size < limit && |stderr| < limit && IsAsciiBytes(file) && DecodesAscii(decode)
    requires offset <= |file| <= offset + count * size
    ensures SuccessiveViews(Viewer(file, size, limit, stderr, decode), offset, size, count)
         == Ok(ToText(file[offset..]))
  {
    var view := Viewer(file, size, limit, stderr, decode);
    forall o: nat ensures IsWindow(file, o, size, view(o)) {
      AsciiView(file, o, size, limit, stderr, decode);
    }
    WindowsTile(file, view, offset, size, count);
    assert Slice(file, offset, |file|) == file[offset..];
  }

  /** Views of one size from the start of the file on, up to its end, joined. */
  predicate Tiles(t: string, size: nat, limit: nat, stderr: Bytes, decode: Bytes -> string, count: nat) {
    SuccessiveViews(Viewer(Utf8.Encode(t), size, limit, stderr, decode), 0, size, count) == Ok(t)
  }

  ghost predicate AlwaysTiles(t: string, limit: nat, stderr: Bytes, decode: Bytes -> string) {
    forall size: nat, count: nat | 0 < size && 2 * size < limit && |Utf8.Encode(t)| <= count * size ::
      Tiles(t, size, limit, stderr, decode, count)
  }

  lemma AsciiTiles(t: string, size: nat, limit: nat, stderr: Bytes, decode: Bytes -> string, count: nat)
    requires Utf8.IsDecoder(decode) && IsAsciiText(t) && |stderr| < limit
    requires 0 < size && 2 * size < limit && |Utf8.Encode(t)| <= count * size
    ensures Tiles(t, size, limit, stderr, decode, count)
  {
    Utf8.EncodedAscii(t);
    DecodersDecodeAscii(decode);
    ViewsTileTheFile(ToBytes(t), 0, size, limit, stderr, decode, count);
    TextOfBytes(t);
    assert ToBytes(t)[0..] == ToBytes(t);
  }

  /** One-byte views of a file are as many characters as it has bytes. */
  lemma {:induction false} OneCharacterPerByte(file: Bytes, view: nat -> Result<string, Failure>, o: nat)
    requires o <= |file| && forall k: nat | k < |file| :: view(k).Ok? && |view(k).value| == 1
    ensures var r := SuccessiveViews(view, o, 1, |file| - o); r.Ok? && |r.value| == |file| - o
    decreases |file| - o
  {
    if o < |file| {
      OneCharacterPerByte(file, view, o + 1);
    }
  }

  lemma OtherTextIsRepeated(t: string, limit: nat, stderr: Bytes, decode: Bytes -> string)
    requires Utf8.IsDecoder(decode) && !IsAsciiText(t) && 2 < limit && |stderr| < limit
    ensures !Tiles(t, 1, limit, stderr, decode, |Utf8.Encode(t)|)
  {
    var file := Utf8.Encode(t);
    var view := Viewer(file, 1, limit, stderr, decode);
    forall k: nat | k < |file| ensures view(k).Ok? && |view(k).value| == 1 {
      OneByteIsOneCharacter(file, k, limit, stderr, decode);
    }
    OneCharacterPerByte(file, view, 0);
    Utf8.EncodedLength(t);
  }

  /** Views of any size that always succeeds put a text together again, however long it is, exactly
      if it is ASCII. */
  lemma ViewsTileIff(t: string, limit: nat, stderr: Bytes, decode: Bytes -> string)
    requires Utf8.IsDecoder(decode) && 2 < limit && |stderr| < limit
    ensures AlwaysTiles(t, limit, stderr, decode) <==> IsAsciiText(t)
  {
    if IsAsciiText(t) {
      forall size: nat, count: nat | 0 < size && 2 * size < limit && |Utf8.Encode(t)| <= count * size
        ensures Tiles(t, size, limit, stderr, decode, count)
      {
        AsciiTiles(t, size, limit, stderr, decode, count);
      }
    } else {
      OtherTextIsRepeated(t, limit, stderr, decode);
      assert |Utf8.Encode(t)| <= |Utf8.Encode(t)| * 1;
    }
  }
}
