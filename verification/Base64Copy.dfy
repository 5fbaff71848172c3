/** Small-file upload and download: base64 (RFC 4648, section 4) through the bounded command
    channel of `BoundedRead`. */
module Base64Copy {
  import opened Prelude
  import opened BoundedRead

  // ---------------------------------------------------------------- codec

  function Symbol(v: nat): (c: char)
    requires v < 64
    ensures c as int < 128 && c != '='
  {
    if v < 26 then (v + 'A' as int) as char
    else if v < 52 then (v - 26 + 'a' as int) as char
    else if v < 62 then (v - 52 + '0' as int) as char
    else if v == 62 then '+' else '/'
  }

  function ValueOf(c: char): (v: Option<nat>)
    ensures v.Some? ==> v.value < 64
  {
    if 'A' <= c <= 'Z' then Some(c as int - 'A' as int)
    else if 'a' <= c <= 'z' then Some(c as int - 'a' as int + 26)
    else if '0' <= c <= '9' then Some(c as int - '0' as int + 52)
    else if c == '+' then Some(62) else if c == '/' then Some(63) else None
  }

  lemma SymbolValue(v: nat)
    requires v < 64
    ensures ValueOf(Symbol(v)) == Some(v)
  {
  }

  const UPPER := "ABCDEFGHIJKLMNOPQRSTUVWXYZ"
  const LOWER := "abcdefghijklmnopqrstuvwxyz"
  const OTHER := "0123456789+/"

  /** Table 1 of RFC 4648. */
  function TableEntry(v: nat): char
    requires v < 64
  {
    if v < 26 then UPPER[v] else if v < 52 then LOWER[v - 26] else OTHER[v - 52]
  }

  lemma UpperSymbols(v: nat)
    requires v < 26
    ensures Symbol(v) == UPPER[v]
  {
  }

  lemma LowerSymbols(v: nat)
    requires v < 26
    ensures Symbol(26 + v) == LOWER[v]
  {
  }

  lemma OtherSymbols(v: nat)
    requires v < 12
    ensures Symbol(52 + v) == OTHER[v]
  {
  }

  lemma SymbolIsInTheTable(v: nat)
    requires v < 64
    ensures Symbol(v) == TableEntry(v)
  {
    if v < 26 {
      UpperSymbols(v);
    } else if v < 52 {
      LowerSymbols(v - 26);
    } else {
      OtherSymbols(v - 52);
    }
  }

  function Encode(b: Bytes): (s: string)
    ensures IsAsciiText(s)
    ensures |s| == 4 * ((|b| + 2) / 3)
  {
    if b == [] then ""
    else if |b| == 1 then Sextets(b[0] as int, 0, 0)[..2] + "=="
    else if |b| == 2 then Sextets(b[0] as int, b[1] as int, 0)[..3] + "="
    else
      var head, tail := Sextets(b[0] as int, b[1] as int, b[2] as int), Encode(b[3..]);
      assert |tail| == 4 * ((|b| - 1) / 3);
      head + tail
  }

  function Sextets(x: nat, y: nat, z: nat): (s: string)
    requires x < 256 && y < 256 && z < 256
    ensures |s| == 4 && IsAsciiText(s)
  {
    [Symbol(x / 4), Symbol(x % 4 * 16 + y / 16), Symbol(y % 16 * 4 + z / 64), Symbol(z % 64)]
  }

  function Decode(s: string): Option<Bytes> {
    if s == "" then Some([])
    else if |s| < 4 || ValueOf(s[0]).None? || ValueOf(s[1]).None? then None
    else
      var p, q := ValueOf(s[0]).value, ValueOf(s[1]).value;
      var x := (p * 4 + q / 16) as Byte;
      if s[2..] == "==" then Some([x])
      else if ValueOf(s[2]).None? then None
      else
        var r := ValueOf(s[2]).value;
        var y := (q % 16 * 16 + r / 4) as Byte;
        if s[3..] == "=" then Some([x, y])
        else if ValueOf(s[3]).None? then None
        else
          var z := (r % 4 * 64 + ValueOf(s[3]).value) as Byte;
          match Decode(s[4..])
          case None => None
          case Some(rest) => Some([x, y, z] + rest)
  }

  /** Four sextets hold three octets. */
  lemma SextetValues(x: nat, y: nat, z: nat)
    requires x < 256 && y < 256 && z < 256
    ensures var s := Sextets(x, y, z);
      && (forall i | 0 <= i < 4 :: ValueOf(s[i]).Some? && s[i] != '=')
      && var p, q, r, t := ValueOf(s[0]).value, ValueOf(s[1]).value, ValueOf(s[2]).value, ValueOf(s[3]).value;
         p * 4 + q / 16 == x && q % 16 * 16 + r / 4 == y && r % 4 * 64 + t == z
  {
    SymbolValue(x / 4);
    SymbolValue(x % 4 * 16 + y / 16);
    SymbolValue(y % 16 * 4 + z / 64);
    SymbolValue(z % 64);
  }

  lemma DecodeThree(x: Byte, y: Byte, z: Byte, rest: string)
    requires Decode(rest).Some?
    ensures Decode(Sextets(x as int, y as int, z as int) + rest) == Some([x, y, z] + Decode(rest).value)
  {
    SextetValues(x as int, y as int, z as int);
    var s := Sextets(x as int, y as int, z as int) + rest;
    assert s[4..] == rest && s[2..][0] != '=' && s[3..][0] != '=';
  }

  lemma DecodeTwo(x: Byte, y: Byte)
    ensures Decode(Sextets(x as int, y as int, 0)[..3] + "=") == Some([x, y])
  {
    SextetValues(x as int, y as int, 0);
    var s := Sextets(x as int, y as int, 0)[..3] + "=";
    assert s[3..] == "=" && s[2..][0] != '=';
  }

  lemma DecodeOne(x: Byte)
    ensures Decode(Sextets(x as int, 0, 0)[..2] + "==") == Some([x])
  {
    SextetValues(x as int, 0, 0);
    var s := Sextets(x as int, 0, 0)[..2] + "==";
    assert s[2..] == "==";
  }

  lemma {:induction false} DecodeEncode(b: Bytes)
    ensures Decode(Encode(b)) == Some(b)
    decreases |b|
  {
    if |b| == 1 {
      DecodeOne(b[0]);
      assert b == [b[0]];
    } else if |b| == 2 {
      DecodeTwo(b[0], b[1]);
      assert b == [b[0], b[1]];
    } else if |b| > 2 {
      DecodeEncode(b[3..]);
      DecodeThree(b[0], b[1], b[2], Encode(b[3..]));
      assert b == [b[0], b[1], b[2]] + b[3..];
    }
  }

  // ---------------------------------------------------------------- bits

  /** The bytes at `3 * k` and after as one number of 24 bits, with zeros after the end. */
  function Group(b: Bytes, k: nat): nat { ByteAt(b, 3 * k) * 65536 + ByteAt(b, 3 * k + 1) * 256 + ByteAt(b, 3 * k + 2) }

  function ByteAt(b: Bytes, i: nat): (n: nat)
    ensures n < 256
  {
    if i < |b| then b[i] as int else 0
  }

  /** Six of 24 bits. */
  function SextetOf(n: nat, j: nat): (v: nat)
    ensures v < 64
  {
    (match j case 0 => n / 262144 case 1 => n / 4096 case 2 => n / 64 case _ => n) % 64
  }

  lemma Remainder64(n: nat, q: nat, r: nat)
    requires n == 64 * q + r && r < 64
    ensures n / 64 == q && n % 64 == r
  {
  }

  lemma FirstSextet(x: nat, low: nat)
    requires x < 256 && low < 65536
    ensures SextetOf(x * 65536 + low, 0) == x / 4
  {
    assert x == x / 4 * 4 + x % 4;
    assert (x * 65536 + low) / 262144 == x / 4;
  }

  lemma SecondSextet(x: nat, y: nat, z: nat)
    requires x < 256 && y < 256 && z < 256
    ensures SextetOf(x * 65536 + y * 256 + z, 1) == x % 4 * 16 + y / 16
  {
    var q := x * 16 + y / 16;
    assert y == y / 16 * 16 + y % 16;
    assert (x * 65536 + y * 256 + z) / 4096 == q;
    Remainder64(q, x / 4, x % 4 * 16 + y / 16);
  }

  lemma LastSextets(x: nat, y: nat, z: nat)
    requires x < 256 && y < 256 && z < 256
    ensures SextetOf(x * 65536 + y * 256 + z, 2) == y % 16 * 4 + z / 64
    ensures SextetOf(x * 65536 + y * 256 + z, 3) == z % 64
  {
    var q := x * 1024 + y * 4 + z / 64;
    Remainder64(x * 65536 + y * 256 + z, q, z % 64);
    Remainder64(q, x * 16 + y / 16, y % 16 * 4 + z / 64);
  }

  lemma GroupSymbols(x: nat, y: nat, z: nat, j: nat)
    requires x < 256 && y < 256 && z < 256 && j < 4
    ensures Sextets(x, y, z)[j] == TableEntry(SextetOf(x * 65536 + y * 256 + z, j))
  {
    if j == 0 {
      FirstSextet(x, y * 256 + z);
    } else if j == 1 {
      SecondSextet(x, y, z);
    } else {
      LastSextets(x, y, z);
    }
    SymbolIsInTheTable(SextetOf(x * 65536 + y * 256 + z, j));
  }

  lemma FirstSymbols(b: Bytes, i: nat)
    requires b != [] && i < 4
    ensures |Encode(b)| >= 4
    ensures Encode(b)[i] == if i <= |b| then Sextets(ByteAt(b, 0), ByteAt(b, 1), ByteAt(b, 2))[i] else '='
  {
  }

  /** The six bits at one place of a group, or padding when all bits of the bytes are shown. */
  function Shown(b: Bytes, k: nat, j: nat): char {
    if 24 * k + 6 * j < 8 * |b| then TableEntry(SextetOf(Group(b, k), j)) else '='
  }

  lemma ShownFirst(b: Bytes, j: nat)
    requires b != [] && j < 4
    ensures Shown(b, 0, j) == if j <= |b| then TableEntry(SextetOf(Group(b, 0), j)) else '='
  {
  }

  lemma FirstGroupShows(b: Bytes, j: nat)
    requires b != [] && j < 4
    ensures |Encode(b)| >= 4 && Encode(b)[j] == Shown(b, 0, j)
  {
    var x, y, z := ByteAt(b, 0), ByteAt(b, 1), ByteAt(b, 2);
    var n := Group(b, 0);
    assert n == x * 65536 + y * 256 + z;
    assert Sextets(x, y, z)[j] == TableEntry(SextetOf(n, j)) by { GroupSymbols(x, y, z, j); }
    assert Shown(b, 0, j) == (if j <= |b| then TableEntry(SextetOf(n, j)) else '=') by { ShownFirst(b, j); }
    FirstSymbols(b, j);
  }

  lemma RestShows(b: Bytes, k: nat, j: nat)
    requires |b| > 3 && k > 0
    ensures Shown(b, k, j) == Shown(b[3..], k - 1, j)
  {
    GroupOfRest(b, k);
  }

  /** Section 4 of RFC 4648: character `j` of group `k` shows the bits of that place. */
  lemma {:induction false} EncodedSymbol(b: Bytes, k: nat, j: nat)
    requires j < 4 && 4 * k + j < |Encode(b)|
    ensures Encode(b)[4 * k + j] == Shown(b, k, j)
    decreases |b|
  {
    if k == 0 {
      FirstGroupShows(b, j);
    } else {
      LaterSymbols(b, k, j);
      assert Encode(b)[4 * k + j] == Encode(b[3..])[4 * (k - 1) + j];
      assert Shown(b, k, j) == Shown(b[3..], k - 1, j) by { RestShows(b, k, j); }
      EncodedSymbol(b[3..], k - 1, j);
    }
  }

  lemma LaterSymbols(b: Bytes, k: nat, j: nat)
    requires j < 4 && k > 0 && 4 * k + j < |Encode(b)|
    ensures |b| > 3 && 4 * (k - 1) + j < |Encode(b[3..])|
    ensures Encode(b)[4 * k + j] == Encode(b[3..])[4 * (k - 1) + j]
  {
  }

  lemma GroupOfRest(b: Bytes, k: nat)
    requires |b| > 3 && k > 0
    ensures Group(b, k) == Group(b[3..], k - 1)
  {
  }

  // ---------------------------------------------------------------- endpoints

  datatype CopyError = TooLarge | CommandLimit | Timeout | BadEncoding

  /** `base64 --wrap=0`, the bounded read, the decoder, and the size check after it. */
  function Download(file: Bytes, limit: nat, stderr: Bytes, decode: Bytes -> string): Result<Bytes, CopyError> {
    match Execute(Streams(ToBytes(Encode(file)), stderr), limit)
    case Err(_) => Err(CommandLimit)
    case Ok(out) =>
      match Decode(decode(out.stdout))
      case None => Err(BadEncoding)
      case Some(content) => if |content| > limit then Err(TooLarge) else Ok(content)
  }

  /** What the upload answers and what it leaves at the target path. */
  datatype UploadOutcome = UploadOutcome(answer: Result<(), CopyError>, disk: Option<Bytes>)

  /** `base64 -d > target`. `execute` writes and closes stdin only for a non-empty text, so with an
      empty one the command waits for input, the redirection having already truncated the target,
      until the timeout. */
  function Upload(content: Bytes, limit: nat, before: Option<Bytes>): UploadOutcome {
    if |content| > limit then UploadOutcome(Err(TooLarge), before)
    else
      var text := Encode(content);
      if text == "" then UploadOutcome(Err(Timeout), Some([]))
      else
        match Decode(text)
        case None => UploadOutcome(Err(BadEncoding), Some([]))
        case Some(bytes) =>
          match Execute(Streams([], []), limit)
          case Err(_) => UploadOutcome(Err(CommandLimit), Some(bytes))
          case Ok(_) => UploadOutcome(Ok(()), Some(bytes))
  }

  /** An upload succeeds exactly for a non-empty content within the limit, and then the target is
      the content; over the limit nothing is touched. */
  lemma UploadSucceedsIff(content: Bytes, limit: nat, before: Option<Bytes>)
    ensures var r := Upload(content, limit, before);
      && (r.answer.Ok? <==> 0 < |content| <= limit)
      && (|content| <= limit ==> r.disk == Some(content))
      && (|content| > limit ==> r == UploadOutcome(Err(TooLarge), before))
  {
    DecodeEncode(content);
  }

  predicate Fits(n: nat, limit: nat) { limit > 0 && n <= 3 * ((limit - 1) / 4) }

  /** A download succeeds exactly when four characters for every three bytes stay below the limit,
      and then returns the file; the size check after decoding never fires. */
  lemma DownloadSucceedsIff(file: Bytes, limit: nat, stderr: Bytes, decode: Bytes -> string)
    requires DecodesAscii(decode)
    ensures Download(file, limit, stderr, decode)
         == if Fits(|file|, limit) && |stderr| < limit then Ok(file) else Err(CommandLimit)
  {
    DecodeEncode(file);
    TextOfBytes(Encode(file));
    var bytes := ToBytes(Encode(file));
    assert decode(bytes) == Encode(file);
    var groups, room := (|file| + 2) / 3, (limit - 1) / 4;
    assert 4 * groups < limit <==> limit > 0 && groups <= room;
    assert groups <= room <==> |file| <= 3 * room;
  }

  /** Upload then download is the identity on bytes wherever both answer, and every size from
      `3 * ((limit - 1) / 4)` up to the limit can be uploaded but not downloaded. */
  lemma CopyRoundTrip(content: Bytes, limit: nat, before: Option<Bytes>, decode: Bytes -> string)
    requires DecodesAscii(decode) && Upload(content, limit, before).answer.Ok?
    ensures var stored := Upload(content, limit, before).disk;
      stored.Some? && Download(stored.value, limit, [], decode)
        == if Fits(|content|, limit) then Ok(content) else Err(CommandLimit)
  {
    UploadSucceedsIff(content, limit, before);
    DownloadSucceedsIff(content, limit, [], decode);
  }
}
