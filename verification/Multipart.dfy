/** S3 multipart transfers: the server numbers one upload URL per part, the client uploads the
    parts in that order and completes the upload with the list of their ETags. */
module Multipart {
  import opened Prelude
  import FC = FloatCeiling

  // ---------------------------------------------------------------- server

  /** `PartNumber`s handed out in order; a pre-signed URL stands for its part number. */
  function PartNumbers(n: nat): seq<nat> { seq(n, i requires 0 <= i < n => i + 1) }

  /** The loop over `range(1, ceil(size / max_part_size) + 1)`; `quotient` is the double the
      division yields. */
  method PresignParts(fileSize: nat, maxPartSize: nat, quotient: real) returns (urls: seq<nat>)
    requires fileSize <= FC.MAX_MANTISSA && FC.PartSizeInRange(maxPartSize)
    requires FC.RoundsTo(FC.Quotient(fileSize, maxPartSize), quotient)
    ensures urls == PartNumbers(FC.CeilDiv(fileSize, maxPartSize))
  {
    FC.FloatCeilIsCeilDiv(fileSize, maxPartSize, quotient);
    urls := [];
    var partNumber := 1;
    while partNumber < FC.Ceil(quotient) + 1
      invariant 1 <= partNumber <= FC.Ceil(quotient) + 1
      invariant urls == PartNumbers(partNumber - 1)
      decreases FC.Ceil(quotient) + 1 - partNumber
    {
      urls := urls + [partNumber];
      partNumber := partNumber + 1;
    }
  }

  /** The set `{1, .., n}`. */
  function UpTo(n: nat): (r: set<nat>)
    ensures forall i: nat :: i in r <==> 1 <= i <= n
    ensures |r| == n
  {
    if n == 0 then {} else UpTo(n - 1) + {n}
  }

  // ---------------------------------------------------------------- client

  /** How one part fares: the PUT is stored (without an ETag header the client raises) or rejected,
      or the read before it raises. */
  datatype PutResult = Stored(etag: string) | StoredWithoutTag | Rejected | Unread
  {
    predicate Reaches() { Stored? || StoredWithoutTag? }
  }

  datatype CompletedPart = CompletedPart(partNumber: nat, etag: string)

  /** The transfer directives of the response, as far as the client looks at them. */
  datatype Directives = Directives(maxPartSize: nat, partUrls: Option<seq<nat>>, hasCompleteUrl: bool)

  /** What a whole upload ends with. `Refused` is the memory check and `MissingUrls` the check of
      the response, both before anything is sent; every other failure is after the last part. */
  datatype UploadResult = Refused | MissingUrls | PartsFailed | CompletionFailed | Completed(parts: seq<CompletedPart>)

  const INT_MAX: nat := 0x7FFF_FFFF

  /** Where the file stands after the first `n` reads; `avail` says how many bytes the stream has
      ready for each, which may be fewer than the buffer takes. A read that raises takes none. */
  function Position(size: nat, partSize: nat, avail: seq<nat>, results: seq<PutResult>, n: nat): (p: nat)
    requires n <= |avail| && n <= |results|
    ensures p <= size
  {
    if n == 0 then 0
    else
      var p := Position(size, partSize, avail, results, n - 1);
      if results[n - 1].Unread? then p else Min(p + Min(avail[n - 1], partSize), size)
  }

  /** The bytes of the `i`-th part (from 0). */
  function Part(file: Bytes, partSize: nat, avail: seq<nat>, results: seq<PutResult>, i: nat): Bytes
    requires i < |avail| && i < |results|
  {
    file[Position(|file|, partSize, avail, results, i)..Position(|file|, partSize, avail, results, i + 1)]
  }

  /** The storage after the first `n` PUTs. */
  function StoredParts(file: Bytes, partSize: nat, avail: seq<nat>, urls: seq<nat>, results: seq<PutResult>, n: nat)
    : map<nat, Bytes>
    requires n <= |urls| && n <= |results| && n <= |avail|
  {
    if n == 0 then map[]
    else
      var before := StoredParts(file, partSize, avail, urls, results, n - 1);
      if results[n - 1].Reaches() then before[urls[n - 1] := Part(file, partSize, avail, results, n - 1)] else before
  }

  /** The client's ETag dictionary after the first `n` parts, keyed by position from 1. */
  function Tags(results: seq<PutResult>, n: nat): map<nat, string>
    requires n <= |results|
  {
    if n == 0 then map[]
    else if results[n - 1].Stored? then Tags(results, n - 1)[n := results[n - 1].etag]
    else Tags(results, n - 1)
  }

  /** The positions whose upload raised. */
  function FailedPositions(results: seq<PutResult>, n: nat): set<nat>
    requires n <= |results|
  {
    if n == 0 then {}
    else FailedPositions(results, n - 1) + if results[n - 1].Stored? then {} else {n}
  }

  lemma {:induction false} TagsAre(results: seq<PutResult>, n: nat, i: nat)
    requires n <= |results|
    ensures var tags := Tags(results, n);
      (i in tags <==> 1 <= i <= n && results[i - 1].Stored?) && (i in tags ==> tags[i] == results[i - 1].etag)
    decreases n
  {
    if n > 0 {
      TagsAre(results, n - 1, i);
    }
  }

  lemma {:induction false} FailedPositionsAre(results: seq<PutResult>, n: nat, i: nat)
    requires n <= |results|
    ensures i in FailedPositions(results, n) <==> 1 <= i <= n && !results[i - 1].Stored?
    decreases n
  {
    if n > 0 {
      FailedPositionsAre(results, n - 1, i);
    }
  }

  /** Under the URL of a part the storage has its bytes exactly if the PUT got through, with or
      without an ETag. */
  lemma {:induction false} StoredPartsHold(file: Bytes, partSize: nat, avail: seq<nat>, urls: seq<nat>,
                                           results: seq<PutResult>, n: nat, i: nat)
    requires i < |urls| && n <= |urls| == |results| == |avail|
    requires forall j, k | 0 <= j < k < |urls| :: urls[j] != urls[k]
    ensures var s := StoredParts(file, partSize, avail, urls, results, n);
      && (urls[i] in s <==> i < n && (results[i].Stored? || results[i].StoredWithoutTag?))
      && (urls[i] in s ==> s[urls[i]] == Part(file, partSize, avail, results, i))
    decreases n
  {
    if n > 0 {
      StoredPartsHold(file, partSize, avail, urls, results, n - 1, i);
      assert i != n - 1 ==> urls[i] != urls[n - 1];
    }
  }

  class Uploader {
    const file: Bytes
    const buffer: array<Byte>
    var position: nat
    var eTags: map<nat, string>
    var failedParts: map<nat, nat>
    var storage: map<nat, Bytes>

    constructor (file: Bytes, maxPartSize: nat)
      ensures this.file == file && position == 0 && eTags == map[] && failedParts == map[] && storage == map[]
      ensures fresh(buffer) && buffer.Length == maxPartSize
    {
      this.file, position := file, 0;
      eTags, failedParts, storage := map[], map[], map[];
      buffer := new Byte[maxPartSize];
    }

    /** `FileStream.ReadAsync(buffer, 0, maxPartSize)`: as many bytes as are ready, the buffer
        takes and the file has left. */
    method ReadPart(ready: nat) returns (length: nat)
      requires position <= |file|
      modifies this`position, buffer
      ensures position == Min(old(position) + Min(ready, buffer.Length), |file|)
      ensures length == position - old(position) <= buffer.Length
      ensures buffer[..length] == file[old(position)..position]
    {
      length := 0;
      while length < ready && length < buffer.Length && position < |file|
        invariant old(position) <= position <= |file| && length == position - old(position)
        invariant length <= ready && length <= buffer.Length
        invariant buffer[..length] == file[old(position)..position]
        decreases |file| - position
      {
        buffer[length] := file[position];
        length, position := length + 1, position + 1;
      }
    }

    /** `UploadPart`: read, PUT, record the ETag; `ok` is false where it throws. */
    method UploadPart(partIndex: nat, url: nat, ready: nat, result: PutResult) returns (ok: bool)
      requires position <= |file|
      modifies this`position, this`eTags, this`storage, buffer
      ensures position == if result.Unread? then old(position)
                          else Min(old(position) + Min(ready, buffer.Length), |file|)
      ensures ok <==> result.Stored?
      ensures eTags == if ok then old(eTags)[partIndex := result.etag] else old(eTags)
      ensures storage == if result.Reaches() then old(storage)[url := file[old(position)..position]] else old(storage)
    {
      if result.Unread? {
        return false;
      }
      var length := ReadPart(ready);
      var data := buffer[..length];
      if result.Rejected? {
        return false;
      }
      storage := storage[url := data];
      if result.StoredWithoutTag? {
        return false;
      }
      eTags := eTags[partIndex := result.etag];
      return true;
    }

    /** The upload loop over the URLs. */
    method UploadAll(urls: seq<nat>, avail: seq<nat>, results: seq<PutResult>)
      requires |avail| == |results| == |urls|
      requires position == 0 && eTags == map[] && failedParts == map[] && storage == map[]
      modifies this`position, this`eTags, this`failedParts, this`storage, buffer
      ensures eTags == Tags(results, |urls|)
      ensures storage == StoredParts(file, buffer.Length, avail, urls, results, |urls|)
      ensures failedParts.Keys == FailedPositions(results, |urls|)
      ensures forall i <- failedParts :: 1 <= i <= |urls| && failedParts[i] == urls[i - 1]
    {
      var partIndex := 1;
      for i := 0 to |urls|
        invariant partIndex == i + 1 && position == Position(|file|, buffer.Length, avail, results, i)
        invariant eTags == Tags(results, i)
        invariant storage == StoredParts(file, buffer.Length, avail, urls, results, i)
        invariant failedParts.Keys == FailedPositions(results, i)
        invariant forall k <- failedParts :: 1 <= k <= i && failedParts[k] == urls[k - 1]
      {
        var ok := UploadPart(partIndex, urls[i], avail[i], results[i]);
        if !ok {
          failedParts := failedParts[partIndex := urls[i]];
        }
        partIndex := partIndex + 1;
      }
    }

    /** `CompleteMultipartUpload`: one element per ETag, looked up by number from 1; None where a
        number is missing from the dictionary. */
    method CompletionList() returns (parts: Option<seq<CompletedPart>>)
      ensures parts.Some? <==> UpTo(|eTags|) <= eTags.Keys
      ensures parts.Some? ==> ListsInOrder(parts.value, eTags, |eTags|)
    {
      var list: seq<CompletedPart> := [];
      var i := 1;
      while i <= |eTags|
        invariant 1 <= i <= |eTags| + 1 && ListsInOrder(list, eTags, i - 1)
      {
        if i !in eTags {
          assert i in UpTo(|eTags|);
          return None;
        }
        list := list + [CompletedPart(i, eTags[i])];
        i := i + 1;
      }
      forall k <- UpTo(|eTags|) ensures k in eTags {
        assert list[k - 1].partNumber == k;
      }
      return Some(list);
    }
  }

  /** Element `k` (from 0) is part number `k + 1` with its tag. */
  predicate ListsInOrder(parts: seq<CompletedPart>, eTags: map<nat, string>, n: nat) {
    && |parts| == n
    && forall k: nat | k < n ::
         parts[k].partNumber == k + 1 && parts[k].partNumber in eTags && parts[k].etag == eTags[parts[k].partNumber]
  }

  predicate AllStored(results: seq<PutResult>) { forall i: nat | i < |results| :: results[i].Stored? }

  /** The response is one the client can work with. */
  predicate IsUsable(d: Directives) { d.maxPartSize <= INT_MAX && d.partUrls.Some? && d.hasCompleteUrl }

  /** `Upload`, from the size check to the completion request; `completes` says whether that one
      succeeds. The upload is completed exactly when no part failed and the request succeeds, and
      the request lists every part number with its ETag once and in order. */
  method Upload(file: Bytes, d: Directives, avail: seq<nat>, results: seq<PutResult>, completes: bool)
    returns (r: UploadResult, storage: map<nat, Bytes>)
    requires |avail| == |results| && (d.partUrls.Some? ==> |d.partUrls.value| == |results|)
    ensures r.Refused? <==> d.maxPartSize > INT_MAX
    ensures r.MissingUrls? <==> d.maxPartSize <= INT_MAX && (d.partUrls.None? || !d.hasCompleteUrl)
    ensures r.PartsFailed? <==> IsUsable(d) && !AllStored(results)
    ensures r.CompletionFailed? <==> IsUsable(d) && AllStored(results) && !completes
    ensures r.Completed? ==>
      |r.parts| == |results| && forall i: nat | i < |results| :: r.parts[i] == CompletedPart(i + 1, results[i].etag)
    ensures IsUsable(d) ==> storage == StoredParts(file, d.maxPartSize, avail, d.partUrls.value, results, |results|)
    ensures !IsUsable(d) ==> storage == map[]
  {
    storage := map[];
    if d.maxPartSize > INT_MAX {
      return Refused, storage;
    }
    var uploader := new Uploader(file, d.maxPartSize);
    if d.partUrls.None? || !d.hasCompleteUrl {
      return MissingUrls, storage;
    }
    uploader.UploadAll(d.partUrls.value, avail, results);
    storage := uploader.storage;
    AllStoredIffNoFailure(results, uploader.failedParts);
    if |uploader.failedParts| > 0 {
      return PartsFailed, storage;
    }
    TagsOfAll(results);
    var parts := uploader.CompletionList();
    return if completes then Completed(parts.value) else CompletionFailed, storage;
  }

  lemma AllStoredIffNoFailure(results: seq<PutResult>, failed: map<nat, nat>)
    requires failed.Keys == FailedPositions(results, |results|)
    ensures AllStored(results) <==> |failed| == 0
  {
    if |failed| == 0 {
      assert failed.Keys == {};
      forall i: nat | i < |results| ensures results[i].Stored? {
        FailedPositionsAre(results, |results|, i + 1);
      }
    } else {
      var i :| i in failed.Keys;
      FailedPositionsAre(results, |results|, i);
      assert !results[i - 1].Stored?;
    }
  }

  /** With no failed part the keys are exactly `1..n`, so the completion loop finds each of them. */
  lemma TagsOfAll(results: seq<PutResult>)
    requires AllStored(results)
    ensures Tags(results, |results|).Keys == UpTo(|results|) && |Tags(results, |results|)| == |results|
    ensures forall i: nat | i < |results| ::
      i + 1 in Tags(results, |results|) && Tags(results, |results|)[i + 1] == results[i].etag
  {
    var tags := Tags(results, |results|);
    forall i: nat ensures i in tags <==> i in UpTo(|results|) { TagsAre(results, |results|, i); }
    assert tags.Keys == UpTo(|results|);
    forall i: nat | i < |results| ensures i + 1 in tags && tags[i + 1] == results[i].etag {
      TagsAre(results, |results|, i + 1);
    }
  }

  // ---------------------------------------------------------------- completeness

  /** The keys are exactly the part numbers from 1 to `n`. */
  ghost predicate IsNumbered(storage: map<nat, Bytes>, n: nat) { forall i: nat :: i in storage <==> 1 <= i <= n }

  predicate HasParts(storage: map<nat, Bytes>, n: nat) { forall i: nat | 1 <= i <= n :: i in storage }

  /** The object S3 assembles from the parts `1..n`. */
  function Assemble(storage: map<nat, Bytes>, n: nat): Bytes
    requires HasParts(storage, n)
  {
    if n == 0 then [] else Assemble(storage, n - 1) + storage[n]
  }

  /** Under the numbers from 1 to `n` the storage holds the parts read. */
  predicate HoldsParts(s: map<nat, Bytes>, file: Bytes, partSize: nat, avail: seq<nat>, results: seq<PutResult>, n: nat)
    requires n <= |avail| && n <= |results|
  {
    forall i: nat | 1 <= i <= n :: i in s && s[i] == Part(file, partSize, avail, results, i - 1)
  }

  lemma {:induction false} StoredPartsAre(file: Bytes, partSize: nat, avail: seq<nat>, results: seq<PutResult>, n: nat)
    requires |avail| == |results| && n <= |results| && AllStored(results)
    ensures var s := StoredParts(file, partSize, avail, PartNumbers(|results|), results, n);
      HoldsParts(s, file, partSize, avail, results, n) && IsNumbered(s, n)
  {
    if n > 0 {
      StoredPartsAre(file, partSize, avail, results, n - 1);
      var before := StoredParts(file, partSize, avail, PartNumbers(|results|), results, n - 1);
      OneMorePart(before, file, partSize, avail, results, n);
      StoresOnePart(file, partSize, avail, results, n);
    }
  }

  lemma StoresOnePart(file: Bytes, partSize: nat, avail: seq<nat>, results: seq<PutResult>, n: nat)
    requires |avail| == |results| && 0 < n <= |results| && AllStored(results)
    ensures StoredParts(file, partSize, avail, PartNumbers(|results|), results, n)
         == StoredParts(file, partSize, avail, PartNumbers(|results|), results, n - 1)
              [n := Part(file, partSize, avail, results, n - 1)]
  {
    assert PartNumbers(|results|)[n - 1] == n && results[n - 1].Stored?;
  }

  lemma OneMorePart(s: map<nat, Bytes>, file: Bytes, partSize: nat, avail: seq<nat>, results: seq<PutResult>, n: nat)
    requires 0 < n <= |avail| && n <= |results|
    requires HoldsParts(s, file, partSize, avail, results, n - 1) && IsNumbered(s, n - 1)
    ensures var r := s[n := Part(file, partSize, avail, results, n - 1)];
      HoldsParts(r, file, partSize, avail, results, n) && IsNumbered(r, n)
  {
  }

  lemma PartExtendsPrefix(file: Bytes, partSize: nat, avail: seq<nat>, results: seq<PutResult>, i: nat)
    requires i < |avail| && i < |results|
    ensures file[..Position(|file|, partSize, avail, results, i)] + Part(file, partSize, avail, results, i)
         == file[..Position(|file|, partSize, avail, results, i + 1)]
  {
  }

  lemma AssembleNext(storage: map<nat, Bytes>, n: nat, part: Bytes)
    requires n > 0 && HasParts(storage, n) && storage[n] == part
    ensures Assemble(storage, n) == Assemble(storage, n - 1) + part
  {
  }

  lemma {:induction false} AssembledPrefix(file: Bytes, partSize: nat, avail: seq<nat>, results: seq<PutResult>,
                                           storage: map<nat, Bytes>, n: nat)
    requires n <= |avail| && n <= |results|
    requires HoldsParts(storage, file, partSize, avail, results, n) && HasParts(storage, n)
    ensures Assemble(storage, n) == file[..Position(|file|, partSize, avail, results, n)]
  {
    if n > 0 {
      AssembledPrefix(file, partSize, avail, results, storage, n - 1);
      AssembleNext(storage, n, Part(file, partSize, avail, results, n - 1));
      PartExtendsPrefix(file, partSize, avail, results, n - 1);
    }
  }

  /** The bytes that the first `n` reads can bring. */
  function Total(avail: seq<nat>, partSize: nat, n: nat): nat
    requires n <= |avail|
  {
    if n == 0 then 0 else Total(avail, partSize, n - 1) + Min(avail[n - 1], partSize)
  }

  lemma {:induction false} PositionIsTotal(size: nat, partSize: nat, avail: seq<nat>, results: seq<PutResult>, n: nat)
    requires n <= |avail| && n <= |results| && AllStored(results)
    ensures Position(size, partSize, avail, results, n) == Min(Total(avail, partSize, n), size)
  {
    if n > 0 {
      PositionIsTotal(size, partSize, avail, results, n - 1);
    }
  }

  predicate FullReads(avail: seq<nat>, partSize: nat) { forall i | 0 <= i < |avail| :: avail[i] >= partSize }

  lemma {:induction false} TotalOfFullReads(avail: seq<nat>, partSize: nat, n: nat)
    requires n <= |avail| && FullReads(avail, partSize)
    ensures Total(avail, partSize, n) == n * partSize
  {
    if n > 0 {
      TotalOfFullReads(avail, partSize, n - 1);
      assert n * partSize == (n - 1) * partSize + partSize;
    }
  }

  /** With full reads every part of a file is non-empty and at most the part size. */
  lemma PartSizes(file: Bytes, partSize: nat, avail: seq<nat>, results: seq<PutResult>, i: nat)
    requires partSize > 0 && i < FC.CeilDiv(|file|, partSize) && i < |avail| && FullReads(avail, partSize)
    requires i < |results| && AllStored(results)
    ensures 0 < |Part(file, partSize, avail, results, i)| <= partSize
  {
    TotalOfFullReads(avail, partSize, i);
    PositionIsTotal(|file|, partSize, avail, results, i);
    assert results[i].Stored?;
    PartStart(|file|, partSize, i);
  }

  lemma PartStart(size: nat, partSize: nat, i: nat)
    requires partSize > 0 && i < FC.CeilDiv(size, partSize)
    ensures i * partSize < size
  {
    if i * partSize >= size {
      var x := size + partSize - 1;
      assert x < (i + 1) * partSize by { assert (i + 1) * partSize == i * partSize + partSize; }
      Below(x, partSize, i);
    }
  }

  lemma Below(x: nat, b: nat, k: nat)
    requires b > 0 && x < (k + 1) * b
    ensures x / b <= k
  {
    if x / b > k {
      FC.MulMonotone(k + 1, x / b, b);
    }
  }

  lemma CoversTheFile(size: nat, partSize: nat)
    requires partSize > 0
    ensures FC.CeilDiv(size, partSize) * partSize >= size
  {
    var x := size + partSize - 1;
    assert x / partSize * partSize == x - x % partSize;
  }

  /** With every part stored under its number, the object assembled from them is the file exactly
      when the reads add up to its size. */
  lemma TransferIsCompleteIff(file: Bytes, partSize: nat, avail: seq<nat>, results: seq<PutResult>)
    requires |avail| == |results| && AllStored(results)
    ensures var n := |results|;
      var storage := StoredParts(file, partSize, avail, PartNumbers(n), results, n);
      && IsNumbered(storage, n)
      && (Assemble(storage, n) == file <==> Total(avail, partSize, n) >= |file|)
  {
    var n := |results|;
    var storage := StoredParts(file, partSize, avail, PartNumbers(n), results, n);
    StoredPartsAre(file, partSize, avail, results, n);
    AssembledPrefix(file, partSize, avail, results, storage, n);
    PositionIsTotal(|file|, partSize, avail, results, n);
    assert file[..|file|] == file;
  }

  /** Full reads do add up, in as many parts as the server presigns. */
  lemma FullReadsSuffice(size: nat, partSize: nat, avail: seq<nat>)
    requires partSize > 0 && |avail| == FC.CeilDiv(size, partSize) && FullReads(avail, partSize)
    ensures Total(avail, partSize, |avail|) >= size
  {
    TotalOfFullReads(avail, partSize, |avail|);
    CoversTheFile(size, partSize);
  }

  /** Server and client together: the presigned URLs, the upload over them and the completion. */
  method Transfer(file: Bytes, partSize: nat, quotient: real, avail: seq<nat>, results: seq<PutResult>, completes: bool)
    returns (r: UploadResult, storage: map<nat, Bytes>)
    requires |file| <= FC.MAX_MANTISSA && FC.PartSizeInRange(partSize)
    requires FC.RoundsTo(FC.Quotient(|file|, partSize), quotient)
    requires |avail| == |results| == FC.CeilDiv(|file|, partSize)
    ensures r.Completed? <==> partSize <= INT_MAX && AllStored(results) && completes
    ensures r.Completed? ==>
      |r.parts| == |results| && forall i: nat | i < |results| :: r.parts[i] == CompletedPart(i + 1, results[i].etag)
    ensures r.Completed? ==>
      IsNumbered(storage, |results|)
      && (Assemble(storage, |results|) == file <==> Total(avail, partSize, |avail|) >= |file|)
    ensures r.Completed? && FullReads(avail, partSize) ==> Assemble(storage, |results|) == file
  {
    var urls := PresignParts(|file|, partSize, quotient);
    r, storage := Upload(file, Directives(partSize, Some(urls), true), avail, results, completes);
    if r.Completed? {
      TransferIsCompleteIff(file, partSize, avail, results);
      if FullReads(avail, partSize) {
        FullReadsSuffice(|file|, partSize, avail);
      }
    }
  }
}
