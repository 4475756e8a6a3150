/**
 The multipart/byteranges answer: its length is declared before any blob byte is read, and
 the body is streamed later, one range reader at a time.

 The multipart writer itself is only assumed to write, for each part, text that depends on
 the part's header and on whether it is the first part, and a fixed text at the end.
 */
module MultipartBody {
  import opened ByteRanges
  import opened GoText
  import opened Optional

  type Byte = bv8

  datatype PartHeader = PartHeader(contentRange: string, contentType: Option<string>)

  /** What the writer writes for its boundary; the closing text is not empty. */
  datatype Format = Format(part: (PartHeader, bool) -> seq<Byte>, closing: seq<Byte>)

  /** What opening a range gives: an error, or a reader with so many bytes whose Close may fail. */
  datatype Opened = OpenFails | Reader(bytes: seq<Byte>, closeFails: bool)

  function BuildPartHeader(rng: HttpRange, mediaType: string, size: nat): PartHeader
    requires Inside(rng, MAX_INT64)
  {
    PartHeader("bytes " + FormatNat(rng.start as nat) + "-" + FormatNat(rng.end as nat) + "/" + FormatNat(size),
               if mediaType != "" then Some(mediaType) else None)
  }

  /** The bytes of the blob that a range names. */
  function Slice(blob: seq<Byte>, rng: HttpRange): (s: seq<Byte>)
    requires Inside(rng, |blob|)
    ensures |s| == rng.end as int - rng.start as int + 1
    ensures forall k | 0 <= k < |s| :: s[k] == blob[rng.start as int + k]
  {
    blob[rng.start as int..rng.end as int + 1]
  }

  /** A Content-Range reads back as the range's first and last position and the size of the blob; the
      Content-Type is there when there is one to give. */
  lemma PartHeaderReadsBack(rng: HttpRange, mediaType: string, size: nat)
    returns (first: string, last: string, total: string)
    requires Inside(rng, MAX_INT64) && size <= MAX_INT64
    ensures BuildPartHeader(rng, mediaType, size).contentRange == "bytes " + first + "-" + last + "/" + total
    ensures forall c | c in first + last + total :: '0' <= c <= '9'
    ensures ParseInt64(first) == Some(rng.start) && ParseInt64(last) == Some(rng.end)
    ensures ParseInt64(total) == Some(size as int64)
    ensures BuildPartHeader(rng, mediaType, size).contentType == if mediaType == "" then None else Some(mediaType)
  {
    hide FormatNat, ParseInt64;
    first, last, total := FormatNat(rng.start as nat), FormatNat(rng.end as nat), FormatNat(size);
    ParseFormatInt64(rng.start as nat);
    ParseFormatInt64(rng.end as nat);
    ParseFormatInt64(size);
  }

  // ----- the body as a whole

  /** Everything before the closing text: each part is its header text and its slice of the blob. */
  ghost function Parts(ranges: seq<HttpRange>, blob: seq<Byte>, mediaType: string, f: Format): seq<Byte>
    requires AllInside(ranges, |blob|) && |blob| <= MAX_INT64
  {
    if ranges == [] then []
    else
      var last := |ranges| - 1;
      Parts(ranges[..last], blob, mediaType, f)
      + f.part(BuildPartHeader(ranges[last], mediaType, |blob|), last == 0)
      + Slice(blob, ranges[last])
  }

  ghost function Body(ranges: seq<HttpRange>, blob: seq<Byte>, mediaType: string, f: Format): seq<Byte>
    requires AllInside(ranges, |blob|) && |blob| <= MAX_INT64
  {
    Parts(ranges, blob, mediaType, f) + f.closing
  }

  ghost function HeaderBytes(ranges: seq<HttpRange>, mediaType: string, size: nat, f: Format): nat
    requires AllInside(ranges, MAX_INT64)
  {
    if ranges == [] then 0
    else
      var last := |ranges| - 1;
      HeaderBytes(ranges[..last], mediaType, size, f)
      + |f.part(BuildPartHeader(ranges[last], mediaType, size), last == 0)|
  }

  lemma {:induction false} PartsLength(ranges: seq<HttpRange>, blob: seq<Byte>, mediaType: string, f: Format)
    requires AllInside(ranges, |blob|) && |blob| <= MAX_INT64
    ensures AllInside(ranges, MAX_INT64)
    ensures |Parts(ranges, blob, mediaType, f)| == HeaderBytes(ranges, mediaType, |blob|, f) + TotalLength(ranges)
  {
    assert AllInside(ranges, MAX_INT64);
    if ranges != [] {
      PartsLength(ranges[..|ranges| - 1], blob, mediaType, f);
    }
  }

  /** Behind the i parts before it and its header text, part i has the bytes of the blob that its range names. */
  lemma PartBytes(ranges: seq<HttpRange>, i: nat, k: nat, blob: seq<Byte>, mediaType: string, f: Format)
    requires AllInside(ranges, |blob|) && |blob| <= MAX_INT64 && i < |ranges|
    requires k <= ranges[i].end as int - ranges[i].start as int
    ensures
      var at := HeaderBytes(ranges[..i + 1], mediaType, |blob|, f) + TotalLength(ranges[..i]) + k;
      0 <= at < |Body(ranges, blob, mediaType, f)| &&
      Body(ranges, blob, mediaType, f)[at] == blob[ranges[i].start as int + k]
  {
    hide Parts, HeaderBytes, TotalLength;
    PartsGrow(ranges, i, blob, mediaType, f);
    PartsLength(ranges[..i], blob, mediaType, f);
    HeaderBytesNext(ranges, i, mediaType, |blob|, f);
    var done := Parts(ranges[..i], blob, mediaType, f);
    var head := f.part(BuildPartHeader(ranges[i], mediaType, |blob|), i == 0);
    var next := done + head + Slice(blob, ranges[i]);
    assert next[|done| + |head| + k] == Slice(blob, ranges[i])[k];
  }

  lemma HeaderBytesNext(ranges: seq<HttpRange>, i: nat, mediaType: string, size: nat, f: Format)
    requires AllInside(ranges, MAX_INT64) && i < |ranges|
    ensures HeaderBytes(ranges[..i + 1], mediaType, size, f) ==
            HeaderBytes(ranges[..i], mediaType, size, f) + |f.part(BuildPartHeader(ranges[i], mediaType, size), i == 0)|
  {
    assert ranges[..i + 1][..i] == ranges[..i];
  }

  // ----- counting

  /** Runs the writer over headers only, against a counter, and adds the range lengths. */
  method ComputeMultipartBodyLength(ranges: seq<HttpRange>, mediaType: string, size: nat, f: Format)
    returns (total: nat)
    requires AllInside(ranges, MAX_INT64)
    ensures total == HeaderBytes(ranges, mediaType, size, f) + |f.closing| + TotalLength(ranges)
  {
    var counter := 0;
    for i := 0 to |ranges|
      invariant counter == HeaderBytes(ranges[..i], mediaType, size, f)
    {
      assert ranges[..i + 1][..i] == ranges[..i];
      counter := counter + |f.part(BuildPartHeader(ranges[i], mediaType, size), i == 0)|;
    }
    assert ranges[..|ranges|] == ranges;
    counter := counter + |f.closing|;
    total := counter;
    for i := 0 to |ranges|
      invariant total == counter + TotalLength(ranges[..i]) && TotalLength(ranges[..i]) >= 0
    {
      assert ranges[..i + 1][..i] == ranges[..i];
      total := total + ranges[i].Length() as int;
    }
  }

  // ----- streaming

  /** io.CopyN from a reader: at most n bytes, an error when there are fewer. */
  function CopyN(bytes: seq<Byte>, n: nat): (copied: seq<Byte>)
    ensures copied <= bytes && |copied| == if |bytes| < n then |bytes| else n
  {
    if |bytes| < n then bytes else bytes[..n]
  }

  /** The streaming goroutine: what has gone through the pipe when it ends, and whether it ended with an
      error. The receiving end takes `takes` bytes before it hangs up, which may be within a part. */
  method StreamRanges(ranges: seq<HttpRange>, mediaType: string, size: nat, f: Format,
                      openRange: HttpRange -> Opened, takes: nat, ghost blob: seq<Byte>)
    returns (out: seq<Byte>, failed: bool)
    requires size == |blob| <= MAX_INT64 && AllInside(ranges, |blob|)
    requires forall i | 0 <= i < |ranges| && openRange(ranges[i]).Reader? ::
      ReadsSlice(openRange(ranges[i]).bytes, blob, ranges[i])
    ensures out <= Body(ranges, blob, mediaType, f) && |out| <= takes
    ensures !failed ==> out == Body(ranges, blob, mediaType, f)
    ensures failed ==>
      |out| + |f.closing| <= |Body(ranges, blob, mediaType, f)| || takes < |Body(ranges, blob, mediaType, f)|
    ensures !failed <==>
              && (forall i | 0 <= i < |ranges| :: Delivers(openRange(ranges[i]), ranges[i]))
              && |Body(ranges, blob, mediaType, f)| <= takes
  {
    hide Parts, Delivers, ReadsSlice;
    out, failed := [], false;
    NoParts(blob, mediaType, f);
    for i := 0 to |ranges|
      invariant !failed && out == Parts(ranges[..i], blob, mediaType, f) && |out| <= takes
      invariant forall k | 0 <= k < i :: Delivers(openRange(ranges[k]), ranges[k])
    {
      PartsGrow(ranges, i, blob, mediaType, f);
      var head := f.part(BuildPartHeader(ranges[i], mediaType, size), i == 0);
      var written;
      written, failed := StreamPart(head, ranges[i], openRange(ranges[i]), takes - |out|, blob);
      assert out + head + Slice(blob, ranges[i]) == out + (head + Slice(blob, ranges[i]));
      out := out + written;
      if failed {
        return;
      }
    }
    assert ranges[..|ranges|] == ranges;
    var closing := CopyN(f.closing, takes - |out|);
    failed := |closing| < |f.closing|;
    out := out + closing;
  }

  lemma NoParts(blob: seq<Byte>, mediaType: string, f: Format)
    requires |blob| <= MAX_INT64
    ensures Parts([], blob, mediaType, f) == []
  {
  }

  /** One turn of the goroutine's loop; there is room for so many bytes more. */
  method StreamPart(head: seq<Byte>, rng: HttpRange, reader: Opened, room: nat, ghost blob: seq<Byte>)
    returns (out: seq<Byte>, failed: bool)
    requires |blob| <= MAX_INT64 && Inside(rng, |blob|)
    requires reader.Reader? ==> ReadsSlice(reader.bytes, blob, rng)
    ensures out <= head + Slice(blob, rng) && |out| <= room
    ensures !failed ==> out == head + Slice(blob, rng)
    ensures !failed <==> Delivers(reader, rng) && |head + Slice(blob, rng)| <= room
  {
    if |head| > room {
      return CopyN(head, room), true;
    }
    if reader.OpenFails? {
      return head, true;
    }
    var copied := CopyN(reader.bytes, rng.Length() as int);
    SliceCopied(reader.bytes, blob, rng);
    var sent := CopyN(copied, room - |head|);
    out := head + sent;
    failed := |copied| < rng.Length() as int || |sent| < |copied| || reader.closeFails;
  }

  /** The reader's bytes agree with the blob from the start of the range on, as far as both go. */
  ghost predicate ReadsSlice(bytes: seq<Byte>, blob: seq<Byte>, rng: HttpRange)
    requires Inside(rng, |blob|)
  {
    var s := Slice(blob, rng);
    bytes <= s || s <= bytes
  }

  ghost predicate Delivers(reader: Opened, rng: HttpRange) {
    reader.Reader? && |reader.bytes| >= rng.end as int - rng.start as int + 1 && !reader.closeFails
  }

  lemma SliceCopied(bytes: seq<Byte>, blob: seq<Byte>, rng: HttpRange)
    requires Inside(rng, |blob|) && ReadsSlice(bytes, blob, rng)
    ensures var copied := CopyN(bytes, |Slice(blob, rng)|);
      copied <= Slice(blob, rng) && (|copied| == |Slice(blob, rng)| ==> copied == Slice(blob, rng))
  {
  }

  /** The first i parts, then the next header text, then the next slice are a prefix of the body. */
  lemma PartsGrow(ranges: seq<HttpRange>, i: nat, blob: seq<Byte>, mediaType: string, f: Format)
    requires AllInside(ranges, |blob|) && |blob| <= MAX_INT64 && i < |ranges|
    ensures var done := Parts(ranges[..i], blob, mediaType, f);
      var next := done + f.part(BuildPartHeader(ranges[i], mediaType, |blob|), i == 0) + Slice(blob, ranges[i]);
      next == Parts(ranges[..i + 1], blob, mediaType, f) && next <= Parts(ranges, blob, mediaType, f)
  {
    assert ranges[..i + 1][..i] == ranges[..i];
    PartsPrefix(ranges, i + 1, blob, mediaType, f);
  }

  lemma {:induction false} PartsPrefix(ranges: seq<HttpRange>, i: nat, blob: seq<Byte>, mediaType: string, f: Format)
    requires AllInside(ranges, |blob|) && |blob| <= MAX_INT64 && i <= |ranges|
    ensures Parts(ranges[..i], blob, mediaType, f) <= Parts(ranges, blob, mediaType, f)
    decreases |ranges|
  {
    if i < |ranges| {
      var front := ranges[..|ranges| - 1];
      assert front[..i] == ranges[..i];
      PartsPrefix(front, i, blob, mediaType, f);
    } else {
      assert ranges[..i] == ranges;
    }
  }

  /** The declared length is the length of the body, so it is exact whenever the stream succeeds,
      and the receiver, which copies that many bytes, misses nothing and waits for nothing more. */
  lemma DeclaredLengthIsExact(ranges: seq<HttpRange>, blob: seq<Byte>, mediaType: string, f: Format)
    requires AllInside(ranges, |blob|) && |blob| <= MAX_INT64
    ensures AllInside(ranges, MAX_INT64)
    ensures |Body(ranges, blob, mediaType, f)|
      == HeaderBytes(ranges, mediaType, |blob|, f) + |f.closing| + TotalLength(ranges)
  {
    PartsLength(ranges, blob, mediaType, f);
  }

  /** What the client receives, which hangs up after `takes` bytes: the declared length, and the bytes that
      arrive under it. */
  method WriteMultipartRanges(ranges: seq<HttpRange>, mediaType: string, size: nat, f: Format,
                              openRange: HttpRange -> Opened, takes: nat, ghost blob: seq<Byte>)
    returns (contentLength: nat, body: seq<Byte>)
    requires size == |blob| <= MAX_INT64 && AllInside(ranges, |blob|) && f.closing != []
    requires forall i | 0 <= i < |ranges| && openRange(ranges[i]).Reader? ::
      ReadsSlice(openRange(ranges[i]).bytes, blob, ranges[i])
    ensures contentLength == |Body(ranges, blob, mediaType, f)|
    ensures body <= Body(ranges, blob, mediaType, f)
    ensures |body| == contentLength <==>
              (forall i | 0 <= i < |ranges| :: Delivers(openRange(ranges[i]), ranges[i])) && contentLength <= takes
  {
    DeclaredLengthIsExact(ranges, blob, mediaType, f);
    contentLength := ComputeMultipartBodyLength(ranges, mediaType, size, f);
    var out, failed := StreamRanges(ranges, mediaType, size, f, openRange, takes, blob);
    body := CopyN(out, contentLength);
  }
}
