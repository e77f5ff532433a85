/**
 The walk over the chunks of a WebP file (internal/media/image.go) that looks for metadata. The container is
 that of section 2.3 of RFC 9649: a RIFF header, then chunks of a tag, a 32-bit length, a payload, and a byte
 that pads an odd payload.
 */
module WebpWalk {
  import opened Wrappers

  newtype Byte = x: int | 0 <= x < 256

  type Bytes = seq<Byte>

  datatype Error = TooShort | NotWebp

  const HEADER_LENGTH := 12
  const CHUNK_HEADER_LENGTH := 8

  const RIFF: Bytes := [0x52, 0x49, 0x46, 0x46]
  const WEBP: Bytes := [0x57, 0x45, 0x42, 0x50]
  const EXIF: Bytes := [0x45, 0x58, 0x49, 0x46]
  const XMP: Bytes := [0x58, 0x4D, 0x50, 0x20]

  predicate IsMetadata(tag: Bytes) {
    tag == EXIF || tag == XMP
  }

  /** Four bytes, the lowest first. */
  function FromLittleEndian(b: Bytes): (n: nat)
    requires |b| == 4
    ensures n < 0x1_0000_0000
  {
    b[0] as int + 0x100 * b[1] as int + 0x1_0000 * b[2] as int + 0x100_0000 * b[3] as int
  }

  function Padded(size: nat): nat {
    if size % 2 == 1 then size + 1 else size
  }

  // ---------- The code ----------

  /** Whether the chunks from the offset on have metadata; a chunk header that is cut off ends the file. */
  function Walk(file: Bytes, offset: nat): bool
    decreases if offset < |file| then |file| - offset else 0
  {
    if |file| < offset + CHUNK_HEADER_LENGTH then false
    else if IsMetadata(file[offset..offset + 4]) then true
    else Walk(file, offset + CHUNK_HEADER_LENGTH + Padded(FromLittleEndian(file[offset + 4..offset + 8])))
  }

  predicate HasHeader(file: Bytes) {
    |file| >= HEADER_LENGTH && file[..4] == RIFF && file[8..12] == WEBP
  }

  method WebpHasMetadata(file: Bytes) returns (r: Result<bool, Error>)
    ensures |file| < 12 ==> r == Err(TooShort)
    ensures |file| >= 12 && !HasHeader(file) ==> r == Err(NotWebp)
    ensures HasHeader(file) ==> r == Ok(Walk(file, HEADER_LENGTH))
  {
    if |file| < HEADER_LENGTH {
      return Err(TooShort);
    }
    if file[..4] != RIFF || file[8..12] != WEBP {
      return Err(NotWebp);
    }
    var offset: nat := HEADER_LENGTH;
    while true
      invariant Walk(file, HEADER_LENGTH) == Walk(file, offset)
      decreases if offset < |file| then |file| - offset else 0
    {
      if |file| < offset + CHUNK_HEADER_LENGTH {
        return Ok(false);
      }
      if file[offset..offset + 4] == EXIF || file[offset..offset + 4] == XMP {
        return Ok(true);
      }
      var size := FromLittleEndian(file[offset + 4..offset + 8]);
      if size % 2 == 1 {
        size := size + 1;
      }
      offset := offset + CHUNK_HEADER_LENGTH + size;
    }
  }

  // ---------- The format ----------

  /** A chunk; pad is the byte that follows a payload of odd length, whatever it is. */
  datatype Chunk = Chunk(tag: Bytes, payload: Bytes, pad: Byte)

  predicate ValidChunk(c: Chunk) {
    |c.tag| == 4 && |c.payload| < 0x1_0000_0000
  }

  predicate Valid(chunks: seq<Chunk>) {
    forall k :: 0 <= k < |chunks| ==> ValidChunk(chunks[k])
  }

  function LittleEndian(n: nat): (b: Bytes)
    requires n < 0x1_0000_0000
    ensures |b| == 4
  {
    var n1 := n / 0x100;
    var n2 := n1 / 0x100;
    [(n % 0x100) as Byte, (n1 % 0x100) as Byte, (n2 % 0x100) as Byte, (n2 / 0x100) as Byte]
  }

  function EncodeChunk(c: Chunk): (b: Bytes)
    requires ValidChunk(c)
    ensures |b| == CHUNK_HEADER_LENGTH + Padded(|c.payload|)
  {
    c.tag + LittleEndian(|c.payload|) + c.payload + (if |c.payload| % 2 == 1 then [c.pad] else [])
  }

  function Body(chunks: seq<Chunk>): Bytes
    requires Valid(chunks)
  {
    if chunks == [] then [] else EncodeChunk(chunks[0]) + Body(chunks[1..])
  }

  /** A file: the header with four bytes of size that the walk does not look at, and the chunks. */
  function Encode(size: Bytes, chunks: seq<Chunk>): Bytes
    requires |size| == 4 && Valid(chunks)
  {
    RIFF + size + WEBP + Body(chunks)
  }

  /** Where chunk k begins, behind the header. */
  function Start(chunks: seq<Chunk>, k: nat): nat
    requires k <= |chunks|
  {
    if k == 0 then 0 else Start(chunks, k - 1) + CHUNK_HEADER_LENGTH + Padded(|chunks[k - 1].payload|)
  }

  /** The bytes are the text in ASCII. */
  predicate Reads(b: Bytes, text: string) {
    |b| == |text| && forall i :: 0 <= i < |text| ==> b[i] as int == text[i] as int
  }

  /** The header of a WebP file reads RIFF, then has four bytes of any kind, then reads WEBP. */
  lemma HeaderReads(file: Bytes)
    ensures HasHeader(file) <==> |file| >= 12 && Reads(file[..4], "RIFF") && Reads(file[8..12], "WEBP")
  {
    if |file| >= 12 {
      SameBytes(file[..4], RIFF, "RIFF");
      SameBytes(file[8..12], WEBP, "WEBP");
    }
  }

  lemma SameBytes(b: Bytes, c: Bytes, text: string)
    requires Reads(c, text)
    ensures Reads(b, text) <==> b == c
  {
  }

  /** The tags of metadata read EXIF, and XMP with a space. */
  lemma MetadataReads(tag: Bytes)
    ensures IsMetadata(tag) <==> Reads(tag, "EXIF") || Reads(tag, "XMP ")
  {
    SameBytes(tag, EXIF, "EXIF");
    SameBytes(tag, XMP, "XMP ");
  }

  /** Chunk k is metadata, and the first n bytes of the file have the whole of its header. */
  predicate ShowsMetadata(chunks: seq<Chunk>, k: int, n: int) {
    && 0 <= k < |chunks| && (Reads(chunks[k].tag, "EXIF") || Reads(chunks[k].tag, "XMP "))
    && 12 + Start(chunks, k) + 8 <= n
  }

  // ---------- What the walk finds ----------

  lemma LittleEndianBack(n: nat)
    requires n < 0x1_0000_0000
    ensures FromLittleEndian(LittleEndian(n)) == n
  {
  }

  lemma LowestByte(low: Byte, high: nat)
    ensures (low as int + 0x100 * high) % 0x100 == low as int && (low as int + 0x100 * high) / 0x100 == high
  {
  }

  lemma Quotients(n: nat)
    ensures n / 0x1_0000 == n / 0x100 / 0x100 && n / 0x100_0000 == n / 0x100 / 0x100 / 0x100
  {
  }

  /** Byte i is the digit of weight 256 to the i. */
  lemma DigitsOf(b: Bytes)
    requires |b| == 4
    ensures var n := FromLittleEndian(b);
            && n % 0x100 == b[0] as int && n / 0x100 % 0x100 == b[1] as int
            && n / 0x1_0000 % 0x100 == b[2] as int && n / 0x100_0000 == b[3] as int
  {
    hide FromLittleEndian;
    Quotients(FromLittleEndian(b));
    Nested(b);
    var n2 := b[2] as int + 0x100 * b[3] as int;
    var n1 := b[1] as int + 0x100 * n2;
    LowestByte(b[0], n1);
    LowestByte(b[1], n2);
    LowestByte(b[2], b[3] as int);
  }

  lemma Nested(b: Bytes)
    requires |b| == 4
    ensures FromLittleEndian(b) ==
            b[0] as int + 0x100 * (b[1] as int + 0x100 * (b[2] as int + 0x100 * b[3] as int))
  {
  }

  lemma LittleEndianIs(b: Bytes)
    requires |b| == 4
    ensures LittleEndian(FromLittleEndian(b)) == b
  {
    var n2 := b[2] as int + 0x100 * b[3] as int;
    var n1 := b[1] as int + 0x100 * n2;
    LowestByte(b[0], n1);
    LowestByte(b[1], n2);
    LowestByte(b[2], b[3] as int);
    assert FromLittleEndian(b) == b[0] as int + 0x100 * n1;
  }

  lemma BodyUnfold(chunks: seq<Chunk>)
    requires Valid(chunks)
    ensures Body(chunks) == if chunks == [] then [] else EncodeChunk(chunks[0]) + Body(chunks[1..])
    ensures chunks != [] ==> |EncodeChunk(chunks[0])| == CHUNK_HEADER_LENGTH + Padded(|chunks[0].payload|)
  {
    hide EncodeChunk;
  }

  /** A part of the second sequence is that part of both together, behind the first. */
  lemma PartBehind(first: Bytes, rest: Bytes, from: nat, to: nat)
    requires from <= to <= |rest|
    ensures (first + rest)[|first| + from..|first| + to] == rest[from..to]
  {
  }

  lemma {:induction false} BodyAt(chunks: seq<Chunk>, k: nat)
    requires Valid(chunks) && k < |chunks|
    ensures Start(chunks, k) + |EncodeChunk(chunks[k])| <= |Body(chunks)|
    ensures Body(chunks)[Start(chunks, k)..Start(chunks, k) + |EncodeChunk(chunks[k])|] == EncodeChunk(chunks[k])
    decreases k
  {
    hide Body, EncodeChunk, Padded;
    BodyUnfold(chunks);
    var first, rest, n := EncodeChunk(chunks[0]), Body(chunks[1..]), |EncodeChunk(chunks[k])|;
    if k == 0 {
      assert (first + rest)[..n] == first;
    } else {
      BodyAt(chunks[1..], k - 1);
      StartOfRest(chunks, k);
      var at := Start(chunks[1..], k - 1);
      PartBehind(first, rest, at, at + n);
    }
  }

  lemma {:induction false} StartOfRest(chunks: seq<Chunk>, k: nat)
    requires 0 < k <= |chunks|
    ensures Start(chunks, k) == CHUNK_HEADER_LENGTH + Padded(|chunks[0].payload|) + Start(chunks[1..], k - 1)
  {
    if k > 1 {
      StartOfRest(chunks, k - 1);
    }
  }

  lemma {:induction false} BodyLength(chunks: seq<Chunk>)
    requires Valid(chunks)
    ensures |Body(chunks)| == Start(chunks, |chunks|)
  {
    hide Body, EncodeChunk, Padded;
    BodyUnfold(chunks);
    if chunks != [] {
      BodyLength(chunks[1..]);
      StartOfRest(chunks, |chunks|);
    }
  }

  lemma {:induction false} StartsClimb(chunks: seq<Chunk>, j: nat, k: nat)
    requires j <= k <= |chunks|
    ensures Start(chunks, j) <= Start(chunks, k)
  {
    if j < k {
      StartsClimb(chunks, j, k - 1);
    }
  }

  lemma ChunkHeader(c: Chunk)
    requires ValidChunk(c)
    ensures EncodeChunk(c)[..4] == c.tag && EncodeChunk(c)[4..8] == LittleEndian(|c.payload|)
  {
    hide LittleEndian;
  }

  lemma EncodeAt(size: Bytes, chunks: seq<Chunk>, from: nat, to: nat)
    requires |size| == 4 && Valid(chunks) && from <= to <= |Body(chunks)|
    ensures HEADER_LENGTH + to <= |Encode(size, chunks)|
    ensures Encode(size, chunks)[HEADER_LENGTH + from..HEADER_LENGTH + to] == Body(chunks)[from..to]
  {
    hide Body;
  }

  lemma PartOf(b: Bytes, from: nat, n: nat, i: nat, j: nat)
    requires from + n <= |b| && i <= j <= n
    ensures b[from + i..from + j] == b[from..from + n][i..j]
  {
    var part := b[from..from + n];
    forall t | 0 <= t < j - i ensures b[from + i..from + j][t] == part[i..j][t] {
      assert part[i + t] == b[from + i + t];
    }
  }

  lemma PrefixAt(file: Bytes, all: Bytes, from: nat, to: nat)
    requires file <= all && from <= to <= |file|
    ensures file[from..to] == all[from..to]
  {
  }

  /** The header of chunk k, when the file has the whole of it. */
  lemma HeaderAt(file: Bytes, size: Bytes, chunks: seq<Chunk>, k: nat)
    requires |size| == 4 && Valid(chunks) && k < |chunks| && file <= Encode(size, chunks)
    requires HEADER_LENGTH + Start(chunks, k) + CHUNK_HEADER_LENGTH <= |file|
    ensures var at := HEADER_LENGTH + Start(chunks, k);
            file[at..at + 4] == chunks[k].tag && FromLittleEndian(file[at + 4..at + 8]) == |chunks[k].payload|
  {
    hide Body, Start, Encode, EncodeChunk, LittleEndian, FromLittleEndian;
    var at, n := Start(chunks, k), |EncodeChunk(chunks[k])|;
    BodyAt(chunks, k);
    ChunkHeader(chunks[k]);
    LittleEndianBack(|chunks[k].payload|);
    PartOf(Body(chunks), at, n, 0, 4);
    PartOf(Body(chunks), at, n, 4, 8);
    EncodeAt(size, chunks, at, at + 4);
    EncodeAt(size, chunks, at + 4, at + 8);
    PrefixAt(file, Encode(size, chunks), HEADER_LENGTH + at, HEADER_LENGTH + at + 4);
    PrefixAt(file, Encode(size, chunks), HEADER_LENGTH + at + 4, HEADER_LENGTH + at + 8);
  }

  lemma {:induction false} WalkFrom(file: Bytes, size: Bytes, chunks: seq<Chunk>, k: nat)
    requires |size| == 4 && Valid(chunks) && k <= |chunks| && file <= Encode(size, chunks)
    ensures Walk(file, HEADER_LENGTH + Start(chunks, k)) <==>
            exists j :: k <= j && ShowsMetadata(chunks, j, |file|)
    decreases |chunks| - k
  {
    hide Body, FromLittleEndian, LittleEndian, IsMetadata, Reads;
    var at, n := HEADER_LENGTH + Start(chunks, k), |file|;
    if |file| < at + CHUNK_HEADER_LENGTH || k == |chunks| {
      BodyLength(chunks);
      forall j | k <= j < |chunks| ensures !ShowsMetadata(chunks, j, n) {
        StartsClimb(chunks, k, j);
      }
    } else {
      HeaderAt(file, size, chunks, k);
      WalkFrom(file, size, chunks, k + 1);
      MetadataReads(chunks[k].tag);
      if IsMetadata(chunks[k].tag) {
        assert ShowsMetadata(chunks, k, n);
      }
    }
  }

  /**
   The walk over a file, whole or cut off anywhere, finds metadata exactly when a chunk with that tag shows its
   header in the file, whatever bytes the payloads hold.
   */
  lemma WalkFindsMetadata(file: Bytes, size: Bytes, chunks: seq<Chunk>)
    requires |size| == 4 && Valid(chunks) && HEADER_LENGTH <= |file| && file <= Encode(size, chunks)
    ensures HasHeader(file)
    ensures Walk(file, HEADER_LENGTH) <==> exists k :: ShowsMetadata(chunks, k, |file|)
  {
    hide Body, Walk;
    WalkFrom(file, size, chunks, 0);
    var all := Encode(size, chunks);
    assert file[..4] == all[..4] == RIFF && file[8..12] == all[8..12] == WEBP;
  }

  /** Of a whole file the walk tells whether there is a chunk with metadata. */
  lemma WholeFileIsDecided(size: Bytes, chunks: seq<Chunk>)
    requires |size| == 4 && Valid(chunks)
    ensures HasHeader(Encode(size, chunks))
    ensures Walk(Encode(size, chunks), HEADER_LENGTH) <==>
            exists k :: 0 <= k < |chunks| && (Reads(chunks[k].tag, "EXIF") || Reads(chunks[k].tag, "XMP "))
  {
    hide Body, Walk, Reads;
    var n := |Encode(size, chunks)|;
    WalkFindsMetadata(Encode(size, chunks), size, chunks);
    forall k | 0 <= k < |chunks| ensures HEADER_LENGTH + Start(chunks, k) + CHUNK_HEADER_LENGTH <= n {
      BodyAt(chunks, k);
    }
    forall k | 0 <= k < |chunks| && (Reads(chunks[k].tag, "EXIF") || Reads(chunks[k].tag, "XMP "))
      ensures ShowsMetadata(chunks, k, n)
    {
    }
  }

  // ---------- Every file is the beginning of an encoding ----------

  function Zeros(n: nat): (b: Bytes)
    ensures |b| == n
  {
    seq(n, _ => 0)
  }

  /** The chunk at the front, with zeros for what is missing of it. */
  function FrontChunk(rest: Bytes): Chunk {
    var head := rest + Zeros(CHUNK_HEADER_LENGTH);
    var size := FromLittleEndian(head[4..8]);
    var full := rest + Zeros(CHUNK_HEADER_LENGTH + size + 1);
    Chunk(head[..4], full[8..8 + size], full[8 + size])
  }

  lemma FrontChunkIs(rest: Bytes)
    ensures ValidChunk(FrontChunk(rest))
    ensures var b := EncodeChunk(FrontChunk(rest)); if |rest| <= |b| then rest <= b else b <= rest
  {
    hide FromLittleEndian, LittleEndian;
    var c := FrontChunk(rest);
    var head := rest + Zeros(CHUNK_HEADER_LENGTH);
    LittleEndianIs(head[4..8]);
    var b := EncodeChunk(c);
    forall j | 0 <= j < |b| && j < |rest| ensures b[j] == rest[j] {
      if j < 4 {
      } else if j < 8 {
        assert b[j] == LittleEndian(|c.payload|)[j - 4] == head[4..8][j - 4];
      }
    }
    var n := if |rest| <= |b| then |rest| else |b|;
    assert b[..n] == rest[..n];
  }

  /** Whatever follows the header can be read as chunks, the last one cut off perhaps. */
  lemma {:induction false} AnyBytesBeginABody(rest: Bytes) returns (chunks: seq<Chunk>)
    ensures Valid(chunks) && rest <= Body(chunks)
    decreases |rest|
  {
    if rest == [] {
      return [];
    }
    hide FrontChunk, EncodeChunk;
    var c := FrontChunk(rest);
    FrontChunkIs(rest);
    var b := EncodeChunk(c);
    if |rest| <= |b| {
      chunks := [c];
    } else {
      var more := AnyBytesBeginABody(rest[|b|..]);
      chunks := [c] + more;
      assert chunks[1..] == more;
      assert rest == b + rest[|b|..];
    }
  }

  /** Every file with the header begins an encoding, so that WalkFindsMetadata speaks about all of them. */
  lemma EveryFileBeginsAnEncoding(file: Bytes) returns (size: Bytes, chunks: seq<Chunk>)
    requires HasHeader(file)
    ensures |size| == 4 && Valid(chunks) && file <= Encode(size, chunks)
  {
    hide Body;
    size := file[4..8];
    chunks := AnyBytesBeginABody(file[12..]);
    assert file == file[..4] + file[4..8] + file[8..12] + file[12..];
    assert file == RIFF + size + WEBP + file[12..];
  }
}
