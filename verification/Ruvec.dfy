/** The ruvec1 file format: the encoder and the decoder of the file-system backend.

    Floats travel as their 32-bit patterns. */
module Ruvec {
  import opened Bytes
  import Bundle
  import opened Limits
  import opened Wrappers

  const MAGIC: seq<byte> := Bundle.Ascii("ruvec1\0\0")
  const HEADER_BYTES: nat := 24

  datatype Error =
    | LengthMismatch(ids: nat, vectors: nat)
    | DimensionMismatch(expected: nat, actual: nat)
    | ShortFile
    | BadMagic
    | TooMany(count: nat)
    | BadDim(dim: nat)

  datatype Batch = Batch(ids: seq<u64>, vectors: seq<seq<u32>>, dim: nat)

  // ---------------------------------------------------------------- the format

  function Words(v: seq<u32>): seq<byte> {
    if v == [] then [] else LittleEndian(v[0], 4) + Words(v[1..])
  }

  function Records(ids: seq<u64>, vectors: seq<seq<u32>>): seq<byte>
    requires |ids| == |vectors|
  {
    if ids == [] then [] else LittleEndian(ids[0], 8) + Words(vectors[0]) + Records(ids[1..], vectors[1..])
  }

  /** The count keeps its 64 low bits, the dimension its 32 low bits. */
  function Header(count: nat, dim: nat): (r: seq<byte>)
    ensures |r| == HEADER_BYTES
  {
    MAGIC + LittleEndian(count, 8) + LittleEndian(dim, 4) + LittleEndian(0, 4)
  }

  function Encoded(b: Batch): seq<byte>
    requires |b.ids| == |b.vectors|
  {
    Header(|b.ids|, b.dim) + Records(b.ids, b.vectors)
  }

  /** n words from position pos on. */
  function ReadWords(file: seq<byte>, pos: nat, n: nat): (v: seq<u32>)
    requires pos + 4 * n <= |file|
    ensures |v| == n
    decreases n
  {
    if n == 0 then [] else [Word(file[pos..pos + 4])] + ReadWords(file, pos + 4, n - 1)
  }

  function Word(s: seq<byte>): u32
    requires |s| == 4
  {
    FromLittleEndianBound(s);
    Pow256Values();
    FromLittleEndian(s)
  }

  function Long(s: seq<byte>): u64
    requires |s| == 8
  {
    FromLittleEndianBound(s);
    Pow256Values();
    FromLittleEndian(s)
  }

  function ReadRecords(file: seq<byte>, pos: nat, count: nat, dim: nat): Result<(seq<u64>, seq<seq<u32>>), Error>
    requires pos <= |file|
    decreases count
  {
    if count == 0 then Ok(([], []))
    else if pos + 8 > |file| then Err(ShortFile)
    else if pos + 8 + 4 * dim > |file| then Err(ShortFile)
    else
      var id, v := Long(file[pos..pos + 8]), ReadWords(file, pos + 8, dim);
      match ReadRecords(file, pos + 8 + 4 * dim, count - 1, dim)
      case Err(e) => Err(e)
      case Ok((ids, vectors)) => Ok(([id] + ids, [v] + vectors))
  }

  function Decoded(file: seq<byte>): Result<Batch, Error> {
    if |file| < HEADER_BYTES then Err(ShortFile)
    else if file[..8] != MAGIC then Err(BadMagic)
    else
      var count, dim := Long(file[8..16]), Word(file[16..20]);
      if count > MAX_PULLED_VECTORS then Err(TooMany(count))
      else if dim == 0 || dim > MAX_PULLED_DIM then Err(BadDim(dim))
      else match ReadRecords(file, HEADER_BYTES, count, dim)
        case Err(e) => Err(e)
        case Ok((ids, vectors)) => Ok(Batch(ids, vectors, dim))
  }

  // ---------------------------------------------------------------- reading what was written

  lemma WordOfLittleEndian(n: nat)
    ensures Word(LittleEndian(n, 4)) == n % 0x1_0000_0000
  {
    LittleEndianTruncates(n, 4);
    Pow256Values();
  }

  lemma LongOfLittleEndian(n: u64)
    ensures Long(LittleEndian(n, 8)) == n
  {
    Pow256Values();
    LittleEndianRoundTrip(n, 8);
  }

  lemma {:induction false} WordsSize(v: seq<u32>)
    ensures |Words(v)| == 4 * |v|
  {
    if v != [] {
      WordsSize(v[1..]);
    }
  }

  /** Words written at pos are read back, whatever surrounds them. */
  lemma {:induction false} ReadWrittenWords(file: seq<byte>, pos: nat, v: seq<u32>)
    requires pos + 4 * |v| <= |file| && file[pos..pos + 4 * |v|] == Words(v)
    ensures ReadWords(file, pos, |v|) == v
    decreases |v|
  {
    hide LittleEndian, Word;
    if v != [] {
      WordsSize(v[1..]);
      var w := Words(v);
      assert file[pos..pos + 4] == w[..4] == LittleEndian(v[0], 4);
      assert file[pos + 4..pos + 4 * |v|] == w[4..] == Words(v[1..]);
      WordOfLittleEndian(v[0]);
      ReadWrittenWords(file, pos + 4, v[1..]);
    }
  }

  predicate SameDim(vectors: seq<seq<u32>>, dim: nat) {
    forall i :: 0 <= i < |vectors| ==> |vectors[i]| == dim
  }

  /** Records written at the end of a file are read back. */
  lemma {:induction false} ReadWrittenRecords(file: seq<byte>, pos: nat, ids: seq<u64>, vectors: seq<seq<u32>>, dim: nat)
    requires |ids| == |vectors| && SameDim(vectors, dim)
    requires pos <= |file| && file[pos..] == Records(ids, vectors)
    ensures ReadRecords(file, pos, |ids|, dim) == Ok((ids, vectors))
    decreases |ids|
  {
    hide LittleEndian, Word, Long, ReadWords, Words;
    if ids != [] {
      var head, words, rest := LittleEndian(ids[0], 8), Words(vectors[0]), Records(ids[1..], vectors[1..]);
      WordsSize(vectors[0]);
      Slices(file, pos, head, words, rest);
      LongOfLittleEndian(ids[0]);
      ReadWrittenWords(file, pos + 8, vectors[0]);
      assert SameDim(vectors[1..], dim);
      ReadWrittenRecords(file, pos + 8 + 4 * dim, ids[1..], vectors[1..], dim);
      assert [ids[0]] + ids[1..] == ids && [vectors[0]] + vectors[1..] == vectors;
    }
  }

  /** Where the parts of the end of a file are. */
  lemma Slices(file: seq<byte>, pos: nat, a: seq<byte>, b: seq<byte>, c: seq<byte>)
    requires pos <= |file| && file[pos..] == a + b + c
    ensures pos + |a| + |b| <= |file|
    ensures file[pos..pos + |a|] == a
    ensures file[pos + |a|..pos + |a| + |b|] == b
    ensures file[pos + |a| + |b|..] == c
  {
    var t := file[pos..];
    assert file[pos..pos + |a|] == t[..|a|];
    assert file[pos + |a|..pos + |a| + |b|] == t[|a|..|a| + |b|];
    assert file[pos + |a| + |b|..] == t[|a| + |b|..];
  }

  lemma HeaderFields(count: u64, dim: nat, file: seq<byte>)
    requires |file| >= HEADER_BYTES && file[..HEADER_BYTES] == Header(count, dim)
    ensures file[..8] == MAGIC
    ensures Long(file[8..16]) == count
    ensures Word(file[16..20]) == dim % 0x1_0000_0000
  {
    hide LittleEndian, Word, Long;
    var h := Header(count, dim);
    assert file[..8] == h[..8] == MAGIC;
    assert file[8..16] == h[8..16] == LittleEndian(count, 8);
    assert file[16..20] == h[16..20] == LittleEndian(dim, 4);
    LongOfLittleEndian(count);
    WordOfLittleEndian(dim);
  }

  predicate InRange(b: Batch) {
    0 < b.dim <= MAX_PULLED_DIM && |b.ids| <= MAX_PULLED_VECTORS
  }

  /** A written collection is pulled back unchanged exactly when it is within the limits the reader enforces.  The writer
      enforces none: beyond them the file is refused, or a dimension that does not fit 32 bits comes back truncated. */
  lemma RoundTripExactlyWhen(b: Batch)
    requires |b.ids| == |b.vectors| && SameDim(b.vectors, b.dim)
    requires |b.ids| < 0x1_0000_0000_0000_0000
    ensures Decoded(Encoded(b)) == Ok(b) <==> InRange(b)
  {
    hide Header, Records, Word, Long;
    var file := Encoded(b);
    assert file[..HEADER_BYTES] == Header(|b.ids|, b.dim);
    HeaderFields(|b.ids|, b.dim, file);
    if InRange(b) {
      assert file[HEADER_BYTES..] == Records(b.ids, b.vectors);
      ReadWrittenRecords(file, HEADER_BYTES, b.ids, b.vectors, b.dim);
    }
  }

  // ---------------------------------------------------------------- where everything is

  /** Where the i-th record starts. */
  function RecordStart(i: nat, dim: nat): (p: nat)
    ensures p >= HEADER_BYTES
  {
    24 + i * (8 + 4 * dim)
  }

  lemma RecordAfter(i: nat, dim: nat)
    ensures RecordStart(0, dim) == 24 && RecordStart(i + 1, dim) == RecordStart(i, dim) + 8 + 4 * dim
  {
  }

  lemma {:induction false} RecordsMonotone(i: nat, n: nat, dim: nat)
    requires i <= n
    ensures RecordStart(i, dim) <= RecordStart(n, dim)
  {
    MulMonotone(i, n, 8 + 4 * dim);
  }

  lemma {:induction false} WordAt(v: seq<u32>, j: nat)
    requires j < |v|
    ensures |Words(v)| == 4 * |v| && Words(v)[4 * j..4 * j + 4] == LittleEndian(v[j], 4)
  {
    hide LittleEndian;
    WordsSize(v);
    WordsSize(v[1..]);
    if j > 0 {
      WordAt(v[1..], j - 1);
      assert Words(v)[4..] == Words(v[1..]);
      assert Words(v)[4 * j..4 * j + 4] == Words(v)[4..][4 * (j - 1)..4 * (j - 1) + 4];
    }
  }

  /** In a file whose records start at a record boundary, each record is where it belongs. */
  lemma {:induction false} RecordAt(file: seq<byte>, first: nat, ids: seq<u64>, vectors: seq<seq<u32>>, dim: nat, i: nat)
    requires |ids| == |vectors| && SameDim(vectors, dim) && i < |ids|
    requires RecordStart(first, dim) <= |file| && file[RecordStart(first, dim)..] == Records(ids, vectors)
    ensures
      var p := RecordStart(first + i, dim);
      && p + 8 + 4 * dim <= |file|
      && file[p..p + 8] == LittleEndian(ids[i], 8) && file[p + 8..p + 8 + 4 * dim] == Words(vectors[i])
    decreases |ids|
  {
    hide LittleEndian, Words, RecordStart;
    var p := RecordStart(first, dim);
    RecordAfter(first, dim);
    WordsSize(vectors[0]);
    Slices(file, p, LittleEndian(ids[0], 8), Words(vectors[0]), Records(ids[1..], vectors[1..]));
    if i > 0 {
      assert SameDim(vectors[1..], dim);
      RecordAt(file, first + 1, ids[1..], vectors[1..], dim, i - 1);
    }
  }

  lemma {:induction false} RecordsSize(ids: seq<u64>, vectors: seq<seq<u32>>, dim: nat)
    requires |ids| == |vectors| && SameDim(vectors, dim)
    ensures 24 + |Records(ids, vectors)| == RecordStart(|ids|, dim)
  {
    hide LittleEndian, Words;
    if ids != [] {
      WordsSize(vectors[0]);
      assert SameDim(vectors[1..], dim);
      RecordsSize(ids[1..], vectors[1..], dim);
      RecordAfter(|ids| - 1, dim);
      hide RecordStart;
    }
  }

  lemma MagicIs()
    ensures MAGIC == [0x72, 0x75, 0x76, 0x65, 0x63, 0x31, 0, 0]
  {
    assert "ruvec1\0\0" == ['r', 'u', 'v', 'e', 'c', '1', '\0', '\0'];
  }

  lemma InFront(h: seq<byte>, rest: seq<byte>)
    requires |h| == 24
    ensures
      var file := h + rest;
      && file[..8] == h[..8] && file[8..16] == h[8..16] && file[16..20] == h[16..20] && file[20..24] == h[20..24]
      && file[24..] == rest
  {
  }

  /** The start of a written file, all numbers with the lowest byte first: "ruvec1" and two zeros, the count in eight
      bytes, the dimension in four, four zeros. */
  lemma EncodedHeader(b: Batch)
    requires |b.ids| == |b.vectors| && SameDim(b.vectors, b.dim)
    ensures
      var file := Encoded(b);
      && |file| == RecordStart(|b.ids|, b.dim)
      && file[..8] == [0x72, 0x75, 0x76, 0x65, 0x63, 0x31, 0, 0]
      && file[8..16] == LittleEndian(|b.ids|, 8) && file[16..20] == LittleEndian(b.dim, 4)
      && file[20..24] == [0, 0, 0, 0] && file[24..] == Records(b.ids, b.vectors)
  {
    hide LittleEndian, Records, MAGIC, RecordStart, Header;
    var file, h := Encoded(b), Header(|b.ids|, b.dim);
    HeaderLayout(|b.ids|, b.dim);
    RecordsSize(b.ids, b.vectors, b.dim);
    InFront(h, Records(b.ids, b.vectors));
  }

  lemma Inner(file: seq<byte>, p: nat, n: nat, a: nat, words: seq<byte>)
    requires p + n <= |file| && file[p..p + n] == words && a + 4 <= n
    ensures file[p + a..p + a + 4] == words[a..a + 4]
  {
    var whole, part := file[p + a..p + a + 4], words[a..a + 4];
    assert whole[0] == part[0] && whole[1] == part[1] && whole[2] == part[2] && whole[3] == part[3];
    assert whole == part;
  }

  lemma HeaderLayout(count: nat, dim: nat)
    ensures
      var h := Header(count, dim);
      && h[..8] == [0x72, 0x75, 0x76, 0x65, 0x63, 0x31, 0, 0]
      && h[8..16] == LittleEndian(count, 8) && h[16..20] == LittleEndian(dim, 4) && h[20..24] == [0, 0, 0, 0]
  {
    MagicIs();
    assert LittleEndian(0, 4) == [0, 0, 0, 0];
    hide LittleEndian, MAGIC;
  }

  /** Then, per vector, eight bytes of id and four per coordinate, and nothing else: the place of every number. */
  lemma EncodedRecord(b: Batch, i: nat, j: nat)
    requires |b.ids| == |b.vectors| && SameDim(b.vectors, b.dim) && i < |b.ids| && j < b.dim
    ensures
      var file, p := Encoded(b), RecordStart(i, b.dim);
      && p + 8 + 4 * j + 4 <= |file|
      && file[p..p + 8] == LittleEndian(b.ids[i], 8)
      && file[p + 8 + 4 * j..p + 8 + 4 * j + 4] == LittleEndian(b.vectors[i][j], 4)
  {
    hide LittleEndian, Records, RecordStart, Encoded, Words;
    EncodedHeader(b);
    RecordAfter(0, b.dim);
    RecordAt(Encoded(b), 0, b.ids, b.vectors, b.dim, i);
    WordAt(b.vectors[i], j);
    Inner(Encoded(b), RecordStart(i, b.dim) + 8, 4 * b.dim, 4 * j, Words(b.vectors[i]));
  }

  lemma {:induction false} ReadWordAt(file: seq<byte>, pos: nat, n: nat, j: nat)
    requires pos + 4 * n <= |file| && j < n
    ensures ReadWords(file, pos, n)[j] == Word(file[pos + 4 * j..pos + 4 * j + 4])
    decreases n
  {
    hide Word;
    if j > 0 {
      ReadWordAt(file, pos + 4, n - 1, j - 1);
    }
  }

  /** Reading succeeds exactly when all records are there. */
  lemma {:induction false} ReadsAllExactlyWhen(file: seq<byte>, first: nat, count: nat, dim: nat)
    requires RecordStart(first, dim) <= |file|
    ensures
      var r := ReadRecords(file, RecordStart(first, dim), count, dim);
      && (r.Ok? <==> RecordStart(first + count, dim) <= |file|)
      && (r.Err? ==> r.error == ShortFile)
      && (r.Ok? ==> |r.value.0| == |r.value.1| == count)
    decreases count
  {
    hide Word, Long, ReadWords, RecordStart;
    RecordAfter(first, dim);
    if count > 0 {
      RecordsMonotone(first + 1, first + count, dim);
      if RecordStart(first + 1, dim) <= |file| {
        ReadsAllExactlyWhen(file, first + 1, count - 1, dim);
      }
    }
  }

  lemma {:induction false} ReadRecordAt(file: seq<byte>, first: nat, count: nat, dim: nat, i: nat)
    requires RecordStart(first, dim) <= |file| && RecordStart(first + count, dim) <= |file| && i < count
    ensures ReadRecords(file, RecordStart(first, dim), count, dim).Ok?
    ensures
      var (ids, vectors) := ReadRecords(file, RecordStart(first, dim), count, dim).value;
      var p := RecordStart(first + i, dim);
      && |ids| == |vectors| == count && p + 8 + 4 * dim <= |file|
      && ids[i] == Long(file[p..p + 8]) && vectors[i] == ReadWords(file, p + 8, dim)
    decreases count
  {
    hide Word, Long, ReadWords, RecordStart;
    RecordAfter(first, dim);
    RecordsMonotone(first + 1, first + count, dim);
    ReadsAllExactlyWhen(file, first, count, dim);
    ReadsAllExactlyWhen(file, first + 1, count - 1, dim);
    if i > 0 {
      ReadRecordAt(file, first + 1, count - 1, dim, i - 1);
    }
  }

  /** What any file reads as: the first thing that is wrong with it decides; trailing bytes and the four reserved ones do
      not matter. */
  lemma DecodedExactlyWhen(file: seq<byte>)
    ensures
      if |file| < 24 then Decoded(file) == Err(ShortFile)
      else if file[..8] != [0x72, 0x75, 0x76, 0x65, 0x63, 0x31, 0, 0] then Decoded(file) == Err(BadMagic)
      else
        var count, dim := Long(file[8..16]), Word(file[16..20]);
        if count > 100_000_000 then Decoded(file) == Err(TooMany(count))
        else if dim == 0 || dim > 8192 then Decoded(file) == Err(BadDim(dim))
        else if |file| < RecordStart(count, dim) then Decoded(file) == Err(ShortFile)
        else Decoded(file).Ok? && Decoded(file).value.dim == dim
             && |Decoded(file).value.ids| == |Decoded(file).value.vectors| == count
  {
    MagicIs();
    hide Word, Long, ReadRecords, MAGIC;
    if |file| >= 24 {
      var count, dim := Long(file[8..16]), Word(file[16..20]);
      RecordAfter(0, dim);
      ReadsAllExactlyWhen(file, 0, count, dim);
    }
  }

  /** A file that can be read is read from the places that EncodedRecord names. */
  lemma DecodedRecord(file: seq<byte>, i: nat, j: nat)
    requires Decoded(file).Ok? && i < |Decoded(file).value.ids| && j < Decoded(file).value.dim
    ensures
      var b, p := Decoded(file).value, RecordStart(i, Decoded(file).value.dim);
      && p + 8 + 4 * j + 4 <= |file| && i < |b.vectors| && j < |b.vectors[i]|
      && b.ids[i] == Long(file[p..p + 8])
      && b.vectors[i][j] == Word(file[p + 8 + 4 * j..p + 8 + 4 * j + 4])
  {
    hide Word, Long, ReadRecords, ReadWords, MAGIC, RecordStart;
    DecodedExactlyWhen(file);
    var count, dim := Long(file[8..16]), Word(file[16..20]);
    RecordAfter(0, dim);
    ReadRecordAt(file, 0, count, dim, i);
    ReadWordAt(file, RecordStart(i, dim) + 8, dim, j);
  }

  // ---------------------------------------------------------------- the file operations

  method Write(b: Batch) returns (r: Result<seq<byte>, Error>)
    ensures r.Ok? <==> |b.ids| == |b.vectors| && SameDim(b.vectors, b.dim)
    ensures r.Ok? ==> r.value == Encoded(b)
    ensures |b.ids| != |b.vectors| ==> r == Err(LengthMismatch(|b.ids|, |b.vectors|))
    ensures r.Err? && |b.ids| == |b.vectors| ==>
      exists i :: 0 <= i < |b.vectors| && |b.vectors[i]| != b.dim && r.error == DimensionMismatch(b.dim, |b.vectors[i]|)
  {
    if |b.ids| != |b.vectors| {
      return Err(LengthMismatch(|b.ids|, |b.vectors|));
    }
    for i := 0 to |b.vectors|
      invariant forall j :: 0 <= j < i ==> |b.vectors[j]| == b.dim
    {
      if |b.vectors[i]| != b.dim {
        return Err(DimensionMismatch(b.dim, |b.vectors[i]|));
      }
    }
    hide LittleEndian, Header, MAGIC, Records;
    var f := MAGIC + LittleEndian(|b.ids|, 8) + LittleEndian(b.dim, 4) + LittleEndian(0, 4);
    HeaderIs(|b.ids|, b.dim);
    var records := WriteRecords(b.ids, b.vectors);
    r := Ok(f + records);
  }

  method WriteRecords(ids: seq<u64>, vectors: seq<seq<u32>>) returns (bytes: seq<byte>)
    requires |ids| == |vectors|
    ensures bytes == Records(ids, vectors)
  {
    hide LittleEndian, Words;
    bytes := [];
    for i := 0 to |ids|
      invariant bytes + Records(ids[i..], vectors[i..]) == Records(ids, vectors)
    {
      ghost var before, rest := bytes, Records(ids[i + 1..], vectors[i + 1..]);
      assert ids[i..][1..] == ids[i + 1..] && vectors[i..][1..] == vectors[i + 1..];
      assert Records(ids[i..], vectors[i..]) == LittleEndian(ids[i], 8) + Words(vectors[i]) + rest;
      bytes := bytes + LittleEndian(ids[i], 8);
      var words := WriteWords(vectors[i]);
      bytes := bytes + words;
      Regroup(before, LittleEndian(ids[i], 8), words, rest);
    }
    assert bytes + [] == bytes;
  }

  lemma Regroup(a: seq<byte>, b: seq<byte>, c: seq<byte>, d: seq<byte>)
    ensures a + b + c + d == a + (b + c + d)
  {
  }

  lemma HeaderIs(count: nat, dim: nat)
    ensures Header(count, dim) == MAGIC + LittleEndian(count, 8) + LittleEndian(dim, 4) + LittleEndian(0, 4)
  {
  }

  method WriteWords(v: seq<u32>) returns (bytes: seq<byte>)
    ensures bytes == Words(v)
  {
    hide LittleEndian;
    bytes := [];
    for i := 0 to |v|
      invariant bytes + Words(v[i..]) == Words(v)
    {
      assert v[i..][1..] == v[i + 1..];
      ghost var before := bytes;
      bytes := bytes + LittleEndian(v[i], 4);
      assert bytes + Words(v[i + 1..]) == before + (LittleEndian(v[i], 4) + Words(v[i + 1..]));
    }
    assert bytes + [] == bytes;
  }

  method PullVectors(file: seq<byte>) returns (r: Result<Batch, Error>)
    ensures r == Decoded(file)
  {
    if |file| < HEADER_BYTES {
      return Err(ShortFile);
    }
    if file[..8] != MAGIC {
      return Err(BadMagic);
    }
    var count, dim := Long(file[8..16]), Word(file[16..20]);
    if count > MAX_PULLED_VECTORS {
      return Err(TooMany(count));
    }
    if dim == 0 || dim > MAX_PULLED_DIM {
      return Err(BadDim(dim));
    }
    hide ReadRecords;
    var records := PullRecords(file, count, dim);
    match records
    case Err(e) => r := Err(e);
    case Ok((ids, vectors)) => r := Ok(Batch(ids, vectors, dim));
  }

  method PullRecords(file: seq<byte>, count: nat, dim: nat) returns (r: Result<(seq<u64>, seq<seq<u32>>), Error>)
    requires HEADER_BYTES <= |file|
    ensures r == ReadRecords(file, HEADER_BYTES, count, dim)
  {
    hide Word, Long, ReadWords, Appended;
    var ids: seq<u64>, vectors: seq<seq<u32>>, pos: nat := [], [], HEADER_BYTES;
    PullNone(ReadRecords(file, pos, count, dim));
    for i := 0 to count
      invariant pos <= |file|
      invariant ReadRecords(file, HEADER_BYTES, count, dim) ==
        Appended(ids, vectors, ReadRecords(file, pos, count - i, dim))
    {
      AppendedEnds(ids, vectors, ShortFile);
      if pos + 8 > |file| {
        return Err(ShortFile);
      }
      if pos + 8 + 4 * dim > |file| {
        return Err(ShortFile);
      }
      var id := Long(file[pos..pos + 8]);
      var v := ReadWords(file, pos + 8, dim);
      PullOne(file, pos, count - i, dim, ids, vectors);
      ids, vectors := ids + [id], vectors + [v];
      pos := pos + 8 + 4 * dim;
    }
    AppendedEnds(ids, vectors, ShortFile);
    r := Ok((ids, vectors));
  }

  lemma AppendedEnds(ids: seq<u64>, vectors: seq<seq<u32>>, e: Error)
    ensures Appended(ids, vectors, Ok(([], []))) == Ok((ids, vectors))
    ensures Appended(ids, vectors, Err(e)) == Err(e)
  {
    assert ids + [] == ids && vectors + [] == vectors;
  }

  /** What has been pulled so far, followed by the outcome of pulling the rest. */
  function Appended(ids: seq<u64>, vectors: seq<seq<u32>>, rest: Result<(seq<u64>, seq<seq<u32>>), Error>)
    : Result<(seq<u64>, seq<seq<u32>>), Error>
  {
    match rest
    case Err(e) => Err(e)
    case Ok((moreIds, moreVectors)) => Ok((ids + moreIds, vectors + moreVectors))
  }

  lemma PullNone(rest: Result<(seq<u64>, seq<seq<u32>>), Error>)
    ensures Appended([], [], rest) == rest
  {
    if rest.Ok? {
      assert [] + rest.value.0 == rest.value.0 && [] + rest.value.1 == rest.value.1;
    }
  }

  lemma PullOne(file: seq<byte>, pos: nat, count: nat, dim: nat, ids: seq<u64>, vectors: seq<seq<u32>>)
    requires count > 0 && pos + 8 + 4 * dim <= |file|
    ensures
      var id, v := Long(file[pos..pos + 8]), ReadWords(file, pos + 8, dim);
      Appended(ids, vectors, ReadRecords(file, pos, count, dim)) ==
      Appended(ids + [id], vectors + [v], ReadRecords(file, pos + 8 + 4 * dim, count - 1, dim))
  {
    hide Word, Long, ReadWords;
    var id, v := Long(file[pos..pos + 8]), ReadWords(file, pos + 8, dim);
    match ReadRecords(file, pos + 8 + 4 * dim, count - 1, dim)
    case Err(e) =>
    case Ok((moreIds, moreVectors)) =>
      assert ids + ([id] + moreIds) == ids + [id] + moreIds;
      assert vectors + ([v] + moreVectors) == vectors + [v] + moreVectors;
  }
}
