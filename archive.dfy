/** The folder archive of the command-line tool: algorithm detection from
    the first byte, the archive layout `compress_folder` writes and the
    cursor-driven reader of `decompress_folder`. The payload codecs are
    parameters: any compressor and decompressor can be plugged in. */
module Archive {
  import Bytes
  import Rle

  type byte = Bytes.byte

  const RLE_MAGIC: byte := 0x52
  const LZ_MAGIC: byte := 0x4C

  /** Why an archive operation stops: the messages of the `anyhow` errors,
      a panic on an out-of-range index or slice, or an error of the payload
      decompressor. */
  datatype Error =
    | EmptyInput | UnknownAlgorithm | InvalidAlgorithm | EmptyArchive
    | OutOfBounds | Codec(kind: Bytes.ErrorKind)

  datatype Result<T> = Ok(value: T) | Err(error: Error)

  datatype Status = Success | Failure(error: Error)

  /** A file: its path, as the bytes of its lossy UTF-8 rendering, and its
      content. */
  datatype Entry = Entry(path: seq<byte>, content: seq<byte>)

  /** The files `decompress_folder` wrote, in order, and how it returned. */
  datatype Extracted = Extracted(files: seq<Entry>, status: Status)

  // ---------------------------------------------------------------------
  // Detection

  /** `detect_algorithm`: only the first byte is looked at. */
  function DetectAlgorithm(data: seq<byte>): (r: Result<string>)
    ensures r == Err(EmptyInput) <==> data == []
    ensures r == Ok("rle") <==> data != [] && data[0] == RLE_MAGIC
    ensures r == Ok("lz") <==> data != [] && data[0] == LZ_MAGIC
    ensures r == Err(UnknownAlgorithm) <==> data != [] && data[0] != RLE_MAGIC && data[0] != LZ_MAGIC
  {
    if |data| == 0 then Err(EmptyInput)
    else if data[0] == 0x52 then Ok("rle")
    else if data[0] == 0x4C then Ok("lz")
    else Err(UnknownAlgorithm)
  }

  /** The magic byte `compress_folder` writes for an algorithm name. */
  function MagicOf(algorithm: string): (r: Result<byte>)
    ensures r.Ok? <==> algorithm == "rle" || algorithm == "lz"
    ensures r.Err? ==> r.error == InvalidAlgorithm
  {
    if algorithm == "rle" then Ok(RLE_MAGIC)
    else if algorithm == "lz" then Ok(LZ_MAGIC)
    else Err(InvalidAlgorithm)
  }

  // ---------------------------------------------------------------------
  // Layout

  /** `n as u8`. */
  function Truncate8(n: nat): byte
  {
    n % 0x100
  }

  /** `(n as u32).to_le_bytes()`: the cast keeps the low 32 bits. */
  function LE32(n: nat): (b: seq<byte>)
    ensures |b| == 4
  {
    var m := n % 0x1_0000_0000;
    [m % 0x100, (m / 0x100) % 0x100, (m / 0x1_0000) % 0x100, m / 0x100_0000]
  }

  /** `u32::from_le_bytes`. */
  function FromLE32(b: seq<byte>): nat
    requires |b| == 4
  {
    b[0] as nat + 0x100 * b[1] as nat + 0x1_0000 * b[2] as nat + 0x100_0000 * b[3] as nat
  }

  /** The little-endian bytes give the low 32 bits back. */
  lemma LE32RoundTrip(n: nat)
    ensures FromLE32(LE32(n)) == n % 0x1_0000_0000
  {
    var m := n % 0x1_0000_0000;
    var b := LE32(n);
    assert m == 0x100 * (m / 0x100) + b[0];
    assert m / 0x100 == 0x100 * (m / 0x1_0000) + b[1];
    assert m / 0x1_0000 == 0x100 * (m / 0x100_0000) + b[2];
  }

  /** One file record: `[path_len as u8][path][len as u32 LE][payload]`,
      where `stored` is the length written into the header. */
  function Record(e: Entry, payload: seq<byte>, stored: nat): seq<byte>
  {
    [Truncate8(|e.path|)] + e.path + LE32(stored) + payload
  }

  /** The payload compressor `compress_folder` picks by name. */
  function Compressor(algorithm: string, compressRle: seq<byte> -> seq<byte>, compressLz: seq<byte> -> seq<byte>)
    : seq<byte> -> seq<byte>
  {
    if algorithm == "rle" then compressRle else compressLz
  }

  /** The records of `compress_folder`, in input order, as written: the
      length field holds the length of the uncompressed content. */
  function Records(files: seq<Entry>, compress: seq<byte> -> seq<byte>): seq<byte>
    decreases |files|
  {
    if files == [] then []
    else Record(files[0], compress(files[0].content), |files[0].content|) + Records(files[1..], compress)
  }

  /** What `compress_folder` returns. */
  function Archive(files: seq<Entry>, algorithm: string,
                   compressRle: seq<byte> -> seq<byte>, compressLz: seq<byte> -> seq<byte>): Result<seq<byte>>
  {
    match MagicOf(algorithm)
    case Err(e) => Err(e)
    case Ok(m) => Ok([m, Truncate8(|files|)] + Records(files, Compressor(algorithm, compressRle, compressLz)))
  }

  /** The header of an archive: the magic byte, then the file count
      truncated to a byte; an unknown name is refused before anything is
      written. */
  lemma ArchiveHeader(files: seq<Entry>, algorithm: string,
                      compressRle: seq<byte> -> seq<byte>, compressLz: seq<byte> -> seq<byte>)
    ensures var r := Archive(files, algorithm, compressRle, compressLz);
      (r == Err(InvalidAlgorithm) <==> algorithm != "rle" && algorithm != "lz") &&
      (r.Ok? ==> |r.value| >= 2 && r.value[0] == MagicOf(algorithm).value && r.value[1] == |files| % 0x100)
  {
  }

  /** Detection recovers the algorithm of every archive `compress_folder`
      writes. */
  lemma DetectArchive(files: seq<Entry>, algorithm: string,
                      compressRle: seq<byte> -> seq<byte>, compressLz: seq<byte> -> seq<byte>)
    requires Archive(files, algorithm, compressRle, compressLz).Ok?
    ensures DetectAlgorithm(Archive(files, algorithm, compressRle, compressLz).value) == Ok(algorithm)
  {
  }

  /** `compress_folder`: the header, then one record per file in input
      order. */
  method CompressFolder(files: seq<Entry>, algorithm: string,
                        compressRle: seq<byte> -> seq<byte>, compressLz: seq<byte> -> seq<byte>)
    returns (r: Result<seq<byte>>)
    ensures r == Archive(files, algorithm, compressRle, compressLz)
  {
    var magicByte: byte;
    if algorithm == "rle" {
      magicByte := RLE_MAGIC;
    } else if algorithm == "lz" {
      magicByte := LZ_MAGIC;
    } else {
      return Err(InvalidAlgorithm);
    }
    var archive: seq<byte> := [magicByte];
    archive := archive + [|files| % 0x100];
    var compress: seq<byte> -> seq<byte> := if algorithm == "rle" then compressRle else compressLz;
    ghost var header := archive;
    assert header == [MagicOf(algorithm).value, Truncate8(|files|)];
    assert compress == Compressor(algorithm, compressRle, compressLz);
    assert Archive(files, algorithm, compressRle, compressLz) == Ok(header + Records(files, compress));
    assert files[0..] == files;
    for i := 0 to |files|
      invariant archive + Records(files[i..], compress) == header + Records(files, compress)
    {
      var compressed := compress(files[i].content);
      RecordsAt(files, i, compress);
      ghost var rec, rest := Record(files[i], compressed, |files[i].content|), Records(files[i + 1..], compress);
      assert archive + (rec + rest) == (archive + rec) + rest;
      archive := WriteRecord(archive, files[i], compressed);
    }
    assert files[|files|..] == [];
    assert archive + [] == archive;
    r := Ok(archive);
  }

  /** The records from file `i` on are its record, then those of the
      files after it. */
  lemma RecordsAt(files: seq<Entry>, i: nat, compress: seq<byte> -> seq<byte>)
    requires i < |files|
    ensures Records(files[i..], compress)
         == Record(files[i], compress(files[i].content), |files[i].content|) + Records(files[i + 1..], compress)
  {
    assert files[i..][1..] == files[i + 1..];
  }

  /** The body of the loop of `compress_folder`: push the path length,
      extend by the path, the content length and the payload. */
  method WriteRecord(archive: seq<byte>, e: Entry, compressed: seq<byte>) returns (archive': seq<byte>)
    ensures archive' == archive + Record(e, compressed, |e.content|)
  {
    archive' := archive + [|e.path| % 0x100];
    archive' := archive' + e.path;
    archive' := archive' + LE32(|e.content|);
    archive' := archive' + compressed;
  }

  // ---------------------------------------------------------------------
  // Reading

  /** A record as the reader sees it: the path, the payload slice, and the
      cursor after it. */
  datatype Parsed = Parsed(path: seq<byte>, payload: seq<byte>, next: nat)

  /** The record at cursor `pos`: an index or slice past the end panics. */
  function ReadRecord(data: seq<byte>, pos: nat): (r: Result<Parsed>)
    ensures r.Ok? ==> pos < r.value.next <= |data|
    ensures r.Err? ==> r.error == OutOfBounds
  {
    if pos >= |data| then Err(OutOfBounds)
    else
      var pathLen := data[pos] as nat;
      var p := pos + 1;
      if p + pathLen > |data| then Err(OutOfBounds)
      else
        var q := p + pathLen;
        if q + 4 > |data| then Err(OutOfBounds)
        else
          var contentLen := FromLE32(data[q..q + 4]);
          var s := q + 4;
          if s + contentLen > |data| then Err(OutOfBounds)
          else Ok(Parsed(data[p..q], data[s..s + contentLen], s + contentLen))
  }

  /** The `?` on a payload decompressor's `io::Result`. */
  function Lift(r: Bytes.Result<seq<byte>>): Result<seq<byte>>
  {
    match r
    case Ok(v) => Ok(v)
    case Err(k) => Err(Codec(k))
  }

  /** The payload decompressor `decompress_folder` picks by name; an
      unknown name is refused here, once a record has been read. */
  function Unpack(payload: seq<byte>, algorithm: string,
                  decompressRle: seq<byte> -> Bytes.Result<seq<byte>>,
                  decompressLz: seq<byte> -> Bytes.Result<seq<byte>>): Result<seq<byte>>
  {
    if algorithm == "rle" then Lift(decompressRle(payload))
    else if algorithm == "lz" then Lift(decompressLz(payload))
    else Err(InvalidAlgorithm)
  }

  /** A file read back: its entry, and the cursor after its record. */
  datatype Step = Step(entry: Entry, next: nat)

  /** The record at cursor `pos`, its payload decompressed. */
  function NextEntry(data: seq<byte>, pos: nat, algorithm: string,
                     decompressRle: seq<byte> -> Bytes.Result<seq<byte>>,
                     decompressLz: seq<byte> -> Bytes.Result<seq<byte>>): Result<Step>
  {
    match ReadRecord(data, pos)
    case Err(e) => Err(e)
    case Ok(rec) =>
      match Unpack(rec.payload, algorithm, decompressRle, decompressLz)
      case Err(e) => Err(e)
      case Ok(content) => Ok(Step(Entry(rec.path, content), rec.next))
  }

  /** `n` records read from cursor `pos`, each written as soon as it is
      decompressed. */
  function ReadRecords(data: seq<byte>, pos: nat, n: nat, algorithm: string,
                       decompressRle: seq<byte> -> Bytes.Result<seq<byte>>,
                       decompressLz: seq<byte> -> Bytes.Result<seq<byte>>): Extracted
    decreases n
  {
    if n == 0 then Extracted([], Success)
    else
      match NextEntry(data, pos, algorithm, decompressRle, decompressLz)
      case Err(e) => Extracted([], Failure(e))
      case Ok(step) =>
        var rest := ReadRecords(data, step.next, n - 1, algorithm, decompressRle, decompressLz);
        Extracted([step.entry] + rest.files, rest.status)
  }

  /** What `decompress_folder` writes and returns: the magic byte is
      skipped, the count is byte 1. */
  function ReadArchive(data: seq<byte>, algorithm: string,
                       decompressRle: seq<byte> -> Bytes.Result<seq<byte>>,
                       decompressLz: seq<byte> -> Bytes.Result<seq<byte>>): Extracted
  {
    if |data| == 0 then Extracted([], Failure(EmptyArchive))
    else if |data| < 2 then Extracted([], Failure(OutOfBounds))
    else ReadRecords(data, 2, data[1] as nat, algorithm, decompressRle, decompressLz)
  }

  /** Files already written, followed by what the rest of the reading
      writes. */
  function Then(written: seq<Entry>, rest: Extracted): Extracted
  {
    Extracted(written + rest.files, rest.status)
  }

  /** The header and slices of one record, read at the cursor. */
  method ReadRecordAt(data: seq<byte>, pos: nat) returns (r: Result<Parsed>)
    ensures r == ReadRecord(data, pos)
  {
    var cursor := pos;
    if cursor >= |data| {
      return Err(OutOfBounds);
    }
    var pathLen := data[cursor] as nat;
    cursor := cursor + 1;
    if cursor + pathLen > |data| {
      return Err(OutOfBounds);
    }
    var pathBytes := data[cursor..cursor + pathLen];
    cursor := cursor + pathLen;
    if cursor + 4 > |data| {
      return Err(OutOfBounds);
    }
    var contentLen := data[cursor] as nat + 0x100 * data[cursor + 1] as nat
      + 0x1_0000 * data[cursor + 2] as nat + 0x100_0000 * data[cursor + 3] as nat;
    assert contentLen == FromLE32(data[cursor..cursor + 4]);
    cursor := cursor + 4;
    if cursor + contentLen > |data| {
      return Err(OutOfBounds);
    }
    var compressed := data[cursor..cursor + contentLen];
    cursor := cursor + contentLen;
    r := Ok(Parsed(pathBytes, compressed, cursor));
  }

  /** One iteration of the loop of `decompress_folder`: read the record,
      then decompress its payload with the decompressor named. */
  method ExtractEntry(data: seq<byte>, pos: nat, algorithm: string,
                      decompressRle: seq<byte> -> Bytes.Result<seq<byte>>,
                      decompressLz: seq<byte> -> Bytes.Result<seq<byte>>)
    returns (r: Result<Step>)
    ensures r == NextEntry(data, pos, algorithm, decompressRle, decompressLz)
  {
    var rec := ReadRecordAt(data, pos);
    if rec.Err? {
      return Err(rec.error);
    }
    var decompressed: Bytes.Result<seq<byte>>;
    if algorithm == "rle" {
      decompressed := decompressRle(rec.value.payload);
    } else if algorithm == "lz" {
      decompressed := decompressLz(rec.value.payload);
    } else {
      return Err(InvalidAlgorithm);
    }
    if decompressed.Err? {
      return Err(Codec(decompressed.kind));
    }
    r := Ok(Step(Entry(rec.value.path, decompressed.value), rec.value.next));
  }

  /** `decompress_folder`: reads the count, then each record and its
      payload, and writes the file before reading the next record. */
  method DecompressFolder(data: seq<byte>, algorithm: string,
                          decompressRle: seq<byte> -> Bytes.Result<seq<byte>>,
                          decompressLz: seq<byte> -> Bytes.Result<seq<byte>>)
    returns (written: seq<Entry>, status: Status)
    ensures Extracted(written, status) == ReadArchive(data, algorithm, decompressRle, decompressLz)
  {
    if |data| == 0 {
      return [], Failure(EmptyArchive);
    }
    var pos: nat := 1;
    if pos >= |data| {
      return [], Failure(OutOfBounds);
    }
    var numFiles := data[pos] as nat;
    pos := pos + 1;
    written := [];
    for k := 0 to numFiles
      invariant ReadArchive(data, algorithm, decompressRle, decompressLz)
             == Then(written, ReadRecords(data, pos, numFiles - k, algorithm, decompressRle, decompressLz))
    {
      var step := ExtractEntry(data, pos, algorithm, decompressRle, decompressLz);
      if step.Err? {
        return written, Failure(step.error);
      }
      ghost var rest := ReadRecords(data, step.value.next, numFiles - k - 1, algorithm, decompressRle, decompressLz);
      assert ReadRecords(data, pos, numFiles - k, algorithm, decompressRle, decompressLz)
          == Extracted([step.value.entry] + rest.files, rest.status);
      assert written + ([step.value.entry] + rest.files) == (written + [step.value.entry]) + rest.files;
      written := written + [step.value.entry];
      pos := step.value.next;
    }
    status := Success;
  }

  // ---------------------------------------------------------------------
  // The stored length

  /** The records with the length field holding the length of the
      compressed payload, which is what the reader slices. */
  function RecordsFixed(files: seq<Entry>, compress: seq<byte> -> seq<byte>): seq<byte>
    decreases |files|
  {
    if files == [] then []
    else
      var payload := compress(files[0].content);
      Record(files[0], payload, |payload|) + RecordsFixed(files[1..], compress)
  }

  function ArchiveFixed(files: seq<Entry>, algorithm: string,
                        compressRle: seq<byte> -> seq<byte>, compressLz: seq<byte> -> seq<byte>): Result<seq<byte>>
  {
    match MagicOf(algorithm)
    case Err(e) => Err(e)
    case Ok(m) => Ok([m, Truncate8(|files|)] + RecordsFixed(files, Compressor(algorithm, compressRle, compressLz)))
  }

  /** A slice that holds `a + b` holds `a`, then `b`. */
  lemma SliceSplit(data: seq<byte>, pos: nat, a: seq<byte>, b: seq<byte>)
    requires pos + |a + b| <= |data| && data[pos..pos + |a + b|] == a + b
    ensures data[pos..pos + |a|] == a
    ensures data[pos + |a|..pos + |a| + |b|] == b
  {
    assert data[pos..pos + |a|] == data[pos..pos + |a + b|][..|a|];
    assert data[pos + |a|..pos + |a| + |b|] == data[pos..pos + |a + b|][|a|..];
  }

  /** A record whose fields fit their widths is read back whole. */
  lemma ReadRecordBack(data: seq<byte>, pos: nat, e: Entry, payload: seq<byte>)
    requires |e.path| < 0x100 && |payload| < 0x1_0000_0000
    requires pos + |Record(e, payload, |payload|)| <= |data|
    requires data[pos..pos + |Record(e, payload, |payload|)|] == Record(e, payload, |payload|)
    ensures ReadRecord(data, pos) == Ok(Parsed(e.path, payload, pos + |Record(e, payload, |payload|)|))
  {
    var head: seq<byte> := [Truncate8(|e.path|)];
    var length := LE32(|payload|);
    SliceSplit(data, pos, head + e.path + length, payload);
    SliceSplit(data, pos, head + e.path, length);
    SliceSplit(data, pos, head, e.path);
    assert data[pos] == data[pos..pos + 1][0] == |e.path|;
    LE32RoundTrip(|payload|);
  }

  /** The record of a file the archive can carry gives the file back, and
      the cursor after the record. */
  lemma NextEntryBack(data: seq<byte>, pos: nat, e: Entry, algorithm: string,
                      compressRle: seq<byte> -> seq<byte>, compressLz: seq<byte> -> seq<byte>,
                      decompressRle: seq<byte> -> Bytes.Result<seq<byte>>,
                      decompressLz: seq<byte> -> Bytes.Result<seq<byte>>)
    requires Restores(e, algorithm, compressRle, compressLz, decompressRle, decompressLz)
    requires var payload := Compressor(algorithm, compressRle, compressLz)(e.content);
      var rec := Record(e, payload, |payload|);
      pos + |rec| <= |data| && data[pos..pos + |rec|] == rec
    ensures var payload := Compressor(algorithm, compressRle, compressLz)(e.content);
      NextEntry(data, pos, algorithm, decompressRle, decompressLz)
      == Ok(Step(e, pos + |Record(e, payload, |payload|)|))
  {
    var payload := Compressor(algorithm, compressRle, compressLz)(e.content);
    ReadRecordBack(data, pos, e, payload);
  }

  /** With the compressed length stored, every file whose fields fit their
      widths and whose payload decompresses to its content comes back, in
      order. */
  lemma {:induction false} ReadRecordsFixed(data: seq<byte>, pos: nat, files: seq<Entry>, algorithm: string,
                                            compressRle: seq<byte> -> seq<byte>, compressLz: seq<byte> -> seq<byte>,
                                            decompressRle: seq<byte> -> Bytes.Result<seq<byte>>,
                                            decompressLz: seq<byte> -> Bytes.Result<seq<byte>>)
    requires forall i :: 0 <= i < |files| ==> Restores(files[i], algorithm, compressRle, compressLz, decompressRle, decompressLz)
    requires var r := RecordsFixed(files, Compressor(algorithm, compressRle, compressLz));
      pos + |r| <= |data| && data[pos..pos + |r|] == r
    ensures ReadRecords(data, pos, |files|, algorithm, decompressRle, decompressLz) == Extracted(files, Success)
    decreases |files|
  {
    if files != [] {
      var compress := Compressor(algorithm, compressRle, compressLz);
      var e := files[0];
      var payload := compress(e.content);
      var rec := Record(e, payload, |payload|);
      var rest := RecordsFixed(files[1..], compress);
      assert RecordsFixed(files, compress) == rec + rest;
      SliceSplit(data, pos, rec, rest);
      assert Restores(e, algorithm, compressRle, compressLz, decompressRle, decompressLz);
      NextEntryBack(data, pos, e, algorithm, compressRle, compressLz, decompressRle, decompressLz);
      var next := pos + |rec|;
      assert forall i :: 0 <= i < |files[1..]| ==> files[1..][i] == files[i + 1];
      ReadRecordsFixed(data, next, files[1..], algorithm, compressRle, compressLz, decompressRle, decompressLz);
      assert [e] + files[1..] == files;
    }
  }

  /** A file the archive can carry: its path length fits `path_len`, its
      payload length fits the `u32` field, and the chosen decompressor
      undoes the chosen compressor on its content. */
  predicate Restores(e: Entry, algorithm: string,
                     compressRle: seq<byte> -> seq<byte>, compressLz: seq<byte> -> seq<byte>,
                     decompressRle: seq<byte> -> Bytes.Result<seq<byte>>,
                     decompressLz: seq<byte> -> Bytes.Result<seq<byte>>)
  {
    var payload := Compressor(algorithm, compressRle, compressLz)(e.content);
    |e.path| < 0x100 && |payload| < 0x1_0000_0000 &&
    Unpack(payload, algorithm, decompressRle, decompressLz) == Ok(e.content)
  }

  /** The archive round trip, once the stored length is the payload's:
      fewer than 256 files, each of which the archive can carry, are
      written back unchanged and in order. */
  lemma FixedRoundTrip(files: seq<Entry>, algorithm: string,
                       compressRle: seq<byte> -> seq<byte>, compressLz: seq<byte> -> seq<byte>,
                       decompressRle: seq<byte> -> Bytes.Result<seq<byte>>,
                       decompressLz: seq<byte> -> Bytes.Result<seq<byte>>)
    requires algorithm == "rle" || algorithm == "lz"
    requires |files| < 0x100
    requires forall i :: 0 <= i < |files| ==> Restores(files[i], algorithm, compressRle, compressLz, decompressRle, decompressLz)
    ensures ArchiveFixed(files, algorithm, compressRle, compressLz).Ok?
    ensures ReadArchive(ArchiveFixed(files, algorithm, compressRle, compressLz).value, algorithm, decompressRle, decompressLz)
         == Extracted(files, Success)
  {
    var data := ArchiveFixed(files, algorithm, compressRle, compressLz).value;
    var r := RecordsFixed(files, Compressor(algorithm, compressRle, compressLz));
    var header: seq<byte> := [MagicOf(algorithm).value, Truncate8(|files|)];
    assert data == header + r;
    assert data[1] == |files|;
    assert data[2..2 + |r|] == r;
    ReadRecordsFixed(data, 2, files, algorithm, compressRle, compressLz, decompressRle, decompressLz);
  }

  /** As written, a single file whose payload is shorter than its content
      makes the reader slice past the end of the archive. */
  lemma ShorterPayloadOverruns(path: seq<byte>, content: seq<byte>,
                               compressRle: seq<byte> -> seq<byte>, compressLz: seq<byte> -> seq<byte>,
                               decompressRle: seq<byte> -> Bytes.Result<seq<byte>>,
                               decompressLz: seq<byte> -> Bytes.Result<seq<byte>>)
    requires |path| < 0x100 && |content| < 0x1_0000_0000
    requires |compressRle(content)| < |content|
    ensures ReadArchive(Archive([Entry(path, content)], "rle", compressRle, compressLz).value, "rle", decompressRle, decompressLz)
         == Extracted([], Failure(OutOfBounds))
  {
    var e := Entry(path, content);
    var payload := compressRle(content);
    var rec := Record(e, payload, |content|);
    var data := Archive([e], "rle", compressRle, compressLz).value;
    assert [e][1..] == [];
    assert Records([e], compressRle) == rec + [] == rec;
    assert data == [RLE_MAGIC, 1] + rec;
    var q := 3 + |path|;
    assert data[2] == |path|;
    assert data[q..q + 4] == LE32(|content|);
    LE32RoundTrip(|content|);
    assert ReadRecord(data, 2) == Err(OutOfBounds);
  }

  /** The run-length compressor shrinks `AAAA` to three bytes. */
  lemma EncodeFourA(s: seq<byte>)
    requires s == [65, 65, 65, 65]
    ensures Rle.Encode(s) == [0x52, 65, 4]
  {
    var out: seq<byte> := [0x52, 65, 4];
    var ps := [Rle.Pair(65, 4)];
    assert out[1..] == Rle.Flatten(ps);
    Rle.PairsFlatten(ps);
    assert Bytes.Repeat(65, 4) == s;
    assert Rle.Expand(ps) == s;
    Rle.EncodingCharacterized(s, out);
  }

  /** The file `a` holding `AAAA`, archived with the run-length
      compressor, cannot be read back: the stored length 4 exceeds the
      3 payload bytes left. */
  lemma FourAOverruns(compressLz: seq<byte> -> seq<byte>,
                      decompressRle: seq<byte> -> Bytes.Result<seq<byte>>,
                      decompressLz: seq<byte> -> Bytes.Result<seq<byte>>)
    ensures ReadArchive(Archive([Entry([0x61], [65, 65, 65, 65])], "rle", Rle.Encode, compressLz).value,
                        "rle", decompressRle, decompressLz)
         == Extracted([], Failure(OutOfBounds))
  {
    EncodeFourA([65, 65, 65, 65]);
    ShorterPayloadOverruns([0x61], [65, 65, 65, 65], Rle.Encode, compressLz, decompressRle, decompressLz);
  }
}
