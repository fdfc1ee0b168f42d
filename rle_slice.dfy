/** The slice wrappers `compress` and `decompress` of the second generation of
    the RLE codec: each runs the streaming codec between an in-memory reader
    and an in-memory writer. */
module RleSlice {
  import opened Bytes
  import Rle

  /** The `io::Result<Vec<u8>>` that `decompress` builds from what the
      streaming decoder wrote and returned: the buffer is dropped on error. */
  function AsResult(o: Outcome): Result<seq<byte>>
  {
    match o.status
    case Success => Ok(o.output)
    case Failure(kind) => Err(kind)
  }

  method Compress(input: seq<byte>) returns (r: Result<seq<byte>>)
    ensures r.Ok? && Rle.IsEncodingOf(input, r.value)
    ensures r == Ok(Rle.Encode(input))
  {
    var compressed := Rle.CompressRle(input);
    r := Ok(compressed);
  }

  method Decompress(input: seq<byte>) returns (r: Result<seq<byte>>)
    ensures r == AsResult(Rle.Decode(input))
    ensures r.Err? ==> r.kind == InvalidData
  {
    Rle.DecodeFailsIff(input);
    var written, status := Rle.DecompressRle(input);
    if status.Failure? {
      return Err(status.kind);
    }
    r := Ok(written);
  }

  /** `decompress(compress(s))` is `Ok(s)` for every input `s`. */
  lemma SliceRoundTrip(s: seq<byte>)
    ensures AsResult(Rle.Decode(Rle.Encode(s))) == Ok(s)
  {
    Rle.EncodeIsEncoding(s);
    Rle.RoundTrip(s, Rle.Encode(s));
  }

  /** The compressed form of `b"AAABBBCCCCCDDDDE"`: one pair per run. */
  lemma CompressExample(s: seq<byte>)
    requires s == [65, 65, 65, 66, 66, 66, 67, 67, 67, 67, 67, 68, 68, 68, 68, 69]
    ensures Rle.Encode(s) == [0x52, 65, 3, 66, 3, 67, 5, 68, 4, 69, 1]
  {
    var e: seq<byte> := [0x52, 65, 3, 66, 3, 67, 5, 68, 4, 69, 1];
    var ps := [Rle.Pair(65, 3), Rle.Pair(66, 3), Rle.Pair(67, 5), Rle.Pair(68, 4), Rle.Pair(69, 1)];
    assert e[1..] == Rle.Flatten(ps);
    Rle.PairsFlatten(ps);
    ExamplePairs(ps, s);
    Rle.EncodingCharacterized(s, e);
  }

  lemma ExamplePairs(ps: seq<Rle.Pair>, s: seq<byte>)
    requires ps == [Rle.Pair(65, 3), Rle.Pair(66, 3), Rle.Pair(67, 5), Rle.Pair(68, 4), Rle.Pair(69, 1)]
    requires s == [65, 65, 65, 66, 66, 66, 67, 67, 67, 67, 67, 68, 68, 68, 68, 69]
    ensures Rle.Canonical(ps) && Rle.Expand(ps) == s
  {
    ExpandFive(ps);
    assert Repeat(65, 3) == [65, 65, 65] && Repeat(66, 3) == [66, 66, 66];
    assert Repeat(67, 5) == [67, 67, 67, 67, 67] && Repeat(68, 4) == [68, 68, 68, 68];
    assert Repeat(69, 1) == [69];
  }

  /** Five pairs expand to their five runs, one after the other. */
  lemma ExpandFive(ps: seq<Rle.Pair>)
    requires |ps| == 5
    ensures Rle.Expand(ps) == Repeat(ps[0].value, ps[0].count) + Repeat(ps[1].value, ps[1].count)
      + Repeat(ps[2].value, ps[2].count) + Repeat(ps[3].value, ps[3].count) + Repeat(ps[4].value, ps[4].count)
  {
    assert ps[4..][1..] == [];
    assert Rle.Expand(ps[4..]) == Repeat(ps[4].value, ps[4].count);
    assert ps[3..][1..] == ps[4..];
    assert Rle.Expand(ps[3..]) == Repeat(ps[3].value, ps[3].count) + Rle.Expand(ps[4..]);
    assert ps[2..][1..] == ps[3..];
    assert Rle.Expand(ps[2..]) == Repeat(ps[2].value, ps[2].count) + Rle.Expand(ps[3..]);
    assert ps[1..][1..] == ps[2..];
    assert Rle.Expand(ps[1..]) == Repeat(ps[1].value, ps[1].count) + Rle.Expand(ps[2..]);
    assert Rle.Expand(ps) == Repeat(ps[0].value, ps[0].count) + Rle.Expand(ps[1..]);
  }
}
