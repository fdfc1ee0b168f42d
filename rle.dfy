/** Run-length encoding, streaming form: `compress_rle` and `decompress_rle`.
    The two generations of the codec share this code line for line. The
    reader is the input sequence; the writer is the output sequence, to
    which each `write_all` appends. */
module Rle {
  import opened Bytes

  const MAGIC: byte := 0x52
  /** Capacity of the decoder's output staging buffer. */
  const STAGING: nat := 8192
  const MAX_COUNT: nat := 255

  /** One `[value, count]` pair of the wire format. */
  datatype Pair = Pair(value: byte, count: byte)

  /** The wire bytes of a sequence of pairs. */
  function Flatten(ps: seq<Pair>): (r: seq<byte>)
    ensures |r| == 2 * |ps|
  {
    if ps == [] then [] else [ps[0].value, ps[0].count] + Flatten(ps[1..])
  }

  /** The pairs read from wire bytes, two at a time; an odd byte at the end is
      not part of a pair. */
  function Pairs(t: seq<byte>): (ps: seq<Pair>)
    ensures |ps| == |t| / 2
  {
    if |t| < 2 then [] else [Pair(t[0], t[1])] + Pairs(t[2..])
  }

  /** The bytes a sequence of pairs stands for. */
  function Expand(ps: seq<Pair>): seq<byte>
  {
    if ps == [] then [] else Repeat(ps[0].value, ps[0].count) + Expand(ps[1..])
  }

  /** The pairs the encoder emits: no zero count, and two neighbouring pairs
      carry the same value only when the first one is saturated. */
  predicate Canonical(ps: seq<Pair>)
  {
    (forall i :: 0 <= i < |ps| ==> ps[i].count >= 1) &&
    (forall i, j :: 0 <= i < |ps| && j == i + 1 < |ps| && ps[i].value == ps[j].value ==>
       ps[i].count == MAX_COUNT)
  }

  /** `out` is an RLE stream for `s`: the magic byte, then whole pairs that are
      canonical and expand back to `s`. */
  predicate IsEncodingOf(s: seq<byte>, out: seq<byte>)
  {
    |out| % 2 == 1 && out[0] == MAGIC &&
    Canonical(Pairs(out[1..])) && Expand(Pairs(out[1..])) == s
  }

  // ---------------------------------------------------------------------
  // Reference encoder

  /** Extends a leading run of `s[0]` of length `k` as far as it goes, but
      not beyond `MAX_COUNT`. */
  function LeadRunFrom(s: seq<byte>, k: nat): (n: nat)
    requires 1 <= k <= |s| && k <= MAX_COUNT
    requires forall i :: 0 <= i < k ==> s[i] == s[0]
    ensures k <= n <= |s| && n <= MAX_COUNT
    ensures forall i :: 0 <= i < n ==> s[i] == s[0]
    ensures n < MAX_COUNT && n < |s| ==> s[n] != s[0]
    decreases |s| - k
  {
    if k < |s| && k < MAX_COUNT && s[k] == s[0] then LeadRunFrom(s, k + 1) else k
  }

  /** The runs of `s`, each cut at `MAX_COUNT`. */
  function Runs(s: seq<byte>): seq<Pair>
    decreases |s|
  {
    if s == [] then []
    else
      var n := LeadRunFrom(s, 1);
      [Pair(s[0], n)] + Runs(s[n..])
  }

  function Encode(s: seq<byte>): seq<byte>
  {
    [MAGIC] + Flatten(Runs(s))
  }

  // ---------------------------------------------------------------------
  // Reference decoder

  /** Decoding the pairs after the magic byte: stops without error when fewer
      than two bytes remain, fails on a zero count. */
  function DecodePairs(t: seq<byte>): Outcome
  {
    if |t| < 2 then Outcome([], Success)
    else if t[1] == 0 then Outcome([], Failure(InvalidData))
    else
      var rest := DecodePairs(t[2..]);
      Outcome(Repeat(t[0], t[1]) + rest.output, rest.status)
  }

  function Decode(input: seq<byte>): Outcome
  {
    if |input| == 0 then Outcome([], Success)
    else if input[0] != MAGIC then Outcome([], Failure(InvalidData))
    else DecodePairs(input[1..])
  }

  /** The count of the `j`-th whole pair of `t`. */
  function CountAt(t: seq<byte>, j: nat): byte
    requires 2 * j + 1 < |t|
  {
    t[2 * j + 1]
  }

  /** What reaches the writer of a staging buffer of `STAGING` bytes when the
      decoder stops early: only the chunks that filled the buffer. */
  function Flushed(pushed: seq<byte>): seq<byte>
  {
    pushed[..|pushed| - |pushed| % STAGING]
  }

  // ---------------------------------------------------------------------
  // Properties of the wire format

  lemma {:induction false} PairsFlatten(ps: seq<Pair>)
    ensures Pairs(Flatten(ps)) == ps
  {
    if ps != [] {
      var f := Flatten(ps);
      assert f[2..] == Flatten(ps[1..]);
      PairsFlatten(ps[1..]);
    }
  }

  lemma {:induction false} FlattenPairs(t: seq<byte>)
    requires |t| % 2 == 0
    ensures Flatten(Pairs(t)) == t
    decreases |t|
  {
    if |t| >= 2 {
      FlattenPairs(t[2..]);
      assert Pairs(t)[1..] == Pairs(t[2..]);
    }
  }

  lemma CanonicalTail(ps: seq<Pair>)
    requires ps != [] && Canonical(ps)
    ensures Canonical(ps[1..])
  {
    var tl := ps[1..];
    forall i, j | 0 <= i < |tl| && j == i + 1 < |tl| && tl[i].value == tl[j].value
      ensures tl[i].count == MAX_COUNT
    {
      assert tl[i] == ps[i + 1] && tl[j] == ps[j + 1];
    }
  }

  /** Prepending a pair keeps a sequence canonical when its count is not
      zero and it does not repeat an unsaturated value. */
  lemma CanonicalCons(p: Pair, ps: seq<Pair>)
    requires Canonical(ps) && p.count >= 1
    requires ps != [] && ps[0].value == p.value ==> p.count == MAX_COUNT
    ensures Canonical([p] + ps)
  {
    var qs := [p] + ps;
    forall i | 0 <= i < |qs| ensures qs[i].count >= 1 {
      if i > 0 { assert qs[i] == ps[i - 1]; }
    }
    forall i, j | 0 <= i < |qs| && j == i + 1 < |qs| && qs[i].value == qs[j].value
      ensures qs[i].count == MAX_COUNT
    {
      if i > 0 { assert qs[i] == ps[i - 1] && qs[j] == ps[j - 1]; }
    }
  }

  /** The runs of `s` expand back to `s`. */
  lemma {:induction false} RunsExpand(s: seq<byte>)
    ensures Expand(Runs(s)) == s
    decreases |s|
  {
    if s != [] {
      var n := LeadRunFrom(s, 1);
      var rest := Runs(s[n..]);
      RunsExpand(s[n..]);
      LeadRun(s, n);
      ExpandCons(Pair(s[0], n), rest);
      assert s == s[..n] + s[n..];
    }
  }

  lemma ExpandCons(p: Pair, ps: seq<Pair>)
    ensures Expand([p] + ps) == Repeat(p.value, p.count) + Expand(ps)
  {
    assert ([p] + ps)[1..] == ps;
  }

  lemma LeadRun(s: seq<byte>, n: nat)
    requires 0 < n <= |s|
    requires forall i :: 0 <= i < n ==> s[i] == s[0]
    ensures Repeat(s[0], n) == s[..n]
  {
  }

  /** The runs of `s` are canonical. */
  lemma {:induction false} RunsCanonical(s: seq<byte>)
    ensures Canonical(Runs(s))
    decreases |s|
  {
    if s != [] {
      var n := LeadRunFrom(s, 1);
      var rest := s[n..];
      RunsCanonical(rest);
      var tail := Runs(rest);
      if tail != [] {
        assert tail[0].value == rest[0] == s[n];
      }
      CanonicalCons(Pair(s[0], n), tail);
    }
  }

  /** A canonical pair sequence is determined by what it expands to: there is
      exactly one way the encoder can split a byte string into pairs. */
  lemma {:induction false} CanonicalUnique(p: seq<Pair>, q: seq<Pair>)
    requires Canonical(p) && Canonical(q) && Expand(p) == Expand(q)
    ensures p == q
    decreases |p|
  {
    ExpandLength(p);
    ExpandLength(q);
    if p != [] && q != [] {
      var s := Expand(p);
      var a, b := p[0], q[0];
      assert s == Repeat(a.value, a.count) + Expand(p[1..]);
      assert s == Repeat(b.value, b.count) + Expand(q[1..]);
      assert a.value == s[0] == b.value;
      if a.count < b.count {
        RunBreaks(p, s);
      } else if b.count < a.count {
        RunBreaks(q, s);
      }
      assert a == b;
      assert Expand(p[1..]) == s[a.count..] == Expand(q[1..]);
      CanonicalTail(p);
      CanonicalTail(q);
      CanonicalUnique(p[1..], q[1..]);
    }
  }

  lemma ExpandLength(ps: seq<Pair>)
    requires Canonical(ps)
    ensures ps == [] <==> Expand(ps) == []
  {
    if ps != [] {
      assert |Expand(ps)| >= |Repeat(ps[0].value, ps[0].count)| >= 1;
    }
  }

  /** In a canonical expansion, an unsaturated first run is followed either by
      the end of the string or by a different byte. */
  lemma RunBreaks(p: seq<Pair>, s: seq<byte>)
    requires Canonical(p) && p != [] && Expand(p) == s
    requires p[0].count < MAX_COUNT
    ensures p[0].count < |s| ==> s[p[0].count] != p[0].value
  {
    var n := p[0].count;
    assert s == Repeat(p[0].value, n) + Expand(p[1..]);
    if n < |s| {
      assert Expand(p[1..]) != [];
      assert p[1..] != [];
      assert Expand(p[1..]) == Repeat(p[1].value, p[1].count) + Expand(p[2..]);
      assert s[n] == p[1].value;
    }
  }

  /** The reference encoder produces an RLE stream of its input. */
  lemma EncodeIsEncoding(s: seq<byte>)
    ensures IsEncodingOf(s, Encode(s))
  {
    var e := Encode(s);
    assert e[1..] == Flatten(Runs(s));
    PairsFlatten(Runs(s));
    RunsCanonical(s);
    RunsExpand(s);
  }

  /** There is only one RLE stream of a given input. */
  lemma EncodingUnique(s: seq<byte>, a: seq<byte>, b: seq<byte>)
    requires IsEncodingOf(s, a) && IsEncodingOf(s, b)
    ensures a == b
  {
    CanonicalUnique(Pairs(a[1..]), Pairs(b[1..]));
    Reassemble(a);
    Reassemble(b);
  }

  /** The encoding of `s` is exactly the stream that satisfies `IsEncodingOf`. */
  lemma EncodingCharacterized(s: seq<byte>, out: seq<byte>)
    ensures IsEncodingOf(s, out) <==> out == Encode(s)
  {
    EncodeIsEncoding(s);
    if IsEncodingOf(s, out) {
      EncodingUnique(s, out, Encode(s));
    }
  }

  lemma Reassemble(a: seq<byte>)
    requires |a| % 2 == 1
    ensures a == [a[0]] + Flatten(Pairs(a[1..]))
  {
    FlattenPairs(a[1..]);
  }

  // ---------------------------------------------------------------------
  // Properties of the decoder

  lemma {:induction false} DecodeFlatten(ps: seq<Pair>)
    requires forall i :: 0 <= i < |ps| ==> ps[i].count >= 1
    ensures DecodePairs(Flatten(ps)) == Outcome(Expand(ps), Success)
  {
    if ps != [] {
      var f := Flatten(ps);
      assert f[2..] == Flatten(ps[1..]);
      DecodeFlatten(ps[1..]);
    }
  }

  /** Decoding undoes encoding: `decompress_rle(compress_rle(s))` writes `s`
      and returns `Ok`. */
  lemma RoundTrip(s: seq<byte>, out: seq<byte>)
    requires IsEncodingOf(s, out)
    ensures Decode(out) == Outcome(s, Success)
  {
    var t := out[1..];
    FlattenPairs(t);
    DecodeFlatten(Pairs(t));
  }

  /** An unpaired byte after the last whole pair is ignored:
      `[0x52, 0x41]` decodes like `[0x52]`, to nothing, without error. */
  lemma TrailingByteIgnored(input: seq<byte>, b: byte)
    requires |input| % 2 == 1
    ensures Decode(input + [b]) == Decode(input)
  {
    if input[0] == MAGIC {
      assert (input + [b])[1..] == input[1..] + [b];
      DecodePairsTrailing(input[1..], b);
    }
  }

  lemma {:induction false} DecodePairsTrailing(t: seq<byte>, b: byte)
    requires |t| % 2 == 0
    ensures DecodePairs(t + [b]) == DecodePairs(t)
    decreases |t|
  {
    if |t| >= 2 {
      assert (t + [b])[2..] == t[2..] + [b];
      DecodePairsTrailing(t[2..], b);
    }
  }

  /** Decoding fails exactly on a stream whose first byte is not the magic
      byte, or one with a zero count in a whole pair; the error is always
      `InvalidData`. */
  lemma DecodeFailsIff(input: seq<byte>)
    ensures Decode(input).status.Failure? <==>
      |input| > 0 &&
      (input[0] != MAGIC ||
       exists j :: 0 <= j < (|input| - 1) / 2 && CountAt(input[1..], j) == 0)
    ensures Decode(input).status.Failure? ==> Decode(input).status.kind == InvalidData
  {
    if |input| > 0 && input[0] == MAGIC {
      DecodePairsFailsIff(input[1..]);
    }
  }

  lemma {:induction false} DecodePairsFailsIff(t: seq<byte>)
    ensures DecodePairs(t).status.Failure? <==>
      exists j :: 0 <= j < |t| / 2 && CountAt(t, j) == 0
    ensures DecodePairs(t).status.Failure? ==> DecodePairs(t).status.kind == InvalidData
    decreases |t|
  {
    if |t| >= 2 && t[1] != 0 {
      var u := t[2..];
      DecodePairsFailsIff(u);
      if exists j :: 0 <= j < |u| / 2 && CountAt(u, j) == 0 {
        var j :| 0 <= j < |u| / 2 && CountAt(u, j) == 0;
        assert CountAt(t, j + 1) == 0;
      }
      if exists j :: 0 <= j < |t| / 2 && CountAt(t, j) == 0 {
        var j :| 0 <= j < |t| / 2 && CountAt(t, j) == 0;
        assert j != 0;
        assert CountAt(u, j - 1) == 0;
      }
    } else if |t| >= 2 {
      assert CountAt(t, 0) == 0;
    }
  }

  // ---------------------------------------------------------------------
  // The streaming encoder and decoder

  /** `compress_rle`: the magic byte, then one pair per run, a run being
      closed when the byte changes or its count reaches 255. */
  method CompressRle(input: seq<byte>) returns (out: seq<byte>)
    ensures IsEncodingOf(input, out)
    ensures out == Encode(input)
  {
    out := [MAGIC];
    if |input| == 0 {
      EncodeIsEncoding(input);
      EncodingUnique(input, out, Encode(input));
      return;
    }
    var currentByte := input[0];
    var count: byte := 1;
    var i := 1;
    ghost var closed: seq<Pair> := [];
    while i < |input|
      invariant 1 <= count <= i <= |input|
      invariant input[i - count..i] == Repeat(currentByte, count)
      invariant out == [MAGIC] + Flatten(closed)
      invariant Expand(closed) == input[..i - count]
      invariant Canonical(closed + [Pair(currentByte, count)])
    {
      var b := input[i];
      if b == currentByte && count < 255 {
        ExtendRun(input, i, currentByte, count, closed);
        count := count + 1;
      } else {
        CloseStep(input, i, currentByte, count, closed, out);
        out := out + [currentByte, count];
        closed := closed + [Pair(currentByte, count)];
        currentByte := b;
        count := 1;
      }
      i := i + 1;
    }
    FinishEncode(input, currentByte, count, closed, out);
    out := out + [currentByte, count];
  }

  /** The next byte continues an unsaturated open run. */
  lemma ExtendRun(input: seq<byte>, i: nat, v: byte, n: byte, closed: seq<Pair>)
    requires 1 <= n <= i < |input| && input[i] == v && n < MAX_COUNT
    requires input[i - n..i] == Repeat(v, n)
    requires Canonical(closed + [Pair(v, n)])
    ensures input[i - n..i + 1] == Repeat(v, n + 1)
    ensures Canonical(closed + [Pair(v, n + 1)])
  {
    RepeatSnoc(v, n);
    assert input[i - n..i + 1] == input[i - n..i] + [v];
    BumpOpen(closed, v, n);
  }

  /** The next byte closes the open run, which joins the written pairs, and
      opens a run of its own. */
  lemma CloseStep(input: seq<byte>, i: nat, v: byte, n: byte, closed: seq<Pair>, out: seq<byte>)
    requires 1 <= n <= i < |input|
    requires input[i] != v || n == MAX_COUNT
    requires input[i - n..i] == Repeat(v, n)
    requires out == [MAGIC] + Flatten(closed)
    requires Expand(closed) == input[..i - n]
    requires Canonical(closed + [Pair(v, n)])
    ensures out + [v, n] == [MAGIC] + Flatten(closed + [Pair(v, n)])
    ensures Expand(closed + [Pair(v, n)]) == input[..i]
    ensures Canonical(closed + [Pair(v, n)] + [Pair(input[i], 1)])
    ensures input[i..i + 1] == Repeat(input[i], 1)
  {
    var open := Pair(v, n);
    FlattenSnoc(closed, open);
    ExpandSnoc(closed, open);
    CloseRun(closed, open, input[..i - n], input[i]);
    assert input[..i] == input[..i - n] + input[i - n..i];
  }

  /** Writing the open run after the last byte completes the encoding. */
  lemma FinishEncode(input: seq<byte>, v: byte, n: byte, closed: seq<Pair>, out: seq<byte>)
    requires 1 <= n <= |input|
    requires input[|input| - n..] == Repeat(v, n)
    requires out == [MAGIC] + Flatten(closed)
    requires Expand(closed) == input[..|input| - n]
    requires Canonical(closed + [Pair(v, n)])
    ensures IsEncodingOf(input, out + [v, n])
    ensures out + [v, n] == Encode(input)
  {
    var pairs := closed + [Pair(v, n)];
    FlattenSnoc(closed, Pair(v, n));
    ExpandSnoc(closed, Pair(v, n));
    assert input == input[..|input| - n] + input[|input| - n..];
    assert Expand(pairs) == input;
    assert out + [v, n] == [MAGIC] + Flatten(pairs);
    PairsEncoding(input, pairs);
    EncodingCharacterized(input, out + [v, n]);
  }

  /** Canonical pairs that expand to `s`, written after the magic byte, are
      an RLE stream of `s`. */
  lemma PairsEncoding(s: seq<byte>, pairs: seq<Pair>)
    requires Canonical(pairs) && Expand(pairs) == s
    ensures IsEncodingOf(s, [MAGIC] + Flatten(pairs))
  {
    var o := [MAGIC] + Flatten(pairs);
    assert o[1..] == Flatten(pairs);
    PairsFlatten(pairs);
  }

  lemma {:induction false} FlattenSnoc(ps: seq<Pair>, p: Pair)
    ensures Flatten(ps + [p]) == Flatten(ps) + [p.value, p.count]
  {
    if ps != [] {
      assert (ps + [p])[1..] == ps[1..] + [p];
      FlattenSnoc(ps[1..], p);
    }
  }

  lemma {:induction false} ExpandSnoc(ps: seq<Pair>, p: Pair)
    ensures Expand(ps + [p]) == Expand(ps) + Repeat(p.value, p.count)
  {
    if ps != [] {
      assert (ps + [p])[1..] == ps[1..] + [p];
      ExpandSnoc(ps[1..], p);
    }
  }

  /** Lengthening the open run keeps the pairs canonical. */
  lemma BumpOpen(closed: seq<Pair>, v: byte, n: byte)
    requires n < MAX_COUNT && Canonical(closed + [Pair(v, n)])
    ensures Canonical(closed + [Pair(v, n + 1)])
  {
    var ps := closed + [Pair(v, n)];
    var qs := closed + [Pair(v, n + 1)];
    forall i | 0 <= i < |qs| ensures qs[i].count >= 1 {
      if i < |closed| { assert qs[i] == ps[i]; }
    }
    forall i, j | 0 <= i < |qs| && j == i + 1 < |qs| && qs[i].value == qs[j].value
      ensures qs[i].count == MAX_COUNT
    {
      assert qs[i] == ps[i] && qs[j].value == ps[j].value;
    }
  }

  /** Closing the open run and opening a new one keeps the pairs canonical. */
  lemma CloseRun(closed: seq<Pair>, open: Pair, done: seq<byte>, b: byte)
    requires Canonical(closed + [open])
    requires b != open.value || open.count == MAX_COUNT
    ensures Canonical(closed + [open] + [Pair(b, 1)])
  {
    var ps := closed + [open] + [Pair(b, 1)];
    var qs := closed + [open];
    forall i | 0 <= i < |ps| ensures ps[i].count >= 1 {
      if i < |qs| { assert ps[i] == qs[i]; }
    }
    forall i, j | 0 <= i < |ps| && j == i + 1 < |ps| && ps[i].value == ps[j].value
      ensures ps[i].count == MAX_COUNT
    {
      if j < |qs| { assert ps[i] == qs[i] && ps[j] == qs[j]; }
    }
  }

  lemma FlushedWhole(written: seq<byte>, staging: seq<byte>)
    requires |staging| < STAGING && |written| % STAGING == 0
    ensures Flushed(written + staging) == written
  {
    var pushed := written + staging;
    assert |pushed| % STAGING == |staging|;
  }

  /** Decoding from `pos` reads the pair there, then the rest. */
  lemma PairAt(input: seq<byte>, pos: nat)
    requires pos + 2 <= |input|
    ensures var here, rest := DecodePairs(input[pos..]), DecodePairs(input[pos + 2..]);
      if input[pos + 1] == 0 then here == Outcome([], Failure(InvalidData))
      else here == Outcome(Repeat(input[pos], input[pos + 1]) + rest.output, rest.status)
  {
    assert input[pos..][2..] == input[pos + 2..];
  }

  /** The inner loop of `decompress_rle`: pushes `count` copies of `value`
      into the staging buffer, writing it out and clearing it whenever it
      fills. */
  method StageRun(written: seq<byte>, staging: seq<byte>, value: byte, count: byte)
    returns (written': seq<byte>, staging': seq<byte>)
    requires |staging| < STAGING && |written| % STAGING == 0
    ensures |staging'| < STAGING && |written'| % STAGING == 0
    ensures written' + staging' == written + staging + Repeat(value, count)
  {
    written', staging' := written, staging;
    var k := 0;
    while k < count
      invariant 0 <= k <= count
      invariant |staging'| < STAGING && |written'| % STAGING == 0
      invariant written' + staging' == written + staging + Repeat(value, k)
    {
      RepeatSnoc(value, k);
      ghost var pushed := written' + staging';
      staging' := staging' + [value];
      assert written' + staging' == pushed + [value];
      if |staging'| == STAGING {
        written' := written' + staging';
        staging' := [];
      }
      k := k + 1;
    }
  }

  /** The pair loop of `decompress_rle`, from `start`: expands each whole
      pair into the staging buffer, stopping at a zero count. */
  method DecodePairsLoop(input: seq<byte>, start: nat) returns (written: seq<byte>, status: Status)
    requires start <= |input|
    ensures status == DecodePairs(input[start..]).status
    ensures status.Success? ==> written == DecodePairs(input[start..]).output
    ensures status.Failure? ==> written == Flushed(DecodePairs(input[start..]).output)
  {
    written := [];
    var staging: seq<byte> := [];
    var pos := start;
    ghost var whole := DecodePairs(input[start..]);
    ghost var pushed: seq<byte> := [];
    while pos + 2 <= |input|
      invariant start <= pos <= |input|
      invariant |staging| < STAGING && |written| % STAGING == 0
      invariant pushed == written + staging
      invariant pushed + DecodePairs(input[pos..]).output == whole.output
      invariant DecodePairs(input[pos..]).status == whole.status
      decreases |input| - pos
    {
      var value, count := input[pos], input[pos + 1];
      PairAt(input, pos);
      ghost var rest := DecodePairs(input[pos + 2..]);
      pos := pos + 2;
      if count == 0 {
        FlushedWhole(written, staging);
        assert pushed == whole.output;
        return written, Failure(InvalidData);
      }
      ghost var run := Repeat(value, count);
      assert pushed + (run + rest.output) == whole.output;
      assert pushed + run + rest.output == whole.output;
      written, staging := StageRun(written, staging, value, count);
      pushed := pushed + run;
    }
    assert DecodePairs(input[pos..]).output == [];
    assert pushed == whole.output;
    if staging != [] {
      written := written + staging;
    }
    status := Success;
  }

  /** `decompress_rle`: checks the magic byte, then expands each whole pair
      into a staging buffer of `STAGING` bytes that is written out and
      cleared whenever it fills. Returns the bytes the writer received and
      the status. */
  method DecompressRle(input: seq<byte>) returns (written: seq<byte>, status: Status)
    ensures status == Decode(input).status
    ensures status.Success? ==> written == Decode(input).output
    ensures status.Failure? ==> written == Flushed(Decode(input).output)
  {
    if |input| == 0 {
      return [], Success;
    }
    if input[0] != MAGIC {
      return [], Failure(InvalidData);
    }
    written, status := DecodePairsLoop(input, 1);
  }
}
