/** Simplified LZ77, streaming form: `compress_lz` and `decompress_lz` of the
    first generation. The stream is the magic byte followed by tokens: a
    match is the two bytes `[offset, length]`, a literal the three bytes
    `[0, 0, byte]`. The encoder keeps a FIFO search buffer of the last 4096
    bytes it consumed and a look-ahead of the next (at most) 18; the decoder
    keeps a FIFO history of the last 4096 bytes it produced. */
module StreamLz {
  import opened Bytes

  const MAGIC: byte := 0x4C
  const SEARCH_CAP: nat := 4096
  const LOOKAHEAD_CAP: nat := 18
  const MIN_MATCH: nat := 3

  datatype Token = Literal(b: byte) | Match(offset: byte, length: byte)

  function TokenBytes(t: Token): seq<byte>
  {
    match t
    case Literal(b) => [0, 0, b]
    case Match(offset, length) => [offset, length]
  }

  function Serialize(ts: seq<Token>): seq<byte>
  {
    if ts == [] then [] else TokenBytes(ts[0]) + Serialize(ts[1..])
  }

  /** The number of input bytes a token stands for. */
  function Width(t: Token): nat
  {
    match t
    case Literal(_) => 1
    case Match(_, length) => length
  }

  /** A match the encoder can emit: at least `MIN_MATCH` and at most
      `LOOKAHEAD_CAP` long, and no longer than its offset (it lies wholly in
      the search buffer). */
  predicate WellFormed(t: Token)
  {
    t.Match? ==> MIN_MATCH <= t.length <= LOOKAHEAD_CAP && 1 <= t.offset && t.length <= t.offset
  }

  // ---------------------------------------------------------------------
  // Match search

  /** The inner `while` loop: extends a common prefix of `search[start..]` and
      `look` of length `n` while both have bytes left and they agree. */
  function MatchLenFrom(search: seq<byte>, look: seq<byte>, start: nat, n: nat): (m: nat)
    requires start + n <= |search| && n <= |look|
    ensures n <= m <= |look| && start + m <= |search|
    decreases |look| - n
  {
    if n < |look| && start + n < |search| && search[start + n] == look[n] then
      MatchLenFrom(search, look, start, n + 1)
    else
      n
  }

  /** The bytes counted by the inner loop agree, and the loop stops at the
      first disagreement or at the end of either buffer. */
  lemma {:induction false} MatchLenFromAgrees(search: seq<byte>, look: seq<byte>, start: nat, n: nat)
    requires start + n <= |search| && n <= |look|
    requires search[start..start + n] == look[..n]
    ensures var m := MatchLenFrom(search, look, start, n);
      search[start..start + m] == look[..m] &&
      (m < |look| && start + m < |search| ==> search[start + m] != look[m])
    decreases |look| - n
  {
    if n < |look| && start + n < |search| && search[start + n] == look[n] {
      assert search[start..start + n + 1] == search[start..start + n] + [search[start + n]];
      assert look[..n + 1] == look[..n] + [look[n]];
      MatchLenFromAgrees(search, look, start, n + 1);
    }
  }

  /** Length of the longest common prefix of `search[start..]` and `look`. */
  function MatchLen(search: seq<byte>, look: seq<byte>, start: nat): nat
    requires start <= |search|
  {
    MatchLenFrom(search, look, start, 0)
  }

  datatype Candidate = Candidate(offset: nat, length: nat)

  /** The best candidate after the `for start_offset in 0..k` loop: a
      candidate replaces the best one when it is at least as long. */
  function BestUpTo(search: seq<byte>, look: seq<byte>, k: nat): (c: Candidate)
    requires k <= |search|
    ensures k == 0 ==> c == Candidate(0, 0)
    ensures k > 0 ==> |search| - k < c.offset <= |search|
    ensures k > 0 ==> c.length == MatchLen(search, look, |search| - c.offset)
    ensures c.length <= |look|
  {
    if k == 0 then Candidate(0, 0)
    else
      var c := BestUpTo(search, look, k - 1);
      var m := MatchLen(search, look, k - 1);
      if m >= c.length then Candidate(|search| - (k - 1), m) else c
  }

  /** The candidate is a longest match among the first `k` starts, and any
      later start gives a strictly shorter one: among equally long matches
      the one with the latest start, i.e. the smallest offset, wins. */
  lemma {:induction false} BestUpToLongest(search: seq<byte>, look: seq<byte>, k: nat)
    requires k <= |search|
    ensures var c := BestUpTo(search, look, k);
      (forall st :: 0 <= st < k ==> MatchLen(search, look, st) <= c.length) &&
      (forall st :: |search| - c.offset < st < k ==> MatchLen(search, look, st) < c.length)
  {
    if k > 0 {
      BestUpToLongest(search, look, k - 1);
    }
  }

  function BestMatch(search: seq<byte>, look: seq<byte>): Candidate
  {
    BestUpTo(search, look, |search|)
  }

  /** The token emitted for a search buffer and a non-empty look-ahead: the best
      match when it is long enough and its offset fits a byte, otherwise the
      first look-ahead byte as a literal. */
  function Choose(search: seq<byte>, look: seq<byte>): (t: Token)
    requires 0 < |look| <= LOOKAHEAD_CAP
    ensures WellFormed(t)
    ensures 1 <= Width(t) <= |look|
    ensures t.Literal? ==> t.b == look[0]
    ensures t.Match? ==> t.offset <= |search|
    ensures t.Match? ==>
      search[|search| - t.offset..|search| - t.offset + t.length] == look[..t.length]
  {
    var c := BestMatch(search, look);
    if c.length >= MIN_MATCH && c.offset <= 255 && c.length <= 255 then
      MatchLenFromAgrees(search, look, |search| - c.offset, 0);
      Match(c.offset, c.length)
    else
      Literal(look[0])
  }

  // ---------------------------------------------------------------------
  // Reference encoder and decoder

  /** The look-ahead: the next (at most) `LOOKAHEAD_CAP` unconsumed bytes. */
  function Lookahead(rest: seq<byte>): (look: seq<byte>)
    ensures |look| == Min(LOOKAHEAD_CAP, |rest|) && look == rest[..|look|]
  {
    rest[..Min(LOOKAHEAD_CAP, |rest|)]
  }

  /** The tokens emitted for the unconsumed bytes `rest` when the search
      buffer holds `search`: each token's bytes are then pushed into the
      search buffer. */
  function TokensFrom(search: seq<byte>, rest: seq<byte>): seq<Token>
    decreases |rest|
  {
    if rest == [] then []
    else
      var t := Choose(search, Lookahead(rest));
      [t] + TokensFrom(Window(search + rest[..Width(t)], SEARCH_CAP), rest[Width(t)..])
  }

  /** The bytes `compress_lz` writes for input `s`. */
  function Encode(s: seq<byte>): seq<byte>
  {
    [MAGIC] + Serialize(TokensFrom([], s))
  }

  /** What the token at the head of `t` does given the history: it emits
      bytes and consumes input, or decoding ends with a status. EOF at a
      token boundary (fewer than two bytes left) ends without error; a
      literal marker without its byte is `UnexpectedEof`; a zero offset or
      length, or an offset beyond the history, is `InvalidData`; a match
      longer than its offset indexes past the history and panics. */
  datatype Step = Emit(bytes: seq<byte>, consumed: nat) | Stop(status: Status)

  function DecodeStep(t: seq<byte>, history: seq<byte>): (st: Step)
    ensures st.Emit? ==> 2 <= st.consumed <= |t|
  {
    if |t| < 2 then Stop(Success)
    else
      var offset, length := t[0], t[1];
      if offset == 0 && length == 0 then
        if |t| < 3 then Stop(Failure(UnexpectedEof)) else Emit([t[2]], 3)
      else if offset == 0 || length == 0 then Stop(Failure(InvalidData))
      else if offset > |history| then Stop(Failure(InvalidData))
      else if length > offset then Stop(Failure(IndexOutOfBounds))
      else
        var start := |history| - offset;
        Emit(history[start..start + length], 2)
  }

  /** Decoding tokens against a history, each emitted chunk being pushed into
      the history before the next token is decoded. */
  function DecodeTokens(t: seq<byte>, history: seq<byte>): Outcome
    decreases |t|
  {
    match DecodeStep(t, history)
    case Stop(status) => Outcome([], status)
    case Emit(bytes, k) =>
      var rest := DecodeTokens(t[k..], Window(history + bytes, SEARCH_CAP));
      Outcome(bytes + rest.output, rest.status)
  }

  function Decode(input: seq<byte>): Outcome
  {
    if |input| == 0 then Outcome([], Success)
    else if input[0] != MAGIC then Outcome([], Failure(InvalidData))
    else DecodeTokens(input[1..], [])
  }

  // ---------------------------------------------------------------------
  // Properties

  lemma SerializeCons(t: Token, ts: seq<Token>)
    ensures Serialize([t] + ts) == TokenBytes(t) + Serialize(ts)
  {
    assert ([t] + ts)[1..] == ts;
  }

  /** Token `t`, decoded against `history`, emits exactly `chunk`: a literal
      its byte, a match the bytes it points at in the history. */
  predicate Reproduces(t: Token, history: seq<byte>, chunk: seq<byte>)
  {
    WellFormed(t) &&
    (t.Literal? ==> chunk == [t.b]) &&
    (t.Match? ==> t.offset <= |history| &&
                  history[|history| - t.offset..|history| - t.offset + t.length] == chunk)
  }

  /** The token chosen for the next bytes reproduces them from the search
      buffer. */
  lemma ChooseCovers(search: seq<byte>, rest: seq<byte>)
    requires rest != []
    ensures var t := Choose(search, Lookahead(rest));
      Width(t) <= |rest| && Reproduces(t, search, rest[..Width(t)])
  {
    var look := Lookahead(rest);
    var t := Choose(search, look);
    assert look[..Width(t)] == rest[..Width(t)];
  }

  /** The step a token takes when it reproduces `chunk`: it emits `chunk`
      and consumes exactly its own bytes. */
  lemma TokenStep(t: Token, chunk: seq<byte>, rest: seq<byte>, history: seq<byte>)
    requires Reproduces(t, history, chunk)
    ensures DecodeStep(TokenBytes(t) + rest, history) == Emit(chunk, |TokenBytes(t)|)
    ensures (TokenBytes(t) + rest)[|TokenBytes(t)|..] == rest
  {
    var u := TokenBytes(t) + rest;
    if t.Literal? {
      assert u[0] == 0 && u[1] == 0 && u[2] == t.b;
    } else {
      assert u[0] == t.offset && u[1] == t.length;
    }
  }

  /** Decoding a token that reproduces `chunk` emits `chunk` and pushes it
      into the history. */
  lemma DecodeToken(t: Token, chunk: seq<byte>, rest: seq<byte>, history: seq<byte>)
    requires Reproduces(t, history, chunk)
    ensures var r := DecodeTokens(rest, Window(history + chunk, SEARCH_CAP));
      DecodeTokens(TokenBytes(t) + rest, history) == Outcome(chunk + r.output, r.status)
  {
    TokenStep(t, chunk, rest, history);
  }

  /** Tokens `ts`, decoded one after the other against `history`, emit
      exactly `rest`. */
  ghost predicate Covers(ts: seq<Token>, history: seq<byte>, rest: seq<byte>)
    decreases |ts|
  {
    if ts == [] then rest == []
    else
      var w := Width(ts[0]);
      w <= |rest| &&
      Reproduces(ts[0], history, rest[..w]) &&
      Covers(ts[1..], Window(history + rest[..w], SEARCH_CAP), rest[w..])
  }

  /** The encoder's tokens cover the bytes they were chosen for. */
  lemma {:induction false} TokensFromCovers(search: seq<byte>, rest: seq<byte>)
    ensures Covers(TokensFrom(search, rest), search, rest)
    decreases |rest|
  {
    if rest != [] {
      var t := Choose(search, Lookahead(rest));
      var w := Width(t);
      ChooseCovers(search, rest);
      var ts := TokensFrom(Window(search + rest[..w], SEARCH_CAP), rest[w..]);
      TokensFromCovers(Window(search + rest[..w], SEARCH_CAP), rest[w..]);
      assert TokensFrom(search, rest) == [t] + ts;
      assert ([t] + ts)[1..] == ts;
    }
  }

  /** Decoding tokens that cover `rest` against `history` reproduces `rest`;
      fewer than two trailing bytes after the last token are ignored. */
  lemma {:induction false} DecodeCovered(ts: seq<Token>, history: seq<byte>, rest: seq<byte>, tail: seq<byte>)
    requires Covers(ts, history, rest) && |tail| < 2
    ensures DecodeTokens(Serialize(ts) + tail, history) == Outcome(rest, Success)
    decreases |ts|
  {
    if ts == [] {
      assert Serialize(ts) + tail == tail;
    } else {
      var t := ts[0];
      var w := Width(t);
      var more := Serialize(ts[1..]) + tail;
      SerializeCons(t, ts[1..]);
      assert [t] + ts[1..] == ts;
      assert Serialize(ts) + tail == TokenBytes(t) + more;
      DecodeToken(t, rest[..w], more, history);
      DecodeCovered(ts[1..], Window(history + rest[..w], SEARCH_CAP), rest[w..], tail);
      assert rest == rest[..w] + rest[w..];
    }
  }

  /** Every token the encoder emits is well formed. */
  lemma {:induction false} CoveredWellFormed(ts: seq<Token>, history: seq<byte>, rest: seq<byte>)
    requires Covers(ts, history, rest)
    ensures forall i :: 0 <= i < |ts| ==> WellFormed(ts[i])
    decreases |ts|
  {
    if ts != [] {
      var w := Width(ts[0]);
      CoveredWellFormed(ts[1..], Window(history + rest[..w], SEARCH_CAP), rest[w..]);
      forall i | 1 <= i < |ts|
        ensures WellFormed(ts[i])
      {
        assert ts[i] == ts[1..][i - 1];
      }
    }
  }

  /** Decoding undoes encoding: `decompress_lz(compress_lz(s))` writes `s` and
      returns `Ok`, also when one stray byte follows the last token. */
  lemma RoundTrip(s: seq<byte>, tail: seq<byte>)
    requires |tail| < 2
    ensures Decode(Encode(s) + tail) == Outcome(s, Success)
  {
    var e := Encode(s) + tail;
    assert e[1..] == Serialize(TokensFrom([], s)) + tail;
    TokensFromCovers([], s);
    DecodeCovered(TokensFrom([], s), [], s, tail);
  }

  /** Every match the encoder emits has a non-zero offset of at most 255, a
      length between `MIN_MATCH` and `LOOKAHEAD_CAP`, and a length no greater
      than its offset; so its two bytes never read as a literal marker. */
  lemma EncodedTokensWellFormed(s: seq<byte>)
    ensures forall i :: 0 <= i < |TokensFrom([], s)| ==> WellFormed(TokensFrom([], s)[i])
  {
    TokensFromCovers([], s);
    CoveredWellFormed(TokensFrom([], s), [], s);
  }

  /** How the decoder treats the header and a malformed first token. */
  lemma DecodeHeader(b: byte, x: byte, y: byte)
    ensures Decode([]) == Outcome([], Success)
    ensures b != MAGIC ==> Decode([b, x, y]).status == Failure(InvalidData)
    ensures Decode([MAGIC, x]) == Outcome([], Success)
    ensures Decode([MAGIC, 0, 0]) == Outcome([], Failure(UnexpectedEof))
    ensures (x == 0) != (y == 0) ==> Decode([MAGIC, x, y]) == Outcome([], Failure(InvalidData))
    ensures x != 0 && y != 0 ==> Decode([MAGIC, x, y]) == Outcome([], Failure(InvalidData))
  {
    assert [MAGIC, x, y][1..] == [x, y];
    assert [MAGIC, 0, 0][1..] == [0, 0];
  }

  // ---------------------------------------------------------------------
  // The streaming encoder and decoder

  /** The nested search loops of `compress_lz` over the search buffer. */
  method FindMatch(search: seq<byte>, look: seq<byte>) returns (bestOffset: nat, bestLength: nat)
    ensures Candidate(bestOffset, bestLength) == BestMatch(search, look)
  {
    bestOffset, bestLength := 0, 0;
    var searchLimit := |search|;
    var lookaheadLimit := |look|;
    for startOffset := 0 to searchLimit
      invariant Candidate(bestOffset, bestLength) == BestUpTo(search, look, startOffset)
    {
      var currentLength := 0;
      while currentLength < lookaheadLimit && startOffset + currentLength < searchLimit &&
            search[startOffset + currentLength] == look[currentLength]
        invariant currentLength <= lookaheadLimit && startOffset + currentLength <= searchLimit
        invariant MatchLenFrom(search, look, startOffset, currentLength) == MatchLen(search, look, startOffset)
      {
        currentLength := currentLength + 1;
      }
      if currentLength >= bestLength {
        bestLength := currentLength;
        bestOffset := searchLimit - startOffset;
      }
    }
  }

  /** The tokens for `rest` are those of the first chosen token followed by
      the tokens for what it leaves, with its bytes pushed into the search
      buffer. */
  lemma TokensFromStep(search: seq<byte>, rest: seq<byte>)
    requires rest != []
    ensures var t := Choose(search, Lookahead(rest));
      Width(t) <= |rest| &&
      Serialize(TokensFrom(search, rest))
        == TokenBytes(t) + Serialize(TokensFrom(Window(search + rest[..Width(t)], SEARCH_CAP), rest[Width(t)..]))
  {
    var t := Choose(search, Lookahead(rest));
    SerializeCons(t, TokensFrom(Window(search + rest[..Width(t)], SEARCH_CAP), rest[Width(t)..]));
  }

  /** One round of `compress_lz`'s main loop, stated on the search result:
      the `bytes` written for the chosen token, followed by the tokens for the
      input it leaves after its `w` bytes, are the tokens for `rest`. */
  lemma EncodeStep(search: seq<byte>, rest: seq<byte>, bestOffset: nat, bestLength: nat)
    returns (w: nat, bytes: seq<byte>)
    requires rest != []
    requires Candidate(bestOffset, bestLength) == BestMatch(search, Lookahead(rest))
    ensures bestLength >= MIN_MATCH && bestOffset <= 255 && bestLength <= 255 ==>
      w == bestLength && bytes == [bestOffset, bestLength]
    ensures !(bestLength >= MIN_MATCH && bestOffset <= 255 && bestLength <= 255) ==>
      w == 1 && bytes == [0, 0, rest[0]]
    ensures w <= |rest|
    ensures Serialize(TokensFrom(search, rest))
         == bytes + Serialize(TokensFrom(Window(search + rest[..w], SEARCH_CAP), rest[w..]))
  {
    var t := Choose(search, Lookahead(rest));
    TokensFromStep(search, rest);
    w, bytes := Width(t), TokenBytes(t);
  }

  /** Popping the front of the look-ahead and reading the next input byte, if
      there is one, gives the look-ahead one byte further on. */
  lemma LookaheadShift(input: seq<byte>, pos: nat)
    requires pos < |input|
    ensures var look := Lookahead(input[pos..]);
      pos + |look| <= |input| &&
      look[1..] + (if pos + |look| < |input| then [input[pos + |look|]] else [])
        == Lookahead(input[pos + 1..])
  {
    var look := Lookahead(input[pos..]);
    assert look == input[pos..pos + |look|];
    assert Lookahead(input[pos + 1..]) == input[pos + 1..pos + 1 + Min(LOOKAHEAD_CAP, |input| - pos - 1)];
  }

  lemma SnocSlice(h: seq<byte>, input: seq<byte>, i: nat, j: nat)
    requires i <= j < |input|
    ensures h + input[i..j] + [input[j]] == h + input[i..j + 1]
  {
    assert input[i..j + 1] == input[i..j] + [input[j]];
  }

  lemma SuffixSplit(s: seq<byte>, i: nat, n: nat)
    requires i + n <= |s|
    ensures s[i..][..n] == s[i..i + n] && s[i..][n..] == s[i + n..]
  {
  }

  /** A history no longer than the capacity is its own window. */
  lemma WindowShort(s: seq<byte>)
    requires |s| <= SEARCH_CAP
    ensures Window(s, SEARCH_CAP) == s
  {
  }

  /** The buffer shift `compress_lz` performs for each of the `n` bytes a
      token stands for: pop the front of the look-ahead into the search
      buffer (evicting the oldest byte past the capacity), then read the
      next input byte, if any, into the look-ahead. `pos` is the number of
      consumed input bytes. */
  method ShiftBuffers(input: seq<byte>, searchBuffer: seq<byte>, lookahead: seq<byte>, bytesRead: nat,
                      n: nat, ghost pos: nat)
    returns (search': seq<byte>, lookahead': seq<byte>, bytesRead': nat)
    requires pos + |lookahead| == bytesRead <= |input|
    requires lookahead == Lookahead(input[pos..]) && n <= |lookahead|
    requires |searchBuffer| <= SEARCH_CAP
    ensures search' == Window(searchBuffer + input[pos..pos + n], SEARCH_CAP)
    ensures lookahead' == Lookahead(input[pos + n..])
    ensures pos + n + |lookahead'| == bytesRead' <= |input|
  {
    search', lookahead', bytesRead' := searchBuffer, lookahead, bytesRead;
    WindowShort(searchBuffer);
    ghost var p := pos;
    for k := 0 to n
      invariant p == pos + k
      invariant p + |lookahead'| == bytesRead' <= |input|
      invariant lookahead' == Lookahead(input[p..])
      invariant search' == Window(searchBuffer + input[pos..p], SEARCH_CAP)
    {
      LookaheadShift(input, p);
      if lookahead' != [] {
        var b := lookahead'[0];
        lookahead' := lookahead'[1..];
        PushWindow(searchBuffer + input[pos..p], b, SEARCH_CAP);
        search' := search' + [b];
        if |search'| > SEARCH_CAP {
          search' := search'[1..];
        }
        SnocSlice(searchBuffer, input, pos, p);
        p := p + 1;
      }
      if bytesRead' < |input| {
        lookahead' := lookahead' + [input[bytesRead']];
        bytesRead' := bytesRead' + 1;
      }
    }
  }

  /** One round of `compress_lz`'s main loop: search, write a match or a
      literal token, shift the buffers. `pos` counts the consumed input bytes.
      The literal branch shifts the buffers by one byte exactly as one round
      of the match branch's shift loop does. */
  method EncodeRound(input: seq<byte>, searchBuffer: seq<byte>, lookahead: seq<byte>, bytesRead: nat,
                     ghost pos: nat)
    returns (token: seq<byte>, search': seq<byte>, lookahead': seq<byte>, bytesRead': nat, ghost pos': nat)
    requires pos + |lookahead| == bytesRead <= |input|
    requires lookahead == Lookahead(input[pos..]) && lookahead != []
    requires searchBuffer == Window(input[..pos], SEARCH_CAP)
    ensures pos < pos' && pos' + |lookahead'| == bytesRead' <= |input|
    ensures lookahead' == Lookahead(input[pos'..])
    ensures search' == Window(input[..pos'], SEARCH_CAP)
    ensures Serialize(TokensFrom(searchBuffer, input[pos..]))
         == token + Serialize(TokensFrom(search', input[pos'..]))
  {
    var bestOffset, bestLength := FindMatch(searchBuffer, lookahead);
    ghost var rest := input[pos..];
    ghost var w0, bytes := EncodeStep(searchBuffer, rest, bestOffset, bestLength);
    var w: nat;
    if bestLength >= MIN_MATCH && bestOffset <= 255 && bestLength <= 255 {
      token := [bestOffset, bestLength];
      w := bestLength;
    } else {
      var literalByte := lookahead[0];
      token := [0, 0, literalByte];
      w := 1;
    }
    assert w == w0 && token == bytes;
    search', lookahead', bytesRead' := ShiftBuffers(input, searchBuffer, lookahead, bytesRead, w, pos);
    SuffixSplit(input, pos, w);
    assert search' == Window(searchBuffer + rest[..w], SEARCH_CAP);
    pos' := pos + w;
    assert rest[w..] == input[pos'..];
    WindowAppend(input[..pos], input[pos..pos'], SEARCH_CAP);
    assert input[..pos] + input[pos..pos'] == input[..pos'];
  }

  /** `compress_lz`: the magic byte, then one token per round until the
      look-ahead is empty. */
  method CompressLz(input: seq<byte>) returns (out: seq<byte>)
    ensures out == Encode(input)
  {
    out := [MAGIC];
    var searchBuffer: seq<byte> := [];
    var bytesRead := Min(LOOKAHEAD_CAP, |input|);
    var lookahead := input[..bytesRead];
    ghost var pos := 0;
    assert input[..pos] == [];
    while lookahead != []
      invariant pos + |lookahead| == bytesRead <= |input|
      invariant lookahead == Lookahead(input[pos..])
      invariant searchBuffer == Window(input[..pos], SEARCH_CAP)
      invariant out + Serialize(TokensFrom(searchBuffer, input[pos..])) == Encode(input)
      decreases |input| - pos
    {
      var token;
      token, searchBuffer, lookahead, bytesRead, pos := EncodeRound(input, searchBuffer, lookahead, bytesRead, pos);
      out := out + token;
    }
  }

  /** The step at `pos`, read off the input bytes there. */
  lemma StepAt(input: seq<byte>, pos: nat, history: seq<byte>)
    requires pos + 2 <= |input|
    ensures var offset, length := input[pos], input[pos + 1];
      DecodeStep(input[pos..], history) ==
        if offset == 0 && length == 0 then
          if pos + 3 > |input| then Stop(Failure(UnexpectedEof)) else Emit([input[pos + 2]], 3)
        else if offset == 0 || length == 0 then Stop(Failure(InvalidData))
        else if offset > |history| then Stop(Failure(InvalidData))
        else if length > offset then Stop(Failure(IndexOutOfBounds))
        else Emit(history[|history| - offset..|history| - offset + length], 2)
  {
    var t := input[pos..];
    assert t[0] == input[pos] && t[1] == input[pos + 1];
    if pos + 3 <= |input| {
      assert t[2] == input[pos + 2];
    }
  }

  /** Decoding from `pos` emits the step's bytes, then decodes the rest
      against the history with those bytes pushed. */
  lemma TokensAt(input: seq<byte>, pos: nat, history: seq<byte>, bytes: seq<byte>, k: nat)
    requires pos <= |input| && DecodeStep(input[pos..], history) == Emit(bytes, k)
    ensures pos + k <= |input|
    ensures var r := DecodeTokens(input[pos + k..], Window(history + bytes, SEARCH_CAP));
      DecodeTokens(input[pos..], history) == Outcome(bytes + r.output, r.status)
  {
    assert input[pos..][k..] == input[pos + k..];
  }

  /** Writes each byte into the history buffer, evicting the oldest byte
      past the capacity. */
  method PushAll(history: seq<byte>, bytes: seq<byte>) returns (buffer: seq<byte>)
    requires |history| <= SEARCH_CAP
    ensures buffer == Window(history + bytes, SEARCH_CAP)
  {
    buffer := history;
    WindowShort(history);
    assert history + bytes[..0] == history;
    for j := 0 to |bytes|
      invariant buffer == Window(history + bytes[..j], SEARCH_CAP)
    {
      var byteVal := bytes[j];
      PushWindow(history + bytes[..j], byteVal, SEARCH_CAP);
      buffer := buffer + [byteVal];
      if |buffer| > SEARCH_CAP {
        buffer := buffer[1..];
      }
      assert history + bytes[..j + 1] == history + bytes[..j] + [byteVal];
    }
    assert bytes[..|bytes|] == bytes;
  }

  /** Copies `length` bytes starting `offset` bytes back in the history,
      one at a time; reports whether an index ran past the end. */
  method CopyMatch(history: seq<byte>, offset: nat, length: nat) returns (bytes: seq<byte>, inBounds: bool)
    requires 0 < offset <= |history|
    ensures inBounds <==> length <= offset
    ensures inBounds ==> bytes == history[|history| - offset..|history| - offset + length]
  {
    var startIndex := |history| - offset;
    bytes := [];
    for i := 0 to length
      invariant startIndex + i <= |history|
      invariant i <= offset
      invariant bytes == history[startIndex..startIndex + i]
    {
      if startIndex + i >= |history| {
        return bytes, false;
      }
      bytes := bytes + [history[startIndex + i]];
    }
    inBounds := true;
  }

  /** One pass of the decoding loop of `decompress_lz`: reads the token at
      `pos` and either returns early with a status or emits its bytes,
      updating the history buffer. */
  method DecodeRound(input: seq<byte>, pos: nat, outputBuffer: seq<byte>)
    returns (stop: bool, status: Status, bytes: seq<byte>, pos': nat, outputBuffer': seq<byte>)
    requires pos + 2 <= |input| && |outputBuffer| <= SEARCH_CAP
    ensures pos < pos' <= |input|
    ensures stop ==> DecodeStep(input[pos..], outputBuffer) == Stop(status)
    ensures !stop ==> DecodeStep(input[pos..], outputBuffer) == Emit(bytes, pos' - pos)
    ensures !stop ==> outputBuffer' == Window(outputBuffer + bytes, SEARCH_CAP)
  {
    StepAt(input, pos, outputBuffer);
    var offset, length := input[pos], input[pos + 1];
    pos' := pos + 2;
    outputBuffer' := outputBuffer;
    if offset == 0 && length == 0 {
      if pos' + 1 > |input| {
        return true, Failure(UnexpectedEof), [], pos', outputBuffer';
      }
      var byteVal := input[pos'];
      pos' := pos' + 1;
      bytes := [byteVal];
      WindowShort(outputBuffer);
      PushWindow(outputBuffer, byteVal, SEARCH_CAP);
      outputBuffer' := outputBuffer' + [byteVal];
      if |outputBuffer'| > SEARCH_CAP {
        outputBuffer' := outputBuffer'[1..];
      }
      return false, Success, bytes, pos', outputBuffer';
    }
    if offset == 0 || length == 0 {
      return true, Failure(InvalidData), [], pos', outputBuffer';
    }
    if offset > |outputBuffer| {
      return true, Failure(InvalidData), [], pos', outputBuffer';
    }
    var inBounds;
    bytes, inBounds := CopyMatch(outputBuffer, offset, length);
    if !inBounds {
      return true, Failure(IndexOutOfBounds), [], pos', outputBuffer';
    }
    outputBuffer' := PushAll(outputBuffer, bytes);
    stop, status := false, Success;
  }

  /** The token loop of `decompress_lz`, from `pos` with the given history:
      decodes until fewer than two bytes are left or a token is rejected. */
  method DecodeLoop(input: seq<byte>, pos: nat, outputBuffer: seq<byte>)
    returns (written: seq<byte>, status: Status)
    requires pos <= |input| && |outputBuffer| <= SEARCH_CAP
    ensures Outcome(written, status) == DecodeTokens(input[pos..], outputBuffer)
  {
    written := [];
    var p, buffer := pos, outputBuffer;
    ghost var whole := DecodeTokens(input[pos..], outputBuffer);
    while p + 2 <= |input|
      invariant p <= |input|
      invariant |buffer| <= SEARCH_CAP
      invariant written + DecodeTokens(input[p..], buffer).output == whole.output
      invariant DecodeTokens(input[p..], buffer).status == whole.status
      decreases |input| - p
    {
      var stop, st, bytes, p', buffer' := DecodeRound(input, p, buffer);
      if stop {
        return written, st;
      }
      TokensAt(input, p, buffer, bytes, p' - p);
      assert p + (p' - p) == p';
      ghost var r := DecodeTokens(input[p'..], buffer');
      assert DecodeTokens(input[p..], buffer) == Outcome(bytes + r.output, r.status);
      assert written + (bytes + r.output) == written + bytes + r.output;
      written := written + bytes;
      p, buffer := p', buffer';
    }
    assert DecodeStep(input[p..], buffer) == Stop(Success);
    status := Success;
  }

  /** `decompress_lz`: checks the magic byte, then decodes tokens until fewer
      than two bytes are left, writing each literal and each copied match as
      it is decoded and keeping the last 4096 written bytes as history.
      Returns the bytes the writer received and the status. */
  method DecompressLz(input: seq<byte>) returns (written: seq<byte>, status: Status)
    ensures Outcome(written, status) == Decode(input)
  {
    if |input| == 0 {
      return [], Success;
    }
    if input[0] != MAGIC {
      return [], Failure(InvalidData);
    }
    written, status := DecodeLoop(input, 1, []);
  }
}
