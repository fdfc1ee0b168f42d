/** Whole-buffer LZ77 of the second generation: `compress_lz` reads the whole
    input and scans a window of the last 4096 bytes before a cursor;
    `decompress_lz` decodes 4- and 5-byte tokens against a history deque of
    at most 4096 bytes. There is no magic byte. */
module BufferLz {
  import opened Bytes

  const WINDOW_SIZE: nat := 4096
  const LOOKAHEAD_SIZE: nat := 18
  const MIN_MATCH: nat := 3
  const MAX_MATCH: nat := 18

  datatype Option<T> = None | Some(value: T)

  /** A token: a match `offset` bytes back and `length` bytes long (`(0, 0)`
      when there is none), then the byte that follows it, if any. */
  datatype Token = Token(offset: nat, length: nat, next: Option<byte>)

  /** A match candidate: how far back it starts and how long it is. */
  datatype Match = Match(offset: nat, length: nat)

  function Flag(t: Token): byte
  {
    if t.next.Some? then 1 else 0
  }

  /** The wire bytes of a token: the offset as a little-endian `u16`, the
      length as a `u8` (both casts truncate), the flag byte, and the next
      byte when the flag is 1. */
  function TokenBytes(t: Token): (b: seq<byte>)
    ensures |b| == 4 + Flag(t)
  {
    var o := Mod(t.offset, 0x10000);
    [o - 0x100 * High(o), High(o), Mod(t.length, 0x100), Flag(t)] + NextBytes(t)
  }

  /** `o / 0x100`, written without division. */
  function High(o: nat): (r: nat)
    ensures 0x100 * r <= o < 0x100 * r + 0x100
  {
    if o < 0x100 then 0 else 1 + High(o - 0x100)
  }

  function NextBytes(t: Token): (b: seq<byte>)
    ensures |b| == Flag(t)
  {
    match t.next
    case Some(x) => [x]
    case None => []
  }

  /** The number of input bytes a token stands for. */
  function Width(t: Token): nat
  {
    t.length + Flag(t)
  }

  function Serialize(ts: seq<Token>): seq<byte>
  {
    if ts == [] then [] else TokenBytes(ts[0]) + Serialize(ts[1..])
  }

  function TotalWidth(ts: seq<Token>): nat
  {
    if ts == [] then 0 else Width(ts[0]) + TotalWidth(ts[1..])
  }

  // ---------------------------------------------------------------------
  // Match search

  /** First index of the search window when the cursor is at `pos`. */
  function WindowStart(pos: nat): nat
  {
    if pos >= WINDOW_SIZE then pos - WINDOW_SIZE else 0
  }

  /** The search window `buffer[window_start..pos]`. */
  function Search(input: seq<byte>, pos: nat): (search: seq<byte>)
    requires pos <= |input|
    ensures |search| == Min(pos, WINDOW_SIZE)
  {
    input[WindowStart(pos)..pos]
  }

  /** Extends a match of length `c` at start `i` while the bytes agree, the
      look-ahead and the cap allow, and the match stays inside the search
      window. */
  function MatchLenFrom(search: seq<byte>, look: seq<byte>, i: nat, c: nat): (n: nat)
    requires c <= |look| && c <= MAX_MATCH && i + c <= |search|
    ensures c <= n <= |look| && n <= MAX_MATCH && i + n <= |search|
    ensures n < |look| && n < MAX_MATCH && i + n < |search| ==> search[i + n] != look[n]
    decreases |look| - c
  {
    if c < |look| && c < MAX_MATCH && i + c < |search| && search[i + c] == look[c]
    then MatchLenFrom(search, look, i, c + 1)
    else c
  }

  function MatchLen(search: seq<byte>, look: seq<byte>, i: nat): nat
    requires i <= |search|
  {
    MatchLenFrom(search, look, i, 0)
  }

  /** The match found at start `i` really is a copy of the look-ahead. */
  lemma {:induction false} MatchLenAgrees(search: seq<byte>, look: seq<byte>, i: nat, c: nat)
    requires c <= |look| && c <= MAX_MATCH && i + c <= |search|
    requires search[i..i + c] == look[..c]
    ensures var n := MatchLenFrom(search, look, i, c);
      search[i..i + n] == look[..n]
    decreases |look| - c
  {
    if c < |look| && c < MAX_MATCH && i + c < |search| && search[i + c] == look[c] {
      assert search[i..i + c + 1] == search[i..i + c] + [search[i + c]];
      assert look[..c + 1] == look[..c] + [look[c]];
      MatchLenAgrees(search, look, i, c + 1);
    }
  }

  /** The best match among the starts `0..k` of the search window: a longer
      match of at least `MIN_MATCH` bytes replaces the best so far, so among
      equal lengths the earliest start, the largest offset, is kept. */
  function BestUpTo(search: seq<byte>, look: seq<byte>, k: nat): (m: Match)
    requires k <= |search|
    ensures m.length == 0 <==> m.offset == 0
    ensures m.length != 0 ==> MIN_MATCH <= m.length && |search| - k < m.offset <= |search|
    ensures m.length != 0 ==> m.length == MatchLen(search, look, |search| - m.offset)
    ensures m.length <= |look| && m.length <= MAX_MATCH
  {
    if k == 0 then Match(0, 0)
    else
      var m := BestUpTo(search, look, k - 1);
      var l := MatchLen(search, look, k - 1);
      if l >= MIN_MATCH && l > m.length then Match(|search| - (k - 1), l) else m
  }

  /** No start before `k` beats the best match. */
  lemma {:induction false} BestUpToLongest(search: seq<byte>, look: seq<byte>, k: nat)
    requires k <= |search|
    ensures forall i :: 0 <= i < k && MatchLen(search, look, i) >= MIN_MATCH ==>
      MatchLen(search, look, i) <= BestUpTo(search, look, k).length
  {
    if k > 0 {
      BestUpToLongest(search, look, k - 1);
      var m := BestUpTo(search, look, k - 1);
      assert BestUpTo(search, look, k).length >= m.length;
    }
  }

  /** No start before the chosen one reaches its length. */
  lemma {:induction false} BestUpToEarliest(search: seq<byte>, look: seq<byte>, k: nat)
    requires k <= |search|
    ensures var m := BestUpTo(search, look, k);
      m.length != 0 ==> forall i :: 0 <= i < |search| - m.offset ==> MatchLen(search, look, i) < m.length
  {
    if k > 0 {
      var m := BestUpTo(search, look, k - 1);
      var l := MatchLen(search, look, k - 1);
      if l >= MIN_MATCH && l > m.length {
        assert BestUpTo(search, look, k) == Match(|search| - (k - 1), l);
        BestUpToLongest(search, look, k - 1);
        assert forall i :: 0 <= i < k - 1 ==> MatchLen(search, look, i) < l;
      } else {
        assert BestUpTo(search, look, k) == m;
        BestUpToEarliest(search, look, k - 1);
      }
    }
  }

  /** The token `compress_lz` emits with this search window and look-ahead:
      the best match, then the byte after it when the look-ahead goes on. */
  function Choose(search: seq<byte>, look: seq<byte>): (t: Token)
    requires look != []
    ensures t.length == 0 <==> t.offset == 0
    ensures t.length == 0 || MIN_MATCH <= t.length <= MAX_MATCH
    ensures t.length <= t.offset <= |search|
    ensures t.next.Some? <==> t.length < |look|
    ensures 1 <= Width(t) <= |look|
  {
    var m := BestUpTo(search, look, |search|);
    Token(m.offset, m.length, if m.length < |look| then Some(look[m.length]) else None)
  }

  /** The tie-break of `compress_lz`: every start before the chosen one
      matches fewer bytes, and no start matches more. */
  lemma ChooseEarliest(search: seq<byte>, look: seq<byte>)
    requires look != []
    ensures var t := Choose(search, look);
      forall i :: 0 <= i < |search| && MatchLen(search, look, i) >= MIN_MATCH ==>
        MatchLen(search, look, i) <= t.length
    ensures var t := Choose(search, look);
      t.length != 0 ==> forall i :: 0 <= i < |search| - t.offset ==> MatchLen(search, look, i) < t.length
  {
    BestUpToLongest(search, look, |search|);
    BestUpToEarliest(search, look, |search|);
  }

  // ---------------------------------------------------------------------
  // Reference encoder

  /** The look-ahead: the next at most `LOOKAHEAD_SIZE` unconsumed bytes. */
  function Lookahead(rest: seq<byte>): (look: seq<byte>)
    ensures |look| == Min(LOOKAHEAD_SIZE, |rest|) && look == rest[..|look|]
  {
    rest[..Min(LOOKAHEAD_SIZE, |rest|)]
  }

  /** The tokens `compress_lz` emits for the unconsumed bytes `rest` when
      the search window holds `search`. */
  function TokensFrom(search: seq<byte>, rest: seq<byte>): seq<Token>
    decreases |rest|
  {
    if rest == [] then []
    else
      var t := Choose(search, Lookahead(rest));
      [t] + TokensFrom(Window(search + rest[..Width(t)], WINDOW_SIZE), rest[Width(t)..])
  }

  function Encode(input: seq<byte>): seq<byte>
  {
    Serialize(TokensFrom([], input))
  }

  // ---------------------------------------------------------------------
  // Reference decoder, as written

  /** The token at the front of `t` and the number of bytes it takes: the
      literal byte is read when the flag is 1 and a byte is left. */
  datatype Header = Header(token: Token, size: nat)

  function ReadHeader(t: seq<byte>): (h: Header)
    requires |t| >= 4
    ensures h.size == 4 + Flag(h.token) <= |t|
  {
    var next := if t[3] == 1 && |t| > 4 then Some(t[4]) else None;
    var token := Token(t[0] as int + 0x100 * t[1] as int, t[2], next);
    Header(token, 4 + Flag(token))
  }

  /** `i % n`, written without division. */
  function Mod(i: nat, n: nat): (r: nat)
    requires n > 0
    ensures r < n
  {
    if i < n then i else Mod(i - n, n)
  }

  function SaturatingSub(a: nat, b: nat): nat
  {
    if a >= b then a - b else 0
  }

  /** What the copy loop of `decompress_lz` writes from iteration `i` on:
      each byte is read at `start + i % offset` of the current history, then
      pushed, evicting the oldest byte beyond `WINDOW_SIZE`; `start` is not
      adjusted for the eviction. */
  function CopyRun(history: seq<byte>, start: nat, offset: nat, i: nat, length: nat): seq<byte>
    decreases length - i
  {
    if i >= length || offset == 0 || start + Mod(i, offset) >= |history| then []
    else
      var b := history[start + Mod(i, offset)];
      [b] + CopyRun(PushEvict(history, b, WINDOW_SIZE), start, offset, i + 1, length)
  }

  /** The tokens `decompress_lz` reads from `t`: one per round while at
      least 4 bytes are left. Reading a header does not depend on the
      history, so decoding is parsing followed by replaying. */
  function Parse(t: seq<byte>): seq<Token>
    decreases |t|
  {
    if |t| < 4 then []
    else
      var hd := ReadHeader(t);
      [hd.token] + Parse(t[hd.size..])
  }

  /** What `decompress_lz` writes for one token: the copied bytes, then
      the literal byte, if any. */
  function Emit(tok: Token, history: seq<byte>): seq<byte>
  {
    CopyRun(history, SaturatingSub(|history|, tok.offset), tok.offset, 0, tok.length) + NextBytes(tok)
  }

  /** Everything `decompress_lz` writes for the tokens `ts`. The deque
      after the pushes and evictions of a token is the window of the longer
      history (`PushWindow`). */
  function Replay(ts: seq<Token>, history: seq<byte>): seq<byte>
    decreases |ts|
  {
    if ts == [] then []
    else
      var out := Emit(ts[0], history);
      out + Replay(ts[1..], Window(history + out, WINDOW_SIZE))
  }

  /** `decompress_lz` on a whole input: it never fails, and ignores fewer
      than 4 trailing bytes. */
  function Decode(input: seq<byte>): seq<byte>
  {
    Replay(Parse(input), [])
  }

  // ---------------------------------------------------------------------
  // Corrected decoder: the copy indexes the history as it was before the
  // token, so an eviction during the copy does not shift it.

  /** The copy loop reading from `history` extended by the bytes copied so
      far, without evicting anything. */
  function CopyFrom(history: seq<byte>, start: nat, offset: nat, i: nat, length: nat): seq<byte>
    decreases length - i
  {
    if i >= length || offset == 0 || start + Mod(i, offset) >= |history| then []
    else
      var b := history[start + Mod(i, offset)];
      [b] + CopyFrom(history + [b], start, offset, i + 1, length)
  }

  function EmitFixed(tok: Token, history: seq<byte>): seq<byte>
  {
    CopyFrom(history, SaturatingSub(|history|, tok.offset), tok.offset, 0, tok.length) + NextBytes(tok)
  }

  function ReplayFixed(ts: seq<Token>, history: seq<byte>): seq<byte>
    decreases |ts|
  {
    if ts == [] then []
    else
      var out := EmitFixed(ts[0], history);
      out + ReplayFixed(ts[1..], Window(history + out, WINDOW_SIZE))
  }

  function DecodeFixed(input: seq<byte>): seq<byte>
  {
    ReplayFixed(Parse(input), [])
  }

  // ---------------------------------------------------------------------
  // Properties of the encoder

  lemma SerializeCons(t: Token, ts: seq<Token>)
    ensures Serialize([t] + ts) == TokenBytes(t) + Serialize(ts)
  {
    assert ([t] + ts)[1..] == ts;
  }

  /** One step of the encoder: the first token, then the tokens for the
      bytes after it. */
  lemma TokensFromStep(search: seq<byte>, rest: seq<byte>, t: Token)
    requires rest != [] && t == Choose(search, Lookahead(rest))
    ensures Width(t) <= |rest|
    ensures Serialize(TokensFrom(search, rest))
      == TokenBytes(t) + Serialize(TokensFrom(Window(search + rest[..Width(t)], WINDOW_SIZE), rest[Width(t)..]))
  {
    var w := Width(t);
    SerializeCons(t, TokensFrom(Window(search + rest[..w], WINDOW_SIZE), rest[w..]));
  }

  /** The tokens stand for the input exactly: their widths add up to the
      number of bytes left, so the cursor lands on the end. */
  lemma {:induction false} WidthsCover(search: seq<byte>, rest: seq<byte>)
    ensures TotalWidth(TokensFrom(search, rest)) == |rest|
    decreases |rest|
  {
    if rest != [] {
      var t := Choose(search, Lookahead(rest));
      var w := Width(t);
      var later := TokensFrom(Window(search + rest[..w], WINDOW_SIZE), rest[w..]);
      WidthsCover(Window(search + rest[..w], WINDOW_SIZE), rest[w..]);
      assert TokensFrom(search, rest) == [t] + later;
      assert ([t] + later)[1..] == later;
    }
  }

  /** No magic byte: a non-empty input opens with a literal token for its
      first byte, and the empty input encodes to nothing. */
  lemma EncodeStart(input: seq<byte>)
    ensures input == [] ==> Encode(input) == []
    ensures input != [] ==> Encode(input)[..5] == [0, 0, 0, 1, input[0]]
  {
    if input != [] {
      var t := Choose([], Lookahead(input));
      TokensFromStep([], input, t);
      assert t == Token(0, 0, Some(input[0]));
    }
  }

  /** Token `t`, decoded against `history`, stands for exactly `chunk`: a
      match of `length <= offset` bytes from the history, then the next
      byte, if any. */
  predicate Reproduces(t: Token, history: seq<byte>, chunk: seq<byte>)
  {
    t.offset <= WINDOW_SIZE && t.length <= MAX_MATCH &&
    (t.length == 0 <==> t.offset == 0) &&
    t.length <= t.offset <= |history| && |chunk| == Width(t) &&
    chunk[..t.length] == history[|history| - t.offset..|history| - t.offset + t.length] &&
    (t.next.Some? ==> chunk[t.length] == t.next.value)
  }

  /** The token chosen for `rest` stands for the bytes it covers. */
  lemma ChooseCovers(search: seq<byte>, rest: seq<byte>, t: Token)
    requires rest != [] && |search| <= WINDOW_SIZE && t == Choose(search, Lookahead(rest))
    ensures Width(t) <= |rest| && Reproduces(t, search, rest[..Width(t)])
  {
    var look := Lookahead(rest);
    if t.length != 0 {
      var i := |search| - t.offset;
      MatchLenAgrees(search, look, i, 0);
      assert search[i..i + t.length] == look[..t.length];
    }
    assert rest[..Width(t)][..t.length] == look[..t.length];
  }

  // ---------------------------------------------------------------------
  // Properties of the decoders

  /** The header of a serialized token gives back its fields. */
  lemma HeaderOf(t: Token, rest: seq<byte>)
    requires t.offset < 0x10000 && t.length < 0x100
    ensures ReadHeader(TokenBytes(t) + rest) == Header(t, |TokenBytes(t)|)
    ensures (TokenBytes(t) + rest)[|TokenBytes(t)|..] == rest
  {
    var b := TokenBytes(t) + rest;
    assert b[0] as int + 0x100 * b[1] as int == t.offset;
    assert b[2] == t.length;
    match t.next {
      case Some(x) => assert b[3] == 1 && b[4] == x;
      case None => assert b[3] == 0;
    }
  }

  /** Copying `length <= offset` bytes from `offset` back reads a slice of
      the history as it was before the token. */
  lemma {:induction false} CopySlice(h0: seq<byte>, offset: nat, i: nat, length: nat)
    requires 0 < offset <= |h0| && i <= length <= offset
    ensures var s := |h0| - offset;
      CopyFrom(h0 + h0[s..s + i], s, offset, i, length) == h0[s + i..s + length]
    decreases length - i
  {
    var s := |h0| - offset;
    if i < length {
      var h := h0 + h0[s..s + i];
      assert Mod(i, offset) == i;
      assert h[s + i] == h0[s + i];
      assert h + [h0[s + i]] == h0 + h0[s..s + i + 1];
      CopySlice(h0, offset, i + 1, length);
      assert h0[s + i..s + length] == [h0[s + i]] + h0[s + i + 1..s + length];
    }
  }

  /** While the history has room for the whole copy, nothing is evicted and
      the copy loop as written does what the corrected one does. */
  lemma {:induction false} CopyAgrees(history: seq<byte>, start: nat, offset: nat, i: nat, length: nat)
    requires |history| + (length - i) <= WINDOW_SIZE
    ensures CopyRun(history, start, offset, i, length) == CopyFrom(history, start, offset, i, length)
    decreases length - i
  {
    if !(i >= length || offset == 0 || start + Mod(i, offset) >= |history|) {
      var b := history[start + Mod(i, offset)];
      assert PushEvict(history, b, WINDOW_SIZE) == history + [b];
      CopyAgrees(history + [b], start, offset, i + 1, length);
    }
  }

  /** A token that stands for `chunk` makes the corrected decoder copy
      the match part of `chunk`. */
  lemma CopyChunk(t: Token, history: seq<byte>, chunk: seq<byte>)
    requires Reproduces(t, history, chunk)
    ensures CopyFrom(history, SaturatingSub(|history|, t.offset), t.offset, 0, t.length) == chunk[..t.length]
  {
    var s := |history| - t.offset;
    assert SaturatingSub(|history|, t.offset) == s;
    if t.length != 0 {
      CopySlice(history, t.offset, 0, t.length);
      assert history + history[s..s] == history;
      assert chunk[..t.length] == history[s..s + t.length];
    }
  }

  /** A token that stands for `chunk` makes the corrected decoder emit
      `chunk`. */
  lemma EmitChunk(t: Token, history: seq<byte>, chunk: seq<byte>)
    requires Reproduces(t, history, chunk)
    ensures EmitFixed(t, history) == chunk
  {
    CopyChunk(t, history, chunk);
    assert chunk == chunk[..t.length] + NextBytes(t);
  }

  /** While the history has room for the chunk, the decoder as written
      emits what the corrected one does. */
  lemma EmitBounded(t: Token, history: seq<byte>, chunk: seq<byte>)
    requires Reproduces(t, history, chunk) && |history| + |chunk| <= WINDOW_SIZE
    ensures Emit(t, history) == chunk
  {
    EmitChunk(t, history, chunk);
    CopyAgrees(history, SaturatingSub(|history|, t.offset), t.offset, 0, t.length);
  }

  /** Tokens whose fields fit their wire widths. */
  predicate Encodable(ts: seq<Token>)
  {
    forall i :: 0 <= i < |ts| ==> ts[i].offset < 0x10000 && ts[i].length < 0x100
  }

  /** Parsing the wire form gives the tokens back; fewer than 4 trailing
      bytes are ignored. */
  lemma {:induction false} ParseSerialize(ts: seq<Token>, tail: seq<byte>)
    requires Encodable(ts) && |tail| < 4
    ensures Parse(Serialize(ts) + tail) == ts
    decreases |ts|
  {
    if ts == [] {
      assert Serialize(ts) + tail == tail;
    } else {
      var t := ts[0];
      var more := Serialize(ts[1..]) + tail;
      SerializeCons(t, ts[1..]);
      assert [t] + ts[1..] == ts;
      assert Serialize(ts) + tail == TokenBytes(t) + more;
      HeaderOf(t, more);
      ParseSerialize(ts[1..], tail);
      assert Parse(TokenBytes(t) + more) == [t] + Parse(more);
    }
  }

  /** `ts` stands for `rest`, token by token, when decoded from `history`,
      and the window of the history never exceeds its capacity. */
  ghost predicate Covers(ts: seq<Token>, history: seq<byte>, rest: seq<byte>)
    decreases |ts|
  {
    |history| <= WINDOW_SIZE &&
    if ts == [] then rest == []
    else
      var w := Width(ts[0]);
      w <= |rest| &&
      Reproduces(ts[0], history, rest[..w]) &&
      Covers(ts[1..], Window(history + rest[..w], WINDOW_SIZE), rest[w..])
  }

  /** The encoder's tokens cover the bytes they were chosen for. */
  lemma {:induction false} TokensFromCovers(search: seq<byte>, rest: seq<byte>)
    requires |search| <= WINDOW_SIZE
    ensures Covers(TokensFrom(search, rest), search, rest)
    decreases |rest|
  {
    if rest != [] {
      var t := Choose(search, Lookahead(rest));
      var w := Width(t);
      ChooseCovers(search, rest, t);
      var ts := TokensFrom(Window(search + rest[..w], WINDOW_SIZE), rest[w..]);
      TokensFromCovers(Window(search + rest[..w], WINDOW_SIZE), rest[w..]);
      assert TokensFrom(search, rest) == [t] + ts;
      assert ([t] + ts)[1..] == ts;
    }
  }

  /** Covering tokens are encodable. */
  lemma {:induction false} CoversEncodable(ts: seq<Token>, history: seq<byte>, rest: seq<byte>)
    requires Covers(ts, history, rest)
    ensures Encodable(ts)
    decreases |ts|
  {
    if ts != [] {
      var w := Width(ts[0]);
      CoversEncodable(ts[1..], Window(history + rest[..w], WINDOW_SIZE), rest[w..]);
      assert forall i :: 1 <= i < |ts| ==> ts[i] == ts[1..][i - 1];
    }
  }

  /** The corrected decoder replays covering tokens into what they stand
      for. */
  lemma {:induction false} ReplayCoveredFixed(ts: seq<Token>, history: seq<byte>, rest: seq<byte>)
    requires Covers(ts, history, rest)
    ensures ReplayFixed(ts, history) == rest
    decreases |ts|
  {
    if ts != [] {
      var w := Width(ts[0]);
      EmitChunk(ts[0], history, rest[..w]);
      ReplayCoveredFixed(ts[1..], Window(history + rest[..w], WINDOW_SIZE), rest[w..]);
      assert rest[..w] + rest[w..] == rest;
    }
  }

  /** The decoder as written does the same while history and bytes to come
      fit in the window together. */
  lemma {:induction false} ReplayCoveredBounded(ts: seq<Token>, history: seq<byte>, rest: seq<byte>)
    requires Covers(ts, history, rest) && |history| + |rest| <= WINDOW_SIZE
    ensures Replay(ts, history) == rest
    decreases |ts|
  {
    if ts != [] {
      var w := Width(ts[0]);
      EmitBounded(ts[0], history, rest[..w]);
      assert Window(history + rest[..w], WINDOW_SIZE) == history + rest[..w];
      ReplayCoveredBounded(ts[1..], history + rest[..w], rest[w..]);
      assert rest[..w] + rest[w..] == rest;
    }
  }

  /** The corrected decoder undoes the encoder on every input; fewer than 4
      stray bytes after the last token are ignored. */
  lemma RoundTripFixed(s: seq<byte>, tail: seq<byte>)
    requires |tail| < 4
    ensures DecodeFixed(Encode(s) + tail) == s
  {
    TokensFromCovers([], s);
    CoversEncodable(TokensFrom([], s), [], s);
    ParseSerialize(TokensFrom([], s), tail);
    ReplayCoveredFixed(TokensFrom([], s), [], s);
  }

  /** The decoder as written undoes the encoder on inputs no longer than the
      window, where the history never evicts a byte. */
  lemma RoundTripBounded(s: seq<byte>, tail: seq<byte>)
    requires |s| <= WINDOW_SIZE && |tail| < 4
    ensures Decode(Encode(s) + tail) == s
  {
    TokensFromCovers([], s);
    CoversEncodable(TokensFrom([], s), [], s);
    ParseSerialize(TokensFrom([], s), tail);
    ReplayCoveredBounded(TokensFrom([], s), [], s);
  }

  // ---------------------------------------------------------------------
  // An eviction during the copy shifts the indices

  lemma {:induction false} ExampleBest(h: seq<byte>, look: seq<byte>, k: nat)
    requires h == [1, 2, 3] + Repeat(0, 4093) && look == [1, 2, 3]
    requires 1 <= k <= |h|
    ensures BestUpTo(h, look, k) == Match(4096, 3)
    decreases k
  {
    if k == 1 {
      assert MatchLenFrom(h, look, 0, 3) == 3;
      assert MatchLen(h, look, 0) == 3;
    } else {
      ExampleBest(h, look, k - 1);
      assert h[k - 1] != 1;
      assert MatchLen(h, look, k - 1) == 0;
    }
  }

  /** With a full window of `[1, 2, 3]` followed by 4093 zeros and the
      look-ahead `[1, 2, 3]`, `compress_lz` emits the match 4096 bytes back
      of length 3, which stands for `[1, 2, 3]`; `decompress_lz`, evicting
      the oldest byte after each copied byte while `start_index` stays put,
      writes `[1, 3, 0]`. The corrected decoder writes `[1, 2, 3]`.
      The 4108-byte input `[7, 1, 2, 3, 0, 0, 0, 0, 9] + [1, 2, 3] + 4093
      zeros + [1, 2, 3]` reaches this state: its tokens end exactly at
      position 4105, whose window is `h` and whose look-ahead is `[1, 2, 3]`,
      so its last token is this match. */
  lemma EvictionShiftsCopy(h: seq<byte>)
    requires h == [1, 2, 3] + Repeat(0, 4093)
    ensures Choose(h, [1, 2, 3]) == Token(4096, 3, None)
    ensures TokenBytes(Token(4096, 3, None)) == [0, 0x10, 3, 0]
    ensures Reproduces(Token(4096, 3, None), h, [1, 2, 3])
    ensures Parse([0, 0x10, 3, 0]) == [Token(4096, 3, None)]
    ensures Replay([Token(4096, 3, None)], h) == [1, 3, 0]
    ensures ReplayFixed([Token(4096, 3, None)], h) == [1, 2, 3]
  {
    ExampleBest(h, [1, 2, 3], |h|);
    ExampleToken(h);
    ExampleAsWritten(h);
    ExampleFixed(h);
  }

  lemma ExampleToken(h: seq<byte>)
    requires h == [1, 2, 3] + Repeat(0, 4093)
    ensures TokenBytes(Token(4096, 3, None)) == [0, 0x10, 3, 0]
    ensures Reproduces(Token(4096, 3, None), h, [1, 2, 3])
    ensures Parse([0, 0x10, 3, 0]) == [Token(4096, 3, None)]
  {
    assert ReadHeader([0, 0x10, 3, 0]) == Header(Token(4096, 3, None), 4);
    assert h[..3] == [1, 2, 3];
  }

  lemma ExampleAsWritten(h: seq<byte>)
    requires h == [1, 2, 3] + Repeat(0, 4093)
    ensures Decode([0, 0x10, 3, 0]) == Replay([Token(4096, 3, None)], [])
    ensures Replay([Token(4096, 3, None)], h) == [1, 3, 0]
  {
    ExampleToken(h);
    var h1 := PushEvict(h, 1, WINDOW_SIZE);
    var h2 := PushEvict(h1, 3, WINDOW_SIZE);
    assert h1 == (h + [1])[1..] && h1[1] == 3;
    assert h2 == (h1 + [3])[1..] && h2[2] == 0;
    assert CopyRun(h2, 0, 4096, 2, 3) == [0];
    assert CopyRun(h1, 0, 4096, 1, 3) == [3, 0];
    assert CopyRun(h, 0, 4096, 0, 3) == [1, 3, 0];
    assert Emit(Token(4096, 3, None), h) == [1, 3, 0];
  }

  lemma ExampleFixed(h: seq<byte>)
    requires h == [1, 2, 3] + Repeat(0, 4093)
    ensures ReplayFixed([Token(4096, 3, None)], h) == [1, 2, 3]
  {
    ExampleToken(h);
    assert CopyFrom(h + [1, 2], 0, 4096, 2, 3) == [3];
    assert h + [1] + [2] == h + [1, 2];
    assert CopyFrom(h + [1], 0, 4096, 1, 3) == [2, 3];
    assert CopyFrom(h, 0, 4096, 0, 3) == [1, 2, 3];
    assert EmitFixed(Token(4096, 3, None), h) == [1, 2, 3];
  }

  // ---------------------------------------------------------------------
  // The encoder and decoder as written

  /** The search window is the window of everything before the cursor. */
  lemma SearchIsWindow(input: seq<byte>, pos: nat)
    requires pos <= |input|
    ensures Search(input, pos) == Window(input[..pos], WINDOW_SIZE)
  {
    WindowSuffix(input[..pos], WINDOW_SIZE);
  }

  /** Consuming `w` bytes moves the search window along by those bytes. */
  lemma SearchAdvance(input: seq<byte>, pos: nat, w: nat)
    requires pos + w <= |input|
    ensures Window(Search(input, pos) + input[pos..pos + w], WINDOW_SIZE) == Search(input, pos + w)
  {
    SearchIsWindow(input, pos);
    SearchIsWindow(input, pos + w);
    WindowAppend(input[..pos], input[pos..pos + w], WINDOW_SIZE);
    assert input[..pos] + input[pos..pos + w] == input[..pos + w];
  }

  /** Consuming `w` bytes at the cursor, as slices of the unconsumed bytes. */
  lemma NextWindow(input: seq<byte>, pos: nat, w: nat)
    requires pos + w <= |input|
    ensures Window(Search(input, pos) + input[pos..][..w], WINDOW_SIZE) == Search(input, pos + w)
    ensures input[pos..][w..] == input[pos + w..]
  {
    assert input[pos..][..w] == input[pos..pos + w];
    SearchAdvance(input, pos, w);
  }

  /** The look-ahead slice `buffer[pos..min(pos + 18, len)]`. */
  lemma LookaheadAt(input: seq<byte>, pos: nat)
    requires pos <= |input|
    ensures Lookahead(input[pos..]) == input[pos..Min(pos + LOOKAHEAD_SIZE, |input|)]
  {
  }

  /** `Mod` is the remainder of `%`. */
  lemma {:induction false} ModIsRemainder(i: nat, n: nat)
    requires n > 0
    ensures Mod(i, n) == i % n
    decreases i
  {
    if i >= n {
      ModIsRemainder(i - n, n);
      RemainderStep(i, n);
    }
  }

  lemma RemainderStep(i: nat, n: nat)
    requires 0 < n <= i
    ensures (i - n) % n == i % n
  {
    var q := (i - n) / n;
    assert i == (q + 1) * n + (i - n) % n;
    RemainderUnique(i, n, q + 1, (i - n) % n);
  }

  /** A remainder is determined by any quotient-remainder split. */
  lemma RemainderUnique(i: int, n: int, q: int, r: int)
    requires n > 0 && 0 <= r < n && i == q * n + r
    ensures i % n == r
  {
    var k := i / n - q;
    assert k * n == r - i % n;
    MulBound(k, n);
  }

  lemma {:induction false} MulBound(k: int, n: int)
    requires n > 0
    ensures k >= 1 ==> k * n >= n
    ensures k <= -1 ==> k * n <= -n
    decreases if k < 0 then -k else k
  {
    if k > 1 {
      MulBound(k - 1, n);
      assert k * n == (k - 1) * n + n;
    } else if k < -1 {
      MulBound(k + 1, n);
      assert k * n == (k + 1) * n - n;
    }
  }

  /** `High` is the quotient of `/ 0x100`. */
  lemma HighIsQuotient(o: nat)
    ensures High(o) == o / 0x100 && o - 0x100 * High(o) == o % 0x100
  {
  }

  /** The match search of `compress_lz`: for each start of the search
      window, extend the match while the bytes agree, and keep it when it is
      at least `MIN_MATCH` long and longer than the best so far. */
  method FindMatch(searchBuffer: seq<byte>, lookaheadBuffer: seq<byte>) returns (bestOffset: nat, bestLength: nat)
    ensures Match(bestOffset, bestLength) == BestUpTo(searchBuffer, lookaheadBuffer, |searchBuffer|)
  {
    bestOffset, bestLength := 0, 0;
    for i := 0 to |searchBuffer|
      invariant Match(bestOffset, bestLength) == BestUpTo(searchBuffer, lookaheadBuffer, i)
    {
      var currentLength := MatchAt(searchBuffer, lookaheadBuffer, i);
      if currentLength >= MIN_MATCH && currentLength > bestLength {
        bestLength := currentLength;
        bestOffset := |searchBuffer| - i;
      }
    }
  }

  /** The inner loop of the match search: how many bytes agree from start
      `i` of the search window, within the look-ahead, the cap and the
      window. */
  method MatchAt(searchBuffer: seq<byte>, lookaheadBuffer: seq<byte>, i: nat) returns (currentLength: nat)
    requires i < |searchBuffer|
    ensures currentLength == MatchLen(searchBuffer, lookaheadBuffer, i)
  {
    currentLength := 0;
    while currentLength < |lookaheadBuffer| && currentLength < MAX_MATCH
      && i + currentLength < |searchBuffer|
      && searchBuffer[i + currentLength] == lookaheadBuffer[currentLength]
      invariant currentLength <= |lookaheadBuffer| && currentLength <= MAX_MATCH
      invariant i + currentLength <= |searchBuffer|
      invariant MatchLenFrom(searchBuffer, lookaheadBuffer, i, currentLength) == MatchLen(searchBuffer, lookaheadBuffer, i)
      decreases |lookaheadBuffer| - currentLength
    {
      currentLength := currentLength + 1;
    }
  }

  /** One round of `compress_lz`: search, then write the token bytes,
      with `rest` the unconsumed bytes and `w` the number the token stands
      for. */
  method EncodeRound(searchBuffer: seq<byte>, lookaheadBuffer: seq<byte>, ghost rest: seq<byte>)
    returns (token: seq<byte>, w: nat)
    requires rest != [] && lookaheadBuffer == Lookahead(rest)
    ensures 1 <= w <= |rest|
    ensures Serialize(TokensFrom(searchBuffer, rest))
         == token + Serialize(TokensFrom(Window(searchBuffer + rest[..w], WINDOW_SIZE), rest[w..]))
  {
    var bestOffset, bestLength := FindMatch(searchBuffer, lookaheadBuffer);
    var nextByteFlag: byte, nextByte: byte := 0, 0;
    if bestLength < |lookaheadBuffer| {
      nextByteFlag, nextByte := 1, lookaheadBuffer[bestLength];
    }
    ghost var t := Token(bestOffset, bestLength, if nextByteFlag == 1 then Some(nextByte) else None);
    assert t == Choose(searchBuffer, lookaheadBuffer);
    token := WriteToken(bestOffset, bestLength, nextByteFlag, nextByte);
    w := bestLength + if nextByteFlag == 1 then 1 else 0;
    assert w == Width(t);
    TokensFromStep(searchBuffer, rest, t);
  }

  /** The round of `compress_lz` at cursor `pos`: the window and the
      look-ahead are slices of the input. */
  method CompressRound(input: seq<byte>, pos: nat) returns (token: seq<byte>, pos': nat)
    requires pos < |input|
    ensures pos < pos' <= |input|
    ensures Serialize(TokensFrom(Search(input, pos), input[pos..]))
         == token + Serialize(TokensFrom(Search(input, pos'), input[pos'..]))
  {
    var windowStart := if pos >= WINDOW_SIZE then pos - WINDOW_SIZE else 0;
    var searchBuffer := input[windowStart..pos];
    var lookaheadBuffer := input[pos..Min(pos + LOOKAHEAD_SIZE, |input|)];
    LookaheadAt(input, pos);
    var w;
    token, w := EncodeRound(searchBuffer, lookaheadBuffer, input[pos..]);
    pos' := pos + w;
    RoundShift(input, pos, searchBuffer, w, pos', token);
  }

  /** The step `EncodeRound` proves, restated with the search window and
      the unconsumed bytes as slices of the input. */
  lemma RoundShift(input: seq<byte>, pos: nat, search: seq<byte>, w: nat, pos': nat, token: seq<byte>)
    requires pos' == pos + w <= |input| && search == Search(input, pos)
    requires Serialize(TokensFrom(search, input[pos..]))
        == token + Serialize(TokensFrom(Window(search + input[pos..][..w], WINDOW_SIZE), input[pos..][w..]))
    ensures Serialize(TokensFrom(Search(input, pos), input[pos..]))
         == token + Serialize(TokensFrom(Search(input, pos'), input[pos'..]))
  {
    NextWindow(input, pos, w);
    ghost var next, rest := Window(search + input[pos..][..w], WINDOW_SIZE), input[pos..][w..];
    assert next == Search(input, pos');
    assert rest == input[pos'..];
  }

  /** The bytes `compress_lz` writes for a token: the offset as a
      little-endian `u16`, the length as a `u8`, the flag, then the next
      byte when the flag is 1. */
  method WriteToken(bestOffset: nat, bestLength: nat, nextByteFlag: byte, nextByte: byte)
    returns (token: seq<byte>)
    requires nextByteFlag == 0 || nextByteFlag == 1
    ensures token == TokenBytes(Token(bestOffset, bestLength, if nextByteFlag == 1 then Some(nextByte) else None))
  {
    var o := bestOffset % 0x10000;
    token := [o % 0x100, o / 0x100];
    token := token + [bestLength % 0x100];
    token := token + [nextByteFlag];
    if nextByteFlag == 1 {
      token := token + [nextByte];
    }
    ModIsRemainder(bestOffset, 0x10000);
    ModIsRemainder(bestLength, 0x100);
    HighIsQuotient(o);
  }

  /** `compress_lz`: one token per round until the cursor reaches the end. */
  method CompressLz(input: seq<byte>) returns (out: seq<byte>)
    ensures out == Encode(input)
  {
    out := [];
    var pos := 0;
    assert input[0..] == input;
    while pos < |input|
      invariant pos <= |input|
      invariant out + Serialize(TokensFrom(Search(input, pos), input[pos..])) == Encode(input)
      decreases |input| - pos
    {
      var token, pos' := CompressRound(input, pos);
      assert out + (token + Serialize(TokensFrom(Search(input, pos'), input[pos'..])))
          == out + token + Serialize(TokensFrom(Search(input, pos'), input[pos'..]));
      out, pos := out + token, pos';
    }
  }

  /** `push_back(b)`, then `pop_front()` when the deque holds more than
      `WINDOW_SIZE` bytes. */
  method PushByte(history: seq<byte>, b: byte) returns (history': seq<byte>)
    ensures history' == PushEvict(history, b, WINDOW_SIZE)
  {
    history' := history + [b];
    if |history'| > WINDOW_SIZE {
      history' := history'[1..];
    }
  }

  /** One iteration of the copy loop: read the byte at `start + i % offset`,
      write it, push it into the history and evict the oldest byte beyond
      `WINDOW_SIZE`. */
  method CopyByte(ghost history: seq<byte>, ghost copied: seq<byte>, ghost output: seq<byte>,
                  written: seq<byte>, h: seq<byte>, start: nat, offset: nat, i: nat, length: nat)
    returns (written': seq<byte>, h': seq<byte>, ghost copied': seq<byte>)
    requires written == output + copied && h == Window(history + copied, WINDOW_SIZE)
    requires i < length && offset > 0 && start + i % offset < |h|
    ensures written' == output + copied' && h' == Window(history + copied', WINDOW_SIZE)
    ensures copied + CopyRun(h, start, offset, i, length) == copied' + CopyRun(h', start, offset, i + 1, length)
  {
    ModIsRemainder(i, offset);
    var byteToCopy := h[start + i % offset];
    written' := written + [byteToCopy];
    h' := PushByte(h, byteToCopy);
    copied' := copied + [byteToCopy];
    PushWindow(history + copied, byteToCopy, WINDOW_SIZE);
    assert history + copied + [byteToCopy] == history + copied';
    ghost var rest := CopyRun(h', start, offset, i + 1, length);
    assert CopyRun(h, start, offset, i, length) == [byteToCopy] + rest;
    assert copied + ([byteToCopy] + rest) == copied' + rest;
  }

  /** The copy loop of `decompress_lz` for a match `offset` bytes back and
      `length` bytes long. */
  method CopyMatch(output: seq<byte>, history: seq<byte>, offset: nat, length: nat)
    returns (output': seq<byte>, history': seq<byte>)
    requires |history| <= WINDOW_SIZE
    ensures var c := CopyRun(history, SaturatingSub(|history|, offset), offset, 0, length);
      output' == output + c && history' == Window(history + c, WINDOW_SIZE)
  {
    var startIndex := if |history| >= offset then |history| - offset else 0;
    ghost var whole := CopyRun(history, startIndex, offset, 0, length);
    ghost var copied: seq<byte> := [];
    output', history' := output, history;
    assert history + copied == history;
    var i := 0;
    while i < length
      invariant i <= length
      invariant output' == output + copied
      invariant history' == Window(history + copied, WINDOW_SIZE)
      invariant copied + CopyRun(history', startIndex, offset, i, length) == whole
      decreases length - i
    {
      if offset == 0 {
        break;
      }
      ModIsRemainder(i, offset);
      if startIndex + i % offset >= |history'| {
        break;
      }
      output', history', copied := CopyByte(history, copied, output, output', history', startIndex, offset, i, length);
      i := i + 1;
    }
    assert copied == whole;
  }

  /** Parsing at cursor `pos`: the token read there, then the tokens
      after it. */
  lemma ParseAt(input: seq<byte>, pos: nat, tok: Token)
    requires pos + 4 <= |input|
    requires tok == Token(input[pos] as int + 0x100 * input[pos + 1] as int, input[pos + 2],
      if input[pos + 3] == 1 && pos + 4 < |input| then Some(input[pos + 4]) else None)
    ensures pos + 4 + Flag(tok) <= |input|
    ensures Parse(input[pos..]) == [tok] + Parse(input[pos + 4 + Flag(tok)..])
  {
    var t := input[pos..];
    assert ReadHeader(t) == Header(tok, 4 + Flag(tok));
    assert t[4 + Flag(tok)..] == input[pos + 4 + Flag(tok)..];
  }

  lemma ReplayCons(tok: Token, ts: seq<Token>, history: seq<byte>)
    ensures Replay([tok] + ts, history)
         == Emit(tok, history) + Replay(ts, Window(history + Emit(tok, history), WINDOW_SIZE))
  {
    assert ([tok] + ts)[1..] == ts;
  }

  /** What one round writes for a token: the match copied, then the
      literal byte when there is one. */
  method EmitToken(output: seq<byte>, history: seq<byte>, tok: Token)
    returns (output': seq<byte>, history': seq<byte>)
    requires |history| <= WINDOW_SIZE
    ensures output' == output + Emit(tok, history)
    ensures history' == Window(history + Emit(tok, history), WINDOW_SIZE)
  {
    ghost var c := CopyRun(history, SaturatingSub(|history|, tok.offset), tok.offset, 0, tok.length);
    output', history' := CopyMatch(output, history, tok.offset, tok.length);
    if tok.next.Some? {
      output' := output' + [tok.next.value];
      PushWindow(history + c, tok.next.value, WINDOW_SIZE);
      history' := PushByte(history', tok.next.value);
      assert history + c + [tok.next.value] == history + Emit(tok, history);
    } else {
      assert Emit(tok, history) == c + [] == c;
    }
  }

  /** One round of `decompress_lz`: read the header and the literal byte,
      copy the match, then write and push the literal byte. */
  method DecodeRound(input: seq<byte>, pos: nat, output: seq<byte>, history: seq<byte>)
    returns (pos': nat, output': seq<byte>, history': seq<byte>)
    requires pos + 4 <= |input| && |history| <= WINDOW_SIZE
    ensures pos < pos' <= |input| && |history'| <= WINDOW_SIZE
    ensures output' + Replay(Parse(input[pos'..]), history') == output + Replay(Parse(input[pos..]), history)
  {
    var offset := input[pos] as nat + 0x100 * input[pos + 1] as nat;
    var length := input[pos + 2] as nat;
    var flag := input[pos + 3];
    pos' := pos + 4;
    var nextByte: Option<byte> := None;
    if flag == 1 {
      if pos' < |input| {
        nextByte := Some(input[pos']);
        pos' := pos' + 1;
      }
    }
    var tok := Token(offset, length, nextByte);
    assert pos' == pos + 4 + Flag(tok);
    ParseAt(input, pos, tok);
    ghost var ts := Parse(input[pos'..]);
    assert Parse(input[pos..]) == [tok] + ts;
    output', history' := EmitToken(output, history, tok);
    ReplayCons(tok, ts, history);
    ghost var e := Emit(tok, history);
    assert output + Replay(Parse(input[pos..]), history) == output + (e + Replay(ts, history'));
  }

  /** `decompress_lz`: rounds while at least 4 bytes are left. */
  method DecompressLz(input: seq<byte>) returns (output: seq<byte>)
    ensures output == Decode(input)
  {
    output := [];
    var pos := 0;
    var history: seq<byte> := [];
    assert input[0..] == input;
    while pos + 4 <= |input|
      invariant pos <= |input| && |history| <= WINDOW_SIZE
      invariant output + Replay(Parse(input[pos..]), history) == Decode(input)
      decreases |input| - pos
    {
      pos, output, history := DecodeRound(input, pos, output, history);
    }
  }
}
