/** Shared vocabulary of the codecs: bytes, decoder outcomes and the
    fixed-capacity FIFO window used as LZ77 search buffer and history. */
module Bytes {

  /** A `u8`. */
  type byte = b: int | 0 <= b < 0x100

  /** The `io::ErrorKind`s the decoders return on malformed input. A panic
      (an out-of-range index) is recorded as `IndexOutOfBounds`. */
  datatype ErrorKind = InvalidData | UnexpectedEof | IndexOutOfBounds

  /** How a decoder returned: `Ok(())` or `Err(kind)`. */
  datatype Status = Success | Failure(kind: ErrorKind)

  /** An `io::Result<T>` whose error is one of the kinds above. */
  datatype Result<T> = Ok(value: T) | Err(kind: ErrorKind)

  /** Everything a decoder produced, in order, and how it returned. */
  datatype Outcome = Outcome(output: seq<byte>, status: Status)

  /** `n` copies of `b`. */
  function Repeat(b: byte, n: nat): (r: seq<byte>)
    ensures |r| == n
    ensures forall i :: 0 <= i < n ==> r[i] == b
  {
    if n == 0 then [] else [b] + Repeat(b, n - 1)
  }

  lemma RepeatSnoc(b: byte, n: nat)
    ensures Repeat(b, n + 1) == Repeat(b, n) + [b]
  {
  }

  function Min(a: int, b: int): int { if a <= b then a else b }

  /** The content of a FIFO of capacity `cap` into which all of `s` has been
      pushed: the front is dropped while more than `cap` bytes remain. */
  function Window(s: seq<byte>, cap: nat): (w: seq<byte>)
    ensures |w| == Min(|s|, cap)
    decreases |s|
  {
    if |s| <= cap then s else Window(s[1..], cap)
  }

  /** A window is the last `min(cap, |s|)` bytes. */
  lemma {:induction false} WindowSuffix(s: seq<byte>, cap: nat)
    ensures Window(s, cap) == s[|s| - Min(|s|, cap)..]
    decreases |s|
  {
    if |s| > cap {
      WindowSuffix(s[1..], cap);
      assert s[1..][|s| - 1 - cap..] == s[|s| - cap..];
    }
  }

  /** `push_back(b)` followed by `pop_front()` when the length exceeds `cap`. */
  function PushEvict(w: seq<byte>, b: byte, cap: nat): seq<byte>
  {
    if |w| + 1 > cap then (w + [b])[1..] else w + [b]
  }

  /** Pushing one byte into a full-history window gives the window of the
      longer history. */
  lemma PushWindow(s: seq<byte>, b: byte, cap: nat)
    requires cap > 0
    ensures PushEvict(Window(s, cap), b, cap) == Window(s + [b], cap)
  {
    var w := Window(s, cap);
    WindowSuffix(s, cap);
    WindowSuffix(s + [b], cap);
    if |s| + 1 > cap {
      calc {
        PushEvict(w, b, cap);
        (w + [b])[1..];
        (s[|s| - |w|..] + [b])[1..];
        { assert s[|s| - |w|..] + [b] == (s + [b])[|s| - |w|..]; }
        (s + [b])[|s| + 1 - cap..];
        Window(s + [b], cap);
      }
    }
  }

  /** Windowing before appending forgets nothing the window of the whole
      history keeps. */
  lemma WindowAppend(s: seq<byte>, t: seq<byte>, cap: nat)
    ensures Window(Window(s, cap) + t, cap) == Window(s + t, cap)
  {
    var w := Window(s, cap);
    WindowSuffix(s, cap);
    if |s| > cap {
      var u := s + t;
      WindowSuffix(w + t, cap);
      WindowSuffix(u, cap);
      assert w + t == u[|s| - cap..];
      assert u[|s| - cap..][|t|..] == u[|u| - cap..];
    }
  }
}
