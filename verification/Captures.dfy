/** Bounded reading: the pipe captures of the adapters, and the body of an HTTP response. */
module Captures {
  import opened Wrappers

  type Bytes = seq<bv8>

  function Join(chunks: seq<Bytes>): Bytes {
    if chunks == [] then [] else Join(chunks[..|chunks| - 1]) + chunks[|chunks| - 1]
  }

  lemma {:induction false} JoinConcat(a: seq<Bytes>, b: seq<Bytes>)
    ensures Join(a + b) == Join(a) + Join(b)
  {
    if b == [] {
      assert a + b == a;
    } else {
      var n := |b| - 1;
      assert (a + b)[..|a| + n] == a + b[..n] && (a + b)[|a| + n] == b[n];
      JoinConcat(a, b[..n]);
      assert Join(a) + Join(b[..n]) + b[n] == Join(a) + (Join(b[..n]) + b[n]);
    }
  }

  lemma JoinAdd(chunks: seq<Bytes>, chunk: Bytes)
    ensures Join(chunks + [chunk]) == Join(chunks) + chunk
  {
    assert (chunks + [chunk])[..|chunks|] == chunks;
  }

  // ----- The byte-exact capture ---------------------------------------------------------------

  function Head(stream: Bytes, maximum: nat): Bytes {
    if |stream| <= maximum then stream else stream[..maximum]
  }

  /** The capture under its lock: at most `maximum` bytes, and whether there were more. */
  class BoundedCapture {
    const maximum: nat
    var data: Bytes
    var truncated: bool
    /** Everything that was ever added. */
    ghost var stream: Bytes

    /** Exactly the first `maximum` bytes of the stream are held, whatever the chunks were. */
    ghost predicate Valid()
      reads this
    {
      data == Head(stream, maximum) && (truncated <==> |stream| > maximum)
    }

    constructor (maximum: nat)
      ensures Valid() && this.maximum == maximum && stream == []
    {
      this.maximum := maximum;
      data, truncated, stream := [], false, [];
    }

    method Add(chunk: Bytes)
      requires Valid()
      modifies this
      ensures Valid() && stream == old(stream) + chunk
    {
      var remaining := maximum - |data|;
      if remaining > 0 {
        data := data + if remaining < |chunk| then chunk[..remaining] else chunk;
      }
      if |chunk| > remaining {
        truncated := true;
      }
      stream := stream + chunk;
    }
  }

  // ----- The whole-chunk capture --------------------------------------------------------------

  /** The longest prefix of the chunks that fits. */
  predicate LongestFit(kept: seq<Bytes>, chunks: seq<Bytes>, maximum: nat) {
    && kept <= chunks
    && |Join(kept)| <= maximum
    && (|kept| < |chunks| ==> |Join(chunks[..|kept| + 1])| > maximum)
  }

  class ChunkCapture {
    const maximum: nat
    var chunks: seq<Bytes>
    var size: nat
    var truncated: bool
    /** Every chunk that was ever added. */
    ghost var seen: seq<Bytes>

    /** Whole chunks are kept up to the first one that does not fit, and none after it. */
    ghost predicate Valid()
      reads this
    {
      && LongestFit(chunks, seen, maximum)
      && size == |Join(chunks)|
      && (truncated <==> |chunks| < |seen|)
    }

    constructor (maximum: nat)
      ensures Valid() && this.maximum == maximum && seen == []
    {
      this.maximum := maximum;
      chunks, size, truncated, seen := [], 0, false, [];
    }

    method Add(chunk: Bytes)
      requires Valid()
      modifies this
      ensures Valid() && seen == old(seen) + [chunk]
    {
      ghost var before := seen;
      seen := seen + [chunk];
      JoinAdd(chunks, chunk);
      if truncated {
        assert seen[..|chunks| + 1] == before[..|chunks| + 1];
        return;
      }
      assert chunks == before && seen[..|chunks| + 1] == chunks + [chunk];
      if size + |chunk| > maximum {
        truncated := true;
        return;
      }
      chunks := chunks + [chunk];
      size := size + |chunk|;
    }

    /** The bytes that text() decodes. */
    ghost function Held(): Bytes
      reads this
    {
      Join(chunks)
    }
  }

  lemma JoinPrefix(kept: seq<Bytes>, chunks: seq<Bytes>)
    requires kept <= chunks
    ensures Join(kept) <= Join(chunks)
  {
    assert chunks == kept + chunks[|kept|..];
    JoinConcat(kept, chunks[|kept|..]);
  }

  /** Whether the whole-chunk capture drops anything depends on the bytes alone, not on the chunks. */
  lemma FitsIffShort(kept: seq<Bytes>, chunks: seq<Bytes>, maximum: nat)
    requires LongestFit(kept, chunks, maximum)
    ensures |kept| < |chunks| <==> |Join(chunks)| > maximum
    ensures |kept| == |chunks| ==> Join(kept) == Join(chunks)
    ensures Join(kept) <= Head(Join(chunks), maximum)
  {
    JoinPrefix(kept, chunks);
    if |kept| < |chunks| {
      JoinPrefix(chunks[..|kept| + 1], chunks);
    } else {
      assert kept == chunks;
    }
  }

  /** There is exactly one such prefix. */
  lemma LongestFitUnique(a: seq<Bytes>, b: seq<Bytes>, chunks: seq<Bytes>, maximum: nat)
    requires LongestFit(a, chunks, maximum) && LongestFit(b, chunks, maximum)
    ensures a == b
  {
    if |a| < |b| {
      assert chunks[..|a| + 1] == b[..|a| + 1];
      JoinPrefix(chunks[..|a| + 1], b);
    } else if |b| < |a| {
      assert chunks[..|b| + 1] == a[..|b| + 1];
      JoinPrefix(chunks[..|b| + 1], a);
    }
  }

  /**
   * Fed the same stream, both captures raise the same flag; without it both hold the full stream, with it
   * the whole-chunk capture holds a prefix of what the other holds.
   */
  lemma CapturesAgree(exact: BoundedCapture, whole: ChunkCapture)
    requires exact.Valid() && whole.Valid() && exact.maximum == whole.maximum
    requires exact.stream == Join(whole.seen)
    ensures exact.truncated == whole.truncated
    ensures !exact.truncated ==> exact.data == whole.Held() == exact.stream
    ensures whole.Held() <= exact.data
  {
    FitsIffShort(whole.chunks, whole.seen, whole.maximum);
  }

  // ----- The reader of a pipe -----------------------------------------------------------------

  /** What a pipe yields: chunks up to the first empty one, or up to the read that fails. */
  function Delivered(arrivals: seq<Bytes>): seq<Bytes> {
    if arrivals == [] || arrivals[0] == [] then [] else [arrivals[0]] + Delivered(arrivals[1..])
  }

  /** _read_pipe; `arrivals` are the chunks up to the read that fails, if one does. */
  method ReadPipe(arrivals: seq<Bytes>, capture: BoundedCapture)
    requires capture.Valid()
    modifies capture
    ensures capture.Valid() && capture.stream == old(capture.stream) + Join(Delivered(arrivals))
  {
    assert capture.stream + Join([]) == capture.stream;
    hide Join, Delivered;
    var i := 0;
    ghost var done: seq<Bytes> := [];
    assert arrivals[0..] == arrivals;
    while i < |arrivals|
      invariant 0 <= i <= |arrivals|
      invariant Delivered(arrivals) == done + Delivered(arrivals[i..])
      invariant capture.Valid() && capture.stream == old(capture.stream) + Join(done)
    {
      if arrivals[i] == [] {
        DeliveredEnd(done, arrivals, i);
        return;
      }
      JoinAdd(done, arrivals[i]);
      DeliveredNext(done, arrivals, i);
      done := done + [arrivals[i]];
      capture.Add(arrivals[i]);
      i := i + 1;
    }
    DeliveredEnd(done, arrivals, i);
  }

  lemma DeliveredNext(done: seq<Bytes>, arrivals: seq<Bytes>, i: nat)
    requires i < |arrivals| && arrivals[i] != []
    ensures done + Delivered(arrivals[i..]) == done + [arrivals[i]] + Delivered(arrivals[i + 1..])
  {
    assert arrivals[i..][1..] == arrivals[i + 1..];
    hide Delivered;
  }

  lemma DeliveredEnd(done: seq<Bytes>, arrivals: seq<Bytes>, i: nat)
    requires i == |arrivals| || (i < |arrivals| && arrivals[i] == [])
    ensures done + Delivered(arrivals[i..]) == done
  {
  }

  // ----- The body of a response ---------------------------------------------------------------

  const MAX_RAW_RESPONSE_BYTES := 64 * 1024

  datatype BodyError = InvalidLength | TooLarge | TimedOut | HttpError

  /** What happens when the reader turns to the connection; a read brings at least one byte unless the body is over. */
  datatype Turn = DeadlinePassed | ReadTimedOut | ReadFailed | Brings(upTo: nat)

  function Smaller(a: int, b: int): int {
    if a <= b then a else b
  }

  function ReadSize(total: nat): nat
    requires total <= MAX_RAW_RESPONSE_BYTES
  {
    Smaller(8192, MAX_RAW_RESPONSE_BYTES + 1 - total)
  }

  /** The bytes one read returns: no more than asked for, and none only at the end of the body. */
  function Chunk(body: Bytes, total: nat, upTo: nat): (r: Bytes)
    requires total <= |body| && total <= MAX_RAW_RESPONSE_BYTES
    ensures |r| <= ReadSize(total) && total + |r| <= |body| && r == body[total..total + |r|]
    ensures r == [] <==> total == |body|
  {
    var n := Smaller(Smaller(if upTo == 0 then 1 else upTo, ReadSize(total)), |body| - total);
    body[total..total + n]
  }

  /** The declared length: absent, not a number, or a number. */
  datatype Length = Absent | NotANumber | Declared(n: int)

  function LengthError(length: Length): Option<BodyError> {
    match length
    case Absent => None
    case NotANumber => Some(InvalidLength)
    case Declared(n) =>
      if n < 0 then Some(InvalidLength) else if n > MAX_RAW_RESPONSE_BYTES then Some(TooLarge) else None
  }

  /**
   * _read_http_body: it reads turn after turn until one ends it, which is the last of the `taken` turns. A result is
   * the whole body; of a body over the bound one byte more than the bound is read.
   */
  method ReadHttpBody(length: Length, body: Bytes, turns: nat -> Turn)
    returns (r: Result<Bytes, BodyError>, total: nat, taken: nat)
    ensures LengthError(length).Some? ==> r == Err(LengthError(length).value) && total == taken == 0
    ensures LengthError(length).None? ==> taken > 0 && forall i: nat | i < taken - 1 :: turns(i).Brings?
    ensures total <= MAX_RAW_RESPONSE_BYTES + 1 && total <= |body|
    ensures LengthError(length).None? ==>
              match turns(taken - 1)
              case DeadlinePassed => r == Err(TimedOut)
              case ReadTimedOut => r == Err(TimedOut)
              case ReadFailed => r == Err(HttpError)
              case Brings(_) =>
                if |body| <= MAX_RAW_RESPONSE_BYTES then r == Ok(body) && total == |body|
                else r == Err(TooLarge) && total == MAX_RAW_RESPONSE_BYTES + 1
  {
    total, taken := 0, 0;
    match LengthError(length) {
      case Some(e) =>
        return Err(e), 0, 0;
      case None =>
    }
    var chunks: seq<Bytes> := [];
    while true
      invariant forall i: nat | i < taken :: turns(i).Brings?
      invariant total == |Join(chunks)|
      invariant total <= MAX_RAW_RESPONSE_BYTES && total <= |body| && Join(chunks) == body[..total]
      decreases MAX_RAW_RESPONSE_BYTES - total
    {
      var now := turns(taken);
      taken := taken + 1;
      match now {
        case DeadlinePassed =>
          return Err(TimedOut), total, taken;
        case ReadTimedOut =>
          return Err(TimedOut), total, taken;
        case ReadFailed =>
          return Err(HttpError), total, taken;
        case Brings(upTo) =>
          var chunk := Chunk(body, total, upTo);
          if chunk == [] {
            assert body[..total] == body;
            break;
          }
          JoinAdd(chunks, chunk);
          assert body[..total] + chunk == body[..total + |chunk|];
          chunks := chunks + [chunk];
          total := total + |chunk|;
          if total > MAX_RAW_RESPONSE_BYTES {
            return Err(TooLarge), total, taken;
          }
      }
    }
    r := Ok(Join(chunks));
  }
}
