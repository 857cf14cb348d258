/**
The incremental HTTP/1.1 request reader (crates/hyperion-console/src/http_server.rs): two bounded loops
over a socket that delivers its bytes in arbitrary pieces.

A connection is the list of non-empty pieces the socket delivers and how it ends.  Decoding bytes to
text (`from_utf8_lossy`) is a parameter.
*/
module HttpReader {
  import opened Common
  import opened Bytes
  import opened Text
  import opened HttpHeader

  const MaxHeaderBytes: nat := 64 * 1024
  const MaxBodyBytes: nat := 8 * 1024 * 1024
  const ReadSize: nat := 4096

  /** How the socket answers once its pieces are used up: end of stream, or an error such as a timeout. */
  datatype Ending = EndOfStream | ReadError

  type Decoder = seq<Byte> -> string

  // ----- find_subslice -----

  predicate OccursAt(hay: seq<Byte>, needle: seq<Byte>, i: nat) {
    i + |needle| <= |hay| && hay[i..i + |needle|] == needle
  }

  function FindFrom(hay: seq<Byte>, needle: seq<Byte>, i: nat): (r: Option<nat>)
    ensures r.Some? ==>
      i <= r.value && OccursAt(hay, needle, r.value) && forall j | i <= j < r.value :: !OccursAt(hay, needle, j)
    ensures r.None? ==> forall j | i <= j :: !OccursAt(hay, needle, j)
    decreases |hay| - i
  {
    if i + |needle| > |hay| then None
    else if hay[i..i + |needle|] == needle then Some(i)
    else FindFrom(hay, needle, i + 1)
  }

  const BlankLine: seq<Byte> := [13, 10, 13, 10]

  /** The leftmost CRLF CRLF. */
  function HeaderEnd(buf: seq<Byte>): Option<nat> {
    FindFrom(buf, BlankLine, 0)
  }

  /** A prefix holds the terminator exactly when it reaches past the end of the leftmost one. */
  lemma HeaderEndOfPrefix(buf: seq<Byte>, more: seq<Byte>)
    ensures
      var e := HeaderEnd(buf + more);
      HeaderEnd(buf) == if e.Some? && e.value + 4 <= |buf| then e else None
  {
    hide FindFrom;
    var all := buf + more;
    forall i: nat | i + 4 <= |buf| ensures OccursAt(buf, BlankLine, i) == OccursAt(all, BlankLine, i) {
      assert buf[i..i + 4] == all[i..i + 4];
    }
  }

  // ----- The request a byte stream denotes -----

  /**
   * The request in a whole stream, with no notion of pieces: the header block ends at the leftmost blank
   * line, and the body is what follows, up to the declared length or the end of the stream.
   */
  function RequestOf(bytes: seq<Byte>, ending: Ending, decode: Decoder): Option<Request> {
    var e := HeaderEnd(bytes);
    HeaderEndFits(bytes);
    if e.None? then None
    else
      var headers := decode(bytes[..e.value]);
      var start, length := e.value + 4, DeclaredLength(headers);
      if length > MaxBodyBytes then None
      else if |bytes| < start + length && ending == ReadError then None
      else Some(MakeRequest(headers, decode(bytes[start..Min(|bytes|, start + length)])))
  }

  function Min(a: nat, b: nat): nat {
    if a <= b then a else b
  }

  function Concat(pieces: seq<seq<Byte>>): seq<Byte> {
    if pieces == [] then [] else pieces[0] + Concat(pieces[1..])
  }

  /** What a socket read can return: between one byte and the size of the read buffer. */
  predicate Deliverable(pieces: seq<seq<Byte>>) {
    forall i | 0 <= i < |pieces| :: 1 <= |pieces[i]| <= ReadSize
  }

  // ----- The two loops -----

  datatype HeaderResult = Refused(held: nat) | Found(end: nat, buf: seq<Byte>, rest: seq<seq<Byte>>)

  function ReadHeader(buf: seq<Byte>, pieces: seq<seq<Byte>>): (r: HeaderResult)
    ensures r.Found? ==> r.end + 4 <= |r.buf|
    decreases |pieces|
  {
    var e := HeaderEnd(buf);
    if e.Some? then Found(e.value, buf, pieces)
    else if |buf| > MaxHeaderBytes || pieces == [] then Refused(|buf|)
    else ReadHeader(buf + pieces[0], pieces[1..])
  }

  datatype BodyResult = Dropped(dropped: nat) | Body(whole: seq<Byte>)

  function ReadBody(buf: seq<Byte>, need: nat, pieces: seq<seq<Byte>>, ending: Ending): (r: BodyResult)
    ensures r.Body? ==> |buf| <= |r.whole|
    decreases |pieces|
  {
    if |buf| >= need then Body(buf)
    else if pieces == [] then (if ending == ReadError then Dropped(|buf|) else Body(buf))
    else ReadBody(buf + pieces[0], need, pieces[1..], ending)
  }

  /** From the blank line on: the declared length, the body loop, the request. */
  function Finish(end: nat, buf: seq<Byte>, rest: seq<seq<Byte>>, ending: Ending, decode: Decoder): Option<Request>
    requires end + 4 <= |buf|
  {
    var headers := decode(buf[..end]);
    var start, length := end + 4, DeclaredLength(headers);
    if length > MaxBodyBytes then None
    else
      match ReadBody(buf, start + length, rest, ending)
      case Dropped(_) => None
      case Body(whole) => Some(MakeRequest(headers, decode(whole[start..Min(|whole|, start + length)])))
  }

  /** `read_request` as a function of the pieces. */
  function ReadPieces(pieces: seq<seq<Byte>>, ending: Ending, decode: Decoder): Option<Request> {
    match ReadHeader([], pieces)
    case Refused(_) => None
    case Found(end, buf, rest) => Finish(end, buf, rest, ending, decode)
  }

  /** How many bytes the buffer, which only ever grows, holds when `read_request` returns. */
  function BytesHeld(pieces: seq<seq<Byte>>, ending: Ending, decode: Decoder): nat {
    match ReadHeader([], pieces)
    case Refused(held) => held
    case Found(end, buf, rest) => HeldAfter(end, buf, rest, ending, decode)
  }

  function HeldAfter(end: nat, buf: seq<Byte>, rest: seq<seq<Byte>>, ending: Ending, decode: Decoder): nat
    requires end + 4 <= |buf|
  {
    var length := DeclaredLength(decode(buf[..end]));
    if length > MaxBodyBytes then |buf|
    else
      match ReadBody(buf, end + 4 + length, rest, ending)
      case Dropped(dropped) => dropped
      case Body(whole) => |whole|
  }

  /** `read_request`, together with the number of bytes it holds when it returns. */
  method ReadRequest(pieces: seq<seq<Byte>>, ending: Ending, decode: Decoder) returns (r: Option<Request>, held: nat)
    requires Deliverable(pieces)
    ensures r == ReadPieces(pieces, ending, decode)
    ensures held == BytesHeld(pieces, ending, decode)
  {
    hide HeaderEnd, DeclaredLength, MakeRequest, Deliverable, ReadBody;
    var buf: seq<Byte> := [];
    var k := 0;
    var found := HeaderEnd(buf);
    assert pieces[0..] == pieces;
    while found.None?
      invariant k <= |pieces| && found == HeaderEnd(buf)
      invariant ReadHeader(buf, pieces[k..]) == ReadHeader([], pieces)
      decreases |pieces| - k
    {
      if |buf| > MaxHeaderBytes {
        return None, |buf|;
      }
      if k == |pieces| {
        return None, |buf|;
      }
      assert pieces[k..][1..] == pieces[k + 1..];
      buf := buf + pieces[k];
      k := k + 1;
      found := HeaderEnd(buf);
    }
    HeaderEndFits(buf);
    assert ReadHeader([], pieces) == Found(found.value, buf, pieces[k..]);
    r, held := ReadRest(found.value, buf, pieces[k..], ending, decode);
  }

  /** From the blank line on: the declared length, then the body loop. */
  method ReadRest(headerEnd: nat, start: seq<Byte>, pieces: seq<seq<Byte>>, ending: Ending, decode: Decoder)
    returns (r: Option<Request>, held: nat)
    requires headerEnd + 4 <= |start|
    ensures r == Finish(headerEnd, start, pieces, ending, decode)
    ensures held == HeldAfter(headerEnd, start, pieces, ending, decode)
  {
    hide DeclaredLength, MakeRequest;
    var buf, k := start, 0;
    var headers := decode(buf[..headerEnd]);
    var declared := DeclaredLength(headers);
    if declared > MaxBodyBytes {
      return None, |buf|;
    }
    var bodyStart := headerEnd + 4;
    assert pieces[0..] == pieces;
    while |buf| < bodyStart + declared
      invariant k <= |pieces| && bodyStart <= |buf|
      invariant ReadBody(buf, bodyStart + declared, pieces[k..], ending)
        == ReadBody(start, bodyStart + declared, pieces, ending)
      decreases |pieces| - k
    {
      if k == |pieces| {
        if ending == ReadError {
          return None, |buf|;
        }
        break;
      }
      assert pieces[k..][1..] == pieces[k + 1..];
      buf := buf + pieces[k];
      k := k + 1;
    }
    var body := decode(buf[bodyStart..Min(|buf|, bodyStart + declared)]);
    return Some(MakeRequest(headers, body)), |buf|;
  }

  lemma HeaderEndFits(buf: seq<Byte>)
    ensures HeaderEnd(buf).Some? ==> HeaderEnd(buf).value + 4 <= |buf|
  {}

  // ----- How much is held -----

  lemma {:induction false} HeaderHeld(buf: seq<Byte>, pieces: seq<seq<Byte>>)
    requires Deliverable(pieces) && |buf| <= MaxHeaderBytes + ReadSize
    ensures
      match ReadHeader(buf, pieces)
      case Refused(held) => held <= MaxHeaderBytes + ReadSize
      case Found(_, buf', rest) => |buf'| <= MaxHeaderBytes + ReadSize && Deliverable(rest)
    decreases |pieces|
  {
    hide HeaderEnd;
    if HeaderEnd(buf).None? && |buf| <= MaxHeaderBytes && pieces != [] {
      assert 1 <= |pieces[0]| <= ReadSize;
      HeaderHeld(buf + pieces[0], pieces[1..]);
    }
  }

  lemma {:induction false} BodyHeld(buf: seq<Byte>, need: nat, pieces: seq<seq<Byte>>, ending: Ending, limit: nat)
    requires Deliverable(pieces) && |buf| <= limit && need + ReadSize <= limit + 1
    ensures
      match ReadBody(buf, need, pieces, ending)
      case Dropped(dropped) => dropped <= limit
      case Body(whole) => |whole| <= limit
    decreases |pieces|
  {
    if |buf| < need && pieces != [] {
      assert 1 <= |pieces[0]| <= ReadSize;
      BodyHeld(buf + pieces[0], need, pieces[1..], ending, limit);
    }
  }

  const MaxHeld: nat := MaxHeaderBytes + ReadSize + MaxBodyBytes + ReadSize - 1

  /** For every stream, every split of it into reads and every declared length, the buffer stays bounded. */
  lemma HeldIsBounded(pieces: seq<seq<Byte>>, ending: Ending, decode: Decoder)
    requires Deliverable(pieces)
    ensures BytesHeld(pieces, ending, decode) <= MaxHeld
  {
    hide HeaderEnd, DeclaredLength, ReadHeader, ReadBody, Deliverable;
    HeaderHeld([], pieces);
    match ReadHeader([], pieces)
    case Refused(_) =>
    case Found(end, buf, rest) =>
      var length := DeclaredLength(decode(buf[..end]));
      if length <= MaxBodyBytes {
        BodyHeld(buf, end + 4 + length, rest, ending, MaxHeld);
      }
  }

  // ----- How the pieces matter -----

  /** Reading the header block: refused, or stopped at the leftmost blank line of the whole stream. */
  lemma {:induction false} HeaderOutcome(buf: seq<Byte>, pieces: seq<seq<Byte>>)
    ensures
      var e := HeaderEnd(buf + Concat(pieces));
      match ReadHeader(buf, pieces)
      case Refused(_) => true
      case Found(end, buf', rest) =>
        && e == Some(end) && end + 4 <= |buf'|
        && buf' + Concat(rest) == buf + Concat(pieces)
    decreases |pieces|
  {
    hide HeaderEnd;
    HeaderEndOfPrefix(buf, Concat(pieces));
    if HeaderEnd(buf).None? && |buf| <= MaxHeaderBytes && pieces != [] {
      assert (buf + pieces[0]) + Concat(pieces[1..]) == buf + Concat(pieces);
      HeaderOutcome(buf + pieces[0], pieces[1..]);
    }
  }

  /** A header block ending by byte 65537 is found whatever the pieces. */
  lemma {:induction false} SmallHeaderFound(buf: seq<Byte>, pieces: seq<seq<Byte>>)
    requires
      var e := HeaderEnd(buf + Concat(pieces));
      e.Some? && e.value + 4 <= MaxHeaderBytes + 1
    ensures ReadHeader(buf, pieces).Found?
    decreases |pieces|
  {
    hide HeaderEnd;
    var all := buf + Concat(pieces);
    HeaderEndOfPrefix(buf, Concat(pieces));
    HeaderEndFits(all);
    if HeaderEnd(buf).None? {
      assert (pieces == [] ==> all == buf);
      assert (buf + pieces[0]) + Concat(pieces[1..]) == all;
      SmallHeaderFound(buf + pieces[0], pieces[1..]);
    }
  }

  /** One ending past byte 69632 is refused whatever the pieces. */
  lemma {:induction false} LargeHeaderRefused(buf: seq<Byte>, pieces: seq<seq<Byte>>)
    requires Deliverable(pieces) && |buf| <= MaxHeaderBytes + ReadSize
    requires
      var e := HeaderEnd(buf + Concat(pieces));
      e.None? || e.value + 4 > MaxHeaderBytes + ReadSize
    ensures ReadHeader(buf, pieces).Refused?
    decreases |pieces|
  {
    hide HeaderEnd;
    HeaderEndOfPrefix(buf, Concat(pieces));
    if |buf| <= MaxHeaderBytes && pieces != [] {
      assert (buf + pieces[0]) + Concat(pieces[1..]) == buf + Concat(pieces);
      LargeHeaderRefused(buf + pieces[0], pieces[1..]);
    }
  }

  /** The body read does not depend on the pieces at all. */
  lemma {:induction false} BodyOutcome(buf: seq<Byte>, need: nat, pieces: seq<seq<Byte>>, ending: Ending)
    ensures
      var all := buf + Concat(pieces);
      match ReadBody(buf, need, pieces, ending)
      case Dropped(_) => |all| < need && ending == ReadError
      case Body(whole) =>
        && (|all| < need ==> ending == EndOfStream)
        && |whole| <= |all| && whole == all[..|whole|] && Min(|whole|, need) == Min(|all|, need)
    decreases |pieces|
  {
    var all := buf + Concat(pieces);
    if |buf| < need && pieces != [] {
      assert (buf + pieces[0]) + Concat(pieces[1..]) == all;
      BodyOutcome(buf + pieces[0], need, pieces[1..], ending);
    } else {
      assert pieces == [] ==> all == buf;
    }
  }

  lemma FinishMeansRequestOf(end: nat, buf: seq<Byte>, rest: seq<seq<Byte>>, ending: Ending, decode: Decoder)
    requires end + 4 <= |buf| && HeaderEnd(buf + Concat(rest)) == Some(end)
    ensures Finish(end, buf, rest, ending, decode) == RequestOf(buf + Concat(rest), ending, decode)
  {
    hide HeaderEnd, ReadBody, DeclaredLength, MakeRequest, Concat;
    var all := buf + Concat(rest);
    assert buf[..end] == all[..end];
    var need := end + 4 + DeclaredLength(decode(buf[..end]));
    BodyOutcome(buf, need, rest, ending);
    var r := ReadBody(buf, need, rest, ending);
    if r.Body? {
      PrefixSlice(r.whole, all, end + 4, Min(|r.whole|, need));
    }
  }

  /** A prefix has the same slices. */
  lemma PrefixSlice(part: seq<Byte>, all: seq<Byte>, i: nat, j: nat)
    requires |part| <= |all| && part == all[..|part|] && i <= j <= |part|
    ensures part[i..j] == all[i..j]
  {
    forall n | 0 <= n < j - i ensures part[i..j][n] == all[i..j][n] {
      assert part[i + n] == all[i + n];
    }
  }

  /** Once the header block is found, the request is the one the whole stream denotes. */
  lemma FoundMeansRequestOf(pieces: seq<seq<Byte>>, ending: Ending, decode: Decoder)
    ensures ReadPieces(pieces, ending, decode) ==
      if ReadHeader([], pieces).Refused? then None else RequestOf(Concat(pieces), ending, decode)
  {
    hide HeaderEnd, ReadHeader, Finish, RequestOf, Concat;
    HeaderOutcome([], pieces);
    assert [] + Concat(pieces) == Concat(pieces);
    match ReadHeader([], pieces)
    case Refused(_) =>
    case Found(end, buf, rest) => FinishMeansRequestOf(end, buf, rest, ending, decode);
  }

  /**
   * For every way the socket splits the stream: a header block that ends by byte 65537 gives the same
   * request, and one that ends past byte 69632 (or never) is refused.
   */
  lemma SplittingDoesNotMatter(pieces: seq<seq<Byte>>, ending: Ending, decode: Decoder)
    requires Deliverable(pieces)
    ensures
      var e := HeaderEnd(Concat(pieces));
      && (e.Some? && e.value + 4 <= MaxHeaderBytes + 1 ==>
            ReadPieces(pieces, ending, decode) == RequestOf(Concat(pieces), ending, decode))
      && (e.None? || e.value + 4 > MaxHeaderBytes + ReadSize ==> ReadPieces(pieces, ending, decode) == None)
  {
    hide HeaderEnd, ReadHeader, ReadPieces, RequestOf;
    assert [] + Concat(pieces) == Concat(pieces);
    FoundMeansRequestOf(pieces, ending, decode);
    var e := HeaderEnd(Concat(pieces));
    if e.Some? && e.value + 4 <= MaxHeaderBytes + 1 {
      SmallHeaderFound([], pieces);
    } else if e.None? || e.value + 4 > MaxHeaderBytes + ReadSize {
      LargeHeaderRefused([], pieces);
    }
  }

  /** What a request stream is made of: its header block, its body, and what follows. */
  datatype Stream = Stream(block: seq<Byte>, body: seq<Byte>, extra: seq<Byte>)

  function StreamBytes(x: Stream): seq<Byte> {
    x.block + [13, 10, 13, 10] + x.body + x.extra
  }

  /** The block holds no blank line of its own, not even one that runs into the blank line after it. */
  predicate EndsFirst(block: seq<Byte>) {
    forall i: nat | i < |block| :: !OccursAt(block + [13, 10, 13, 10], [13, 10, 13, 10], i)
  }

  lemma BlockEnds(x: Stream)
    requires EndsFirst(x.block)
    ensures HeaderEnd(StreamBytes(x)) == Some(|x.block|)
  {
    hide FindFrom;
    var start, rest := x.block + BlankLine, x.body + x.extra;
    assert StreamBytes(x) == start + rest;
    assert start[|x.block|..|x.block| + 4] == BlankLine;
    assert OccursAt(start, BlankLine, |x.block|);
    HeaderEndOfPrefix(start, rest);
  }

  /** The body is all there, or as much of it as came before the stream ended. */
  predicate BodyIs(x: Stream, length: nat, ending: Ending) {
    |x.body| == length || (|x.body| < length && x.extra == [] && ending == EndOfStream)
  }

  /**
   * What is sent is what is read, however the socket splits it: the first word of the request line as the verb,
   * the second up to a question mark as the path, and a body of the length the header lines declare.
   */
  lemma RequestReadBack(pieces: seq<seq<Byte>>, ending: Ending, decode: Decoder, x: Stream, w: Words, length: nat)
    requires Deliverable(pieces) && Concat(pieces) == StreamBytes(x)
    requires EndsFirst(x.block) && |x.block| + 4 <= 65_537
    requires
      var lines := Lines(decode(x.block));
      GivesLength(lines, length) && TakesApart(if lines == [] then [] else lines[0], w)
    ensures length <= 8_388_608 && BodyIs(x, length, ending) ==>
      ReadPieces(pieces, ending, decode) == Some(Request(w.verb, w.path, decode(x.block), decode(x.body)))
    ensures length > 8_388_608 ==> ReadPieces(pieces, ending, decode) == None
    ensures |x.body| < length && x.extra == [] && ending == ReadError ==> ReadPieces(pieces, ending, decode) == None
  {
    hide Lines, HeaderEnd, ReadPieces, MakeRequest, DeclaredLength, GivesLength, TakesApart, Concat, Deliverable;
    var bytes := StreamBytes(x);
    BlockEnds(x);
    SplittingDoesNotMatter(pieces, ending, decode);
    assert bytes[..|x.block|] == x.block;
    DeclaredLengthIff(decode(x.block), length);
    var start := |x.block| + 4;
    if BodyIs(x, length, ending) {
      assert bytes[start..Min(|bytes|, start + length)] == x.body;
      RequestLineIs(decode(x.block), decode(x.body), w);
    }
  }

  // ----- In between, the pieces decide -----

  /** The stream cut into pieces of `n` bytes, the last one possibly shorter. */
  function Cut(bytes: seq<Byte>, n: nat): seq<seq<Byte>>
    requires n >= 1
  {
    if bytes == [] then [] else if |bytes| <= n then [bytes] else [bytes[..n]] + Cut(bytes[n..], n)
  }

  lemma CutStep(bytes: seq<Byte>, n: nat)
    requires n >= 1 && bytes != []
    ensures
      var m := Min(|bytes|, n);
      Cut(bytes, n) != [] && Cut(bytes, n)[0] == bytes[..m] && Cut(bytes, n)[1..] == Cut(bytes[m..], n)
  {
    if |bytes| <= n {
      assert bytes[..|bytes|] == bytes && bytes[|bytes|..] == [];
    }
  }

  lemma {:induction false} CutRejoins(bytes: seq<Byte>, n: nat)
    requires n >= 1
    ensures Concat(Cut(bytes, n)) == bytes
    decreases |bytes|
  {
    hide Cut;
    if bytes == [] {
      CutOfNothing(n);
    } else {
      var m := Min(|bytes|, n);
      CutStep(bytes, n);
      CutRejoins(bytes[m..], n);
      assert bytes == bytes[..m] + bytes[m..];
    }
  }

  lemma CutOfNothing(n: nat)
    requires n >= 1
    ensures Cut([], n) == []
  {}

  lemma {:induction false} CutFits(bytes: seq<Byte>, n: nat)
    requires 1 <= n <= ReadSize
    ensures Deliverable(Cut(bytes, n))
    decreases |bytes|
  {
    hide Cut;
    if bytes == [] {
      CutOfNothing(n);
    } else {
      CutStep(bytes, n);
      CutFits(bytes[Min(|bytes|, n)..], n);
      var pieces := Cut(bytes, n);
      forall i | 0 <= i < |pieces| ensures 1 <= |pieces[i]| <= ReadSize {
        if i > 0 {
          assert pieces[i] == pieces[1..][i - 1];
        }
      }
    }
  }

  lemma CutIsDeliverable(bytes: seq<Byte>, n: nat)
    requires 1 <= n <= ReadSize
    ensures Concat(Cut(bytes, n)) == bytes && Deliverable(Cut(bytes, n))
  {
    CutRejoins(bytes, n);
    CutFits(bytes, n);
  }

  /** Byte by byte, the reader gives up one byte past the limit. */
  lemma {:induction false} SlowlyRefused(bytes: seq<Byte>, k: nat)
    requires k <= MaxHeaderBytes + 1 <= |bytes|
    requires HeaderEnd(bytes).Some? && HeaderEnd(bytes).value + 4 > MaxHeaderBytes + 1
    ensures ReadHeader(bytes[..k], Cut(bytes[k..], 1)).Refused?
    decreases MaxHeaderBytes + 1 - k
  {
    hide HeaderEnd;
    assert bytes[..k] + bytes[k..] == bytes;
    HeaderEndOfPrefix(bytes[..k], bytes[k..]);
    if k <= MaxHeaderBytes {
      var rest := bytes[k..];
      assert Cut(rest, 1)[0] == rest[..1] && Cut(rest, 1)[1..] == Cut(rest[1..], 1);
      assert bytes[..k] + rest[..1] == bytes[..k + 1] && rest[1..] == bytes[k + 1..];
      SlowlyRefused(bytes, k + 1);
    }
  }

  /** In full reads, it takes one more read at exactly the limit and finds the blank line. */
  lemma {:induction false} QuicklyFound(bytes: seq<Byte>, i: nat)
    requires i <= 16 && i * ReadSize <= |bytes|
    requires
      var e := HeaderEnd(bytes);
      e.Some? && MaxHeaderBytes < e.value + 4 <= MaxHeaderBytes + ReadSize
    ensures ReadHeader(bytes[..i * ReadSize], Cut(bytes[i * ReadSize..], ReadSize)).Found?
    decreases 16 - i
  {
    hide HeaderEnd;
    var k := i * ReadSize;
    var rest := bytes[k..];
    assert bytes[..k] + rest == bytes;
    HeaderEndOfPrefix(bytes[..k], rest);
    HeaderEndFits(bytes);
    if i < 16 {
      assert |rest| > ReadSize;
      assert Cut(rest, ReadSize)[0] == rest[..ReadSize] && Cut(rest, ReadSize)[1..] == Cut(rest[ReadSize..], ReadSize);
      assert bytes[..k] + rest[..ReadSize] == bytes[..k + ReadSize] && rest[ReadSize..] == bytes[k + ReadSize..];
      QuicklyFound(bytes, i + 1);
    } else {
      var taken := Cut(rest, ReadSize)[0];
      assert bytes[..k] + taken == bytes[..k + |taken|];
      assert bytes[..k + |taken|] + bytes[k + |taken|..] == bytes;
      HeaderEndOfPrefix(bytes[..k + |taken|], bytes[k + |taken|..]);
    }
  }

  /** All ways of splitting `bytes` give the same answer. */
  ghost predicate SplitIndependent(bytes: seq<Byte>, ending: Ending, decode: Decoder) {
    forall p, q | Deliverable(p) && Deliverable(q) && Concat(p) == bytes == Concat(q) ::
      ReadPieces(p, ending, decode) == ReadPieces(q, ending, decode)
  }

  /**
   * Exactly when the answer is a function of the bytes alone: the header block ends by byte 65537, or
   * past byte 69632, or never, or the stream denotes no request anyway.
   */
  lemma SplitIndependentIff(bytes: seq<Byte>, ending: Ending, decode: Decoder)
    ensures
      var e := HeaderEnd(bytes);
      SplitIndependent(bytes, ending, decode) <==>
        || e.None? || e.value + 4 <= MaxHeaderBytes + 1 || e.value + 4 > MaxHeaderBytes + ReadSize
        || RequestOf(bytes, ending, decode).None?
  {
    hide HeaderEnd, ReadHeader, ReadPieces, RequestOf, Cut;
    var e := HeaderEnd(bytes);
    if e.Some? && MaxHeaderBytes + 1 < e.value + 4 <= MaxHeaderBytes + ReadSize {
      var slow, quick := Cut(bytes, 1), Cut(bytes, ReadSize);
      CutIsDeliverable(bytes, 1);
      CutIsDeliverable(bytes, ReadSize);
      HeaderEndFits(bytes);
      assert bytes[..0] == [] && bytes[0..] == bytes;
      SlowlyRefused(bytes, 0);
      QuicklyFound(bytes, 0);
      forall p | Deliverable(p) && Concat(p) == bytes
        ensures ReadPieces(p, ending, decode) ==
          if ReadHeader([], p).Refused? then None else RequestOf(bytes, ending, decode)
      {
        FoundMeansRequestOf(p, ending, decode);
      }
      assert ReadPieces(slow, ending, decode) == None;
      assert ReadPieces(quick, ending, decode) == RequestOf(bytes, ending, decode);
    } else {
      forall p | Deliverable(p) && Concat(p) == bytes
        ensures ReadPieces(p, ending, decode) ==
          if e.Some? && e.value + 4 <= MaxHeaderBytes + 1 then RequestOf(bytes, ending, decode) else None
      {
        SplittingDoesNotMatter(p, ending, decode);
      }
    }
  }
}
