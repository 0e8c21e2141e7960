/**
 Properties of the `HttpClient` state machine: stages only move forward,
 an error ends the client, the invariant every reachable client keeps, and
 the two body framings deliver the response body however the bytes are
 split into reads.
 */
module ClientProperties {

  import opened Wrappers
  import opened Search
  import opened Unsigned
  import opened HttpWire
  import opened HttpClient

  /** The completions of successive socket reads returning `chunks`. */
  function Reads(chunks: seq<seq<char>>): (es: seq<Event>)
    ensures |es| == |chunks|
  {
    if chunks == [] then [] else [Received(chunks[0])] + Reads(chunks[1..])
  }

  /** All the bytes of `chunks`, in order. */
  function Flatten(chunks: seq<seq<char>>): seq<char> {
    if chunks == [] then [] else chunks[0] + Flatten(chunks[1..])
  }

  /** The first read is delivered first, and its bytes come first. */
  lemma FirstRead(c: Client, chunks: seq<seq<char>>)
    requires chunks != []
    ensures Run(c, Reads(chunks)) == Run(Step(c, Received(chunks[0])), Reads(chunks[1..]))
    ensures Flatten(chunks) == chunks[0] + Flatten(chunks[1..])
  {
    assert Reads(chunks)[1..] == Reads(chunks[1..]);
  }

  /** Reads that complete a blank line missing from the buffer are not empty. */
  lemma SomeRead(buf: seq<char>, chunks: seq<seq<char>>, stream: seq<char>)
    requires buf + Flatten(chunks) == stream
    requires Contains(stream, Delimiter) && !Contains(buf, Delimiter)
    ensures chunks != []
  {
    assert buf + Flatten([]) == buf;
  }

  // ---------------------------------------------------------------------------
  // Stages and operations
  // ---------------------------------------------------------------------------

  /** A client that is done or stopped ignores every later completion. */
  lemma {:induction false} TerminalIsFinal(c: Client, events: seq<Event>)
    requires c.stage.Terminal()
    ensures Run(c, events) == c
    decreases |events|
  {
    if events != [] {
      TerminalIsFinal(Step(c, events[0]), events[1..]);
    }
  }

  /**
   Stages advance only forward: no step lowers the rank, and a step that
   keeps the rank keeps the stage, except that a fixed-length read counts
   its remaining bytes down.
   */
  lemma StepMovesForward(c: Client, e: Event)
    ensures Step(c, e).stage.Rank() >= c.stage.Rank()
    ensures var r := Step(c, e);
      r.stage.Rank() == c.stage.Rank() ==>
        r.stage == c.stage ||
        (c.stage.ReceivingBody? && r.stage.ReceivingBody? && r.stage.header == c.stage.header &&
         c.stage.read.Exactly? && r.stage.read.Exactly? &&
         r.stage.read.need == c.stage.read.need && r.stage.read.left < c.stage.read.left)
  {
  }

  /** A completion the outstanding operation cannot report changes nothing. */
  lemma UnansweredEventIgnored(c: Client, e: Event)
    requires Pending(c).None? || !Answers(Pending(c).value, e)
    ensures Step(c, e) == c
  {
  }

  /** The completion of a resolve, connect or write moves the client to a later stage. */
  lemma AnsweredOperationAdvances(c: Client, e: Event)
    requires Pending(c).Some? && Answers(Pending(c).value, e) && !e.Received?
    ensures Step(c, e).stage.Rank() > c.stage.Rank()
  {
  }

  /**
   An error at any stage stops the client with a failure naming that stage
   and the error code; nothing else is issued and later completions are ignored.
   */
  lemma ErrorStopsClient(c: Client, code: ErrorCode)
    requires !c.stage.Terminal()
    ensures var r := Step(c, Error(code));
      && r.stage.Stopped? && !r.stage.failure.UnknownBodyLength? && r.stage.failure.code == code
      && r.request == c.request && r.response == c.response
      && Pending(r).None?
      && (c.stage.Resolving? <==> r.stage.failure.ResolveFailed?)
      && (c.stage.Connecting? <==> r.stage.failure.ConnectFailed?)
      && (c.stage.Sending? <==> r.stage.failure.SendFailed?)
      && (c.stage.ReceivingHeader? <==> r.stage.failure.HeaderFailed?)
      && (c.stage.ReceivingBody? <==> r.stage.failure.BodyFailed?)
    ensures forall events :: Run(Step(c, Error(code)), events) == Step(c, Error(code))
  {
    forall events
      ensures Run(Step(c, Error(code)), events) == Step(c, Error(code))
    {
      TerminalIsFinal(Step(c, Error(code)), events);
    }
  }

  // ---------------------------------------------------------------------------
  // The invariant of reachable clients
  // ---------------------------------------------------------------------------

  /** What a body read in progress keeps: the header's framing and the byte accounting. */
  ghost predicate BodyValid(header: string, read: BodyRead, response: seq<char>) {
    match read
    case Exactly(declared, need, left) =>
      0 < left <= need <= |response| + left &&
      SelectFraming(header) == ContentLength(declared) && need == Sub(declared, |response| + left - need)
    case UntilDelimiter =>
      SelectFraming(header).Chunked? && !Contains(response, Delimiter)
  }

  /** What a finished body keeps: which bytes were consumed and why the read stopped. */
  ghost predicate DoneValid(header: string, read: BodyRead, body: string, response: seq<char>) {
    match read
    case Exactly(declared, need, left) =>
      left == 0 && need <= |body| &&
      SelectFraming(header) == ContentLength(declared) && need == Sub(declared, |body| - need) &&
      response == body[need..]
    case UntilDelimiter =>
      SelectFraming(header).Chunked? && |response| <= |body| &&
      IsHeader(body[..|body| - |response|]) && response == body[|body| - |response|..]
  }

  /** The invariant of every client reachable from `Start`. */
  ghost predicate Valid(c: Client) {
    match c.stage
    case Resolving => c.request == [] && c.response == []
    case Connecting(_) => c.request == [] && c.response == []
    case Sending => c.request == RequestBytes(c.target) && c.response == []
    case ReceivingHeader => c.request == RequestBytes(c.target) && !Contains(c.response, Delimiter)
    case ReceivingBody(header, read) =>
      c.request == RequestBytes(c.target) && IsHeader(header) && BodyValid(header, read, c.response)
    case Done(header, read, body) =>
      c.request == RequestBytes(c.target) && IsHeader(header) && DoneValid(header, read, body, c.response)
    case Stopped(failure) =>
      failure.UnknownBodyLength? ==>
        IsHeader(failure.header) && SelectFraming(failure.header).UnknownLength?
  }

  lemma StartValid(t: Target)
    ensures Valid(Start(t))
  {
  }

  lemma AwaitDelimiterValid(c: Client, header: string)
    requires c.request == RequestBytes(c.target) && IsHeader(header) && SelectFraming(header).Chunked?
    ensures Valid(AwaitDelimiter(c, header))
  {
    AwaitDelimiterWaits(c, header);
    if Contains(c.response, Delimiter) {
      AwaitDelimiterFinishes(c, header);
    }
  }

  lemma OnHeaderValid(c: Client, header: string, rest: seq<char>)
    requires c.request == RequestBytes(c.target) && IsHeader(header)
    ensures Valid(OnHeader(c, header, rest))
  {
    FramingPriority(header);
    var f := SelectFraming(header);
    if f.ContentLength? {
      if Sub(f.declared, |rest|) == 0 {
        assert Consume(rest, 0) == rest[0..];
      }
    } else if f.Chunked? {
      AwaitDelimiterValid(c.(response := rest), header);
    }
  }

  lemma AwaitHeaderValid(c: Client)
    requires c.request == RequestBytes(c.target)
    ensures Valid(AwaitHeader(c))
  {
    SplitHeaderSpec(c.response);
    match SplitHeader(c.response)
    case None =>
    case Some((header, rest)) => OnHeaderValid(c, header, rest);
  }

  /** A fixed-length read that still needs bytes after this receive keeps its accounting. */
  lemma ReadExactlyPartialValid(c: Client, header: string, declared: nat, need: nat, left: nat, bytes: seq<char>)
    requires c.request == RequestBytes(c.target) && IsHeader(header)
    requires BodyValid(header, Exactly(declared, need, left), c.response) && |bytes| < left
    ensures Valid(ReadExactlyStep(c, header, declared, need, left, bytes))
  {
    var response := c.response + bytes;
    var r := c.(response := response, stage := ReceivingBody(header, Exactly(declared, need, left - |bytes|)));
    assert bytes[..|bytes|] == bytes;
    assert ReadExactlyStep(c, header, declared, need, left, bytes) == r;
    PartialReadAccounting(header, declared, need, left, c.response, response);
    BodyReadValid(r);
  }

  /** A client reading its body is valid when its request was sent and its read keeps the framing. */
  lemma BodyReadValid(c: Client)
    requires c.stage.ReceivingBody? && c.request == RequestBytes(c.target)
    requires IsHeader(c.stage.header) && BodyValid(c.stage.header, c.stage.read, c.response)
    ensures Valid(c)
  {
  }

  /** Bytes moved from "still to come" to the buffer leave the accounting of a fixed-length read intact. */
  lemma PartialReadAccounting(header: string, declared: nat, need: nat, left: nat, response: seq<char>, response': seq<char>)
    requires BodyValid(header, Exactly(declared, need, left), response)
    requires |response| <= |response'| < |response| + left
    ensures BodyValid(header, Exactly(declared, need, left - (|response'| - |response|)), response')
  {
    assert |response'| + (left - (|response'| - |response|)) - need == |response| + left - need;
  }

  /** A fixed-length read that receives its last bytes finishes with a consistent body. */
  lemma ReadExactlyLastValid(c: Client, header: string, declared: nat, need: nat, left: nat, bytes: seq<char>)
    requires c.request == RequestBytes(c.target) && IsHeader(header)
    requires BodyValid(header, Exactly(declared, need, left), c.response) && |bytes| >= left
    ensures Valid(ReadExactlyStep(c, header, declared, need, left, bytes))
  {
    var body := c.response + bytes[..left];
    var r := c.(response := body[need..], stage := Done(header, Exactly(declared, need, 0), body));
    assert Consume(body, need) == body[need..];
    assert ReadExactlyStep(c, header, declared, need, left, bytes) == r;
    LastReadAccounting(header, declared, need, left, c.response, body);
    DoneReadValid(r);
  }

  /** Once the last bytes are buffered, the accounting of a fixed-length read describes the finished body. */
  lemma LastReadAccounting(header: string, declared: nat, need: nat, left: nat, response: seq<char>, body: seq<char>)
    requires BodyValid(header, Exactly(declared, need, left), response)
    requires |body| == |response| + left
    ensures DoneValid(header, Exactly(declared, need, 0), body, body[need..])
  {
    assert |body| - need == |response| + left - need;
  }

  /** A finished client is valid when its request was sent and its body keeps the framing. */
  lemma DoneReadValid(c: Client)
    requires c.stage.Done? && c.request == RequestBytes(c.target)
    requires IsHeader(c.stage.header) && DoneValid(c.stage.header, c.stage.read, c.stage.body, c.response)
    ensures Valid(c)
  {
  }

  lemma ReadExactlyStepValid(c: Client, bytes: seq<char>)
    requires Valid(c) && c.stage.ReceivingBody? && c.stage.read.Exactly?
    ensures
      var ReceivingBody(header, Exactly(declared, need, left)) := c.stage;
      Valid(ReadExactlyStep(c, header, declared, need, left, bytes))
  {
    var ReceivingBody(header, Exactly(declared, need, left)) := c.stage;
    if |bytes| < left {
      ReadExactlyPartialValid(c, header, declared, need, left, bytes);
    } else {
      ReadExactlyLastValid(c, header, declared, need, left, bytes);
    }
  }

  /** Every step keeps the invariant. */
  lemma StepPreservesValid(c: Client, e: Event)
    requires Valid(c)
    ensures Valid(Step(c, e))
  {
    match c.stage
    case Sending =>
      if e.Written? {
        AwaitHeaderValid(c);
      }
    case ReceivingHeader =>
      if e.Received? {
        AwaitHeaderValid(c.(response := c.response + e.bytes));
      }
    case ReceivingBody(header, read) =>
      if e.Received? {
        if read.Exactly? {
          ReadExactlyStepValid(c, e.bytes);
        } else {
          AwaitDelimiterValid(c.(response := c.response + e.bytes), header);
        }
      }
    case _ =>
  }

  /**
   The stages come in the fixed order resolve, connect, send, header, body:
   a step skips no stage, only a header or body read finishes, and each
   successful resolve, connect and write leads to the next stage.
   */
  lemma StepFollowsOrder(c: Client, e: Event)
    requires Valid(c)
    ensures var r := Step(c, e); r.stage.Rank() <= c.stage.Rank() + 1 || r.stage.Terminal()
    ensures Step(c, e).stage.Done? ==> c.stage.ReceivingHeader? || c.stage.ReceivingBody? || c.stage.Done?
    ensures c.stage.Resolving? && e.Resolved? ==> Step(c, e).stage == Connecting(e.first)
    ensures c.stage.Connecting? && e.Connected? ==> Step(c, e).stage == Sending
    ensures c.stage.Sending? && e.Written? ==> Step(c, e).stage == ReceivingHeader
  {
    if c.stage.Sending? {
      SplitHeaderSpec(c.response);
    }
  }

  /** Every client a run of completions can reach from `Start` keeps the invariant. */
  lemma {:induction false} RunPreservesValid(c: Client, events: seq<Event>)
    requires Valid(c)
    ensures Valid(Run(c, events))
    decreases |events|
  {
    if events != [] {
      StepPreservesValid(c, events[0]);
      RunPreservesValid(Step(c, events[0]), events[1..]);
    }
  }

  // ---------------------------------------------------------------------------
  // Header and framing
  // ---------------------------------------------------------------------------

  /**
   Receiving during the header read: without a blank line the bytes are only
   appended; with one, the header handler runs on the bytes up to the first
   blank line and the client leaves the header stage.
   */
  lemma HeaderRead(c: Client, bytes: seq<char>)
    requires c.stage.ReceivingHeader?
    ensures var buf := c.response + bytes;
      var r := Step(c, Received(bytes));
      && (!Contains(buf, Delimiter) ==> r == c.(response := buf))
      && (Contains(buf, Delimiter) ==>
            (r.stage.ReceivingBody? || r.stage.Terminal()) &&
            exists header, rest :: header + rest == buf && IsHeader(header) && r == OnHeader(c, header, rest))
  {
    var buf := c.response + bytes;
    SplitHeaderSpec(buf);
    if Contains(buf, Delimiter) {
      var (header, rest) := SplitHeader(buf).value;
      HeaderSplitRunsHandler(c, bytes, header, rest);
      assert header + rest == buf && IsHeader(header) && Step(c, Received(bytes)) == OnHeader(c, header, rest);
    } else {
      HeaderIncomplete(c, bytes);
    }
  }

  /**
   `Content-Length: ` (even alongside the chunked field) leads to a
   fixed-length read of the remaining size, or straight to the body when
   nothing is left to read.
   */
  lemma ContentLengthChosenFirst(c: Client, header: string, rest: seq<char>, p: nat, declared: nat)
    requires DeclaresLength(header, p, declared)
    ensures var r := OnHeader(c, header, rest);
      && (r.stage.ReceivingBody? || r.stage.Done?) && r.stage.read.Exactly?
      && r.stage.read.declared == declared
      && r.stage.read.need == Sub(declared, |rest|)
      && (r.stage.ReceivingBody? <==> r.stage.read.need > 0)
  {
    DeclaredLength(header, p, declared);
  }

  /** `Transfer-Encoding: chunked` without `Content-Length: ` leads to a read up to the next blank line. */
  lemma ChunkedChosenSecond(c: Client, header: string, rest: seq<char>)
    requires !Contains(header, ContentLengthField) && Contains(header, ChunkedField)
    ensures var r := OnHeader(c, header, rest);
      (r.stage.ReceivingBody? || r.stage.Done?) && r.stage.read.UntilDelimiter?
  {
    FramingPriority(header);
  }

  /** A header with neither field stops the client, and no further read is issued. */
  lemma UnknownFramingStops(c: Client, header: string, rest: seq<char>)
    requires !Contains(header, ContentLengthField) && !Contains(header, ChunkedField)
    ensures var r := OnHeader(c, header, rest);
      r.stage == Stopped(UnknownBodyLength(header)) && Pending(r).None? && r.response == rest
  {
    FramingPriority(header);
  }

  /**
   If the whole declared body arrived together with the header, the client
   finishes at once with that body and issues no further read (in
   particular for `Content-Length: 0` and nothing after the header).
   */
  lemma WholeBodyWithHeader(c: Client, header: string, rest: seq<char>, p: nat)
    requires DeclaresLength(header, p, |rest|)
    ensures OnHeader(c, header, rest).stage == Done(header, Exactly(|rest|, 0, 0), rest)
    ensures Pending(OnHeader(c, header, rest)).None?
  {
    DeclaredLength(header, p, |rest|);
    NothingLeftToRead(c, header, rest);
  }

  /**
   A header that the accumulated stream `header + body` starts with is what
   the header read delivers, as soon as the buffered prefix `buf` holds any
   blank line, even one split across reads.
   */
  lemma HeaderFoundInPrefix(buf: seq<char>, more: seq<char>, header: string, body: string)
    requires buf + more == header + body
    requires IsHeader(header) && Contains(buf, Delimiter)
    ensures |header| <= |buf|
    ensures SplitHeader(buf) == Some((header, buf[|header|..]))
  {
    var k := |header| - |Delimiter|;
    var s := header + body;
    FindSpec(buf, Delimiter);
    var i := Find(buf, Delimiter).value;
    OccursInPrefix(buf, more, Delimiter, i);
    OccursInPrefix(header, body, Delimiter, k);
    if i < k {
      OccursInPrefix(header, body, Delimiter, i);
    }
    assert k <= i;
    OccursInPrefix(buf, more, Delimiter, k);
    assert i == k;
    assert buf[..|header|] == s[..|header|] == header;
  }

  // ---------------------------------------------------------------------------
  // Body reads
  // ---------------------------------------------------------------------------

  /** A receive during a fixed-length read is the `transfer_exactly` step. */
  lemma ReceivedWhileReadingExactly(c: Client, bytes: seq<char>)
    requires c.stage.ReceivingBody? && c.stage.read.Exactly?
    ensures var ReceivingBody(header, Exactly(declared, need, left)) := c.stage;
      Step(c, Received(bytes)) == ReadExactlyStep(c, header, declared, need, left, bytes)
  {
  }

  /** Two partial reads of a fixed-length body amount to one read of their bytes together. */
  lemma ReadExactlyTwice(c: Client, header: string, declared: nat, need: nat, left: nat, x: seq<char>, y: seq<char>)
    requires |x| < left
    ensures ReadExactlyStep(ReadExactlyStep(c, header, declared, need, left, x), header, declared, need, left - |x|, y)
         == ReadExactlyStep(c, header, declared, need, left, x + y)
  {
    var t := if |y| < left - |x| then |y| else left - |x|;
    assert x[..|x|] == x;
    assert (x + y)[..|x| + t] == x + y[..t];
    assert c.response + (x + y)[..|x| + t] == (c.response + x) + y[..t];
  }

  /**
   `transfer_exactly` does not depend on how the bytes are split into reads:
   feeding the chunks one by one ends where one read of all of them ends.
   */
  lemma {:induction false} ExactReadIgnoresChunking(c: Client, chunks: seq<seq<char>>)
    requires c.stage.ReceivingBody? && c.stage.read.Exactly? && c.stage.read.left > 0
    ensures Run(c, Reads(chunks)) == Step(c, Received(Flatten(chunks)))
    decreases |chunks|
  {
    var ReceivingBody(header, Exactly(declared, need, left)) := c.stage;
    ReceivedWhileReadingExactly(c, Flatten(chunks));
    if chunks == [] {
      assert c.response + [] == c.response;
    } else {
      var x := chunks[0];
      var rest := chunks[1..];
      var F := Flatten(rest);
      ReceivedWhileReadingExactly(c, x);
      var c1 := Step(c, Received(x));
      assert Run(c, Reads(chunks)) == Run(c1, Reads(rest)) by {
        assert Reads(chunks)[1..] == Reads(rest);
      }
      assert Flatten(chunks) == x + F;
      if |x| >= left {
        TerminalIsFinal(c1, Reads(rest));
        assert (x + F)[..left] == x[..left];
      } else {
        ExactReadIgnoresChunking(c1, rest);
        ReceivedWhileReadingExactly(c1, F);
        ReadExactlyTwice(c, header, declared, need, left, x, F);
      }
    }
  }

  /**
   Fixed-length round trip at the end of the read: when no more body bytes
   arrived with the header than were declared, the body handed to the
   handler has exactly the declared length.
   */
  lemma FixedLengthBodyHasDeclaredLength(c: Client)
    requires Valid(c) && c.stage.Done? && c.stage.read.Exactly?
    requires |c.stage.body| - c.stage.read.need <= c.stage.read.declared
    ensures |c.stage.body| == c.stage.read.declared
  {
    SubAddsBack(c.stage.read.declared, |c.stage.body| - c.stage.read.need);
  }

  /**
   Chunked mode completes exactly when the accumulated buffer holds a blank
   line; until then the bytes are only appended.
   */
  lemma ChunkedCompletesAtDelimiter(c: Client, bytes: seq<char>)
    requires c.stage.ReceivingBody? && c.stage.read.UntilDelimiter?
    ensures var buf := c.response + bytes;
      var r := Step(c, Received(bytes));
      && (r.stage.Done? <==> Contains(buf, Delimiter))
      && (!r.stage.Done? ==> r == c.(response := buf))
  {
    ReceivedWhileReadingToDelimiter(c, bytes);
    AwaitDelimiterWaits(c.(response := c.response + bytes), c.stage.header);
  }

  /**
   A chunked read that completes hands the whole accumulated buffer to the
   body handler and consumes only the bytes up to its first blank line.
   */
  lemma ChunkedBodyIsBuffer(c: Client, bytes: seq<char>)
    requires c.stage.ReceivingBody? && c.stage.read.UntilDelimiter?
    requires Contains(c.response + bytes, Delimiter)
    ensures var buf := c.response + bytes;
      var r := Step(c, Received(bytes));
      r.stage == Done(c.stage.header, UntilDelimiter, buf) && |r.response| <= |buf| &&
      IsHeader(buf[..|buf| - |r.response|]) && r.response == buf[|buf| - |r.response|..]
  {
    ReceivedWhileReadingToDelimiter(c, bytes);
    AwaitDelimiterFinishes(c.(response := c.response + bytes), c.stage.header);
  }

  /** A receive during a read up to the blank line appends to the buffer and searches it again. */
  lemma ReceivedWhileReadingToDelimiter(c: Client, bytes: seq<char>)
    requires c.stage.ReceivingBody? && c.stage.read.UntilDelimiter?
    ensures Step(c, Received(bytes)) == AwaitDelimiter(c.(response := c.response + bytes), c.stage.header)
  {
  }

  /** The read up to the blank line completes exactly when the buffer holds one, and otherwise only waits. */
  lemma AwaitDelimiterWaits(c: Client, header: string)
    ensures var r := AwaitDelimiter(c, header);
      && (r.stage.Done? <==> Contains(c.response, Delimiter))
      && (!r.stage.Done? ==> r == c.(stage := ReceivingBody(header, UntilDelimiter)))
  {
    FindSpec(c.response, Delimiter);
  }

  /** A completed read up to the blank line hands over the whole buffer and consumes through its first blank line. */
  lemma AwaitDelimiterFinishes(c: Client, header: string)
    requires Contains(c.response, Delimiter)
    ensures var buf := c.response;
      var r := AwaitDelimiter(c, header);
      r.stage == Done(header, UntilDelimiter, buf) && |r.response| <= |buf| &&
      IsHeader(buf[..|buf| - |r.response|]) && r.response == buf[|buf| - |r.response|..]
  {
    var buf := c.response;
    FindSpec(buf, Delimiter);
    var i := Find(buf, Delimiter).value;
    var k := i + |Delimiter|;
    assert Consume(buf, k) == buf[k..];
    assert buf[..|buf| - |buf[k..]|] == buf[..k];
    FirstInPrefix(buf, i);
  }

  /** Chunked reads end, with a body that is a prefix of the stream and holds a blank line, once one has arrived. */
  lemma {:induction false} ChunkedReadCompletes(c: Client, chunks: seq<seq<char>>, stream: seq<char>)
    requires c.stage.ReceivingBody? && c.stage.read.UntilDelimiter?
    requires c.response + Flatten(chunks) == stream && Contains(stream, Delimiter)
    requires !Contains(c.response, Delimiter)
    ensures var r := Run(c, Reads(chunks));
      r.stage.Done? && r.stage.header == c.stage.header && r.stage.read.UntilDelimiter? &&
      r.stage.body <= stream && Contains(r.stage.body, Delimiter)
    decreases |chunks|
  {
    SomeRead(c.response, chunks, stream);
    FirstRead(c, chunks);
    var x := chunks[0];
    var rest := chunks[1..];
    var buf := c.response + x;
    assert stream == buf + Flatten(rest);
    var c1 := Step(c, Received(x));
    if Contains(buf, Delimiter) {
      ChunkedBodyIsBuffer(c, x);
      TerminalIsFinal(c1, Reads(rest));
      assert c1.stage.body == buf <= stream;
    } else {
      ChunkedCompletesAtDelimiter(c, x);
      ChunkedReadCompletes(c1, rest, stream);
    }
  }

  /** The header handler replaces the buffer with what follows the header. */
  lemma OnHeaderReplacesBuffer(c: Client, buf: seq<char>, header: string, rest: seq<char>)
    ensures OnHeader(c.(response := buf), header, rest) == OnHeader(c, header, rest)
  {
  }

  /** A receive during the header read appends to the buffer and searches it again. */
  lemma ReceivedWhileReadingHeader(c: Client, x: seq<char>)
    requires c.stage.ReceivingHeader?
    ensures Step(c, Received(x)) == AwaitHeader(c.(response := c.response + x))
  {
  }

  /** A header search whose buffer splits runs the header handler on the split. */
  lemma AwaitHeaderOnSplit(c: Client, header: string, rest: seq<char>)
    requires SplitHeader(c.response) == Some((header, rest))
    ensures AwaitHeader(c) == OnHeader(c, header, rest)
  {
  }

  /** A receive during the header read whose buffer splits runs the header handler on the split. */
  lemma HeaderSplitRunsHandler(c: Client, x: seq<char>, header: string, rest: seq<char>)
    requires c.stage.ReceivingHeader? && SplitHeader(c.response + x) == Some((header, rest))
    ensures Step(c, Received(x)) == OnHeader(c, header, rest)
  {
    var c' := c.(response := c.response + x);
    ReceivedWhileReadingHeader(c, x);
    AwaitHeaderOnSplit(c', header, rest);
    OnHeaderReplacesBuffer(c, c'.response, header, rest);
  }

  /** What follows a common prefix of two equal concatenations. */
  lemma AfterCommonPrefix(buf: seq<char>, more: seq<char>, header: seq<char>, body: seq<char>)
    requires buf + more == header + body && |header| <= |buf|
    ensures buf[|header|..] + more == body
  {
    assert buf[|header|..] + more == (buf + more)[|header|..];
    assert (header + body)[|header|..] == body;
  }

  /** A receive during the header read that completes the header runs the header handler on the stream's header. */
  lemma HeaderCompletes(c: Client, x: seq<char>, more: seq<char>, header: string, body: string)
    requires c.stage.ReceivingHeader?
    requires c.response + x + more == header + body
    requires IsHeader(header) && Contains(c.response + x, Delimiter)
    ensures |header| <= |c.response + x|
    ensures Step(c, Received(x)) == OnHeader(c, header, (c.response + x)[|header|..])
    ensures (c.response + x)[|header|..] + more == body
  {
    var buf := c.response + x;
    HeaderFoundInPrefix(buf, more, header, body);
    HeaderSplitRunsHandler(c, x, header, buf[|header|..]);
    AfterCommonPrefix(buf, more, header, body);
  }

  /** A receive during the header read that does not complete it only appends. */
  lemma HeaderIncomplete(c: Client, x: seq<char>)
    requires c.stage.ReceivingHeader? && !Contains(c.response + x, Delimiter)
    ensures Step(c, Received(x)) == c.(response := c.response + x)
  {
    SplitHeaderSpec(c.response + x);
  }

  /** The header `header + body` starts with holds a blank line, so the stream does too. */
  lemma StreamHasDelimiter(header: string, body: string)
    requires IsHeader(header)
    ensures Contains(header + body, Delimiter)
  {
    var k := |header| - |Delimiter|;
    OccursInPrefix(header, body, Delimiter, k);
  }

  /** Fixed-length framing with nothing left to read finishes with the buffered bytes as body. */
  lemma NothingLeftToRead(c: Client, header: string, rest: seq<char>)
    requires SelectFraming(header) == ContentLength(|rest|)
    ensures OnHeader(c, header, rest) == c.(response := rest, stage := Done(header, Exactly(|rest|, 0, 0), rest))
  {
    SubAddsBack(|rest|, |rest|);
    assert Consume(rest, 0) == rest;
  }

  /** Fixed-length framing with bytes still to read starts a `transfer_exactly` read of them. */
  lemma FixedLengthFraming(c: Client, header: string, rest: seq<char>, declared: nat)
    requires SelectFraming(header) == ContentLength(declared) && |rest| < declared
    ensures var need := declared - |rest|;
      OnHeader(c, header, rest) == c.(response := rest, stage := ReceivingBody(header, Exactly(declared, need, need)))
  {
    SubAddsBack(declared, |rest|);
  }

  /** A fixed-length read receiving exactly the bytes it still needs finishes with the whole buffer as body. */
  lemma ExactReadFinishes(c: Client, header: string, declared: nat, need: nat, bytes: seq<char>)
    requires c.stage == ReceivingBody(header, Exactly(declared, need, need)) && |bytes| == need > 0
    ensures Step(c, Received(bytes)).stage == Done(header, Exactly(declared, need, 0), c.response + bytes)
  {
    ReceivedWhileReadingExactly(c, bytes);
    assert bytes[..need] == bytes;
  }

  /** A fixed-length read whose reads bring exactly the bytes it needs finishes with them appended. */
  lemma ExactReadRun(c: Client, chunks: seq<seq<char>>, header: string, declared: nat, need: nat, body: seq<char>)
    requires c.stage == ReceivingBody(header, Exactly(declared, need, need))
    requires c.response + Flatten(chunks) == body && |Flatten(chunks)| == need > 0
    ensures Run(c, Reads(chunks)).stage == Done(header, Exactly(declared, need, 0), body)
  {
    ExactReadIgnoresChunking(c, chunks);
    ExactReadFinishes(c, header, declared, need, Flatten(chunks));
  }

  /** A header that arrived with its whole declared body finishes at once, whatever reads follow. */
  lemma WholeBodyRun(c: Client, chunks: seq<seq<char>>, header: string, rest: seq<char>)
    requires SelectFraming(header) == ContentLength(|rest|)
    ensures Run(OnHeader(c, header, rest), Reads(chunks)).stage == Done(header, Exactly(|rest|, 0, 0), rest)
  {
    NothingLeftToRead(c, header, rest);
    TerminalIsFinal(OnHeader(c, header, rest), Reads(chunks));
  }

  /** A header that arrived with part of its declared body finishes once the reads bring the rest. */
  lemma RemainingBodyRun(c: Client, chunks: seq<seq<char>>, header: string, rest: seq<char>, body: string)
    requires rest + Flatten(chunks) == body && |rest| < |body|
    requires SelectFraming(header) == ContentLength(|body|)
    ensures Run(OnHeader(c, header, rest), Reads(chunks)).stage == Done(header, Exactly(|body|, |body| - |rest|, 0), body)
  {
    FixedLengthFraming(c, header, rest, |body|);
    ExactReadRun(OnHeader(c, header, rest), chunks, header, |body|, |body| - |rest|, body);
  }

  /** Once the header is handled under `Content-Length: |body|`, the remaining reads complete the body. */
  lemma ContentLengthAfterHeader(c: Client, chunks: seq<seq<char>>, header: string, rest: seq<char>, body: string)
    requires rest + Flatten(chunks) == body
    requires SelectFraming(header) == ContentLength(|body|)
    ensures var r := Run(OnHeader(c, header, rest), Reads(chunks));
      r.stage.Done? && r.stage.header == header && r.stage.body == body &&
      r.stage.read.Exactly? && r.stage.read.declared == |body|
  {
    if |rest| == |body| {
      assert rest == body;
      WholeBodyRun(c, chunks, header, rest);
    } else {
      RemainingBodyRun(c, chunks, header, rest, body);
    }
  }

  /** The read that completes the header under `Content-Length: |body|` leads, through the remaining reads, to the body. */
  lemma ContentLengthHeaderArrives(c: Client, x: seq<char>, chunks: seq<seq<char>>, header: string, body: string)
    requires c.stage.ReceivingHeader? && Contains(c.response + x, Delimiter)
    requires c.response + x + Flatten(chunks) == header + body
    requires IsHeader(header)
    requires SelectFraming(header) == ContentLength(|body|)
    ensures var r := Run(Step(c, Received(x)), Reads(chunks));
      r.stage.Done? && r.stage.header == header && r.stage.body == body &&
      r.stage.read.Exactly? && r.stage.read.declared == |body|
  {
    HeaderCompletes(c, x, Flatten(chunks), header, body);
    ContentLengthAfterHeader(c, chunks, header, (c.response + x)[|header|..], body);
  }

  /** `ContentLengthResponse` with the framing decision already taken. */
  lemma {:induction false} ContentLengthStream(c: Client, chunks: seq<seq<char>>, header: string, body: string)
    requires c.stage.ReceivingHeader? && !Contains(c.response, Delimiter)
    requires c.response + Flatten(chunks) == header + body
    requires IsHeader(header)
    requires SelectFraming(header) == ContentLength(|body|)
    ensures var r := Run(c, Reads(chunks));
      r.stage.Done? && r.stage.header == header && r.stage.body == body &&
      r.stage.read.Exactly? && r.stage.read.declared == |body|
    decreases |chunks|
  {
    StreamHasDelimiter(header, body);
    SomeRead(c.response, chunks, header + body);
    FirstRead(c, chunks);
    var x := chunks[0];
    var rest := chunks[1..];
    var F := Flatten(rest);
    assert c.response + x + F == header + body;
    if Contains(c.response + x, Delimiter) {
      ContentLengthHeaderArrives(c, x, rest, header, body);
    } else {
      HeaderIncomplete(c, x);
      var c1 := c.(response := c.response + x);
      assert c1.response + F == header + body;
      ContentLengthStream(c1, rest, header, body);
    }
  }

  /**
   Fixed-length round trip: whatever reads the response `header + body`
   arrives in, a client waiting for its header ends with exactly `body`
   when the first `Content-Length: ` of the header declares `|body|` bytes.
   */
  lemma ContentLengthResponse(c: Client, chunks: seq<seq<char>>, header: string, body: string, p: nat)
    requires c.stage.ReceivingHeader? && !Contains(c.response, Delimiter)
    requires c.response + Flatten(chunks) == header + body
    requires IsHeader(header)
    requires DeclaresLength(header, p, |body|)
    ensures var r := Run(c, Reads(chunks));
      r.stage.Done? && r.stage.header == header && r.stage.body == body &&
      r.stage.read.Exactly? && r.stage.read.declared == |body|
  {
    DeclaredLength(header, p, |body|);
    ContentLengthStream(c, chunks, header, body);
  }

  /** Once the header is handled under chunked framing, the remaining reads end at a blank line of the body. */
  lemma ChunkedAfterHeader(c: Client, chunks: seq<seq<char>>, header: string, rest: seq<char>, body: string)
    requires rest + Flatten(chunks) == body && Contains(body, Delimiter)
    requires !Contains(header, ContentLengthField) && Contains(header, ChunkedField)
    ensures var r := Run(OnHeader(c, header, rest), Reads(chunks));
      r.stage.Done? && r.stage.header == header && r.stage.read.UntilDelimiter? &&
      r.stage.body <= body && Contains(r.stage.body, Delimiter)
  {
    var c1 := OnHeader(c, header, rest);
    FramingPriority(header);
    assert c1 == AwaitDelimiter(c.(response := rest), header);
    FindSpec(rest, Delimiter);
    if Find(rest, Delimiter).Some? {
      TerminalIsFinal(c1, Reads(chunks));
    } else {
      ChunkedReadCompletes(c1, chunks, body);
    }
  }

  /**
   Chunked round trip: whatever reads the response `header + body` arrives
   in, a client waiting for its header whose header announces a chunked body
   ends once a blank line of the body has arrived, with a prefix of `body`
   that holds it.
   */
  lemma {:induction false} ChunkedResponse(c: Client, chunks: seq<seq<char>>, header: string, body: string)
    requires c.stage.ReceivingHeader? && !Contains(c.response, Delimiter)
    requires c.response + Flatten(chunks) == header + body
    requires IsHeader(header) && Contains(body, Delimiter)
    requires !Contains(header, ContentLengthField) && Contains(header, ChunkedField)
    ensures var r := Run(c, Reads(chunks));
      r.stage.Done? && r.stage.header == header && r.stage.read.UntilDelimiter? &&
      r.stage.body <= body && Contains(r.stage.body, Delimiter)
    decreases |chunks|
  {
    StreamHasDelimiter(header, body);
    SomeRead(c.response, chunks, header + body);
    FirstRead(c, chunks);
    var x := chunks[0];
    var rest := chunks[1..];
    var F := Flatten(rest);
    assert c.response + x + F == header + body;
    if Contains(c.response + x, Delimiter) {
      HeaderCompletes(c, x, F, header, body);
      ChunkedAfterHeader(c, rest, header, (c.response + x)[|header|..], body);
    } else {
      HeaderIncomplete(c, x);
      var c1 := c.(response := c.response + x);
      assert c1.response + F == header + body;
      ChunkedResponse(c1, rest, header, body);
    }
  }
}
