/**
 One `HttpClient`: the continuation chain resolve -> connect -> send GET ->
 receive header -> receive body for a single (host, path) target. Every
 asynchronous completion is an `Event`; `Step` is what the completion
 handler does with it. The socket is a source of byte chunks (`Received`)
 appended to the response buffer (the `asio::streambuf`).
 */
module HttpClient {

  import opened Wrappers
  import opened Search
  import opened Unsigned
  import opened HttpWire

  /** An endpoint the resolver produced; only passed on to the connect. */
  datatype Endpoint = Endpoint(address: string, port: nat)

  /** A non-zero `boost::system::error_code` value. */
  type ErrorCode = c: nat | 0 < c witness 1

  /** The completion of one asynchronous operation. */
  datatype Event =
    | Resolved(first: Endpoint, others: seq<Endpoint>)  // a resolver success has at least one endpoint
    | Connected
    | Written
    | Received(bytes: seq<char>)                        // the bytes one `read_some` returned
    | Error(code: ErrorCode)

  /** Why a client stopped without a body. */
  datatype Failure =
    | ResolveFailed(code: ErrorCode)
    | ConnectFailed(code: ErrorCode)
    | SendFailed(code: ErrorCode)
    | HeaderFailed(code: ErrorCode)
    | BodyFailed(code: ErrorCode)
    | UnknownBodyLength(header: string)

  /** How the body is being read. */
  datatype BodyRead =
    | Exactly(declared: nat, need: nat, left: nat)  // `transfer_exactly(need)` after `Content-Length: declared`; `left` still to come
    | UntilDelimiter                                // chunked: `read_until` the next blank line

  datatype Stage =
    | Resolving
    | Connecting(dest: Endpoint)
    | Sending
    | ReceivingHeader
    | ReceivingBody(header: string, read: BodyRead)
    | Done(header: string, read: BodyRead, body: string)
    | Stopped(failure: Failure)
  {
    /** No operation is outstanding and none will be issued. */
    predicate Terminal() {
      Done? || Stopped?
    }

    /** Position in the fixed order of stages. */
    function Rank(): nat {
      match this
      case Resolving => 0
      case Connecting(_) => 1
      case Sending => 2
      case ReceivingHeader => 3
      case ReceivingBody(_, _) => 4
      case Done(_, _, _) => 5
      case Stopped(_) => 5
    }
  }

  /** The state of one client: its target, the request it wrote, the unconsumed response bytes. */
  datatype Client = Client(target: Target, request: string, response: seq<char>, stage: Stage)

  /** The asynchronous operation a client is waiting on. */
  datatype Operation =
    | Resolve(host: string, service: string)
    | Connect(dest: Endpoint)
    | Write(bytes: string)
    | ReadUntil(delimiter: string)
    | ReadExactly(count: nat)

  /** The one operation the client has outstanding, if any. */
  function Pending(c: Client): (op: Option<Operation>)
    ensures op.None? <==> c.stage.Terminal()
  {
    match c.stage
    case Resolving => Some(Resolve(c.target.host, "http"))
    case Connecting(dest) => Some(Connect(dest))
    case Sending => Some(Write(c.request))
    case ReceivingHeader => Some(ReadUntil(Delimiter))
    case ReceivingBody(_, Exactly(_, need, _)) => Some(ReadExactly(need))
    case ReceivingBody(_, UntilDelimiter) => Some(ReadUntil(Delimiter))
    case Done(_, _, _) => None
    case Stopped(_) => None
  }

  /** `e` is a completion `op` can report. */
  predicate Answers(op: Operation, e: Event) {
    e.Error? ||
    match op
    case Resolve(_, _) => e.Resolved?
    case Connect(_) => e.Connected?
    case Write(_) => e.Written?
    case ReadUntil(_) => e.Received?
    case ReadExactly(_) => e.Received?
  }

  /** A freshly constructed client on which `Start` has been called. */
  function Start(t: Target): (c: Client)
    ensures c.target == t && c.response == []
    ensures Pending(c) == Some(Resolve(t.host, "http"))
  {
    Client(t, [], [], Resolving)
  }

  /** `streambuf::consume(n)`: drops `n` bytes from the front, or all of them when fewer are buffered. */
  function Consume(buf: seq<char>, n: nat): (r: seq<char>)
    ensures n <= |buf| ==> buf == buf[..n] + r
    ensures n >= |buf| ==> r == []
  {
    if n >= |buf| then [] else buf[n..]
  }

  /** A header section: it ends with the blank line and contains no earlier one. */
  ghost predicate IsHeader(h: string) {
    |h| >= |Delimiter| && IsFirst(h, Delimiter, |h| - |Delimiter|)
  }

  /** The first occurrence in a buffer is also the first in the prefix that ends with it. */
  lemma FirstInPrefix(buf: seq<char>, i: nat)
    requires IsFirst(buf, Delimiter, i)
    ensures IsHeader(buf[..i + |Delimiter|])
  {
    var h := buf[..i + |Delimiter|];
    assert buf == h + buf[i + |Delimiter|..];
    OccursInPrefix(h, buf[i + |Delimiter|..], Delimiter, i);
    forall j: nat | j < i
      ensures !OccursAt(h, Delimiter, j)
    {
      OccursInPrefix(h, buf[i + |Delimiter|..], Delimiter, j);
    }
  }

  /**
   What `async_read_until(sock, response, "\r\n\r\n")` delivers once the
   delimiter is buffered: the bytes up to and including its first
   occurrence (the header) and the bytes after it, which stay buffered.
   */
  function SplitHeader(buf: seq<char>): Option<(string, seq<char>)> {
    match Find(buf, Delimiter)
    case None => None
    case Some(i) => Some((buf[..i + 4], buf[i + 4..]))
  }

  /**
   The split happens exactly when the buffer holds a blank line; the header
   ends at the FIRST blank line, and header and remainder together are the
   whole buffer, so no byte is lost or duplicated.
   */
  lemma SplitHeaderSpec(buf: seq<char>)
    ensures SplitHeader(buf).None? <==> !Contains(buf, Delimiter)
    ensures SplitHeader(buf).Some? ==>
      var (header, rest) := SplitHeader(buf).value;
      header + rest == buf && IsHeader(header)
  {
    FindSpec(buf, Delimiter);
    var r := Find(buf, Delimiter);
    if r.Some? {
      FirstInPrefix(buf, r.value);
      assert buf == buf[..r.value + 4] + buf[r.value + 4..];
    }
  }

  /** The body framing a header selects. */
  datatype Framing =
    | ContentLength(declared: nat)
    | Chunked
    | UnknownLength

  /**
   The framing decision of the header handler. `Content-Length: ` is looked
   for first and wins over `Transfer-Encoding: chunked`; both are
   case-sensitive substring searches.
   */
  function SelectFraming(header: string): (f: Framing)
    ensures f.ContentLength? ==> f.declared <= ULongMax
  {
    match Find(header, ContentLengthField)
    case Some(p) => ContentLength(StrToUL(header[p + |ContentLengthField|..]))
    case None => if Find(header, ChunkedField).Some? then Chunked else UnknownLength
  }

  /**
   Framing priority: fixed length exactly when `Content-Length: ` occurs,
   whether or not the chunked field occurs too; chunked only without it;
   unknown when neither occurs.
   */
  lemma FramingPriority(header: string)
    ensures SelectFraming(header).ContentLength? <==> Contains(header, ContentLengthField)
    ensures SelectFraming(header).Chunked? <==>
      !Contains(header, ContentLengthField) && Contains(header, ChunkedField)
    ensures SelectFraming(header).UnknownLength? <==>
      !Contains(header, ContentLengthField) && !Contains(header, ChunkedField)
  {
    FindSpec(header, ContentLengthField);
    FindSpec(header, ChunkedField);
  }

  /** The first `Content-Length: ` of `header` starts at `p`, and `strtoul` reads `n` right after it. */
  ghost predicate DeclaresLength(header: string, p: nat, n: nat) {
    IsFirst(header, ContentLengthField, p) && StrToUL(header[p + |ContentLengthField|..]) == n
  }

  /** The declared length is what `strtoul` reads right after the first `Content-Length: `. */
  lemma DeclaredLength(header: string, p: nat, declared: nat)
    requires DeclaresLength(header, p, declared)
    ensures SelectFraming(header) == ContentLength(declared)
  {
    FirstIsFound(header, ContentLengthField, p);
  }

  /**
   `handle_http_get_body`: the body is everything buffered, but only `size`
   bytes are consumed, so the body is what was consumed followed by what
   stays buffered.
   */
  function Finish(c: Client, header: string, read: BodyRead, size: nat): (r: Client)
    ensures r.target == c.target && r.stage.Done?
    ensures size <= |c.response| ==> r.stage.body == c.response[..size] + r.response
    ensures size >= |c.response| ==> r.response == []
  {
    c.(response := Consume(c.response, size), stage := Done(header, read, c.response))
  }

  /** `read_until` the blank line in chunked mode, completing at once if it is already buffered. */
  function AwaitDelimiter(c: Client, header: string): (r: Client)
    ensures r.target == c.target
    ensures r.stage.ReceivingBody? || r.stage.Done?
  {
    match Find(c.response, Delimiter)
    case Some(i) => Finish(c, header, UntilDelimiter, i + |Delimiter|)
    case None => c.(stage := ReceivingBody(header, UntilDelimiter))
  }

  /** The header handler, once `header` has been consumed and `rest` is still buffered. */
  function OnHeader(c: Client, header: string, rest: seq<char>): (r: Client)
    ensures r.target == c.target && r.request == c.request
    ensures r.stage.ReceivingBody? || r.stage.Terminal()
    ensures r.stage.Stopped? <==> SelectFraming(header).UnknownLength?
  {
    var c' := c.(response := rest);
    var f := SelectFraming(header);
    if f.ContentLength? then
      // `len - response_.size()` on `size_t`
      var need := Sub(f.declared, |rest|);
      if need == 0 then Finish(c', header, Exactly(f.declared, 0, 0), 0)
      else c'.(stage := ReceivingBody(header, Exactly(f.declared, need, need)))
    else if f.Chunked? then AwaitDelimiter(c', header)
    else c'.(stage := Stopped(UnknownBodyLength(header)))
  }

  /** `read_until` the blank line ending the header. */
  function AwaitHeader(c: Client): (r: Client)
    ensures r.target == c.target
    ensures r.stage.ReceivingHeader? || r.stage.ReceivingBody? || r.stage.Terminal()
    ensures r.stage.ReceivingHeader? <==> !Contains(c.response, Delimiter)
  {
    SplitHeaderSpec(c.response);
    match SplitHeader(c.response)
    case None => c.(stage := ReceivingHeader)
    case Some((header, rest)) => OnHeader(c, header, rest)
  }

  /** One chunk arriving during `transfer_exactly`: at most `left` bytes are read from the socket. */
  function ReadExactlyStep(c: Client, header: string, declared: nat, need: nat, left: nat, bytes: seq<char>): (r: Client)
    ensures r.target == c.target
    ensures r.stage.ReceivingBody? || r.stage.Done?
    ensures r.stage.Done? <==> left <= |bytes|
    ensures r.stage.ReceivingBody? ==> r.response == c.response + bytes && r.stage.read.Exactly? && r.stage.read.left == left - |bytes|
  {
    var take := if |bytes| < left then |bytes| else left;
    var c' := c.(response := c.response + bytes[..take]);
    if take == left then Finish(c', header, Exactly(declared, need, 0), need)
    else c'.(stage := ReceivingBody(header, Exactly(declared, need, left - take)))
  }

  /** The completion handler run for event `e`; an event the pending operation cannot report changes nothing. */
  function Step(c: Client, e: Event): (r: Client)
    ensures r.target == c.target
    ensures c.stage.Terminal() ==> r == c
  {
    match c.stage
    case Resolving =>
      (match e
       case Resolved(first, _) => c.(stage := Connecting(first))
       case Error(code) => c.(stage := Stopped(ResolveFailed(code)))
       case _ => c)
    case Connecting(_) =>
      (match e
       case Connected => c.(request := RequestBytes(c.target), stage := Sending)
       case Error(code) => c.(stage := Stopped(ConnectFailed(code)))
       case _ => c)
    case Sending =>
      (match e
       case Written => AwaitHeader(c)
       case Error(code) => c.(stage := Stopped(SendFailed(code)))
       case _ => c)
    case ReceivingHeader =>
      (match e
       case Received(bytes) => AwaitHeader(c.(response := c.response + bytes))
       case Error(code) => c.(stage := Stopped(HeaderFailed(code)))
       case _ => c)
    case ReceivingBody(header, read) =>
      (match e
       case Received(bytes) =>
         (match read
          case Exactly(declared, need, left) => ReadExactlyStep(c, header, declared, need, left, bytes)
          case UntilDelimiter => AwaitDelimiter(c.(response := c.response + bytes), header))
       case Error(code) => c.(stage := Stopped(BodyFailed(code)))
       case _ => c)
    case Done(_, _, _) => c
    case Stopped(_) => c
  }

  /** Feeds the events in order. */
  function Run(c: Client, events: seq<Event>): Client
    decreases |events|
  {
    if events == [] then c else Run(Step(c, events[0]), events[1..])
  }
}
