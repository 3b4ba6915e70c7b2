/**
 * The operator's listening thread: it reads a connection to its end (at most
 * 10 MiB), checks the frame, decodes the report, checks its header and passes
 * accepted reports to the window and the log.
 */
module Receiver {
  import opened Wrappers
  import opened Framing
  import opened EdgeReport

  /** Largest number of bytes accepted on one connection: 10 MiB. */
  const RecvCap: nat := 10 * 1024 * 1024

  /** The JSON decoding of a payload into a report, which the model leaves abstract. */
  type Decoder = seq<byte> -> Option<Report>

  /** What `recv` did after the listed chunks, when none of them was empty. */
  datatype StreamEnd =
    | TimedOut  // `socket.timeout`: treated as the end of the data
    | Broken    // any other exception: the connection is dropped

  /**
   * One connection: the results of successive `recv` calls. An empty chunk is
   * the peer closing the connection; chunks after it are never read.
   */
  datatype Connection = Connection(chunks: seq<seq<byte>>, end: StreamEnd)

  datatype ReceiveError = Oversized | StreamBroken

  datatype ParseError = BadFrame(reason: FrameError) | Undecodable | WrongHeader

  function Concat(cs: seq<seq<byte>>): seq<byte>
  {
    if cs == [] then [] else cs[0] + Concat(cs[1..])
  }

  /** The chunks read before the first empty one. */
  function UntilClose(cs: seq<seq<byte>>): (r: seq<seq<byte>>)
    ensures |r| <= |cs| && r == cs[..|r|]
    ensures forall i :: 0 <= i < |r| ==> cs[i] != []
    ensures |r| < |cs| ==> cs[|r|] == []
  {
    if cs == [] || cs[0] == [] then [] else [cs[0]] + UntilClose(cs[1..])
  }

  predicate ClosedByPeer(cs: seq<seq<byte>>)
  {
    |UntilClose(cs)| < |cs|
  }

  /** What the receive loop leaves in `raw_data`, or the exception that ends the connection. */
  function Received(c: Connection): (r: Result<seq<byte>, ReceiveError>)
    ensures r.Ok? ==> |r.value| <= RecvCap && r.value == Concat(UntilClose(c.chunks))
    ensures r == Err(Oversized) <==> |Concat(UntilClose(c.chunks))| > RecvCap
    ensures r == Err(StreamBroken) <==>
      |Concat(UntilClose(c.chunks))| <= RecvCap && !ClosedByPeer(c.chunks) && c.end == Broken
  {
    var data := Concat(UntilClose(c.chunks));
    if |data| > RecvCap then Err(Oversized)
    else if !ClosedByPeer(c.chunks) && c.end == Broken then Err(StreamBroken)
    else Ok(data)
  }

  lemma {:induction false} ConcatAppend(a: seq<seq<byte>>, b: seq<seq<byte>>)
    ensures Concat(a + b) == Concat(a) + Concat(b)
  {
    if a == [] {
      assert a + b == b;
    } else {
      assert (a + b)[1..] == a[1..] + b;
      ConcatAppend(a[1..], b);
    }
  }

  lemma {:induction false} UntilCloseSplit(cs: seq<seq<byte>>, i: nat)
    requires i <= |cs|
    requires forall k :: 0 <= k < i ==> cs[k] != []
    ensures UntilClose(cs) == cs[..i] + UntilClose(cs[i..])
  {
    if i > 0 {
      assert cs[1..][..i - 1] == cs[1..i];
      assert cs[1..][i - 1..] == cs[i..];
      UntilCloseSplit(cs[1..], i - 1);
      assert cs[..i] == [cs[0]] + cs[1..i];
    } else {
      assert cs[i..] == cs;
    }
  }

  /** The receive loop over successive `recv` results. */
  method ReceiveAll(c: Connection) returns (r: Result<seq<byte>, ReceiveError>)
    ensures r == Received(c)
  {
    var raw: seq<byte> := [];
    var i := 0;
    while i < |c.chunks|
      invariant 0 <= i <= |c.chunks|
      invariant forall k :: 0 <= k < i ==> c.chunks[k] != []
      invariant raw == Concat(c.chunks[..i])
      invariant |raw| <= RecvCap
    {
      var chunk := c.chunks[i];
      if chunk == [] {
        UntilCloseSplit(c.chunks, i);
        assert c.chunks[..i] + UntilClose(c.chunks[i..]) == c.chunks[..i];
        return Ok(raw);
      }
      ConcatAppend(c.chunks[..i], [chunk]);
      assert c.chunks[..i + 1] == c.chunks[..i] + [chunk];
      raw := raw + chunk;
      if |raw| > RecvCap {
        UntilCloseSplit(c.chunks, i + 1);
        ConcatAppend(c.chunks[..i + 1], UntilClose(c.chunks[i + 1..]));
        return Err(Oversized);
      }
      i := i + 1;
    }
    UntilCloseSplit(c.chunks, i);
    assert c.chunks[i..] == [];
    assert c.chunks[..i] == c.chunks;
    match c.end
    case Broken => r := Err(StreamBroken);
    case TimedOut => r := Ok(raw);
  }

  /** The checks on a complete buffer; only a report with the expected header is accepted. */
  function Parse(raw: seq<byte>, decode: Decoder): (r: Result<Report, ParseError>)
    ensures r.Ok? ==> r.value.header == ReportHeader
    ensures r.Ok? ==> SplitFrame(raw).Ok? && decode(SplitFrame(raw).value) == Some(r.value)
    ensures SplitFrame(raw).Err? ==> r == Err(BadFrame(SplitFrame(raw).error))
  {
    match SplitFrame(raw)
    case Err(e) => Err(BadFrame(e))
    case Ok(payload) =>
      match decode(payload)
      case None => Err(Undecodable)
      case Some(report) =>
        if report.header == ReportHeader then Ok(report) else Err(WrongHeader)
  }

  /** The report a connection delivers to the window, if any. */
  function Accepted(c: Connection, decode: Decoder): (r: Option<Report>)
    ensures r.Some? ==> Received(c).Ok? && Parse(Received(c).value, decode) == Ok(r.value)
    ensures Received(c).Err? ==> r == None
  {
    match Received(c)
    case Err(_) => None
    case Ok(raw) =>
      match Parse(raw, decode)
      case Err(_) => None
      case Ok(report) => Some(report)
  }

  function AsSeq(o: Option<Report>): seq<Report>
  {
    if o.Some? then [o.value] else []
  }

  /** The reports accepted from a series of connections, in arrival order. */
  function AcceptedAll(cs: seq<Connection>, decode: Decoder): (r: seq<Report>)
    ensures |r| <= |cs|
    ensures forall i :: 0 <= i < |r| ==> r[i].header == ReportHeader
  {
    if cs == [] then []
    else
      var last := cs[|cs| - 1];
      AcceptedAll(cs[..|cs| - 1], decode) + AsSeq(Accepted(last, decode))
  }

  /** One more connection adds exactly its accepted report, if any, after those of the earlier ones. */
  lemma AcceptedAllSnoc(start: seq<Report>, before: seq<Report>, after: seq<Report>,
                        cs: seq<Connection>, i: nat, decode: Decoder)
    requires i < |cs|
    requires before == start + AcceptedAll(cs[..i], decode)
    requires after == before + AsSeq(Accepted(cs[i], decode))
    ensures after == start + AcceptedAll(cs[..i + 1], decode)
  {
    assert cs[..i + 1][..i] == cs[..i];
  }

  /**
   * The listening thread. `received` holds the reports emitted to the window,
   * each also handed to `save_report`.
   */
  class ReportReceiver {
    var running: bool
    var received: seq<Report>

    ghost predicate Valid()
      reads this
    {
      forall i :: 0 <= i < |received| ==> received[i].header == ReportHeader
    }

    constructor ()
      ensures Valid() && running && received == []
    {
      running := true;
      received := [];
    }

    /** One accepted connection, with every exception caught inside. */
    method HandleConnection(c: Connection, decode: Decoder)
      requires Valid()
      modifies this
      ensures Valid()
      ensures running == old(running)
      ensures received == old(received) + AsSeq(Accepted(c, decode))
    {
      var raw := ReceiveAll(c);
      if raw.Ok? {
        var parsed := Parse(raw.value, decode);
        if parsed.Ok? {
          received := received + [parsed.value];
        }
      }
    }

    /** The accept loop, over the connections that arrive while it runs. */
    method Serve(conns: seq<Connection>, decode: Decoder)
      requires Valid()
      modifies this
      ensures Valid()
      ensures running == old(running)
      ensures old(running) ==> received == old(received) + AcceptedAll(conns, decode)
      ensures !old(running) ==> received == old(received)
    {
      ghost var start := received;
      var i := 0;
      while running && i < |conns|
        invariant 0 <= i <= |conns|
        invariant Valid()
        invariant running == old(running)
        invariant running ==> received == start + AcceptedAll(conns[..i], decode)
        invariant !running ==> received == start
      {
        ghost var before := received;
        HandleConnection(conns[i], decode);
        AcceptedAllSnoc(start, before, received, conns, i, decode);
        i := i + 1;
      }
      if running {
        assert conns[..i] == conns;
      }
    }

    /** `closeEvent`: the window asks the thread to stop. */
    method Stop()
      requires Valid()
      modifies this
      ensures Valid()
      ensures !running && received == old(received)
    {
      running := false;
    }
  }
}
