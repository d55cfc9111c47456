// The server's loop over one connection (npc/server.go).
module Server {
  import opened Bytes
  import opened Values
  import opened Frames

  // What a handler may do with its request and its writer while it serves.
  datatype Act =
    | ReadBody(n: nat)       // read up to n more bytes of the body
    | SetHeader(h: Header)   // change the response header
    | WriteBody(d: bytes)    // write the response

  // A handler's acts, given the number of the call on this connection, the request's header and
  // the body that arrives.
  type Handler = (nat, Header, bytes) -> seq<Act>

  // ---- What the loop computes -----------------------------------------------------------

  // Where the body of a request read at off ends: the announced length, or the end of the input.
  function BodyEnd(input: bytes, off: nat, h: Header): (end: nat)
    requires off + HEADER_SIZE <= |input|
    ensures off + HEADER_SIZE <= end <= |input|
  {
    var end := off + HEADER_SIZE + h.bodyLen;
    if end <= |input| then end else |input|
  }

  // The first write decides: its data as one frame, or nothing when it is empty.
  function ReplyBytes(acts: seq<Act>, h: Header): bytes {
    if acts == [] then []
    else
      match acts[0]
      case ReadBody(_) => ReplyBytes(acts[1..], h)
      case SetHeader(x) => ReplyBytes(acts[1..], x)
      case WriteBody(d) => if d == [] then [] else HeaderBytes(h.(bodyLen := W32.Wrap(|d|))) + d
  }

  // The response starts from the request's header without its body length.
  function Reply(handler: Handler, k: nat, q: Message): bytes {
    ReplyBytes(handler(k, q.header, q.body), q.header.(bodyLen := 0))
  }

  // Calls made and bytes written when the input from off on is served, starting with call k.
  function Served(handler: Handler, k: nat, input: bytes, off: nat): (seq<Message>, bytes)
    decreases |input| - off
  {
    match HeaderAt(input, off)
    case None => ([], [])
    case Some(h) =>
      var end := BodyEnd(input, off, h);
      var q := Message(h, input[off + HEADER_SIZE..end]);
      var rest := Served(handler, k + 1, input, end);
      ([q] + rest.0, Reply(handler, k, q) + rest.1)
  }

  function Output(handler: Handler, input: bytes): bytes {
    Served(handler, 0, input, 0).1
  }

  // ---- The loop ---------------------------------------------------------------------------

  class Conn {
    const input: bytes
    var pos: nat
    var bodyEnd: nat  // where the current request's limited reader stops
    var out: bytes

    constructor (input: bytes)
      ensures this.input == input && pos == 0 && out == [] && bodyEnd == 0
    {
      this.input := input;
      pos, bodyEnd, out := 0, 0, [];
    }

    // ReadRequest: the body is left unread, behind a limited reader.
    method ReadRequest() returns (r: Option<Header>)
      modifies this`pos, this`bodyEnd
      ensures r == HeaderAt(input, old(pos))
      ensures r.Some? ==> pos == old(pos) + HEADER_SIZE <= |input| && bodyEnd == BodyEnd(input, old(pos), r.value)
    {
      if pos + HEADER_SIZE > |input| {
        return None;
      }
      var fields := new HeaderFields(Header(0, 0, 0, [], 0, 0, 0));
      var b := input[pos..pos + HEADER_SIZE];
      var ok := fields.Unmarshal(b);
      assert b[..HEADER_SIZE] == b;
      if fields.magicNum != HEADER_MAGICNUM {
        return None;
      }
      r := Some(fields.Get());
      bodyEnd := BodyEnd(input, pos, r.value);
      pos := pos + HEADER_SIZE;
    }

    // Reading from the limited reader.
    method ReadBody(n: nat) returns (d: bytes)
      requires pos <= bodyEnd <= |input|
      modifies this`pos
      ensures pos == (if old(pos) + n <= bodyEnd then old(pos) + n else bodyEnd) && d == input[old(pos)..pos]
    {
      var end := if pos + n <= bodyEnd then pos + n else bodyEnd;
      d := input[pos..end];
      pos := end;
    }

    // Reads one request and lets the handler serve it; None when reading fails.
    method ServeRequest(handler: Handler, k: nat) returns (q: Option<Message>)
      modifies this
      ensures match HeaderAt(input, old(pos))
              case None => q.None? && out == old(out)
              case Some(h) =>
                var end := BodyEnd(input, old(pos), h);
                && pos == end
                && q == Some(Message(h, input[old(pos) + HEADER_SIZE..end]))
                && out == old(out) + Reply(handler, k, q.value)
                && forall m | Answers(handler(k, h, q.value.body), h, m) ::
                     out == old(out) + (HeaderBytes(m.header) + m.body)
    {
      hide HeaderAt, HeaderBytes, ReplyBytes, Answers;
      var h := ReadRequest();
      if h.None? {
        return None;
      }
      var m := Message(h.value, input[pos..bodyEnd]);
      q := Some(m);
      var w := new Response(this, h.value.(bodyLen := 0));
      w.Run(handler(k, m.header, m.body));
      pos := bodyEnd;  // finishRequest reads the rest of the body and drops it
      AnswersSent(handler, k, m);
    }

    method Serve(handler: Handler) returns (calls: seq<Message>)
      requires pos == 0 && out == []
      modifies this
      ensures calls == Served(handler, 0, input, 0).0 && out == Served(handler, 0, input, 0).1
    {
      hide HeaderAt, Reply, BodyEnd, Served;
      calls := [];
      var k := 0;
      var done := false;
      ghost var all, rest := Served(handler, 0, input, 0), Served(handler, 0, input, 0);
      while !done
        invariant rest == if done then ([], []) else Served(handler, k, input, pos)
        invariant all.0 == calls + rest.0 && all.1 == out + rest.1
        decreases !done, |input| - pos
      {
        ServedStep(handler, k, input, pos);
        ghost var out0 := out;
        var q := ServeRequest(handler, k);
        match q {
          case None =>
            done := true;
            rest := ([], []);
          case Some(m) =>
            rest := Served(handler, k + 1, input, pos);
            assert calls + ([m] + rest.0) == (calls + [m]) + rest.0;
            assert out0 + (Reply(handler, k, m) + rest.1) == (out0 + Reply(handler, k, m)) + rest.1;
            calls := calls + [m];
            k := k + 1;
        }
      }
    }
  }

  lemma ServedStep(handler: Handler, k: nat, input: bytes, off: nat)
    ensures Served(handler, k, input, off) ==
            match HeaderAt(input, off)
            case None => ([], [])
            case Some(h) =>
              var end := BodyEnd(input, off, h);
              var q := Message(h, input[off + HEADER_SIZE..end]);
              var rest := Served(handler, k + 1, input, end);
              ([q] + rest.0, Reply(handler, k, q) + rest.1)
  {
    hide HeaderAt, Reply, BodyEnd;
  }

  class Response {
    const conn: Conn
    var wroteResponse: bool
    var header: Header

    constructor (conn: Conn, header: Header)
      ensures this.conn == conn && !wroteResponse && this.header == header
    {
      this.conn := conn;
      wroteResponse := false;
      this.header := header;
    }

    // The first write sends the frame; later ones are refused.
    method Write(d: bytes) returns (ok: bool)
      modifies this, conn`out
      ensures ok == !old(wroteResponse) && wroteResponse
      ensures conn.out == old(conn.out) +
                          if old(wroteResponse) || d == [] then []
                          else HeaderBytes(old(header).(bodyLen := W32.Wrap(|d|))) + d
    {
      if wroteResponse {
        return false;
      }
      wroteResponse := true;
      if |d| > 0 {
        header := header.(bodyLen := W32.Wrap(|d|));
        conn.out := conn.out + HeaderBytes(header);
        conn.out := conn.out + d;
      }
      ok := true;
    }

    // The handler at work.
    method Run(acts: seq<Act>)
      requires conn.pos <= conn.bodyEnd <= |conn.input|
      modifies this, conn`pos, conn`out
      ensures conn.pos <= conn.bodyEnd
      ensures conn.out == old(conn.out) + if old(wroteResponse) then [] else ReplyBytes(acts, old(header))
    {
      for i := 0 to |acts|
        invariant conn.pos <= conn.bodyEnd
        invariant conn.out + (if wroteResponse then [] else ReplyBytes(acts[i..], header)) ==
                  old(conn.out) + if old(wroteResponse) then [] else ReplyBytes(acts, old(header))
      {
        hide HeaderBytes;
        assert acts[i..][1..] == acts[i + 1..];
        match acts[i] {
          case ReadBody(n) => var _ := conn.ReadBody(n);
          case SetHeader(h) => header := h;
          case WriteBody(d) => var _ := Write(d);
        }
      }
    }
  }

  // ---- The loop stays on frame boundaries -------------------------------------------------------

  function Sent(qs: seq<Message>): bytes {
    if qs == [] then [] else FrameBytes(qs[0]) + Sent(qs[1..])
  }

  function Replies(handler: Handler, k: nat, qs: seq<Message>): bytes
    decreases |qs|
  {
    if qs == [] then [] else Reply(handler, k, qs[0]) + Replies(handler, k + 1, qs[1..])
  }

  // Whatever the handler does, and however much of each body it reads: the first calls are exactly
  // the requests in front, the output starts with their replies in order, and what follows is
  // served from there on.
  lemma {:induction false} InStepThen(handler: Handler, k: nat, input: bytes, off: nat, qs: seq<Message>)
    requires forall i | 0 <= i < |qs| :: WellFormed(qs[i])
    requires At(input, off, Sent(qs))
    ensures var rest := Served(handler, k + |qs|, input, off + |Sent(qs)|);
            Served(handler, k, input, off) == (qs + rest.0, Replies(handler, k, qs) + rest.1)
    decreases |qs|
  {
    hide At, Served, Reply, FrameBytes, WellFormed;
    if qs == [] {
      var rest := Served(handler, k, input, off);
      assert [] + rest.0 == rest.0 && [] + rest.1 == rest.1;
    } else {
      var q, more := qs[0], qs[1..];
      AtConcat(input, off, FrameBytes(q), Sent(more));
      FirstServed(handler, k, input, off, q);
      InStepThen(handler, k + 1, input, off + |FrameBytes(q)|, more);
      var rest := Served(handler, k + |qs|, input, off + |Sent(qs)|);
      assert [q] + (more + rest.0) == qs + rest.0;
      ConcatAssociates(Reply(handler, k, q), Replies(handler, k + 1, more), rest.1);
    }
  }

  lemma FirstServed(handler: Handler, k: nat, input: bytes, off: nat, q: Message)
    requires WellFormed(q) && At(input, off, FrameBytes(q))
    ensures var rest := Served(handler, k + 1, input, off + |FrameBytes(q)|);
            Served(handler, k, input, off) == ([q] + rest.0, Reply(handler, k, q) + rest.1)
  {
    hide At, HeaderAt, Served, Reply;
    ServedStep(handler, k, input, off);
    FrameHeader(input, off, q);
    AtSlice(input, off + HEADER_SIZE, q.body);
  }

  // Less than a header's worth of bytes at the end changes nothing.
  lemma InStep(handler: Handler, k: nat, input: bytes, off: nat, qs: seq<Message>)
    requires forall i | 0 <= i < |qs| :: WellFormed(qs[i])
    requires At(input, off, Sent(qs)) && |input| < off + |Sent(qs)| + HEADER_SIZE
    ensures Served(handler, k, input, off) == (qs, Replies(handler, k, qs))
  {
    hide At, HeaderAt, Replies, Sent;
    InStepThen(handler, k, input, off, qs);
    TooShort(input, off + |Sent(qs)|);
    assert qs + [] == qs && Replies(handler, k, qs) + [] == Replies(handler, k, qs);
  }

  lemma TooShort(input: bytes, off: nat)
    requires |input| < off + HEADER_SIZE
    ensures HeaderAt(input, off).None?
  {
  }

  lemma OutputOfFrames(handler: Handler, qs: seq<Message>)
    requires forall i | 0 <= i < |qs| :: WellFormed(qs[i])
    ensures Served(handler, 0, Sent(qs), 0) == (qs, Replies(handler, 0, qs))
    ensures Output(handler, Sent(qs)) == Replies(handler, 0, qs)
  {
    hide Served, Replies;
    assert At(Sent(qs), 0, Sent(qs)) by { assert Sent(qs)[..|Sent(qs)|] == Sent(qs); }
    InStep(handler, 0, Sent(qs), 0, qs);
  }

  lemma {:induction false} SentConcat(a: seq<Message>, b: seq<Message>)
    ensures Sent(a + b) == Sent(a) + Sent(b)
  {
    hide FrameBytes;
    if a == [] {
      assert a + b == b;
      assert [] + Sent(b) == Sent(b);
    } else {
      SentConcat(a[1..], b);
      assert (a + b)[0] == a[0] && (a + b)[1..] == a[1..] + b;
      ConcatAssociates(FrameBytes(a[0]), Sent(a[1..]), Sent(b));
    }
  }

  lemma FramesAppend(qs: seq<Message>, q: Message)
    ensures Sent(qs + [q]) == Sent(qs) + FrameBytes(q)
  {
    hide FrameBytes;
    SentConcat(qs, [q]);
    assert [q][1..] == [] && Sent([q]) == FrameBytes(q) + [];
  }

  // More requests add their replies at the end and change nothing before them.
  lemma {:induction false} RepliesConcat(handler: Handler, k: nat, a: seq<Message>, b: seq<Message>)
    ensures Replies(handler, k, a + b) == Replies(handler, k, a) + Replies(handler, k + |a|, b)
    decreases |a|
  {
    hide Reply;
    if a == [] {
      assert a + b == b;
    } else {
      RepliesConcat(handler, k + 1, a[1..], b);
      assert (a + b)[1..] == a[1..] + b;
    }
  }

  lemma RepliesAppend(handler: Handler, k: nat, qs: seq<Message>, q: Message)
    ensures Replies(handler, k, qs + [q]) == Replies(handler, k, qs) + Reply(handler, k + |qs|, q)
  {
    hide Reply;
    RepliesConcat(handler, k, qs, [q]);
    assert [q][1..] == [] && Replies(handler, k + |qs|, [q]) == Reply(handler, k + |qs|, q) + [];
  }

  // ---- What clients read ---------------------------------------------------------------------------

  // The message a handler's acts send, if any.
  function ReplyMessage(acts: seq<Act>, h: Header): Option<Message> {
    if acts == [] then None
    else
      match acts[0]
      case ReadBody(_) => ReplyMessage(acts[1..], h)
      case SetHeader(x) => ReplyMessage(acts[1..], x)
      case WriteBody(d) => if d == [] then None else Some(Message(h.(bodyLen := W32.Wrap(|d|)), d))
  }

  lemma {:induction false} ReplyIsFrame(acts: seq<Act>, h: Header)
    ensures ReplyBytes(acts, h) ==
            match ReplyMessage(acts, h) case None => [] case Some(m) => FrameBytes(m)
  {
    if acts != [] {
      match acts[0]
      case ReadBody(_) => ReplyIsFrame(acts[1..], h);
      case SetHeader(x) => ReplyIsFrame(acts[1..], x);
      case WriteBody(_) =>
    }
  }

  // The message sent in reply to call k.
  function ReplyTo(handler: Handler, k: nat, q: Message): Option<Message> {
    ReplyMessage(handler(k, q.header, q.body), q.header.(bodyLen := 0))
  }

  // ---- What a reply is ----------------------------------------------------------------------------

  // The j-th act is the first write, of d.
  predicate FirstWrite(acts: seq<Act>, j: nat, d: bytes) {
    j < |acts| && acts[j] == WriteBody(d) && forall i | 0 <= i < j :: !acts[i].WriteBody?
  }

  // The response header after the acts, starting from h0: the last one set counts.
  function HeaderAfter(acts: seq<Act>, h0: Header): Header {
    if acts == [] then h0
    else
      match acts[|acts| - 1]
      case SetHeader(h) => h
      case _ => HeaderAfter(acts[..|acts| - 1], h0)
  }

  // The message answers a request with header h0: its body is the first that the handler wrote, and
  // not empty; its header is that of the request, or the one set last before, with the body's length.
  ghost predicate Answers(acts: seq<Act>, h0: Header, m: Message) {
    exists j: nat ::
      && FirstWrite(acts, j, m.body) && m.body != []
      && var h := HeaderAfter(acts[..j], h0);
         m.header == Header(h.id, h.version, h.logId, h.provider, h.magicNum, h.reserved, |m.body| % 0x1_0000_0000)
  }

  // Left alone, the header is that of the request.
  lemma {:induction false} HeaderLeft(acts: seq<Act>, h0: Header)
    requires forall i | 0 <= i < |acts| :: !acts[i].SetHeader?
    ensures HeaderAfter(acts, h0) == h0
  {
    if acts != [] {
      HeaderLeft(acts[..|acts| - 1], h0);
    }
  }

  lemma {:induction false} HeaderSet(acts: seq<Act>, h0: Header, i: nat, h: Header)
    requires i < |acts| && acts[i] == SetHeader(h) && forall n | i < n < |acts| :: !acts[n].SetHeader?
    ensures HeaderAfter(acts, h0) == h
    decreases |acts|
  {
    if i < |acts| - 1 {
      HeaderSet(acts[..|acts| - 1], h0, i, h);
    }
  }

  lemma {:induction false} HeaderFirst(act: Act, acts: seq<Act>, h0: Header)
    ensures HeaderAfter([act] + acts, h0) == HeaderAfter(acts, if act.SetHeader? then act.h else h0)
    decreases |acts|
  {
    if acts != [] {
      var front := acts[..|acts| - 1];
      assert ([act] + acts)[..|acts|] == [act] + front;
      HeaderFirst(act, front, h0);
    } else {
      assert ([act] + acts)[..0] == [];
    }
  }

  lemma {:induction false} ReplyMessageIs(acts: seq<Act>, h0: Header, j: nat, d: bytes)
    requires FirstWrite(acts, j, d)
    ensures var h := HeaderAfter(acts[..j], h0);
            ReplyMessage(acts, h0) == if d == [] then None else Some(Message(h.(bodyLen := |d| % 0x1_0000_0000), d))
    decreases j
  {
    if j > 0 {
      var act := acts[0];
      assert acts[..j] == [act] + acts[1..][..j - 1];
      HeaderFirst(act, acts[1..][..j - 1], h0);
      ReplyMessageIs(acts[1..], if act.SetHeader? then act.h else h0, j - 1, d);
    } else {
      assert acts[..0] == [];
    }
  }

  lemma {:induction false} NoWriteNoReply(acts: seq<Act>, h0: Header)
    requires forall i | 0 <= i < |acts| :: !acts[i].WriteBody?
    ensures ReplyMessage(acts, h0) == None
  {
    if acts != [] {
      NoWriteNoReply(acts[1..], if acts[0].SetHeader? then acts[0].h else h0);
    }
  }

  lemma OnlyBodyLen(acts: seq<Act>, h0: Header, n: nat, d: bytes)
    ensures HeaderAfter(acts, h0.(bodyLen := n)).(bodyLen := |d|) == HeaderAfter(acts, h0).(bodyLen := |d|)
  {
  }

  lemma {:induction false} FirstOne(acts: seq<Act>, n: nat) returns (j: nat)
    requires exists i | n <= i < |acts| :: acts[i].WriteBody?
    requires forall i | 0 <= i < n :: i < |acts| ==> !acts[i].WriteBody?
    ensures j < |acts| && acts[j].WriteBody? && FirstWrite(acts, j, acts[j].d)
    decreases |acts| - n
  {
    if acts[n].WriteBody? {
      j := n;
    } else {
      j := FirstOne(acts, n + 1);
    }
  }

  // Exactly the messages that answer a request are sent in reply to it.
  lemma ReplyToIs(handler: Handler, k: nat, q: Message, m: Message)
    ensures ReplyTo(handler, k, q) == Some(m) <==> Answers(handler(k, q.header, q.body), q.header, m)
  {
    hide ReplyMessage;
    var acts, h0 := handler(k, q.header, q.body), q.header;
    if exists i | 0 <= i < |acts| :: acts[i].WriteBody? {
      var j := FirstOne(acts, 0);
      var d := acts[j].d;
      ReplyMessageIs(acts, h0.(bodyLen := 0), j, d);
      OnlyBodyLen(acts[..j], h0, 0, d);
      assert FirstWrite(acts, j, d);
      forall i: nat, x | FirstWrite(acts, i, x) ensures i == j && x == d {
      }
    } else {
      NoWriteNoReply(acts, h0.(bodyLen := 0));
    }
  }

  lemma AnswersSent(handler: Handler, k: nat, q: Message)
    ensures forall m | Answers(handler(k, q.header, q.body), q.header, m) ::
              Reply(handler, k, q) == HeaderBytes(m.header) + m.body
  {
    hide Answers, ReplyTo, Reply, HeaderBytes;
    ReplyIsMessage(handler, k, q);
    forall m | Answers(handler(k, q.header, q.body), q.header, m)
      ensures Reply(handler, k, q) == HeaderBytes(m.header) + m.body
    {
      ReplyToIs(handler, k, q, m);
    }
  }

  // A connection that ends in the middle of a body: the handler is called with what there is of it.
  lemma CutOff(handler: Handler, k: nat, h: Header, body: bytes)
    requires HeaderOk(h) && h.magicNum == HEADER_MAGICNUM && |body| < h.bodyLen
    ensures Served(handler, k, HeaderBytes(h) + body, 0).0 == [Message(h, body)]
  {
    hide HeaderBytes, Reply, HeaderAt, Served;
    var input := FrameBytes(Message(h, body));
    AtStart(input);
    FrameHeader(input, 0, Message(h, body));
    ServedStep(handler, k, input, 0);
    ServedStep(handler, k + 1, input, |input|);
    TooShort(input, |input|);
    assert [Message(h, body)] + [] == [Message(h, body)];
    AtSlice(input, HEADER_SIZE, body);
  }

  // What the server's output grows by for one more request: the frame of the message that answers it,
  // or nothing if the handler writes nothing or writes nothing first.
  lemma OutputAnswers(handler: Handler, qs: seq<Message>, q: Message)
    requires (forall i | 0 <= i < |qs| :: WellFormed(qs[i])) && WellFormed(q)
    ensures var acts := handler(|qs|, q.header, q.body);
            var before, after := Served(handler, 0, Sent(qs), 0).1, Served(handler, 0, Sent(qs + [q]), 0).1;
            && (forall m | Answers(acts, q.header, m) :: after == before + (HeaderBytes(m.header) + m.body))
            && ((forall m :: !Answers(acts, q.header, m)) ==> after == before)
  {
    hide Served, Replies, Reply, ReplyTo, Answers, Sent, WellFormed, HeaderBytes;
    OutputOfFrames(handler, qs);
    OutputOfFrames(handler, qs + [q]);
    RepliesAppend(handler, 0, qs, q);
    AnswersSent(handler, |qs|, q);
    NoAnswer(handler, |qs|, q);
    var before := Replies(handler, 0, qs);
    assert before + [] == before;
  }

  lemma NoAnswer(handler: Handler, k: nat, q: Message)
    ensures (forall m :: !Answers(handler(k, q.header, q.body), q.header, m)) ==> Reply(handler, k, q) == []
  {
    hide Answers, ReplyTo, Reply, HeaderBytes;
    ReplyIsMessage(handler, k, q);
    if ReplyTo(handler, k, q).Some? {
      ReplyToIs(handler, k, q, ReplyTo(handler, k, q).value);
    }
  }

  // What Go's types make of a handler's headers, and bodies of less than 2^32 bytes.
  predicate ActsFit(acts: seq<Act>) {
    forall i | 0 <= i < |acts| ::
      match acts[i]
      case ReadBody(_) => true
      case SetHeader(h) => HeaderOk(h)
      case WriteBody(d) => W32.Unsigned(|d|)
  }

  // The response starts from the request's header, so a handler may leave it as it is.
  lemma {:induction false} ActsGiveFit(acts: seq<Act>, h: Header)
    requires ActsFit(acts) && HeaderOk(h) && ReplyMessage(acts, h).Some?
    ensures var m := ReplyMessage(acts, h).value; HeaderOk(m.header) && W32.Unsigned(|m.body|)
  {
    assert ActsFit(acts[1..]) by {
      assert forall i | 0 <= i < |acts[1..]| :: acts[1..][i] == acts[i + 1];
    }
    match acts[0]
    case ReadBody(_) => ActsGiveFit(acts[1..], h);
    case SetHeader(x) => ActsGiveFit(acts[1..], x);
    case WriteBody(d) => ModInRange(|d|, W32.Modulus());
  }

  // A client that finds a complete response at the start of what arrived of one reply has
  // found that reply, provided its body is shorter than 2^32 bytes and its header keeps to
  // the Go types.
  lemma ResponseIsReply(handler: Handler, k: nat, q: Message, data: bytes, off: nat)
    requires off <= |data| && data[off..] <= Reply(handler, k, q) && ResponseAt(data, off).Some?
    requires ReplyTo(handler, k, q).Some? ==>
               var m := ReplyTo(handler, k, q).value; HeaderOk(m.header) && W32.Unsigned(|m.body|)
    ensures var m := ReplyTo(handler, k, q);
            m.Some? && ResponseAt(data, off) == Some((m.value, |data|)) && data[off..] == Reply(handler, k, q)
  {
    hide ParseHeader, HeaderBytes;
    ReplyIsFrame(handler(k, q.header, q.body), q.header.(bodyLen := 0));
    var reply := Reply(handler, k, q);
    assert reply != [];
    var m := ReplyTo(handler, k, q).value;
    ReplyLengthWraps(handler(k, q.header, q.body), q.header.(bodyLen := 0));
    HeaderRoundTrip(m.header);
    var tail := data[off..];
    assert data[off..off + HEADER_SIZE] == tail[..HEADER_SIZE] == reply[..HEADER_SIZE] == HeaderBytes(m.header);
    assert |reply| == HEADER_SIZE + |m.body|;
    assert tail == reply;
    assert data[off + HEADER_SIZE..|data|] == tail[HEADER_SIZE..] == m.body;
  }

  // The body length is written in 32 bits: what the client reads of a reply ends where the reply
  // ends if and only if its body is shorter than 2^32 bytes.
  lemma ReplyConsumedIff(handler: Handler, k: nat, q: Message, data: bytes, off: nat)
    requires var m := ReplyTo(handler, k, q);
             m.Some? && HeaderOk(m.value.header) && m.value.header.magicNum == HEADER_MAGICNUM
    requires At(data, off, Reply(handler, k, q)) && |data| == off + |Reply(handler, k, q)|
    ensures ResponseAt(data, off).Some?
    ensures ResponseAt(data, off).value.1 == |data| <==> W32.Unsigned(|ReplyTo(handler, k, q).value.body|)
  {
    hide At, HeaderBytes, HeaderAt;
    var m := ReplyTo(handler, k, q).value;
    ReplyIsMessage(handler, k, q);
    FrameHeader(data, off, m);
    ReplyLengthWraps(handler(k, q.header, q.body), q.header.(bodyLen := 0));
  }

  lemma {:induction false} ReplyLengthWraps(acts: seq<Act>, h: Header)
    requires ReplyMessage(acts, h).Some?
    ensures var m := ReplyMessage(acts, h).value;
            && m.header.bodyLen == W32.Wrap(|m.body|) <= |m.body|
            && (m.header.bodyLen == |m.body| <==> W32.Unsigned(|m.body|))
  {
    match acts[0]
    case ReadBody(_) => ReplyLengthWraps(acts[1..], h);
    case SetHeader(x) => ReplyLengthWraps(acts[1..], x);
    case WriteBody(d) =>
      if W32.Unsigned(|d|) { ModInRange(|d|, W32.Modulus()); }
  }

  // Reading response after response until one is missing or incomplete.
  function ReadAll(data: bytes, off: nat): seq<Message>
    decreases |data| - off
  {
    match ResponseAt(data, off)
    case None => []
    case Some((m, end)) => [m] + ReadAll(data, end)
  }

  function Sends(handler: Handler, k: nat, qs: seq<Message>): seq<Message>
    decreases |qs|
  {
    if qs == [] then []
    else
      match ReplyTo(handler, k, qs[0])
      case None => Sends(handler, k + 1, qs[1..])
      case Some(m) => [m] + Sends(handler, k + 1, qs[1..])
  }

  // The magic number is left alone and the body is shorter than 2^32 bytes.
  predicate AllWellFormed(handler: Handler, k: nat, qs: seq<Message>)
    decreases |qs|
  {
    qs == [] ||
    (&& (ReplyTo(handler, k, qs[0]).Some? ==> WellFormed(ReplyTo(handler, k, qs[0]).value))
     && AllWellFormed(handler, k + 1, qs[1..]))
  }

  // Replies whose headers keep to the Go types.
  predicate AllHeadersOk(handler: Handler, k: nat, qs: seq<Message>)
    decreases |qs|
  {
    qs == [] ||
    (&& (ReplyTo(handler, k, qs[0]).Some? ==> HeaderOk(ReplyTo(handler, k, qs[0]).value.header))
     && AllHeadersOk(handler, k + 1, qs[1..]))
  }

  // Clients read exactly what the handlers sent, in order, if and only if handlers leave the magic
  // number alone and send less than 2^32 bytes.
  lemma {:induction false} ClientReads(handler: Handler, k: nat, qs: seq<Message>, data: bytes, off: nat)
    requires AllHeadersOk(handler, k, qs)
    requires At(data, off, Replies(handler, k, qs)) && |data| == off + |Replies(handler, k, qs)|
    ensures ReadAll(data, off) == Sends(handler, k, qs) <==> AllWellFormed(handler, k, qs)
    decreases |qs|
  {
    hide At, ReplyTo, ResponseAt, FrameBytes, WellFormed, Reply, HeaderOk;
    if qs == [] {
      NoResponse(data, off);
    } else {
      var m := ReplyTo(handler, k, qs[0]);
      ReplyIsMessage(handler, k, qs[0]);
      AtConcat(data, off, Reply(handler, k, qs[0]), Replies(handler, k + 1, qs[1..]));
      ClientReads(handler, k + 1, qs[1..], data, off + |Reply(handler, k, qs[0])|);
      if m.Some? {
        if WellFormed(m.value) {
          ResponseRoundTrip(data, off, m.value);
          FirstTwo(m.value, ReadAll(data, off + |FrameBytes(m.value)|), Sends(handler, k + 1, qs[1..]));
        } else {
          ReplyBodyLen(handler, k, qs[0]);
          OtherResponse(data, off, m.value);
        }
      }
    }
  }

  lemma FirstTwo(m: Message, a: seq<Message>, b: seq<Message>)
    ensures [m] + a == [m] + b <==> a == b
  {
    assert ([m] + a)[1..] == a && ([m] + b)[1..] == b;
  }

  lemma ReplyBodyLen(handler: Handler, k: nat, q: Message)
    requires ReplyTo(handler, k, q).Some?
    ensures var m := ReplyTo(handler, k, q).value;
            m.header.bodyLen <= |m.body| && (m.header.bodyLen == |m.body| <==> W32.Unsigned(|m.body|))
  {
    ReplyLengthWraps(handler(k, q.header, q.body), q.header.(bodyLen := 0));
  }

  // A frame under another magic number, or with a longer body than it announces, is not read back.
  lemma OtherResponse(data: bytes, off: nat, m: Message)
    requires At(data, off, FrameBytes(m)) && HeaderOk(m.header) && m.header.bodyLen <= |m.body| && !WellFormed(m)
    ensures ResponseAt(data, off).Some? ==> ResponseAt(data, off).value.0 != m
  {
    hide At, HeaderBytes, ParseHeader;
    HeaderRoundTrip(m.header);
    AtConcat(data, off, HeaderBytes(m.header), m.body);
    AtSlice(data, off, HeaderBytes(m.header));
  }

  lemma ReplyIsMessage(handler: Handler, k: nat, q: Message)
    ensures Reply(handler, k, q) == match ReplyTo(handler, k, q) case None => [] case Some(m) => FrameBytes(m)
  {
    ReplyIsFrame(handler(k, q.header, q.body), q.header.(bodyLen := 0));
  }

  lemma NoResponse(data: bytes, off: nat)
    requires |data| < off + HEADER_SIZE
    ensures ResponseAt(data, off).None?
  {
  }
}
