// The NPC frame: a 36-byte header followed by a body (npc/header.go, npc/request.go,
// npc/response.go).
module Frames {
  import opened Bytes
  import opened Values

  const HEADER_SIZE := 36
  const HEADER_MAGICNUM := 0xfb709394

  datatype Header = Header(
    id: nat, version: nat, logId: nat, provider: bytes, magicNum: nat, reserved: nat, bodyLen: nat)

  // What the Go field types allow.
  predicate HeaderOk(h: Header) {
    && W16.Unsigned(h.id) && W16.Unsigned(h.version) && W32.Unsigned(h.logId) && |h.provider| == 16
    && W32.Unsigned(h.magicNum) && W32.Unsigned(h.reserved) && W32.Unsigned(h.bodyLen)
  }

  function HeaderBytes(h: Header): bytes {
    LE(h.id, 2) + LE(h.version, 2) + LE(h.logId, 4) + h.provider
    + LE(h.magicNum, 4) + LE(h.reserved, 4) + LE(h.bodyLen, 4)
  }

  function ParseHeader(b: bytes): Header
    requires |b| == HEADER_SIZE
  {
    Header(FromLE(b[0..2]), FromLE(b[2..4]), FromLE(b[4..8]), b[8..24],
           FromLE(b[24..28]), FromLE(b[28..32]), FromLE(b[32..36]))
  }

  lemma HeaderPieces(b: bytes, b0: bytes, b1: bytes, b2: bytes, b3: bytes, b4: bytes, b5: bytes, b6: bytes)
    requires |b0| == 2 && |b1| == 2 && |b2| == 4 && |b3| == 16 && |b4| == 4 && |b5| == 4 && |b6| == 4
    requires b == b0 + b1 + b2 + b3 + b4 + b5 + b6
    ensures b[0..2] == b0 && b[2..4] == b1 && b[4..8] == b2 && b[8..24] == b3
    ensures b[24..28] == b4 && b[28..32] == b5 && b[32..36] == b6
  {
  }

  lemma HeaderRoundTrip(h: Header)
    requires HeaderOk(h)
    ensures |HeaderBytes(h)| == HEADER_SIZE
    ensures ParseHeader(HeaderBytes(h)) == h
  {
    hide LE, FromLE;
    Widths();
    HeaderPieces(HeaderBytes(h), LE(h.id, 2), LE(h.version, 2), LE(h.logId, 4), h.provider,
                 LE(h.magicNum, 4), LE(h.reserved, 4), LE(h.bodyLen, 4));
    FromLEofLE(h.id, 2);
    FromLEofLE(h.version, 2);
    FromLEofLE(h.logId, 4);
    FromLEofLE(h.magicNum, 4);
    FromLEofLE(h.reserved, 4);
    FromLEofLE(h.bodyLen, 4);
  }

  lemma HeaderParseInverse(b: bytes)
    requires |b| == HEADER_SIZE
    ensures HeaderOk(ParseHeader(b)) && HeaderBytes(ParseHeader(b)) == b
  {
    hide LE, FromLE;
    Widths();
    LEofFromLE(b[0..2]);
    LEofFromLE(b[2..4]);
    LEofFromLE(b[4..8]);
    LEofFromLE(b[24..28]);
    LEofFromLE(b[28..32]);
    LEofFromLE(b[32..36]);
    assert b == b[0..2] + b[2..4] + b[4..8] + b[8..24] + b[24..28] + b[28..32] + b[32..36];
  }

  // The header object, filled in and written out field by field.
  class HeaderFields {
    var id: nat
    var version: nat
    var logId: nat
    var provider: bytes
    var magicNum: nat
    var reserved: nat
    var bodyLen: nat

    constructor (h: Header)
      ensures Get() == h
    {
      id, version, logId, provider := h.id, h.version, h.logId, h.provider;
      magicNum, reserved, bodyLen := h.magicNum, h.reserved, h.bodyLen;
    }

    function Get(): Header
      reads this
    {
      Header(id, version, logId, provider, magicNum, reserved, bodyLen)
    }

    method Unmarshal(b: bytes) returns (ok: bool)
      modifies this
      ensures ok == (|b| >= HEADER_SIZE)
      ensures Get() == if ok then ParseHeader(b[..HEADER_SIZE]) else old(Get())
    {
      if |b| < HEADER_SIZE {
        return false;
      }
      id := FromLE(b[0..2]);
      version := FromLE(b[2..4]);
      logId := FromLE(b[4..8]);
      provider := b[8..24];
      magicNum := FromLE(b[24..28]);
      reserved := FromLE(b[28..32]);
      bodyLen := FromLE(b[32..36]);
      ok := true;
      var c := b[..HEADER_SIZE];
      assert b[0..2] == c[0..2] && b[2..4] == c[2..4] && b[4..8] == c[4..8] && b[8..24] == c[8..24];
      assert b[24..28] == c[24..28] && b[28..32] == c[28..32] && b[32..36] == c[32..36];
    }

    method Marshal(b: array<byte>) returns (ok: bool)
      requires |provider| == 16
      modifies b
      ensures ok == (b.Length >= HEADER_SIZE)
      ensures ok ==> b[..HEADER_SIZE] == HeaderBytes(Get()) && b[HEADER_SIZE..] == old(b[HEADER_SIZE..])
      ensures !ok ==> b[..] == old(b[..])
    {
      if b.Length < HEADER_SIZE {
        return false;
      }
      hide LE;
      PutAt(b, 0, LE(id, 2));
      PutAt(b, 2, LE(version, 2));
      PutAt(b, 4, LE(logId, 4));
      PutAt(b, 8, provider);
      PutAt(b, 24, LE(magicNum, 4));
      PutAt(b, 28, LE(reserved, 4));
      PutAt(b, 32, LE(bodyLen, 4));
      ok := true;
    }
  }

  // Appends to what has been stored at the front of the buffer.
  method PutAt(b: array<byte>, at: nat, x: bytes)
    requires at + |x| <= b.Length
    modifies b
    ensures b[..at + |x|] == old(b[..at]) + x
    ensures forall i | at + |x| <= i < b.Length :: b[i] == old(b[i])
  {
    forall i | 0 <= i < |x| {
      b[at + i] := x[i];
    }
  }

  // ---- Requests and responses -----------------------------------------------------------

  datatype Message = Message(header: Header, body: bytes)

  // What Request.Write puts on the connection for a fresh request: its header and its body.
  function FrameBytes(q: Message): bytes {
    HeaderBytes(q.header) + q.body
  }

  // NewRequest: the header announces the body, under the magic number.
  predicate WellFormed(q: Message) {
    HeaderOk(q.header) && q.header.magicNum == HEADER_MAGICNUM && q.header.bodyLen == |q.body|
  }

  // Reading a header and checking its magic number.
  function HeaderAt(data: bytes, off: nat): Option<Header> {
    if off + HEADER_SIZE > |data| then None
    else
      var h := ParseHeader(data[off..off + HEADER_SIZE]);
      if h.magicNum == HEADER_MAGICNUM then Some(h) else None
  }

  // ReadResponse: the whole body must be there.
  function ResponseAt(data: bytes, off: nat): (r: Option<(Message, nat)>)
    ensures r.Some? ==> off + HEADER_SIZE <= r.value.1 <= |data|
  {
    match HeaderAt(data, off)
    case None => None
    case Some(h) =>
      var end := off + HEADER_SIZE + h.bodyLen;
      if end > |data| then None else Some((Message(h, data[off + HEADER_SIZE..end]), end))
  }

  lemma FrameHeader(data: bytes, off: nat, q: Message)
    requires HeaderOk(q.header) && q.header.magicNum == HEADER_MAGICNUM && At(data, off, FrameBytes(q))
    ensures HeaderAt(data, off) == Some(q.header)
    ensures |FrameBytes(q)| == HEADER_SIZE + |q.body| && At(data, off + HEADER_SIZE, q.body)
  {
    hide At, HeaderBytes, ParseHeader;
    HeaderRoundTrip(q.header);
    AtConcat(data, off, HeaderBytes(q.header), q.body);
    AtSlice(data, off, HeaderBytes(q.header));
    AtSlice(data, off + HEADER_SIZE, q.body);
  }

  // A response frame is read back whole, whatever follows it.
  lemma ResponseRoundTrip(data: bytes, off: nat, q: Message)
    requires WellFormed(q) && At(data, off, FrameBytes(q))
    ensures ResponseAt(data, off) == Some((q, off + |FrameBytes(q)|))
  {
    hide At, HeaderBytes, HeaderAt;
    FrameHeader(data, off, q);
    AtSlice(data, off + HEADER_SIZE, q.body);
  }
}
