// What the mcpack decoder computes, as functions of the data and the cursor (mcpack/decode.go).
module Decode {
  import opened Bytes
  import opened Wire

  // Why a call failed: the errors the source returns, and its run-time panics.
  datatype Fault = EmptyKey | UnexpectedEnd | InvalidTarget | OutOfRange | WrongKind

  datatype Read<+T> = Got(value: T, off: nat) | Failed(fault: Fault)

  // What decoding without a target type yields: Go's interface{} values.
  datatype Any = Scalar(s: Scalar) | Map(m: map<bytes, Any>) | List(es: seq<Any>)

  function Left(data: bytes, off: nat): nat {
    if off < |data| then |data| - off else 0
  }

  // ---- Pieces of an item ------------------------------------------------------

  // Little-endian number of w bytes at off; reading past the end panics.
  function Number(data: bytes, off: nat, w: nat): Read<nat> {
    if off + w <= |data| then Got(FromLE(data[off..off + w]), off + w) else Failed(OutOfRange)
  }

  // The tag's content width when it is fixed; DATE and unknown tags give 0.
  function FixedWidth(tag: byte): nat {
    if tag == BOOL || tag == NULL then 1
    else if tag == INT32 || tag == UINT32 || tag == FLOAT then 4
    else if tag == INT64 || tag == UINT64 || tag == DOUBLE then 8
    else 0
  }

  // Past tag, key length, content length field and key.
  function PastKey(data: bytes, off: nat, lenWidth: nat): Read<()> {
    if off + 1 < |data| then Got((), off + 2 + lenWidth + data[off + 1]) else Failed(OutOfRange)
  }

  // The item's key; an item without one is an error.
  function KeyAt(data: bytes, off: nat): Read<bytes> {
    if off + 1 >= |data| then Failed(OutOfRange)
    else
      var start := off + KeyStart(data[off]);
      var klen := data[off + 1];
      if klen == 0 then Failed(EmptyKey)
      else if start + klen - 1 > |data| then Failed(OutOfRange)
      else Got(data[start..start + klen - 1], off)
  }

  function KeyStart(tag: byte): nat {
    if tag in {INT8, INT16, INT32, INT64, UINT8, UINT16, UINT32, UINT64, BOOL, FLOAT, DOUBLE, NULL} then 2
    else if tag in {SHORT_BINARY, SHORT_STRING} then 3
    else if tag in {BINARY, STRING, OBJECT, ARRAY} then 6
    else 0
  }

  // Past a container's header: its member count and where the members start.
  function Count(data: bytes, off: nat): (r: Read<nat>)
    ensures r.Got? ==> off + 10 <= r.off <= |data|
  {
    match PastKey(data, off, 4)
    case Failed(f) => Failed(f)
    case Got(_, p) => Number(data, p, 4)
  }

  // Skipping one item by its lengths (next).
  function Skip(data: bytes, off: nat): (r: Read<bytes>)
    ensures r.Got? ==> off + 2 <= r.off <= |data|
  {
    if off + 1 >= |data| then Failed(OutOfRange)
    else
      var w := LenWidth(data[off]);
      match Number(data, off + 2, w)
      case Failed(f) => Failed(f)
      case Got(n, p) =>
        var end := p + data[off + 1] + if w == 0 then FixedWidth(data[off]) else n;
        if end <= |data| then Got(data[off..end], end) else Failed(OutOfRange)
  }

  // ---- Items without members --------------------------------------------------

  predicate IsScalarTag(tag: byte) {
    FixedWidth(tag) > 0 || tag in {STRING, SHORT_STRING, BINARY, SHORT_BINARY}
  }

  // The value of a fixed-width item, from its content read as a number.
  function FixedScalar(tag: byte, n: nat): Scalar
    requires FixedWidth(tag) > 0
  {
    if tag == BOOL then Bool(n != 0)
    else if tag == INT32 then Int32(W32.WrapSigned(n))
    else if tag == INT64 then Int64(W64.WrapSigned(n))
    else if tag == UINT32 then Uint32(n)
    else if tag == UINT64 then Uint64(n)
    else if tag == FLOAT then Float32(n)
    else if tag == DOUBLE then Float64(n)
    else Null
  }

  function Fixed(data: bytes, off: nat): (r: Read<Scalar>)
    requires off < |data| && FixedWidth(data[off]) > 0
    ensures r.Got? ==> r.off > off
  {
    match PastKey(data, off, 0)
    case Failed(f) => Failed(f)
    case Got(_, p) =>
      if data[off] == NULL then Got(Null, p + 1)  // the content byte is not looked at
      else
        match Number(data, p, FixedWidth(data[off]))
        case Failed(f) => Failed(f)
        case Got(n, q) => Got(FixedScalar(data[off], n), q)
  }

  // Strings and binaries: a string's last byte is not part of the value, and not looked at.
  function Variable(data: bytes, off: nat): (r: Read<Scalar>)
    requires off < |data| && data[off] in {STRING, SHORT_STRING, BINARY, SHORT_BINARY}
    ensures r.Got? ==> r.off > off
  {
    var str := data[off] in {STRING, SHORT_STRING};
    match Number(data, off + 2, LenWidth(data[off]))
    case Failed(f) => Failed(f)
    case Got(vlen, p) =>
      var start := p + data[off + 1];
      if str && vlen == 0 then Failed(OutOfRange)
      else
        var n := if str then vlen - 1 else vlen;
        if start + n > |data| then Failed(OutOfRange)
        else
          var v := data[start..start + n];
          Got(if str then Str(v) else Bin(v), start + vlen)
  }

  function ScalarAt(data: bytes, off: nat): (r: Read<Scalar>)
    requires off < |data| && IsScalarTag(data[off])
    ensures r.Got? ==> r.off > off
  {
    if FixedWidth(data[off]) > 0 then Fixed(data, off) else Variable(data, off)
  }

  // ---- Decoding without a target type (valueInterface) --------------------------

  function AnyAt(data: bytes, off: nat): (r: Read<Any>)
    ensures r.Got? ==> r.off >= off && off < |data|
    decreases Left(data, off), 0
  {
    if off >= |data| then Failed(OutOfRange)
    else if data[off] == OBJECT then
      match Count(data, off)
      case Failed(f) => Failed(f)
      case Got(n, p) =>
        match MapAt(data, p, n, map[])
        case Failed(f) => Failed(f)
        case Got(m, q) => Got(Map(m), q)
    else if data[off] == ARRAY then
      match Count(data, off)
      case Failed(f) => Failed(f)
      case Got(n, p) =>
        match ListAt(data, p, n, [])
        case Failed(f) => Failed(f)
        case Got(es, q) => Got(List(es), q)
    else if IsScalarTag(data[off]) then
      match ScalarAt(data, off)
      case Failed(f) => Failed(f)
      case Got(s, q) => Got(Scalar(s), q)
    else Got(Scalar(Null), off)  // an unknown tag gives nil and does not move the cursor
  }

  // n more members added to m; a repeated key keeps its last value.
  function MapAt(data: bytes, off: nat, n: nat, m: map<bytes, Any>): (r: Read<map<bytes, Any>>)
    ensures r.Got? ==> r.off >= off
    decreases Left(data, off), 1 + n
  {
    if n == 0 then Got(m, off)
    else
      match KeyAt(data, off)
      case Failed(f) => Failed(f)
      case Got(k, _) =>
        match AnyAt(data, off)
        case Failed(f) => Failed(f)
        case Got(a, p) => MapAt(data, p, n - 1, m[k := a])
  }

  // n more elements appended to es.
  function ListAt(data: bytes, off: nat, n: nat, es: seq<Any>): (r: Read<seq<Any>>)
    ensures r.Got? ==> r.off >= off
    decreases Left(data, off), 1 + n
  {
    if n == 0 then Got(es, off)
    else
      match AnyAt(data, off)
      case Failed(f) => Failed(f)
      case Got(a, p) => ListAt(data, p, n - 1, es + [a])
  }
}
