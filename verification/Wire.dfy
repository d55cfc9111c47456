// The mcpack v2 wire format as a pure function from wire trees to bytes.
module Wire {
  import opened Bytes

  const OBJECT: byte := 0x10
  const ARRAY: byte := 0x20
  const STRING: byte := 0x50
  const BINARY: byte := 0x60
  const INT8: byte := 0x11
  const INT16: byte := 0x12
  const INT32: byte := 0x14
  const INT64: byte := 0x18
  const UINT8: byte := 0x21
  const UINT16: byte := 0x22
  const UINT32: byte := 0x24
  const UINT64: byte := 0x28
  const BOOL: byte := 0x31
  const FLOAT: byte := 0x44
  const DOUBLE: byte := 0x48
  const NULL: byte := 0x61
  const SHORT_STRING: byte := 0xD0
  const SHORT_BINARY: byte := 0xE0
  const KEY_MAX_LEN := 254
  const MAX_SHORT_VITEM_LEN := 255

  // What one item without members carries. Floats are raw bit patterns.
  datatype Scalar =
    | Null
    | Bool(b: bool)
    | Int32(i: int)
    | Int64(i: int)
    | Uint32(u: nat)
    | Uint64(u: nat)
    | Float32(bits: nat)
    | Float64(bits: nat)
    | Str(s: bytes)
    | Bin(d: bytes)

  // A wire tree. The count written into a container's header is kept apart from the members
  // that follow it, because the struct encoder announces fields that it then leaves out.
  datatype Item =
    | Leaf(scalar: Scalar)
    | Object(count: nat, members: seq<Member>)
    | Array(count: nat, members: seq<Member>)

  // An array element is a member with the empty key.
  datatype Member = Member(key: bytes, item: Item)

  // ---- Encoding ---------------------------------------------------------------

  function KeyLen(k: bytes): byte {
    if k == [] then 0 else (|k| + 1) % 256
  }

  function KeyBytes(k: bytes): bytes {
    if k == [] then [] else k + [0]
  }

  // type(1) | key length(1) | content length(0, 1 or 4) | key | 0x00 | content
  function Frame(tag: byte, len: bytes, k: bytes, content: bytes): bytes {
    [tag, KeyLen(k)] + len + KeyBytes(k) + content
  }

  function Tag(s: Scalar): byte {
    match s
    case Null => NULL
    case Bool(_) => BOOL
    case Int32(_) => INT32
    case Int64(_) => INT64
    case Uint32(_) => UINT32
    case Uint64(_) => UINT64
    case Float32(_) => FLOAT
    case Float64(_) => DOUBLE
    case Str(v) => if |v| + 1 < MAX_SHORT_VITEM_LEN then SHORT_STRING else STRING
    case Bin(v) => if |v| <= MAX_SHORT_VITEM_LEN then SHORT_BINARY else BINARY
  }

  // Width of the content length field that follows a tag.
  function LenWidth(tag: byte): nat {
    if tag == SHORT_STRING || tag == SHORT_BINARY then 1
    else if tag == STRING || tag == BINARY || tag == OBJECT || tag == ARRAY then 4
    else 0
  }

  function Content(s: Scalar): bytes {
    match s
    case Null => [0]
    case Bool(b) => [if b then 1 else 0]
    case Int32(i) => LE(W32.Wrap(i), 4)
    case Int64(i) => LE(W64.Wrap(i), 8)
    case Uint32(u) => LE(u, 4)
    case Uint64(u) => LE(u, 8)
    case Float32(bits) => LE(bits, 4)
    case Float64(bits) => LE(bits, 8)
    case Str(v) => v + [0]
    case Bin(v) => v
  }

  function EncScalar(k: bytes, s: Scalar): bytes {
    Frame(Tag(s), LE(|Content(s)|, LenWidth(Tag(s))), k, Content(s))
  }

  function ContainerTag(it: Item): byte
    requires !it.Leaf?
  {
    if it.Object? then OBJECT else ARRAY
  }

  function Enc(k: bytes, it: Item): bytes
    decreases it, 1
  {
    match it
    case Leaf(s) => EncScalar(k, s)
    case _ => Frame(ContainerTag(it), LE(|Body(it)|, 4), k, Body(it))
  }

  function Body(it: Item): bytes
    requires !it.Leaf?
    decreases it, 0
  {
    LE(it.count, 4) + EncAll(it.members)
  }

  function EncAll(ms: seq<Member>): bytes
    decreases ms, 2
  {
    if ms == [] then [] else Enc(ms[0].key, ms[0].item) + EncAll(ms[1..])
  }

  // ---- The encoder's domain ---------------------------------------------------

  predicate KeyFits(k: bytes) {
    |k| <= KEY_MAX_LEN
  }

  // The key and every key below the item are short enough for setKeyLen.
  predicate KeysFit(k: bytes, it: Item)
    decreases it, 1
  {
    KeyFits(k) && (it.Leaf? || AllKeysFit(it.members))
  }

  predicate AllKeysFit(ms: seq<Member>)
    decreases ms, 2
  {
    ms == [] || (KeysFit(ms[0].key, ms[0].item) && AllKeysFit(ms[1..]))
  }

  predicate ScalarFits(s: Scalar) {
    match s
    case Null => true
    case Bool(_) => true
    case Int32(i) => W32.Signed(i)
    case Int64(i) => W64.Signed(i)
    case Uint32(u) => W32.Unsigned(u)
    case Uint64(u) => W64.Unsigned(u)
    case Float32(bits) => W32.Unsigned(bits)
    case Float64(bits) => W64.Unsigned(bits)
    case Str(v) => W32.Unsigned(|v| + 1)
    case Bin(v) => W32.Unsigned(|v|)
  }

  // Numbers are in range, and lengths and counts fit their 32-bit fields.
  predicate SizesFit(it: Item)
    decreases it, 1
  {
    match it
    case Leaf(s) => ScalarFits(s)
    case _ =>
      && W32.Unsigned(it.count)
      && W32.Unsigned(|Body(it)|)
      && |it.members| <= it.count
      && AllSizesFit(it.members)
  }

  predicate AllSizesFit(ms: seq<Member>)
    decreases ms, 2
  {
    ms == [] || (SizesFit(ms[0].item) && AllSizesFit(ms[1..]))
  }

  predicate Fits(k: bytes, it: Item) {
    KeysFit(k, it) && SizesFit(it)
  }

  predicate AllFit(ms: seq<Member>) {
    AllKeysFit(ms) && AllSizesFit(ms)
  }

  // The announced count is the number of members present, at every level.
  predicate Complete(it: Item)
    decreases it, 1
  {
    it.Leaf? || (it.count == |it.members| && AllComplete(it.members))
  }

  predicate AllComplete(ms: seq<Member>)
    decreases ms, 2
  {
    ms == [] || (Complete(ms[0].item) && AllComplete(ms[1..]))
  }

  // Object members have a key, at every level.
  predicate Named(it: Item)
    decreases it, 1
  {
    it.Leaf? || AllNamed(it.members, it.Object?)
  }

  predicate AllNamed(ms: seq<Member>, keyed: bool)
    decreases ms, 2
  {
    ms == [] || ((keyed ==> ms[0].key != []) && Named(ms[0].item) && AllNamed(ms[1..], keyed))
  }

  // ---- Layout facts -----------------------------------------------------------

  // Where the parts of an item lie in the data.
  lemma FrameAt(data: bytes, off: nat, tag: byte, len: bytes, k: bytes, content: bytes)
    requires At(data, off, Frame(tag, len, k, content)) && KeyFits(k)
    ensures off + 2 + |len| + KeyLen(k) + |content| == off + |Frame(tag, len, k, content)| <= |data|
    ensures data[off] == tag && data[off + 1] == KeyLen(k)
    ensures At(data, off + 2, len)
    ensures At(data, off + 2 + |len|, KeyBytes(k))
    ensures At(data, off + 2 + |len| + KeyLen(k), content)
  {
    AtConcat(data, off, [tag, KeyLen(k)] + len + KeyBytes(k), content);
    AtConcat(data, off, [tag, KeyLen(k)] + len, KeyBytes(k));
    AtConcat(data, off, [tag, KeyLen(k)], len);
    assert data[off..off + 2] == [tag, KeyLen(k)];
    assert data[off] == data[off..off + 2][0] && data[off + 1] == data[off..off + 2][1];
  }

  // Every item is a frame whose length field tells the size of its content, when it has one.
  function TagOf(it: Item): byte {
    match it
    case Leaf(s) => Tag(s)
    case _ => ContainerTag(it)
  }

  function ContentOf(it: Item): bytes {
    match it
    case Leaf(s) => Content(s)
    case _ => Body(it)
  }

  lemma EncIsFrame(k: bytes, it: Item)
    ensures Enc(k, it) == Frame(TagOf(it), LE(|ContentOf(it)|, LenWidth(TagOf(it))), k, ContentOf(it))
    ensures |Enc(k, it)| >= 3
  {
    match it
    case Leaf(s) =>
    case Object(_, _) =>
    case Array(_, _) =>
  }

  lemma {:induction false} EncAllConcat(a: seq<Member>, b: seq<Member>)
    ensures EncAll(a + b) == EncAll(a) + EncAll(b)
  {
    hide Enc;
    if a == [] {
      assert a + b == b;
    } else {
      EncAllConcat(a[1..], b);
      assert (a + b)[0] == a[0] && (a + b)[1..] == a[1..] + b;
      ConcatAssociates(Enc(a[0].key, a[0].item), EncAll(a[1..]), EncAll(b));
    }
  }
}
