// The encoder as the source has it: a growable byte array written in place, with the length
// slot of each container patched after its members (mcpack/encode.go).
module Encoder {
  import opened Bytes
  import opened Wire
  import opened Values

  // What the output looks like while a container is open: earlier output, then the container's
  // first two bytes, a length slot holding anything, and the rest of the container so far.
  ghost predicate Open(w: bytes, w0: bytes, tag: byte, k: bytes, body: bytes) {
    && |w| == |w0| + 6 + |KeyBytes(k)| + |body|
    && w[..|w0| + 2] == w0 + [tag, KeyLen(k)]
    && w[|w0| + 6..] == KeyBytes(k) + body
  }

  lemma OpenStart(w0: bytes, w2: bytes, w6: bytes, tag: byte, k: bytes, body: bytes)
    requires w2 == w0 + [tag] + [KeyLen(k)] && |w6| == |w2| + 4 && w6[..|w2|] == w2
    ensures Open(w6 + KeyBytes(k) + body, w0, tag, k, body)
  {
    hide KeyBytes, KeyLen;
    var w := w6 + KeyBytes(k) + body;
    assert w[..|w0| + 2] == w6[..|w2|];
    assert w[|w0| + 6..] == KeyBytes(k) + body;
  }

  lemma OpenGrows(w: bytes, w0: bytes, tag: byte, k: bytes, body: bytes, x: bytes)
    requires Open(w, w0, tag, k, body)
    ensures Open(w + x, w0, tag, k, body + x)
  {
    assert (w + x)[..|w0| + 2] == w[..|w0| + 2];
    assert (w + x)[|w0| + 6..] == w[|w0| + 6..] + x;
  }

  lemma Patched(w: bytes, w': bytes, w0: bytes, tag: byte, k: bytes, body: bytes)
    requires Open(w, w0, tag, k, body)
    requires |w'| == |w| && w'[..|w0| + 2] == w[..|w0| + 2] && w'[|w0| + 6..] == w[|w0| + 6..]
    requires w'[|w0| + 2..|w0| + 6] == LE(|body|, 4)
    ensures w' == w0 + Frame(tag, LE(|body|, 4), k, body)
  {
    hide LE, KeyBytes, KeyLen;
    SplitAt(w', |w0| + 2, |w0| + 6);
    Regroup(w0, [tag, KeyLen(k)], LE(|body|, 4), KeyBytes(k), body);
  }

  lemma SplitAt(w: bytes, a: nat, b: nat)
    requires a <= b <= |w|
    ensures w == w[..a] + w[a..b] + w[b..]
  {
  }

  lemma Regroup(a: bytes, b: bytes, c: bytes, d: bytes, e: bytes)
    ensures (a + b) + c + (d + e) == a + (b + c + d + e)
  {
  }

  // The bytes written for a value, if it writes an item.
  function EncOption(k: bytes, it: Option<Item>): bytes {
    match it
    case None => []
    case Some(i) => Enc(k, i)
  }

  predicate OptionFits(k: bytes, it: Option<Item>) {
    it.Some? ==> KeysFit(k, it.value)
  }

  class EncodeState {
    var data: array<byte>
    var off: nat
    ghost var copied: nat  // bytes copied by all reallocations so far

    constructor ()
      ensures Valid() && Tight() && Written() == [] && fresh(data)
    {
      data := new byte[0];
      off := 0;
      copied := 0;
    }

    ghost predicate Valid()
      reads this
    {
      off <= data.Length && copied <= data.Length
    }

    // The capacity is linear in what has been written.
    ghost predicate Tight()
      reads this
    {
      data.Length <= 2 * (off + 5)
    }

    ghost function Written(): bytes
      reads this, data
      requires Valid()
    {
      data[..off]
    }

    method ResizeIfNeeded(n: nat)
      requires Valid() && Tight()
      modifies this
      ensures Valid() && off == old(off) && off + n <= data.Length
      ensures data.Length <= 2 * (off + if n > 5 then n else 5)
      ensures Written() == old(Written()) && (data == old(data) || fresh(data))
      ensures copied == old(copied) + if data == old(data) then 0 else old(data.Length)
    {
      if off + n >= data.Length {
        var newcap := if data.Length * 2 >= off + n then data.Length * 2 else off + n;
        var newdata := new byte[newcap](_ => 0);
        forall i | 0 <= i < data.Length {
          newdata[i] := data[i];
        }
        copied := copied + data.Length;
        assert newdata[..off] == data[..off];
        data := newdata;
      }
    }

    // Stores the bytes at the cursor, which must lie in the reserved part.
    method Put(x: bytes)
      requires Valid() && off + |x| <= data.Length
      modifies this`off, data
      ensures Valid() && off == old(off) + |x|
      ensures Written() == old(Written()) + x
    {
      forall i | 0 <= i < |x| {
        data[off + i] := x[i];
      }
      off := off + |x|;
      assert data[..off] == old(data[..off]) + x;
    }

    method SetType(t: byte)
      requires Valid() && off < data.Length
      modifies this`off, data
      ensures Valid() && Written() == old(Written()) + [t] && off == old(off) + 1
    {
      data[off] := t;
      off := off + 1;
      assert data[..off] == old(data[..off]) + [t];
    }

    method SetKeyLen(k: bytes) returns (ok: bool)
      requires Valid() && off < data.Length
      modifies this`off, data
      ensures Valid() && ok == KeyFits(k)
      ensures ok ==> Written() == old(Written()) + [KeyLen(k)] && off == old(off) + 1
    {
      if |k| > KEY_MAX_LEN {
        return false;
      }
      data[off] := if |k| > 0 then |k| + 1 else 0;
      off := off + 1;
      assert data[..off] == old(data[..off]) + [KeyLen(k)];
      return true;
    }

    method SetKey(k: bytes)
      requires Valid() && off + |KeyBytes(k)| <= data.Length
      modifies this`off, data
      ensures Valid() && Written() == old(Written()) + KeyBytes(k)
      ensures off == old(off) + |KeyBytes(k)|
    {
      if |k| > 0 {
        Put(k);
        SetType(0);
      }
    }

    method Put32(v: nat)
      requires Valid() && off + 4 <= data.Length
      modifies this`off, data
      ensures Valid() && Written() == old(Written()) + LE(v, 4) && off == old(off) + 4
    {
      PutUint32(data, off, v);
      off := off + 4;
      assert data[..off] == data[..off - 4] + data[off - 4..off];
    }

    method Put64(v: nat)
      requires Valid() && off + 8 <= data.Length
      modifies this`off, data
      ensures Valid() && Written() == old(Written()) + LE(v, 8) && off == old(off) + 8
    {
      PutUint64(data, off, v);
      off := off + 8;
      assert data[..off] == data[..off - 8] + data[off - 8..off];
    }

    // type(1) | key length(1) | content length(0, 1 or 4) | key | 0x00
    method Header(tag: byte, len: nat, k: bytes) returns (ok: bool)
      requires Valid() && off + 2 + LenWidth(tag) + |k| + 1 <= data.Length
      modifies this`off, data
      ensures Valid() && ok == KeyFits(k)
      ensures ok ==> Written() == old(Written()) + ([tag, KeyLen(k)] + LE(len, LenWidth(tag)) + KeyBytes(k))
      ensures ok ==> off == old(off) + 2 + LenWidth(tag) + |KeyBytes(k)|
    {
      hide KeyLen, KeyBytes;
      KeyBytesLength(k);
      SetType(tag);
      ok := SetKeyLen(k);
      if ok {
        if LenWidth(tag) == 1 {
          SetType(len % 256);
          assert LE(len, 1) == [len % 256] + LE(len / 256, 0);
        } else if LenWidth(tag) == 4 {
          Put32(len);
        }
        SetKey(k);
      }
    }

    method PutContent(s: Scalar)
      requires Valid() && off + |Content(s)| <= data.Length
      modifies this`off, data
      ensures Valid() && Written() == old(Written()) + Content(s) && off == old(off) + |Content(s)|
    {
      match s {
        case Null => SetType(0);
        case Bool(b) => SetType(if b then 1 else 0);
        case Int32(i) => Put32(W32.Wrap(i));
        case Int64(i) => Put64(W64.Wrap(i));
        case Uint32(u) => Put32(u);
        case Uint64(u) => Put64(u);
        case Float32(bits) => Put32(bits);
        case Float64(bits) => Put64(bits);
        case Str(v) => Put(v); SetType(0);
        case Bin(v) => Put(v);
      }
    }

    // The leaf encoders. Each appends exactly the item, or fails on a long key.
    method LeafEncoder(k: bytes, s: Scalar) returns (ok: bool)
      requires Valid() && Tight()
      modifies this, data
      ensures Valid() && (data == old(data) || fresh(data)) && copied >= old(copied) && ok == KeyFits(k)
      ensures ok ==> Tight() && Written() == old(Written()) + EncScalar(k, s)
    {
      hide LE, Content, Tag;
      ReserveCovers(k, s);
      ResizeIfNeeded(Reserve(k, s));
      ok := Header(Tag(s), |Content(s)|, k);
      if ok {
        PutContent(s);
      }
    }

    // ---- Containers -------------------------------------------------------------

    // Writes a container's header and count, leaving its length slot to be filled in later.
    method OpenContainer(tag: byte, k: bytes, count: nat) returns (ok: bool)
      requires Valid() && Tight() && LenWidth(tag) == 4
      modifies this, data
      ensures Valid() && (data == old(data) || fresh(data)) && copied >= old(copied) && ok == KeyFits(k)
      ensures ok ==> Tight() && Open(Written(), old(Written()), tag, k, LE(count, 4))
    {
      hide LE, KeyBytes;
      KeyBytesLength(k);
      ResizeIfNeeded(1 + 1 + 4 + |k| + 1 + 4);
      SetType(tag);
      ok := SetKeyLen(k);
      if ok {
        ghost var w2 := Written();
        Reserve4();
        ghost var w6 := Written();
        SetKey(k);
        Put32(count);
        OpenStart(old(Written()), w2, w6, tag, k, LE(count, 4));
      }
    }

    // Steps over the length slot.
    method Reserve4()
      requires Valid() && off + 4 <= data.Length
      modifies this`off
      ensures Valid() && off == old(off) + 4
      ensures |Written()| == |old(Written())| + 4 && Written()[..old(off)] == old(Written())
    {
      off := off + 4;
    }

    // Fills in the length slot of the container that w0 ends before.
    method CloseContainer(ghost w0: bytes, ghost tag: byte, ghost k: bytes, ghost body: bytes,
                          slot: nat, start: int)
      requires Valid() && Tight() && Open(Written(), w0, tag, k, body)
      requires slot == |w0| + 2 && start == off - |body|
      modifies data
      ensures Valid() && Tight()
      ensures Written() == w0 + Frame(tag, LE(|body|, 4), k, body)
    {
      ghost var w := Written();
      PutUint32(data, slot, off - start);
      ghost var w' := Written();
      assert w'[..slot] == data[..slot];
      assert w'[slot..slot + 4] == data[slot..slot + 4];
      assert w'[slot + 4..] == data[slot + 4..][..off - slot - 4];
      Patched(w, w', w0, tag, k, body);
    }
  }

  datatype Marshaled = Output(data: bytes) | KeyTooLong

  // What Marshal's argument, an interface value, is encoded as. A nil argument writes nothing,
  // unlike a nil interface inside a value.
  function Argument(env: Env, arg: Value): Option<Item> {
    match arg
    case VIface(t, v) => Lower(env, t, v)
    case _ => None
  }

  // What Marshal returns: the encoding of the argument under the empty key, unless a key is too long.
  function MarshalOf(env: Env, arg: Value): Marshaled {
    var it := Argument(env, arg);
    if OptionFits([], it) then Output(EncOption([], it)) else KeyTooLong
  }

  // ---- How the pure encoding decomposes -----------------------------------------

  lemma EncAllStep(a: seq<Member>, b: seq<Member>)
    requires |a| <= 1
    ensures EncAll(a + b) == EncAll(a) + EncAll(b)
    ensures AllKeysFit(a + b) == (AllKeysFit(a) && AllKeysFit(b))
  {
    EncAllConcat(a, b);
    if a == [] {
      assert a + b == b;
    } else {
      assert (a + b)[1..] == b && a[1..] == [];
    }
  }

  lemma OneMember(k: bytes, it: Option<Item>)
    ensures EncAll(AsMember(k, it)) == EncOption(k, it)
    ensures AllKeysFit(AsMember(k, it)) == OptionFits(k, it)
  {
    if it.Some? {
      var ms := [Member(k, it.value)];
      assert ms[1..] == [];
      assert EncAll(ms) == Enc(k, it.value) + [];
    }
  }

  // What a container holds so far and the members that are left make up the whole item.
  predicate HasRest(body: bytes, rest: seq<Member>, it: Item)
    requires !it.Leaf?
  {
    body + EncAll(rest) == Body(it) && AllKeysFit(rest) == AllKeysFit(it.members)
  }

  lemma RestIsAll(it: Item)
    requires !it.Leaf?
    ensures HasRest(LE(it.count, 4), it.members, it)
  {
  }

  lemma RestGoesOn(body: bytes, ms: seq<Member>, rest: seq<Member>, it: Item)
    requires |ms| <= 1 && !it.Leaf? && HasRest(body, ms + rest, it)
    ensures if AllKeysFit(ms) then HasRest(body + EncAll(ms), rest, it) else !AllKeysFit(it.members)
  {
    hide EncAll, AllKeysFit, Body;
    EncAllStep(ms, rest);
    ConcatAssociates(body, EncAll(ms), EncAll(rest));
  }

  lemma LeafOption(k: bytes, it: Option<Item>)
    ensures it.Some? && it.value.Leaf? ==>
              EncOption(k, it) == EncScalar(k, it.value.scalar) && OptionFits(k, it) == KeyFits(k)
  {
  }

  lemma NoMembers()
    ensures EncAll([]) == [] && AllKeysFit([])
  {
  }

  lemma KeysFitContainer(k: bytes, it: Item)
    requires !it.Leaf?
    ensures KeysFit(k, it) == (KeyFits(k) && AllKeysFit(it.members))
  {
  }

  lemma RestIsNone(k: bytes, body: bytes, it: Item)
    requires !it.Leaf? && HasRest(body, [], it)
    ensures Enc(k, it) == Frame(ContainerTag(it), LE(|body|, 4), k, body)
    ensures AllKeysFit(it.members)
  {
    assert body == Body(it);
  }

  lemma KeyBytesLength(k: bytes)
    ensures |KeyBytes(k)| == if k == [] then 0 else |k| + 1
  {
  }

  // What a leaf encoder reserves before it writes.
  function Reserve(k: bytes, s: Scalar): nat {
    match s
    case Null => 1 + 1 + |k| + 1 + 1
    case Bool(_) => 1 + 1 + |k| + 1 + 1
    case Float32(_) => 1 + 1 + |k| + 1 + 4
    case Str(v) => 1 + 1 + 4 + |k| + 1 + |v| + 1
    case Bin(v) => 1 + 1 + 4 + |k| + 1 + |v|
    case _ => 1 + 1 + |k| + 1 + 8
  }

  // The reservation is enough, and at most five bytes more than what is written.
  lemma ReserveCovers(k: bytes, s: Scalar)
    ensures 2 + LenWidth(Tag(s)) + |k| + 1 + |Content(s)| <= Reserve(k, s) <= |EncScalar(k, s)| + 5
  {
  }
}
