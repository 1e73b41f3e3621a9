/** The XDR codec of the NFS server (RFC 4506) and the record marking around RPC messages
    (section 11 of RFC 5531). */
module Xdr {
  import opened Bits
  import opened Options

  const U32: nat := 0x1_0000_0000
  const U64: nat := 0x1_0000_0000_0000_0000
  const LAST_FRAGMENT: nat := 0x8000_0000

  type Byte = x: nat | x < 256
  type Word = x: nat | x < U32
  type Hyper = x: nat | x < U64

  // ---- Big-endian words ----

  function Be32(v: Word): (b: seq<Byte>)
    ensures |b| == 4
  {
    [v / 0x100_0000, v / 0x1_0000 % 256, v / 256 % 256, v % 256]
  }

  function FromBe32(b0: Byte, b1: Byte, b2: Byte, b3: Byte): Word {
    b0 * 0x100_0000 + b1 * 0x1_0000 + b2 * 256 + b3
  }

  lemma Be32RoundTrip(v: Word)
    ensures FromBe32(Be32(v)[0], Be32(v)[1], Be32(v)[2], Be32(v)[3]) == v
  {
    var q1, q2 := v / 256, v / 0x1_0000;
    assert v == 256 * q1 + v % 256;
    assert q1 == 256 * q2 + q1 % 256;
    assert q2 == 256 * (v / 0x100_0000) + q2 % 256;
  }

  /** Eight bytes, most significant first. */
  function Be64(v: Hyper): (b: seq<Byte>)
    ensures |b| == 8
  {
    Be32(v / U32) + Be32(v % U32)
  }

  function Pad(n: nat): (p: nat)
    ensures p < 4
  {
    (4 - n % 4) % 4
  }

  lemma PadAligns(n: nat)
    ensures (n + Pad(n)) % 4 == 0
  {
  }

  lemma MultiplesOf4(a: nat, b: nat)
    requires a % 4 == 0 && b % 4 == 0
    ensures (a + b) % 4 == 0
  {
  }

  function Zeros(n: nat): (z: seq<Byte>)
    ensures |z| == n
  {
    seq(n, _ => 0)
  }

  // ---- Items ----

  datatype Item = Int(w: Word) | Long(h: Hyper) | Opaque(bytes: seq<Byte>)

  datatype Kind = IntKind | LongKind | OpaqueKind

  function KindOf(i: Item): Kind {
    match i
    case Int(_) => IntKind
    case Long(_) => LongKind
    case Opaque(_) => OpaqueKind
  }

  /** The encoder's bytes; an opaque length is truncated to a u32. */
  function Encode(i: Item): seq<Byte> {
    match i
    case Int(w) => Be32(w)
    case Long(h) => Be64(h)
    case Opaque(b) => Be32(|b| % U32) + b + Zeros(Pad(|b|))
  }

  function EncodeAll(items: seq<Item>): seq<Byte> {
    Concat(Encode, items)
  }

  function Concat(enc: Item -> seq<Byte>, items: seq<Item>): seq<Byte> {
    if items == [] then [] else enc(items[0]) + Concat(enc, items[1..])
  }

  // ---- The decoder: a result and the position afterwards ----

  function GetU32(data: seq<Byte>, pos: nat): (Option<Word>, nat) {
    if pos + 4 > |data| then (None, pos)
    else (Some(FromBe32(data[pos], data[pos + 1], data[pos + 2], data[pos + 3])), pos + 4)
  }

  function GetU64(data: seq<Byte>, pos: nat): (Option<Hyper>, nat) {
    var (hi, p1) := GetU32(data, pos);
    if hi.None? then (None, p1)
    else
      var (lo, p2) := GetU32(data, p1);
      if lo.None? then (None, p2) else (Some(Join(hi.value, lo.value)), p2)
  }

  /** (hi << 32) | lo */
  function Join(hi: Word, lo: Word): Hyper {
    JoinValue(hi, lo);
    Or(hi * U32, lo)
  }

  lemma JoinValue(hi: Word, lo: Word)
    ensures Or(hi * U32, lo) == hi * U32 + lo
  {
    Pow2Of32();
    OrDisjoint(hi * U32, lo, 32);
  }

  lemma Pow2Of32()
    ensures Pow2(31) == LAST_FRAGMENT && Pow2(32) == U32
  {
    assert Pow2(8) == 256;
    Pow2Add(8, 8);
    Pow2Add(16, 16);
  }

  function GetBytes(data: seq<Byte>, pos: nat): (Option<seq<Byte>>, nat) {
    var (n, p) := GetU32(data, pos);
    if n.None? then (None, p)
    else if p + n.value > |data| then (None, p)
    else (Some(data[p..p + n.value]), p + n.value + Pad(n.value))
  }

  function Get(kind: Kind, data: seq<Byte>, pos: nat): (Option<Item>, nat) {
    match kind
    case IntKind => var (v, p) := GetU32(data, pos); (if v.Some? then Some(Int(v.value)) else None, p)
    case LongKind => var (v, p) := GetU64(data, pos); (if v.Some? then Some(Long(v.value)) else None, p)
    case OpaqueKind => var (v, p) := GetBytes(data, pos); (if v.Some? then Some(Opaque(v.value)) else None, p)
  }

  type Getter = (Kind, seq<Byte>, nat) -> (Option<Item>, nat)

  /** Calling the getters one after the other, stopping at the first that fails. */
  function GetAll(kinds: seq<Kind>, data: seq<Byte>, pos: nat): (Option<seq<Item>>, nat) {
    GetEach(Get, kinds, data, pos)
  }

  function GetEach(get: Getter, kinds: seq<Kind>, data: seq<Byte>, pos: nat): (Option<seq<Item>>, nat)
    decreases |kinds|
  {
    if kinds == [] then (Some([]), pos)
    else
      var (i, p) := get(kinds[0], data, pos);
      if i.None? then (None, p)
      else
        var (rest, q) := GetEach(get, kinds[1..], data, p);
        if rest.None? then (None, q) else (Some([i.value] + rest.value), q)
  }

  function Kinds(items: seq<Item>): seq<Kind> {
    if items == [] then [] else [KindOf(items[0])] + Kinds(items[1..])
  }

  // ---- The objects ----

  class XdrEncoder {
    var buf: seq<Byte>

    constructor ()
      ensures buf == []
    {
      buf := [];
    }

    method PutU32(v: Word)
      modifies this
      ensures buf == old(buf) + Encode(Int(v))
    {
      buf := buf + Be32(v);
    }

    method PutU64(v: Hyper)
      modifies this
      ensures buf == old(buf) + Encode(Long(v))
    {
      buf := buf + Be64(v);
    }

    method PutBytes(data: seq<Byte>)
      modifies this
      ensures buf == old(buf) + Encode(Opaque(data))
    {
      PutU32(|data| % U32);
      buf := buf + data;
      var pad := (4 - |data| % 4) % 4;
      ghost var before := buf;
      for i := 0 to pad
        invariant buf == before + Zeros(i)
      {
        buf := buf + [0];
      }
      assert buf == old(buf) + (Be32(|data| % U32) + data + Zeros(pad));
    }
  }

  class XdrDecoder {
    const data: seq<Byte>
    var pos: nat

    constructor (data: seq<Byte>)
      ensures this.data == data && pos == 0
    {
      this.data, pos := data, 0;
    }

    method NextU32() returns (r: Option<Word>)
      modifies this
      ensures (r, pos) == GetU32(data, old(pos))
    {
      if pos + 4 > |data| {
        return None;
      }
      r := Some(FromBe32(data[pos], data[pos + 1], data[pos + 2], data[pos + 3]));
      pos := pos + 4;
    }

    method NextU64() returns (r: Option<Hyper>)
      modifies this
      ensures (r, pos) == GetU64(data, old(pos))
    {
      var hi := NextU32();
      if hi.None? {
        return None;
      }
      var lo := NextU32();
      if lo.None? {
        return None;
      }
      r := Some(Join(hi.value, lo.value));
    }

    method NextBytes() returns (r: Option<seq<Byte>>)
      modifies this
      ensures (r, pos) == GetBytes(data, old(pos))
    {
      var n := NextU32();
      if n.None? {
        return None;
      }
      var len := n.value;
      if pos + len > |data| {
        return None;
      }
      r := Some(data[pos..pos + len]);
      pos := pos + len;
      pos := pos + Pad(len);
    }
  }

  // ---- Round trip ----

  predicate Fits(i: Item) {
    i.Opaque? ==> |i.bytes| < U32
  }

  lemma GetU32At(pre: seq<Byte>, v: Word, post: seq<Byte>)
    ensures GetU32(pre + Be32(v) + post, |pre|) == (Some(v), |pre| + 4)
  {
    var data := pre + Be32(v) + post;
    assert forall k :: 0 <= k < 4 ==> data[|pre| + k] == Be32(v)[k];
    assert data[|pre|] == Be32(v)[0];
    Be32RoundTrip(v);
  }

  lemma GetU64At(pre: seq<Byte>, h: Hyper, post: seq<Byte>)
    ensures GetU64(pre + Be64(h) + post, |pre|) == (Some(h), |pre| + 8)
  {
    var data, hi, lo := pre + Be64(h) + post, Be32(h / U32), Be32(h % U32);
    GetU32At(pre, h / U32, lo + post);
    assert data == pre + hi + (lo + post);
    GetU32At(pre + hi, h % U32, post);
    assert data == (pre + hi) + lo + post;
    JoinValue(h / U32, h % U32);
  }

  lemma Regroup(pre: seq<Byte>, a: seq<Byte>, b: seq<Byte>, c: seq<Byte>, post: seq<Byte>)
    ensures pre + (a + b + c) + post == pre + a + (b + (c + post))
  {
  }

  lemma SliceOf(pre: seq<Byte>, a: seq<Byte>, b: seq<Byte>, rest: seq<Byte>)
    ensures (pre + a + (b + rest))[|pre| + |a|..|pre| + |a| + |b|] == b
  {
  }

  lemma GetBytesFrom(pre: seq<Byte>, b: seq<Byte>, rest: seq<Byte>)
    requires |b| < U32
    ensures GetBytes(pre + Be32(|b|) + (b + rest), |pre|) == (Some(b), |pre| + 4 + |b| + Pad(|b|))
  {
    GetU32At(pre, |b|, b + rest);
    SliceOf(pre, Be32(|b|), b, rest);
  }

  lemma EncodeOpaque(b: seq<Byte>)
    requires |b| < U32
    ensures Encode(Opaque(b)) == Be32(|b|) + b + Zeros(Pad(|b|))
    ensures |Encode(Opaque(b))| == 4 + |b| + Pad(|b|)
  {
  }

  lemma GetBytesAt(pre: seq<Byte>, b: seq<Byte>, post: seq<Byte>)
    requires |b| < U32
    ensures GetBytes(pre + Encode(Opaque(b)) + post, |pre|) == (Some(b), |pre| + |Encode(Opaque(b))|)
  {
    EncodeOpaque(b);
    Regroup(pre, Be32(|b|), b, Zeros(Pad(|b|)), post);
    GetBytesFrom(pre, b, Zeros(Pad(|b|)) + post);
  }

  /** Wherever an encoded item stands, the matching getter returns it and stops right behind it. */
  lemma GetEncoded(pre: seq<Byte>, i: Item, post: seq<Byte>)
    requires Fits(i)
    ensures Get(KindOf(i), pre + Encode(i) + post, |pre|) == (Some(i), |pre| + |Encode(i)|)
  {
    match i
    case Int(w) => GetU32At(pre, w, post);
    case Long(h) => GetU64At(pre, h, post);
    case Opaque(b) => GetBytesAt(pre, b, post);
  }

  /** An opaque item of 2^32 bytes or more cannot come back: the decoder only ever returns shorter ones. */
  lemma OversizeLost(i: Item, data: seq<Byte>, pos: nat)
    requires !Fits(i)
    ensures Get(KindOf(i), data, pos).0 != Some(i)
  {
  }

  /** From pos on, the getters return exactly these items and end at the last byte. */
  ghost predicate Decodes(get: Getter, items: seq<Item>, data: seq<Byte>, pos: nat) {
    GetEach(get, Kinds(items), data, pos) == (Some(items), |data|)
  }

  ghost predicate AllFit(items: seq<Item>) {
    forall k :: 0 <= k < |items| ==> Fits(items[k])
  }

  /** An item codec: what fits comes back from wherever it stands, what does not fit never does. */
  ghost predicate ItemCodec(enc: Item -> seq<Byte>, get: Getter) {
    && (forall i, pre, post :: Fits(i) ==> get(KindOf(i), pre + enc(i) + post, |pre|) == (Some(i), |pre| + |enc(i)|))
    && (forall i, data, pos :: !Fits(i) ==> get(KindOf(i), data, pos).0 != Some(i))
  }

  /** Decoding a non-empty list yields it exactly when the head and then the tail do. */
  lemma DecodesHead(get: Getter, items: seq<Item>, data: seq<Byte>, pos: nat)
    requires items != []
    ensures var (i, p) := get(KindOf(items[0]), data, pos);
            Decodes(get, items, data, pos) <==> i == Some(items[0]) && Decodes(get, items[1..], data, p)
  {
    assert Kinds(items)[0] == KindOf(items[0]) && Kinds(items)[1..] == Kinds(items[1..]);
    var (i, p) := get(KindOf(items[0]), data, pos);
    var rest := GetEach(get, Kinds(items[1..]), data, p);
    if i.Some? && rest.0.Some? {
      assert [i.value] + rest.0.value == items <==> i.value == items[0] && rest.0.value == items[1..] by {
        assert ([i.value] + rest.0.value)[1..] == rest.0.value;
        assert items == [items[0]] + items[1..];
      }
    }
  }

  lemma AllFitHead(items: seq<Item>)
    requires items != []
    ensures AllFit(items) <==> Fits(items[0]) && AllFit(items[1..])
  {
    assert items == [items[0]] + items[1..];
  }

  /** A list codec built from an item codec returns exactly the lists whose items all fit. */
  lemma {:induction false} ListCodec(enc: Item -> seq<Byte>, get: Getter, pre: seq<Byte>, items: seq<Item>)
    requires ItemCodec(enc, get)
    ensures Decodes(get, items, pre + Concat(enc, items), |pre|) <==> AllFit(items)
    decreases |items|
  {
    var data := pre + Concat(enc, items);
    if items == [] {
      assert data == pre;
    } else {
      var e, tail := enc(items[0]), Concat(enc, items[1..]);
      AllFitHead(items);
      DecodesHead(get, items, data, |pre|);
      Assoc(pre, e, tail);
      if Fits(items[0]) {
        assert get(KindOf(items[0]), pre + e + tail, |pre|) == (Some(items[0]), |pre| + |e|);
        ListCodec(enc, get, pre + e, items[1..]);
      }
    }
  }

  lemma ItemCodecHolds()
    ensures ItemCodec(Encode, Get)
  {
    forall i, pre, post | Fits(i) ensures Get(KindOf(i), pre + Encode(i) + post, |pre|) == (Some(i), |pre| + |Encode(i)|) {
      GetEncoded(pre, i, post);
    }
    forall i, data, pos | !Fits(i) ensures Get(KindOf(i), data, pos).0 != Some(i) {
      OversizeLost(i, data, pos);
    }
  }

  /** Decoding an encoded list with the matching getters returns that list and consumes every byte exactly when no
      opaque item has 2^32 bytes or more. */
  lemma RoundTripExactly(items: seq<Item>)
    ensures GetAll(Kinds(items), EncodeAll(items), 0) == (Some(items), |EncodeAll(items)|) <==> AllFit(items)
  {
    ItemCodecHolds();
    ListCodec(Encode, Get, [], items);
    assert [] + EncodeAll(items) == EncodeAll(items);
  }

  lemma EncodeAligned(i: Item)
    ensures |Encode(i)| % 4 == 0
  {
    if i.Opaque? {
      var n := |i.bytes| + Pad(|i.bytes|);
      PadAligns(|i.bytes|);
      MultiplesOf4(4, n);
      assert |Encode(i)| == 4 + n;
    }
  }

  /** The encoding of any list, and so of the items before any item, is a whole number of 4-byte units. */
  lemma {:induction false} Aligned(items: seq<Item>)
    ensures |EncodeAll(items)| % 4 == 0
  {
    if items != [] {
      Aligned(items[1..]);
      EncodeAligned(items[0]);
      MultiplesOf4(|Encode(items[0])|, |EncodeAll(items[1..])|);
    }
  }

  // ---- Record marking ----

  /** A u32 with bit 31 set, and with bit 31 cleared. */
  function WithLastBit(n: Word): Word {
    n % LAST_FRAGMENT + LAST_FRAGMENT
  }

  function WithoutLastBit(n: Word): Word {
    n % LAST_FRAGMENT
  }

  /** A single, last fragment: its length with the top bit set, then the body. */
  function Frame(body: seq<Byte>): seq<Byte> {
    Be32(WithLastBit(|body| % U32)) + body
  }

  /** How the reply is wrapped: the header bytes first, then the reply. */
  method FrameReply(reply: seq<Byte>) returns (framed: seq<Byte>)
    ensures framed == Frame(reply)
    ensures |reply| < LAST_FRAGMENT ==> Unframe(framed) == Some(reply)
  {
    framed := [];
    framed := framed + Be32(WithLastBit(|reply| % U32));
    framed := framed + reply;
    FramingExactly(reply, []);
    assert framed + [] == framed;
  }

  function Unframe(data: seq<Byte>): Option<seq<Byte>> {
    if |data| < 4 then None
    else
      var len := WithoutLastBit(FromBe32(data[0], data[1], data[2], data[3]));
      if |data| < 4 + len then None else Some(data[4..4 + len])
  }

  lemma UnframeHeader(header: Word, rest: seq<Byte>)
    requires WithoutLastBit(header) <= |rest|
    ensures Unframe(Be32(header) + rest) == Some(rest[..WithoutLastBit(header)])
  {
    var data, len := Be32(header) + rest, WithoutLastBit(header);
    Be32RoundTrip(header);
    assert forall k :: 0 <= k < 4 ==> data[k] == Be32(header)[k];
    assert data[4..4 + len] == rest[..len];
  }

  lemma Assoc(a: seq<Byte>, b: seq<Byte>, c: seq<Byte>)
    ensures a + b + c == a + (b + c)
  {
  }

  /** The TCP side returns the body cut to its length modulo 2^31. */
  lemma UnframeFrame(body: seq<Byte>, more: seq<Byte>)
    ensures Unframe(Frame(body) + more) == Some(body[..|body| % LAST_FRAGMENT])
  {
    var header, len := WithLastBit(|body| % U32), |body| % LAST_FRAGMENT;
    assert WithoutLastBit(header) == len;
    Assoc(Be32(header), body, more);
    UnframeHeader(header, body + more);
    assert (body + more)[..len] == body[..len];
  }

  /** The TCP side undoes record marking, whatever follows on the stream, exactly for bodies below 2^31 bytes. */
  lemma FramingExactly(body: seq<Byte>, more: seq<Byte>)
    ensures Unframe(Frame(body) + more) == Some(body) <==> |body| < LAST_FRAGMENT
  {
    UnframeFrame(body, more);
    if |body| < LAST_FRAGMENT {
      assert body[..|body|] == body;
    }
  }
}
