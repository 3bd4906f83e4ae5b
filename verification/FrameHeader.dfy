/** WebSocket frame headers (section 5.2 of RFC 6455), built and read as frame.hpp does. */
module FrameHeader {
  import opened Options
  import opened Arith
  import opened Bytes
  import opened FrameMask

  const BASIC_HEADER_LENGTH: nat := 2
  const MAX_EXTENDED_HEADER_LENGTH: nat := 12
  const PAYLOAD_SIZE_BASIC: nat := 125
  const PAYLOAD_SIZE_EXTENDED: nat := 0xFFFF
  const CODE_16BIT: nat := 0x7E
  const CODE_64BIT: nat := 0x7F

  /** The fields of a header; no key for an unmasked frame. */
  datatype Fields = Fields(fin: bool, rsv1: bool, rsv2: bool, rsv3: bool, opcode: nat, size: nat, key: Option<Key>)

  ghost predicate ValidFields(f: Fields) {
    f.opcode < 16 && f.size < Pow2(64)
  }

  /** The first two bytes of a header. */
  datatype Basic = Basic(b0: Byte, b1: Byte)

  /** A single bit of a byte, 2^n its mask. */
  predicate BitSet(b: Byte, n: nat) {
    b / Pow2(n) % 2 == 1
  }

  predicate GetFin(h: Basic) { BitSet(h.b0, 7) }

  predicate GetRsv1(h: Basic) { BitSet(h.b0, 6) }

  predicate GetRsv2(h: Basic) { BitSet(h.b0, 5) }

  predicate GetRsv3(h: Basic) { BitSet(h.b0, 4) }

  function GetOpcode(h: Basic): nat { h.b0 % 0x10 }

  predicate GetMasked(h: Basic) { BitSet(h.b1, 7) }

  function GetBasicSize(h: Basic): nat { h.b1 % 0x80 }

  function GetMaskingKeyOffset(h: Basic): (n: nat)
    ensures n <= 8
  {
    if GetBasicSize(h) == CODE_16BIT then 2 else if GetBasicSize(h) == CODE_64BIT then 8 else 0
  }

  function GetHeaderLen(h: Basic): (n: nat)
    ensures BASIC_HEADER_LENGTH <= n <= BASIC_HEADER_LENGTH + MAX_EXTENDED_HEADER_LENGTH
  {
    BASIC_HEADER_LENGTH + GetMaskingKeyOffset(h) + if GetMasked(h) then 4 else 0
  }

  type Extended = s: seq<Byte> | |s| == MAX_EXTENDED_HEADER_LENGTH witness Repeat(0, 12)

  function GetMaskingKey(h: Basic, e: Extended): Key {
    if GetMasked(h) then e[GetMaskingKeyOffset(h)..GetMaskingKeyOffset(h) + 4] else [0, 0, 0, 0]
  }

  /** `ntohs`, `_htonll` and `_ntohll`: the bytes of a word exchanged on little-endian machines. */
  function NetworkOrder(m: Machine, w: nat): nat {
    if m.littleEndian then Load(m, Rev(Store(m, w))) else w
  }

  lemma NetworkBytes(m: Machine, w: nat)
    requires w < Pow2(8 * m.word)
    ensures Store(m, NetworkOrder(m, w)) == ToBytes(w, m.word)
  {
    hide Pow2, Prefix, ToBytes;
    var s := ToBytes(w, m.word);
    assert Rev(Rev(s)) == s;
    StoreLoad(m, s);
  }

  lemma HostOrder(m: Machine, s: seq<Byte>)
    requires |s| == m.word
    ensures NetworkOrder(m, Load(m, s)) == Value(s)
  {
    hide Pow2, Prefix, ToBytes;
    StoreLoad(m, s);
    assert Rev(Rev(s)) == s;
  }

  function GetExtendedSize(m: Machine, e: Extended): nat {
    NetworkOrder(m.(word := 2), Load(m.(word := 2), e[..2]))
  }

  function GetJumboSize(m: Machine, e: Extended): nat {
    NetworkOrder(m.(word := 8), Load(m.(word := 8), e[..8]))
  }

  function GetPayloadSize(m: Machine, h: Basic, e: Extended): nat {
    if GetBasicSize(h) <= PAYLOAD_SIZE_BASIC then GetBasicSize(h)
    else if GetBasicSize(h) == CODE_16BIT then GetExtendedSize(m, e)
    else GetJumboSize(m, e)
  }

  // ---------------------------------------------------------------------------
  // Building a header
  // ---------------------------------------------------------------------------

  /** Section 5.2 of RFC 6455: the length field after the first two bytes, in network byte order. */
  function LengthField(size: nat): (s: seq<Byte>)
    ensures |s| <= 8
  {
    if size <= PAYLOAD_SIZE_BASIC then [] else if size <= PAYLOAD_SIZE_EXTENDED then ToBytes(size, 2) else ToBytes(size, 8)
  }

  /** The first byte of a header: FIN, RSV1, RSV2, RSV3 and the opcode from the top bit down (section 5.2 of RFC 6455). */
  function First(fin: bool, rsv1: bool, rsv2: bool, rsv3: bool, opcode: nat): nat {
    (if fin then 128 else 0) + (if rsv1 then 64 else 0) + (if rsv2 then 32 else 0) + (if rsv3 then 16 else 0) + opcode
  }

  /** The second one: MASK, and the payload length if it is at most 125, 126 if two bytes hold it, else 127. */
  function Second(masked: bool, size: nat): nat {
    (if masked then 128 else 0) + if size <= 125 then size else if size <= 65535 then 126 else 127
  }

  /** Then the length in no, two or eight bytes, the most significant first, and the key. */
  ghost predicate Follows(rest: seq<Byte>, size: nat, key: Option<Key>) {
    var n := if size <= 125 then 0 else if size <= 65535 then 2 else 8;
    && |rest| == n + (if key.Some? then 4 else 0)
    && (forall i :: 0 <= i < n ==> rest[i] == size / Pow2(8 * (n - 1 - i)) % 256)
    && (key.Some? ==> rest[n..] == key.value)
  }

  lemma FieldsFollow(size: nat, key: Option<Key>)
    ensures Follows(LengthField(size) + KeyField(key), size, key)
  {
    hide ToBytes, Pow2;
    var n := if size <= 125 then 0 else if size <= 65535 then 2 else 8;
    var rest := LengthField(size) + KeyField(key);
    forall i | 0 <= i < n ensures rest[i] == size / Pow2(8 * (n - 1 - i)) % 256 {
      BigEndian(size, n, i);
    }
  }

  function KeyField(key: Option<Key>): (s: seq<Byte>)
    ensures |s| <= 4
  {
    match key
    case None => []
    case Some(k) => k
  }

  lemma {:induction false} ToBytesTail(v: nat, m: nat, n: nat)
    requires n <= m
    ensures ToBytes(v, m)[m - n..] == ToBytes(v, n)
  {
    if n > 0 {
      ToBytesTail(v / 256, m - 1, n - 1);
      assert ToBytes(v, m)[m - n..] == ToBytes(v / 256, m - 1)[m - n..] + [v % 256];
    }
  }

  function Flag(on: bool, mask: nat): nat {
    if on then mask else 0
  }

  lemma FlagBits(fin: bool, rsv1: bool, rsv2: bool, rsv3: bool, opcode: nat)
    requires opcode < 16
    ensures var b := Flag(fin, 0x80) + Flag(rsv1, 0x40) + Flag(rsv2, 0x20) + Flag(rsv3, 0x10) + opcode;
      && BitSet(b, 7) == fin && BitSet(b, 6) == rsv1 && BitSet(b, 5) == rsv2 && BitSet(b, 4) == rsv3
      && b % 0x10 == opcode
  {
    hide Pow2;
    Pow2Table();
  }

  lemma FlagSum(fin: bool, rsv1: bool, rsv2: bool, rsv3: bool, opcode: nat)
    ensures Flag(fin, 0x80) + Flag(rsv1, 0x40) + Flag(rsv2, 0x20) + Flag(rsv3, 0x10) + opcode
         == First(fin, rsv1, rsv2, rsv3, opcode)
  {
  }

  lemma TopBit(on: bool, low: nat)
    requires low < 0x80
    ensures var b := (if on then 0x80 else 0) + low; BitSet(b, 7) == on && b % 0x80 == low
  {
    hide Pow2;
    Pow2Table();
  }

  class BasicHeader {
    var b0: Byte
    var b1: Byte

    ghost function Bytes(): Basic
      reads this
    {
      Basic(b0, b1)
    }

    constructor (opcode: nat, size: nat, fin: bool, mask: bool, rsv1: bool, rsv2: bool, rsv3: bool)
      ensures GetFin(Bytes()) == fin && GetMasked(Bytes()) == mask && GetOpcode(Bytes()) == opcode % 0x10
      ensures GetRsv1(Bytes()) == rsv1 && GetRsv2(Bytes()) == rsv2 && GetRsv3(Bytes()) == rsv3
      ensures b0 == First(fin, rsv1, rsv2, rsv3, opcode % 16) && b1 == Second(mask, size)
      ensures GetMaskingKeyOffset(Bytes()) == |LengthField(size)|
      ensures GetBasicSize(Bytes()) == if size <= PAYLOAD_SIZE_BASIC then size
                                       else if size <= PAYLOAD_SIZE_EXTENDED then CODE_16BIT else CODE_64BIT
    {
      hide BitSet, First, Second;
      b0, b1 := 0, 0;
      new;
      SetFirst(fin, rsv1, rsv2, rsv3, opcode);
      SetSecond(mask, size);
    }

    method SetFirst(fin: bool, rsv1: bool, rsv2: bool, rsv3: bool, opcode: nat)
      requires b0 == 0
      modifies this`b0
      ensures b0 == First(fin, rsv1, rsv2, rsv3, opcode % 16)
      ensures GetFin(Bytes()) == fin && GetOpcode(Bytes()) == opcode % 0x10
      ensures GetRsv1(Bytes()) == rsv1 && GetRsv2(Bytes()) == rsv2 && GetRsv3(Bytes()) == rsv3
    {
      hide BitSet, First;
      if fin { b0 := b0 + 0x80; }
      if rsv1 { b0 := b0 + 0x40; }
      if rsv2 { b0 := b0 + 0x20; }
      if rsv3 { b0 := b0 + 0x10; }
      b0 := b0 + opcode % 0x10;
      assert b0 == Flag(fin, 0x80) + Flag(rsv1, 0x40) + Flag(rsv2, 0x20) + Flag(rsv3, 0x10) + opcode % 0x10;
      FlagBits(fin, rsv1, rsv2, rsv3, opcode % 0x10);
      FlagSum(fin, rsv1, rsv2, rsv3, opcode % 0x10);
    }

    method SetSecond(mask: bool, size: nat)
      requires b1 == 0
      modifies this`b1
      ensures b1 == Second(mask, size) && GetMasked(Bytes()) == mask
      ensures GetMaskingKeyOffset(Bytes()) == |LengthField(size)|
      ensures GetBasicSize(Bytes()) == if size <= PAYLOAD_SIZE_BASIC then size
                                       else if size <= PAYLOAD_SIZE_EXTENDED then CODE_16BIT else CODE_64BIT
    {
      hide BitSet;
      if mask { b1 := b1 + 0x80; }
      var basicValue;
      if size <= PAYLOAD_SIZE_BASIC {
        basicValue := size;
      } else if size <= PAYLOAD_SIZE_EXTENDED {
        basicValue := CODE_16BIT;
      } else {
        basicValue := CODE_64BIT;
      }
      b1 := b1 + basicValue;
      TopBit(mask, basicValue);
    }
  }

  class ExtendedHeader {
    const bytes: array<Byte>

    /** The length, the key if there is one, and zeros. */
    constructor (m: Machine, size: nat, key: Option<Key>)
      requires size < Pow2(64)
      ensures bytes.Length == MAX_EXTENDED_HEADER_LENGTH
      ensures LengthField(size) + KeyField(key) <= bytes[..]
      ensures forall i :: |LengthField(size) + KeyField(key)| <= i < bytes.Length ==> bytes[i] == 0
    {
      bytes := new Byte[MAX_EXTENDED_HEADER_LENGTH](_ => 0);
      new;
      var offset := CopyPayload(m, size);
      if key.Some? {
        forall i | 0 <= i < 4 {
          bytes[offset + i] := key.value[i];
        }
      }
      assert bytes[..|LengthField(size) + KeyField(key)|] == LengthField(size) + KeyField(key);
    }

    method CopyPayload(m: Machine, size: nat) returns (offset: nat)
      requires bytes.Length == MAX_EXTENDED_HEADER_LENGTH && size < Pow2(64)
      modifies bytes
      ensures offset == |LengthField(size)| && bytes[..offset] == LengthField(size)
      ensures forall i :: offset <= i < bytes.Length ==> bytes[i] == old(bytes[i])
    {
      hide ToBytes, Pow2;
      var skip := if size <= PAYLOAD_SIZE_BASIC then 8 else if size <= PAYLOAD_SIZE_EXTENDED then 6 else 0;
      var c := Store(m.(word := 8), NetworkOrder(m.(word := 8), size));
      NetworkBytes(m.(word := 8), size);
      ToBytesTail(size, 8, 8 - skip);
      forall i | 0 <= i < 8 - skip {
        bytes[i] := c[skip + i];
      }
      assert bytes[..8 - skip] == c[skip..];
      return 8 - skip;
    }
  }

  /** `prepare_header`. */
  method PrepareHeader(h: BasicHeader, e: ExtendedHeader) returns (ret: seq<Byte>)
    requires e.bytes.Length == MAX_EXTENDED_HEADER_LENGTH
    ensures ret == [h.b0] + [h.b1] + e.bytes[..GetHeaderLen(h.Bytes()) - BASIC_HEADER_LENGTH]
  {
    ret := [];
    ret := ret + [h.b0];
    ret := ret + [h.b1];
    ret := ret + e.bytes[..GetHeaderLen(Basic(h.b0, h.b1)) - BASIC_HEADER_LENGTH];
  }

  // ---------------------------------------------------------------------------
  // Reading it back
  // ---------------------------------------------------------------------------

  /** All the getters, on the first two bytes and whatever the extended header was filled with. */
  function Read(m: Machine, h: Basic, e: Extended): Fields {
    Fields(GetFin(h), GetRsv1(h), GetRsv2(h), GetRsv3(h), GetOpcode(h), GetPayloadSize(m, h, e),
           if GetMasked(h) then Some(GetMaskingKey(h, e)) else None)
  }

  /** `wire` carries the fields `f`: however its bytes are followed up, the getters read `f`, and its own length. */
  ghost predicate Carries(m: Machine, wire: seq<Byte>, f: Fields) {
    && |wire| >= BASIC_HEADER_LENGTH && GetHeaderLen(Basic(wire[0], wire[1])) == |wire|
    && forall e: Extended :: wire[2..] <= e ==> Read(m, Basic(wire[0], wire[1]), e) == f
  }

  lemma ReadSize(m: Machine, size: nat, e: Extended)
    requires size < Pow2(64) && LengthField(size) <= e && size > PAYLOAD_SIZE_BASIC
    ensures if size <= PAYLOAD_SIZE_EXTENDED then GetExtendedSize(m, e) == size else GetJumboSize(m, e) == size
  {
    hide ToBytes, Prefix, Load, Store;
    if size <= PAYLOAD_SIZE_EXTENDED {
      Pow2Table();
      assert e[..2] == LengthField(size);
      ToBytesValue(size, 2);
      HostOrder(m.(word := 2), e[..2]);
    } else {
      assert e[..8] == LengthField(size);
      ToBytesValue(size, 8);
      HostOrder(m.(word := 8), e[..8]);
    }
  }

  lemma Parts(x: seq<Byte>, a: seq<Byte>, b: seq<Byte>)
    requires a + b <= x
    ensures a <= x && x[|a|..|a| + |b|] == b
  {
    assert x[..|a|] == (a + b)[..|a|] == a;
    assert x[|a|..|a| + |b|] == (a + b)[|a|..] == b;
  }

  /** What is built reads back as it was, on either byte order, in at most 14 bytes. */
  method BuildHeader(m: Machine, f: Fields) returns (wire: seq<Byte>)
    requires ValidFields(f)
    ensures Carries(m, wire, f) && |wire| <= 14
    ensures wire[0] == First(f.fin, f.rsv1, f.rsv2, f.rsv3, f.opcode) && wire[1] == Second(f.key.Some?, f.size)
    ensures Follows(wire[2..], f.size, f.key)
  {
    hide Pow2, ToBytes, BitSet, Follows, First, Second;
    FieldsFollow(f.size, f.key);
    var h := new BasicHeader(f.opcode, f.size, f.fin, f.key.Some?, f.rsv1, f.rsv2, f.rsv3);
    var e := new ExtendedHeader(m, f.size, f.key);
    wire := PrepareHeader(h, e);
    ghost var fields := LengthField(f.size) + KeyField(f.key);
    assert wire[2..] == fields;
    forall x: Extended | wire[2..] <= x ensures Read(m, Basic(wire[0], wire[1]), x) == f {
      assert fields <= x;
      Parts(x, LengthField(f.size), KeyField(f.key));
      if f.size > PAYLOAD_SIZE_BASIC {
        ReadSize(m, f.size, x);
      }
    }
  }

  /** No header that reads as the same fields is shorter than one whose length field is `LengthField`. */
  lemma LengthShortest(m: Machine, h: Basic, e: Extended)
    ensures |LengthField(GetPayloadSize(m, h, e))| <= GetMaskingKeyOffset(h)
  {
    if GetBasicSize(h) == CODE_16BIT {
      HostOrder(m.(word := 2), e[..2]);
      PrefixBound(e[..2], 2);
      Pow2Table();
    }
  }
}
