/**
 * Masking of WebSocket payloads (section 5.3 of RFC 6455) byte by byte and a machine
 * word at a time, on either byte order and word size (frame.hpp).
 */
module FrameMask {
  import opened Arith
  import opened Bytes

  // ---------------------------------------------------------------------------
  // Bit operations
  // ---------------------------------------------------------------------------

  function Xor(a: nat, b: nat): nat
    decreases a + b
  {
    if a == 0 && b == 0 then 0
    else (if a % 2 == b % 2 then 0 else 1) + 2 * Xor(a / 2, b / 2)
  }

  function Or(a: nat, b: nat): nat
    decreases a + b
  {
    if a == 0 && b == 0 then 0
    else (if a % 2 == 0 && b % 2 == 0 then 0 else 1) + 2 * Or(a / 2, b / 2)
  }

  lemma {:induction false} XorSmall(a: nat, b: nat, n: nat)
    requires a < Pow2(n) && b < Pow2(n)
    ensures Xor(a, b) < Pow2(n)
  {
    if n > 0 {
      XorSmall(a / 2, b / 2, n - 1);
    }
  }

  /** Bit by bit: one exactly where the two differ. */
  lemma {:induction false} XorBits(a: nat, b: nat, i: nat)
    ensures Xor(a, b) / Pow2(i) % 2 == (if a / Pow2(i) % 2 == b / Pow2(i) % 2 then 0 else 1)
    decreases i
  {
    if i == 0 {
      assert Pow2(0) == 1;
    } else {
      hide Pow2, Xor;
      XorBits(a / 2, b / 2, i - 1);
      XorStep(a, b);
      assert Xor(a, b) / 2 == Xor(a / 2, b / 2);
      var p := Pow2(i - 1);
      Pow2Double(i);
      HalfFirst(Xor(a, b), p);
      HalfFirst(a, p);
      HalfFirst(b, p);
    }
  }

  lemma HalfFirst(a: nat, p: nat)
    requires p > 0
    ensures a / 2 / p == a / (2 * p)
  {
    var q: nat := a / 2 / p;
    var r := a / 2 - q * p;
    assert 0 <= r < p && a == (q * p + r) * 2 + a % 2;
    MulAssoc(2, p, q);
    assert q * (2 * p) == (q * p) * 2;
    Division(a, 2 * p, q, r * 2 + a % 2);
  }

  lemma {:induction false} XorTwice(a: nat, b: nat)
    ensures Xor(Xor(a, b), b) == a
    decreases a + b
  {
    if a != 0 || b != 0 {
      XorTwice(a / 2, b / 2);
    }
  }

  /** The low `n` bits do not meet the others. */
  lemma {:induction false} XorSplit(a: nat, b: nat, x: nat, y: nat, n: nat)
    requires x < Pow2(n) && y < Pow2(n)
    ensures Xor(a * Pow2(n) + x, b * Pow2(n) + y) == Xor(a, b) * Pow2(n) + Xor(x, y)
  {
    hide Xor, Pow2;
    if n > 0 {
      var p := Pow2(n - 1);
      Pow2Double(n);
      XorSplit(a, b, x / 2, y / 2, n - 1);
      TwiceProduct(a, p, Pow2(n));
      TwiceProduct(b, p, Pow2(n));
      TwiceProduct(Xor(a, b), p, Pow2(n));
      XorDouble(a * p, b * p, Xor(a, b) * p, x, y);
    } else {
      Pow2Table();
      XorUnit(a, b, Pow2(n));
    }
  }

  lemma XorUnit(a: nat, b: nat, p: nat)
    requires p == 1
    ensures Xor(a * p, b * p) == Xor(a, b) * p + Xor(0, 0)
  {
  }

  lemma TwiceProduct(a: nat, p: nat, q: nat)
    requires q == 2 * p
    ensures a * q == 2 * (a * p)
  {
  }

  lemma XorDouble(a: nat, b: nat, c: nat, x: nat, y: nat)
    requires Xor(a + x / 2, b + y / 2) == c + Xor(x / 2, y / 2)
    ensures Xor(2 * a + x, 2 * b + y) == 2 * c + Xor(x, y)
  {
    hide Xor;
    XorStep(2 * a + x, 2 * b + y);
    XorStep(x, y);
    assert (2 * a + x) / 2 == a + x / 2 && (2 * b + y) / 2 == b + y / 2;
  }

  lemma XorStep(a: nat, b: nat)
    ensures Xor(a, b) == (if a % 2 == b % 2 then 0 else 1) + 2 * Xor(a / 2, b / 2)
  {
  }

  lemma Halved(a: nat, x: nat, p: nat)
    ensures (a * (2 * p) + x) / 2 == a * p + x / 2 && (a * (2 * p) + x) % 2 == x % 2
  {
    assert a * (2 * p) == 2 * (a * p);
  }

  /** Or of numbers without common bits is their sum. */
  lemma {:induction false} OrDisjoint(a: nat, x: nat, n: nat)
    requires x < Pow2(n)
    ensures Or(a * Pow2(n), x) == a * Pow2(n) + x
  {
    if n > 0 {
      OrDisjoint(a, x / 2, n - 1);
      Halved(a, 0, Pow2(n - 1));
    } else {
      OrZero(a);
    }
  }

  lemma {:induction false} OrZero(a: nat)
    ensures Or(a, 0) == a
  {
    if a != 0 {
      OrZero(a / 2);
    }
  }

  function XorByte(a: Byte, b: Byte): Byte {
    XorSmall(a, b, 8);
    assert Pow2(8) == 0x100;
    Xor(a, b)
  }

  function XorBytes(s: seq<Byte>, t: seq<Byte>): (r: seq<Byte>)
    requires |s| == |t|
    ensures |r| == |s| && forall i :: 0 <= i < |s| ==> r[i] == XorByte(s[i], t[i])
  {
    seq(|s|, i requires 0 <= i < |s| => XorByte(s[i], t[i]))
  }

  /** Xor of numbers is xor of their bytes. */
  lemma {:induction false} XorValue(s: seq<Byte>, t: seq<Byte>)
    requires |s| == |t|
    ensures Xor(Value(s), Value(t)) == Value(XorBytes(s, t))
  {
    if s != [] {
      var n := |s| - 1;
      XorValue(s[..n], t[..n]);
      assert s == s[..n] + [s[n]] && t == t[..n] + [t[n]];
      ValueSnoc(s[..n], s[n]);
      ValueSnoc(t[..n], t[n]);
      assert Pow2(8) == 0x100;
      XorSplit(Value(s[..n]), Value(t[..n]), s[n], t[n], 8);
      assert XorBytes(s, t) == XorBytes(s[..n], t[..n]) + [XorByte(s[n], t[n])];
      ValueSnoc(XorBytes(s[..n], t[..n]), XorByte(s[n], t[n]));
    }
  }

  // ---------------------------------------------------------------------------
  // Machine words
  // ---------------------------------------------------------------------------

  /** The size of a machine word in bytes and the byte order. */
  datatype Machine = Machine(word: nat, littleEndian: bool)

  ghost predicate ValidMachine(m: Machine) {
    m.word == 4 || m.word == 8
  }

  function Rev(s: seq<Byte>): (r: seq<Byte>)
    ensures |r| == |s| && forall i :: 0 <= i < |s| ==> r[i] == s[|s| - 1 - i]
  {
    seq(|s|, i requires 0 <= i < |s| => s[|s| - 1 - i])
  }

  /** The word read from these bytes of memory. */
  function Load(m: Machine, s: seq<Byte>): nat {
    if m.littleEndian then Value(Rev(s)) else Value(s)
  }

  /** The bytes of memory that a word is written to. */
  function Store(m: Machine, w: nat): (s: seq<Byte>)
    ensures |s| == m.word
  {
    if m.littleEndian then Rev(ToBytes(w, m.word)) else ToBytes(w, m.word)
  }

  /** Memory holds the least significant byte of a word first on a little-endian machine, else last. */
  lemma StoreOrder(m: Machine, w: nat, i: nat)
    requires i < m.word
    ensures Store(m, w)[i] == w / Pow2(8 * (if m.littleEndian then i else m.word - 1 - i)) % 256
  {
    hide Pow2, ToBytes;
    BigEndian(w, m.word, if m.littleEndian then m.word - 1 - i else i);
  }

  lemma {:induction false} ToBytesOfValue(s: seq<Byte>)
    ensures ToBytes(Value(s), |s|) == s
  {
    if s != [] {
      var n := |s| - 1;
      assert s == s[..n] + [s[n]];
      ValueSnoc(s[..n], s[n]);
      ToBytesOfValue(s[..n]);
    }
  }

  lemma StoreLoad(m: Machine, s: seq<Byte>)
    requires |s| == m.word
    ensures Store(m, Load(m, s)) == s && Load(m, s) < Pow2(8 * m.word)
  {
    hide Pow2, Prefix, ToBytes;
    var b: seq<Byte> := if m.littleEndian then Rev(s) else s;
    ToBytesOfValue(b);
    PrefixBound(b, m.word);
    assert Rev(Rev(s)) == s;
  }

  lemma LoadStore(m: Machine, w: nat)
    requires w < Pow2(8 * m.word)
    ensures Load(m, Store(m, w)) == w
  {
    ToBytesValue(w, m.word);
    assert Rev(Rev(ToBytes(w, m.word))) == ToBytes(w, m.word);
  }

  /** Xor of words is xor of the bytes of memory. */
  lemma WordXor(m: Machine, s: seq<Byte>, w: nat)
    requires |s| == m.word && w < Pow2(8 * m.word)
    ensures Store(m, Xor(Load(m, s), w)) == XorBytes(s, Store(m, w))
  {
    var t := Store(m, w);
    LoadStore(m, w);
    if m.littleEndian {
      XorValue(Rev(s), Rev(t));
      assert XorBytes(Rev(s), Rev(t)) == Rev(XorBytes(s, t));
    } else {
      XorValue(s, t);
    }
    StoreLoad(m, XorBytes(s, t));
  }

  lemma {:induction false} ValueConcat(a: seq<Byte>, b: seq<Byte>)
    ensures Value(a + b) == Value(a) * Pow2(8 * |b|) + Value(b)
  {
    if b == [] {
      assert a + b == a && Pow2(0) == 1;
    } else {
      var n := |b| - 1;
      ValueConcat(a, b[..n]);
      assert b == b[..n] + [b[n]] && a + b == (a + b[..n]) + [b[n]];
      ValueSnoc(a + b[..n], b[n]);
      ValueSnoc(b[..n], b[n]);
      Pow2Byte(n);
      MulSwap(Value(a), 256, Pow2(8 * n));
    }
  }

  /** A circular shift of a number is a rotation of its bytes. */
  lemma RotateValue(s: seq<Byte>, j: nat)
    requires j <= |s|
    ensures Value(s) / Pow2(8 * (|s| - j)) == Value(s[..j])
    ensures Value(s) * Pow2(8 * j) % Pow2(8 * |s|) == Value(s[j..]) * Pow2(8 * j)
    ensures Or(Value(s[j..]) * Pow2(8 * j), Value(s[..j])) == Value(s[j..] + s[..j])
  {
    hide Pow2, Prefix;
    var lo, hi := Pow2(8 * j), Pow2(8 * (|s| - j));
    assert s == s[..j] + s[j..];
    ValueConcat(s[..j], s[j..]);
    PrefixBound(s[j..], |s| - j);
    PrefixBound(s[..j], j);
    Division(Value(s), hi, Value(s[..j]), Value(s[j..]));
    Pow2Add(8 * j, 8 * (|s| - j));
    MulMono(Value(s[j..]) + 1, hi, lo);
    MulNext(Value(s[j..]), lo);
    assert Value(s) * lo == Value(s[..j]) * (lo * hi) + Value(s[j..]) * lo by {
      MulAssoc(Value(s[..j]), hi, lo);
      assert (Value(s[..j]) * hi + Value(s[j..])) * lo == (Value(s[..j]) * hi) * lo + Value(s[j..]) * lo;
    }
    Division(Value(s) * lo, lo * hi, Value(s[..j]), Value(s[j..]) * lo);
    OrDisjoint(Value(s[j..]), Value(s[..j]), 8 * j);
    ValueConcat(s[j..], s[..j]);
  }

  // ---------------------------------------------------------------------------
  // Prepared keys
  // ---------------------------------------------------------------------------

  /** A masking key: the four bytes of its union. */
  type Key = s: seq<Byte> | |s| == 4 witness [0, 0, 0, 0]

  /** The word holds the key from its byte `off` on, over and over. */
  ghost predicate Prepared(m: Machine, w: nat, key: Key, off: nat) {
    && w < Pow2(8 * m.word)
    && forall i :: 0 <= i < m.word ==> Store(m, w)[i] == key[(off + i) % 4]
  }

  /** A left shift of a `bits`-bit word. */
  function Shl(w: nat, n: nat, bits: nat): nat {
    hide Pow2;
    MulSwap(w, 1, Pow2(n));
    w * Pow2(n) % Pow2(bits)
  }

  function Shr(w: nat, n: nat): nat {
    hide Pow2;
    w / Pow2(n)
  }

  /** `prepare_masking_key`. */
  function PrepareMaskingKey(m: Machine, key: Key): nat {
    var low := Load(m.(word := 4), key);
    if m.word == 8 then Or(Shl(low, 32, 64), low) else low
  }

  lemma PreparedKey(m: Machine, key: Key)
    requires ValidMachine(m)
    ensures Prepared(m, PrepareMaskingKey(m, key), key, 0)
  {
    hide Pow2, Prefix, Store, Load, Or, Shl, Rev;
    if m.word == 8 {
      KeyTwice(m, key);
      StoreLoad(m, key + key);
    } else {
      StoreLoad(m, key);
    }
  }

  lemma KeyTwice(m: Machine, key: Key)
    requires m.word == 8
    ensures PrepareMaskingKey(m, key) == Load(m, key + key)
  {
    hide Pow2, Prefix, Or, Shl;
    DoubledKey(if m.littleEndian then Rev(key) else key);
    assert Rev(key + key) == Rev(key) + Rev(key);
  }

  lemma DoubledKey(k: seq<Byte>)
    requires |k| == 4
    ensures Or(Shl(Value(k), 32, 64), Value(k)) == Value(k + k)
  {
    hide Pow2, Prefix;
    var low := Value(k);
    PrefixBound(k, 4);
    Pow2Add(32, 32);
    MulNext(low, Pow2(32));
    MulMono(low + 1, Pow2(32), Pow2(32));
    Division(low * Pow2(32), Pow2(64), 0, low * Pow2(32));
    OrDisjoint(low, low, 32);
    ValueConcat(k, k);
  }

  /** `circshift_prepared_key`. */
  function CircshiftPreparedKey(m: Machine, w: nat, offset: nat): nat
    requires offset < m.word
  {
    if offset == 0 then w
    else if m.littleEndian then
      Or(Shr(w, 8 * offset), Shl(w, 8 * (m.word - offset), 8 * m.word))
    else
      Or(Shl(w, 8 * offset, 8 * m.word), Shr(w, 8 * (m.word - offset)))
  }

  lemma {:induction false} OrSwap(a: nat, b: nat)
    ensures Or(a, b) == Or(b, a)
    decreases a + b
  {
    if a != 0 || b != 0 {
      OrSwap(a / 2, b / 2);
    }
  }

  lemma CircshiftBytes(m: Machine, w: nat, offset: nat)
    requires offset < m.word && w < Pow2(8 * m.word)
    ensures CircshiftPreparedKey(m, w, offset) == Load(m, Store(m, w)[offset..] + Store(m, w)[..offset])
  {
    hide Pow2, Prefix;
    var s := Store(m, w);
    LoadStore(m, w);
    if offset == 0 {
      assert s[0..] + s[..0] == s;
    } else if m.littleEndian {
      var j := m.word - offset;
      RotateValue(Rev(s), j);
      OrSwap(Shr(w, 8 * offset), Shl(w, 8 * j, 8 * m.word));
      assert Rev(s[offset..] + s[..offset]) == Rev(s)[j..] + Rev(s)[..j];
    } else {
      RotateValue(s, offset);
    }
  }

  /** Shifting a prepared key moves it on by as many bytes. */
  lemma CircshiftPrepared(m: Machine, w: nat, key: Key, off: nat, offset: nat)
    requires ValidMachine(m) && offset < m.word && Prepared(m, w, key, off)
    ensures Prepared(m, CircshiftPreparedKey(m, w, offset), key, off + offset)
  {
    hide Pow2, Prefix;
    var s := Store(m, w);
    CircshiftBytes(m, w, offset);
    var t := s[offset..] + s[..offset];
    StoreLoad(m, t);
    hide Store, CircshiftPreparedKey, Load;
    forall i | 0 <= i < m.word ensures t[i] == key[(off + offset + i) % 4] {
      if i < m.word - offset {
        assert t[i] == s[offset + i];
      } else {
        assert t[i] == s[i - (m.word - offset)];
      }
    }
  }

  /** A prepared key repeats every four bytes. */
  lemma PreparedAgain(m: Machine, w: nat, key: Key, off: nat, off2: nat)
    requires ValidMachine(m) && Prepared(m, w, key, off) && off % 4 == off2 % 4
    ensures Prepared(m, w, key, off2)
  {
    hide Store, Pow2;
    forall i | 0 <= i < m.word ensures Store(m, w)[i] == key[(off2 + i) % 4] {
      SameSum(off, off2, i);
    }
  }

  lemma SameSum(a: nat, b: nat, i: nat)
    requires a % 4 == b % 4
    ensures (a + i) % 4 == (b + i) % 4
  {
  }

  /** The low 32 bits of a prepared key, as a union: the same key. */
  lemma LowWord(m: Machine, w: nat, key: Key, off: nat)
    requires ValidMachine(m) && Prepared(m, w, key, off)
    ensures forall i :: 0 <= i < 4 ==> Store(m.(word := 4), w % Pow2(32))[i] == key[(off + i) % 4]
  {
    hide Pow2, Prefix;
    var m4 := m.(word := 4);
    var s := Store(m, w);
    LoadStore(m, w);
    var b: seq<Byte> := if m.littleEndian then Rev(s) else s;
    var low := b[m.word - 4..];
    assert b == b[..m.word - 4] + low;
    ValueConcat(b[..m.word - 4], low);
    PrefixBound(low, 4);
    Division(w, Pow2(32), Value(b[..m.word - 4]), Value(low));
    ToBytesOfValue(low);
  }

  // ---------------------------------------------------------------------------
  // Masking
  // ---------------------------------------------------------------------------

  /** Section 5.3 of RFC 6455: byte i of the data is combined with byte (off + i) mod 4 of the key. */
  function Masked(data: seq<Byte>, key: Key, off: nat): (r: seq<Byte>)
    ensures |r| == |data|
    ensures forall i :: 0 <= i < |data| ==> r[i] == XorByte(data[i], key[(off + i) % 4])
  {
    seq(|data|, i requires 0 <= i < |data| => XorByte(data[i], key[(off + i) % 4]))
  }

  /** Masking twice is the identity. */
  lemma MaskTwice(data: seq<Byte>, key: Key, off: nat)
    ensures Masked(Masked(data, key, off), key, off) == data
  {
    forall i | 0 <= i < |data| ensures Masked(Masked(data, key, off), key, off)[i] == data[i] {
      XorTwice(data[i], key[(off + i) % 4]);
    }
  }

  /** Masking in pieces, with the offset moved on, is masking the whole. */
  lemma MaskedConcat(a: seq<Byte>, b: seq<Byte>, key: Key, off: nat)
    ensures Masked(a + b, key, off) == Masked(a, key, off) + Masked(b, key, off + |a|)
  {
  }

  /** Bytes `at`..`at + n` of the output are the masked input; nothing else has changed. */
  ghost predicate Done(was: seq<Byte>, input: seq<Byte>, out: seq<Byte>, at: nat, n: nat, key: Key, off: nat) {
    && |out| == |was| && at + n <= |was| && at + n <= |input|
    && (forall k :: 0 <= k < at ==> out[k] == was[k])
    && (forall k :: at <= k < at + n ==> out[k] == XorByte(input[k], key[(off + (k - at)) % 4]))
    && (forall k :: at + n <= k < |out| ==> out[k] == was[k])
  }

  lemma DoneMasked(was: seq<Byte>, input: seq<Byte>, out: seq<Byte>, at: nat, n: nat, key: Key, off: nat)
    requires Done(was, input, out, at, n, key, off)
    ensures out == was[..at] + Masked(input[at..at + n], key, off) + was[at + n..]
  {
    var r := was[..at] + Masked(input[at..at + n], key, off) + was[at + n..];
    forall k | 0 <= k < |out| ensures out[k] == r[k] {
      if at <= k < at + n {
        assert r[k] == Masked(input[at..at + n], key, off)[k - at];
      }
    }
  }

  lemma NextIndex(x: nat)
    ensures (x + 1) % 4 == (x % 4 + 1) % 4
  {
  }

  /** `byte_mask` from the pointers `input + at` to `output + at`, which may be the same buffer. */
  method ByteMask(input: array<Byte>, output: array<Byte>, at: nat, length: nat, key: Key, keyOffset: nat)
    requires at + length <= input.Length && at + length <= output.Length
    modifies output
    ensures output[..] == old(output[..at]) + Masked(old(input[at..at + length]), key, keyOffset) + old(output[at + length..])
  {
    hide XorByte, Masked;
    var keyIndex := keyOffset % 4;
    for i := 0 to length
      invariant keyIndex == (keyOffset + i) % 4
      invariant Done(old(output[..]), old(input[..]), output[..], at, i, key, keyOffset)
      invariant forall k :: at + i <= k < at + length ==> input[k] == old(input[k])
    {
      output[at + i] := XorByte(input[at + i], key[keyIndex]);
      NextIndex(keyOffset + i);
      keyIndex := (keyIndex + 1) % 4;
    }
    DoneMasked(old(output[..]), old(input[..]), output[..], at, length, key, keyOffset);
  }

  /** `output_word[i] = input_word[i] ^ prepared_key` for the word at `pos`. */
  method MaskWord(m: Machine, input: array<Byte>, output: array<Byte>, pos: nat, w: nat)
    requires ValidMachine(m) && w < Pow2(8 * m.word)
    requires pos + m.word <= input.Length && pos + m.word <= output.Length
    modifies output
    ensures forall k :: 0 <= k < output.Length && !(pos <= k < pos + m.word) ==> output[k] == old(output[k])
    ensures forall k :: pos <= k < pos + m.word ==> output[k] == XorByte(old(input[k]), Store(m, w)[k - pos])
  {
    hide XorByte, Store, Load, Pow2, Xor;
    ghost var s := input[pos..pos + m.word];
    WordXor(m, s, w);
    var bytes := Store(m, Xor(Load(m, input[pos..pos + m.word]), w));
    for j := 0 to m.word
      invariant forall k :: 0 <= k < output.Length && !(pos <= k < pos + m.word) ==> output[k] == old(output[k])
      invariant forall k :: pos <= k < pos + j ==> output[k] == bytes[k - pos]
    {
      output[pos + j] := bytes[j];
    }
    assert forall k :: pos <= k < pos + m.word ==> s[k - pos] == old(input[k]);
  }

  /** The whole words of a buffer, with a prepared key. */
  method MaskWords(m: Machine, input: array<Byte>, output: array<Byte>, at: nat, n: nat, length: nat, w: nat,
                   ghost key: Key, ghost off: nat)
    requires ValidMachine(m) && Prepared(m, w, key, off)
    requires n * m.word <= length && at + length <= input.Length && at + length <= output.Length
    modifies output
    ensures Done(old(output[..]), old(input[..]), output[..], at, n * m.word, key, off)
    ensures forall k :: at + n * m.word <= k < at + length ==> input[k] == old(input[k])
  {
    hide XorByte, Store, Pow2;
    for i := 0 to n
      invariant Done(old(output[..]), old(input[..]), output[..], at, i * m.word, key, off)
      invariant forall k :: at + i * m.word <= k < at + length ==> input[k] == old(input[k])
    {
      MulNext(i, m.word);
      MulMono(i + 1, n, m.word);
      MaskWord(m, input, output, at + i * m.word, w);
      KeyInWord(m, w, key, off, i);
    }
  }

  lemma KeyInWord(m: Machine, w: nat, key: Key, off: nat, i: nat)
    requires ValidMachine(m) && Prepared(m, w, key, off)
    ensures forall j :: 0 <= j < m.word ==> Store(m, w)[j] == key[(off + (i * m.word + j)) % 4]
  {
    hide Store, Pow2;
    WholeWords(i, m.word);
    forall j | 0 <= j < m.word ensures Store(m, w)[j] == key[(off + (i * m.word + j)) % 4] {
      SameMod(off + j, i * m.word);
    }
  }

  lemma WholeWords(i: nat, word: nat)
    requires word == 4 || word == 8
    ensures i * word % 4 == 0
  {
    assert i * word == if word == 4 then 4 * i else 4 * (2 * i);
  }

  /** `word_mask_exact`. */
  method WordMaskExact(m: Machine, input: array<Byte>, output: array<Byte>, at: nat, length: nat, key: Key)
    requires ValidMachine(m) && at + length <= input.Length && at + length <= output.Length
    modifies output
    ensures output[..] == old(output[..at]) + Masked(old(input[at..at + length]), key, 0) + old(output[at + length..])
  {
    hide XorByte, Store, Pow2;
    PreparedKey(m, key);
    var w := PrepareMaskingKey(m, key);
    var n := length / m.word;
    MaskWords(m, input, output, at, n, length, w, key, 0);
    for i := n * m.word to length
      invariant Done(old(output[..]), old(input[..]), output[..], at, i, key, 0)
      invariant forall k :: at + i <= k < at + length ==> input[k] == old(input[k])
    {
      output[at + i] := XorByte(input[at + i], key[i % 4]);
    }
    DoneMasked(old(output[..]), old(input[..]), output[..], at, length, key, 0);
  }

  /** The partial word at the end, after `n` whole words. */
  method MaskRest(m: Machine, input: array<Byte>, output: array<Byte>, at: nat, n: nat, l: nat, w: nat,
                  ghost key: Key, ghost off: nat, ghost was: seq<Byte>, ghost data: seq<Byte>)
    requires ValidMachine(m) && Prepared(m, w, key, off) && l < m.word
    requires at + n * m.word + l <= input.Length && at + n * m.word + l <= output.Length
    requires Done(was, data, output[..], at, n * m.word, key, off) && |data| == input.Length
    requires forall k :: at + n * m.word <= k < at + n * m.word + l ==> input[k] == data[k]
    modifies output
    ensures output[..] == was[..at] + Masked(data[at..at + n * m.word + l], key, off) + was[at + n * m.word + l..]
  {
    hide XorByte, Store, Pow2;
    KeyInWord(m, w, key, off, n);
    var start := n * m.word;
    var byteKey := Store(m, w);
    for i := 0 to l
      invariant Done(was, data, output[..], at, start + i, key, off)
      invariant forall k :: at + start + i <= k < at + start + l ==> input[k] == data[k]
    {
      output[at + start + i] := XorByte(input[at + start + i], byteKey[i]);
    }
    DoneMasked(was, data, output[..], at, start + l, key, off);
  }

  lemma SameMod(x: nat, k: nat)
    requires k % 4 == 0
    ensures (x + k) % 4 == x % 4
  {
  }

  lemma WordsIn(length: nat, word: nat)
    requires word == 4 || word == 8
    ensures var n := length / word; n * word <= length < n * word + word && n * word % 4 == 0
  {
  }

  /** `word_mask_circ`. */
  method WordMaskCirc(m: Machine, input: array<Byte>, output: array<Byte>, at: nat, length: nat, w: nat,
                      ghost key: Key, ghost off: nat) returns (next: nat)
    requires ValidMachine(m) && Prepared(m, w, key, off)
    requires at + length <= input.Length && at + length <= output.Length
    modifies output
    ensures output[..] == old(output[..at]) + Masked(old(input[at..at + length]), key, off) + old(output[at + length..])
    ensures Prepared(m, next, key, off + length)
  {
    hide XorByte, Store, Pow2, Masked, Done, Prepared, CircshiftPreparedKey;
    var n := length / m.word;
    var l := length - n * m.word;
    WordsIn(length, m.word);
    KeyMoved(m, w, key, off, l, n * m.word);
    next := CircshiftPreparedKey(m, w, l);
    MaskWords(m, input, output, at, n, length, w, key, off);
    MaskRest(m, input, output, at, n, l, w, key, off, old(output[..]), old(input[..]));
  }

  /** The key moved on by `l` bytes, for a length that is a multiple of four longer. */
  lemma KeyMoved(m: Machine, w: nat, key: Key, off: nat, l: nat, whole: nat)
    requires ValidMachine(m) && Prepared(m, w, key, off) && l < m.word && whole % 4 == 0
    ensures Prepared(m, CircshiftPreparedKey(m, w, l), key, off + (whole + l))
  {
    hide Prepared, CircshiftPreparedKey;
    CircshiftPrepared(m, w, key, off, l);
    SameMod(off + l, whole);
    PreparedAgain(m, CircshiftPreparedKey(m, w, l), key, off + l, off + (whole + l));
  }

  lemma FourBytes(length: nat)
    ensures (length - length % 4) % 4 == 0
  {
  }

  /** `byte_mask_circ`. */
  method ByteMaskCirc(m: Machine, input: array<Byte>, output: array<Byte>, at: nat, length: nat, w: nat,
                      ghost key: Key, ghost off: nat) returns (next: nat)
    requires ValidMachine(m) && Prepared(m, w, key, off)
    requires at + length <= input.Length && at + length <= output.Length
    modifies output
    ensures output[..] == old(output[..at]) + Masked(old(input[at..at + length]), key, off) + old(output[at + length..])
    ensures Prepared(m, next, key, off + length)
  {
    var l := length % 4;
    hide Pow2, Prepared, CircshiftPreparedKey;
    FourBytes(length);
    KeyMoved(m, w, key, off, l, length - l);
    next := CircshiftPreparedKey(m, w, l);
    MaskUnion(m, input, output, at, length, w, key, off);
  }

  /** The bytes of the low 32 bits of the prepared key, over and over. */
  method MaskUnion(m: Machine, input: array<Byte>, output: array<Byte>, at: nat, length: nat, w: nat,
                   ghost key: Key, ghost off: nat)
    requires ValidMachine(m) && Prepared(m, w, key, off)
    requires at + length <= input.Length && at + length <= output.Length
    modifies output
    ensures output[..] == old(output[..at]) + Masked(old(input[at..at + length]), key, off) + old(output[at + length..])
  {
    hide XorByte, Store, Pow2;
    var union := Store(m.(word := 4), w % Pow2(32));
    LowWord(m, w, key, off);
    hide Prepared;
    for i := 0 to length
      invariant Done(old(output[..]), old(input[..]), output[..], at, i, key, off)
      invariant forall k :: at + i <= k < at + length ==> input[k] == old(input[k])
    {
      SameByte(off, i);
      output[at + i] := XorByte(input[at + i], union[i % 4]);
    }
    DoneMasked(old(output[..]), old(input[..]), output[..], at, length, key, off);
  }

  lemma SameByte(off: nat, i: nat)
    ensures (off + i % 4) % 4 == (off + i) % 4
  {
  }

  /**
   * A payload masked in place chunk by chunk, each chunk by either circular routine, the
   * key threaded through: one `byte_mask` pass over the whole.
   */
  method MaskChunks(m: Machine, data: array<Byte>, chunks: seq<nat>, wordwise: seq<bool>, key: Key)
    requires ValidMachine(m) && |wordwise| == |chunks| && Total(chunks) == data.Length
    modifies data
    ensures data[..] == Masked(old(data[..]), key, 0)
  {
    hide XorByte, Store, Pow2, Prepared, PrepareMaskingKey, Total, Masked, MaskedUpTo;
    PreparedKey(m, key);
    TotalEnds(chunks);
    var w := PrepareMaskingKey(m, key);
    var at := 0;
    ghost var was := data[..];
    MaskedEnds(was, data[..], key);
    for i := 0 to |chunks|
      invariant at == Total(chunks[..i]) && Prepared(m, w, key, at)
      invariant MaskedUpTo(was, data[..], at, key)
    {
      TotalStep(chunks, i);
      w := MaskChunk(m, data, at, chunks[i], w, key, wordwise[i], was);
      at := at + chunks[i];
    }
    MaskedEnds(was, data[..], key);
  }

  /** The payload with its first `at` bytes masked. */
  ghost predicate MaskedUpTo(was: seq<Byte>, now: seq<Byte>, at: nat, key: Key) {
    at <= |was| && now == Masked(was[..at], key, 0) + was[at..]
  }

  lemma MaskedEnds(was: seq<Byte>, now: seq<Byte>, key: Key)
    ensures now == was ==> MaskedUpTo(was, now, 0, key)
    ensures MaskedUpTo(was, now, |was|, key) ==> now == Masked(was, key, 0)
  {
    hide XorByte;
    assert was[..0] == [] && was[0..] == was && was[..|was|] == was && was[|was|..] == [];
    assert Masked([], key, 0) == [];
  }

  method MaskChunk(m: Machine, data: array<Byte>, at: nat, length: nat, w: nat, ghost key: Key, wordwise: bool,
                   ghost was: seq<Byte>) returns (next: nat)
    requires ValidMachine(m) && Prepared(m, w, key, at) && at + length <= data.Length == |was|
    requires MaskedUpTo(was, data[..], at, key)
    modifies data
    ensures MaskedUpTo(was, data[..], at + length, key)
    ensures Prepared(m, next, key, at + length)
  {
    hide XorByte, Store, Pow2, Prepared;
    ghost var before := data[..];
    if wordwise {
      next := WordMaskCirc(m, data, data, at, length, w, key, at);
    } else {
      next := ByteMaskCirc(m, data, data, at, length, w, key, at);
    }
    ChunkDone(was, before, data[..], at, length, key);
  }

  function Total(chunks: seq<nat>): nat {
    if chunks == [] then 0 else Total(chunks[..|chunks| - 1]) + chunks[|chunks| - 1]
  }

  lemma TotalEnds(chunks: seq<nat>)
    ensures Total(chunks[..0]) == 0 && chunks[..|chunks|] == chunks
  {
  }

  lemma {:induction false} TotalStep(chunks: seq<nat>, i: nat)
    requires i < |chunks|
    ensures Total(chunks[..i + 1]) == Total(chunks[..i]) + chunks[i] <= Total(chunks)
    decreases |chunks| - i
  {
    assert chunks[..i + 1][..i] == chunks[..i];
    if i + 1 < |chunks| {
      TotalStep(chunks, i + 1);
    } else {
      assert chunks[..i + 1] == chunks;
    }
  }

  lemma ChunkDone(data: seq<Byte>, before: seq<Byte>, after: seq<Byte>, at: nat, n: nat, key: Key)
    requires at + n <= |data| && before == Masked(data[..at], key, 0) + data[at..]
    requires after == before[..at] + Masked(before[at..at + n], key, at) + before[at + n..]
    ensures after == Masked(data[..at + n], key, 0) + data[at + n..]
  {
    hide XorByte;
    assert data[..at + n] == data[..at] + data[at..at + n];
    MaskedConcat(data[..at], data[at..at + n], key, 0);
    assert before[at..at + n] == data[at..at + n];
    assert before[at + n..] == data[at + n..];
  }
}
