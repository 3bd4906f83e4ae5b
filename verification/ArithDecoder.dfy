/** The arithmetic decoding routine of jdarith.c: lazy renormalization, floating cut-point register. */
module ArithDecoder {
  import opened Arith
  import opened Bytes
  import opened QmTable
  import opened QmInterval
  import opened QmTermination

  // ---------------------------------------------------------------------------
  // Coded data in a byte stream
  // ---------------------------------------------------------------------------

  /** The first position from `pos` on that does not hold 0xFF. */
  function SkipFF(data: seq<Byte>, pos: nat): (q: nat)
    requires pos <= |data|
    ensures pos <= q <= |data|
    ensures q < |data| ==> data[q] != 0xFF
    decreases |data| - pos
  {
    if pos < |data| && data[pos] == 0xFF then SkipFF(data, pos + 1) else pos
  }

  /** A marker ends the coded data that starts at `pos`. */
  predicate Terminated(data: seq<Byte>, pos: nat)
    decreases |data| - pos
  {
    pos < |data| &&
    if data[pos] != 0xFF then Terminated(data, pos + 1)
    else
      var q := SkipFF(data, pos);
      q < |data| && (data[q] == 0 ==> Terminated(data, q + 1))
  }

  /** The coded data from `pos` up to the next marker, with stuffing removed. */
  function Unstuff(data: seq<Byte>, pos: nat): seq<Byte>
    requires Terminated(data, pos)
    decreases |data| - pos
  {
    if data[pos] != 0xFF then [data[pos]] + Unstuff(data, pos + 1)
    else
      var q := SkipFF(data, pos);
      if data[q] == 0 then [0xFF] + Unstuff(data, q + 1) else []
  }

  /** The position just after that marker. */
  function PastMarker(data: seq<Byte>, pos: nat): (q: nat)
    requires Terminated(data, pos)
    ensures pos < q <= |data| && data[q - 1] != 0 && data[q - 1] != 0xFF
    decreases |data| - pos
  {
    if data[pos] != 0xFF then PastMarker(data, pos + 1)
    else
      var q := SkipFF(data, pos);
      if data[q] == 0 then PastMarker(data, q + 1) else q + 1
  }

  /** What the reader makes of a marker, of a stuffed 0xFF and of any other byte. */
  lemma AtMarker(data: seq<Byte>, pos: nat)
    requires pos + 1 < |data| && data[pos] == 0xFF && data[pos + 1] != 0 && data[pos + 1] != 0xFF
    ensures Terminated(data, pos) && Unstuff(data, pos) == [] && PastMarker(data, pos) == pos + 2
  {
    assert SkipFF(data, pos + 1) == pos + 1;
  }

  lemma AtStuffed(data: seq<Byte>, pos: nat)
    requires pos + 1 < |data| && data[pos] == 0xFF && data[pos + 1] == 0 && Terminated(data, pos + 2)
    ensures Terminated(data, pos) && Unstuff(data, pos) == [0xFF] + Unstuff(data, pos + 2)
    ensures PastMarker(data, pos) == PastMarker(data, pos + 2)
  {
    assert SkipFF(data, pos + 1) == pos + 1;
  }

  lemma AtPlain(data: seq<Byte>, pos: nat)
    requires pos < |data| && data[pos] != 0xFF && Terminated(data, pos + 1)
    ensures Terminated(data, pos) && Unstuff(data, pos) == [data[pos]] + Unstuff(data, pos + 1)
    ensures PastMarker(data, pos) == PastMarker(data, pos + 1)
  {
  }

  /** Stuffing is undone by the decoder's reader, and hides no marker. */
  lemma {:induction false} UnstuffStuff(pre: seq<Byte>, s: seq<Byte>, marker: Byte, tail: seq<Byte>)
    requires marker != 0 && marker != 0xFF
    ensures var data := pre + Stuff(s) + [0xFF, marker] + tail;
      Terminated(data, |pre|) && Unstuff(data, |pre|) == s &&
      PastMarker(data, |pre|) == |pre + Stuff(s)| + 2
    decreases |s|
  {
    hide Terminated, Unstuff, PastMarker;
    var data := pre + Stuff(s) + [0xFF, marker] + tail;
    if s == [] {
      assert Stuff(s) == [];
      AtMarker(data, |pre|);
    } else {
      assert s == [s[0]] + s[1..];
      StuffCons(s[0], s[1..]);
      hide Stuff;
      var head := if s[0] == 0xFF then [0xFF, 0x00] else [s[0]];
      UnstuffStuff(pre + head, s[1..], marker, tail);
      assert (pre + head) + Stuff(s[1..]) == pre + Stuff(s);
      assert data[|pre|..|pre| + |head|] == head;
      if s[0] == 0xFF {
        assert data[|pre| + 1] == head[1];
        AtStuffed(data, |pre|);
      } else {
        AtPlain(data, |pre|);
      }
    }
  }

  // ---------------------------------------------------------------------------
  // Registers
  // ---------------------------------------------------------------------------

  /** The register holds what the fetched bytes say beyond the low end of the interval. */
  ghost predicate Holds(k: Coder, code: seq<Byte>, fetched: nat, c: int, ct: int) {
    && 0 <= ct <= 7 && k.width > 0
    && 8 * fetched == 16 + k.shifts + ct
    && c == Prefix(code, fetched) - k.low * Pow2(ct)
    && 0 <= c < k.width * Pow2(ct)
  }

  /** A shift without a fetch. */
  lemma ShiftHolds(k: Coder, code: seq<Byte>, fetched: nat, c: int, ct: int)
    requires Holds(k, code, fetched, c, ct) && 1 <= ct
    ensures Holds(k.(low := 2 * k.low, width := 2 * k.width, shifts := k.shifts + 1), code, fetched, c, ct - 1)
  {
    var p := Pow2(ct - 1);
    MulAssoc(k.low, 2, p);
    MulAssoc(k.width, 2, p);
  }

  /** A shift with a fetch. */
  lemma FetchHolds(k: Coder, code: seq<Byte>, fetched: nat, c: int)
    requires Holds(k, code, fetched, c, 0)
    ensures Holds(k.(low := 2 * k.low, width := 2 * k.width, shifts := k.shifts + 1), code, fetched + 1,
                  c * 256 + At(code, fetched), 7)
  {
    Pow2Table();
  }

  /** The register comparison decides the subinterval. */
  lemma CompareUpper(k: Coder, code: seq<Byte>, fetched: nat, c: int, ct: int, bin: nat)
    requires QmInterval.Valid(k) && bin < |k.bins| && Holds(k, code, fetched, c, ct)
    ensures c >= Rest(k, bin) * Pow2(ct) <==> InUpper(k, code, bin)
    ensures Contained(k, code)
  {
    hide Prefix, Pow2, Qe, Rest;
    assert fetched == BytesFor(k.shifts);
    assert (k.low + Rest(k, bin)) * Pow2(ct) == k.low * Pow2(ct) + Rest(k, bin) * Pow2(ct);
    assert (k.low + k.width) * Pow2(ct) == k.low * Pow2(ct) + k.width * Pow2(ct);
  }

  /** Taking a subinterval subtracts its offset from the register. */
  lemma CutHolds(k: Coder, code: seq<Byte>, fetched: nat, c: int, ct: int, bin: nat, upper: bool, bins: seq<Byte>)
    requires QmInterval.Valid(k) && bin < |k.bins| && Holds(k, code, fetched, c, ct)
    requires upper <==> c >= Rest(k, bin) * Pow2(ct)
    ensures Holds(Cut(k, bin, upper).(bins := bins), code, fetched, if upper then c - Rest(k, bin) * Pow2(ct) else c, ct)
  {
    hide Prefix, Pow2, Qe;
    var rest := Rest(k, bin);
    assert (k.low + rest) * Pow2(ct) == k.low * Pow2(ct) + rest * Pow2(ct);
    assert (k.width - rest) * Pow2(ct) == k.width * Pow2(ct) - rest * Pow2(ct);
  }

  class Decoder {
    var c: int             // C register, offset into the coding interval plus input bits
    var a: int             // A register, size of the coding interval
    var ct: int            // bits left in the bit buffer part of C; -16 before the first call
    var unreadMarker: nat  // a marker met in the data, 0 if none
    var pos: nat           // next input byte
    const data: seq<Byte>
    const stats: array<Byte>

    ghost var code: seq<Byte>   // the coded data of the segment
    ghost var fetched: nat      // how many bytes of it, zero-extended, were read
    ghost var raw: Coder        // the interval, possibly not yet renormalized
    ghost var interval: Coder   // the interval
    ghost var past: nat         // the position behind the marker that ends the segment

    /** What is still to be read is the rest of the code. */
    ghost predicate Reading()
      reads this`pos, this`unreadMarker, this`fetched, this`code, this`past
    {
      if unreadMarker == 0 then
        fetched <= |code| && Terminated(data, pos) && code[fetched..] == Unstuff(data, pos) && PastMarker(data, pos) == past
      else
        fetched >= |code| && 0 < pos == past <= |data| && data[pos - 1] == unreadMarker
    }

    /** The registers are in step with `raw`; before and between the two initial bytes A is 0. */
    ghost predicate Coupled()
      reads this
    {
      && Reading() && raw.width > 0
      && (ct == -16 || ct == -8 ==>
            a == 0 && fetched == (if ct == -16 then 0 else 1) && c == Prefix(code, fetched) && raw == Start(raw.bins))
      && (ct != -16 && ct != -8 ==> a == raw.width && Holds(raw, code, fetched, c, ct))
    }

    /** Holds between any two calls. */
    ghost predicate Valid()
      reads this, stats
    {
      && Coupled() && ct != -8
      && QmInterval.Valid(interval) && interval == Renorm(raw)
      && stats[..] == interval.bins
    }

    constructor (data: seq<Byte>, pos: nat, stats: array<Byte>)
      requires Terminated(data, pos) && ValidBins(stats[..])
      ensures Valid() && this.data == data && this.pos == pos && this.stats == stats && unreadMarker == 0
      ensures code == Unstuff(data, pos) && interval == Start(stats[..]) && past == PastMarker(data, pos)
    {
      this.data, this.pos, this.stats := data, pos, stats;
      c, a, ct, unreadMarker := 0, 0, -16, 0;
      code, fetched, past := Unstuff(data, pos), 0, PastMarker(data, pos);
      raw, interval := Start(stats[..]), Start(stats[..]);
      new;
      StartValid(stats[..]);
    }

    /** Behind a 0xFF, reads on past all further ones; the byte behind them. */
    method SkipFill() returns (b: Byte)
      requires 0 < pos <= |data| && data[pos - 1] == 0xFF && Terminated(data, pos - 1)
      modifies this`pos
      ensures old(pos) < pos <= |data| && b == data[pos - 1] && b != 0xFF
      ensures b != 0 ==> pos == PastMarker(data, old(pos) - 1)
      ensures b == 0 ==> Terminated(data, pos) && PastMarker(data, pos) == PastMarker(data, old(pos) - 1)
      ensures Unstuff(data, old(pos) - 1) == if b == 0 then [0xFF] + Unstuff(data, pos) else []
    {
      ghost var q := SkipFF(data, pos - 1);
      b := data[pos];
      pos := pos + 1;
      while b == 0xFF
        invariant old(pos) < pos <= q + 1 && b == data[pos - 1] && q == SkipFF(data, pos - 1) && q < |data|
        decreases |data| - pos
      {
        b := data[pos];
        pos := pos + 1;
      }
    }

    /** Fetches the next data byte: removes stuffing, supplies zeros from a marker on. */
    method GetData() returns (b: Byte)
      requires Reading()
      modifies this`pos, this`unreadMarker, this`fetched
      ensures Reading() && fetched == old(fetched) + 1 && b == At(code, old(fetched))
    {
      if unreadMarker != 0 {
        b := 0;
      } else {
        ghost var rest := Unstuff(data, pos);
        assert rest == code[fetched..];
        b := data[pos];
        pos := pos + 1;
        if b == 0xFF {
          b := SkipFill();
          if b == 0 {
            b := 0xFF;
          } else {
            unreadMarker := b;
            b := 0;
          }
        }
        hide Terminated, Unstuff, PastMarker;
        assert unreadMarker == 0 ==> rest == [b] + Unstuff(data, pos);
      }
      fetched := fetched + 1;
    }

    /** One turn of the renormalization loop (section D.2.6 of T.81). */
    method Shift()
      requires Coupled() && a < 0x8000
      modifies this`c, this`a, this`ct, this`pos, this`unreadMarker, this`fetched, this`raw
      ensures Coupled()
      ensures Renorm(raw) == Renorm(old(raw))
      ensures old(ct) == -16 ==> ct == -8
      ensures old(ct) == -8 ==> ct == 0 && a == 0x10000
      ensures old(ct) != -16 && old(ct) != -8 ==> ct >= 0 && a == 2 * old(a)
    {
      hide Pow2, Decoder.Reading;
      ghost var k := raw;
      ct := ct - 1;
      if ct < 0 {
        var b := GetData();
        if ct == -1 {
          FetchHolds(k, code, fetched - 1, c);
        }
        c := c * 256 + b;
        ct := ct + 8;
        if ct < 0 {
          ct := ct + 1;
          if ct == 0 {
            a := 0x8000;
            PrefixBound(code, 2);
            Pow2Table();
          }
        }
      } else {
        ShiftHolds(k, code, fetched, c, ct + 1);
      }
      a := 2 * a;
      if old(ct) >= 0 {
        raw := k.(low := 2 * k.low, width := 2 * k.width, shifts := k.shifts + 1);
      }
    }

    method Renormalize()
      requires Valid()
      modifies this`c, this`a, this`ct, this`pos, this`unreadMarker, this`fetched, this`raw
      ensures Valid() && raw == interval && ct >= 0
    {
      while a < 0x8000
        invariant Coupled() && interval == Renorm(raw)
        decreases if ct == -16 then 2 else if ct == -8 then 1 else 0, 0x8000 - a
      {
        Shift();
      }
    }

    /** The registers are in step with `k`, renormalized. */
    ghost predicate InStep(k: Coder)
      reads this
    {
      && QmInterval.Valid(k) && Reading() && ct >= 0 && a == k.width && Holds(k, code, fetched, c, ct)
    }

    /** `arith_decode`: the next decision for the statistics byte at `bin`. */
    method Decode(bin: nat) returns (val: nat)
      requires Valid() && bin < stats.Length
      modifies this, stats
      ensures Valid() && code == old(code) && past == old(past)
      ensures val == NextBit(old(interval), code, bin)
      ensures interval == Step(old(interval), Decision(bin, val))
    {
      Renormalize();
      assert InStep(interval);
      hide Step, NextBit, Narrow, Decoder.Reading, Holds, InStep, BytesFor;
      ghost var k := interval;
      StepValid(k, Decision(bin, NextBit(k, code, bin)));
      val := DecodeSymbol(bin, k);
      raw := Narrow(k, Decision(bin, val));
      interval := Step(k, Decision(bin, val));
      Lagging();
    }

    /** Between calls `interval` is ahead of the registers by a renormalization. */
    lemma Lagging()
      requires Reading() && 0 <= ct && a == raw.width && Holds(raw, code, fetched, c, ct)
      requires QmInterval.Valid(interval) && interval == Renorm(raw) && stats[..] == interval.bins
      ensures Valid()
    {
      hide Decoder.Reading;
    }

    /** Decision and estimation (sections D.2.4 and D.2.5 of T.81). */
    method DecodeSymbol(bin: nat, ghost k: Coder) returns (val: nat)
      requires InStep(k) && stats[..] == k.bins && bin < stats.Length
      modifies this`a, this`c, stats
      ensures val == NextBit(k, code, bin)
      ensures var r := Narrow(k, Decision(bin, val));
        a == r.width && Holds(r, code, fetched, c, ct) && stats[..] == r.bins
    {
      hide TableRow, Pow2, Prefix, Holds, Decoder.Reading, BytesFor, XorTop;
      var sv := stats[bin];
      TableClosed(sv);
      var qe := Aritab(sv % 0x80) / 0x10000;
      var temp := a - qe;
      a := temp;
      temp := temp * Pow2(ct);
      CompareUpper(k, code, fetched, c, ct, bin);
      ghost var d := Decision(bin, NextBit(k, code, bin));
      CutHolds(k, code, fetched, c, ct, bin, c >= temp, Narrow(k, d).bins);
      var exchange := false;
      if c >= temp {
        c := c - temp;
        if a < qe {
          a := qe;
          stats[bin] := XorTop(sv, Aritab(sv % 0x80) / 0x100 % 0x100);
        } else {
          a := qe;
          stats[bin] := XorTop(sv, Aritab(sv % 0x80) % 0x100);
          exchange := true;
        }
      } else if a < 0x8000 {
        if a < qe {
          stats[bin] := XorTop(sv, Aritab(sv % 0x80) % 0x100);
          exchange := true;
        } else {
          stats[bin] := XorTop(sv, Aritab(sv % 0x80) / 0x100 % 0x100);
        }
      }
      val := if exchange then 1 - Mps(sv) else Mps(sv);
    }

    /** Reads on to the next 0xFF. */
    method SkipData()
      requires Terminated(data, pos)
      modifies this`pos
      ensures old(pos) < pos <= |data| && data[pos - 1] == 0xFF
      ensures Terminated(data, pos - 1) && PastMarker(data, pos - 1) == PastMarker(data, old(pos))
    {
      var b := data[pos];
      pos := pos + 1;
      while b != 0xFF
        invariant old(pos) < pos <= |data| && b == data[pos - 1]
        invariant Terminated(data, pos - 1) && PastMarker(data, pos - 1) == PastMarker(data, old(pos))
        decreases |data| - pos
      {
        b := data[pos];
        pos := pos + 1;
      }
    }

    /** `next_marker`: skips what is left of the coded data, up to and including the marker that ends it. */
    method NextMarker()
      requires Reading() && unreadMarker == 0
      modifies this`pos, this`unreadMarker
      ensures pos == past && 0 < pos <= |data| && unreadMarker == data[pos - 1]
    {
      hide Unstuff;
      SkipData();
      var b := SkipFill();
      while b == 0
        invariant b != 0 ==> 0 < pos <= |data| && pos == past && b == data[pos - 1]
        invariant b == 0 ==> Terminated(data, pos) && PastMarker(data, pos) == past
        decreases |data| - pos
      {
        SkipData();
        b := SkipFill();
      }
      unreadMarker := b;
    }

    /** `process_restart`, after the marker: the next segment starts here, over the statistics as they are. */
    method Restart()
      requires Terminated(data, pos) && ValidBins(stats[..])
      modifies this
      ensures Valid() && pos == old(pos) && unreadMarker == 0 && past == PastMarker(data, pos)
      ensures code == Unstuff(data, pos) && interval == Start(stats[..])
    {
      c, a, ct, unreadMarker := 0, 0, -16, 0;
      code, fetched, past := Unstuff(data, pos), 0, PastMarker(data, pos);
      raw, interval := Start(stats[..]), Start(stats[..]);
      StartValid(stats[..]);
    }
  }
}
