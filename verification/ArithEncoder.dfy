/** The arithmetic encoding routines of jcarith.c on fixed-width registers. */
module ArithEncoder {
  import opened Arith
  import opened Bytes
  import opened QmTable
  import opened QmInterval
  import opened QmTermination
  import opened Carry

  /** `digits` extracted bytes and the register `c` with `ct` shifts to go write the unbounded low end. */
  ghost predicate Matches(k: Coder, digits: seq<Byte>, c: int, ct: int) {
    && 0 <= c && 0 <= ct <= 11
    && 16 + k.shifts == 8 * |digits| + 27 - ct
    && k.low == Value(digits) * Pow2(27 - ct) + c
    && (c + k.width) * Pow2(ct) <= 0x9000000
    && (digits != [] ==> ct <= 8)
    && k.low + k.width <= Pow2(16 + k.shifts)
    && k.width > 0
  }

  /** A renormalization shift of the registers is a renormalization shift of the interval. */
  lemma ShiftMatches(k: Coder, digits: seq<Byte>, c: int, ct: int)
    requires Matches(k, digits, c, ct) && 1 <= ct
    ensures Matches(k.(low := 2 * k.low, width := 2 * k.width, shifts := k.shifts + 1),
                    digits, 2 * c, ct - 1)
  {
    hide Pow2, Value;
    Pow2Double(ct);
    MulSwap(c + k.width, 2, Pow2(ct - 1));
    MulAssoc(2, c + k.width, Pow2(ct - 1));
    Pow2Double(28 - ct);
    MulSwap(Value(digits), 2, Pow2(27 - ct));
    Pow2Double(17 + k.shifts);
  }

  /** The spacer bits: at extraction the byte exceeds 0xFF by at most 0x20, and only over a byte that can take a carry. */
  lemma SpacerBits(k: Coder, digits: seq<Byte>, c: int)
    requires Matches(k, digits, c, 0)
    ensures 0 <= c / 0x80000 <= 0x11F
    ensures 256 * Value(digits) + c / 0x80000 < Pow2(8 * (|digits| + 1))
  {
    Pow2Table();
    Pow2Add(8 * (|digits| + 1), 19);
    var t := 256 * Value(digits) + c / 0x80000;
    assert t * 0x80000 <= k.low < Pow2(8 * (|digits| + 1)) * 0x80000;
  }

  /** Extracting the byte `c >> 19` and keeping the low 19 bits. */
  lemma ExtractMatches(k: Coder, digits: seq<Byte>, c: int, more: seq<Byte>)
    requires Matches(k, digits, c, 0)
    requires |more| == |digits| + 1 && Value(more) == 256 * Value(digits) + c / 0x80000
    requires k.width <= 0x10000
    ensures Matches(k, more, c % 0x80000, 8)
  {
    Pow2Table();
  }

  /** A subinterval keeps the extracted bytes; only the register moves. */
  lemma NarrowMatches(k: Coder, r: Coder, digits: seq<Byte>, c: int, ct: int)
    requires Matches(k, digits, c, ct)
    requires r.shifts == k.shifts && 0 < r.width
    requires k.low <= r.low && r.low + r.width <= k.low + k.width
    ensures Matches(r, digits, c + (r.low - k.low), ct)
  {
    MulMono(c + (r.low - k.low) + r.width, c + k.width, Pow2(ct));
  }

  lemma CancelShift(v: nat, x: nat, d: nat, p: nat, r: nat, w: nat)
    requires p > 0 && r * p == 0x800 && w * p == 0x8000000
    requires d * 0x800 == v * 0x8000000 + x * p
    ensures v * w + x == d * r
  {
    MulAssoc(v, w, p);
    MulAssoc(d, r, p);
    var f := v * w + x;
    var g := d * r;
    assert f * p == (v * w) * p + x * p;
    MulCancel(f, g, p);
    MulCancel(g, f, p);
  }

  lemma FinalPicked(k: Coder, digits: seq<Byte>, c: int, ct: int)
    requires Matches(k, digits, c, ct) && QmInterval.Valid(k)
    ensures Final(k) == Value(digits) * Pow2(27 - ct) + Pick(c, k.width)
  {
    assert Pow2(16) == 0x10000 by { Pow2Table(); }
    Pow2Add(11 - ct, 16);
    MulAssoc(Value(digits), Pow2(11 - ct), 0x10000);
    PickShift(c, Value(digits) * Pow2(11 - ct), k.width);
  }

  /** With its two last bytes the register writes the final number, up to the bits below them. */
  lemma FinalNumber(k: Coder, digits: seq<Byte>, c: int, ct: int, d: nat)
    requires Matches(k, digits, c, ct) && QmInterval.Valid(k) && 1 <= ct
    requires d * 0x800 == Value(digits) * 0x8000000 + Pick(c, k.width) * Pow2(ct)
    ensures Final(k) == d * Pow2(11 - ct)
  {
    FinalPicked(k, digits, c, ct);
    hide Value, Pick, Final;
    Pow2Table();
    hide Pow2;
    Pow2Add(11 - ct, ct);
    Pow2Add(27 - ct, ct);
    CancelShift(Value(digits), Pick(c, k.width), d, Pow2(ct), Pow2(11 - ct), Pow2(27 - ct));
  }

  /** Bytes to which `e` bits are missing write their number shifted up by `e`. */
  lemma Scaled(s: seq<Byte>, shifts: nat, e: nat)
    requires 8 * |s| + e == 16 + shifts
    ensures |s| <= BytesFor(shifts)
    ensures Prefix(s, BytesFor(shifts)) == Value(s) * Pow2(e) * Unit(shifts, BytesFor(shifts))
  {
    var m := BytesFor(shifts);
    var f := 8 * m - 16 - shifts;
    PrefixPastEnd(s, m);
    Pow2Add(e, f);
    hide Pow2, Value, Prefix;
    assert 8 * (m - |s|) == e + f;
    MulAssoc(Value(s), Pow2(e), Pow2(f));
  }

  /** The register-level final number has two more bytes, and is the unbounded one. */
  lemma FinalBytes(k: Coder, digits: seq<Byte>, c: int, ct: int, d2: seq<Byte>)
    requires Matches(k, digits, c, ct) && QmInterval.Valid(k) && 1 <= ct
    requires |d2| == |digits| + 2
    requires Value(d2) * 0x800 == Value(digits) * 0x8000000 + Pick(c, k.width) * Pow2(ct)
    ensures |d2| <= BytesFor(k.shifts)
    ensures Prefix(d2, BytesFor(k.shifts)) == Final(k) * Unit(k.shifts, BytesFor(k.shifts))
  {
    hide Pow2, Prefix, Final, Value, Pick, Unit, Qe;
    FinalNumber(k, digits, c, ct, Value(d2));
    Scaled(d2, k.shifts, 11 - ct);
  }

  lemma ScaledMultiple(x: nat, p: nat)
    requires x % 0x8000 == 0
    ensures x * p % 0x800 == 0
  {
    var z := x / 0x8000;
    MulAssoc(0x8000, z, p);
    var w := z * p;
    assert x * p == 0x8000 * w;
    Division(0x8000 * w, 0x800, 16 * w, 0);
  }

  /** The shifted final number leaves room for two bytes and has no bits below them. */
  lemma FinalRoom(k: Coder, digits: seq<Byte>, c: int, ct: int)
    requires Matches(k, digits, c, ct) && QmInterval.Valid(k) && 1 <= ct
    ensures 0 <= c && 0x8000 <= k.width
    ensures 0 <= Pick(c, k.width) * Pow2(ct) < 0x10000000
    ensures Pick(c, k.width) * Pow2(ct) % 0x800 == 0
  {
    hide Pow2, Value, Qe;
    MulMono(Pick(c, k.width), c + k.width, Pow2(ct));
    ScaledMultiple(Pick(c, k.width), Pow2(ct));
  }

  lemma FullCannotCarry(k: Coder, digits: seq<Byte>, c: int, ct: int)
    requires Matches(k, digits, c, ct) && QmInterval.Valid(k) && 1 <= ct
    requires Value(digits) + 1 == Pow2(8 * |digits|)
    ensures Pick(c, k.width) * Pow2(ct) < 0x8000000
  {
    hide Pow2, Value, Qe;
    Pow2Add(8 * |digits|, 27 - ct);
    MulNext(Value(digits), Pow2(27 - ct));
    Pow2Add(27 - ct, ct);
    assert Pow2(27) == 0x8000000 by { Pow2Table(); }
    MulNext(Pick(c, k.width), Pow2(ct));
    MulMono(Pick(c, k.width) + 1, Pow2(27 - ct), Pow2(ct));
  }

  /** A final carry finds a byte that can take it: none comes while only 0xFF bytes are held. */
  lemma FinalCarry(k: Coder, emitted: seq<Byte>, zc: nat, buffer: int, sc: nat, c: int, ct: int)
    requires -1 <= buffer < 0xFF && (buffer == -1 ==> emitted == [] && zc == 0)
    requires Matches(k, Digits(emitted, zc, buffer, sc), c, ct) && QmInterval.Valid(k) && 1 <= ct
    ensures buffer == -1 ==> Pick(c, k.width) * Pow2(ct) < 0x8000000
  {
    if buffer == -1 {
      FullStack(sc);
      assert Digits(emitted, zc, buffer, sc) == Repeat(0xFF, sc);
      FullCannotCarry(k, Repeat(0xFF, sc), c, ct);
    }
  }

  function Tail1(c: nat): Byte { c / 0x80000 % 0x100 }

  function Tail2(c: nat): Byte { c / 0x800 % 0x100 }

  lemma TailSplit(c: nat)
    ensures c / 0x800 % 0x10000 == Tail1(c) * 0x100 + Tail2(c)
  {
    assert c / 0x80000 == c / 0x800 / 0x100;
  }

  lemma TailJoin(c: nat)
    requires c % 0x800 == 0
    ensures c == (c / 0x8000000) * 0x8000000 + (c / 0x800 % 0x10000) * 0x800
  {
    var e := c / 0x800;
    Division(c, 0x8000000, e / 0x10000, (e % 0x10000) * 0x800);
  }

  /** Two more bytes take the rest of the final number, after its carry. */
  lemma TwoBytes(s: seq<Byte>, v: nat, c: nat)
    requires c % 0x800 == 0 && Value(s) == v + c / 0x8000000
    ensures Value(s + [Tail1(c)] + [Tail2(c)]) * 0x800 == v * 0x8000000 + c
  {
    hide Prefix, Value;
    ValueSnoc(s, Tail1(c));
    ValueSnoc(s + [Tail1(c)], Tail2(c));
    TailSplit(c);
    hide Tail1, Tail2;
    TailJoin(c);
  }

  class Encoder {
    var c: int       // C register, base of the coding interval
    var a: int       // A register, normalized size of the coding interval
    var sc: nat      // stacked 0xFF bytes, which might overflow
    var zc: nat      // pending 0x00 bytes, which might be discarded at the end
    var ct: int      // shifts until the next byte is extracted
    var buffer: int  // most recent extracted byte other than 0xFF, -1 if none
    var out: seq<Byte>
    const stats: array<Byte>

    ghost var prior: seq<Byte>    // written before the current coding segment
    ghost var emitted: seq<Byte>  // written in this segment, before stuffing
    ghost var bins0: seq<Byte>    // the statistics bins at the start of the segment
    ghost var log: seq<Decision>  // the decisions coded in this segment
    ghost var interval: Coder     // the unbounded coder after these decisions

    constructor (stats: array<Byte>)
      requires ValidBins(stats[..])
      ensures Valid() && this.stats == stats && out == prior == [] && log == [] && bins0 == stats[..]
    {
      this.stats := stats;
      c, a, sc, zc, ct, buffer := 0, 0x10000, 0, 0, 11, -1;
      out, prior, emitted, log := [], [], [], [];
      bins0, interval := stats[..], Start(stats[..]);
      new;
      assert Stuff([]) == [];
      FreshValid();
    }

    ghost predicate Written()
      reads this
    {
      out == prior + Stuff(emitted)
    }

    ghost predicate Pending()
      reads this
    {
      && Written() && Trimmed(emitted)
      && -1 <= buffer < 0xFF
      && (buffer == -1 ==> emitted == [] && zc == 0)
    }

    /** The registers and the bytes so far are in step with the interval. */
    ghost predicate Coupled()
      reads this
    {
      && Pending() && 1 <= ct
      && a == interval.width
      && Matches(interval, Digits(emitted, zc, buffer, sc), c, ct)
    }

    /** Holds between any two calls. */
    ghost predicate Valid()
      reads this, stats
    {
      && Coupled()
      && QmInterval.Valid(interval)
      && stats[..] == interval.bins && |bins0| == stats.Length
      && ValidBins(bins0) && Codable(bins0, log)
      && QmInterval.Valid(Start(bins0))
      && interval == Run(Start(bins0), log)
    }

    /** `emit_byte`. */
    method EmitByte(val: Byte)
      modifies this`out
      ensures out == old(out) + [val]
    {
      out := out + [val];
    }

    /** Writes a coded byte, and the stuffed zero if it is 0xFF. */
    method EmitCoded(val: Byte)
      requires Written()
      modifies this`out, this`emitted
      ensures Written() && emitted == old(emitted) + [val]
    {
      StuffSnoc(emitted, val);
      emitted := emitted + [val];
      EmitByte(val);
      if val == 0xFF {
        EmitByte(0x00);
      }
    }

    method EmitPendingZeros()
      requires Written()
      modifies this`out, this`emitted, this`zc
      ensures Written() && zc == 0 && emitted == old(emitted) + Repeat(0, old(zc))
    {
      while zc > 0
        invariant 0 <= zc <= old(zc)
        invariant Written() && emitted == old(emitted) + Repeat(0, old(zc) - zc)
      {
        RepeatSnoc(0, old(zc) - zc);
        EmitCoded(0x00);
        zc := zc - 1;
      }
    }

    method EmitStack()
      requires Written()
      modifies this`out, this`emitted, this`sc
      ensures Written() && sc == 0 && emitted == old(emitted) + Repeat(0xFF, old(sc))
    {
      while sc > 0
        invariant 0 <= sc <= old(sc)
        invariant Written() && emitted == old(emitted) + Repeat(0xFF, old(sc) - sc)
      {
        RepeatSnoc(0xFF, old(sc) - sc);
        EmitCoded(0xFF);
        sc := sc - 1;
      }
    }

    /** A carry goes over all stacked 0xFF bytes into the held byte. */
    method Overflow()
      requires Pending() && buffer >= 0
      modifies this`out, this`emitted, this`zc, this`sc
      ensures Written() && Trimmed(emitted) && sc == 0
      ensures var was := old(Digits(emitted, zc, buffer, sc));
        |emitted| + zc == |was| && Value(emitted + Repeat(0, zc)) == Value(was) + 1
    {
      ghost var head := emitted + Repeat(0, zc);
      CarryValue(head, buffer, sc);
      assert Digits(emitted, zc, buffer, sc) == head + [buffer] + Repeat(0xFF, sc);
      EmitPendingZeros();
      EmitCoded(buffer + 1);
      zc := zc + sc;
      sc := 0;
    }

    /** No carry can come any more: everything extracted so far except final zeros is written. */
    method Settle()
      requires Pending()
      modifies this`out, this`emitted, this`zc, this`sc
      ensures Written() && Trimmed(emitted) && sc == 0
      ensures emitted + Repeat(0, zc) == old(Digits(emitted, zc, buffer, sc))
    {
      ghost var was := Digits(emitted, zc, buffer, sc);
      if buffer == 0 {
        RepeatSnoc(0, zc);
        zc := zc + 1;
      } else if buffer >= 0 {
        EmitPendingZeros();
        EmitCoded(buffer);
      }
      assert emitted + Repeat(0, zc) + Repeat(0xFF, sc) == was;
      if sc > 0 {
        EmitPendingZeros();
        EmitStack();
      }
    }

    /** The byte `temp`, with a possible carry, is ready for output. */
    method ByteOut(temp: nat)
      requires Pending() && temp <= 0x11F && (temp > 0xFF ==> buffer >= 0)
      modifies this`out, this`emitted, this`zc, this`sc, this`buffer
      ensures Pending()
      ensures |Digits(emitted, zc, buffer, sc)| == |old(Digits(emitted, zc, buffer, sc))| + 1
      ensures Value(Digits(emitted, zc, buffer, sc)) == 256 * Value(old(Digits(emitted, zc, buffer, sc))) + temp
    {
      ghost var was := Digits(emitted, zc, buffer, sc);
      if temp > 0xFF {
        Overflow();
        buffer := temp % 0x100;
        ValueSnoc(emitted + Repeat(0, zc), buffer);
        assert Digits(emitted, zc, buffer, sc) == emitted + Repeat(0, zc) + [buffer];
      } else if temp == 0xFF {
        RepeatSnoc(0xFF, sc);
        sc := sc + 1;
        ValueSnoc(was, 0xFF);
        assert Digits(emitted, zc, buffer, sc) == was + [0xFF];
      } else {
        Settle();
        buffer := temp;
        ValueSnoc(was, buffer);
        assert Digits(emitted, zc, buffer, sc) == was + [buffer];
      }
    }

    /** One pass of the renormalization loop. */
    method Shift()
      requires Coupled() && a < 0x8000
      modifies this`c, this`a, this`ct, this`out, this`emitted, this`zc, this`sc, this`buffer, this`interval
      ensures Coupled()
      ensures interval == old(interval).(low := 2 * old(interval).low, width := 2 * old(interval).width,
                                         shifts := old(interval).shifts + 1)
    {
      hide Matches, Pow2, Value, Qe;
      ghost var digits := Digits(emitted, zc, buffer, sc);
      ShiftMatches(interval, digits, c, ct);
      interval := interval.(low := 2 * interval.low, width := 2 * interval.width, shifts := interval.shifts + 1);
      a := 2 * a;
      c := 2 * c;
      ct := ct - 1;
      if ct == 0 {
        SpacerBits(interval, digits, c);
        var temp := c / 0x80000;
        FullStack(sc);
        assert buffer == -1 ==> digits == Repeat(0xFF, sc);
        Pow2Byte(|digits|);
        ByteOut(temp);
        ExtractMatches(interval, digits, c, Digits(emitted, zc, buffer, sc));
        c := c % 0x80000;
        ct := ct + 8;
      }
    }

    /** Coding and estimation (sections D.1.4 and D.1.5 of T.81); true if renormalization is due. */
    method CodeSymbol(bin: nat, val: nat) returns (renorm: bool)
      requires Coupled() && QmInterval.Valid(interval) && stats[..] == interval.bins
      requires bin < stats.Length && val <= 1
      modifies this`c, this`a, this`interval, stats
      ensures Coupled() && interval == Narrow(old(interval), Decision(bin, val))
      ensures stats[..] == interval.bins
      ensures renorm <==> interval.width < 0x8000
    {
      hide TableRow, Matches, Digits, Value, Pow2, XorTop;
      ghost var k := interval;
      ghost var d := Decision(bin, val);
      interval := Narrow(k, d);
      NarrowMatches(k, interval, Digits(emitted, zc, buffer, sc), c, ct);
      var sv := stats[bin];
      TableClosed(sv);
      var qe := Aritab(sv % 0x80) / 0x10000;
      a := a - qe;
      if val != Mps(sv) {
        if a >= qe {
          c := c + a;
          a := qe;
        }
        stats[bin] := XorTop(sv, Aritab(sv % 0x80) % 0x100);
      } else {
        if a >= 0x8000 {
          assert interval.bins == k.bins;
          return false;
        }
        if a < qe {
          c := c + a;
          a := qe;
        }
        stats[bin] := XorTop(sv, Aritab(sv % 0x80) / 0x100 % 0x100);
      }
      return true;
    }

    /** `arith_encode`: codes the decision `val` with the statistics byte at `bin`. */
    method Encode(bin: nat, val: nat)
      requires Valid() && bin < stats.Length && val <= 1
      modifies this, stats
      ensures Valid() && prior == old(prior) && bins0 == old(bins0)
      ensures log == old(log) + [Decision(bin, val)]
      ensures interval == Step(old(interval), Decision(bin, val))
    {
      hide Narrow, Qe;
      ghost var k := interval;
      ghost var d := Decision(bin, val);
      RunSnoc(Start(bins0), log, d);
      log := log + [d];
      var renorm := CodeSymbol(bin, val);
      if !renorm {
        return;
      }
      while true
        invariant Coupled() && 0 < a < 0x8000
        invariant Renorm(interval) == Step(k, d)
        invariant stats[..] == interval.bins
        invariant bins0 == old(bins0) && prior == old(prior) && log == old(log) + [d]
        decreases 0x8000 - a
      {
        Shift();
        assert Renorm(interval) == Step(k, d);
        if a >= 0x8000 {
          break;
        }
      }
    }

    /** Chooses the final number and aligns it; the bytes extracted before take its carry. */
    method Conclude()
      requires Valid()
      modifies this`c, this`out, this`emitted, this`zc, this`sc
      ensures Written() && Trimmed(emitted)
      ensures 0 <= c && c % 0x800 == 0 && c == Pick(old(c), old(a)) * Pow2(old(ct))
      ensures var was := old(Digits(emitted, zc, buffer, sc));
        |emitted| + zc == |was| && Value(emitted + Repeat(0, zc)) == Value(was) + c / 0x8000000
    {
      hide Matches, Run, Pow2, Prefix, Digits, Qe;
      FinalRoom(interval, Digits(emitted, zc, buffer, sc), c, ct);
      FinalCarry(interval, emitted, zc, buffer, sc, c, ct);
      var temp := (a - 1 + c) / 0x10000 * 0x10000;
      c := if temp < c then temp + 0x8000 else temp;
      c := c * Pow2(ct);
      if c >= 0x8000000 {
        if buffer >= 0 {
          Overflow();
        }
      } else {
        Settle();
      }
    }

    /** Writes the last bytes, unless they and everything pending are zero. */
    method FlushTail() returns (ghost pad: nat)
      requires Written() && Trimmed(emitted) && 0 <= c
      modifies this`out, this`emitted, this`zc
      ensures Written() && Trimmed(emitted)
      ensures emitted + Repeat(0, pad) == old(emitted) + Repeat(0, old(zc)) + [Tail1(c)] + [Tail2(c)]
    {
      hide Tail1, Tail2;
      TailSplit(c);
      pad := zc + 2;
      RepeatSnoc(0, zc);
      RepeatSnoc(0, zc + 1);
      if c / 0x800 % 0x10000 != 0 {
        EmitPendingZeros();
        EmitCoded(Tail1(c));
        pad := 1;
        if Tail2(c) != 0 {
          EmitCoded(Tail2(c));
          pad := 0;
        }
      }
    }

    /** `finish_pass`: the bytes still needed to identify the final interval, and no more. */
    method FinishPass()
      requires Valid()
      modifies this`c, this`out, this`emitted, this`zc, this`sc
      ensures out == prior + Segment(bins0, log)
    {
      hide Matches, Run, Pow2, Prefix, Digits, Qe, Payload, Tail1, Tail2;
      ghost var digits := Digits(emitted, zc, buffer, sc);
      ghost var c0 := c;
      ghost var m := BytesFor(interval.shifts);
      Conclude();
      ghost var settled := emitted + Repeat(0, zc);
      ghost var d2 := settled + [Tail1(c)] + [Tail2(c)];
      TwoBytes(settled, Value(digits), c);
      FinalBytes(interval, digits, c0, ct, d2);
      ghost var pad := FlushTail();
      PadZeros(emitted, pad, m);
      PayloadPrefix(interval);
      TrimmedUnique(emitted, Payload(interval), m);
    }

    /** An encoder about to start a pass over `stats`, whose bytes are `bins`. */
    ghost predicate Fresh()
      reads this, stats
    {
      && c == 0 && a == 0x10000 && sc == 0 && zc == 0 && ct == 11 && buffer == -1
      && emitted == [] && log == [] && out == prior
      && bins0 == stats[..] && ValidBins(bins0) && interval == Start(bins0)
    }

    lemma FreshValid()
      requires Fresh()
      ensures Valid()
    {
      Pow2Table();
      assert Stuff([]) == [];
      assert Digits([], 0, -1, 0) == [];
    }

    /** Reset of the arithmetic encoding variables; a new coding segment starts here. */
    method Reset()
      requires ValidBins(stats[..])
      modifies this
      ensures Valid() && out == old(out) == prior && log == []
      ensures bins0 == stats[..]
    {
      c := 0;
      a := 0x10000;
      sc := 0;
      zc := 0;
      ct := 11;
      buffer := -1;
      emitted, log, prior := [], [], out;
      bins0 := stats[..];
      interval := Start(bins0);
      FreshValid();
    }
  }
}
