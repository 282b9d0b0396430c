/**
 * The layout of the RAPL registers as the engine reads and writes them
 * (Intel 64 and IA-32 Architectures Software Developer's Manual, section
 * 14.9.3, "Package RAPL Domain"), and the pure computations
 * `raplcap_is_zone_enabled`, `raplcap_set_zone_enabled`,
 * `raplcap_get_limits` and `raplcap_set_limits` perform on one word.
 *
 * A power-limit register holds up to two constraints. The long-term one
 * has its power limit in bits 14:0, its enable bit at 15, its clamping
 * bit at 16 and its time window in bits 23:17 (Y in 21:17, F in 23:22);
 * the short-term one, present in the package and platform registers only,
 * has the same fields 32 bits higher.
 */
module Registers {
  import opened Arith
  import opened BitField
  import opened Units
  import opened Errors

  /** A `raplcap_limit`: a time window and a power limit. */
  datatype Limit = Limit(seconds: real, watts: real)

  // ---------------------------------------------------------------------
  // The unit register

  /** Exponent of the power unit, bits 3:0 of MSR_RAPL_POWER_UNIT (`msrval & 0xf`). */
  function PowerUnitExp(w: u64): (e: nat)
    ensures e < 16
  {
    GetBits(w, 0, 3)
  }

  /** Exponent of the time unit, bits 19:16 of MSR_RAPL_POWER_UNIT (`(msrval >> 16) & 0xf`). */
  function TimeUnitExp(w: u64): (e: nat)
    ensures e < 16
  {
    GetBits(w, 16, 19)
  }

  /** Both exponents are read back from a unit register that was given them. */
  lemma UnitExponentsRoundTrip(w: u64, p: nat, t: nat)
    requires p < 16 && t < 16
    ensures PowerUnitExp(ReplaceBits(ReplaceBits(w, p, 0, 3), t, 16, 19)) == p
    ensures TimeUnitExp(ReplaceBits(ReplaceBits(w, p, 0, 3), t, 16, 19)) == t
  {
    var w1 := ReplaceBits(w, p, 0, 3);
    GetReplaced(w, p, 0, 3);
    GetOtherField(w1, t, 16, 19, 0, 3);
    GetReplaced(w1, t, 16, 19);
    ModOfSmall(p, 16);
    ModOfSmall(t, 16);
  }

  // ---------------------------------------------------------------------
  // Enable and clamping bits

  /**
   * The value `raplcap_is_zone_enabled` computes from the word: both the
   * enable and clamping bits of every constraint the zone has, or else
   * (with a warning that clamping is off) the enable bits alone.
   */
  function ZoneEnabled(w: u64, shortTerm: bool): bool
  {
    var ret := GetBits(w, 15, 16) == 3 && (if shortTerm then GetBits(w, 47, 48) == 3 else true);
    if !ret && GetBits(w, 15, 15) == 1 && (if shortTerm then GetBits(w, 47, 47) == 1 else true)
    then true
    else ret
  }

  /** Bits 1:0 of a 2-bit field set to 3 include bit 0. */
  lemma BothBitsSet(w: u64, first: nat)
    requires first + 1 < 64
    requires GetBits(w, first, first + 1) == 3
    ensures Bit(w, first)
  {
    GetBitsOfField(w, first, first + 1, 0, 0);
  }

  /**
   * So a zone counts as enabled exactly when the enable bit of each of its
   * constraints is set; the clamping bits only decide the warning.
   */
  lemma ZoneEnabledIsEnableBits(w: u64, shortTerm: bool)
    ensures ZoneEnabled(w, shortTerm) <==> Bit(w, 15) && (shortTerm ==> Bit(w, 47))
  {
    if GetBits(w, 15, 16) == 3 {
      BothBitsSet(w, 15);
    }
    if GetBits(w, 47, 48) == 3 {
      BothBitsSet(w, 47);
    }
  }

  /** The value `raplcap_set_zone_enabled` writes into each enable/clamping pair. */
  function EnabledBits(enabled: bool): u64
  {
    if enabled then 3 else 0
  }

  /** Positions `raplcap_set_zone_enabled` may change. */
  function EnableSpan(shortTerm: bool): set<nat>
  {
    Span(15, 16) + (if shortTerm then Span(47, 48) else {})
  }

  /** The word `raplcap_set_zone_enabled` writes back after reading w. */
  function EnabledWord(w: u64, shortTerm: bool, enabled: bool): u64
  {
    var w1 := ReplaceBits(w, EnabledBits(enabled), 15, 16);
    if shortTerm then ReplaceBits(w1, EnabledBits(enabled), 47, 48) else w1
  }

  /**
   * Bits 16:15, and bits 48:47 when the zone has a short-term constraint,
   * hold 3 when enabling and 0 when disabling; no other bit changes.
   */
  lemma EnabledWordFields(w: u64, shortTerm: bool, enabled: bool)
    ensures GetBits(EnabledWord(w, shortTerm, enabled), 15, 16) == EnabledBits(enabled)
    ensures shortTerm ==> GetBits(EnabledWord(w, shortTerm, enabled), 47, 48) == EnabledBits(enabled)
    ensures !shortTerm ==> GetBits(EnabledWord(w, shortTerm, enabled), 47, 48) == GetBits(w, 47, 48)
    ensures AgreeOutside(w, EnabledWord(w, shortTerm, enabled), EnableSpan(shortTerm))
  {
    var d := EnabledBits(enabled);
    var w1 := ReplaceBits(w, d, 15, 16);
    GetReplaced(w, d, 15, 16);
    ModOfSmall(d, 4);
    ReplaceAgreesOutside(w, d, 15, 16);
    GetOtherField(w, d, 15, 16, 47, 48);
    if shortTerm {
      GetReplaced(w1, d, 47, 48);
      GetOtherField(w1, d, 47, 48, 15, 16);
      ReplaceAgreesOutside(w1, d, 47, 48);
      AgreeOutsideTrans(w, w1, EnabledWord(w, shortTerm, enabled), Span(15, 16), Span(47, 48));
    }
  }

  /** Reading the enabled state of the word just written gives what was set. */
  lemma EnabledWordReadsBack(w: u64, shortTerm: bool, enabled: bool)
    ensures ZoneEnabled(EnabledWord(w, shortTerm, enabled), shortTerm) == enabled
  {
    var r := EnabledWord(w, shortTerm, enabled);
    EnabledWordFields(w, shortTerm, enabled);
    ZoneEnabledIsEnableBits(r, shortTerm);
    GetBitsOfField(r, 15, 16, 0, 0);
    GetBitsOfField(r, 47, 48, 0, 0);
  }

  /** Setting the enabled state twice is setting it once. */
  lemma EnabledWordIdempotent(w: u64, shortTerm: bool, enabled: bool)
    ensures EnabledWord(EnabledWord(w, shortTerm, enabled), shortTerm, enabled) == EnabledWord(w, shortTerm, enabled)
  {
    var d := EnabledBits(enabled);
    var r := EnabledWord(w, shortTerm, enabled);
    EnabledWordFields(w, shortTerm, enabled);
    ReplaceWithOwnBits(r, 15, 16);
    if shortTerm {
      ReplaceWithOwnBits(r, 47, 48);
    }
  }

  // ---------------------------------------------------------------------
  // Power limits and time windows

  /** Lowest bit of the long-term power field and of the long-term time window. */
  const LongPowerBit: nat := 0
  const LongTimeBit: nat := 17
  /** Lowest bit of the short-term power field and of the short-term time window. */
  const ShortPowerBit: nat := 32
  const ShortTimeBit: nat := 49

  /** The limit one constraint of w imposes: 15 power bits from pb, 7 time bits (Y, then F) from tb. */
  function DecodeLimit(w: u64, pb: nat, tb: nat, pe: nat, te: nat): Limit
    requires pb + 14 < 64 && tb + 6 < 64
  {
    Limit(FromMsrTime(GetBits(w, tb, tb + 4), GetBits(w, tb + 5, tb + 6), te),
          PowerWatts(GetBits(w, pb, pb + 14), pe))
  }

  /** The long-term limit `raplcap_get_limits` reports. */
  function LongTermLimit(w: u64, pe: nat, te: nat): Limit
  {
    DecodeLimit(w, LongPowerBit, LongTimeBit, pe, te)
  }

  /** The short-term limit `raplcap_get_limits` reports. */
  function ShortTermLimit(w: u64, pe: nat, te: nat): Limit
  {
    DecodeLimit(w, ShortPowerBit, ShortTimeBit, pe, te)
  }

  /**
   * One constraint of `raplcap_set_limits`: a positive power replaces the
   * 15-bit power field and a positive time replaces the 7-bit time window;
   * a zero or negative value leaves its field as it was.
   */
  function EncodeLimit(w: u64, l: Limit, pb: nat, tb: nat, pe: nat, te: nat): u64
    requires pb + 14 < tb && tb + 6 < 64
  {
    var w1 := if l.watts > 0.0 then ReplaceBits(w, ToMsrPower(l.watts, pe), pb, pb + 14) else w;
    if l.seconds > 0.0 then ReplaceBits(w1, TimeCode(l.seconds, te), tb, tb + 6) else w1
  }

  /** The word `raplcap_set_limits` writes back after reading w. */
  function LimitsWord(w: u64, shortTerm: bool, pe: nat, te: nat, long: Option<Limit>, short: Option<Limit>): u64
  {
    var w1 := if long.Some? then EncodeLimit(w, long.value, LongPowerBit, LongTimeBit, pe, te) else w;
    if short.Some? && shortTerm then EncodeLimit(w1, short.value, ShortPowerBit, ShortTimeBit, pe, te) else w1
  }

  /** Positions one constraint of `raplcap_set_limits` may change. */
  function LimitSpan(l: Limit, pb: nat, tb: nat): set<nat>
  {
    (if l.watts > 0.0 then Span(pb, pb + 14) else {}) + (if l.seconds > 0.0 then Span(tb, tb + 6) else {})
  }

  /** Positions `raplcap_set_limits` may change. */
  function LimitsSpan(shortTerm: bool, long: Option<Limit>, short: Option<Limit>): set<nat>
  {
    (if long.Some? then LimitSpan(long.value, LongPowerBit, LongTimeBit) else {})
    + (if short.Some? && shortTerm then LimitSpan(short.value, ShortPowerBit, ShortTimeBit) else {})
  }

  /** What one constraint writes into its own fields. */
  lemma EncodeLimitFields(w: u64, l: Limit, pb: nat, tb: nat, pe: nat, te: nat)
    requires pb + 14 < tb && tb + 6 < 64
    ensures GetBits(EncodeLimit(w, l, pb, tb, pe, te), pb, pb + 14)
            == if l.watts > 0.0 then ToMsrPower(l.watts, pe) else GetBits(w, pb, pb + 14)
    ensures GetBits(EncodeLimit(w, l, pb, tb, pe, te), tb, tb + 6)
            == if l.seconds > 0.0 then TimeCode(l.seconds, te) else GetBits(w, tb, tb + 6)
  {
    var w1 := if l.watts > 0.0 then ReplaceBits(w, ToMsrPower(l.watts, pe), pb, pb + 14) else w;
    if l.watts > 0.0 {
      Pow2Literal15();
      GetReplaced(w, ToMsrPower(l.watts, pe), pb, pb + 14);
      ModOfSmall(ToMsrPower(l.watts, pe), Pow2(15));
      GetOtherField(w, ToMsrPower(l.watts, pe), pb, pb + 14, tb, tb + 6);
    }
    if l.seconds > 0.0 {
      var c := TimeCode(l.seconds, te);
      GetReplaced(w1, c, tb, tb + 6);
      Pow2Literal7();
      ModOfSmall(c, Pow2(7));
      GetOtherField(w1, c, tb, tb + 6, pb, pb + 14);
    }
  }

  /** One constraint writes nowhere but the fields it was given a value for. */
  lemma EncodeLimitAgrees(w: u64, l: Limit, pb: nat, tb: nat, pe: nat, te: nat)
    requires pb + 14 < tb && tb + 6 < 64
    ensures AgreeOutside(w, EncodeLimit(w, l, pb, tb, pe, te), LimitSpan(l, pb, tb))
  {
    var w1 := if l.watts > 0.0 then ReplaceBits(w, ToMsrPower(l.watts, pe), pb, pb + 14) else w;
    if l.watts > 0.0 {
      ReplaceAgreesOutside(w, ToMsrPower(l.watts, pe), pb, pb + 14);
    }
    if l.seconds > 0.0 {
      ReplaceAgreesOutside(w1, TimeCode(l.seconds, te), tb, tb + 6);
      AgreeOutsideTrans(w, w1, EncodeLimit(w, l, pb, tb, pe, te),
                        if l.watts > 0.0 then Span(pb, pb + 14) else {}, Span(tb, tb + 6));
    }
  }

  lemma Pow2Literal15()
    ensures Pow2(15) == 0x8000
  {
    Pow2Add(7, 8);
    Pow2Add(4, 4);
    Pow2Add(3, 4);
    Pow2Add(2, 2);
    Pow2Add(1, 2);
    Pow2Add(1, 1);
  }

  lemma Pow2Literal7()
    ensures Pow2(7) == 128
  {
    Pow2Add(3, 4);
    Pow2Add(2, 2);
    Pow2Add(1, 2);
    Pow2Add(1, 1);
  }

  /** One constraint leaves every field outside its own bits pb..tb+6 as it was. */
  lemma EncodeLimitOther(w: u64, l: Limit, pb: nat, tb: nat, pe: nat, te: nat, first: nat, last: nat)
    requires pb + 14 < tb && tb + 6 < 64
    requires first <= last < 64 && (last < pb || tb + 6 < first)
    ensures GetBits(EncodeLimit(w, l, pb, tb, pe, te), first, last) == GetBits(w, first, last)
  {
    var w1 := if l.watts > 0.0 then ReplaceBits(w, ToMsrPower(l.watts, pe), pb, pb + 14) else w;
    if l.watts > 0.0 {
      GetOtherField(w, ToMsrPower(l.watts, pe), pb, pb + 14, first, last);
    }
    if l.seconds > 0.0 {
      GetOtherField(w1, TimeCode(l.seconds, te), tb, tb + 6, first, last);
    }
  }

  /**
   * `raplcap_set_limits` changes only the fields it was given a positive
   * value for, and the short-term ones only when the zone has them: every
   * other bit of the word is preserved.
   */
  lemma LimitsWordAgrees(w: u64, shortTerm: bool, pe: nat, te: nat, long: Option<Limit>, short: Option<Limit>)
    ensures AgreeOutside(w, LimitsWord(w, shortTerm, pe, te, long, short), LimitsSpan(shortTerm, long, short))
  {
    var w1 := if long.Some? then EncodeLimit(w, long.value, LongPowerBit, LongTimeBit, pe, te) else w;
    var c1 := if long.Some? then LimitSpan(long.value, LongPowerBit, LongTimeBit) else {};
    if long.Some? {
      EncodeLimitAgrees(w, long.value, LongPowerBit, LongTimeBit, pe, te);
    }
    if short.Some? && shortTerm {
      EncodeLimitAgrees(w1, short.value, ShortPowerBit, ShortTimeBit, pe, te);
      AgreeOutsideTrans(w, w1, LimitsWord(w, shortTerm, pe, te, long, short), c1,
                        LimitSpan(short.value, ShortPowerBit, ShortTimeBit));
    }
  }

  /**
   * Each power field and time window of the word `raplcap_set_limits`
   * writes either holds the encoded request or keeps its old bits.
   */
  lemma LimitsWordFields(w: u64, shortTerm: bool, pe: nat, te: nat, long: Option<Limit>, short: Option<Limit>)
    ensures GetBits(LimitsWord(w, shortTerm, pe, te, long, short), 0, 14)
            == if long.Some? && long.value.watts > 0.0 then ToMsrPower(long.value.watts, pe) else GetBits(w, 0, 14)
    ensures GetBits(LimitsWord(w, shortTerm, pe, te, long, short), 17, 23)
            == if long.Some? && long.value.seconds > 0.0 then TimeCode(long.value.seconds, te) else GetBits(w, 17, 23)
    ensures GetBits(LimitsWord(w, shortTerm, pe, te, long, short), 32, 46)
            == if short.Some? && shortTerm && short.value.watts > 0.0 then ToMsrPower(short.value.watts, pe)
               else GetBits(w, 32, 46)
    ensures GetBits(LimitsWord(w, shortTerm, pe, te, long, short), 49, 55)
            == if short.Some? && shortTerm && short.value.seconds > 0.0 then TimeCode(short.value.seconds, te)
               else GetBits(w, 49, 55)
  {
    var w1 := if long.Some? then EncodeLimit(w, long.value, LongPowerBit, LongTimeBit, pe, te) else w;
    if long.Some? {
      LongFields(w, pe, te, long.value);
    }
    if short.Some? && shortTerm {
      ShortFields(w1, pe, te, short.value);
    }
  }

  /** The long-term step: its two fields hold the request or their old bits; the short-term fields are untouched. */
  lemma LongFields(w: u64, pe: nat, te: nat, l: Limit)
    ensures GetBits(EncodeLimit(w, l, LongPowerBit, LongTimeBit, pe, te), 0, 14)
            == if l.watts > 0.0 then ToMsrPower(l.watts, pe) else GetBits(w, 0, 14)
    ensures GetBits(EncodeLimit(w, l, LongPowerBit, LongTimeBit, pe, te), 17, 23)
            == if l.seconds > 0.0 then TimeCode(l.seconds, te) else GetBits(w, 17, 23)
    ensures GetBits(EncodeLimit(w, l, LongPowerBit, LongTimeBit, pe, te), 32, 46) == GetBits(w, 32, 46)
    ensures GetBits(EncodeLimit(w, l, LongPowerBit, LongTimeBit, pe, te), 49, 55) == GetBits(w, 49, 55)
  {
    EncodeLimitFields(w, l, LongPowerBit, LongTimeBit, pe, te);
    EncodeLimitOther(w, l, LongPowerBit, LongTimeBit, pe, te, 32, 46);
    EncodeLimitOther(w, l, LongPowerBit, LongTimeBit, pe, te, 49, 55);
  }

  /** The short-term step: its two fields hold the request or their old bits; the long-term fields are untouched. */
  lemma ShortFields(w: u64, pe: nat, te: nat, l: Limit)
    ensures GetBits(EncodeLimit(w, l, ShortPowerBit, ShortTimeBit, pe, te), 0, 14) == GetBits(w, 0, 14)
    ensures GetBits(EncodeLimit(w, l, ShortPowerBit, ShortTimeBit, pe, te), 17, 23) == GetBits(w, 17, 23)
    ensures GetBits(EncodeLimit(w, l, ShortPowerBit, ShortTimeBit, pe, te), 32, 46)
            == if l.watts > 0.0 then ToMsrPower(l.watts, pe) else GetBits(w, 32, 46)
    ensures GetBits(EncodeLimit(w, l, ShortPowerBit, ShortTimeBit, pe, te), 49, 55)
            == if l.seconds > 0.0 then TimeCode(l.seconds, te) else GetBits(w, 49, 55)
  {
    EncodeLimitFields(w, l, ShortPowerBit, ShortTimeBit, pe, te);
    EncodeLimitOther(w, l, ShortPowerBit, ShortTimeBit, pe, te, 0, 14);
    EncodeLimitOther(w, l, ShortPowerBit, ShortTimeBit, pe, te, 17, 23);
  }

  /** A 7-bit time window is its 5-bit Y plus 32 times its 2-bit F. */
  lemma TimeFieldSplit(w: u64, tb: nat)
    requires tb + 6 < 64
    ensures GetBits(w, tb, tb + 6) == GetBits(w, tb, tb + 4) + 32 * GetBits(w, tb + 5, tb + 6)
  {
    var x := GetBits(w, tb, tb + 6);
    Pow2Literal7();
    GetBitsOfField(w, tb, tb + 6, 0, 4);
    GetBitsOfField(w, tb, tb + 6, 5, 6);
    assert GetBits(x, 0, 4) == x % 32;
    assert GetBits(x, 5, 6) == (x / 32) % 4;
    ModOfSmall(x / 32, 4);
  }

  /**
   * What `raplcap_get_limits` reports after `raplcap_set_limits`: each
   * field that was given a value reads back as that value rounded down to
   * the units the register holds (see ToMsrPower and TimeCodeBrackets).
   */
  lemma LimitsReadBack(w: u64, shortTerm: bool, pe: nat, te: nat, long: Option<Limit>, short: Option<Limit>)
    ensures var r := LimitsWord(w, shortTerm, pe, te, long, short);
      long.Some? && long.value.watts > 0.0 ==>
        LongTermLimit(r, pe, te).watts == PowerWatts(ToMsrPower(long.value.watts, pe), pe)
    ensures var r := LimitsWord(w, shortTerm, pe, te, long, short);
      long.Some? && long.value.seconds > 0.0 ==>
        var c := TimeCode(long.value.seconds, te);
        LongTermLimit(r, pe, te).seconds == FromMsrTime(c % 32, c / 32, te)
    ensures var r := LimitsWord(w, shortTerm, pe, te, long, short);
      short.Some? && shortTerm && short.value.watts > 0.0 ==>
        ShortTermLimit(r, pe, te).watts == PowerWatts(ToMsrPower(short.value.watts, pe), pe)
    ensures var r := LimitsWord(w, shortTerm, pe, te, long, short);
      short.Some? && shortTerm && short.value.seconds > 0.0 ==>
        var c := TimeCode(short.value.seconds, te);
        ShortTermLimit(r, pe, te).seconds == FromMsrTime(c % 32, c / 32, te)
  {
    var r := LimitsWord(w, shortTerm, pe, te, long, short);
    LimitsWordFields(w, shortTerm, pe, te, long, short);
    TimeFieldSplit(r, LongTimeBit);
    TimeFieldSplit(r, ShortTimeBit);
    if long.Some? && long.value.seconds > 0.0 {
      var c := TimeCode(long.value.seconds, te);
      DivModUnique(c, 32, GetBits(r, 22, 23), GetBits(r, 17, 21));
    }
    if short.Some? && shortTerm && short.value.seconds > 0.0 {
      var c := TimeCode(short.value.seconds, te);
      DivModUnique(c, 32, GetBits(r, 54, 55), GetBits(r, 49, 53));
    }
  }

  /** Writing back the limit one constraint reports leaves the word as it was. */
  lemma EncodeDecodedLimit(w: u64, pb: nat, tb: nat, pe: nat, te: nat)
    requires pb + 14 < tb && tb + 6 < 64
    ensures EncodeLimit(w, DecodeLimit(w, pb, tb, pe, te), pb, tb, pe, te) == w
  {
    PowerOfDecoded(w, pb, pe);
    TimeOfDecoded(w, tb, te);
  }

  /** The power field reported, written back, leaves the word as it was. */
  lemma PowerOfDecoded(w: u64, pb: nat, pe: nat)
    requires pb + 14 < 64
    ensures var watts := PowerWatts(GetBits(w, pb, pb + 14), pe);
            watts >= 0.0 && (watts > 0.0 ==> ReplaceBits(w, ToMsrPower(watts, pe), pb, pb + 14) == w)
  {
    var raw := GetBits(w, pb, pb + 14);
    Pow2Literal15();
    PowerRoundTrip(raw, pe);
    ReplaceWithOwnBits(w, pb, pb + 14);
  }

  /** The time window reported, written back, leaves the word as it was. */
  lemma TimeOfDecoded(w: u64, tb: nat, te: nat)
    requires tb + 6 < 64
    ensures ReplaceBits(w, TimeCode(FromMsrTime(GetBits(w, tb, tb + 4), GetBits(w, tb + 5, tb + 6), te), te), tb, tb + 6) == w
  {
    var y, f := GetBits(w, tb, tb + 4), GetBits(w, tb + 5, tb + 6);
    assert Pow2(5) == 32 && Pow2(2) == 4;
    TimeCodeRoundTrip(y, f, te);
    TimeFieldSplit(w, tb);
    ReplaceWithOwnBits(w, tb, tb + 6);
  }

  /**
   * Setting the limits `raplcap_get_limits` reports writes back the word
   * they were read from.
   */
  lemma SetLimitsReadLeavesWord(w: u64, shortTerm: bool, pe: nat, te: nat)
    ensures LimitsWord(w, shortTerm, pe, te, Some(LongTermLimit(w, pe, te)), Some(ShortTermLimit(w, pe, te))) == w
  {
    EncodeDecodedLimit(w, LongPowerBit, LongTimeBit, pe, te);
    EncodeDecodedLimit(w, ShortPowerBit, ShortTimeBit, pe, te);
  }
}
