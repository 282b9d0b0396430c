/**
 * The RAPL zones and the power-limit register of each
 * (msr/raplcap-msr.c, `zone_to_msr_offset` and `is_short_term_allowed`).
 */
module Zones {
  import opened Errors

  /**
   * A `raplcap_zone` value: one of the five zones the library knows, or
   * any other value of the enumeration's underlying integer type.
   */
  datatype Zone = Package | Core | Uncore | Dram | Psys | Other(value: int)

  /** MSR_RAPL_POWER_UNIT: where the power, energy and time units are kept. */
  const PowerUnitMsr: nat := 0x606
  /** MSR_PKG_POWER_LIMIT */
  const PkgPowerLimitMsr: nat := 0x610
  /** MSR_PP0_POWER_LIMIT */
  const Pp0PowerLimitMsr: nat := 0x638
  /** MSR_PP1_POWER_LIMIT */
  const Pp1PowerLimitMsr: nat := 0x640
  /** MSR_DRAM_POWER_LIMIT */
  const DramPowerLimitMsr: nat := 0x618
  /** MSR_PLATFORM_POWER_LIMIT */
  const PlatformPowerLimitMsr: nat := 0x65C

  /** The zone whose power-limit register sits at `offset`, if any. */
  function ZoneOfOffset(offset: int): Option<Zone>
  {
    if offset == PkgPowerLimitMsr then Some(Package)
    else if offset == Pp0PowerLimitMsr then Some(Core)
    else if offset == Pp1PowerLimitMsr then Some(Uncore)
    else if offset == DramPowerLimitMsr then Some(Dram)
    else if offset == PlatformPowerLimitMsr then Some(Psys)
    else None
  }

  /**
   * `zone_to_msr_offset`: the power-limit register of a known zone; any
   * other zone value is refused with EINVAL (the C function returns -1).
   * Distinct zones get distinct registers, none of them the unit register.
   */
  function ZoneToMsrOffset(zone: Zone): (r: Result<nat>)
    ensures r.Err? <==> zone.Other?
    ensures r.Err? ==> r.error == EINVAL
    ensures r.Ok? ==> ZoneOfOffset(r.value) == Some(zone) && r.value != PowerUnitMsr
  {
    match zone
    case Package => Ok(PkgPowerLimitMsr)
    case Core => Ok(Pp0PowerLimitMsr)
    case Uncore => Ok(Pp1PowerLimitMsr)
    case Dram => Ok(DramPowerLimitMsr)
    case Psys => Ok(PlatformPowerLimitMsr)
    case Other(_) => Err(EINVAL)
  }

  /** Every power-limit register belongs to the zone the reverse table names. */
  lemma OffsetOfZoneOfOffset(offset: int)
    ensures ZoneOfOffset(offset).Some? ==> ZoneToMsrOffset(ZoneOfOffset(offset).value) == Ok(offset)
  {
  }

  /** Two zones share a register only if they are the same zone. */
  lemma OffsetsDistinct(z1: Zone, z2: Zone)
    requires ZoneToMsrOffset(z1).Ok? && ZoneToMsrOffset(z1) == ZoneToMsrOffset(z2)
    ensures z1 == z2
  {
    assert ZoneOfOffset(ZoneToMsrOffset(z1).value) == Some(z1);
    assert ZoneOfOffset(ZoneToMsrOffset(z2).value) == Some(z2);
  }

  /**
   * `is_short_term_allowed`: only the package and platform registers carry
   * a second (short-term) power limit. The C function asserts on any
   * other zone value, so callers pass a known zone.
   */
  function IsShortTermAllowed(zone: Zone): (r: bool)
    requires !zone.Other?
    ensures r <==> ZoneToMsrOffset(zone) in {Ok(PkgPowerLimitMsr), Ok(PlatformPowerLimitMsr)}
  {
    match zone
    case Package => true
    case Psys => true
    case Core => false
    case Uncore => false
    case Dram => false
  }
}
