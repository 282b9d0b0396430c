# RAPLCap MSR engine in Dafny

This project models the register engine of RAPLCap's MSR implementation
(`msr/raplcap-msr.c`). The engine caps the power of Intel processors by
reading and writing their RAPL power-limit registers through the Linux
`/dev/cpu/N/msr` devices. It follows the register layout of section 14.9.3
("Package RAPL Domain") of the Intel 64 and IA-32 Architectures Software
Developer's Manual.

The model has one module per part of the engine:

- `Arith` holds the `uint64_t` word type, `pow2_u64` as `Pow2`, and the
  division facts the bit-field proofs rest on.
- `BitField` models `get_bits` and `replace_bits` on a word. A shift is
  division by a power of two and a mask is a remainder. The module proves
  that replacing a field changes no other bit, reads back what was
  written, and is undone by writing back the field's own bits.
- `Zones` holds the zone table `zone_to_msr_offset` and
  `is_short_term_allowed`.
- `Units` covers `log2_u64`, `to_msr_power`, `to_msr_time` and
  `from_msr_time`.
  - `log2_u64` and `to_msr_time` are methods with the source's loop and
    reassignments. Each is proved equal to a specification function.
  - A unit 2^-e is kept as its exponent e. Watts and seconds are exact reals.
  - The module proves the clamps and the 15-bit and 7-bit bounds. It also
    proves that the encoded (Y, F) window is at most the clamped request and
    that the (Y, F+1) window is above it, and that decoding then encoding a
    code gives the code back.
- `Registers` describes the pure part of each operation on one power-limit
  word: the unit exponents, the enable and clamping bits, and the long-term
  and short-term constraints. It proves that each operation changes only
  the bits it is meant to, and that a read after a write gives back what
  was written.
- `Msr` is the operating system's side: a `Kernel` with each CPU's
  registers, the open descriptors and `open`/`close`/`pread`/`pwrite`.
- `Engine` holds the `raplcap` context and the `raplcap_msr` state as
  classes, with `raplcap_init`, `raplcap_destroy`, `raplcap_open_msrs`,
  `get_state` and the read-modify-write operations on a zone's register.

`count_sockets` and the shell pipeline `raplcap_open_msrs` reads are not
run. They appear as parameters: the socket count, or the error
`count_sockets` sets, and the list of (core, socket) lines the pipeline
printed.

## Model

| member | source | states |
|---|---|---|
| Arith.Pow2 | msr/raplcap-msr.c:198-201 | 2^y is positive; `Pow2Add` and `Pow2Mono` give its laws |
| Arith.Pow2BelowWord | msr/raplcap-msr.c:198-201 | for every shift count below 64, `pow2_u64` fits a word without overflow |
| BitField.GetBits | msr/raplcap-msr.c:313-317 | the field read is `(w >> first) mod 2^(last-first+1)`, so it is below 2^(last-first+1) |
| BitField.ReplaceBits | msr/raplcap-msr.c:319-325 | `replace_bits` of a word: the field `[first, last]` replaced by `d` modulo its width; `GetReplaced`, `ReplaceKeepsRest` and `ReplaceWithOwnBits` give its laws |
| BitField.GetBitsSplits | msr/raplcap-msr.c:313-317 | the word is the sum of its part above `last`, the field read at `first`, and its part below `first` |
| BitField.GetReplaced | msr/raplcap-msr.c:319-325 | after `replace_bits`, `get_bits` of the same range is `d mod 2^(last-first+1)` |
| BitField.ReplaceKeepsRest | msr/raplcap-msr.c:319-325 | `replace_bits` keeps the bits below `first` and above `last` |
| BitField.ReplaceWithOwnBits | msr/raplcap-msr.c:313-325 | `replace_bits(w, get_bits(w, f, l), f, l) == w` |
| BitField.GetOtherField | msr/raplcap-msr.c:313-325 | a field that does not overlap the replaced range reads the same before and after |
| BitField.ReplaceAgreesOutside | msr/raplcap-msr.c:319-325 | every bit outside `[first, last]` is unchanged by `replace_bits` |
| BitField.GetBitsOfField | msr/raplcap-msr.c:313-317 | the bits of a field that was read are the corresponding bits of the word |
| BitField.AgreeOutsideTrans | msr/raplcap-msr.c:319-325 | bits that two successive `replace_bits` calls both leave alone come through unchanged |
| BitField.GetBitsAsWritten | msr/raplcap-msr.c:313-317 | `get_bits` with the mask shift taken modulo 64, as x86 evaluates it |
| BitField.ReplaceBitsAsWritten | msr/raplcap-msr.c:319-325 | `replace_bits` with the mask shift taken modulo 64, as x86 evaluates it |
| BitField.AsWrittenAgreesBelowFullWidth | msr/raplcap-msr.c:313-325 | the shift-count-modulo-64 reading of the C code agrees with the intended one on every range narrower than 64 bits |
| BitField.FullWidthAsWritten | msr/raplcap-msr.c:313-325 | on the whole word, bits 63:0, the C code as the x86 processor runs it reads 0 and writes nothing; the intended functions read the word and write `d` |
| Zones.ZoneToMsrOffset | msr/raplcap-msr.c:90-107 | the five known zones map to 0x610, 0x638, 0x640, 0x618 and 0x65C; any other value fails with EINVAL; no zone maps to the unit register |
| Zones.OffsetOfZoneOfOffset | msr/raplcap-msr.c:90-107 | the reverse table gives each power-limit register back its zone |
| Zones.OffsetsDistinct | msr/raplcap-msr.c:90-107 | two zones share a register only if they are the same zone |
| Zones.IsShortTermAllowed | msr/raplcap-msr.c:297-310 | a zone has a short-term constraint exactly when its register is the package or the platform one |
| Units.FloorLog2Bounds | msr/raplcap-msr.c:203-210 | for y > 0, 2^r <= y < 2^(r+1) |
| Units.FloorLog2Unique | msr/raplcap-msr.c:203-210 | those bounds determine the logarithm |
| Units.Log2U64 | msr/raplcap-msr.c:203-210 | the shift-and-count loop returns floor(log2 y), 0 for y = 0, and the bracketing powers of two, below 64 |
| Units.ToMsrPower | msr/raplcap-msr.c:404-416 | the result is at most 0x7FFF; it is the floor of watts/unit whenever that floor fits; it never exceeds the request and is the largest value that does not, unless clamped |
| Units.PowerWatts | msr/raplcap-msr.c:432 | `power_units * get_bits(...)` with the unit 2^-e exact; `PowerRoundTrip` is its inverse law |
| Units.PowerRoundTrip | msr/raplcap-msr.c:404-416 | a 15-bit raw power decoded as `get_limits` does and then encoded again gives the same raw value |
| Units.ClampTicks | msr/raplcap-msr.c:384-394 | the window in time units is clamped into [1, 0xFFFFFFFF], and it is unchanged when it is already inside |
| Units.Ticks | msr/raplcap-msr.c:386 | `seconds / time_units` with the unit 2^-e exact; `TicksOfWindow` undoes `FromMsrTime` with it |
| Units.TimeY | msr/raplcap-msr.c:395-396 | Y is `log2_u64` of the truncated window; `TimeFieldsOf` bounds it and `TimeYOfWindow` inverts it |
| Units.TimeF | msr/raplcap-msr.c:397-398 | F is `(uint64_t)(4 t) / 2^Y - 4`; `TimeFieldsOf` bounds it and `TimeFOfWindow` inverts it |
| Units.WindowTicks | msr/raplcap-msr.c:373-376 | a (Y, F) window is a positive number of time units |
| Units.FromMsrTime | msr/raplcap-msr.c:373-376 | `2^Y * (1 + F/4) * time_unit` is positive |
| Units.TimeCode | msr/raplcap-msr.c:378-402 | the packed `Y | F << 5` code is below 128, so it fits bits 23:17 or 55:49 |
| Units.TimeFieldsOf | msr/raplcap-msr.c:395-398 | for a clamped window Y is at most 31 and F is in 0..3, and the window lies between the (Y, F) and (Y, F+1) windows |
| Units.CodeDigits | msr/raplcap-msr.c:401 | masking with 0x1F and 0x3 loses nothing while Y < 32 and F <= 3; the code is Y + 32 F |
| Units.PackTime | msr/raplcap-msr.c:401 | packing Y masked to 5 bits with F masked to 2 bits and shifted by 5 gives a code below 128 |
| Units.TimeCodeBrackets | msr/raplcap-msr.c:378-402 | `from_msr_time` of the code never exceeds the clamped request, and the next F step would exceed it |
| Units.BracketsOfClamped | msr/raplcap-msr.c:395-401 | for a clamped window, the (Y, F) window of its code is at most the window in seconds, and the (Y, F+1) window is above it |
| Units.SecondsBracket | msr/raplcap-msr.c:373-376 | dividing by the time unit keeps a window between its (Y, F) and (Y, F+1) bounds |
| Units.WindowInRange | msr/raplcap-msr.c:373-376 | a window with Y <= 31 and F <= 3 is within the clamp bounds and lies in [2^Y, 2^(Y+1)) time units |
| Units.TimeCodeRoundTrip | msr/raplcap-msr.c:373-402 | encoding the window that any 7-bit code denotes gives the same code back |
| Units.TicksOfWindow | msr/raplcap-msr.c:373-376 | the window of (Y, F) in seconds, divided by the time unit, is 2^Y (4+F)/4 time units again |
| Units.CodeOfWindow | msr/raplcap-msr.c:395-401 | for Y <= 31 and F <= 3, the code packed for the (Y, F) window is Y + 32 F |
| Units.TimeYOfWindow | msr/raplcap-msr.c:395-396 | the `log2_u64` step recovers Y from the (Y, F) window |
| Units.TimeFOfWindow | msr/raplcap-msr.c:397-398 | the `(4 t) / 2^y - 4` step recovers F from the (Y, F) window |
| Units.ToMsrTime | msr/raplcap-msr.c:378-402 | the clamping reassignments, the `log2_u64` call and the F computation compute `TimeCode` |
| Registers.PowerUnitExp | msr/raplcap-msr.c:239 | the power-unit exponent is bits 3:0 of the unit register, below 16 |
| Registers.TimeUnitExp | msr/raplcap-msr.c:240 | the time-unit exponent is bits 19:16 of the unit register, below 16 |
| Registers.UnitExponentsRoundTrip | msr/raplcap-msr.c:239-240 | a unit register holding exponents p and t reads back p and t |
| Registers.ZoneEnabled | msr/raplcap-msr.c:335-339 | the `ret` of `raplcap_is_zone_enabled`, including the warning branch that also sets it; `ZoneEnabledIsEnableBits` characterises it |
| Registers.BothBitsSet | msr/raplcap-msr.c:335 | a 2-bit field that reads 3 has its low bit set |
| Registers.ZoneEnabledIsEnableBits | msr/raplcap-msr.c:335-339 | a zone is reported enabled exactly when bit 15 is set and, for a zone with a short-term constraint, bit 47 too; the clamping bits only trigger the warning |
| Registers.EnabledWord | msr/raplcap-msr.c:344-355 | the word `raplcap_set_zone_enabled` writes; `EnabledWordFields`, `EnabledWordReadsBack` and `EnabledWordIdempotent` state its properties |
| Registers.EnabledWordFields | msr/raplcap-msr.c:344-355 | after `set_zone_enabled`, bits 16:15 hold 3 or 0; bits 48:47 hold the same only for a short-term zone and are otherwise unchanged; no other bit changes |
| Registers.EnabledWordReadsBack | msr/raplcap-msr.c:327-355 | the written word reads back as enabled exactly when `enabled` was true |
| Registers.EnabledWordIdempotent | msr/raplcap-msr.c:344-355 | setting the same enabled state twice writes the same word as setting it once |
| Registers.DecodeLimit | msr/raplcap-msr.c:432-436 | one constraint as `raplcap_get_limits` decodes it: `from_msr_time` of its Y and F fields and the power field in watts |
| Registers.LongTermLimit | msr/raplcap-msr.c:430-439 | the long-term constraint from bits 14:0, 21:17 and 23:22 |
| Registers.ShortTermLimit | msr/raplcap-msr.c:440-450 | the short-term constraint from bits 46:32, 53:49 and 55:54 |
| Registers.EncodeLimit | msr/raplcap-msr.c:465-470 | one constraint of `raplcap_set_limits`; `EncodeLimitFields` and `EncodeLimitAgrees` state what it changes |
| Registers.EncodeLimitFields | msr/raplcap-msr.c:465-470 | one constraint's power field holds `to_msr_power` of a positive request and its time window holds `to_msr_time` of one; a field with no positive request keeps its bits |
| Registers.EncodeLimitAgrees | msr/raplcap-msr.c:465-470 | one constraint changes no bit outside the fields it was given a positive value for |
| Registers.EncodeLimitOther | msr/raplcap-msr.c:465-480 | one constraint leaves every field outside its own bits unchanged |
| Registers.LimitsWord | msr/raplcap-msr.c:454-483 | the word `raplcap_set_limits` writes back; `LimitsWordAgrees`, `LimitsWordFields` and `LimitsReadBack` state its properties |
| Registers.LimitsWordAgrees | msr/raplcap-msr.c:454-483 | `set_limits` changes only bits 14:0 and 23:17 for positive long-term values, and bits 46:32 and 55:49 for positive short-term values of a short-term zone; every other bit is preserved |
| Registers.LimitsWordFields | msr/raplcap-msr.c:462-481 | each of the four fields of the word written holds its encoded request or its old bits |
| Registers.LongFields | msr/raplcap-msr.c:462-471 | the long-term constraint sets bits 14:0 and 23:17 to its encoded positive values, keeps them otherwise, and keeps the short-term fields |
| Registers.ShortFields | msr/raplcap-msr.c:472-481 | the short-term constraint sets bits 46:32 and 55:49 to its encoded positive values, keeps them otherwise, and keeps the long-term fields |
| Registers.TimeFieldSplit | msr/raplcap-msr.c:433-435 | a 7-bit window is Y in its low 5 bits plus 32 times F in its high 2 bits |
| Registers.LimitsReadBack | msr/raplcap-msr.c:418-483 | after `set_limits`, `get_limits` reports each field that was set as the request rounded down to register units |
| Registers.EncodeDecodedLimit | msr/raplcap-msr.c:430-470 | writing back the limit one constraint reports leaves the word unchanged |
| Registers.PowerOfDecoded | msr/raplcap-msr.c:430-467 | a decoded power is not negative, and when positive its encoding rewrites the field with its own bits |
| Registers.TimeOfDecoded | msr/raplcap-msr.c:433-470 | encoding a decoded time window rewrites the 7-bit field with its own bits |
| Registers.SetLimitsReadLeavesWord | msr/raplcap-msr.c:418-483 | `set_limits` with the limits `get_limits` reported writes back the word they were read from |
| Msr.Kernel.Open | msr/raplcap-msr.c:48-67 | opening a CPU with a device gives a fresh positive descriptor; any other CPU gives -1 and changes nothing |
| Msr.Kernel.Close | msr/raplcap-msr.c:255 | closing an open descriptor releases it; closing any other number fails with EBADF and changes nothing |
| Msr.Kernel.Read | msr/raplcap-msr.c:69-78 | `pread` succeeds exactly on an open descriptor whose CPU has the register, and returns that register; otherwise EBADF or EIO |
| Msr.Kernel.Write | msr/raplcap-msr.c:80-88 | `pwrite` succeeds exactly when the register is writable and then stores the value in that CPU's register alone; a failed write changes nothing |
| Engine.MsrState.constructor | msr/raplcap-msr.c:222-230 | the descriptor slots are freshly allocated, one per socket, all 0 |
| Engine.Accepted | msr/raplcap-msr.c:161-180 | the loop gets past exactly the lines before the first one that is malformed, out of range or whose device fails to open |
| Engine.LastFor | msr/raplcap-msr.c:176 | the last line so far that names a socket, which is the one whose descriptor that socket's slot holds |
| Engine.OpenMsrs | msr/raplcap-msr.c:145-196 | each slot holds the descriptor of the last accepted line for its socket, -1 if the stopping line's open failed, else 0; it succeeds exactly when every line was accepted and every socket found; errors are ENOENT or ERANGE as the stopping line decides; every descriptor open before the call stays open on the same CPU |
| Engine.WalkListing | msr/raplcap-msr.c:161-180 | the listing loop opens one descriptor per accepted line, records the last one per socket (-1 for a failed open), and stops with ENOENT, ERANGE or the open's error at the first bad line; every descriptor open before the call stays open on the same CPU |
| Engine.CheckSlots | msr/raplcap-msr.c:186-195 | the slot check succeeds exactly when every socket's slot is positive, and otherwise fails with ENOENT |
| Engine.SlotsAfter | msr/raplcap-msr.c:161-180 | one slot per socket, zero when the listing cannot be read; `OpenAndReadUnits` ensures the descriptor array holds exactly these values after `raplcap_open_msrs` |
| Engine.HeldAfterWalk | msr/raplcap-msr.c:176 | a descriptor opened for a line is among those `raplcap_destroy` closes exactly when that line is its socket's last accepted one and no failed open stored -1 over it |
| Engine.Held | msr/raplcap-msr.c:253-258 | the set of descriptors `raplcap_destroy` closes holds every positive slot and only positive values |
| Engine.HeldIsPrefix | msr/raplcap-msr.c:253-258 | every descriptor in that set comes from one of the slots |
| Engine.DistinctOpenClosesCleanly | msr/raplcap-msr.c:253-258 | slots that hold distinct open descriptors close without any error |
| Engine.OpenedSlots | msr/raplcap-msr.c:161-195 | after a successful open, the slots hold distinct descriptors, each open on the CPU of its socket's last line |
| Engine.OpenAndReadUnits | msr/raplcap-msr.c:232-240 | open then read the unit register through socket 0; success exactly when the listing opens every socket and that CPU has the unit register; the exponents come from bits 3:0 and 19:16; on every path `OpenedFor` holds: the descriptors opened are the next `OpenedCount` numbers and the slots hold what `raplcap_open_msrs` leaves for the listing; every descriptor open before the call stays open on the same CPU |
| Engine.ReadUnits | msr/raplcap-msr.c:233-240 | the read through socket 0's descriptor succeeds exactly when it is readable, fails with the read's error otherwise, and on success the exponents are bits 3:0 and 19:16 of the register |
| Engine.Raplcap.constructor | msr/raplcap-msr.c:46 | a zero-initialised context: no sockets and no state |
| Engine.Raplcap.GetState | msr/raplcap-msr.c:286-295 | the state is returned for an initialised context and a socket below the count; otherwise it fails with EINVAL |
| Engine.Raplcap.ZoneWord | msr/raplcap-msr.c:423-427 | the shared prologue: it succeeds exactly when the state, the zone's register and the read all succeed, and the first check that fails decides the error |
| Engine.Raplcap.IsZoneEnabled | msr/raplcap-msr.c:327-342 | enabled exactly when the enable bits are set; otherwise the error of the prologue |
| Engine.Raplcap.IsZoneSupported | msr/raplcap-msr.c:276-284 | as the comment intends, a readable zone is supported, an I/O error means not supported, and any other error is passed on |
| Engine.Raplcap.IsZoneSupportedAsWritten | msr/raplcap-msr.c:276-284 | `raplcap_is_zone_supported` as written: the result of `SupportedAsWritten` on the zone's enabled state |
| Engine.Raplcap.UnreadableZoneSupportedAsWritten | msr/raplcap-msr.c:276-284 | as written, a zone whose read fails with EIO is reported supported; the corrected function reports it not supported |
| Engine.Raplcap.SetZoneEnabled | msr/raplcap-msr.c:344-359 | it writes back the word with the enable and clamping bits replaced; on success the zone then reads as enabled exactly when requested; it fails as the prologue or the write decides and then changes nothing |
| Engine.Raplcap.GetLimits | msr/raplcap-msr.c:418-452 | non-null out-cells receive the decoded long-term and short-term limits, the short-term one only for a short-term zone; when both cells are the same object the short-term value is kept; on error nothing is written |
| Engine.Raplcap.SetLimits | msr/raplcap-msr.c:454-483 | it always writes back `LimitsWord` of the word read; on success the register then holds that word; errors change nothing |
| Engine.Raplcap.Init | msr/raplcap-msr.c:212-243 | a count of 0 fails with ENODEV and a count error is passed on; otherwise the context succeeds exactly when the listing opens every socket and socket 0's CPU has the unit register; on success the descriptors are fresh, distinct, open on their sockets' CPUs, and the exponents come from the unit register; on failure the state is gone, the first error is kept, and of the descriptors opened exactly those still in a slot are closed again; every descriptor open before the call stays open on the same CPU |
| Engine.Raplcap.Destroy | msr/raplcap-msr.c:245-267 | every positive slot's descriptor is closed and the state dropped; it fails with EBADF exactly when some close failed; with no state it does nothing, so a second call is harmless |
| Engine.ApplyLimits | msr/raplcap-msr.c:462-481 | the guarded successive `replace_bits` assignments compute `LimitsWord` |
| Engine.Supported | msr/raplcap-msr.c:276-284 | the corrected mapping: enabled or disabled means supported, EIO means not supported, other errors pass through |
| Engine.SupportedAsWritten | msr/raplcap-msr.c:276-284 | the code as written reports supported for an enabled, disabled or EIO result alike |

## Left out

- `open_msr` trying `/dev/cpu/N/msr_safe` before `/dev/cpu/N/msr`: the model has one device per CPU, and `Kernel.Open` either gives a descriptor or -1.
- The device and descriptor model is abstract. A CPU has a set of readable and a set of writable registers, and descriptors come from a counter starting at 3. Descriptor reuse after `close` is not modelled. `close` failing with anything but EBADF is not modelled either.
- `count_sockets` and the `popen`/`fgets`/`sscanf` parts of `raplcap_open_msrs` are I/O. They appear as parameters: the count or its error, and the (core, socket) lines or the `popen` error. `pclose` warnings are not modelled.
- Engine.Raplcap.Init: the count is taken as already truncated to `uint32_t`.
- Engine.Raplcap.Init: `malloc` and `calloc` failure are not modelled, because allocation in Dafny cannot fail.
- A failed open is always reported as ENOENT. `open_msr` passes on the `errno` of `open` (line 58), such as EACCES without privileges. The model only knows whether a CPU has a device file.
- Logging through `raplcap_log` and `raplcap_perror` is left out. The `errno` save and restore is reduced to the error kind in `Result`.
- The `rc_default` global for a null context is left out. Every operation takes an explicit `Raplcap` object.
- `raplcap_get_num_sockets` is left out. It only returns the count or reruns `count_sockets`, which is I/O.
- IEEE double evaluation is left out: `seconds / time_units`, `watts / power_units`, `1.0 / pow2_u64(...)` and the `double` to `uint64_t` casts are exact reals and `Floor`. Rounding error is not captured, and neither are casts of values out of range.
- The `Kernel` is sequential: no other process writes an MSR between the `pread` and the `pwrite` of a read-modify-write. The read-back clauses of `Engine.Raplcap.SetZoneEnabled` and `Engine.Raplcap.SetLimits` rely on this. A concurrent writer's update made in between would be lost, and the model does not capture that.
- The hardware ignoring software writes to some fields, such as the short-term time window, is not modelled. A written register holds what was written.
- `is_short_term_allowed` asserting on an unknown zone is modelled as a precondition. Every caller reaches it only with a known zone, after `zone_to_msr_offset` has succeeded.
- The command-line tool `rapl-configure` and the `raplcap-cpuid.h` constants are outside the engine and are not part of this model.

## Findings

| source | as written | input that shows it | evidently intended | confidence | as-written member | corrected member |
|---|---|---|---|---|---|---|
| msr/raplcap-msr.c:276-284 | `raplcap_is_zone_supported` turns both 0 (disabled) and a failure with EIO into 1 | a zone whose register read fails with EIO is reported supported | per the comment at line 278, an I/O error means the zone is not supported (0) | not executed | Engine.Raplcap.UnreadableZoneSupportedAsWritten | Engine.Raplcap.IsZoneSupported |
| msr/raplcap-msr.c:313-325 | `get_bits` and `replace_bits` build their mask with `1 << (last - first + 1)`, a shift by 64 for the range 0..63, which is undefined in C; x86 takes the count modulo 64 | `get_bits(w, 0, 63)` gives 0 and `replace_bits(w, d, 0, 63)` gives w | the whole word is read, or replaced by d | not executed | BitField.FullWidthAsWritten | BitField.GetBits |
