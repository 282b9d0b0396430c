/**
 * The `raplcap` context of the MSR implementation and the operations on it
 * (msr/raplcap-msr.c): `raplcap_init`, `raplcap_destroy`, `get_state`,
 * `raplcap_open_msrs`, and the read-modify-write operations on a zone's
 * power-limit register.
 *
 * The two places the C code gets information from a shell pipeline are
 * parameters here: `count_sockets` becomes the socket count it produced,
 * and the pipeline `raplcap_open_msrs` reads becomes the list of lines it
 * printed.
 */
module Engine {
  import opened Arith
  import opened BitField
  import opened Errors
  import opened Zones
  import opened Units
  import opened Registers
  import opened Msr

  /** A line of the processor/socket listing, as `sscanf` reads it. */
  datatype Line = Pair(core: nat, socket: nat) | Malformed

  /** `raplcap_msr`: one descriptor per socket, and the exponents of the power and time units. */
  class MsrState {
    const fds: array<int>
    var powerExp: nat
    var timeExp: nat

    /** `malloc` of the state and `calloc` of its descriptors. */
    constructor(n: nat)
      ensures fds.Length == n && fresh(fds)
      ensures forall i :: 0 <= i < n ==> fds[i] == 0
    {
      fds := new int[n](_ => 0);
      powerExp, timeExp := 0, 0;
    }
  }

  /** A `raplcap_limit` out-parameter of `raplcap_get_limits`. */
  class LimitCell {
    var limit: Limit

    constructor(l: Limit)
      ensures limit == l
    {
      limit := l;
    }
  }

  // ---------------------------------------------------------------------
  // The listing `raplcap_open_msrs` walks

  /** A line that `raplcap_open_msrs` gets past: well formed, in range, and its CPU has a device. */
  predicate Opens(line: Line, sockets: nat, cpus: map<nat, Cpu>)
  {
    line.Pair? && line.socket < sockets && line.core in cpus
  }

  /** The number of lines the loop of `raplcap_open_msrs` gets past before it stops. */
  function Accepted(lines: seq<Line>, sockets: nat, cpus: map<nat, Cpu>): (n: nat)
    ensures n <= |lines|
    ensures forall j :: 0 <= j < n ==> Opens(lines[j], sockets, cpus)
    ensures n < |lines| ==> !Opens(lines[n], sockets, cpus)
  {
    if |lines| == 0 || !Opens(lines[0], sockets, cpus) then 0
    else 1 + Accepted(lines[1..], sockets, cpus)
  }

  /** The last of the first n lines that names socket s, or -1 if none does. */
  function LastFor(lines: seq<Line>, n: nat, s: nat): (j: int)
    requires n <= |lines|
    ensures -1 <= j < n
    ensures j >= 0 ==> lines[j].Pair? && lines[j].socket == s
    ensures forall i :: j < i < n ==> !(lines[i].Pair? && lines[i].socket == s)
  {
    if n == 0 then -1
    else if lines[n - 1].Pair? && lines[n - 1].socket == s then n - 1
    else LastFor(lines, n - 1, s)
  }

  /** The line the loop stopped at names socket s and its device failed to open. */
  predicate FailedFor(lines: seq<Line>, n: nat, s: nat)
    requires n <= |lines|
  {
    n < |lines| && lines[n].Pair? && lines[n].socket == s
  }

  /** Why the loop stopped at line n: a line it cannot parse, a socket out of range, or a device it cannot open. */
  function StopError(lines: seq<Line>, n: nat, sockets: nat): Errno
    requires n < |lines|
  {
    match lines[n]
    case Malformed => ENOENT
    case Pair(_, socket) => if socket >= sockets then ERANGE else ENOENT
  }

  /**
   * `raplcap_open_msrs`. Walks the listing and opens the MSR device of each
   * line's CPU into the socket's slot, so the last line for a socket wins;
   * it stops at the first line it cannot parse (ENOENT), whose socket is
   * out of range (ERANGE) or whose device does not open (the slot gets -1).
   * It then checks that every socket's slot holds a descriptor above 0,
   * which relies on the slots having been zeroed. Descriptors opened before
   * a failure are left open, as in the source.
   */
  method OpenMsrs(k: Kernel, sockets: nat, fds: array<int>, listing: Result<seq<Line>>) returns (r: Result<()>)
    requires k.Valid() && sockets > 0 && fds.Length == sockets
    requires forall s :: 0 <= s < sockets ==> fds[s] == 0
    modifies k, fds
    ensures k.Valid() && k.cpus == old(k.cpus)
    ensures listing.Err? ==> r == Err(listing.error) && k.open == old(k.open) && k.next == old(k.next) && fds[..] == old(fds[..])
    ensures listing.Ok? ==>
      var lines := listing.value;
      var n := Accepted(lines, sockets, k.cpus);
      && k.next == old(k.next) + n
      && (forall fd :: fd in k.open <==> fd in old(k.open) || old(k.next) <= fd < k.next)
      && (forall fd :: fd in old(k.open) ==> k.open[fd] == old(k.open)[fd])
      && (forall j :: 0 <= j < n ==> k.open[old(k.next) + j] == lines[j].core)
      && (forall s :: 0 <= s < sockets ==>
            fds[s] == if FailedFor(lines, n, s) then -1
                      else if LastFor(lines, n, s) >= 0 then old(k.next) + LastFor(lines, n, s)
                      else 0)
      && (r.Ok? <==> n == |lines| && forall s :: 0 <= s < sockets ==> LastFor(lines, n, s) >= 0)
      && (r.Err? ==> r.error == if n < |lines| then StopError(lines, n, sockets) else ENOENT)
  {
    if listing.Err? {
      return Err(listing.error);
    }
    r := WalkListing(k, sockets, fds, listing.value);
    if r.Ok? {
      // every slot must now hold a descriptor
      r := CheckSlots(fds, sockets);
    }
  }

  /** The loop of `raplcap_open_msrs` over the listing's lines. */
  method WalkListing(k: Kernel, sockets: nat, fds: array<int>, lines: seq<Line>) returns (r: Result<()>)
    requires k.Valid() && fds.Length == sockets
    requires forall s :: 0 <= s < sockets ==> fds[s] == 0
    modifies k, fds
    ensures k.Valid() && k.cpus == old(k.cpus)
    ensures k.next == old(k.next) + Accepted(lines, sockets, k.cpus)
    ensures forall fd :: fd in k.open <==> fd in old(k.open) || old(k.next) <= fd < k.next
    ensures forall fd :: fd in old(k.open) ==> k.open[fd] == old(k.open)[fd]
    ensures forall j :: 0 <= j < Accepted(lines, sockets, k.cpus) ==> k.open[old(k.next) + j] == lines[j].core
    ensures forall s :: 0 <= s < sockets ==> fds[s] == SlotAfter(lines, Accepted(lines, sockets, k.cpus), s, old(k.next))
    ensures r.Ok? <==> Accepted(lines, sockets, k.cpus) == |lines|
    ensures r.Err? ==> r.error == StopError(lines, Accepted(lines, sockets, k.cpus), sockets)
  {
    ghost var n := Accepted(lines, sockets, k.cpus);
    ghost var next0 := k.next;
    r := Ok(());
    var i := 0;
    while i < |lines|
      invariant 0 <= i <= n
      invariant r == Ok(())
      invariant k.Valid() && k.cpus == old(k.cpus) && k.next == next0 + i
      invariant forall fd :: fd in k.open <==> fd in old(k.open) || next0 <= fd < k.next
      invariant forall fd :: fd in old(k.open) ==> k.open[fd] == old(k.open)[fd]
      invariant forall j :: 0 <= j < i ==> k.open[next0 + j] == lines[j].core
      invariant forall s :: 0 <= s < sockets ==>
                  fds[s] == if LastFor(lines, i, s) >= 0 then next0 + LastFor(lines, i, s) else 0
      decreases |lines| - i
    {
      match lines[i]
      case Malformed =>
        assert i == n;
        r := Err(ENOENT);
        break;
      case Pair(core, socket) =>
        if socket >= sockets {
          assert i == n;
          r := Err(ERANGE);
          break;
        }
        var fd := k.Open(core);
        fds[socket] := fd;
        if fd < 0 {
          assert i == n;
          r := Err(ENOENT);
          break;
        }
      i := i + 1;
    }
  }

  /** The check loop of `raplcap_open_msrs`: every socket's slot holds a descriptor above 0. */
  method CheckSlots(fds: array<int>, sockets: nat) returns (r: Result<()>)
    requires sockets <= fds.Length
    ensures r.Ok? <==> forall s :: 0 <= s < sockets ==> fds[s] > 0
    ensures r.Err? ==> r.error == ENOENT
  {
    r := Ok(());
    var s := 0;
    while s < sockets
      invariant 0 <= s <= sockets
      invariant forall t :: 0 <= t < s ==> fds[t] > 0
    {
      if fds[s] <= 0 {
        r := Err(ENOENT);
        break;
      }
      s := s + 1;
    }
  }

  /** What socket s's slot holds once the loop of `raplcap_open_msrs` got past n lines, descriptors numbered from next0. */
  function SlotAfter(lines: seq<Line>, n: nat, s: nat, next0: int): int
    requires n <= |lines|
  {
    if FailedFor(lines, n, s) then -1
    else if LastFor(lines, n, s) >= 0 then next0 + LastFor(lines, n, s)
    else 0
  }

  /** The slots `raplcap_open_msrs` leaves behind for a listing; a listing it cannot obtain leaves them zero. */
  function SlotsAfter(listing: Result<seq<Line>>, sockets: nat, cpus: map<nat, Cpu>, next0: int): (fds: seq<int>)
    ensures |fds| == sockets
  {
    if listing.Err? then seq(sockets, _ => 0)
    else
      var n := Accepted(listing.value, sockets, cpus);
      seq(sockets, s requires 0 <= s => SlotAfter(listing.value, n, s, next0))
  }

  /** The number of descriptors `raplcap_open_msrs` opens for a listing. */
  function OpenedCount(listing: Result<seq<Line>>, sockets: nat, cpus: map<nat, Cpu>): nat
  {
    if listing.Err? then 0 else Accepted(listing.value, sockets, cpus)
  }

  /** The slots hold, socket by socket, what `raplcap_open_msrs` leaves there for the listing. */
  predicate LeftByOpen(listing: Result<seq<Line>>, sockets: nat, cpus: map<nat, Cpu>, next0: int, fds: seq<int>)
  {
    && |fds| == sockets
    && (listing.Err? ==> forall s :: 0 <= s < sockets ==> fds[s] == 0)
    && (listing.Ok? ==> forall s :: 0 <= s < sockets ==>
          fds[s] == SlotAfter(listing.value, Accepted(listing.value, sockets, cpus), s, next0))
  }

  /**
   * What `raplcap_open_msrs` did to the descriptors: it opened the next
   * `OpenedCount` numbers after next0 and left the slots as `LeftByOpen` says.
   */
  ghost predicate OpenedFor(listing: Result<seq<Line>>, sockets: nat, cpus: map<nat, Cpu>, next0: int,
                      open0: map<int, nat>, next: int, open: map<int, nat>, fds: seq<int>)
  {
    && next == next0 + OpenedCount(listing, sockets, cpus)
    && (forall fd :: fd in open <==> fd in open0 || next0 <= fd < next)
    && (forall fd :: fd in open0 ==> fd in open && open[fd] == open0[fd])
    && LeftByOpen(listing, sockets, cpus, next0, fds)
  }

  /** The descriptors the slots hold were all opened by `raplcap_open_msrs`: none is below next0. */
  lemma HeldFromNext(listing: Result<seq<Line>>, sockets: nat, cpus: map<nat, Cpu>, next0: int)
    ensures forall fd :: fd in Held(SlotsAfter(listing, sockets, cpus, next0), sockets) ==> fd >= next0
  {
    var fds := SlotsAfter(listing, sockets, cpus, next0);
    HeldIsPrefix(fds, sockets);
    forall fd | fd in Held(fds, sockets)
      ensures fd >= next0
    {
      var i :| 0 <= i < sockets && fds[i] == fd;
      assert fd > 0;
    }
  }

  /** Slots left by `raplcap_open_msrs` are the sequence `SlotsAfter`. */
  lemma SlotsOfOpen(listing: Result<seq<Line>>, sockets: nat, cpus: map<nat, Cpu>, next0: int, fds: seq<int>)
    requires LeftByOpen(listing, sockets, cpus, next0, fds)
    ensures fds == SlotsAfter(listing, sockets, cpus, next0)
  {
  }

  /**
   * The descriptor opened for line j is among those `raplcap_destroy` closes
   * exactly when line j is the last accepted line for its socket and the
   * line the loop stopped at did not store -1 over it: a descriptor is only
   * lost when its slot is overwritten.
   */
  lemma HeldAfterWalk(lines: seq<Line>, sockets: nat, cpus: map<nat, Cpu>, next0: int, j: nat)
    requires next0 > 0 && j < Accepted(lines, sockets, cpus)
    ensures var n := Accepted(lines, sockets, cpus);
            next0 + j in Held(SlotsAfter(Ok(lines), sockets, cpus, next0), sockets)
            <==> LastFor(lines, n, lines[j].socket) == j && !FailedFor(lines, n, lines[j].socket)
  {
    assert Opens(lines[j], sockets, cpus);
    HeldOfSlots(lines, Accepted(lines, sockets, cpus), sockets, next0, SlotsAfter(Ok(lines), sockets, cpus, next0), j);
  }

  /** HeldAfterWalk for any slots holding what the loop left after n lines. */
  lemma HeldOfSlots(lines: seq<Line>, n: nat, sockets: nat, next0: int, fds: seq<int>, j: nat)
    requires j < n <= |lines| && next0 > 0 && |fds| == sockets
    requires lines[j].Pair? && lines[j].socket < sockets
    requires forall i :: 0 <= i < sockets ==> fds[i] == SlotAfter(lines, n, i, next0)
    ensures next0 + j in Held(fds, sockets) <==> LastFor(lines, n, lines[j].socket) == j && !FailedFor(lines, n, lines[j].socket)
  {
    var s := lines[j].socket;
    InHeld(fds, sockets, next0 + j);
    if LastFor(lines, n, s) == j && !FailedFor(lines, n, s) {
      assert fds[s] == next0 + j;
    }
    if next0 + j in Held(fds, sockets) {
      var i :| 0 <= i < sockets && fds[i] == next0 + j;
      SlotOfLine(lines, n, i, next0, j);
    }
  }

  /** A slot holding the descriptor of line j is the slot of line j's socket, and line j is its last. */
  lemma SlotOfLine(lines: seq<Line>, n: nat, i: nat, next0: int, j: nat)
    requires n <= |lines| && next0 > 0 && SlotAfter(lines, n, i, next0) == next0 + j
    ensures !FailedFor(lines, n, i) && LastFor(lines, n, i) == j && lines[j].Pair? && lines[j].socket == i
  {
  }

  /** A descriptor is held by the first n slots exactly when it is positive and one of them holds it. */
  lemma InHeld(fds: seq<int>, n: nat, fd: int)
    requires n <= |fds|
    ensures fd in Held(fds, n) <==> fd > 0 && exists i :: 0 <= i < n && fds[i] == fd
  {
    HeldIsPrefix(fds, n);
  }

  /** The listing lets `raplcap_open_msrs` succeed: it walks every line and every socket gets a device. */
  predicate ListingOpensAll(lines: seq<Line>, sockets: nat, cpus: map<nat, Cpu>)
  {
    Accepted(lines, sockets, cpus) == |lines| && forall s :: 0 <= s < sockets ==> LastFor(lines, |lines|, s) >= 0
  }

  /** The CPU whose device ends up in socket s's slot after a walk of the whole listing. */
  function SocketCore(lines: seq<Line>, s: nat): nat
    requires LastFor(lines, |lines|, s) >= 0
  {
    lines[LastFor(lines, |lines|, s)].core
  }

  /**
   * What makes `raplcap_init` succeed: a positive socket count, a listing
   * that opens a device for every socket, and a power-unit register on the
   * CPU whose device is socket 0's.
   */
  predicate InitSucceeds(cpus: map<nat, Cpu>, counted: Result<nat>, listing: Result<seq<Line>>)
  {
    && counted.Ok? && counted.value > 0
    && listing.Ok? && ListingOpensAll(listing.value, counted.value, cpus)
    && PowerUnitMsr in cpus[SocketCore(listing.value, 0)].regs
  }

  /** The descriptors among the first n slots, the ones `raplcap_destroy` closes (slots above 0). */
  function Held(fds: seq<int>, n: nat): (h: set<int>)
    requires n <= |fds|
    ensures forall fd :: fd in h ==> fd > 0
    ensures forall i :: 0 <= i < n && fds[i] > 0 ==> fds[i] in h
  {
    if n == 0 then {}
    else Held(fds, n - 1) + if fds[n - 1] > 0 then {fds[n - 1]} else {}
  }

  /**
   * Every close `raplcap_destroy` makes on the first n slots succeeds: each
   * positive slot holds a descriptor that is open and was not closed
   * through an earlier slot.
   */
  predicate ClosesCleanly(fds: seq<int>, n: nat, open: set<int>)
    requires n <= |fds|
  {
    n == 0 || (ClosesCleanly(fds, n - 1, open)
               && (fds[n - 1] > 0 ==> fds[n - 1] in open && fds[n - 1] !in Held(fds, n - 1)))
  }

  /** Slots holding distinct open descriptors close cleanly. */
  lemma {:induction false} DistinctOpenClosesCleanly(fds: seq<int>, n: nat, open: set<int>)
    requires n <= |fds|
    requires forall i :: 0 <= i < n ==> fds[i] > 0 && fds[i] in open
    requires forall i, j :: 0 <= i < j < n ==> fds[i] != fds[j]
    ensures ClosesCleanly(fds, n, open)
  {
    if n > 0 {
      DistinctOpenClosesCleanly(fds, n - 1, open);
      HeldIsPrefix(fds, n - 1);
    }
  }

  /** The descriptors held by the first n slots are exactly the positive values among them. */
  lemma {:induction false} HeldIsPrefix(fds: seq<int>, n: nat)
    requires n <= |fds|
    ensures forall fd :: fd in Held(fds, n) ==> exists i :: 0 <= i < n && fds[i] == fd
  {
    if n > 0 {
      HeldIsPrefix(fds, n - 1);
    }
  }

  // ---------------------------------------------------------------------
  // The context

  /** A `raplcap` context: the socket count and the implementation state. */
  class Raplcap {
    var nsockets: nat
    var state: MsrState?

    /** A zero-initialised context, as a caller declares one. */
    constructor()
      ensures nsockets == 0 && state == null
    {
      nsockets := 0;
      state := null;
    }

    ghost predicate Valid()
      reads this
    {
      state != null ==> nsockets <= state.fds.Length
    }

    /** The objects the register operations read through the state. */
    function StateFrame(): set<object>
      reads this
    {
      if state == null then {} else {state, state.fds}
    }

    /** `get_state`: the state, for a context that has been initialised and a socket it has. */
    function GetState(socket: nat): (r: Result<MsrState>)
      reads this
      ensures r.Ok? <==> state != null && socket < nsockets
      ensures r.Ok? ==> r.value == state
      ensures r.Err? ==> r.error == EINVAL
    {
      if state == null || socket >= nsockets then Err(EINVAL) else Ok(state as MsrState)
    }

    /** The descriptor of a socket's MSR device. */
    function SocketFd(socket: nat): int
      reads this, StateFrame()
      requires Valid() && GetState(socket).Ok?
    {
      state.fds[socket]
    }

    /**
     * The check and read every zone operation starts with: the state for the
     * socket, the zone's register, and the word read from it; the first of
     * the three that fails decides the error.
     */
    function ZoneWord(k: Kernel, socket: nat, zone: Zone): (r: Result<u64>)
      reads this, StateFrame(), k
      requires Valid()
      ensures r.Ok? <==> GetState(socket).Ok? && !zone.Other?
                         && k.Readable(SocketFd(socket), ZoneToMsrOffset(zone).value)
      ensures r.Ok? ==> r.value == k.cpus[k.open[SocketFd(socket)]].regs[ZoneToMsrOffset(zone).value]
      ensures r.Err? ==> r.error == if GetState(socket).Err? || zone.Other? then EINVAL
                                    else k.Read(SocketFd(socket), ZoneToMsrOffset(zone).value).error
    {
      match GetState(socket)
      case Err(e) => Err(e)
      case Ok(s) =>
        match ZoneToMsrOffset(zone)
        case Err(e) => Err(e)
        case Ok(offset) => k.Read(s.fds[socket], offset)
    }

    /**
     * `raplcap_is_zone_enabled`: whether the zone's enable bits are set,
     * bit 15 and, for a zone with a short-term constraint, bit 47.
     */
    function IsZoneEnabled(k: Kernel, socket: nat, zone: Zone): (r: Result<bool>)
      reads this, StateFrame(), k
      requires Valid()
      ensures r.Ok? <==> ZoneWord(k, socket, zone).Ok?
      ensures r.Ok? ==> r.value == (Bit(ZoneWord(k, socket, zone).value, 15)
                                   && (IsShortTermAllowed(zone) ==> Bit(ZoneWord(k, socket, zone).value, 47)))
      ensures r.Err? ==> r.error == ZoneWord(k, socket, zone).error
    {
      match ZoneWord(k, socket, zone)
      case Err(e) => Err(e)
      case Ok(w) =>
        ZoneEnabledIsEnableBits(w, IsShortTermAllowed(zone));
        Ok(ZoneEnabled(w, IsShortTermAllowed(zone)))
    }

    /**
     * `raplcap_is_zone_supported`, as its comment describes it: a zone whose
     * register can be read is supported, one whose read fails with an I/O
     * error is not, and any other error is passed on.
     */
    function IsZoneSupported(k: Kernel, socket: nat, zone: Zone): (r: Result<bool>)
      reads this, StateFrame(), k
      requires Valid()
      ensures r == Ok(true) <==> ZoneWord(k, socket, zone).Ok?
      ensures r == Ok(false) <==> ZoneWord(k, socket, zone) == Err(EIO)
      ensures r.Err? ==> ZoneWord(k, socket, zone) == Err(r.error) && r.error != EIO
    {
      Supported(IsZoneEnabled(k, socket, zone))
    }

    /** `raplcap_is_zone_supported` as the C code computes it. */
    function IsZoneSupportedAsWritten(k: Kernel, socket: nat, zone: Zone): Result<bool>
      reads this, StateFrame(), k
      requires Valid()
    {
      SupportedAsWritten(IsZoneEnabled(k, socket, zone))
    }

    /**
     * The C code reports a zone whose register fails to read with an I/O
     * error as supported, where its comment says such a zone is not.
     */
    lemma UnreadableZoneSupportedAsWritten(k: Kernel, socket: nat, zone: Zone)
      requires Valid() && ZoneWord(k, socket, zone) == Err(EIO)
      ensures IsZoneSupportedAsWritten(k, socket, zone) == Ok(true)
      ensures IsZoneSupported(k, socket, zone) == Ok(false)
    {
    }

    /**
     * `raplcap_set_zone_enabled`: reads the zone's register, sets both the
     * enable and clamping bits of each of its constraints to `enabled`, and
     * writes the word back. Afterwards the zone reads as enabled exactly
     * when `enabled` is true.
     */
    method SetZoneEnabled(k: Kernel, socket: nat, zone: Zone, enabled: bool) returns (r: Result<()>)
      requires Valid() && k.Valid()
      modifies k
      ensures k.Valid() && k.open == old(k.open) && k.next == old(k.next)
      ensures old(ZoneWord(k, socket, zone)).Err? ==>
                r == Err(old(ZoneWord(k, socket, zone)).error) && k.cpus == old(k.cpus)
      ensures old(ZoneWord(k, socket, zone)).Ok? ==>
                var w := old(ZoneWord(k, socket, zone)).value;
                var fd, offset := SocketFd(socket), ZoneToMsrOffset(zone).value;
                && (r.Ok? <==> old(k.Writable(fd, offset)))
                && (r.Ok? ==> k.cpus == old(k.Stored(fd, offset, EnabledWord(w, IsShortTermAllowed(zone), enabled)))
                              && IsZoneEnabled(k, socket, zone) == Ok(enabled))
                && (r.Err? ==> r.error == EIO && k.cpus == old(k.cpus))
    {
      var word := ZoneWord(k, socket, zone);
      if word.Err? {
        return Err(word.error);
      }
      var msrval := word.value;
      var bits := EnabledBits(enabled);
      var offset := ZoneToMsrOffset(zone).value;
      msrval := ReplaceBits(msrval, bits, 15, 16);
      if IsShortTermAllowed(zone) {
        msrval := ReplaceBits(msrval, bits, 47, 48);
      }
      assert msrval == EnabledWord(word.value, IsShortTermAllowed(zone), enabled);
      r := k.Write(state.fds[socket], offset, msrval);
      if r.Ok? {
        EnabledWordReadsBack(word.value, IsShortTermAllowed(zone), enabled);
      }
    }

    /**
     * `raplcap_get_limits`: decodes the long-term constraint into `long` and,
     * for a zone that has one, the short-term constraint into `short`; a
     * null out-parameter is skipped. When the two are the same cell and
     * both are written, the short-term limit is the one left in it.
     */
    method GetLimits(k: Kernel, socket: nat, zone: Zone, long: LimitCell?, short: LimitCell?) returns (r: Result<()>)
      requires Valid()
      modifies long, short
      ensures r.Ok? <==> ZoneWord(k, socket, zone).Ok?
      ensures r.Err? ==> r.error == ZoneWord(k, socket, zone).error
                         && (long != null ==> long.limit == old(long.limit))
                         && (short != null ==> short.limit == old(short.limit))
      ensures r.Ok? ==>
                var w := ZoneWord(k, socket, zone).value;
                var st := IsShortTermAllowed(zone);
                && (short != null && st ==> short.limit == ShortTermLimit(w, state.powerExp, state.timeExp))
                && (long != null && (long != short || !st) ==> long.limit == LongTermLimit(w, state.powerExp, state.timeExp))
                && (short != null && !st && short != long ==> short.limit == old(short.limit))
    {
      var word := ZoneWord(k, socket, zone);
      if word.Err? {
        return Err(word.error);
      }
      var msrval := word.value;
      var longLimit := LongTermLimit(msrval, state.powerExp, state.timeExp);
      var shortLimit := ShortTermLimit(msrval, state.powerExp, state.timeExp);
      if long != null {
        long.limit := longLimit;
      }
      if short != null && IsShortTermAllowed(zone) {
        short.limit := shortLimit;
      }
      assert ZoneWord(k, socket, zone) == word;
      r := Ok(());
    }

    /**
     * `raplcap_set_limits`: reads the zone's register, replaces the fields
     * it is given positive values for (short-term ones only for a zone that
     * has them), and always writes the word back.
     */
    method SetLimits(k: Kernel, socket: nat, zone: Zone, long: Option<Limit>, short: Option<Limit>) returns (r: Result<()>)
      requires Valid() && k.Valid()
      modifies k
      ensures k.Valid() && k.open == old(k.open) && k.next == old(k.next)
      ensures old(ZoneWord(k, socket, zone)).Err? ==>
                r == Err(old(ZoneWord(k, socket, zone)).error) && k.cpus == old(k.cpus)
      ensures old(ZoneWord(k, socket, zone)).Ok? ==>
                var w := old(ZoneWord(k, socket, zone)).value;
                var fd, offset := SocketFd(socket), ZoneToMsrOffset(zone).value;
                var w' := LimitsWord(w, IsShortTermAllowed(zone), state.powerExp, state.timeExp, long, short);
                && (r.Ok? <==> old(k.Writable(fd, offset)))
                && (r.Ok? ==> k.cpus == old(k.Stored(fd, offset, w')) && ZoneWord(k, socket, zone) == Ok(w'))
                && (r.Err? ==> r.error == EIO && k.cpus == old(k.cpus))
    {
      var word := ZoneWord(k, socket, zone);
      if word.Err? {
        return Err(word.error);
      }
      var offset := ZoneToMsrOffset(zone).value;
      var msrval := ApplyLimits(word.value, IsShortTermAllowed(zone), state.powerExp, state.timeExp, long, short);
      var fd := state.fds[socket];
      assert fd == SocketFd(socket) && k.Readable(fd, offset);
      r := k.Write(fd, offset, msrval);
      if r.Ok? {
        assert k.Readable(fd, offset) && k.cpus[k.open[fd]].regs[offset] == msrval;
      }
    }

    /**
     * `raplcap_init`: counts the sockets, allocates the state with a zeroed
     * slot per socket, opens a device for every socket and reads the units
     * register through socket 0's; when opening or the read fails it
     * destroys the context again, keeping the first error. The socket count
     * is the outcome of `count_sockets`: its error, or the number it read,
     * where 0 means no device.
     */
    method Init(k: Kernel, counted: Result<nat>, listing: Result<seq<Line>>) returns (r: Result<()>)
      requires k.Valid()
      modifies this, k
      ensures Valid() && k.Valid() && k.cpus == old(k.cpus)
      ensures r.Ok? <==> InitSucceeds(old(k.cpus), counted, listing)
      ensures !(counted.Ok? && counted.value > 0) ==>
                && r == Err(if counted.Err? then counted.error else ENODEV)
                && nsockets == 0 && state == old(state) && k.open == old(k.open) && k.next == old(k.next)
      ensures counted.Ok? && counted.value > 0 ==> nsockets == counted.value
      ensures counted.Ok? && counted.value > 0 && r.Err? ==>
                && state == null
                && r.error == if listing.Err? then listing.error
                              else if Accepted(listing.value, nsockets, k.cpus) < |listing.value|
                              then StopError(listing.value, Accepted(listing.value, nsockets, k.cpus), nsockets)
                              else if !ListingOpensAll(listing.value, nsockets, k.cpus) then ENOENT
                              else EIO
      ensures counted.Ok? && counted.value > 0 && r.Err? ==>
                && k.next == old(k.next) + OpenedCount(listing, nsockets, k.cpus)
                && forall fd :: fd in k.open <==>
                     (fd in old(k.open) || old(k.next) <= fd < k.next)
                     && fd !in Held(SlotsAfter(listing, nsockets, k.cpus, old(k.next)), nsockets)
      ensures forall fd :: fd in old(k.open) ==> fd in k.open && k.open[fd] == old(k.open)[fd]
      ensures r.Ok? ==>
                && state != null && fresh(state) && fresh(state.fds)
                && (forall fd :: fd in k.open <==> fd in old(k.open) || old(k.next) <= fd < k.next)
                && (forall s :: 0 <= s < nsockets ==>
                      state.fds[s] in k.open && state.fds[s] !in old(k.open)
                      && k.open[state.fds[s]] == SocketCore(listing.value, s))
                && (forall s, t :: 0 <= s < t < nsockets ==> state.fds[s] != state.fds[t])
                && var w := k.cpus[SocketCore(listing.value, 0)].regs[PowerUnitMsr];
                   state.powerExp == PowerUnitExp(w) && state.timeExp == TimeUnitExp(w)
    {
      if counted.Err? {
        nsockets := 0;
        return Err(counted.error);
      }
      if counted.value == 0 {
        nsockets := 0;
        return Err(ENODEV);
      }
      nsockets := counted.value;
      var st := new MsrState(nsockets);
      state := st;
      r := OpenAndReadUnits(k, st, nsockets, listing);
      SlotsOfOpen(listing, nsockets, k.cpus, old(k.next), st.fds[..]);
      HeldFromNext(listing, nsockets, k.cpus, old(k.next));
      if r.Err? {
        var _ := Destroy(k);
      }
    }

    /**
     * `raplcap_destroy`: closes the descriptor of every socket slot above 0
     * and drops the state. A failed close does not stop the others; the
     * result is the error of the last one that failed.
     */
    method Destroy(k: Kernel) returns (r: Result<()>)
      requires Valid() && k.Valid()
      modifies this, k
      ensures Valid() && k.Valid() && k.cpus == old(k.cpus) && k.next == old(k.next)
      ensures state == null && nsockets == old(nsockets)
      ensures old(state) == null ==> r == Ok(()) && k.open == old(k.open)
      ensures old(state) != null ==>
                && k.open == old(k.open) - Held(old(state.fds[..]), nsockets)
                && (r.Ok? <==> ClosesCleanly(old(state.fds[..]), nsockets, old(k.open).Keys))
                && (r.Err? ==> r.error == EBADF)
    {
      var st := state;
      r := Ok(());
      if st == null {
        return;
      }
      ghost var open0 := k.open;
      var i := 0;
      while i < nsockets
        invariant state == st && nsockets == old(nsockets) && 0 <= i <= nsockets <= st.fds.Length
        invariant k.Valid() && k.cpus == old(k.cpus) && k.next == old(k.next)
        invariant k.open == open0 - Held(st.fds[..], i)
        invariant r.Ok? <==> ClosesCleanly(st.fds[..], i, open0.Keys)
        invariant r.Err? ==> r.error == EBADF
      {
        if st.fds[i] > 0 {
          var c := k.Close(st.fds[i]);
          if c.Err? {
            r := c;
          }
        }
        i := i + 1;
      }
      state := null;
    }
  }

  /**
   * After a walk of the whole listing with every socket found, the slots
   * hold distinct descriptors, each open on the CPU of the socket's last line.
   */
  lemma OpenedSlots(lines: seq<Line>, sockets: nat, cpus: map<nat, Cpu>, next0: int, fds: seq<int>, open: map<int, nat>)
    requires |fds| == sockets && Accepted(lines, sockets, cpus) == |lines|
    requires forall s :: 0 <= s < sockets ==> LastFor(lines, |lines|, s) >= 0
    requires forall fd :: next0 <= fd < next0 + |lines| ==> fd in open
    requires forall j :: 0 <= j < |lines| ==> open[next0 + j] == lines[j].core
    requires forall s :: 0 <= s < sockets ==>
               fds[s] == if FailedFor(lines, |lines|, s) then -1
                         else if LastFor(lines, |lines|, s) >= 0 then next0 + LastFor(lines, |lines|, s)
                         else 0
    ensures ListingOpensAll(lines, sockets, cpus)
    ensures forall s :: 0 <= s < sockets ==> fds[s] >= next0 && fds[s] in open && open[fds[s]] == SocketCore(lines, s)
    ensures forall s, t :: 0 <= s < t < sockets ==> fds[s] != fds[t]
  {
    forall s, t | 0 <= s < t < sockets
      ensures fds[s] != fds[t]
    {
      assert lines[LastFor(lines, |lines|, s)].socket == s;
      assert lines[LastFor(lines, |lines|, t)].socket == t;
    }
  }

  /**
   * The part of `raplcap_init` between allocating the state and deciding
   * whether to destroy it: `raplcap_open_msrs`, then the read of the units
   * register through socket 0's descriptor and the two unit exponents.
   */
  method OpenAndReadUnits(k: Kernel, st: MsrState, sockets: nat, listing: Result<seq<Line>>) returns (r: Result<()>)
    requires k.Valid() && sockets > 0 && st.fds.Length == sockets
    requires forall s :: 0 <= s < sockets ==> st.fds[s] == 0
    modifies k, st, st.fds
    ensures k.Valid() && k.cpus == old(k.cpus)
    ensures r.Ok? <==> listing.Ok? && ListingOpensAll(listing.value, sockets, k.cpus)
                       && PowerUnitMsr in k.cpus[SocketCore(listing.value, 0)].regs
    ensures r.Err? ==> r.error == if listing.Err? then listing.error
                                  else if Accepted(listing.value, sockets, k.cpus) < |listing.value|
                                  then StopError(listing.value, Accepted(listing.value, sockets, k.cpus), sockets)
                                  else if !ListingOpensAll(listing.value, sockets, k.cpus) then ENOENT
                                  else EIO
    ensures OpenedFor(listing, sockets, k.cpus, old(k.next), old(k.open), k.next, k.open, st.fds[..])
    ensures r.Ok? ==>
              && (forall s :: 0 <= s < sockets ==>
                    st.fds[s] in k.open && st.fds[s] !in old(k.open)
                    && k.open[st.fds[s]] == SocketCore(listing.value, s))
              && (forall s, t :: 0 <= s < t < sockets ==> st.fds[s] != st.fds[t])
              && var w := k.cpus[SocketCore(listing.value, 0)].regs[PowerUnitMsr];
                 st.powerExp == PowerUnitExp(w) && st.timeExp == TimeUnitExp(w)
  {
    r := OpenMsrs(k, sockets, st.fds, listing);
    ghost var slots := st.fds[..];
    assert OpenedFor(listing, sockets, k.cpus, old(k.next), old(k.open), k.next, k.open, slots);
    if r.Err? {
      return;
    }
    assert Accepted(listing.value, sockets, k.cpus) == |listing.value|;
    OpenedSlots(listing.value, sockets, k.cpus, old(k.next), slots, k.open);
    r := ReadUnits(k, st);
    assert st.fds[..] == slots;
  }

  /**
   * The read of the units register through socket 0's descriptor that ends
   * `raplcap_init`, and the two exponents taken from it.
   */
  method ReadUnits(k: Kernel, st: MsrState) returns (r: Result<()>)
    requires st.fds.Length > 0
    modifies st
    ensures r.Ok? <==> k.Readable(st.fds[0], PowerUnitMsr)
    ensures r.Err? ==> r.error == k.Read(st.fds[0], PowerUnitMsr).error
    ensures r.Ok? ==> var w := k.cpus[k.open[st.fds[0]]].regs[PowerUnitMsr];
                      st.powerExp == PowerUnitExp(w) && st.timeExp == TimeUnitExp(w)
  {
    var w := k.Read(st.fds[0], PowerUnitMsr);
    if w.Err? {
      r := Err(w.error);
    } else {
      st.powerExp := PowerUnitExp(w.value);
      st.timeExp := TimeUnitExp(w.value);
      r := Ok(());
    }
  }

  /**
   * The modify step of `raplcap_set_limits`: the successive `replace_bits`
   * assignments to the word read, each guarded as in the source.
   */
  method ApplyLimits(w: u64, shortTerm: bool, pe: nat, te: nat, long: Option<Limit>, short: Option<Limit>)
    returns (msrval: u64)
    ensures msrval == LimitsWord(w, shortTerm, pe, te, long, short)
  {
    msrval := w;
    if long.Some? {
      if long.value.watts > 0.0 {
        msrval := ReplaceBits(msrval, ToMsrPower(long.value.watts, pe), 0, 14);
      }
      if long.value.seconds > 0.0 {
        var code := ToMsrTime(long.value.seconds, te);
        msrval := ReplaceBits(msrval, code, 17, 23);
      }
    }
    assert msrval == if long.Some? then EncodeLimit(w, long.value, LongPowerBit, LongTimeBit, pe, te) else w;
    if short.Some? && shortTerm {
      if short.value.watts > 0.0 {
        msrval := ReplaceBits(msrval, ToMsrPower(short.value.watts, pe), 32, 46);
      }
      if short.value.seconds > 0.0 {
        var code := ToMsrTime(short.value.seconds, te);
        msrval := ReplaceBits(msrval, code, 49, 55);
      }
    }
  }

  /** The corrected `raplcap_is_zone_supported` on the result of `raplcap_is_zone_enabled`. */
  function Supported(enabled: Result<bool>): (r: Result<bool>)
    ensures r == Ok(true) <==> enabled.Ok?
    ensures r == Ok(false) <==> enabled == Err(EIO)
    ensures r.Err? ==> enabled == Err(r.error) && r.error != EIO
  {
    match enabled
    case Ok(_) => Ok(true)
    case Err(EIO) => Ok(false)
    case Err(e) => Err(e)
  }

  /** `raplcap_is_zone_supported` as written: 0 (disabled) and an I/O error both become 1. */
  function SupportedAsWritten(enabled: Result<bool>): (r: Result<bool>)
    ensures r == Ok(true) <==> enabled.Ok? || enabled == Err(EIO)
  {
    match enabled
    case Ok(_) => Ok(true)
    case Err(EIO) => Ok(true)
    case Err(e) => Err(e)
  }
}
