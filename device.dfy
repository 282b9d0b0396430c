/**
 * The operating-system side of the MSR engine: the `/dev/cpu/N/msr`
 * device files, their descriptors, and `pread`/`pwrite` of one 8-byte
 * register at an offset (msr/raplcap-msr.c, `open_msr`, `close`,
 * `read_msr_by_offset` and `write_msr_by_offset`).
 *
 * Descriptors are numbered from a counter that starts above 0, so a
 * descriptor handed out is always positive and never reused.
 */
module Msr {
  import opened Arith
  import opened Errors

  /** One CPU's MSR device: the registers it can read, and the ones it accepts writes to. */
  datatype Cpu = Cpu(regs: map<nat, u64>, writable: set<nat>)

  class Kernel {
    /** The CPUs that have an MSR device file. */
    var cpus: map<nat, Cpu>
    /** Open descriptors, each with the CPU whose device it refers to. */
    var open: map<int, nat>
    /** The next descriptor number to hand out. */
    var next: int

    ghost predicate Valid()
      reads this
    {
      next > 0 && forall fd :: fd in open ==> 0 < fd < next && open[fd] in cpus
    }

    /** A machine with the given devices and no descriptor open but the three standard ones. */
    constructor(cpus: map<nat, Cpu>)
      ensures Valid() && this.cpus == cpus && open == map[]
    {
      this.cpus := cpus;
      open := map[];
      next := 3;
    }

    /** A descriptor refers to a CPU that has `offset` among its registers. */
    predicate Readable(fd: int, offset: nat)
      reads this
    {
      fd in open && open[fd] in cpus && offset in cpus[open[fd]].regs
    }

    /** ... and that CPU accepts writes to it. */
    predicate Writable(fd: int, offset: nat)
      reads this
    {
      Readable(fd, offset) && offset in cpus[open[fd]].writable
    }

    /** The devices after `value` is stored in register `offset` of the CPU behind fd. */
    function Stored(fd: int, offset: nat, value: u64): map<nat, Cpu>
      reads this
      requires fd in open && open[fd] in cpus
    {
      var c := open[fd];
      cpus[c := cpus[c].(regs := cpus[c].regs[offset := value])]
    }

    /**
     * `open_msr`: opens the MSR device of a CPU for reading and writing.
     * It gives a fresh positive descriptor, or -1 when the CPU has no device.
     */
    method Open(core: nat) returns (fd: int)
      requires Valid()
      modifies this
      ensures Valid() && cpus == old(cpus)
      ensures core in cpus ==> fd == old(next) && fd > 0 && fd !in old(open)
                               && open == old(open)[fd := core] && next == old(next) + 1
      ensures core !in cpus ==> fd == -1 && open == old(open) && next == old(next)
    {
      if core in cpus {
        fd := next;
        open := open[fd := core];
        next := next + 1;
      } else {
        fd := -1;
      }
    }

    /** `close`: releases an open descriptor; any other number fails with EBADF. */
    method Close(fd: int) returns (r: Result<()>)
      requires Valid()
      modifies this
      ensures Valid() && cpus == old(cpus) && next == old(next)
      ensures fd in old(open) ==> r == Ok(()) && open == old(open) - {fd}
      ensures fd !in old(open) ==> r == Err(EBADF) && open == old(open)
    {
      if fd in open {
        open := open - {fd};
        r := Ok(());
      } else {
        r := Err(EBADF);
      }
    }

    /**
     * `read_msr_by_offset`: the 8 bytes at `offset` of the device behind fd.
     * A descriptor that is not open fails with EBADF, a register the CPU
     * does not have with EIO.
     */
    function Read(fd: int, offset: nat): (r: Result<u64>)
      reads this
      ensures r.Ok? <==> Readable(fd, offset)
      ensures r.Ok? ==> r.value == cpus[open[fd]].regs[offset]
      ensures r.Err? ==> r.error == if fd in open then EIO else EBADF
    {
      if fd !in open then Err(EBADF)
      else if open[fd] in cpus && offset in cpus[open[fd]].regs then Ok(cpus[open[fd]].regs[offset])
      else Err(EIO)
    }

    /**
     * `write_msr_by_offset`: stores `value` at `offset` of the device behind
     * fd. A descriptor that is not open fails with EBADF, a register the CPU
     * does not have or does not let be written with EIO; a failed write
     * changes nothing.
     */
    method Write(fd: int, offset: nat, value: u64) returns (r: Result<()>)
      requires Valid()
      modifies this
      ensures Valid() && open == old(open) && next == old(next)
      ensures r.Ok? <==> old(Writable(fd, offset))
      ensures r.Ok? ==> cpus == old(Stored(fd, offset, value))
      ensures r.Err? ==> cpus == old(cpus) && r.error == if fd in open then EIO else EBADF
    {
      if fd !in open {
        r := Err(EBADF);
      } else if Writable(fd, offset) {
        cpus := Stored(fd, offset, value);
        r := Ok(());
      } else {
        r := Err(EIO);
      }
    }
  }
}
