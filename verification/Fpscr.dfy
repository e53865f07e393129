/**
 The emulated FPSCR (`PPCFPSCRRegister`): a cached copy of the host's floating-point control
 register, through which emitted code switches denormal flushing and guest code sets the rounding mode.
 */
module Fpscr {

  datatype Arch = X64 | Arm64 {
    /** The rounding mode bits, shifted down from bit 13 or 22. */
    function RoundField(host: bv32): bv2 {
      match this
      case X64 => ((host & 0x6000) >> 13) as bv2
      case Arm64 => ((host & 0xC0_0000) >> 22) as bv2
    }

    function RoundMask(): bv32 { if this == X64 then 0x6000 else 0xC0_0000 }

    /** All bits that make the host flush denormals. */
    function FlushMask(): bv32 { if this == X64 then 0x8040 else 0x108_0000 }

    function GuestToHost(mode: bv2): bv32 {
      match this
      case X64 => (match mode case 0 => 0x0000 case 1 => 0x6000 case 2 => 0x4000 case _ => 0x2000)
      case Arm64 => (match mode case 0 => 0x0 case 1 => 0xC0_0000 case 2 => 0x40_0000 case _ => 0x80_0000)
    }
  }

  /** One table serves both hosts. */
  function HostToGuest(mode: bv2): bv2 {
    match mode
    case 0 => 0
    case 1 => 3
    case 2 => 2
    case _ => 1
  }

  /** The cached and the real control register. */
  datatype Csr = Csr(cached: bv32, host: bv32) {
    predicate Coherent() { cached == host }
  }

  function SwitchFlush(arch: Arch, c: Csr, enable: bool, unconditional: bool): Csr {
    var m := arch.FlushMask();
    if enable then
      if unconditional || c.cached & m != m then Csr(c.cached | m, c.cached | m) else c
    else
      if unconditional || c.cached & m != 0 then Csr(c.cached & !m, c.cached & !m) else c
  }

  function RoundingStored(arch: Arch, c: Csr, mode: bv2): Csr {
    var v := (c.cached & !arch.RoundMask()) | arch.GuestToHost(mode);
    Csr(v, v)
  }

  /** The flush bits that the host obeys. */
  function FlushBits(arch: Arch, c: Csr): bv32 { c.host & arch.FlushMask() }

  function BitsFor(arch: Arch, enable: bool): bv32 { if enable then arch.FlushMask() else 0 }

  class FpscrRegister {
    const arch: Arch
    var csr: bv32

    ghost function Value(host: ControlRegister): Csr
      reads this, host
    {
      Csr(csr, host.value)
    }

    method LoadFromHost(host: ControlRegister) returns (mode: bv2)
      modifies this
      ensures Value(host) == Csr(host.value, host.value)
      ensures mode == HostToGuest(arch.RoundField(host.value))
    {
      csr := host.value;
      mode := HostToGuest(arch.RoundField(csr));
    }

    method StoreFromGuest(host: ControlRegister, value: bv32)
      modifies this, host
      ensures Value(host) == RoundingStored(arch, old(Value(host)), (value & 3) as bv2)
    {
      csr := csr & !arch.RoundMask();
      csr := csr | arch.GuestToHost((value & 3) as bv2);
      host.value := csr;
    }

    method EnableFlushModeUnconditional(host: ControlRegister)
      modifies this, host
      ensures Value(host) == SwitchFlush(arch, old(Value(host)), true, true)
    {
      csr := csr | arch.FlushMask();
      host.value := csr;
    }

    method DisableFlushModeUnconditional(host: ControlRegister)
      modifies this, host
      ensures Value(host) == SwitchFlush(arch, old(Value(host)), false, true)
    {
      csr := csr & !arch.FlushMask();
      host.value := csr;
    }

    method EnableFlushMode(host: ControlRegister)
      modifies this, host
      ensures Value(host) == SwitchFlush(arch, old(Value(host)), true, false)
    {
      if csr & arch.FlushMask() != arch.FlushMask() {
        csr := csr | arch.FlushMask();
        host.value := csr;
      }
    }

    method DisableFlushMode(host: ControlRegister)
      modifies this, host
      ensures Value(host) == SwitchFlush(arch, old(Value(host)), false, false)
    {
      if csr & arch.FlushMask() != 0 {
        csr := csr & !arch.FlushMask();
        host.value := csr;
      }
    }
  }

  class ControlRegister {
    var value: bv32
  }

  /**
   From a coherent state a switch sets or clears every flush bit of the host and stays coherent,
   whether or not it is allowed to skip the write.
   */
  lemma SwitchFlushSwitches(arch: Arch, c: Csr, enable: bool, unconditional: bool)
    requires c.Coherent()
    ensures var d := SwitchFlush(arch, c, enable, unconditional);
            && d.Coherent()
            && FlushBits(arch, d) == BitsFor(arch, enable)
  {
    if arch == X64 {
      SwitchX64(c, enable, unconditional);
    } else {
      SwitchArm64(c, enable, unconditional);
    }
  }

  /** d is x with the bits of m set or cleared, or x itself. */
  ghost predicate Switched(m: bv32, x: bv32, d: bv32, enable: bool, changed: bool) {
    d == if changed then (if enable then x | m else x & !m) else x
  }

  lemma SwitchedKeeps(m: bv32, x: bv32, d: bv32, enable: bool, changed: bool)
    requires Switched(m, x, d, enable, changed)
    ensures d & !m == x & !m
  {
  }

  lemma SwitchIsSwitched(arch: Arch, c: Csr, enable: bool, unconditional: bool, d: Csr) returns (changed: bool)
    requires c.Coherent() && d == SwitchFlush(arch, c, enable, unconditional)
    ensures Switched(arch.FlushMask(), c.cached, d.host, enable, changed)
  {
    changed := d != c;
  }

  /** A switch changes no other bit of the host's register. */
  lemma SwitchKeepsOthers(arch: Arch, c: Csr, enable: bool, unconditional: bool)
    requires c.Coherent()
    ensures SwitchFlush(arch, c, enable, unconditional).host & !arch.FlushMask() == c.cached & !arch.FlushMask()
  {
    var d := SwitchFlush(arch, c, enable, unconditional);
    var changed := SwitchIsSwitched(arch, c, enable, unconditional, d);
    SwitchedKeeps(arch.FlushMask(), c.cached, d.host, enable, changed);
  }

  lemma SwitchX64(c: Csr, enable: bool, unconditional: bool)
    requires c.Coherent()
    ensures var d := SwitchFlush(X64, c, enable, unconditional);
            d.Coherent() && d.host & 0x8040 == (if enable then 0x8040 else 0)
  {
    MaskX64(c.cached);
  }

  lemma SwitchArm64(c: Csr, enable: bool, unconditional: bool)
    requires c.Coherent()
    ensures var d := SwitchFlush(Arm64, c, enable, unconditional);
            d.Coherent() && d.host & 0x108_0000 == (if enable then 0x108_0000 else 0)
  {
    MaskArm64(c.cached);
  }

  lemma MaskX64(x: bv32)
    ensures (x | 0x8040) & 0x8040 == 0x8040 && (x & !0x8040) & 0x8040 == 0
  {
  }

  lemma MaskArm64(x: bv32)
    ensures (x | 0x108_0000) & 0x108_0000 == 0x108_0000 && (x & !0x108_0000) & 0x108_0000 == 0
  {
  }

  /** Setting the rounding mode leaves the flush bits alone. */
  lemma RoundingKeepsFlush(arch: Arch, c: Csr, mode: bv2)
    requires c.Coherent()
    ensures RoundingStored(arch, c, mode).Coherent()
    ensures FlushBits(arch, RoundingStored(arch, c, mode)) == FlushBits(arch, c)
  {
  }

  /** Setting the rounding mode changes no bit but the two of the mode. */
  lemma RoundingKeepsOthers(arch: Arch, c: Csr, mode: bv2)
    ensures RoundingStored(arch, c, mode).host & !arch.RoundMask() == c.cached & !arch.RoundMask()
  {
  }

  datatype Direction = Nearest | Zero | Up | Down

  /** The RN field of the FPSCR. */
  function GuestDirection(mode: bv2): Direction { match mode case 0 => Nearest case 1 => Zero case 2 => Up case _ => Down }

  /** The RC field of MXCSR, and the RMode field of FPCR. */
  function HostDirection(arch: Arch, field: bv2): Direction {
    match arch
    case X64 => (match field case 0 => Nearest case 1 => Down case 2 => Up case _ => Zero)
    case Arm64 => (match field case 0 => Nearest case 1 => Up case 2 => Down case _ => Zero)
  }

  /** The host rounds as the guest asked. */
  lemma HostRoundsAsAsked(arch: Arch, c: Csr, mode: bv2)
    ensures HostDirection(arch, arch.RoundField(RoundingStored(arch, c, mode).host)) == GuestDirection(mode)
  {
    StoredRoundField(arch, c, mode);
  }

  /** What the guest reads is how the host rounds, if and only if the host is x64 or rounds in no direction. */
  lemma ReadDirectionIsHosts(arch: Arch, field: bv2)
    ensures GuestDirection(HostToGuest(field)) == HostDirection(arch, field) <==> arch == X64 || field == 0 || field == 3
  {
  }

  lemma StoredRoundField(arch: Arch, c: Csr, mode: bv2)
    ensures arch.RoundField(RoundingStored(arch, c, mode).host) == arch.RoundField(arch.GuestToHost(mode))
  {
    if arch == X64 {
      FieldX64(c.cached, arch.GuestToHost(mode));
    } else {
      FieldArm64(c.cached, arch.GuestToHost(mode));
    }
  }

  lemma FieldX64(x: bv32, g: bv32)
    ensures ((x & !0x6000) | g) & 0x6000 == g & 0x6000
  {
  }

  lemma FieldArm64(x: bv32, g: bv32)
    ensures ((x & !0xC0_0000) | g) & 0xC0_0000 == g & 0xC0_0000
  {
  }

  /**
   The guest reads back the rounding mode that it set, if and only if the host is x64 or the mode is
   one of the two that name no direction: the table for reading back is x64's on both hosts.
   */
  lemma RoundingRoundTrips(arch: Arch, c: Csr, mode: bv2)
    ensures HostToGuest(arch.RoundField(RoundingStored(arch, c, mode).host)) == mode <==> arch == X64 || mode <= 1
  {
    StoredRoundField(arch, c, mode);
    assert mode == 0 || mode == 1 || mode == 2 || mode == 3;
  }
}
