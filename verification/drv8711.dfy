/** Register codec and microstep resolver of the TI DRV8711 stepper gate driver.

    Each of the chip's eight configuration registers is a value whose fields are
    C++ `unsigned int`s. Its conversion to `uint16_t` builds the 16-bit SPI frame:
    every field is shifted to its bit offset on 32 bits, the results and the
    register address (shifted to bit 12) are ORed together, and the sum is
    truncated to 16 bits. No field is masked to its width, so an oversized field
    spills into the bits above it.

    `Decode` and the `Fits` predicates are not part of the driver: they read the
    bit ranges the driver's layout comments give, so that the round trips can be
    stated. */
module Drv8711 {

  /** C++ `unsigned int`, the type of every register field and of the microstep divisor. */
  type UInt = bv32

  /** C++ `uint16_t`, one SPI frame. */
  type Word = bv16

  /** The implicit conversion of an `unsigned int` to `uint16_t`: the low 16 bits. */
  function Truncate(x: UInt): Word
  {
    (x & 0xFFFF) as Word
  }

  /** The bits of `w` from position `lo` upwards that `mask` selects, as a field value. */
  function Bits(w: Word, lo: Word, mask: Word): UInt
    requires lo <= 16
  {
    ((w >> lo) & mask) as UInt
  }

  /** `x` fits in a field `width` bits wide. */
  predicate FitsIn(x: UInt, width: UInt)
    requires width <= 32
  {
    x >> width == 0
  }

  /** The address nibble of a frame: bits 15-12. */
  function Address(w: Word): Word
  {
    w >> 12
  }

  /** `w` has every address bit of register address `a` set. */
  predicate HasAddressBits(w: Word, a: Word)
    requires a <= 15
  {
    w & (a << 12) == a << 12
  }

  const CtrlAddress: Word := 0x0
  const TorqueAddress: Word := 0x1
  const OffAddress: Word := 0x2
  const BlankAddress: Word := 0x3
  const DecayAddress: Word := 0x4
  const StallAddress: Word := 0x5
  const DriveAddress: Word := 0x6
  const StatusAddress: Word := 0x7

  /** Bits that a register's layout leaves unused. */
  const TorqueReserved: Word := 0x0800   // bit 11
  const OffReserved: Word := 0x0E00      // bits 11-9
  const BlankReserved: Word := 0x0E00    // bits 11-9
  const DecayReserved: Word := 0x0800    // bit 11
  const StatusReserved: Word := 0x0F00   // bits 11-8

  // ---------------------------------------------------------------------------
  // CTRL, address 0: dtime 11-10, isgain 9-8, exstall 7, mode 6-3, rstep 2, rdir 1, enbl 0

  datatype Ctrl = Ctrl(dtime: UInt, isgain: UInt, exstall: UInt, mode: UInt, rstep: UInt, rdir: UInt, enbl: UInt)
  {
    predicate Fits()
    {
      FitsIn(dtime, 2) && FitsIn(isgain, 2) && FitsIn(exstall, 1) && FitsIn(mode, 4)
      && FitsIn(rstep, 1) && FitsIn(rdir, 1) && FitsIn(enbl, 1)
    }

    /** A frame that some in-range CTRL value encodes to. */
    static predicate IsWord(w: Word)
    {
      Address(w) == CtrlAddress
    }

    /** The SPI frame (`operator uint16_t`). */
    function Encode(): (w: Word)
      ensures Fits() ==> IsWord(w) && w & 0x8000 == 0
      ensures Fits() ==> Decode(w) == this
    {
      Truncate((0x0 << 12) | (dtime << 10) | (isgain << 8) | (exstall << 7) | (mode << 3) | (rstep << 2) | (rdir << 1) | enbl)
    }

    static function Decode(w: Word): (c: Ctrl)
      ensures c.Fits()
    {
      Ctrl(Bits(w, 10, 0x3), Bits(w, 8, 0x3), Bits(w, 7, 0x1), Bits(w, 3, 0xF), Bits(w, 2, 0x1), Bits(w, 1, 0x1), Bits(w, 0, 0x1))
    }
  }

  lemma CtrlDecodeEncode(w: Word)
    requires Ctrl.IsWord(w)
    ensures Ctrl.Decode(w).Encode() == w
  {
  }

  lemma CtrlInjective(a: Ctrl, b: Ctrl)
    requires a.Fits() && b.Fits() && a.Encode() == b.Encode()
    ensures a == b
  {
  }

  /** Fields are not masked: the bits of mode above its four are ORed into bits 7 and up (exstall,
      isgain, dtime, the address), and whatever passes bit 15 is dropped. */
  lemma CtrlModeOverflow(c: Ctrl)
    ensures c.Encode() == c.(mode := c.mode & 0xF).Encode() | Truncate((c.mode >> 4) << 7)
  {
  }

  /** A mode of 16 (five bits) lands on exstall: two different values share one frame. */
  lemma OversizedModeSpillsIntoExstall()
    ensures Ctrl(0, 0, 0, 16, 0, 0, 0).Encode() == Ctrl(0, 0, 1, 0, 0, 0, 0).Encode() == 0x0080
  {
  }

  /** Bits shifted past bit 15 are dropped by the conversion to 16 bits. */
  lemma OversizedDtimeTruncated()
    ensures Ctrl(0x40, 0, 0, 0, 0, 0, 1).Encode() == Ctrl(0, 0, 0, 0, 0, 0, 1).Encode() == 0x0001
  {
  }

  // ---------------------------------------------------------------------------
  // TORQUE, address 1: bit 11 unused, simplth 10-8, torque 7-0

  datatype Torque = Torque(simplth: UInt, torque: UInt)
  {
    predicate Fits()
    {
      FitsIn(simplth, 3) && FitsIn(torque, 8)
    }

    static predicate IsWord(w: Word)
    {
      Address(w) == TorqueAddress && w & TorqueReserved == 0
    }

    function Encode(): (w: Word)
      ensures HasAddressBits(w, TorqueAddress)
      ensures Fits() ==> IsWord(w) && w & 0x8000 == 0
      ensures Fits() ==> Decode(w) == this
    {
      Truncate((0x1 << 12) | (simplth << 8) | torque)
    }

    static function Decode(w: Word): (t: Torque)
      ensures t.Fits()
    {
      Torque(Bits(w, 8, 0x7), Bits(w, 0, 0xFF))
    }
  }

  lemma TorqueDecodeEncode(w: Word)
    requires Torque.IsWord(w)
    ensures Torque.Decode(w).Encode() == w
  {
  }

  lemma TorqueInjective(a: Torque, b: Torque)
    requires a.Fits() && b.Fits() && a.Encode() == b.Encode()
    ensures a == b
  {
  }

  /** The bits of simplth above its three are ORed into the unused bit 11 and the address nibble. */
  lemma TorqueSimplthOverflow(t: Torque)
    ensures t.Encode() == t.(simplth := t.simplth & 0x7).Encode() | Truncate((t.simplth >> 3) << 11)
  {
  }

  /** simplth = 0x20 reaches the address nibble: the TORQUE value encodes to the frame of the
      BLANK register with all fields 0. */
  lemma OversizedSimplthChangesAddress()
    ensures Torque(0x20, 0).Encode() == Blank(0, 0).Encode() == 0x3000
    ensures Address(Torque(0x20, 0).Encode()) == BlankAddress
  {
  }

  // ---------------------------------------------------------------------------
  // OFF, address 2: bits 11-9 unused, pwmmode 8, toff 7-0

  datatype Off = Off(pwmmode: UInt, toff: UInt)
  {
    predicate Fits()
    {
      FitsIn(pwmmode, 1) && FitsIn(toff, 8)
    }

    static predicate IsWord(w: Word)
    {
      Address(w) == OffAddress && w & OffReserved == 0
    }

    function Encode(): (w: Word)
      ensures HasAddressBits(w, OffAddress)
      ensures Fits() ==> IsWord(w) && w & 0x8000 == 0
      ensures Fits() ==> Decode(w) == this
    {
      Truncate((0x2 << 12) | (pwmmode << 8) | toff)
    }

    static function Decode(w: Word): (o: Off)
      ensures o.Fits()
    {
      Off(Bits(w, 8, 0x1), Bits(w, 0, 0xFF))
    }
  }

  lemma OffDecodeEncode(w: Word)
    requires Off.IsWord(w)
    ensures Off.Decode(w).Encode() == w
  {
  }

  lemma OffInjective(a: Off, b: Off)
    requires a.Fits() && b.Fits() && a.Encode() == b.Encode()
    ensures a == b
  {
  }

  // ---------------------------------------------------------------------------
  // BLANK, address 3: bits 11-9 unused, abt 8, tblank 7-0

  datatype Blank = Blank(abt: UInt, tblank: UInt)
  {
    predicate Fits()
    {
      FitsIn(abt, 1) && FitsIn(tblank, 8)
    }

    static predicate IsWord(w: Word)
    {
      Address(w) == BlankAddress && w & BlankReserved == 0
    }

    function Encode(): (w: Word)
      ensures HasAddressBits(w, BlankAddress)
      ensures Fits() ==> IsWord(w) && w & 0x8000 == 0
      ensures Fits() ==> Decode(w) == this
    {
      Truncate((0x3 << 12) | (abt << 8) | tblank)
    }

    static function Decode(w: Word): (b: Blank)
      ensures b.Fits()
    {
      Blank(Bits(w, 8, 0x1), Bits(w, 0, 0xFF))
    }
  }

  lemma BlankDecodeEncode(w: Word)
    requires Blank.IsWord(w)
    ensures Blank.Decode(w).Encode() == w
  {
  }

  lemma BlankInjective(a: Blank, b: Blank)
    requires a.Fits() && b.Fits() && a.Encode() == b.Encode()
    ensures a == b
  {
  }

  // ---------------------------------------------------------------------------
  // DECAY, address 4: bit 11 unused, decmod 10-8, tdecay 7-0

  datatype Decay = Decay(decmod: UInt, tdecay: UInt)
  {
    predicate Fits()
    {
      FitsIn(decmod, 3) && FitsIn(tdecay, 8)
    }

    static predicate IsWord(w: Word)
    {
      Address(w) == DecayAddress && w & DecayReserved == 0
    }

    function Encode(): (w: Word)
      ensures HasAddressBits(w, DecayAddress)
      ensures Fits() ==> IsWord(w) && w & 0x8000 == 0
      ensures Fits() ==> Decode(w) == this
    {
      Truncate((0x4 << 12) | (decmod << 8) | tdecay)
    }

    static function Decode(w: Word): (d: Decay)
      ensures d.Fits()
    {
      Decay(Bits(w, 8, 0x7), Bits(w, 0, 0xFF))
    }
  }

  lemma DecayDecodeEncode(w: Word)
    requires Decay.IsWord(w)
    ensures Decay.Decode(w).Encode() == w
  {
  }

  lemma DecayInjective(a: Decay, b: Decay)
    requires a.Fits() && b.Fits() && a.Encode() == b.Encode()
    ensures a == b
  {
  }

  // ---------------------------------------------------------------------------
  // STALL, address 5: vdiv 11-10, sdcnt 9-8, sdthr 7-0

  datatype Stall = Stall(vdiv: UInt, sdcnt: UInt, sdthr: UInt)
  {
    predicate Fits()
    {
      FitsIn(vdiv, 2) && FitsIn(sdcnt, 2) && FitsIn(sdthr, 8)
    }

    static predicate IsWord(w: Word)
    {
      Address(w) == StallAddress
    }

    function Encode(): (w: Word)
      ensures HasAddressBits(w, StallAddress)
      ensures Fits() ==> IsWord(w) && w & 0x8000 == 0
      ensures Fits() ==> Decode(w) == this
    {
      Truncate((0x5 << 12) | (vdiv << 10) | (sdcnt << 8) | sdthr)
    }

    static function Decode(w: Word): (s: Stall)
      ensures s.Fits()
    {
      Stall(Bits(w, 10, 0x3), Bits(w, 8, 0x3), Bits(w, 0, 0xFF))
    }
  }

  lemma StallDecodeEncode(w: Word)
    requires Stall.IsWord(w)
    ensures Stall.Decode(w).Encode() == w
  {
  }

  lemma StallInjective(a: Stall, b: Stall)
    requires a.Fits() && b.Fits() && a.Encode() == b.Encode()
    ensures a == b
  {
  }

  // ---------------------------------------------------------------------------
  // DRIVE, address 6: idrivep 11-10, idriven 9-8, tdrivep 7-6, tdriven 5-4, ocpdeg 3-2, ocpth 1-0

  datatype Drive = Drive(idrivep: UInt, idriven: UInt, tdrivep: UInt, tdriven: UInt, ocpdeg: UInt, ocpth: UInt)
  {
    predicate Fits()
    {
      FitsIn(idrivep, 2) && FitsIn(idriven, 2) && FitsIn(tdrivep, 2)
      && FitsIn(tdriven, 2) && FitsIn(ocpdeg, 2) && FitsIn(ocpth, 2)
    }

    static predicate IsWord(w: Word)
    {
      Address(w) == DriveAddress
    }

    function Encode(): (w: Word)
      ensures HasAddressBits(w, DriveAddress)
      ensures Fits() ==> IsWord(w) && w & 0x8000 == 0
      ensures Fits() ==> Decode(w) == this
    {
      Truncate((0x6 << 12) | (idrivep << 10) | (idriven << 8) | (tdrivep << 6) | (tdriven << 4) | (ocpdeg << 2) | ocpth)
    }

    static function Decode(w: Word): (d: Drive)
      ensures d.Fits()
    {
      Drive(Bits(w, 10, 0x3), Bits(w, 8, 0x3), Bits(w, 6, 0x3), Bits(w, 4, 0x3), Bits(w, 2, 0x3), Bits(w, 0, 0x3))
    }
  }

  lemma DriveDecodeEncode(w: Word)
    requires Drive.IsWord(w)
    ensures Drive.Decode(w).Encode() == w
  {
  }

  lemma DriveInjective(a: Drive, b: Drive)
    requires a.Fits() && b.Fits() && a.Encode() == b.Encode()
    ensures a == b
  {
  }

  /** The bits of ocpth above its two are ORed into ocpdeg and the fields above it. */
  lemma DriveOcpthOverflow(d: Drive)
    ensures d.Encode() == d.(ocpth := d.ocpth & 0x3).Encode() | Truncate((d.ocpth >> 2) << 2)
  {
  }

  /** ocpth = 4 (three bits) lands on the low bit of ocpdeg. */
  lemma OversizedOcpthSpillsIntoOcpdeg()
    ensures Drive(0, 0, 0, 0, 0, 4).Encode() == Drive(0, 0, 0, 0, 1, 0).Encode() == 0x6004
  {
  }

  // ---------------------------------------------------------------------------
  // STATUS, address 7: bits 11-8 unused, stdlat 7, std 6, uvlo 5, bpdf 4, apdf 3, bocp 2, aocp 1, ots 0

  datatype Status = Status(stdlat: UInt, std: UInt, uvlo: UInt, bpdf: UInt, apdf: UInt, bocp: UInt, aocp: UInt, ots: UInt)
  {
    predicate Fits()
    {
      FitsIn(stdlat, 1) && FitsIn(std, 1) && FitsIn(uvlo, 1) && FitsIn(bpdf, 1)
      && FitsIn(apdf, 1) && FitsIn(bocp, 1) && FitsIn(aocp, 1) && FitsIn(ots, 1)
    }

    static predicate IsWord(w: Word)
    {
      Address(w) == StatusAddress && w & StatusReserved == 0
    }

    function Encode(): (w: Word)
      ensures HasAddressBits(w, StatusAddress)
      ensures Fits() ==> IsWord(w) && w & 0x8000 == 0
      ensures Fits() ==> Decode(w) == this
    {
      Truncate((0x7 << 12) | (stdlat << 7) | (std << 6) | (uvlo << 5) | (bpdf << 4) | (apdf << 3) | (bocp << 2) | (aocp << 1) | ots)
    }

    static function Decode(w: Word): (s: Status)
      ensures s.Fits()
    {
      Status(Bits(w, 7, 0x1), Bits(w, 6, 0x1), Bits(w, 5, 0x1), Bits(w, 4, 0x1),
             Bits(w, 3, 0x1), Bits(w, 2, 0x1), Bits(w, 1, 0x1), Bits(w, 0, 0x1))
    }
  }

  lemma StatusDecodeEncode(w: Word)
    requires Status.IsWord(w)
    ensures Status.Decode(w).Encode() == w
  {
  }

  lemma StatusInjective(a: Status, b: Status)
    requires a.Fits() && b.Fits() && a.Encode() == b.Encode()
    ensures a == b
  {
  }

  // ---------------------------------------------------------------------------
  // Microstep resolver

  /** A divisor the chip has a mode for: a power of two from 1 to 256. */
  predicate IsSupportedDivisor(d: UInt)
  {
    d != 0 && d & (d - 1) == 0 && d <= 256
  }

  /** `drv8711_driver::microsteps_mode`: the CTRL mode code for a microstep divisor. A divisor
      without a mode gives 0, full step. */
  function MicrostepsMode(microsteps: UInt): (mode: UInt)
    ensures mode <= 8 && FitsIn(mode, 4)
    ensures IsSupportedDivisor(microsteps) ==> (1 as UInt) << mode == microsteps
    ensures !IsSupportedDivisor(microsteps) ==> mode == 0
  {
    match microsteps
    case 1 => 0x0
    case 2 => 0x1
    case 4 => 0x2
    case 8 => 0x3
    case 16 => 0x4
    case 32 => 0x5
    case 64 => 0x6
    case 128 => 0x7
    case 256 => 0x8
    case _ => 0x0
  }

  /** The divisor after `k` doublings of a full step. */
  function StepDivisor(k: nat): UInt
    requires k <= 8
  {
    if k == 0 then 1 else 2 * StepDivisor(k - 1)
  }

  /** Each doubling of the divisor is accepted and selects the next mode code. */
  lemma {:induction false} ModeOfStepDivisor(k: nat)
    requires k <= 8
    ensures IsSupportedDivisor(StepDivisor(k))
    ensures MicrostepsMode(StepDivisor(k)) as int == k
  {
    match k
    case 0 =>
    case 1 =>
    case 2 =>
    case 3 =>
    case 4 =>
    case 5 =>
    case 6 =>
    case 7 =>
    case 8 =>
  }

  /** Over 1, 2, 4, ..., 256 the mode codes strictly increase. */
  lemma ModesIncreasing(i: nat, j: nat)
    requires i < j <= 8
    ensures MicrostepsMode(StepDivisor(i)) < MicrostepsMode(StepDivisor(j))
  {
    ModeOfStepDivisor(i);
    ModeOfStepDivisor(j);
  }

  /** Divisors outside the table fall back to full step. */
  lemma UnsupportedDivisorsGiveFullStep()
    ensures MicrostepsMode(0) == 0
    ensures MicrostepsMode(3) == 0
    ensures MicrostepsMode(512) == 0
    ensures MicrostepsMode(0xFFFF_FFFF) == 0
  {
  }

  /** Putting a resolved mode into an in-range CTRL value keeps it in range, so the frame carries the
      mode in bits 6-3 and every other field unchanged. */
  lemma ResolvedModeRoundTrips(c: Ctrl, microsteps: UInt)
    requires c.Fits()
    ensures var c' := c.(mode := MicrostepsMode(microsteps));
      && c'.Fits()
      && Bits(c'.Encode(), 3, 0xF) == MicrostepsMode(microsteps)
      && Ctrl.Decode(c'.Encode()) == c'
  {
  }
}
