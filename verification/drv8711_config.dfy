/** The default register set: one value per DRV8711 register, holding the vendor-recommended
    settings that are sent to the chip at start-up. */
module Drv8711Config {

  import opened Drv8711

  const RegCtrl := Ctrl(0x3, 0x3, 0x0, 0x0, 0x0, 0x0, 0x1)
  const RegTorque := Torque(0x0, 0xBA)
  const RegOff := Off(0x0, 0x30)
  const RegBlank := Blank(0x1, 0x08)
  const RegDecay := Decay(0x3, 0x10)
  const RegStall := Stall(0x3, 0x3, 0x40)
  const RegDrive := Drive(0x0, 0x0, 0x1, 0x1, 0x1, 0x1)
  const RegStatus := Status(0x0, 0x0, 0x0, 0x0, 0x0, 0x0, 0x0, 0x0)

  /** Every default field fits the width of its bit range. */
  lemma DefaultsFit()
    ensures RegCtrl.Fits() && RegTorque.Fits() && RegOff.Fits() && RegBlank.Fits()
    ensures RegDecay.Fits() && RegStall.Fits() && RegDrive.Fits() && RegStatus.Fits()
  {
  }

  /** The default CTRL mode is full step. */
  lemma DefaultCtrlIsFullStep()
    ensures RegCtrl.mode == MicrostepsMode(1) == MicrostepsMode(StepDivisor(0))
  {
  }

  /** The frames of the default set, in declaration order. */
  function DefaultWords(): (ws: seq<Word>)
    ensures ws == [0x0F01, 0x10BA, 0x2030, 0x3108, 0x4310, 0x5F40, 0x6055, 0x7000]
    ensures forall i :: 0 <= i < |ws| ==> Address(ws[i]) as int == i
    ensures forall i, j :: 0 <= i < j < |ws| ==> Address(ws[i]) != Address(ws[j])
  {
    [RegCtrl.Encode(), RegTorque.Encode(), RegOff.Encode(), RegBlank.Encode(),
     RegDecay.Encode(), RegStall.Encode(), RegDrive.Encode(), RegStatus.Encode()]
  }
}
