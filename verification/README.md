# DRV8711 register layer in Dafny

This project models the configuration-register layer of a driver library for the TI DRV8711
stepper gate driver. It has three parts.

- **Register codec** (`drv8711.dfy`, module `Drv8711`). There is one datatype for each of the
  chip's eight registers: CTRL, TORQUE, OFF, BLANK, DECAY, STALL, DRIVE and STATUS. Each field is
  a C++ `unsigned int`, modelled as `bv32`. Each datatype's `Encode` is the struct's
  `operator uint16_t()`, which builds the register's SPI frame:
  - the address is placed at bit 12;
  - every field is shifted to its offset on 32 bits;
  - the results are ORed together;
  - the sum is truncated to 16 bits (`bv16`).

  `Fits` says every field is within the width its layout comment gives. `Decode` reads those bit
  ranges back out of a frame. Neither is in the driver: they exist so that the round trips can
  be stated.
- **Microstep resolver** (`MicrostepsMode`). This is `drv8711_driver::microsteps_mode`: divisor
  2^k gives mode code k for k = 0..8, and every other divisor gives 0 (full step).
- **Default configuration set** (`drv8711_config.dfy`, module `Drv8711Config`). These are the
  eight vendor-recommended register values as constants, with their exact frames.

How the code behaves, which this model follows:

- **Address bits.** The layout comments put the address in bits 14-12. The encoders shift the
  address by 12 and addresses are at most 7, so bit 15 is 0 whenever the fields fit. The model
  reads the address as the whole nibble 15-12. `Address(w) == a` therefore also says that bit 15
  is clear.
- **Oversized fields.** A field that is too large is not masked and not rejected. It is ORed into
  the bits above its range, and bits pushed past bit 15 are lost. The address is therefore
  guaranteed only when the fields fit. For example, TORQUE with simplth = 0x20 encodes to 0x3000,
  which is the frame of BLANK with both fields 0. For any field values, the register's own
  address bits are still always set.
- **Unrecognised divisors.** `microsteps_mode` returns 0 (full step) silently. Its local starts
  as `true` (1), but every branch of the switch overwrites it, so the function is a total lookup.
  There is no assertion and no error result.

## Model

| member | source | states |
|---|---|---|
| `Drv8711.Ctrl.Encode` | source/drv8711.cpp:10-21 | For in-range fields, the frame's bits 15-12 are CTRL's address 0 (bit 15 clear), and decoding bits 11-10, 9-8, 7, 6-3, 2, 1 and 0 returns every field exactly |
| `Drv8711.Ctrl.Decode` | source/drv8711.cpp:11-18 | Reading the commented bit ranges of any frame gives a CTRL value whose fields all fit |
| `Drv8711.CtrlDecodeEncode` | source/drv8711.cpp:19-21 | Every frame with address 0 is the encoding of the CTRL value decoded from it, so encoding is onto the CTRL frames |
| `Drv8711.CtrlInjective` | source/drv8711.cpp:19-21 | Two in-range CTRL values with the same frame are equal |
| `Drv8711.CtrlModeOverflow` | source/drv8711.cpp:20 | For any fields, the frame is the frame with mode cut to 4 bits, ORed with mode's upper bits placed from bit 7 upwards and truncated to 16 bits: no masking, no rejection |
| `Drv8711.OversizedModeSpillsIntoExstall` | source/drv8711.cpp:20 | mode = 16 and exstall = 1 give the same frame 0x0080, so without range conditions encoding is not injective |
| `Drv8711.OversizedDtimeTruncated` | source/drv8711.cpp:19-20 | A dtime whose bits land past bit 15 is lost in the 16-bit conversion |
| `Drv8711.Torque.Encode` | source/drv8711.cpp:24-31 | The address-1 bit is always set. For in-range fields, the address is exactly 1, reserved bit 11 is 0, and simplth (10-8) and torque (7-0) decode back exactly |
| `Drv8711.Torque.Decode` | source/drv8711.cpp:26-28 | Decoded TORQUE fields always fit |
| `Drv8711.TorqueDecodeEncode` | source/drv8711.cpp:29-31 | Every frame with address 1 and bit 11 clear is the encoding of its decoded value |
| `Drv8711.TorqueInjective` | source/drv8711.cpp:29-31 | In-range TORQUE values with equal frames are equal |
| `Drv8711.TorqueSimplthOverflow` | source/drv8711.cpp:30 | simplth's bits above its 3 are ORed into bit 11 and the address nibble |
| `Drv8711.OversizedSimplthChangesAddress` | source/drv8711.cpp:30 | TORQUE with simplth = 0x20 encodes to 0x3000, the frame of BLANK(0, 0), whose address is 3 |
| `Drv8711.Off.Encode` | source/drv8711.cpp:34-41 | The address-2 bits are always set. For in-range fields, the address is exactly 2, reserved bits 11-9 are 0, and pwmmode (8) and toff (7-0) decode back exactly |
| `Drv8711.Off.Decode` | source/drv8711.cpp:36-38 | Decoded OFF fields always fit |
| `Drv8711.OffDecodeEncode` | source/drv8711.cpp:39-41 | Every frame with address 2 and bits 11-9 clear is the encoding of its decoded value |
| `Drv8711.OffInjective` | source/drv8711.cpp:39-41 | In-range OFF values with equal frames are equal |
| `Drv8711.Blank.Encode` | source/drv8711.cpp:44-51 | The address-3 bits are always set. For in-range fields, the address is exactly 3, reserved bits 11-9 are 0, and abt (8) and tblank (7-0) decode back exactly |
| `Drv8711.Blank.Decode` | source/drv8711.cpp:46-48 | Decoded BLANK fields always fit |
| `Drv8711.BlankDecodeEncode` | source/drv8711.cpp:49-51 | Every frame with address 3 and bits 11-9 clear is the encoding of its decoded value |
| `Drv8711.BlankInjective` | source/drv8711.cpp:49-51 | In-range BLANK values with equal frames are equal |
| `Drv8711.Decay.Encode` | source/drv8711.cpp:54-61 | The address-4 bit is always set. For in-range fields, the address is exactly 4, reserved bit 11 is 0, and decmod (10-8) and tdecay (7-0) decode back exactly |
| `Drv8711.Decay.Decode` | source/drv8711.cpp:56-58 | Decoded DECAY fields always fit |
| `Drv8711.DecayDecodeEncode` | source/drv8711.cpp:59-61 | Every frame with address 4 and bit 11 clear is the encoding of its decoded value |
| `Drv8711.DecayInjective` | source/drv8711.cpp:59-61 | In-range DECAY values with equal frames are equal |
| `Drv8711.Stall.Encode` | source/drv8711.cpp:64-71 | The address-5 bits are always set. For in-range fields, the address is exactly 5, and vdiv (11-10), sdcnt (9-8) and sdthr (7-0) decode back exactly |
| `Drv8711.Stall.Decode` | source/drv8711.cpp:65-68 | Decoded STALL fields always fit |
| `Drv8711.StallDecodeEncode` | source/drv8711.cpp:69-71 | Every frame with address 5 is the encoding of its decoded value |
| `Drv8711.StallInjective` | source/drv8711.cpp:69-71 | In-range STALL values with equal frames are equal |
| `Drv8711.Drive.Encode` | source/drv8711.cpp:74-84 | The address-6 bits are always set. For in-range fields, the address is exactly 6, and idrivep, idriven, tdrivep, tdriven, ocpdeg and ocpth (two bits each, from 11-10 down to 1-0) decode back exactly |
| `Drv8711.Drive.Decode` | source/drv8711.cpp:75-81 | Decoded DRIVE fields always fit |
| `Drv8711.DriveDecodeEncode` | source/drv8711.cpp:82-84 | Every frame with address 6 is the encoding of its decoded value |
| `Drv8711.DriveInjective` | source/drv8711.cpp:82-84 | In-range DRIVE values with equal frames are equal |
| `Drv8711.DriveOcpthOverflow` | source/drv8711.cpp:83 | ocpth's bits above its 2 are ORed into ocpdeg and the fields above it |
| `Drv8711.OversizedOcpthSpillsIntoOcpdeg` | source/drv8711.cpp:83 | ocpth = 4 and ocpdeg = 1 give the same frame 0x6004 |
| `Drv8711.Status.Encode` | source/drv8711.cpp:87-100 | The address-7 bits are always set. For in-range fields, the address is exactly 7, reserved bits 11-8 are 0, and the eight one-bit flags (7 down to 0) decode back exactly |
| `Drv8711.Status.Decode` | source/drv8711.cpp:88-97 | Decoded STATUS fields always fit |
| `Drv8711.StatusDecodeEncode` | source/drv8711.cpp:98-100 | Every frame with address 7 and bits 11-8 clear is the encoding of its decoded value |
| `Drv8711.StatusInjective` | source/drv8711.cpp:98-100 | In-range STATUS values with equal frames are equal |
| `Drv8711.MicrostepsMode` | source/drv8711.cpp:106-140 | The code is at most 8 and fits the 4-bit mode field. For a power of two from 1 to 256 it is the exponent (1 << code == divisor). For every other divisor it is 0 |
| `Drv8711.ModeOfStepDivisor` | source/drv8711.cpp:108-135 | After k doublings of 1 (k = 0..8) the divisor is accepted and its code is k |
| `Drv8711.ModesIncreasing` | source/drv8711.cpp:108-135 | Over 1, 2, 4, ..., 256 the codes strictly increase |
| `Drv8711.UnsupportedDivisorsGiveFullStep` | source/drv8711.cpp:136-139 | 0, 3, 512 and 0xFFFFFFFF give code 0 |
| `Drv8711.ResolvedModeRoundTrips` | source/drv8711.cpp:106-139 | Putting a resolved code into an in-range CTRL value keeps it in range: bits 6-3 of its frame hold the code and every field decodes back |
| `Drv8711Config.DefaultsFit` | source/drv8711_config.cpp:14-68 | Every default field fits the width its register's layout gives it |
| `Drv8711Config.DefaultCtrlIsFullStep` | source/drv8711_config.cpp:14-22 | The default CTRL mode is 0, the code for divisor 1 (full step) |
| `Drv8711Config.DefaultWords` | source/drv8711_config.cpp:14-68 | The defaults encode to 0x0F01, 0x10BA, 0x2030, 0x3108, 0x4310, 0x5F40, 0x6055 and 0x7000. The i-th frame carries address i, so the eight addresses are pairwise distinct |

## Left out

- The bus hooks `write`, `init_spi`, `init_gpio` and `init_registers` (source/drv8711.cpp:142-145) are pure virtual and have no bodies. SPI and GPIO transport, and the order in which the defaults are sent, are outside this model. `DefaultWords` lists the frames in declaration order only.
- The `stepper_driver` base module is not part of this model.
- No read-back ("fetch") operation and no read-modify-write "set microsteps" routine appear in the modelled files, so neither is modelled. `ResolvedModeRoundTrips` states only what putting a resolved code into the CTRL mode field does to the frame.
- The default registers are global mutable objects that callers may change before sending. They are modelled as constants.
- C++20 module/export syntax and the `virtual`/`protected` qualifiers carry no behaviour and are not modelled.
- `MicrostepsMode` is a total lookup. The local variable's initial value `true` is never returned, so it does not appear in the model.
- The statement that no field bit is lost below bit 16 is proved for one field of each of CTRL, TORQUE and DRIVE (`CtrlModeOverflow`, `TorqueSimplthOverflow`, `DriveOcpthOverflow`), not for every field. The remaining cases follow from the same OR-and-truncate encoder, which every `Encode` uses.
