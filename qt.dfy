/** The Qt flag values the formatters test, as bit positions of Qt's 32-bit
    flags words (Qt::KeyboardModifier and Qt::MouseButton in qnamespace.h,
    which is not part of this model). Each is a single bit, so a flag is
    identified by its position. */
module Qt {
  import opened FlagText

  const ShiftModifier: Bit := 25    // 0x02000000
  const ControlModifier: Bit := 26  // 0x04000000
  const AltModifier: Bit := 27      // 0x08000000
  const MetaModifier: Bit := 28     // 0x10000000
  const KeypadModifier: Bit := 29   // 0x20000000

  const LeftButton: Bit := 0        // 0x00000001
  const RightButton: Bit := 1       // 0x00000002
  const MiddleButton: Bit := 2      // 0x00000004
  const BackButton: Bit := 3        // 0x00000008
  const ForwardButton: Bit := 4     // 0x00000010
}
