/** Virtual-key codes, the punctuation test and the input methods shared by the key machines. */
module Keys {

  const VK_BACK := 0x08
  const VK_TAB := 0x09
  const VK_RETURN := 0x0D
  const VK_ESCAPE := 0x1B
  const VK_SPACE := 0x20
  const VK_PRIOR := 0x21
  const VK_NEXT := 0x22
  const VK_END := 0x23
  const VK_HOME := 0x24
  const VK_LEFT := 0x25
  const VK_DOWN := 0x28
  const VK_DELETE := 0x2E
  const VK_0 := 0x30
  const VK_1 := 0x31
  const VK_9 := 0x39
  const VK_A := 0x41
  const VK_Z := 0x5A
  const VK_NUMPAD0 := 0x60
  const VK_DIVIDE := 0x6F
  const VK_OEM_1 := 0xBA
  const VK_OEM_PLUS := 0xBB
  const VK_OEM_COMMA := 0xBC
  const VK_OEM_MINUS := 0xBD
  const VK_OEM_PERIOD := 0xBE
  const VK_OEM_2 := 0xBF
  const VK_OEM_3 := 0xC0
  const VK_OEM_4 := 0xDB
  const VK_OEM_8 := 0xDF

  datatype InputMethod = Telex | VNI | SimpleTelex | Combined | UserDefined

  predicate IsLetterKey(vk: nat) {
    VK_A <= vk <= VK_Z
  }

  predicate UsesDigits(m: InputMethod) {
    m.VNI? || m.Combined? || m.UserDefined?
  }

  predicate IsPunctuationKey(vk: nat) {
    || VK_0 <= vk <= VK_9
    || VK_NUMPAD0 <= vk <= VK_DIVIDE
    || VK_OEM_1 <= vk <= VK_OEM_3
    || VK_OEM_4 <= vk <= VK_OEM_8
    || vk == VK_OEM_PLUS || vk == VK_OEM_COMMA || vk == VK_OEM_MINUS || vk == VK_OEM_PERIOD
    || vk == VK_TAB
  }

  /** The shared settings name the method by a number; the text service accepts 0 to 2 and falls back to Telex. */
  function MethodOf(raw: nat): InputMethod {
    if raw == 1 then VNI else if raw == 2 then SimpleTelex else Telex
  }
}
