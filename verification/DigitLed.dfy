/** The digit-led word rule: a word that starts with a digit is passed through verbatim. */
module DigitLed {
  import opened Keys

  datatype Decision = Continue | Arm | Bypass | Reset

  predicate IsBoundary(vk: nat) {
    || vk == VK_SPACE || vk == VK_RETURN || vk == VK_TAB || vk == VK_ESCAPE
    || vk == VK_BACK || vk == VK_DELETE
    || VK_LEFT <= vk <= VK_DOWN
    || vk == VK_HOME || vk == VK_END || vk == VK_PRIOR || vk == VK_NEXT
  }

  function Decide(vk: nat, shift: bool, engineEmpty: bool, input: InputMethod, armed: bool): Decision {
    if armed then
      if IsBoundary(vk) then Reset else Bypass
    else if shift || !engineEmpty then Continue
    else if vk < VK_0 || vk > VK_9 then Continue
    else if !UsesDigits(input) then Continue
    else Arm
  }
}
