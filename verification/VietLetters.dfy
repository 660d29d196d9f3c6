/** The characters the engine can take apart, which is what counts as a letter wherever a word is looked for. */
module VietLetters {

  /** `towlower` where it leads to a letter below. */
  function WideLower(c: char): char {
    if 'A' <= c <= 'Z' then (c as int + 0x20) as char
    else if c == '\U{128}' then '\U{129}'
    else if c == '\U{168}' then '\U{169}'
    else c
  }

  function ToLowerVietnamese(c: char): char {
    if '\U{C0}' <= c <= '\U{D6}' || '\U{D8}' <= c <= '\U{DE}' then (c as int + 0x20) as char
    else if c == '\U{102}' || c == '\U{110}' || c == '\U{1A0}' || c == '\U{1AF}' then (c as int + 1) as char
    else if '\U{1EA0}' <= c <= '\U{1EF9}' && c as int % 2 == 0 then (c as int + 1) as char
    else WideLower(c)
  }

  /** The sixty vowels with a tone. */
  predicate IsTonedVowel(c: char) {
    || '\U{E0}' <= c <= '\U{E1}' || c == '\U{E3}' || '\U{E8}' <= c <= '\U{E9}' || '\U{EC}' <= c <= '\U{ED}'
    || '\U{F2}' <= c <= '\U{F3}' || c == '\U{F5}' || '\U{F9}' <= c <= '\U{FA}' || c == '\U{FD}'
    || c == '\U{129}' || c == '\U{169}'
    || ('\U{1EA0}' <= c <= '\U{1EF9}' && c as int % 2 == 1)
  }

  /** `DecomposeVietChar` accepts the character. */
  predicate IsVietLetter(c: char) {
    var l := ToLowerVietnamese(c);
    || 'a' <= l <= 'z' || IsTonedVowel(l)
    || l == '\U{E2}' || l == '\U{EA}' || l == '\U{F4}'
    || l == '\U{103}' || l == '\U{111}' || l == '\U{1A1}' || l == '\U{1B0}'
  }

  predicate AllLetters(w: string) {
    forall i :: 0 <= i < |w| ==> IsVietLetter(w[i])
  }

  /** What can be revived: a word of letters. */
  type Word = w: string | w != "" && AllLetters(w) witness "a"
}
