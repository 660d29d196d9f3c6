/** The Vietnamese alphabet, vowel by vowel and tone by tone: exactly its characters count as letters. */
module VietAlphabet {

  import opened VietLetters

  predicate OneOf(c: int, level: int, acute: int, grave: int, hook: int, tilde: int, dot: int) {
    c == level || c == acute || c == grave || c == hook || c == tilde || c == dot
  }

  /** The twelve vowels, each without a tone and with each of the five. */
  predicate SmallVowel(c: int) {
    || OneOf(c, 0x61, 0xE1, 0xE0, 0x1EA3, 0xE3, 0x1EA1)
    || OneOf(c, 0x103, 0x1EAF, 0x1EB1, 0x1EB3, 0x1EB5, 0x1EB7)
    || OneOf(c, 0xE2, 0x1EA5, 0x1EA7, 0x1EA9, 0x1EAB, 0x1EAD)
    || OneOf(c, 0x65, 0xE9, 0xE8, 0x1EBB, 0x1EBD, 0x1EB9)
    || OneOf(c, 0xEA, 0x1EBF, 0x1EC1, 0x1EC3, 0x1EC5, 0x1EC7)
    || OneOf(c, 0x69, 0xED, 0xEC, 0x1EC9, 0x129, 0x1ECB)
    || OneOf(c, 0x6F, 0xF3, 0xF2, 0x1ECF, 0xF5, 0x1ECD)
    || OneOf(c, 0xF4, 0x1ED1, 0x1ED3, 0x1ED5, 0x1ED7, 0x1ED9)
    || OneOf(c, 0x1A1, 0x1EDB, 0x1EDD, 0x1EDF, 0x1EE1, 0x1EE3)
    || OneOf(c, 0x75, 0xFA, 0xF9, 0x1EE7, 0x169, 0x1EE5)
    || OneOf(c, 0x1B0, 0x1EE9, 0x1EEB, 0x1EED, 0x1EEF, 0x1EF1)
    || OneOf(c, 0x79, 0xFD, 0x1EF3, 0x1EF7, 0x1EF9, 0x1EF5)
  }

  predicate CapitalVowel(c: int) {
    || OneOf(c, 0x41, 0xC1, 0xC0, 0x1EA2, 0xC3, 0x1EA0)
    || OneOf(c, 0x102, 0x1EAE, 0x1EB0, 0x1EB2, 0x1EB4, 0x1EB6)
    || OneOf(c, 0xC2, 0x1EA4, 0x1EA6, 0x1EA8, 0x1EAA, 0x1EAC)
    || OneOf(c, 0x45, 0xC9, 0xC8, 0x1EBA, 0x1EBC, 0x1EB8)
    || OneOf(c, 0xCA, 0x1EBE, 0x1EC0, 0x1EC2, 0x1EC4, 0x1EC6)
    || OneOf(c, 0x49, 0xCD, 0xCC, 0x1EC8, 0x128, 0x1ECA)
    || OneOf(c, 0x4F, 0xD3, 0xD2, 0x1ECE, 0xD5, 0x1ECC)
    || OneOf(c, 0xD4, 0x1ED0, 0x1ED2, 0x1ED4, 0x1ED6, 0x1ED8)
    || OneOf(c, 0x1A0, 0x1EDA, 0x1EDC, 0x1EDE, 0x1EE0, 0x1EE2)
    || OneOf(c, 0x55, 0xDA, 0xD9, 0x1EE6, 0x168, 0x1EE4)
    || OneOf(c, 0x1AF, 0x1EE8, 0x1EEA, 0x1EEC, 0x1EEE, 0x1EF0)
    || OneOf(c, 0x59, 0xDD, 0x1EF2, 0x1EF6, 0x1EF8, 0x1EF4)
  }

  /** The Latin letters, the crossed D and the vowels. */
  predicate InAlphabet(c: int) {
    || 0x61 <= c <= 0x7A || 0x41 <= c <= 0x5A || c == 0x111 || c == 0x110
    || SmallVowel(c) || CapitalVowel(c)
  }

  /** What `DecomposeVietChar` takes apart is exactly the alphabet. */
  lemma AlphabetExactly(c: char)
    ensures IsVietLetter(c) <==> InAlphabet(c as int)
  {
    hide IsVietLetter, InAlphabet;
    if c < '\U{C0}' {
      Ascii(c);
    } else if c < '\U{100}' {
      Latin(c);
    } else if c < '\U{1EA0}' {
      Extended(c);
    } else if c < '\U{1ED0}' {
      WithTones(c);
    } else {
      MoreTones(c);
    }
  }

  lemma Ascii(c: char)
    requires c < '\U{C0}'
    ensures IsVietLetter(c) <==> InAlphabet(c as int)
  {
  }

  lemma Latin(c: char)
    requires '\U{C0}' <= c < '\U{100}'
    ensures IsVietLetter(c) <==> InAlphabet(c as int)
  {
  }

  lemma Extended(c: char)
    requires '\U{100}' <= c < '\U{1EA0}'
    ensures IsVietLetter(c) <==> InAlphabet(c as int)
  {
  }

  lemma WithTones(c: char)
    requires '\U{1EA0}' <= c < '\U{1ED0}'
    ensures IsVietLetter(c) <==> InAlphabet(c as int)
  {
  }

  lemma MoreTones(c: char)
    requires '\U{1ED0}' <= c
    ensures IsVietLetter(c) <==> InAlphabet(c as int)
  {
  }
}
