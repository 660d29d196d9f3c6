/** What the macro functions share: code units, the platform's case functions and newline escapes. */
module MacroText {

  /** A UTF-16 code unit. */
  type Wide = c: int | 0 <= c < 0x1_0000

  const BACKSLASH: Wide := 92
  const LETTER_N: Wide := 110
  const CARRIAGE_RETURN: Wide := 13
  const LINE_FEED: Wide := 10
  const SPACE: Wide := 32

  /** The case functions of the platform. */
  datatype Locale = Locale(
    lower: Wide -> Wide,       // towlower
    isUpper: Wide -> bool,     // iswupper
    isAlpha: Wide -> bool,     // iswalpha
    isSpace: Wide -> bool,     // iswspace
    mapUpper: Wide -> Wide,    // CaseMapper.Upper on one unit
    mapLower: Wide -> Wide)    // CaseMapper.Lower on one unit

  /** Lowering changes exactly the upper-case units, once. */
  ghost predicate LowersProperly(l: Locale) {
    forall c: Wide {:trigger l.lower(c)} :: l.lower(l.lower(c)) == l.lower(c) && (l.isUpper(c) <==> l.lower(c) != c)
  }

  /** Upper-casing leaves a backslash alone and makes neither a backslash nor an 'n' of anything else. */
  ghost predicate KeepsEscapes(l: Locale) {
    && l.mapUpper(BACKSLASH) == BACKSLASH
    && forall c: Wide {:trigger l.mapUpper(c)} ::
         (l.mapUpper(c) == BACKSLASH ==> c == BACKSLASH) && (l.mapUpper(c) == LETTER_N ==> c == LETTER_N)
  }

  function MapAll(f: Wide -> Wide, s: seq<Wide>): (r: seq<Wide>)
    ensures |r| == |s| && forall i :: 0 <= i < |s| ==> r[i] == f(s[i])
  {
    seq(|s|, i requires 0 <= i < |s| => f(s[i]))
  }

  // ----- newline escapes -----

  predicate EscapeAt(e: seq<Wide>, i: int) {
    0 <= i < |e| - 1 && e[i] == BACKSLASH && e[i + 1] == LETTER_N
  }

  predicate InEscape(e: seq<Wide>, i: int) {
    EscapeAt(e, i) || EscapeAt(e, i - 1)
  }
}
