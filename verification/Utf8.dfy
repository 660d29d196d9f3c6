/**
  UTF-8 as section 3 of RFC 3629 defines it, and the table-driven decoder of the TOML reader. The
  decoder's 256 byte classes and its transition rows are written as ranges; its bit operations are
  written as arithmetic on bytes.
 */
module Utf8 {

  type Byte = b: int | 0 <= b < 256

  predicate IsAscii(s: seq<Byte>) {
    forall i :: 0 <= i < |s| ==> s[i] < 0x80
  }

  // ----- the encoding itself -----

  predicate Scalar(v: int) {
    0 <= v < 0x11_0000 && !(0xD800 <= v <= 0xDFFF)
  }

  function Encode(v: int): (r: seq<Byte>)
    requires Scalar(v)
    ensures 1 <= |r| <= 4
    ensures forall i :: 0 < i < |r| ==> 0x80 <= r[i] < 0xC0
    ensures |r| == 1 <==> r[0] < 0x80
    ensures |r| == 1 <==> v < 0x80
  {
    if v < 0x80 then [v]
    else if v < 0x800 then [0xC0 + v / 64, 0x80 + v % 64]
    else if v < 0x1_0000 then [0xE0 + v / 4096, 0x80 + v / 64 % 64, 0x80 + v % 64]
    else [0xF0 + v / 262144, 0x80 + v / 4096 % 64, 0x80 + v / 64 % 64, 0x80 + v % 64]
  }

  predicate Scalars(vs: seq<int>) {
    forall i :: 0 <= i < |vs| ==> Scalar(vs[i])
  }

  function EncodeAll(vs: seq<int>): seq<Byte>
    requires Scalars(vs)
  {
    if vs == [] then [] else Encode(vs[0]) + EncodeAll(vs[1..])
  }

  ghost predicate WellFormed(s: seq<Byte>) {
    exists vs: seq<int> :: Scalars(vs) && EncodeAll(vs) == s
  }

  lemma {:induction false} EncodeAllConcat(a: seq<int>, b: seq<int>)
    requires Scalars(a) && Scalars(b)
    ensures EncodeAll(a + b) == EncodeAll(a) + EncodeAll(b)
  {
    if a == [] {
      assert a + b == b;
    } else {
      assert (a + b)[1..] == a[1..] + b;
      EncodeAllConcat(a[1..], b);
    }
  }

  // ----- the decoder -----

  const ACCEPT := 0
  const REJECT := 12

  datatype Decoder = Decoder(state: int, codepoint: int)

  const START := Decoder(ACCEPT, 0)

  function ByteType(b: Byte): (t: int)
    ensures 0 <= t <= 11
  {
    if b < 0x80 then 0
    else if b < 0x90 then 1
    else if b < 0xA0 then 9
    else if b < 0xC0 then 7
    else if b < 0xC2 then 8
    else if b < 0xE0 then 2
    else if b == 0xE0 then 10
    else if b < 0xED then 3
    else if b == 0xED then 4
    else if b < 0xF0 then 3
    else if b == 0xF0 then 11
    else if b < 0xF4 then 6
    else if b == 0xF4 then 5
    else 8
  }

  function Next(state: int, t: int): int {
    if state == 0 then
      if t == 0 then 0 else if t == 2 then 24 else if t == 3 then 36 else if t == 4 then 60
      else if t == 5 then 96 else if t == 6 then 84 else if t == 10 then 48 else if t == 11 then 72 else 12
    else if state == 24 && (t == 1 || t == 7 || t == 9) then 0
    else if state == 36 && (t == 1 || t == 7 || t == 9) then 24
    else if state == 48 && t == 7 then 24
    else if state == 60 && (t == 1 || t == 9) then 24
    else if state == 72 && (t == 7 || t == 9) then 36
    else if state == 84 && (t == 1 || t == 7 || t == 9) then 36
    else if state == 96 && t == 1 then 36
    else 12
  }

  /** 255 >> t, plus one: `(255 >> t) & byte` is `byte % LeadModulus(t)`. */
  function LeadModulus(t: int): (m: int)
    ensures m > 0
  {
    if t == 0 then 256 else if t == 1 then 128 else if t == 2 then 64 else if t == 3 then 32
    else if t == 4 then 16 else if t == 5 then 8 else if t == 6 then 4 else if t == 7 then 2 else 1
  }

  function Feed(d: Decoder, b: Byte): Decoder {
    var t := ByteType(b);
    Decoder(Next(d.state, t),
            if d.state == ACCEPT then b % LeadModulus(t) else b % 64 + d.codepoint * 64)
  }

  predicate Live(d: Decoder) {
    d.state != ACCEPT && d.state != REJECT
  }

  function FeedAll(p: seq<Byte>): Decoder {
    if p == [] then START else Feed(FeedAll(p[..|p| - 1]), p[|p| - 1])
  }

  /** The bytes of an unfinished code point: the decoder wants more after each of them. */
  predicate Unfinished(p: seq<Byte>) {
    p == [] || (Unfinished(p[..|p| - 1]) && Live(FeedAll(p)))
  }

  function BytesNeeded(state: int): int {
    if state == 24 then 1 else if state == 36 || state == 48 || state == 60 then 2
    else if state == 72 || state == 84 || state == 96 then 3 else 0
  }

  /** The four-byte buffer never overflows: an unfinished code point has at most three bytes. */
  lemma {:induction false} UnfinishedIsShort(p: seq<Byte>)
    requires Unfinished(p) && p != []
    ensures |p| + BytesNeeded(FeedAll(p).state) <= 4 && 1 <= BytesNeeded(FeedAll(p).state)
  {
    if |p| > 1 {
      UnfinishedIsShort(p[..|p| - 1]);
    } else {
      assert p[..0] == [];
    }
  }

  lemma TwoBytes(a: Byte, b: Byte)
    requires var d := Feed(START, a); Live(d) && Feed(d, b).state == ACCEPT
    ensures var v := Feed(Feed(START, a), b).codepoint; Scalar(v) && Encode(v) == [a, b]
  {
    assert Feed(Feed(START, a), b).codepoint == (a - 0xC0) * 64 + (b - 0x80);
  }

  predicate Continues(b: Byte) { 0x80 <= b < 0xC0 }

  lemma LeadOfThree(a: Byte, b: Byte)
    requires var d := Feed(START, a); Live(d) && Live(Feed(d, b)) && Feed(d, b).state == 24
    ensures 0xE0 <= a < 0xF0 && Continues(b) && (a == 0xE0 ==> b >= 0xA0) && (a == 0xED ==> b < 0xA0)
    ensures Feed(Feed(START, a), b).codepoint == (a - 0xE0) * 64 + (b - 0x80)
  {
    assert Feed(START, a).codepoint == a - 0xE0;
  }

  lemma LeadOfFour(a: Byte, b: Byte)
    requires var d := Feed(START, a); Live(d) && Live(Feed(d, b)) && Feed(d, b).state == 36
    ensures 0xF0 <= a < 0xF5 && Continues(b) && (a == 0xF0 ==> b >= 0x90) && (a == 0xF4 ==> b < 0x90)
    ensures Feed(Feed(START, a), b).codepoint == (a - 0xF0) * 64 + (b - 0x80)
  {
    assert Feed(START, a).codepoint == a - 0xF0;
  }

  /** Behind the second byte the decoder only counts continuation bytes. */
  lemma FeedContinuation(d: Decoder, b: Byte)
    requires d.state == 24 || d.state == 36
    ensures Feed(d, b).state == if Continues(b) then d.state - (if d.state == 24 then 24 else 12) else REJECT
    ensures Continues(b) ==> Feed(d, b).codepoint == d.codepoint * 64 + (b - 0x80)
  {
  }

  lemma SecondByteState(a: Byte, b: Byte)
    requires var d := Feed(START, a); Live(d) && Live(Feed(d, b))
    ensures var d := Feed(Feed(START, a), b); d.state == 24 || d.state == 36
  {
  }

  lemma EncodeThree(a: Byte, b: Byte, c: Byte)
    requires 0xE0 <= a < 0xF0 && Continues(b) && (a == 0xE0 ==> b >= 0xA0) && (a == 0xED ==> b < 0xA0) && Continues(c)
    ensures var v := ((a - 0xE0) * 64 + (b - 0x80)) * 64 + (c - 0x80); Scalar(v) && Encode(v) == [a, b, c]
  {
    var u := (a - 0xE0) * 64 + (b - 0x80);
    var v := u * 64 + (c - 0x80);
    assert v / 64 == u && v % 64 == c - 0x80;
    assert v / 4096 == a - 0xE0 && u % 64 == b - 0x80;
  }

  lemma EncodeFour(a: Byte, b: Byte, c: Byte, e: Byte)
    requires 0xF0 <= a < 0xF5 && Continues(b) && (a == 0xF0 ==> b >= 0x90) && (a == 0xF4 ==> b < 0x90)
    requires Continues(c) && Continues(e)
    ensures var v := (((a - 0xF0) * 64 + (b - 0x80)) * 64 + (c - 0x80)) * 64 + (e - 0x80);
            Scalar(v) && Encode(v) == [a, b, c, e]
  {
    var t := (a - 0xF0) * 64 + (b - 0x80);
    var u := t * 64 + (c - 0x80);
    var v := u * 64 + (e - 0x80);
    assert v / 64 == u && v % 64 == e - 0x80;
    assert v / 4096 == t && u % 64 == c - 0x80;
    assert v / 262144 == a - 0xF0 && t % 64 == b - 0x80;
  }

  lemma ThreeBytes(a: Byte, b: Byte, c: Byte)
    requires var d := Feed(START, a);
             Live(d) && Live(Feed(d, b)) && Feed(Feed(d, b), c).state == ACCEPT
    ensures var v := Feed(Feed(Feed(START, a), b), c).codepoint; Scalar(v) && Encode(v) == [a, b, c]
  {
    hide Feed, Encode;
    SecondByteState(a, b);
    FeedContinuation(Feed(Feed(START, a), b), c);
    LeadOfThree(a, b);
    EncodeThree(a, b, c);
  }

  lemma FourBytes(a: Byte, b: Byte, c: Byte, e: Byte)
    requires var d := Feed(START, a);
             && Live(d) && Live(Feed(d, b)) && Live(Feed(Feed(d, b), c))
             && Feed(Feed(Feed(d, b), c), e).state == ACCEPT
    ensures var v := Feed(Feed(Feed(Feed(START, a), b), c), e).codepoint; Scalar(v) && Encode(v) == [a, b, c, e]
  {
    hide Feed, Encode;
    SecondByteState(a, b);
    var d := Feed(Feed(START, a), b);
    FeedContinuation(d, c);
    FeedContinuation(Feed(d, c), e);
    LeadOfFour(a, b);
    EncodeFour(a, b, c, e);
  }

  lemma Unroll(p: seq<Byte>)
    requires 1 <= |p| <= 3
    ensures |p| == 1 ==> FeedAll(p) == Feed(START, p[0])
    ensures |p| == 2 ==> FeedAll(p) == Feed(Feed(START, p[0]), p[1])
    ensures |p| == 3 ==> FeedAll(p) == Feed(Feed(Feed(START, p[0]), p[1]), p[2])
    ensures Unfinished(p) <==>
              && Live(Feed(START, p[0]))
              && (|p| >= 2 ==> Live(Feed(Feed(START, p[0]), p[1])))
              && (|p| == 3 ==> Live(Feed(Feed(Feed(START, p[0]), p[1]), p[2])))
  {
    hide Feed;
    if |p| == 1 {
      assert p[..0] == [];
    } else {
      Unroll(p[..|p| - 1]);
    }
  }

  /** A code point is finished exactly by the bytes of its encoding. */
  lemma FinishedIsEncoding(p: seq<Byte>, b: Byte)
    requires Unfinished(p) && Feed(FeedAll(p), b).state == ACCEPT
    ensures var v := Feed(FeedAll(p), b).codepoint; Scalar(v) && Encode(v) == p + [b]
  {
    hide FeedAll, Feed, Encode;
    if p == [] {
      OneByte(b);
      assert p + [b] == [b];
    } else {
      UnfinishedIsShort(p);
      Unroll(p);
      if |p| == 1 {
        TwoBytes(p[0], b);
        assert p + [b] == [p[0], b];
      } else if |p| == 2 {
        ThreeBytes(p[0], p[1], b);
        assert p + [b] == [p[0], p[1], b];
      } else {
        FourBytes(p[0], p[1], p[2], b);
        assert p + [b] == [p[0], p[1], p[2], b];
      }
    }
  }

  lemma OneByte(b: Byte)
    requires Feed(FeedAll([]), b).state == ACCEPT
    ensures var v := Feed(FeedAll([]), b).codepoint; Scalar(v) && Encode(v) == [b]
  {
  }

  lemma FeedTwo(v: int)
    requires 0x80 <= v < 0x800
    ensures var r := Encode(v); var d := Feed(START, r[0]);
            Live(d) && Feed(d, r[1]) == Decoder(ACCEPT, v)
  {
  }

  lemma FeedThree(v: int)
    requires 0x800 <= v < 0x1_0000 && Scalar(v)
    ensures var r := Encode(v); var d := Feed(START, r[0]); var d2 := Feed(d, r[1]);
            Live(d) && Live(d2) && Feed(d2, r[2]) == Decoder(ACCEPT, v)
  {
    var r := Encode(v);
    var d := Feed(START, r[0]);
    assert d.codepoint == v / 4096 && (d.state == 36 || d.state == 48 || d.state == 60);
    assert d.state == 48 ==> v / 64 >= 32;
    assert Feed(d, r[1]).state == 24 && Feed(d, r[1]).codepoint == v / 64;
  }

  lemma FeedFour(v: int)
    requires 0x1_0000 <= v && Scalar(v)
    ensures var r := Encode(v); var d := Feed(START, r[0]); var d2 := Feed(d, r[1]); var d3 := Feed(d2, r[2]);
            Live(d) && Live(d2) && Live(d3) && Feed(d3, r[3]) == Decoder(ACCEPT, v)
  {
    var r := Encode(v);
    var d := Feed(START, r[0]);
    assert d.codepoint == v / 262144 && (d.state == 72 || d.state == 84 || d.state == 96);
    assert v / 4096 == v / 262144 * 64 + v / 4096 % 64;
    assert Feed(d, r[1]).state == 36 && Feed(d, r[1]).codepoint == v / 4096;
    assert Feed(Feed(d, r[1]), r[2]).state == 24 && Feed(Feed(d, r[1]), r[2]).codepoint == v / 64;
  }

  /** The encoding of a scalar takes the decoder from start to acceptance with that scalar, and not earlier. */
  lemma EncodingFinishes(v: int)
    requires Scalar(v)
    ensures var r := Encode(v); var p := r[..|r| - 1];
            Unfinished(p) && Feed(FeedAll(p), r[|r| - 1]) == Decoder(ACCEPT, v)
  {
    var r := Encode(v);
    var p := r[..|r| - 1];
    if v < 0x80 {
      assert p == [];
    } else {
      if v < 0x800 {
        FeedTwo(v);
      } else if v < 0x1_0000 {
        FeedThree(v);
      } else {
        FeedFour(v);
      }
      hide Feed;
      Unroll(p);
    }
  }

  // ----- decoding a whole stream -----

  /** A decoded code point and the bytes it came from. */
  datatype Cp = Cp(value: int, bytes: seq<Byte>)

  predicate Genuine(c: Cp) {
    Scalar(c.value) && c.bytes == Encode(c.value)
  }

  predicate AllGenuine(cs: seq<Cp>) {
    forall i :: 0 <= i < |cs| ==> Genuine(cs[i])
  }

  function Codes(vs: seq<int>): seq<Cp>
    requires Scalars(vs)
  {
    if vs == [] then [] else [Cp(vs[0], Encode(vs[0]))] + Codes(vs[1..])
  }

  /** The result of pushing bytes through the decoder: what was decoded, and either an error or the
      bytes of a code point still unfinished. */
  datatype Scanned = Scanned(codes: seq<Cp>, bad: bool, partial: seq<Byte>)

  function ScanByte(sc: Scanned, b: Byte): Scanned {
    if sc.bad then sc
    else
      var d := Feed(FeedAll(sc.partial), b);
      if d.state == REJECT then sc.(bad := true)
      else if d.state == ACCEPT then Scanned(sc.codes + [Cp(d.codepoint, sc.partial + [b])], false, [])
      else sc.(partial := sc.partial + [b])
  }

  function Scan(sc: Scanned, s: seq<Byte>): Scanned
    decreases |s|
  {
    if s == [] then sc else Scan(ScanByte(sc, s[0]), s[1..])
  }

  const FRESH := Scanned([], false, [])

  lemma {:induction false} ScanConcat(sc: Scanned, a: seq<Byte>, b: seq<Byte>)
    ensures Scan(sc, a + b) == Scan(Scan(sc, a), b)
    decreases |a|
  {
    hide ScanByte;
    if a == [] {
      assert a + b == b;
    } else {
      assert (a + b)[1..] == a[1..] + b;
      ScanConcat(ScanByte(sc, a[0]), a[1..], b);
    }
  }

  /** The bytes behind the decoded code points and the unfinished one. */
  function BytesOf(cs: seq<Cp>): seq<Byte> {
    if cs == [] then [] else BytesOf(cs[..|cs| - 1]) + cs[|cs| - 1].bytes
  }

  /** Everything decoded so far is a genuine encoding, and nothing was lost or reordered. */
  predicate ScanOk(sc: Scanned, read: seq<Byte>) {
    && AllGenuine(sc.codes)
    && Unfinished(sc.partial)
    && (!sc.bad ==> read == BytesOf(sc.codes) + sc.partial)
    && BytesOf(sc.codes) <= read
  }

  lemma ScanByteOk(sc: Scanned, read: seq<Byte>, b: Byte)
    requires ScanOk(sc, read)
    ensures ScanOk(ScanByte(sc, b), read + [b])
  {
    if !sc.bad {
      var d := Feed(FeedAll(sc.partial), b);
      if d.state == ACCEPT {
        FinishedIsEncoding(sc.partial, b);
        hide Feed, FeedAll, Encode, Unfinished;
        var cs := sc.codes + [Cp(d.codepoint, sc.partial + [b])];
        assert cs[..|cs| - 1] == sc.codes;
        assert BytesOf(cs) == read + [b];
        assert Unfinished([]);
      } else if d.state != REJECT {
        hide Feed, Encode;
        var p := sc.partial + [b];
        assert p[..|p| - 1] == sc.partial;
      }
    }
  }

  lemma {:induction false} ScanKeepsOk(sc: Scanned, read: seq<Byte>, s: seq<Byte>)
    requires ScanOk(sc, read)
    ensures ScanOk(Scan(sc, s), read + s)
    decreases |s|
  {
    hide ScanByte, ScanOk;
    if s == [] {
      assert read + s == read;
    } else {
      ScanByteOk(sc, read, s[0]);
      ScanKeepsOk(ScanByte(sc, s[0]), read + [s[0]], s[1..]);
      assert read + [s[0]] + s[1..] == read + s;
    }
  }

  lemma ScanOne(sc: Scanned, b: Byte)
    ensures Scan(sc, [b]) == ScanByte(sc, b)
  {
    hide ScanByte;
    assert [b][1..] == [];
    assert Scan(ScanByte(sc, b), []) == ScanByte(sc, b);
  }

  lemma {:induction false} ScanUnfinished(sc: Scanned, p: seq<Byte>)
    requires !sc.bad && sc.partial == [] && Unfinished(p)
    ensures Scan(sc, p) == sc.(partial := p)
    decreases |p|
  {
    if p != [] {
      var q, b := p[..|p| - 1], p[|p| - 1];
      ScanUnfinished(sc, q);
      ScanConcat(sc, q, [b]);
      ScanOne(sc.(partial := q), b);
      assert q + [b] == p;
    }
  }

  lemma ScanEncoding(sc: Scanned, v: int)
    requires !sc.bad && sc.partial == [] && Scalar(v)
    ensures Scan(sc, Encode(v)) == sc.(codes := sc.codes + [Cp(v, Encode(v))])
  {
    var r := Encode(v);
    var p, b := r[..|r| - 1], r[|r| - 1];
    EncodingFinishes(v);
    hide Encode, Feed, FeedAll, Unfinished;
    ScanUnfinished(sc, p);
    ScanConcat(sc, p, [b]);
    ScanOne(sc.(partial := p), b);
    assert p + [b] == r;
  }

  lemma {:induction false} ScanEncodings(sc: Scanned, vs: seq<int>)
    requires !sc.bad && sc.partial == [] && Scalars(vs)
    ensures Scan(sc, EncodeAll(vs)) == sc.(codes := sc.codes + Codes(vs))
    decreases |vs|
  {
    hide Encode, ScanByte, Scan;
    if vs == [] {
      assert sc.codes + [] == sc.codes;
      ScanNothing(sc);
    } else {
      var r := Encode(vs[0]);
      ScanEncoding(sc, vs[0]);
      ScanConcat(sc, r, EncodeAll(vs[1..]));
      var sc1 := sc.(codes := sc.codes + [Cp(vs[0], r)]);
      ScanEncodings(sc1, vs[1..]);
      assert sc.codes + [Cp(vs[0], r)] + Codes(vs[1..]) == sc.codes + Codes(vs);
    }
  }

  lemma ScanNothing(sc: Scanned)
    ensures Scan(sc, []) == sc
  {
  }

  function Values(cs: seq<Cp>): seq<int> {
    seq(|cs|, i requires 0 <= i < |cs| => cs[i].value)
  }

  lemma {:induction false} GenuineBytes(cs: seq<Cp>)
    requires AllGenuine(cs)
    ensures Scalars(Values(cs)) && EncodeAll(Values(cs)) == BytesOf(cs)
    decreases |cs|
  {
    if cs != [] {
      var init, last := cs[..|cs| - 1], cs[|cs| - 1];
      GenuineBytes(init);
      assert Values(cs) == Values(init) + [last.value];
      EncodeAllConcat(Values(init), [last.value]);
      assert EncodeAll([last.value]) == Encode(last.value) + EncodeAll([]) == last.bytes;
    }
  }

  /**
    The decoder accepts exactly the well-formed byte strings, and delivers exactly their code points.
   */
  lemma DecoderIsExact(s: seq<Byte>)
    ensures var sc := Scan(FRESH, s); WellFormed(s) <==> !sc.bad && sc.partial == []
    ensures forall vs | Scalars(vs) && EncodeAll(vs) == s :: Scan(FRESH, s) == Scanned(Codes(vs), false, [])
  {
    var sc := Scan(FRESH, s);
    hide Scan;
    forall vs | Scalars(vs) && EncodeAll(vs) == s
      ensures sc == Scanned(Codes(vs), false, [])
    {
      ScanEncodings(FRESH, vs);
      assert [] + Codes(vs) == Codes(vs);
    }
    ScanKeepsOk(FRESH, [], s);
    assert [] + s == s;
    if !sc.bad && sc.partial == [] {
      GenuineBytes(sc.codes);
      assert BytesOf(sc.codes) + [] == BytesOf(sc.codes);
    }
  }

  /** Reading on only adds code points, and an error stays. */
  lemma {:induction false} ScanGrows(sc: Scanned, s: seq<Byte>)
    ensures sc.codes <= Scan(sc, s).codes && (sc.bad ==> Scan(sc, s).bad)
    decreases |s|
  {
    if s != [] {
      assert sc.codes <= ScanByte(sc, s[0]).codes by { hide Feed, FeedAll; }
      hide ScanByte;
      ScanGrows(ScanByte(sc, s[0]), s[1..]);
    }
  }
}
