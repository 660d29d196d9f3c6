/**
  The two ways an expansion is sent out: as text for the clipboard, with its newline escapes turned into
  line breaks, and as segments of text and returns to be typed.
 */
module MacroOutput {

  import opened MacroText
  import opened Options

  /** What an expansion says: units to type and line breaks. */
  datatype Piece = Unit(c: Wide) | Break

  function Pieces(e: seq<Wide>): seq<Piece>
    decreases |e|
  {
    if e == [] then []
    else if EscapeAt(e, 0) then [Break] + Pieces(e[2..])
    else [Unit(e[0])] + Pieces(e[1..])
  }

  /** Pieces as text for the clipboard. */
  function Rendered(ps: seq<Piece>): seq<Wide> {
    if ps == [] then []
    else Rendered(ps[..|ps| - 1])
         + match ps[|ps| - 1] case Unit(c) => [c] case Break => [CARRIAGE_RETURN, LINE_FEED]
  }

  lemma EscapeInPart(e: seq<Wide>, a: nat, b: nat, k: int)
    requires a <= b <= |e|
    ensures EscapeAt(e[a..b], k) ==> EscapeAt(e, a + k)
    ensures a == 0 ==> e[..b] == e[a..b]
    ensures b == |e| ==> e[a..] == e[a..b]
  {
  }

  /** A cut that is not inside an escape leaves the escape in front whole. */
  lemma EscapeInFront(e: seq<Wide>, i: nat)
    requires i <= |e| && !EscapeAt(e, i - 1)
    ensures i > 0 ==> (EscapeAt(e[..i], 0) <==> EscapeAt(e, 0))
    ensures EscapeAt(e, 0) ==> i != 1
  {
  }

  /** The pieces of the first `i` units, where no escape is cut in two. */
  lemma {:induction false} PiecesSplit(e: seq<Wide>, i: nat)
    requires i <= |e| && !EscapeAt(e, i - 1)
    ensures Pieces(e) == Pieces(e[..i]) + Pieces(e[i..])
    decreases i
  {
    hide Pieces;
    PiecesFirst(e);
    PiecesFirst(e[..i]);
    EscapeInFront(e, i);
    hide EscapeAt;
    if i == 0 {
      assert e[..0] == [] && e[0..] == e;
    } else if EscapeAt(e, 0) {
      EscapeInPart(e, 2, |e|, i - 3);
      assert e[2..][..i - 2] == e[..i][2..] && e[2..][i - 2..] == e[i..];
      PiecesSplit(e[2..], i - 2);
    } else {
      EscapeInPart(e, 1, |e|, i - 2);
      assert e[1..][..i - 1] == e[..i][1..] && e[1..][i - 1..] == e[i..];
      PiecesSplit(e[1..], i - 1);
    }
  }

  lemma PiecesFirst(e: seq<Wide>)
    ensures e == [] ==> Pieces(e) == []
    ensures EscapeAt(e, 0) ==> Pieces(e) == [Break] + Pieces(e[2..])
    ensures e != [] && !EscapeAt(e, 0) ==> Pieces(e) == [Unit(e[0])] + Pieces(e[1..])
  {
  }

  lemma PiecesOfOne(e: seq<Wide>, i: nat)
    requires i < |e| && !EscapeAt(e, i - 1)
    ensures EscapeAt(e, i) ==> !EscapeAt(e, i + 1) && Pieces(e[..i + 2]) == Pieces(e[..i]) + [Break]
    ensures !EscapeAt(e, i) ==> Pieces(e[..i + 1]) == Pieces(e[..i]) + [Unit(e[i])]
  {
    if EscapeAt(e, i) {
      var f := e[..i + 2];
      assert f[..i] == e[..i] && f[i..] == [BACKSLASH, LETTER_N];
      assert !EscapeAt(f, i - 1);
      PiecesSplit(f, i);
      assert f[i..][2..] == [];
      assert EscapeAt(f[i..], 0);
      assert Pieces(f[i..]) == [Break] + Pieces([]);
    } else {
      var f := e[..i + 1];
      assert f[..i] == e[..i] && f[i..] == [e[i]];
      EscapeInPart(e, 0, i + 1, i - 1);
      PiecesSplit(f, i);
      assert f[i..][1..] == [];
      assert !EscapeAt(f[i..], 0);
      assert Pieces(f[i..]) == [Unit(e[i])] + Pieces([]);
    }
  }

  lemma RenderedLast(ps: seq<Piece>, p: Piece)
    ensures Rendered(ps + [p])
            == Rendered(ps) + match p case Unit(c) => [c] case Break => [CARRIAGE_RETURN, LINE_FEED]
  {
    assert (ps + [p])[..|ps|] == ps;
  }

  /** `ExpandEscapesForClipboard`. */
  method ExpandEscapesForClipboard(expansion: seq<Wide>) returns (out: seq<Wide>)
    ensures out == Rendered(Pieces(expansion))
  {
    hide Pieces, Rendered;
    out := [];
    var i := 0;
    Nothing(expansion);
    while i < |expansion|
      invariant 0 <= i <= |expansion| && !EscapeAt(expansion, i - 1)
      invariant out == Rendered(Pieces(expansion[..i]))
    {
      PiecesOfOne(expansion, i);
      if expansion[i] == BACKSLASH && i + 1 < |expansion| && expansion[i + 1] == LETTER_N {
        RenderedLast(Pieces(expansion[..i]), Break);
        out := out + [CARRIAGE_RETURN, LINE_FEED];
        i := i + 1;
      } else {
        RenderedLast(Pieces(expansion[..i]), Unit(expansion[i]));
        out := out + [expansion[i]];
      }
      i := i + 1;
    }
    assert expansion[..i] == expansion;
  }

  lemma Nothing(e: seq<Wide>)
    ensures e[..0] == [] && Pieces([]) == [] && Rendered([]) == []
  {
  }

  // ----- segments -----

  datatype Segment = Text(text: seq<Wide>) | Return

  /** The code table's units for one character: one of them or two. */
  datatype Units = Units(count: nat, first: Wide, second: Wide)

  /** Characters go out as they are, or converted to a code table. */
  function Converted(table: Option<Wide -> Units>, c: Wide): (r: seq<Wide>)
    ensures r != []
  {
    match table
    case None => [c]
    case Some(f) => var u := f(c); if u.count == 2 then [u.first, u.second] else [u.first]
  }

  function ToUnits(s: seq<Wide>): (r: seq<Piece>)
    ensures |r| == |s| && forall i :: 0 <= i < |s| ==> r[i] == Unit(s[i])
  {
    seq(|s|, i requires 0 <= i < |s| => Unit(s[i]))
  }

  function Convert(table: Option<Wide -> Units>, ps: seq<Piece>): seq<Piece> {
    if ps == [] then []
    else Convert(table, ps[..|ps| - 1])
         + match ps[|ps| - 1] case Unit(c) => ToUnits(Converted(table, c)) case Break => [Break]
  }

  function Joined(ss: seq<Segment>): seq<Piece> {
    if ss == [] then []
    else Joined(ss[..|ss| - 1]) + PiecesOf(ss[|ss| - 1])
  }

  function PiecesOf(s: Segment): seq<Piece> {
    match s case Text(t) => ToUnits(t) case Return => [Break]
  }

  /** No empty text, and never two texts side by side. */
  predicate WellSegmented(ss: seq<Segment>) {
    && (forall i :: 0 <= i < |ss| && ss[i].Text? ==> ss[i].text != [])
    && (forall i :: 0 < i < |ss| && ss[i].Text? ==> ss[i - 1].Return?)
  }

  lemma ConvertLast(table: Option<Wide -> Units>, ps: seq<Piece>, p: Piece)
    ensures Convert(table, ps + [p])
            == Convert(table, ps) + match p case Unit(c) => ToUnits(Converted(table, c)) case Break => [Break]
  {
    assert (ps + [p])[..|ps|] == ps;
  }

  lemma JoinedLast(ss: seq<Segment>, s: Segment)
    ensures Joined(ss + [s]) == Joined(ss) + PiecesOf(s)
  {
    assert (ss + [s])[..|ss|] == ss;
  }

  /** The segments so far, with the text still being collected. */
  predicate Collecting(ss: seq<Segment>, cur: seq<Wide>) {
    WellSegmented(ss) && (ss != [] ==> ss[|ss| - 1].Return?)
  }

  lemma Flush(ss: seq<Segment>, cur: seq<Wide>)
    requires Collecting(ss, cur)
    ensures var flushed := if cur == [] then ss else ss + [Text(cur)];
            && WellSegmented(flushed) && Joined(flushed) == Joined(ss) + ToUnits(cur)
            && Collecting(flushed + [Return], []) && Joined(flushed + [Return]) == Joined(flushed) + [Break]
  {
    FlushKeepsForm(ss, cur);
    hide WellSegmented, Collecting, Joined;
    JoinedLast(ss, Text(cur));
    JoinedLast(if cur == [] then ss else ss + [Text(cur)], Return);
    assert cur == [] ==> Joined(ss) + ToUnits(cur) == Joined(ss);
  }

  lemma FlushKeepsForm(ss: seq<Segment>, cur: seq<Wide>)
    requires Collecting(ss, cur)
    ensures var flushed := if cur == [] then ss else ss + [Text(cur)];
            WellSegmented(flushed) && Collecting(flushed + [Return], [])
  {
  }

  /** `BuildSegments`. */
  method BuildSegments(expansion: seq<Wide>, table: Option<Wide -> Units>) returns (segments: seq<Segment>)
    ensures Joined(segments) == Convert(table, Pieces(expansion)) && WellSegmented(segments)
  {
    hide Pieces, Joined, Convert, Collecting, Converted;
    segments := [];
    var cur: seq<Wide> := [];
    var i := 0;
    Nothing(expansion);
    NoSegments(table);
    while i < |expansion|
      invariant 0 <= i <= |expansion| && !EscapeAt(expansion, i - 1)
      invariant Collecting(segments, cur)
      invariant Joined(segments) + ToUnits(cur) == Convert(table, Pieces(expansion[..i]))
    {
      ghost var done := Pieces(expansion[..i]);
      PiecesOfOne(expansion, i);
      if expansion[i] == BACKSLASH && i + 1 < |expansion| && expansion[i + 1] == LETTER_N {
        Flush(segments, cur);
        ConvertLast(table, done, Break);
        if cur != [] {
          segments := segments + [Text(cur)];
          cur := [];
        }
        segments := segments + [Return];
        i := i + 1;
      } else {
        ConvertLast(table, done, Unit(expansion[i]));
        MoreText(segments, cur, Converted(table, expansion[i]));
        cur := cur + Converted(table, expansion[i]);
      }
      i := i + 1;
    }
    assert expansion[..i] == expansion;
    Flush(segments, cur);
    if cur != [] {
      segments := segments + [Text(cur)];
    }
  }

  lemma NoSegments(table: Option<Wide -> Units>)
    ensures Collecting([], []) && Joined([]) == [] && Convert(table, []) == [] && ToUnits([]) == []
  {
  }

  lemma MoreText(ss: seq<Segment>, cur: seq<Wide>, more: seq<Wide>)
    requires Collecting(ss, cur)
    ensures Collecting(ss, cur + more)
    ensures Joined(ss) + ToUnits(cur + more) == Joined(ss) + ToUnits(cur) + ToUnits(more)
  {
    assert ToUnits(cur + more) == ToUnits(cur) + ToUnits(more);
  }

  lemma {:induction false} ConvertNothing(ps: seq<Piece>)
    ensures Convert(None, ps) == ps
  {
    if ps != [] {
      ConvertNothing(ps[..|ps| - 1]);
      assert ps == ps[..|ps| - 1] + [ps[|ps| - 1]];
    }
  }

  /** The segments of a Unicode expansion, with every return as CR LF, are the clipboard text. */
  lemma OutputsAgree(expansion: seq<Wide>, segments: seq<Segment>)
    requires Joined(segments) == Convert(None, Pieces(expansion))
    ensures Rendered(Joined(segments)) == Rendered(Pieces(expansion))
  {
    ConvertNothing(Pieces(expansion));
  }

  /** There is only one way to cut pieces into segments. */
  lemma {:induction false} SegmentsAreUnique(a: seq<Segment>, b: seq<Segment>)
    requires WellSegmented(a) && WellSegmented(b) && Joined(a) == Joined(b)
    ensures a == b
    decreases |a|
  {
    hide Joined, WellSegmented;
    EmptyTogether(a);
    EmptyTogether(b);
    if a != [] && b != [] {
      var x, y := a[..|a| - 1], b[..|b| - 1];
      Ends(a, x, a[|a| - 1]);
      Ends(b, y, b[|b| - 1]);
      SameLast(Joined(x), a[|a| - 1], Joined(y), b[|b| - 1]);
      SegmentsAreUnique(x, y);
      assert a == x + [a[|a| - 1]] && b == y + [b[|b| - 1]];
    }
  }

  /** The last segment, and what stands in front of it. */
  lemma Ends(a: seq<Segment>, front: seq<Segment>, last: Segment)
    requires WellSegmented(a) && a != [] && front == a[..|a| - 1] && last == a[|a| - 1]
    ensures WellSegmented(front) && Joined(a) == Joined(front) + PiecesOf(last)
    ensures last.Text? ==> last.text != [] && EndsInBreak(Joined(front))
  {
    hide PiecesOf;
    if front != [] && last.Text? {
      assert front[|front| - 1] == a[|a| - 2];
      ReturnIsBreak(front);
    }
  }

  predicate EndsInBreak(p: seq<Piece>) {
    p != [] ==> p[|p| - 1] == Break
  }

  lemma ReturnIsBreak(a: seq<Segment>)
    requires a != [] && a[|a| - 1].Return?
    ensures EndsInBreak(Joined(a))
  {
  }

  lemma EmptyTogether(a: seq<Segment>)
    requires WellSegmented(a)
    ensures a == [] <==> Joined(a) == []
  {
    if a != [] {
      assert PiecesOf(a[|a| - 1]) != [];
    }
  }

  lemma SameLast(p: seq<Piece>, s: Segment, q: seq<Piece>, t: Segment)
    requires p + PiecesOf(s) == q + PiecesOf(t)
    requires s.Text? ==> s.text != [] && EndsInBreak(p)
    requires t.Text? ==> t.text != [] && EndsInBreak(q)
    ensures s == t && p == q
  {
    hide EndsInBreak, ToUnits;
    LastPiece(p, s);
    LastPiece(q, t);
    if s.Text? && t.Text? {
      SameSplit(p, s.text, q, t.text);
    } else {
      assert p == (p + [Break])[..|p|] && q == (q + [Break])[..|q|];
    }
  }

  lemma LastPiece(p: seq<Piece>, s: Segment)
    requires s.Text? ==> s.text != []
    ensures var all := p + PiecesOf(s);
            all != [] && (all[|all| - 1].Break? <==> s.Return?)
  {
    assert (p + PiecesOf(s))[|p + PiecesOf(s)| - 1] == PiecesOf(s)[|PiecesOf(s)| - 1];
  }

  /** Pieces ending in a text behind a break split in one way only. */
  lemma SameSplit(p: seq<Piece>, s: seq<Wide>, q: seq<Piece>, t: seq<Wide>)
    requires p + ToUnits(s) == q + ToUnits(t)
    requires EndsInBreak(p) && EndsInBreak(q)
    ensures p == q && s == t
  {
    var all := p + ToUnits(s);
    assert forall i :: |p| <= i < |all| ==> all[i].Unit?;
    assert forall i :: |q| <= i < |all| ==> (q + ToUnits(t))[i].Unit?;
    assert q != [] ==> (q + ToUnits(t))[|q| - 1] == Break;
    assert p != [] ==> all[|p| - 1] == Break;
    assert |p| == |q|;
    assert p == all[..|p|] && q == (q + ToUnits(t))[..|q|];
    assert ToUnits(s) == all[|p|..] && ToUnits(t) == (q + ToUnits(t))[|q|..];
    assert forall i :: 0 <= i < |s| ==> ToUnits(s)[i] == Unit(s[i]) && ToUnits(t)[i] == Unit(t[i]);
  }

  // ----- lines -----

  /** Stretches of units with a separator between them. */
  function Lines(lines: seq<seq<Wide>>, separator: seq<Wide>): seq<Wide> {
    if lines == [] then []
    else if |lines| == 1 then lines[0]
    else lines[0] + separator + Lines(lines[1..], separator)
  }

  predicate NoEscape(e: seq<Wide>) {
    forall i :: 0 <= i < |e| - 1 ==> !(e[i] == 92 && e[i + 1] == 110)
  }

  lemma {:induction false} RenderedConcat(a: seq<Piece>, b: seq<Piece>)
    ensures Rendered(a + b) == Rendered(a) + Rendered(b)
  {
    if b == [] {
      assert a + b == a;
    } else {
      var front := b[..|b| - 1];
      RenderedConcat(a, front);
      assert (a + b)[..|a + b| - 1] == a + front;
    }
  }

  /** Text without escapes is left as it is. */
  lemma {:induction false} PlainStays(e: seq<Wide>)
    requires NoEscape(e)
    ensures Rendered(Pieces(e)) == e
  {
    hide Rendered;
    if e != [] {
      assert !EscapeAt(e, 0);
      PlainStays(e[1..]);
      RenderedConcat([Unit(e[0])], Pieces(e[1..]));
      assert Rendered([Unit(e[0])]) == [e[0]] by { OneRendered(Unit(e[0])); }
    } else {
      Nothing([]);
    }
  }

  lemma OneRendered(p: Piece)
    ensures Rendered([p]) == match p case Unit(c) => [c] case Break => [13, 10]
  {
    assert [p][..0] == [];
  }

  /** On the clipboard, a backslash and an n between two stretches of text become CR and LF, and nothing else
      changes. */
  lemma {:induction false} LinesAreBroken(lines: seq<seq<Wide>>)
    requires forall i :: 0 <= i < |lines| ==> NoEscape(lines[i])
    ensures Rendered(Pieces(Lines(lines, [92, 110]))) == Lines(lines, [13, 10])
  {
    hide Rendered, Pieces, NoEscape;
    if lines == [] {
      Nothing([]);
    } else if |lines| == 1 {
      PlainStays(lines[0]);
    } else {
      var line, rest := lines[0], Lines(lines[1..], [92, 110]);
      var e := line + [92, 110] + rest;
      LinesAreBroken(lines[1..]);
      PiecesSplit(e, |line|);
      assert e[..|line|] == line;
      PlainStays(line);
      var tail := e[|line|..];
      PiecesFirst(tail);
      assert EscapeAt(tail, 0) && tail[2..] == rest;
      RenderedConcat(Pieces(line), [Break] + Pieces(rest));
      RenderedConcat([Break], Pieces(rest));
      OneRendered(Break);
      assert line + ([13, 10] + Lines(lines[1..], [13, 10])) == line + [13, 10] + Lines(lines[1..], [13, 10]);
    }
  }
}
