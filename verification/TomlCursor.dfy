/**
  The parser's cursor: a pointer to the current code point, moved by one or stepped back over the
  recorded history. `Rest` is the text still to be read; `Seen` is what pointers left behind yield.
 */
module TomlCursor {

  import opened Utf8
  import opened Utf8Reader
  import opened HistoryRing

  /** The input's code points as characters. */
  function Text(source: seq<Byte>): (text: string)
    ensures |text| == |Decoded(source)|
    ensures forall i :: 0 <= i < |text| ==> text[i] as int == Decoded(source)[i].value
  {
    var codes := Decoded(source);
    seq(|codes|, i requires 0 <= i < |codes| => codes[i].value as char)
  }

  /**
    What a pointer to each character from `from` on yields once the next character has been asked
    for, when the reader has been up to the character `top` before.
   */
  function Seen(source: seq<Byte>, from: nat, top: int): (view: string)
    requires from <= |Decoded(source)|
    ensures |view| == |Text(source)| - from
    ensures forall i :: 0 <= i < |view| ==> view[i] as int == Behind(source, Cursor(from + i, Max(top, from + i)))
  {
    seq(|Decoded(source)| - from,
        i requires 0 <= i < |Decoded(source)| - from => Behind(source, Cursor(from + i, Max(top, from + i))) as char)
  }

  lemma NothingToRead(source: seq<Byte>)
    requires BomLength(source) == |source|
    ensures Decoded(source) == []
  {
  }

  class TextCursor {
    const reader: BufferedReader
    var cp: Place

    constructor (source: seq<Byte>)
      ensures Valid() && reader.reader.source == source && fresh(Repr())
      ensures !Broken() ==> Pos() == 0 && Top() <= 0 && Rest() == Text(source)
    {
      hide Reader.Valid, Reread, Scan, WellFormed, Holds, Located;
      var blocks := new Reader(source);
      reader := new BufferedReader(blocks);
      cp := Nowhere;
      new;
      if blocks.streamPos < |source| {
        cp := reader.ReadNext();
      } else {
        NothingToRead(source);
      }
    }

    ghost function Repr(): set<object> {
      {this, reader, reader.history, reader.reader, reader.reader.buffer, reader.reader.decodingBytes}
    }

    predicate Broken()
      reads reader.reader
    {
      reader.reader.failed
    }

    ghost predicate Valid()
      reads Repr()
    {
      && reader.Valid()
      && (!Broken() ==>
          && cp == reader.Current()
          && (0 <= reader.View().pos || Decoded(reader.reader.source) == []))
    }

    /** The index of the current character, and how far the reader has been. */
    ghost function Pos(): nat
      reads reader
    {
      Max(reader.View().pos, 0)
    }

    ghost function Top(): int
      reads reader
    {
      reader.top
    }

    ghost function Rest(): string
      reads Repr()
      requires Valid() && !Broken()
    {
      PosInText();
      Text(reader.reader.source)[Pos()..]
    }

    lemma PosInText()
      requires Valid() && !Broken()
      ensures Pos() <= |Text(reader.reader.source)| && Top() <= |Text(reader.reader.source)|
      ensures cp == Nowhere <==> Pos() == |Text(reader.reader.source)|
      ensures cp != Nowhere ==> Pos() <= Top()
    {
      hide Reader.Valid, Reread, Scan, WellFormed, Holds, Located;
      reader.CurrentLeads();
    }

    predicate IsEof()
      reads this
    {
      cp == Nowhere
    }

    /** A pointer that may be followed to a character, current or left behind. */
    ghost predicate Readable(p: Place)
      reads Repr()
    {
      && Legal(p)
      && reader.history.Length == HISTORY_SIZE && reader.reader.buffer.Length == BLOCK_CAPACITY
      && Scalar(reader.Deref(p).code.value)
    }

    /** `*p`. */
    function Star(p: Place): char
      reads Repr()
      requires Readable(p)
    {
      reader.Deref(p).code.value as char
    }

    lemma CurrentIsReadable()
      requires Valid() && !Broken() && !IsEof()
      ensures Readable(cp) && Rest() != "" && Star(cp) == Rest()[0]
    {
      hide Reader.Valid, Reread, Scan, WellFormed, Holds, PositionAfter;
      reader.CurrentLeads();
      PosInText();
    }

    lemma EndIsReached()
      requires Valid() && !Broken()
      ensures IsEof() <==> Rest() == ""
    {
      PosInText();
    }

    /** `*cp`. */
    function Peek(): (c: char)
      reads Repr()
      requires Valid() && !Broken() && !IsEof()
      ensures Rest() != "" && c == Rest()[0]
    {
      CurrentIsReadable();
      Star(cp)
    }

    /** The next character; the pointer left behind yields what `Seen` says. */
    method Advance()
      requires Valid() && !Broken() && !IsEof()
      modifies Repr()
      ensures Valid()
      ensures !Broken() ==>
                && Pos() == old(Pos()) + 1 && Top() == Max(old(Top()), Pos())
                && Rest() == old(Rest())[1..]
                && Readable(old(cp)) && Star(old(cp)) == Seen(reader.reader.source, old(Pos()), old(Top()))[0]
    {
      hide Reader.Valid, Reread, Scan, WellFormed, Holds, Located;
      PosInText();
      cp := reader.ReadNext();
    }

    /** `go_back`, within the recorded history. */
    method GoBack(n: nat)
      requires Valid() && !Broken() && CanStepBack(reader.View(), n) && n <= Pos()
      modifies this, reader
      ensures Valid() && !Broken() && Pos() == old(Pos()) - n && Top() == old(Top())
    {
      hide Reader.Valid, Reread, Scan, WellFormed, Holds, Located;
      cp := reader.StepBack(n);
    }
  }

  // ----- reading ahead and going back -----

  /** The cursor stands in `text` behind `k` characters. */
  ghost predicate Stands(c: TextCursor, text: string, k: nat)
    reads c.Repr()
  {
    && c.Valid() && !c.Broken() && k <= |text| && (c.IsEof() <==> k == |text|)
    && c.Rest() == text[k..]
    && (k < |text| ==> c.Peek() == text[k])
  }

  lemma StandsHere(c: TextCursor)
    requires c.Valid() && !c.Broken()
    ensures Stands(c, c.Rest(), 0)
  {
    c.EndIsReached();
  }

  /** One character on; false if the input turns out ill-formed. */
  method Step(c: TextCursor, ghost text: string, ghost k: nat) returns (ok: bool)
    requires Stands(c, text, k) && k < |text|
    modifies c.Repr()
    ensures c.Valid() && ok == !c.Broken()
    ensures ok ==> Stands(c, text, k + 1)
  {
    hide TextCursor.Valid, Behind, Seen;
    c.Advance();
    ok := !c.Broken();
    if ok { c.EndIsReached(); }
  }

  /** The cursor has passed `k` characters, and the place where it began is known. */
  ghost predicate Moved(c: TextCursor, text: string, start: nat, top: int, k: nat)
    reads c.Repr()
  {
    Stands(c, text, k) && c.Pos() == start + k && c.Top() == Max(top, start + k)
  }

  lemma NotMoved(c: TextCursor)
    requires c.Valid() && !c.Broken() && !c.IsEof()
    ensures Moved(c, c.Rest(), c.Pos(), c.Top(), 0)
  {
    c.PosInText();
  }

  method Move(c: TextCursor, ghost text: string, ghost start: nat, ghost top: int, ghost k: nat)
    requires Moved(c, text, start, top, k) && k < |text|
    modifies c.Repr()
    ensures c.Valid()
    ensures !c.Broken() ==> Moved(c, text, start, top, k + 1)
  {
    hide TextCursor.Valid, Behind, Seen;
    c.Advance();
    if !c.Broken() { c.EndIsReached(); }
  }

  lemma StandsAt(c: TextCursor, text: string, k: nat)
    requires Stands(c, text, k)
    ensures c.Valid() && !c.Broken() && k <= |text| && (c.IsEof() <==> k == |text|)
    ensures k < |text| ==> c.Peek() == text[k]
    ensures c.Rest() == text[k..]
  {
  }

  lemma MovedTo(c: TextCursor, text: string, start: nat, top: int, k: nat)
    requires Moved(c, text, start, top, k)
    ensures c.Valid() && !c.Broken() && k <= |text| && (c.IsEof() <==> k == |text|)
    ensures k < |text| ==> c.Peek() == text[k]
  {
  }

  /** Whoever reads at most 127 characters ahead can go back to where he was. */
  lemma CanGoBack(c: TextCursor, text: string, start: nat, top: int, n: nat)
    requires Moved(c, text, start, top, n) && 0 < n <= HISTORY_SIZE
    requires top - start <= Recorded(Cursor(0, top))
    ensures CanStepBack(c.reader.View(), n) && n <= c.Pos()
  {
    hide Reader.Valid, Holds, Text;
  }

  /** The same in several steps: the reader has been `b` characters ahead of the start. */
  lemma CanReturn(c: TextCursor, start: nat, top: int, b: nat, n: nat)
    requires c.Valid() && !c.Broken() && c.Top() == Max(top, start + b) && 0 < b <= HISTORY_SIZE
    requires 0 < n && start + n <= c.Pos() && top - start <= Recorded(Cursor(0, top))
    ensures CanStepBack(c.reader.View(), n) && n <= c.Pos()
  {
    hide Reader.Valid, Holds, Text;
  }

  lemma StartsRecorded(c: TextCursor)
    requires c.Valid() && !c.Broken() && !c.IsEof()
    ensures c.Top() - c.Pos() <= Recorded(Cursor(0, c.Top()))
  {
    hide Reader.Valid, Holds, Text;
    c.PosInText();
  }

  lemma RestIs(c: TextCursor)
    requires c.Valid() && !c.Broken()
    ensures c.Pos() <= |Text(c.reader.reader.source)|
    ensures c.Rest() == Text(c.reader.reader.source)[c.Pos()..]
    ensures c.IsEof() <==> c.Rest() == ""
  {
    hide TextCursor.Valid;
    c.PosInText();
  }

  lemma HasMoved(c: TextCursor, text: string, start: nat, top: int, n: nat)
    requires Moved(c, text, start, top, n)
    ensures c.Pos() == start + n && c.Top() == Max(top, start + n)
    ensures c.IsEof() <==> n == |text|
  {
  }
}
