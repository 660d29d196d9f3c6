/**
  The block reader over a string: it takes 32 bytes at a time, decodes them on an ASCII fast path or
  through the decoder, and hands out code points with their positions. The contracts tie it to one
  pass of the decoder over the whole input.
 */
module Utf8Reader {
  import opened Utf8

  const BLOCK_CAPACITY := 32

  const BOM: seq<Byte> := [0xEF, 0xBB, 0xBF]

  datatype Position = Position(line: nat, column: nat)

  datatype Codepoint = Codepoint(code: Cp, position: Position)

  /** What is handed out is a pointer to a slot of the block. */
  datatype ReadResult = At(slot: nat) | EndOfInput | Failed

  function BomLength(s: seq<Byte>): (n: nat)
    ensures n <= |s|
  {
    if |s| >= 3 && s[..3] == BOM then 3 else 0
  }

  function Stripped(s: seq<Byte>): seq<Byte> {
    s[BomLength(s)..]
  }

  /** What one pass over the whole input decodes. */
  function Decoded(source: seq<Byte>): (codes: seq<Cp>)
    ensures AllGenuine(codes)
  {
    ScanKeepsOk(FRESH, [], Stripped(source));
    Scan(FRESH, Stripped(source)).codes
  }

  // ----- the blocks -----

  /** A slot of the block as `memset` leaves it. */
  const BLANK := Codepoint(Cp(0, []), Position(0, 0))

  /** Where the stream stands after that many blocks. */
  function StreamPos(source: seq<Byte>, blocks: nat): (n: nat)
    ensures BomLength(source) <= n <= |source|
  {
    var n := BomLength(source) + BLOCK_CAPACITY * blocks;
    if n <= |source| then n else |source|
  }

  function AfterBlocks(source: seq<Byte>, blocks: nat): Scanned {
    Scan(FRESH, source[BomLength(source)..StreamPos(source, blocks)])
  }

  /** How many code points that many blocks complete. */
  function Passed(source: seq<Byte>, blocks: nat): nat {
    |AfterBlocks(source, blocks).codes|
  }

  lemma PassedGrows(source: seq<Byte>, a: nat, b: nat)
    requires a <= b
    ensures AfterBlocks(source, a).codes <= AfterBlocks(source, b).codes <= Decoded(source)
    ensures Passed(source, a) <= Passed(source, b) <= |Decoded(source)|
    ensures StreamPos(source, b) == |source| ==> AfterBlocks(source, b).codes == Decoded(source)
  {
    hide Scan;
    var bom, m, n := BomLength(source), StreamPos(source, a), StreamPos(source, b);
    assert source[bom..n] == source[bom..m] + source[m..n];
    ScanConcat(FRESH, source[bom..m], source[m..n]);
    ScanGrows(AfterBlocks(source, a), source[m..n]);
    assert Stripped(source) == source[bom..n] + source[n..];
    ScanConcat(FRESH, source[bom..n], source[n..]);
    ScanGrows(AfterBlocks(source, b), source[n..]);
    assert n == |source| ==> source[bom..n] == Stripped(source);
  }

  lemma PassedInOrder(source: seq<Byte>, a: nat, b: nat)
    requires a <= b
    ensures Passed(source, a) <= Passed(source, b) <= |Decoded(source)|
  {
    hide AfterBlocks;
    PassedGrows(source, a, b);
  }

  lemma PassedAt(source: seq<Byte>, b: nat, i: nat)
    requires i < Passed(source, b)
    ensures i < |Decoded(source)| && AfterBlocks(source, b).codes[i] == Decoded(source)[i]
  {
    hide AfterBlocks, Decoded;
    PassedGrows(source, b, b);
  }

  /** What takes the place of a block's last code point. */
  lemma RereadIs(source: seq<Byte>, blocks: nat, slot: nat)
    requires 2 <= blocks && slot + 1 == Passed(source, blocks - 1) - Passed(source, blocks - 2)
    requires Passed(source, blocks - 1) < Passed(source, blocks)
    ensures var was, now := Passed(source, blocks - 1), AfterBlocks(source, blocks).codes;
            && |now| == Passed(source, blocks) && 0 < was <= |Decoded(source)|
            && Reread(source, was - 1) == if was + slot < |now| then now[was + slot].value else 0
  {
    hide AfterBlocks, Decoded, Reread, BlockFrom;
    var was := Passed(source, blocks - 1);
    PassedInOrder(source, blocks - 1, blocks);
    if was + slot < Passed(source, blocks) { PassedAt(source, blocks, was + slot); }
    hide Passed;
    RereadAcross(source, was - 1, blocks - 2);
  }

  /** The block that completes code point `i`, none of the first `from` doing so. */
  function BlockFrom(source: seq<Byte>, i: nat, from: nat): (b: nat)
    requires i < |Decoded(source)|
    ensures from <= b && i < Passed(source, b + 1)
    decreases |source| - StreamPos(source, from)
  {
    if i < Passed(source, from + 1) then from
    else
      PassedGrows(source, from + 1, from + 1);
      BlockFrom(source, i, from + 1)
  }

  lemma {:induction false} BlockIs(source: seq<Byte>, i: nat, b: nat, from: nat)
    requires from <= b && Passed(source, b) <= i < Passed(source, b + 1)
    ensures i < |Decoded(source)| && BlockFrom(source, i, from) == b
    decreases b - from
  {
    hide Passed, AfterBlocks, Decoded;
    PassedGrows(source, b + 1, b + 1);
    if from < b {
      PassedGrows(source, from + 1, b);
      BlockIs(source, i, b, from + 1);
    }
  }

  /**
    What a pointer to code point `i` in the reader's block yields once code point `i + 1` has been
    asked for: if that took a new block, whatever the new block has in the same slot, and zero where
    it has nothing there.
   */
  function Reread(source: seq<Byte>, i: nat): (v: int)
    requires i < |Decoded(source)|
    ensures Scalar(v)
  {
    var codes := Decoded(source);
    var b := BlockFrom(source, i, 0);
    if i + 1 == |codes| || i + 1 < Passed(source, b + 1) then codes[i].value
    else
      PassedGrows(source, b + 2, b + 2);
      var at := i + 1 + i - Passed(source, b);
      if i + 1 <= at < Passed(source, b + 2) then codes[at].value else 0
  }

  /** Inside a block, and at the end of the input, the code point is still there. */
  lemma RereadInside(source: seq<Byte>, i: nat, b: nat)
    requires Passed(source, b) <= i < Passed(source, b + 1)
    requires i + 1 == |Decoded(source)| || i + 1 < Passed(source, b + 1)
    ensures i < |Decoded(source)| && Reread(source, i) == Decoded(source)[i].value
  {
    hide Passed, AfterBlocks, Decoded, BlockFrom;
    BlockIs(source, i, b, 0);
  }

  lemma RereadAcross(source: seq<Byte>, i: nat, b: nat)
    requires Passed(source, b) <= i && i + 1 == Passed(source, b + 1) < |Decoded(source)|
    ensures Passed(source, b + 2) <= |Decoded(source)|
    ensures var at := i + 1 + i - Passed(source, b);
            Reread(source, i) == if at < Passed(source, b + 2) then Decoded(source)[at].value else 0
  {
    hide Passed, AfterBlocks, Decoded, BlockFrom;
    BlockIs(source, i, b, 0);
    PassedGrows(source, b + 2, b + 2);
  }

  function Step(p: Position, value: int): Position {
    if value == '\n' as int then Position(p.line + 1, 1) else p.(column := p.column + 1)
  }

  /** Where the code point after `cs` stands. */
  function PositionAfter(cs: seq<Cp>): Position {
    if cs == [] then Position(1, 1) else Step(PositionAfter(cs[..|cs| - 1]), cs[|cs| - 1].value)
  }

  /** Where the line feeds are. */
  function LineFeeds(cs: seq<Cp>): set<nat> {
    set i: nat | i < |cs| && cs[i].value == 10
  }

  predicate LineStartsAt(cs: seq<Cp>, k: nat) {
    k <= |cs| && (k == 0 || cs[k - 1].value == 10) && forall i :: k <= i < |cs| ==> cs[i].value != 10
  }

  /** Lines are counted by the line feeds passed, columns from the last one, both from one. */
  lemma {:induction false} PositionIs(cs: seq<Cp>)
    ensures PositionAfter(cs).line == 1 + |LineFeeds(cs)|
    ensures exists k: nat :: LineStartsAt(cs, k) && PositionAfter(cs).column == 1 + |cs| - k
  {
    if cs == [] {
      assert LineFeeds(cs) == {};
      assert LineStartsAt(cs, 0);
    } else {
      hide LineFeeds, LineStartsAt;
      var init, last := cs[..|cs| - 1], cs[|cs| - 1];
      PositionIs(init);
      OneFeedMore(cs);
      var k: nat :| LineStartsAt(init, k) && PositionAfter(init).column == 1 + |init| - k;
      LineGoesOn(cs, k);
    }
  }

  lemma OneFeedMore(cs: seq<Cp>)
    requires cs != []
    ensures |LineFeeds(cs)| == |LineFeeds(cs[..|cs| - 1])| + if cs[|cs| - 1].value == 10 then 1 else 0
  {
    var init := cs[..|cs| - 1];
    assert LineFeeds(cs) == LineFeeds(init) + if cs[|cs| - 1].value == 10 then {|cs| - 1} else {};
  }

  lemma LineGoesOn(cs: seq<Cp>, k: nat)
    requires cs != [] && LineStartsAt(cs[..|cs| - 1], k)
    ensures LineStartsAt(cs, if cs[|cs| - 1].value == 10 then |cs| else k)
  {
  }

  function Located(cs: seq<Cp>, i: nat): Codepoint
    requires i < |cs|
  {
    Codepoint(cs[i], PositionAfter(cs[..i]))
  }

  lemma LocatedInPrefix(a: seq<Cp>, b: seq<Cp>, i: nat)
    requires a <= b && i < |a|
    ensures Located(a, i) == Located(b, i)
  {
    assert a[..i] == b[..i];
  }

  lemma PositionStep(cs: seq<Cp>, i: nat)
    requires i < |cs|
    ensures PositionAfter(cs[..i + 1]) == Step(PositionAfter(cs[..i]), cs[i].value)
  {
    assert cs[..i + 1][..i] == cs[..i];
  }

  /** On acceptance the stored code point is not read again, so a stale one does no harm. */
  lemma FeedAgrees(d: Decoder, partial: seq<Byte>, b: Byte)
    requires d.state == FeedAll(partial).state && (partial != [] ==> d == FeedAll(partial))
    ensures Feed(d, b) == Feed(FeedAll(partial), b)
  {
  }

  lemma StartState()
    ensures FeedAll([]).state == ACCEPT
  {
  }

  lemma FinishedAfter(sc: Scanned, b: Byte)
    requires !sc.bad && Feed(FeedAll(sc.partial), b).state == ACCEPT
    ensures var c := Cp(Feed(FeedAll(sc.partial), b).codepoint, sc.partial + [b]);
            ScanByte(sc, b) == Scanned(sc.codes + [c], false, [])
  {
  }

  lemma UnfinishedAfter(sc: Scanned, read: seq<Byte>, b: Byte)
    requires ScanOk(sc, read) && !sc.bad && Live(Feed(FeedAll(sc.partial), b))
    ensures |sc.partial| + 1 <= 3
    ensures FeedAll(sc.partial + [b]) == Feed(FeedAll(sc.partial), b)
    ensures ScanByte(sc, b) == sc.(partial := sc.partial + [b])
  {
    var p := sc.partial + [b];
    assert p[..|p| - 1] == sc.partial;
    UnfinishedIsShort(p);
  }

  lemma ScanAsciiByte(sc: Scanned, b: Byte)
    requires !sc.bad && sc.partial == [] && b < 128
    ensures ScanByte(sc, b) == sc.(codes := sc.codes + [Cp(b, [b])])
  {
    assert [] + [b] == [b];
  }

  class Reader {
    const source: seq<Byte>
    var streamPos: nat
    var nextPos: Position
    var decoder: Decoder
    const decodingBytes: array<Byte>
    var decodingCount: nat
    const buffer: array<Codepoint>
    var current: nat
    var count: nat
    var failed: bool
    ghost var scanned: Scanned
    ghost var blocks: nat

    constructor (source: seq<Byte>)
      ensures Valid() && this.source == source && Delivered() == 0 && !failed && streamPos == BomLength(source)
      ensures fresh(buffer) && fresh(decodingBytes)
    {
      this.source := source;
      streamPos := BomLength(source);
      nextPos := Position(1, 1);
      decoder := START;
      decodingBytes := new Byte[4](_ => 0);
      decodingCount := 0;
      buffer := new Codepoint[BLOCK_CAPACITY](_ => BLANK);
      current, count := 0, 0;
      failed := false;
      scanned := FRESH;
      blocks := 0;
    }

    /** The bytes the stream has handed out. */
    ghost function Taken(): seq<Byte>
      reads this
      requires BomLength(source) <= streamPos <= |source|
    {
      source[BomLength(source)..streamPos]
    }

    ghost predicate InStep()
      reads this`scanned, this`decoder, this`decodingCount, decodingBytes
    {
      && decodingBytes.Length == 4
      && decodingCount == |scanned.partial| <= 3
      && decodingBytes[..decodingCount] == scanned.partial
      && decoder.state == FeedAll(scanned.partial).state
      && (scanned.partial != [] ==> decoder == FeedAll(scanned.partial))
    }

    ghost predicate Valid()
      reads this, decodingBytes, buffer
    {
      && streamPos == StreamPos(source, blocks)
      && buffer as object != decodingBytes
      && buffer.Length == BLOCK_CAPACITY
      && current <= count <= BLOCK_CAPACITY
      && (failed ==> !WellFormed(Stripped(source)))
      && (!failed ==>
          && scanned == Scan(FRESH, Taken()) && !scanned.bad
          && ScanOk(scanned, Taken())
          && InStep()
          && (streamPos == |source| ==> scanned.partial == [])
          && nextPos == PositionAfter(scanned.codes)
          && (blocks == 0 ==> count == 0)
          && |scanned.codes| - count == (if blocks == 0 then 0 else Passed(source, blocks - 1))
          && (forall i :: 0 <= i < count ==> buffer[i] == Located(scanned.codes, |scanned.codes| - count + i))
          && BlankFrom(count))
    }

    /** Behind the block's code points its slots are zero. */
    ghost predicate BlankFrom(n: nat)
      reads buffer
      requires buffer.Length == BLOCK_CAPACITY
    {
      forall i :: n <= i < BLOCK_CAPACITY ==> buffer[i] == BLANK
    }

    /** How many code points have been handed out. */
    ghost function Delivered(): int
      reads this
    {
      |scanned.codes| - (count - current)
    }

    method CalcPositions(ghost before: seq<Cp>)
      requires buffer.Length == BLOCK_CAPACITY && count <= BLOCK_CAPACITY
      requires nextPos == PositionAfter(before)
      requires |scanned.codes| == |before| + count && before <= scanned.codes
      requires forall i :: 0 <= i < count ==> buffer[i].code == scanned.codes[|before| + i]
      requires BlankFrom(count)
      modifies buffer, this`nextPos
      ensures nextPos == PositionAfter(scanned.codes)
      ensures BlankFrom(count)
      ensures forall i :: 0 <= i < count ==> buffer[i] == Located(scanned.codes, |before| + i)
    {
      hide PositionAfter;
      var i := 0;
      assert scanned.codes[..|before|] == before;
      while i < count
        invariant 0 <= i <= count
        invariant nextPos == PositionAfter(scanned.codes[..|before| + i])
        invariant BlankFrom(count)
        invariant forall j :: 0 <= j < count ==> buffer[j].code == scanned.codes[|before| + j]
        invariant forall j :: 0 <= j < i ==> buffer[j] == Located(scanned.codes, |before| + j)
      {
        ghost var k := |before| + i;
        assert Located(scanned.codes, k) == Codepoint(scanned.codes[k], nextPos);
        buffer[i] := buffer[i].(position := nextPos);
        PositionStep(scanned.codes, k);
        if buffer[i].code.value == '\n' as int {
          nextPos := Position(nextPos.line + 1, 1);
        } else {
          nextPos := nextPos.(column := nextPos.column + 1);
        }
        i := i + 1;
      }
      assert scanned.codes[..|before| + count] == scanned.codes;
    }

    /** The ASCII fast path: every byte of the block is a code point. */
    method TakeAscii(raw: seq<Byte>)
      requires buffer.Length == BLOCK_CAPACITY && |raw| <= BLOCK_CAPACITY && IsAscii(raw)
      requires !scanned.bad && scanned.partial == [] && InStep() && buffer as object != decodingBytes
      requires BlankFrom(0)
      modifies this`count, this`decoder, this`decodingCount, this`scanned, buffer
      ensures scanned == Scan(old(scanned), raw) && !scanned.bad && scanned.partial == [] && InStep()
      ensures count == |raw| && |scanned.codes| == |old(scanned.codes)| + count && old(scanned.codes) <= scanned.codes
      ensures BlankFrom(count)
      ensures forall i :: 0 <= i < count ==> buffer[i].code == scanned.codes[|old(scanned.codes)| + i]
    {
      decoder := decoder.(state := ACCEPT);
      decodingCount := 0;
      count := |raw|;
      ghost var before := scanned;
      var i := 0;
      assert raw[..0] == [];
      while i < count
        invariant 0 <= i <= count == |raw|
        invariant decodingCount == 0 && decoder.state == ACCEPT
        invariant BlankFrom(i)
        invariant scanned == Scan(before, raw[..i]) && !scanned.bad && scanned.partial == []
        invariant |scanned.codes| == |before.codes| + i && before.codes <= scanned.codes
        invariant forall j :: 0 <= j < i ==> buffer[j].code == scanned.codes[|before.codes| + j]
      {
        buffer[i] := Codepoint(Cp(raw[i], [raw[i]]), Position(0, 0));
        ScanAsciiByte(scanned, raw[i]);
        ScanConcat(before, raw[..i], [raw[i]]);
        ScanOne(scanned, raw[i]);
        assert raw[..i] + [raw[i]] == raw[..i + 1];
        scanned := ScanByte(scanned, raw[i]);
        i := i + 1;
      }
      assert raw[..i] == raw;
    }

    /** One byte through the decoder; a finished code point goes to the block's buffer. */
    method TakeByte(b: Byte, ghost read: seq<Byte>, ghost base: nat) returns (ok: bool)
      requires buffer.Length == BLOCK_CAPACITY && count < BLOCK_CAPACITY && buffer as object != decodingBytes
      requires !scanned.bad && ScanOk(scanned, read) && InStep() && |scanned.codes| == base + count
      requires forall j :: 0 <= j < count ==> buffer[j].code == scanned.codes[base + j]
      requires BlankFrom(count)
      modifies this`count, this`decoder, this`decodingCount, this`scanned, buffer, decodingBytes
      ensures scanned == ScanByte(old(scanned), b) && ok == !scanned.bad
      ensures ok ==> InStep() && ScanOk(scanned, read + [b]) && old(scanned.codes) <= scanned.codes
      ensures ok ==> |scanned.codes| == base + count && old(count) <= count <= old(count) + 1
      ensures !ok ==> count == old(count)
      ensures BlankFrom(count)
      ensures ok && count == old(count) ==> |scanned.partial| == |old(scanned.partial)| + 1
      ensures ok ==> forall j :: 0 <= j < count ==> buffer[j].code == scanned.codes[base + j]
    {
      hide Feed, FeedAll, ScanOk, Unfinished;
      ghost var before := scanned;
      ScanByteOk(before, read, b);
      FeedAgrees(decoder, before.partial, b);
      decoder := Feed(decoder, b);
      scanned := ScanByte(before, b);
      if decoder.state == REJECT { return false; }
      hide ScanByte;
      decodingBytes[decodingCount] := b;
      decodingCount := decodingCount + 1;
      assert decodingBytes[..decodingCount] == before.partial + [b];
      if decoder.state == ACCEPT {
        FinishedAfter(before, b);
        StartState();
        buffer[count] := Codepoint(Cp(decoder.codepoint, decodingBytes[..decodingCount]), Position(0, 0));
        count := count + 1;
        decodingCount := 0;
      } else {
        // The source also tests for a fourth byte here; an unfinished code point never has one.
        UnfinishedAfter(before, read, b);
        assert decodingCount < 4;
      }
      ok := true;
    }

    /** The slow path: every byte goes through the decoder; false when one of them is rejected. */
    method TakeDecoded(raw: seq<Byte>, ghost read: seq<Byte>) returns (ok: bool)
      requires buffer.Length == BLOCK_CAPACITY && |raw| <= BLOCK_CAPACITY && buffer as object != decodingBytes
      requires !scanned.bad && ScanOk(scanned, read) && InStep() && count == 0 && BlankFrom(0)
      modifies this`count, this`decoder, this`decodingCount, this`scanned, buffer, decodingBytes
      ensures count <= |raw| && BlankFrom(count)
      ensures ok ==> scanned == Scan(old(scanned), raw) && !scanned.bad && InStep() && ScanOk(scanned, read + raw)
      ensures ok ==> |scanned.codes| == |old(scanned.codes)| + count && old(scanned.codes) <= scanned.codes
      ensures ok ==> (count == 0 ==> |scanned.partial| == |old(scanned.partial)| + |raw|)
      ensures ok ==> forall i :: 0 <= i < count ==> buffer[i].code == scanned.codes[|old(scanned.codes)| + i]
      ensures !ok ==> Scan(old(scanned), raw).bad
    {
      hide Feed, FeedAll, Unfinished, ScanByte, Scan, ScanOk;
      ghost var before := scanned;
      var i := 0;
      assert raw[..0] == [] && read + [] == read;
      ScanNothing(before);
      while i < |raw|
        invariant 0 <= i <= |raw|
        invariant scanned == Scan(before, raw[..i]) && !scanned.bad && InStep()
        invariant ScanOk(scanned, read + raw[..i]) && BlankFrom(count)
        invariant |scanned.codes| == |before.codes| + count && before.codes <= scanned.codes
        invariant count <= i && (count == 0 ==> |scanned.partial| == |before.partial| + i)
        invariant forall j :: 0 <= j < count ==> buffer[j].code == scanned.codes[|before.codes| + j]
      {
        ScanConcat(before, raw[..i], [raw[i]]);
        ScanOne(scanned, raw[i]);
        assert raw[..i] + [raw[i]] == raw[..i + 1];
        assert read + raw[..i] + [raw[i]] == read + raw[..i + 1];
        ok := TakeByte(raw[i], read + raw[..i], |before.codes|);
        if !ok {
          ScanConcat(before, raw[..i + 1], raw[i + 1..]);
          assert raw[..i + 1] + raw[i + 1..] == raw;
          ScanGrows(scanned, raw[i + 1..]);
          return false;
        }
        i := i + 1;
      }
      assert raw[..i] == raw;
      ok := true;
    }

    /** Decodes a block on the path that suits it; false on a rejected byte or a truncated last code point. */
    method DecodeBlock(raw: seq<Byte>, ghost read: seq<Byte>) returns (ok: bool)
      requires buffer.Length == BLOCK_CAPACITY && |raw| <= BLOCK_CAPACITY && buffer as object != decodingBytes
      requires !scanned.bad && ScanOk(scanned, read) && InStep() && count == 0 && BlankFrom(0)
      modifies this`count, this`decoder, this`decodingCount, this`scanned, buffer, decodingBytes
      ensures count <= |raw| && BlankFrom(count)
      ensures ok ==> scanned == Scan(old(scanned), raw) && !scanned.bad && InStep() && ScanOk(scanned, read + raw)
      ensures ok ==> |scanned.codes| == |old(scanned.codes)| + count && old(scanned.codes) <= scanned.codes
      ensures ok && streamPos >= |source| ==> scanned.partial == []
      ensures ok ==> (count == 0 ==> |scanned.partial| == |old(scanned.partial)| + |raw|)
      ensures ok ==> forall i :: 0 <= i < count ==> buffer[i].code == scanned.codes[|old(scanned.codes)| + i]
      ensures !ok ==> Scan(old(scanned), raw).bad
                      || (streamPos >= |source| && Scan(old(scanned), raw).partial != [])
    {
      hide Scan, ScanOk, FeedAll, Feed, Encode, BytesOf, ScanByte;
      ghost var before := scanned;
      var needsMoreInput := decoder.state != ACCEPT && decoder.state != REJECT;
      PartialMeansMore(before, read);
      var ascii := AllAscii(raw);
      if !needsMoreInput && ascii {
        TakeAscii(raw);
        ScanKeepsOk(before, read, raw);
        return true;
      }
      ok := TakeDecoded(raw, read);
      if !ok { return false; }
      PartialMeansMore(scanned, read + raw);
      if decoder.state != ACCEPT && decoder.state != REJECT && streamPos >= |source| { return false; }
    }

    /** `memset` over the block and its counters. */
    method Clear()
      requires buffer.Length == BLOCK_CAPACITY
      modifies this`current, this`count, buffer
      ensures current == count == 0 && BlankFrom(0)
    {
      forall i | 0 <= i < BLOCK_CAPACITY { buffer[i] := BLANK; }
      current, count := 0, 0;
    }

    /** Reads and decodes the next block, over the one before; false on ill-formed or truncated input. */
    method ReadNextBlock() returns (ok: bool)
      requires Valid() && !failed && current == count && streamPos < |source|
      modifies this, buffer, decodingBytes
      ensures Valid() && ok == !failed && blocks == old(blocks) + 1
      ensures ok ==> current == 0 < count && Delivered() == old(Delivered())
      ensures ok ==> old(scanned.codes) <= scanned.codes
    {
      hide Scan, ScanOk, FeedAll, Feed, Encode, WellFormed, PositionAfter, BytesOf, ScanByte, Located;
      assert |scanned.codes| == Passed(source, blocks);
      hide Passed, InStep;
      var n := if streamPos + BLOCK_CAPACITY <= |source| then BLOCK_CAPACITY else |source| - streamPos;
      var raw := source[streamPos..streamPos + n];
      ghost var read, before := Taken(), scanned;
      ScanConcat(FRESH, read, raw);
      streamPos := streamPos + n;
      TakeMore(source, streamPos - n, streamPos);
      blocks := blocks + 1;
      Clear();
      var decoded := DecodeBlock(raw, read);
      if !decoded {
        IllFormedSoFar(source, streamPos);
        failed := true;
        return false;
      }
      PartialMeansMore(scanned, Taken());
      CalcPositions(before.codes);
      ok := true;
    }

    /** The slot handed out last holds the code point it was handed out for. */
    lemma HeadIs()
      requires Valid() && !failed && 0 < current
      ensures 0 < Delivered() <= |Decoded(source)|
      ensures buffer[current - 1] == Located(Decoded(source), Delivered() - 1)
    {
      hide Scan, PositionAfter, InStep, Located;
      PassedGrows(source, blocks, blocks);
      LocatedInPrefix(scanned.codes, Decoded(source), Delivered() - 1);
    }

    /**
      The slot of the next code point, the end of the input, or an error; after an error only errors
      follow. The slot handed out before may by then hold something else.
     */
    method ReadNext() returns (r: ReadResult)
      requires Valid()
      modifies this, buffer, decodingBytes
      ensures Valid()
      ensures old(failed) ==> r.Failed?
      ensures r.Failed? <==> failed
      ensures r.Failed? ==> !WellFormed(Stripped(source))
      ensures r.At? ==>
                && 0 <= old(Delivered()) < |Decoded(source)| && Delivered() == old(Delivered()) + 1
                && r.slot < BLOCK_CAPACITY && current == r.slot + 1
                && buffer[r.slot] == Located(Decoded(source), old(Delivered()))
      ensures r.EndOfInput? ==> WellFormed(Stripped(source))
      ensures r.EndOfInput? ==> current == old(current) && old(Delivered()) == |Decoded(source)| == Delivered()
      ensures !r.Failed? && 0 < old(current) ==>
                && 0 < old(Delivered()) <= |Decoded(source)|
                && buffer[old(current) - 1].code.value == Reread(source, old(Delivered()) - 1)
    {
      hide *;
      Sizes();
      if failed {
        FailedForGood();
        return Failed;
      }
      if 0 < current { HeadIs(); }
      if current == count {
        if streamPos >= |source| {
          AllRead();
          if 0 < current { HeldInside(); }
          return EndOfInput;
        }
        var ok := NextBlock();
        if !ok { return Failed; }
      } else if 0 < current {
        HeldInside();
      }
      r := At(current);
      HandOut();
    }

    method HandOut()
      requires Valid() && !failed && current < count
      modifies this`current
      ensures Valid() && current == old(current) + 1 <= BLOCK_CAPACITY && Delivered() == old(Delivered()) + 1
      ensures 0 < Delivered() <= |Decoded(source)|
      ensures buffer[old(current)] == Located(Decoded(source), Delivered() - 1)
    {
      hide Scan, PositionAfter, InStep, Located, Passed, WellFormed;
      current := current + 1;
      HeadIs();
    }

    /** The block is used up: the next one takes its place. */
    method NextBlock() returns (ok: bool)
      requires Valid() && !failed && current == count && streamPos < |source|
      modifies this, buffer, decodingBytes
      ensures Valid() && ok == !failed
      ensures failed ==> !WellFormed(Stripped(source))
      ensures ok ==> current == 0 < count <= BLOCK_CAPACITY && Delivered() == old(Delivered())
      ensures ok && 0 < old(current) ==>
                && 0 < Delivered() <= |Decoded(source)|
                && buffer[old(current) - 1].code.value == Reread(source, Delivered() - 1)
    {
      hide Scan, PositionAfter, InStep, Located, Reread, BlockFrom, WellFormed, ScanOk;
      ghost var slot, was := current - 1, Delivered();
      assert 0 <= slot ==> 1 <= blocks && slot + 1 == Passed(source, blocks) - Passed(source, blocks - 1);
      hide Passed;
      ok := ReadNextBlock();
      if ok && 0 <= slot { HeldAcross(slot, was); }
    }

    lemma Sizes()
      requires Valid()
      ensures buffer.Length == BLOCK_CAPACITY && current <= count <= BLOCK_CAPACITY && streamPos <= |source|
    {
    }

    lemma FailedForGood()
      requires Valid() && failed
      ensures !WellFormed(Stripped(source))
    {
    }

    lemma AllRead()
      requires Valid() && !failed && current == count && streamPos == |source|
      ensures WellFormed(Stripped(source)) && Delivered() == |Decoded(source)|
    {
      hide Scan, ScanOk, FeedAll, Feed, Encode, WellFormed, PositionAfter, InStep, Passed;
      assert Taken() == Stripped(source);
      DecoderIsExact(Stripped(source));
    }

    /** Asking for the next code point of the same block, or for one behind the last, loses nothing. */
    lemma HeldInside()
      requires Valid() && !failed && 0 < current
      requires current < count || streamPos == |source|
      ensures 0 < Delivered() <= |Decoded(source)|
      ensures buffer[current - 1].code.value == Reread(source, Delivered() - 1)
    {
      hide Scan, PositionAfter, InStep, Reread;
      HeadIs();
      PassedGrows(source, blocks, blocks);
      RereadInside(source, Delivered() - 1, blocks - 1);
    }

    /** In a fresh block, the slot of the last code point of the block before. */
    lemma HeldAcross(slot: nat, was: nat)
      requires Valid() && !failed && current == 0 < count && 2 <= blocks
      requires was == Delivered() && slot + 1 == Passed(source, blocks - 1) - Passed(source, blocks - 2)
      requires slot < BLOCK_CAPACITY
      ensures 0 < was <= |Decoded(source)| && buffer[slot].code.value == Reread(source, was - 1)
    {
      hide Valid, Passed, AfterBlocks, Reread, Decoded;
      SlotHolds(slot);
      RereadIs(source, blocks, slot);
    }

    /** What a slot of the block holds, in terms of what so many blocks complete. */
    lemma SlotHolds(slot: nat)
      requires Valid() && !failed && 0 < blocks && slot < BLOCK_CAPACITY
      ensures buffer.Length == BLOCK_CAPACITY
      ensures count == Passed(source, blocks) - Passed(source, blocks - 1)
      ensures Delivered() == Passed(source, blocks - 1) + current
      ensures var at, codes := Passed(source, blocks - 1) + slot, AfterBlocks(source, blocks).codes;
              buffer[slot].code.value == if at < |codes| then codes[at].value else 0
    {
      hide Scan, PositionAfter, InStep;
    }
  }

  // ----- inputs without a byte above 127 -----

  lemma {:induction false} ScanAscii(s: seq<Byte>)
    requires IsAscii(s)
    ensures var sc := Scan(FRESH, s);
            && !sc.bad && sc.partial == [] && |sc.codes| == |s|
            && forall i :: 0 <= i < |s| ==> sc.codes[i] == Cp(s[i], [s[i]])
  {
    hide ScanByte;
    if s != [] {
      var init, last := s[..|s| - 1], s[|s| - 1];
      assert init + [last] == s;
      ScanAscii(init);
      ScanConcat(FRESH, init, [last]);
      ScanOne(Scan(FRESH, init), last);
      ScanAsciiByte(Scan(FRESH, init), last);
    } else {
      ScanNothing(FRESH);
    }
  }

  lemma AsciiPassed(source: seq<Byte>, b: nat)
    requires IsAscii(Stripped(source))
    ensures var n := BLOCK_CAPACITY * b;
            Passed(source, b) == if n <= |Stripped(source)| then n else |Stripped(source)|
  {
    var taken := source[BomLength(source)..StreamPos(source, b)];
    assert taken == Stripped(source)[..|taken|];
    ScanAscii(taken);
  }

  /** Behind an ASCII block boundary a pointer to the last slot sees the byte one block further on. */
  lemma AsciiReread(source: seq<Byte>, i: nat)
    requires IsAscii(Stripped(source)) && i < |Stripped(source)|
    ensures var s := Stripped(source);
            && |Decoded(source)| == |s| && Decoded(source)[i].value == s[i]
            && Reread(source, i) == if (i + 1) % BLOCK_CAPACITY != 0 || i + 1 == |s| then s[i]
                                    else if i + BLOCK_CAPACITY < |s| then s[i + BLOCK_CAPACITY]
                                    else 0
  {
    hide Reread, Scan, Passed;
    var s, b := Stripped(source), i / BLOCK_CAPACITY;
    ScanAscii(s);
    hide Stripped, Decoded;
    AsciiPassed(source, b);
    AsciiPassed(source, b + 1);
    AsciiPassed(source, b + 2);
    if (i + 1) % BLOCK_CAPACITY != 0 || i + 1 == |s| {
      RereadInside(source, i, b);
    } else {
      RereadAcross(source, i, b);
    }
  }

  method AllAscii(s: seq<Byte>) returns (ascii: bool)
    ensures ascii == IsAscii(s)
  {
    var i := 0;
    while i < |s|
      invariant 0 <= i <= |s|
      invariant IsAscii(s[..i])
    {
      if s[i] > 127 { return false; }
      i := i + 1;
    }
    assert s[..i] == s;
    ascii := true;
  }

  /** The decoder wants more input exactly when a code point is unfinished. */
  lemma PartialMeansMore(sc: Scanned, read: seq<Byte>)
    requires ScanOk(sc, read)
    ensures Live(FeedAll(sc.partial)) <==> sc.partial != []
    ensures |sc.partial| <= 3
    ensures sc.partial == [] ==> FeedAll(sc.partial).state == ACCEPT
  {
    if sc.partial != [] {
      UnfinishedIsShort(sc.partial);
    }
  }

  lemma SplitStripped(source: seq<Byte>, at: nat)
    requires BomLength(source) <= at <= |source|
    ensures Stripped(source) == source[BomLength(source)..at] + source[at..]
    ensures Scan(FRESH, Stripped(source)) == Scan(Scan(FRESH, source[BomLength(source)..at]), source[at..])
  {
    ScanConcat(FRESH, source[BomLength(source)..at], source[at..]);
    assert Stripped(source) == source[BomLength(source)..at] + source[at..];
  }

  lemma TakeMore(source: seq<Byte>, a: nat, b: nat)
    requires BomLength(source) <= a <= b <= |source|
    ensures source[BomLength(source)..b] == source[BomLength(source)..a] + source[a..b]
  {
  }

  /** An error so far, or a code point unfinished at the end, means the input is ill-formed. */
  lemma IllFormedSoFar(source: seq<Byte>, at: nat)
    requires BomLength(source) <= at <= |source|
    requires var sc := Scan(FRESH, source[BomLength(source)..at]); sc.bad || (at == |source| && sc.partial != [])
    ensures !WellFormed(Stripped(source))
  {
    SplitStripped(source, at);
    ScanGrows(Scan(FRESH, source[BomLength(source)..at]), source[at..]);
    assert at == |source| ==> source[BomLength(source)..at] == Stripped(source);
    DecoderIsExact(Stripped(source));
  }

  /** Every code point of `cs` with its position. */
  function LocatedAll(cs: seq<Cp>): seq<Codepoint> {
    seq(|cs|, i requires 0 <= i < |cs| => Located(cs, i))
  }

  /**
    A caller that reads to the end. Whatever the block boundaries and whichever blocks take the fast
    path, a well-formed input yields exactly its code points with their positions, the byte-order mark
    aside, and any other input ends in an error.
   */
  method ReadAll(source: seq<Byte>) returns (ok: bool, out: seq<Codepoint>)
    ensures ok <==> WellFormed(Stripped(source))
    ensures ok ==> forall vs | Scalars(vs) && EncodeAll(vs) == Stripped(source) :: out == LocatedAll(Codes(vs))
    ensures out <= LocatedAll(Scan(FRESH, Stripped(source)).codes)
  {
    hide Scan, WellFormed, Reader.Valid;
    var reader := new Reader(source);
    ghost var all := Scan(FRESH, Stripped(source)).codes;
    out := [];
    while true
      invariant reader.Valid() && reader.source == source && !reader.failed
      invariant fresh(reader) && fresh(reader.buffer) && fresh(reader.decodingBytes)
      invariant reader.Delivered() == |out| <= |all|
      invariant out == LocatedAll(all)[..|out|]
      decreases |all| - |out|
    {
      var r := reader.ReadNext();
      match r {
        case At(slot) =>
          out := out + [reader.buffer[slot]];
        case EndOfInput =>
          DecoderIsExact(Stripped(source));
          return true, out;
        case Failed =>
          return false, out;
      }
    }
  }
}
