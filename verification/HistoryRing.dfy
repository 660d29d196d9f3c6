/**
  The reader with push-back: a 127-slot ring remembers what was read before the current head, so the
  parser can step back up to 127 code points. The contracts say it behaves as a cursor over the
  underlying sequence.
 */
module HistoryRing {

  import opened Options
  import opened Utf8
  import opened Utf8Reader

  const HISTORY_SIZE := 127

  /** What the source keeps as a pointer: a slot of the ring, a slot of the reader's block, or null. */
  datatype Place = Nowhere | InRing(slot: nat) | InBlock(slot: nat)

  predicate Legal(p: Place) {
    match p
    case Nowhere => false
    case InRing(slot) => slot < HISTORY_SIZE
    case InBlock(slot) => slot < BLOCK_CAPACITY
  }

  /** The code points of the input, with their positions. */
  function Items(source: seq<Byte>): seq<Codepoint> {
    LocatedAll(Decoded(source))
  }

  function ItemAt<T>(items: seq<T>, i: int): Option<T> {
    if 0 <= i < |items| then Some(items[i]) else None
  }

  lemma ItemCode(source: seq<Byte>, i: nat)
    requires i < |Decoded(source)|
    ensures |Items(source)| == |Decoded(source)| && Items(source)[i].code == Decoded(source)[i]
  {
  }

  function Min(a: int, b: int): int {
    if a <= b then a else b
  }

  function Max(a: int, b: int): int {
    if a <= b then b else a
  }

  /** `top` is the index of the newest element read (-1 before the first read, the length at the end of
      the input), `pos` the index of the current one. */
  datatype Cursor = Cursor(pos: int, top: int)

  const BEFORE_FIRST := Cursor(-1, -1)

  function CursorNext(c: Cursor, length: nat): Cursor {
    if c.pos < c.top then c.(pos := c.pos + 1)
    else if c.top < length then Cursor(c.top + 1, c.top + 1)
    else c
  }

  /** How many elements before the newest one are still recorded. */
  function Recorded(c: Cursor): int {
    if c.top < 0 then 0 else Min(HISTORY_SIZE, c.top)
  }

  /** What the reader asks of a caller that steps back. */
  predicate CanStepBack(c: Cursor, n: nat) {
    0 < Recorded(c) && c.top - c.pos + n <= Recorded(c)
  }

  function Slot(first: nat, i: int): int {
    (first + i) % HISTORY_SIZE
  }

  /** The ring's slots hold `count` consecutive elements, from index `from` on. */
  ghost predicate Holds<T>(buffer: seq<T>, first: nat, count: nat, items: seq<T>, from: int) {
    && |buffer| == HISTORY_SIZE && 0 <= from <= from + count <= |items|
    && forall i {:trigger Slot(first, i)} :: 0 <= i < count ==> buffer[Slot(first, i)] == items[from + i]
  }

  lemma PushKeepsHolds<T>(buffer: seq<T>, first: nat, items: seq<T>, from: int)
    requires Holds(buffer, first, HISTORY_SIZE, items, from) && from + HISTORY_SIZE < |items|
    ensures var at, next := Slot(first, HISTORY_SIZE), items[from + HISTORY_SIZE];
            Holds(buffer[at := next], first + 1, HISTORY_SIZE, items, from + 1)
  {
    var at := Slot(first, HISTORY_SIZE);
    assert at == Slot(first, 0);
    forall i {:trigger Slot(first + 1, i)} | 0 <= i < HISTORY_SIZE
      ensures buffer[at := items[from + HISTORY_SIZE]][Slot(first + 1, i)] == items[from + 1 + i]
    {
      assert Slot(first + 1, i) == Slot(first, i + 1);
      if i + 1 < HISTORY_SIZE {
        SlotsDiffer(first, i + 1);
      }
    }
  }

  lemma SlotsDiffer(first: nat, i: int)
    requires 0 < i < HISTORY_SIZE
    ensures Slot(first, i) != Slot(first, 0)
  {
  }

  lemma FillKeepsHolds<T>(buffer: seq<T>, count: nat, items: seq<T>, from: int)
    requires Holds(buffer, 0, count, items, from) && count < HISTORY_SIZE && from + count < |items|
    ensures Holds(buffer[count := items[from + count]], 0, count + 1, items, from)
  {
    forall i | 0 <= i < count + 1
      ensures buffer[count := items[from + count]][Slot(0, i)] == items[from + i]
    {
      assert Slot(0, i) == i;
    }
  }

  /** What a pointer to the current code point yields once the next one has been asked for. */
  function Behind(source: seq<Byte>, c: Cursor): (v: int)
    requires 0 <= c.pos < |Decoded(source)|
    ensures Scalar(v)
  {
    if c.pos < c.top then Decoded(source)[c.pos].value else Reread(source, c.pos)
  }

  class BufferedReader {
    const reader: Reader
    const history: array<Codepoint>
    var count: nat
    var first: nat
    var head: Place
    var negativeOffset: nat
    ghost var top: int

    constructor (reader: Reader)
      requires reader.Valid() && !reader.failed && reader.Delivered() == 0
      ensures Valid() && this.reader == reader && View() == BEFORE_FIRST && fresh(history)
    {
      this.reader := reader;
      history := new Codepoint[HISTORY_SIZE](_ => BLANK);
      count, first := 0, 0;
      head := Nowhere;
      negativeOffset := 0;
      top := -1;
    }

    ghost predicate Valid()
      reads this, reader, reader.buffer, reader.decodingBytes, history
    {
      && history.Length == HISTORY_SIZE && history != reader.buffer
      && negativeOffset <= count
      && reader.Valid()
      && (!reader.failed ==> HeadFits() && RingFits())
    }

    ghost predicate HeadFits()
      reads this, reader
    {
      var length := |Decoded(reader.source)|;
      && -1 <= top <= length
      && reader.Delivered() == Min(top + 1, length)
      && (0 <= top < length ==> 0 < reader.current <= BLOCK_CAPACITY)
      && head == if 0 <= top < length then InBlock(reader.current - 1) else Nowhere
    }

    ghost predicate RingFits()
      reads this, history
    {
      && -1 <= top
      && count == Recorded(Cursor(0, top))
      && (count < HISTORY_SIZE ==> first == 0)
      && Holds(history[..], first, count, Items(reader.source), Max(top, 0) - count)
    }

    ghost function View(): Cursor
      reads this
    {
      Cursor(top - negativeOffset, top)
    }

    /** The pointer handed out last. */
    function Current(): Place
      reads this
      requires negativeOffset <= count
    {
      if negativeOffset == 0 then head
      else InRing((first + count - negativeOffset) % HISTORY_SIZE)
    }

    function Deref(p: Place): Codepoint
      reads history, reader, reader.buffer
      requires Legal(p) && history.Length == HISTORY_SIZE && reader.buffer.Length == BLOCK_CAPACITY
    {
      match p
      case InRing(slot) => history[slot]
      case InBlock(slot) => reader.buffer[slot]
    }

    /** The pointer leads to the element of that index, or is null where there is none. */
    ghost predicate LeadsTo(p: Place, i: int)
      reads history, reader, reader.buffer
      requires history.Length == HISTORY_SIZE && reader.buffer.Length == BLOCK_CAPACITY
    {
      if 0 <= i < |Items(reader.source)| then Legal(p) && Deref(p) == Items(reader.source)[i] else p == Nowhere
    }

    /** As long as nothing more is asked for, the pointer handed out last is good. */
    lemma CurrentLeads()
      requires Valid() && !reader.failed
      ensures reader.buffer.Length == BLOCK_CAPACITY && history.Length == HISTORY_SIZE && negativeOffset <= count
      ensures LeadsTo(Current(), View().pos)
    {
      hide Reader.Valid, Holds, Located;
      reader.Sizes();
      if negativeOffset == 0 {
        if 0 <= top < |Decoded(reader.source)| { reader.HeadIs(); }
      } else {
        RingAt(count - negativeOffset);
      }
    }

    lemma RingAt(i: nat)
      requires history.Length == HISTORY_SIZE && RingFits() && i < count
      ensures 0 <= Max(top, 0) - count + i < |Items(reader.source)|
      ensures history[(first + i) % HISTORY_SIZE] == Items(reader.source)[Max(top, 0) - count + i]
    {
      assert history[..][Slot(first, i)] == Items(reader.source)[Max(top, 0) - count + i];
    }

    /** Copies the head into the history. */
    method Remember()
      requires Valid() && !reader.failed && head != Nowhere
      modifies this`count, this`first, history
      ensures count == Min(HISTORY_SIZE, top + 1) && (count < HISTORY_SIZE ==> first == 0)
      ensures Holds(history[..], first, count, Items(reader.source), top + 1 - count)
    {
      hide Reader.Valid, Located;
      ghost var items, was := Items(reader.source), history[..];
      reader.HeadIs();
      reader.Sizes();
      assert Deref(head) == items[top];
      if count < HISTORY_SIZE {
        FillKeepsHolds(was, count, items, top - count);
        history[count] := Deref(head);
        assert history[..] == was[count := items[top]];
        count := count + 1;
      } else {
        PushKeepsHolds(was, first, items, top - count);
        history[(first + HISTORY_SIZE) % HISTORY_SIZE] := Deref(head);
        assert history[..] == was[Slot(first, HISTORY_SIZE) := items[top]];
        first := first + 1;
      }
    }

    /** Asks the reader for one more code point. */
    method Fetch()
      requires reader.Valid() && !reader.failed && HeadFits()
      modifies this`head, reader, reader.buffer, reader.decodingBytes
      ensures reader.Valid()
      ensures reader.failed ==> head == Nowhere && !WellFormed(Stripped(reader.source))
      ensures !reader.failed ==>
                var length := |Decoded(reader.source)|;
                && reader.Delivered() == Min(top + 2, length)
                && (top + 1 < length ==> 0 < reader.current <= BLOCK_CAPACITY && head == InBlock(reader.current - 1))
                && (top + 1 >= length ==> head == Nowhere)
                && (0 <= top < length ==>
                      && old(reader.current) <= reader.buffer.Length
                      && reader.buffer[old(reader.current) - 1].code.value == Reread(reader.source, top))
    {
      hide Reader.Valid, Reread, Scan, WellFormed;
      var r := reader.ReadNext();
      head := match r
        case At(slot) => InBlock(slot)
        case _ => Nowhere;
      reader.Sizes();
    }

    /** Hands out again what was stepped back over. */
    method Replay() returns (p: Place)
      requires Valid() && !reader.failed && negativeOffset > 0
      modifies this`negativeOffset
      ensures Valid() && p == Current() && View() == CursorNext(old(View()), |Items(reader.source)|)
      ensures Deref(old(Current())) == old(Deref(Current()))
    {
      hide Reader.Valid, Holds;
      reader.Sizes();
      negativeOffset := negativeOffset - 1;
      if negativeOffset == 0 { return head; }
      return InRing((first + count - negativeOffset) % HISTORY_SIZE);
    }

    /** Reads on; what was handed out before then yields the code point behind, as long as it can. */
    method ReadNext() returns (p: Place)
      requires Valid()
      modifies this, history, reader, reader.buffer, reader.decodingBytes
      ensures Valid() && (old(reader.failed) ==> reader.failed)
      ensures reader.failed ==> p == Nowhere && !WellFormed(Stripped(reader.source))
      ensures !reader.failed ==> p == Current() && View() == CursorNext(old(View()), |Items(reader.source)|)
      ensures !reader.failed && 0 <= old(View()).pos < |Items(reader.source)| ==>
                && Legal(old(Current())) && reader.buffer.Length == BLOCK_CAPACITY
                && Deref(old(Current())).code.value == Behind(reader.source, old(View()))
    {
      hide Reader.Valid, Reread, Scan, WellFormed, Holds, Located;
      if reader.failed {
        reader.FailedForGood();
        return Nowhere;
      }
      CurrentLeads();
      if negativeOffset > 0 {
        if 0 <= View().pos < |Items(reader.source)| { ItemCode(reader.source, View().pos); }
        p := Replay();
        return;
      }
      if count == 0 && head == Nowhere {
        Fetch();
        top := if top < |Items(reader.source)| then top + 1 else top;
      } else if head != Nowhere {
        Remember();
        Fetch();
        top := top + 1;
      }
      return head;
    }

    method StepBack(n: nat) returns (p: Place)
      requires Valid() && (!reader.failed ==> CanStepBack(View(), n))
      modifies this`negativeOffset
      ensures Valid()
      ensures reader.failed ==> p == Nowhere
      ensures !reader.failed ==> p == Current() && View() == old(View()).(pos := old(View()).pos - n)
    {
      hide Reader.Valid, Holds, Located, Decoded;
      if reader.failed { return Nowhere; }
      negativeOffset := negativeOffset + n;
      if negativeOffset == 0 { return head; }
      return InRing((first + count - negativeOffset) % HISTORY_SIZE);
    }
  }

  // ----- any mix of calls -----

  datatype Call = Next | Back(n: nat)

  function CursorAfter(c: Cursor, call: Call, length: nat): Cursor {
    match call
    case Next => CursorNext(c, length)
    case Back(n) => c.(pos := c.pos - n)
  }

  /** What a cursor over the plain sequence answers to the calls. */
  function Answers<T>(items: seq<T>, c: Cursor, calls: seq<Call>): seq<Option<T>>
    decreases |calls|
  {
    if calls == [] then []
    else
      var c' := CursorAfter(c, calls[0], |items|);
      [ItemAt(items, c'.pos)] + Answers(items, c', calls[1..])
  }

  /** Every step back stays within the recorded history. */
  predicate WithinHistory(c: Cursor, calls: seq<Call>, length: nat)
    decreases |calls|
  {
    calls == [] ||
    ((calls[0].Back? ==> CanStepBack(c, calls[0].n))
     && WithinHistory(CursorAfter(c, calls[0], length), calls[1..], length))
  }

  /**
    After any mix of reads and steps back the pointers handed out lead to what a cursor over the
    sequence would answer; the one way out is an error, and that means ill-formed input.
   */
  method RunCalls(b: BufferedReader, calls: seq<Call>) returns (ok: bool, out: seq<Option<Codepoint>>)
    requires b.Valid() && !b.reader.failed && WithinHistory(b.View(), calls, |Items(b.reader.source)|)
    modifies b, b.history, b.reader, b.reader.buffer, b.reader.decodingBytes
    ensures b.Valid()
    ensures ok ==> out == Answers(Items(b.reader.source), old(b.View()), calls)
    ensures !ok ==> !WellFormed(Stripped(b.reader.source))
    decreases |calls|
  {
    hide BufferedReader.Valid, Scan, WellFormed, Located;
    if calls == [] { return true, []; }
    var p: Place;
    match calls[0] {
      case Next => p := b.ReadNext();
      case Back(n) => p := b.StepBack(n);
    }
    if b.reader.failed { return false, []; }
    b.CurrentLeads();
    var r := if p == Nowhere then None else Some(b.Deref(p));
    assert r == ItemAt(Items(b.reader.source), b.View().pos);
    var rest;
    ok, rest := RunCalls(b, calls[1..]);
    out := [r] + rest;
  }
}
