/**
  The shared table of input modes per application: one process sets modes while others look them up. Every
  access to the shared memory is a step of its own, and steps of the writer and the readers interleave.
 */
module SmartSwitch {

  import opened FnvHash
  import opened Options

  const MAX_ENTRIES := 64
  const MAGIC_VALUE := 0x57534D53
  const EPOCHS := 0x1_0000_0000

  datatype Entry = Entry(hash: Hash, vietnamese: nat)

  datatype Shared = Shared(epoch: nat, count: nat, entries: seq<Entry>)

  predicate WellFormed(s: Shared) {
    s.count <= MAX_ENTRIES == |s.entries|
  }

  /** What the published entries say. */
  function Modes(entries: seq<Entry>): map<Hash, bool> {
    if entries == [] then map[]
    else Modes(entries[..|entries| - 1])[entries[|entries| - 1].hash := entries[|entries| - 1].vietnamese != 0]
  }

  function Published(s: Shared): map<Hash, bool>
    requires WellFormed(s)
  {
    Modes(s.entries[..s.count])
  }

  predicate Distinct(s: Shared)
    requires WellFormed(s)
  {
    forall i, j :: 0 <= i < j < s.count ==> s.entries[i].hash != s.entries[j].hash
  }

  function Lookup(m: map<Hash, bool>, hash: Hash): Option<bool> {
    if hash in m then Some(m[hash]) else None
  }

  /** What setting a mode does to the table: a full one takes no new names but still updates known ones. */
  function WithMode(m: map<Hash, bool>, hash: Hash, mode: bool): map<Hash, bool> {
    if hash in m || |m| < MAX_ENTRIES then m[hash := mode] else m
  }

  function Flag(mode: bool): nat { if mode then 1 else 0 }

  // ----- the published map, entry by entry -----

  lemma {:induction false} ModesHold(entries: seq<Entry>, i: nat)
    requires i < |entries|
    requires forall a, b :: 0 <= a < b < |entries| ==> entries[a].hash != entries[b].hash
    ensures entries[i].hash in Modes(entries) && Modes(entries)[entries[i].hash] == (entries[i].vietnamese != 0)
  {
    if i < |entries| - 1 {
      ModesHold(entries[..|entries| - 1], i);
    }
  }

  lemma {:induction false} ModesOnly(entries: seq<Entry>, hash: Hash)
    ensures hash in Modes(entries) <==> exists i :: 0 <= i < |entries| && entries[i].hash == hash
  {
    if entries != [] {
      var front := entries[..|entries| - 1];
      ModesOnly(front, hash);
      if i :| 0 <= i < |entries| && entries[i].hash == hash {
        if i < |entries| - 1 { assert front[i] == entries[i]; }
      }
      if i :| 0 <= i < |front| && front[i].hash == hash {
        assert entries[i].hash == hash;
      }
    }
  }

  lemma {:induction false} ModesSize(entries: seq<Entry>)
    requires forall a, b :: 0 <= a < b < |entries| ==> entries[a].hash != entries[b].hash
    ensures |Modes(entries)| == |entries|
  {
    if entries != [] {
      var front, last := entries[..|entries| - 1], entries[|entries| - 1];
      ModesSize(front);
      ModesOnly(front, last.hash);
      assert last.hash !in Modes(front);
    }
  }

  lemma {:induction false} ModesUpdated(entries: seq<Entry>, i: nat, mode: bool)
    requires i < |entries|
    requires forall a, b :: 0 <= a < b < |entries| ==> entries[a].hash != entries[b].hash
    ensures var e := entries[i].(vietnamese := Flag(mode));
            Modes(entries[i := e]) == Modes(entries)[e.hash := mode]
  {
    var front, last := entries[..|entries| - 1], entries[|entries| - 1];
    var e := entries[i].(vietnamese := Flag(mode));
    var updated := entries[i := e];
    if i == |entries| - 1 {
      assert updated[..|entries| - 1] == front;
    } else {
      ModesUpdated(front, i, mode);
      assert updated[..|entries| - 1] == front[i := e];
      assert last.hash != e.hash;
    }
  }

  lemma ModesAppended(entries: seq<Entry>, e: Entry)
    ensures Modes(entries + [e]) == Modes(entries)[e.hash := e.vietnamese != 0]
  {
    assert (entries + [e])[..|entries|] == entries;
  }

  /** Whether a hash is published, and what its entry says. */
  lemma PublishedIs(s: Shared, hash: Hash)
    requires WellFormed(s) && Distinct(s)
    ensures hash in Published(s) <==> exists i :: 0 <= i < s.count && s.entries[i].hash == hash
    ensures |Published(s)| == s.count
    ensures forall i :: 0 <= i < s.count && s.entries[i].hash == hash ==>
              Lookup(Published(s), hash) == Some(s.entries[i].vietnamese != 0)
  {
    hide Modes;
    var entries := s.entries[..s.count];
    ModesOnly(entries, hash);
    ModesSize(entries);
    assert forall i :: 0 <= i < s.count ==> entries[i] == s.entries[i];
    forall i | 0 <= i < s.count && s.entries[i].hash == hash
      ensures Lookup(Published(s), hash) == Some(s.entries[i].vietnamese != 0)
    {
      ModesHold(entries, i);
    }
  }

  // ----- one writer, step by step -----

  /** Where the writer stands in `SetAppMode`. */
  datatype Writer =
    | Idle
    | TestCount(hash: Hash, mode: bool, i: nat)     // i < count, in the search
    | Compare(hash: Hash, mode: bool, i: nat)       // entries[i].hash == hash
    | Update(mode: bool, i: nat)                    // entries[i].vietnamese = mode
    | TestRoom(hash: Hash, mode: bool)              // count < MAX
    | WriteHash(hash: Hash, mode: bool)             // entries[count].hash = hash
    | WriteMode(mode: bool)                         // entries[count].vietnamese = mode
    | BumpCount                                     // count++
    | BumpEpoch                                     // epoch++

  /** The entry at `i` after a write; nothing lies beyond the last entry. */
  function Written(s: Shared, i: nat, e: Entry): Shared {
    if i < |s.entries| then s.(entries := s.entries[i := e]) else s
  }

  function At(s: Shared, i: nat): Entry {
    if i < |s.entries| then s.entries[i] else Entry(0, 0)
  }

  function WriteStep(s: Shared, w: Writer): (Shared, Writer) {
    match w
    case Idle => (s, w)
    case TestCount(hash, mode, i) =>
      if i < s.count && i < MAX_ENTRIES then (s, Compare(hash, mode, i)) else (s, TestRoom(hash, mode))
    case Compare(hash, mode, i) =>
      if At(s, i).hash == hash then (s, Update(mode, i)) else (s, TestCount(hash, mode, i + 1))
    case Update(mode, i) => (Written(s, i, At(s, i).(vietnamese := Flag(mode))), BumpEpoch)
    case TestRoom(hash, mode) => if s.count < MAX_ENTRIES then (s, WriteHash(hash, mode)) else (s, Idle)
    case WriteHash(hash, mode) => (Written(s, s.count, At(s, s.count).(hash := hash)), WriteMode(mode))
    case WriteMode(mode) => (Written(s, s.count, At(s, s.count).(vietnamese := Flag(mode))), BumpCount)
    case BumpCount => (s.(count := s.count + 1), BumpEpoch)
    case BumpEpoch => (s.(epoch := (s.epoch + 1) % EPOCHS), Idle)
  }

  /** None of the first `n` published entries has this hash. */
  predicate NotAmong(s: Shared, n: nat, hash: Hash)
    requires WellFormed(s)
  {
    n <= s.count && forall k :: 0 <= k < n ==> s.entries[k].hash != hash
  }

  /** What the writer has found out so far. */
  predicate WriterOk(s: Shared, w: Writer)
    requires WellFormed(s)
  {
    match w
    case Idle => true
    case TestCount(hash, _, i) => NotAmong(s, i, hash)
    case Compare(hash, _, i) => i < s.count && NotAmong(s, i, hash)
    case Update(_, i) => i < s.count
    case TestRoom(hash, _) => NotAmong(s, s.count, hash)
    case WriteHash(hash, _) => s.count < MAX_ENTRIES && NotAmong(s, s.count, hash)
    case WriteMode(_) => s.count < MAX_ENTRIES && NotAmong(s, s.count, s.entries[s.count].hash)
    case BumpCount => s.count < MAX_ENTRIES && NotAmong(s, s.count, s.entries[s.count].hash)
    case BumpEpoch => true
  }

  /** What the table will say when the call in progress is over. */
  function Outcome(s: Shared, w: Writer): map<Hash, bool>
    requires WellFormed(s) && WriterOk(s, w)
  {
    match w
    case Idle => Published(s)
    case TestCount(hash, mode, _) => WithMode(Published(s), hash, mode)
    case Compare(hash, mode, _) => WithMode(Published(s), hash, mode)
    case Update(mode, i) => WithMode(Published(s), s.entries[i].hash, mode)
    case TestRoom(hash, mode) => WithMode(Published(s), hash, mode)
    case WriteHash(hash, mode) => WithMode(Published(s), hash, mode)
    case WriteMode(mode) => WithMode(Published(s), s.entries[s.count].hash, mode)
    case BumpCount => WithMode(Published(s), s.entries[s.count].hash, s.entries[s.count].vietnamese != 0)
    case BumpEpoch => Published(s)
  }

  /** Published entries keep their place and their hash. */
  predicate Extends(s: Shared, t: Shared)
    requires WellFormed(s) && WellFormed(t)
  {
    s.count <= t.count && forall i :: 0 <= i < s.count ==> s.entries[i].hash == t.entries[i].hash
  }

  predicate TableOk(s: Shared, w: Writer) {
    WellFormed(s) && Distinct(s) && WriterOk(s, w)
  }

  lemma WriteStepIsSafe(s: Shared, w: Writer)
    requires TableOk(s, w)
    ensures var (t, v) := WriteStep(s, w);
            TableOk(t, v) && Extends(s, t)
  {
  }

  /** Whatever the writer has still to do, the effect of its call is decided when it begins. */
  lemma WriteStepKeepsOutcome(s: Shared, w: Writer)
    requires TableOk(s, w)
    ensures TableOk(WriteStep(s, w).0, WriteStep(s, w).1)
    ensures Outcome(WriteStep(s, w).0, WriteStep(s, w).1) == Outcome(s, w)
  {
    hide Modes;
    WriteStepIsSafe(s, w);
    var (t, v) := WriteStep(s, w);
    match w
    case Update(mode, i) =>
      UpdatePublishes(s, mode, i);
    case TestRoom(hash, mode) =>
      PublishedIs(s, hash);
    case WriteHash(hash, mode) =>
      assert t.entries[..t.count] == s.entries[..s.count];
    case WriteMode(mode) =>
      assert t.entries[..t.count] == s.entries[..s.count];
    case BumpCount =>
      CountPublishes(s);
    case _ =>
  }

  lemma UpdatePublishes(s: Shared, mode: bool, i: nat)
    requires WellFormed(s) && Distinct(s) && i < s.count
    ensures var t := s.(entries := s.entries[i := s.entries[i].(vietnamese := Flag(mode))]);
            Published(t) == WithMode(Published(s), s.entries[i].hash, mode)
  {
    hide Modes;
    var front := s.entries[..s.count];
    var e := s.entries[i].(vietnamese := Flag(mode));
    ModesUpdated(front, i, mode);
    assert s.entries[i := e][..s.count] == front[i := e];
    PublishedIs(s, e.hash);
  }

  lemma CountPublishes(s: Shared)
    requires WellFormed(s) && Distinct(s) && s.count < MAX_ENTRIES
    ensures var e := s.entries[s.count];
            Published(s.(count := s.count + 1)) == WithMode(Published(s), e.hash, e.vietnamese != 0)
  {
    hide Modes;
    var e := s.entries[s.count];
    assert s.entries[..s.count + 1] == s.entries[..s.count] + [e];
    ModesAppended(s.entries[..s.count], e);
    PublishedIs(s, e.hash);
  }

  // ----- the readers -----

  /** Where a reader stands in `GetAppMode`. */
  datatype Reader =
    | Resting
    | Testing(hash: Hash, i: nat)      // i < count
    | Comparing(hash: Hash, i: nat)    // entries[i].hash == hash
    | Reading(hash: Hash, i: nat)      // entries[i].vietnamese
    | Answered(hash: Hash, answer: Option<bool>)

  predicate ReaderOk(s: Shared, r: Reader)
    requires WellFormed(s)
  {
    match r
    case Resting => true
    case Testing(hash, i) => NotAmong(s, i, hash)
    case Comparing(hash, i) => i < s.count && NotAmong(s, i, hash)
    case Reading(hash, i) => i < s.count && s.entries[i].hash == hash
    case Answered(_, _) => true
  }

  function ReadStep(s: Shared, r: Reader): Reader {
    match r
    case Resting => r
    case Testing(hash, i) =>
      if i < s.count && i < MAX_ENTRIES then Comparing(hash, i) else Answered(hash, None)
    case Comparing(hash, i) => if At(s, i).hash == hash then Reading(hash, i) else Testing(hash, i + 1)
    case Reading(hash, i) => Answered(hash, Some(At(s, i).vietnamese != 0))
    case Answered(_, _) => r
  }

  lemma ReaderStaysOk(s: Shared, t: Shared, r: Reader)
    requires WellFormed(s) && WellFormed(t) && Extends(s, t) && ReaderOk(s, r)
    ensures ReaderOk(t, r)
  {
  }

  /** The step that answers sees the table say just that. */
  lemma AnswerIsCurrent(s: Shared, r: Reader)
    requires WellFormed(s) && Distinct(s) && ReaderOk(s, r) && !r.Answered?
    ensures ReaderOk(s, ReadStep(s, r))
    ensures ReadStep(s, r).Answered? ==> !r.Resting? && ReadStep(s, r) == Answered(r.hash, Lookup(Published(s), r.hash))
  {
    if !r.Resting? { PublishedIs(s, r.hash); }
  }

  // ----- runs -----

  datatype System = System(shared: Shared, writer: Writer, readers: seq<Reader>)

  datatype Event =
    | SetAppMode(hash: Hash, mode: bool)     // the writer begins
    | WriterMoves
    | GetAppMode(reader: nat, wanted: Hash)  // a reader begins
    | ReaderMoves(reader: nat)

  predicate Possible(y: System, e: Event) {
    match e
    case SetAppMode(_, _) => y.writer.Idle?
    case WriterMoves => true
    case GetAppMode(reader, _) => reader < |y.readers| && (y.readers[reader].Resting? || y.readers[reader].Answered?)
    case ReaderMoves(reader) => reader < |y.readers| && !y.readers[reader].Answered?
  }

  predicate Inv(y: System) {
    TableOk(y.shared, y.writer) && forall k :: 0 <= k < |y.readers| ==> ReaderOk(y.shared, y.readers[k])
  }

  function After(y: System, e: Event): System
    requires Possible(y, e)
  {
    match e
    case SetAppMode(hash, mode) => y.(writer := TestCount(hash, mode, 0))
    case WriterMoves => y.(shared := WriteStep(y.shared, y.writer).0, writer := WriteStep(y.shared, y.writer).1)
    case GetAppMode(reader, wanted) => y.(readers := y.readers[reader := Testing(wanted, 0)])
    case ReaderMoves(reader) => y.(readers := y.readers[reader := ReadStep(y.shared, y.readers[reader])])
  }

  lemma InvIsKept(y: System, e: Event)
    requires Inv(y) && Possible(y, e)
    ensures Inv(After(y, e)) && Extends(y.shared, After(y, e).shared)
  {
    hide WriteStep, ReadStep, Distinct;
    match e
    case WriterMoves =>
      WriteStepIsSafe(y.shared, y.writer);
      var t := After(y, e);
      forall k | 0 <= k < |t.readers| ensures ReaderOk(t.shared, t.readers[k]) {
        ReaderStaysOk(y.shared, t.shared, y.readers[k]);
      }
    case ReaderMoves(reader) => AnswerIsCurrent(y.shared, y.readers[reader]);
    case _ =>
  }

  /** The table `InitDefaults` leaves, with any number of readers. */
  predicate Fresh(y: System) {
    && y.shared == Shared(0, 0, seq(MAX_ENTRIES, _ => Entry(0, 0))) && y.writer == Idle
    && forall k :: 0 <= k < |y.readers| ==> y.readers[k] == Resting
  }

  /** The states of a run: each event happens in the state before it. */
  predicate Run(states: seq<System>, events: seq<Event>) {
    && |states| == |events| + 1 && Fresh(states[0])
    && forall k :: 0 <= k < |events| ==>
         Possible(states[k], events[k]) && states[k + 1] == After(states[k], events[k])
  }

  /** In every run from a fresh table: no access out of bounds, at most 64 entries, distinct hashes. */
  lemma {:induction false} RunIsSafe(states: seq<System>, events: seq<Event>, k: nat)
    requires Run(states, events) && k < |states|
    ensures Inv(states[k])
  {
    if k > 0 {
      RunIsSafe(states, events, k - 1);
      InvIsKept(states[k - 1], events[k - 1]);
    } else {
      assert states[0].shared.count == 0;
    }
  }

  /** Published hashes are never changed and never forgotten. */
  lemma {:induction false} HashesStay(states: seq<System>, events: seq<Event>, a: nat, b: nat)
    requires Run(states, events) && a <= b < |states|
    ensures Inv(states[a]) && Inv(states[b]) && Extends(states[a].shared, states[b].shared)
    decreases b - a
  {
    RunIsSafe(states, events, a);
    RunIsSafe(states, events, b);
    if a < b {
      HashesStay(states, events, a, b - 1);
      InvIsKept(states[b - 1], events[b - 1]);
    }
  }

  predicate Busy(y: System, r: nat) {
    r < |y.readers| && (y.readers[r].Testing? || y.readers[r].Comparing? || y.readers[r].Reading?)
  }

  predicate HasAnswered(y: System, r: nat) {
    r < |y.readers| && y.readers[r].Answered?
  }

  /** The call of reader `r` for `hash` begins with event `a` and ends with event `b`. */
  predicate Call(states: seq<System>, events: seq<Event>, r: nat, hash: Hash, a: nat, b: nat)
    requires Run(states, events)
  {
    && a < b < |events| && events[a] == GetAppMode(r, hash) && events[b] == ReaderMoves(r)
    && (forall k :: a < k <= b ==> Busy(states[k], r))
    && HasAnswered(states[b + 1], r)
  }

  lemma {:induction false} ReaderAsksForOneHash(states: seq<System>, events: seq<Event>, r: nat, hash: Hash,
                                                a: nat, b: nat, k: nat)
    requires Run(states, events) && Call(states, events, r, hash, a, b) && a < k <= b
    ensures Busy(states[k], r) && states[k].readers[r].hash == hash
    decreases k
  {
    hide Fresh, WriteStep;
    if k > a + 1 {
      ReaderAsksForOneHash(states, events, r, hash, a, b, k - 1);
      StaysOnHash(states[k - 1], events[k - 1], r);
    } else {
      assert states[k] == After(states[a], events[a]);
    }
  }

  lemma StaysOnHash(y: System, e: Event, r: nat)
    requires Possible(y, e) && Busy(y, r)
    ensures Busy(After(y, e), r) ==> After(y, e).readers[r].hash == y.readers[r].hash
  {
    hide WriteStep;
  }

  /** Every answer is what the table said at some instant during the call. */
  lemma AnswersAreInstants(states: seq<System>, events: seq<Event>, r: nat, hash: Hash, a: nat, b: nat)
    requires Run(states, events) && Call(states, events, r, hash, a, b)
    ensures HasAnswered(states[b + 1], r)
    ensures exists t :: a < t <= b && WellFormed(states[t].shared)
                        && states[b + 1].readers[r].answer == Lookup(Published(states[t].shared), hash)
  {
    ReaderAsksForOneHash(states, events, r, hash, a, b, b);
    RunIsSafe(states, events, b);
    AnswerIsCurrent(states[b].shared, states[b].readers[r]);
    assert states[b + 1] == After(states[b], events[b]);
    assert WellFormed(states[b].shared)
        && states[b + 1].readers[r].answer == Lookup(Published(states[b].shared), hash);
  }

  /** A finished call of the writer has set the mode, or found the table full of other names; until then
      and after it the readers see either the old table or the new one. */
  lemma WriterEffect(y: System, e: Event)
    requires Inv(y) && Possible(y, e)
    ensures Inv(After(y, e))
    ensures Outcome(After(y, e).shared, After(y, e).writer)
            == match e
               case SetAppMode(hash, mode) => WithMode(Published(y.shared), hash, mode)
               case _ => Outcome(y.shared, y.writer)
    ensures Published(After(y, e).shared) == Published(y.shared)
            || Published(After(y, e).shared) == Outcome(y.shared, y.writer)
  {
    hide Modes;
    InvIsKept(y, e);
    if e.WriterMoves? {
      WriteStepKeepsOutcome(y.shared, y.writer);
      match y.writer
      case WriteHash(_, _) =>
        assert After(y, e).shared.entries[..y.shared.count] == y.shared.entries[..y.shared.count];
      case WriteMode(_) =>
        assert After(y, e).shared.entries[..y.shared.count] == y.shared.entries[..y.shared.count];
      case _ =>
    }
  }
}
