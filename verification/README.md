# VKey: a verified model of its text service, macro engine and configuration format

VKey is a Vietnamese input method for Windows. Inside applications it runs as a text service: a key sink
is asked about every key, an engine turns the letters typed so far into a Vietnamese word, and the word is
shown as a composition in the document until it is committed. Beside it stand macro expansion, small
decision machines, a shared table that remembers the input mode of each application, and the TOML library
the program reads and writes its settings with. This project models those parts in Dafny and proves what
they promise over every input, every run or every interleaving.

How the pieces are modelled:

- **The text service** (`Keys`, `VietLetters`, `VietAlphabet`, `TsfModel`, `TsfSync`, `TsfUndo`,
  `TsfUndoLimits`, `TsfDelivery`, `TsfDigits`, `TsfText`, `TsfService`, `TsfRun`). A document is the text
  before the caret, an optional composition that ends at the caret, and the text behind it. `TsfModel` gives
  every handler as a function of the state, split where the handlers branch; `TsfService` is the same code
  as classes that update their fields, each method proved equal to its function, with the reference counts
  of the composition and context pointers; `TsfRun` drives these objects through whole runs. `TsfText` says
  what every key leaves in the document, key by key and without the handlers' own functions, for hosts that
  test first and for those that do not. The engine is a record of answers over the calls made since its last
  reset, under the laws `Lawful`: reset empties it, a pushed key leaves it non-empty, a backspace never
  fills an empty one, and it accepts a seed if and only if every character is one that `DecomposeVietChar`
  takes apart, whatever the settings (`src/core/engine/IInputEngine.h:43-50`,
  `src/core/engine/VietnameseTables.h:119-183`). A pending revive holds such a word by its type. What the
  host, the clock and the other process do is part of the event: whether an edit session succeeds, the flags
  in shared memory, the settings noticed, the current tick. The host itself applies every key that is not
  eaten, and may edit the document or move the caret of its own accord; the undo theorems ask of it
  (`HostObeys`, `RunOk`) that an uneaten Backspace without modifiers deletes one character, such an Escape
  leaves the text alone, nothing is selected and time moves forward. What chords and the host's own edits do
  is free.
- **The TOML reader** (`Utf8`, `Utf8Reader`, `HistoryRing`, `TomlCursor`). The decoder is the table-driven
  automaton; the reader is a class over 32-byte blocks, cleared before each is filled, with an ASCII fast path
  and a four-byte carry; the push-back ring over it has an array of 127 slots; the parser's cursor stands on
  both. A pointer of the source is a `Place`, a slot of the ring or of the block, and yields whatever that
  slot holds by then: `Reread`, `Behind` and `Seen` say what that is.
- **TOML values** (`TomlNumerals`, `TomlInteger`, `TomlLookback`, `TomlLookbackLimits`, `TomlDateTime`,
  `TomlCalendar`, `TomlValue`, `TomlKinds`, `TomlSpellings`, `TomlLiterals`, `TomlPath`, `TomlStrings`,
  `TomlStringSpellings`, `TomlStringWriter`, `TomlStringRoundTrip`, `TomlMalformed`, `TomlReadBack`,
  `TomlFlatten`). Each parser is a method with the source's loops, proved equal to a specification written
  as a grammar with a meaning; each printer likewise; the round trips relate the two specifications. The
  parsers of integers, date-times, strings and keys work on the cursor, so their contracts hold on the bytes
  of a file; an ill-formed byte makes them fail. `TomlValue` is the part of `parse_value` that tells
  numbers, dates and times apart: it scans ahead, collects traits, goes back and picks the parser;
  `TomlKinds` shows that what is printed is taken for what it is. `TomlSpellings`, `TomlStringSpellings` and
  `TomlCalendar` are reference definitions that share nothing with the parsers: all spellings of integers
  and strings, put together from digits and pieces, and the calendar in numbers of days; the parsers are
  shown to accept exactly those.
- **Macros** (`MacroText`, `MacroOutput`, `MacroPlan`, `MacroScreen`, `MacroPrefix`). Units are UTF-16 code units; the case
  functions of the platform are parameters with stated laws. `MacroScreen` is the screen before and after.
- **Small machines** (`AutoCap`, `DigitLed`, `SmartSwitch`, `SmartSwitchTable`, `FnvHash`). The shared table
  is a state machine whose steps are single memory accesses of one writer and any number of readers, and
  also a class whose methods run alone.

Findings, each stated as a lemma:

- The commit-undo cache can restore over the wrong text: a Ctrl+Backspace whose Ctrl key-down never reached
  the service leaves the cache armed while a character is gone; moving the caret by mouse, or an edit of the
  host's own, leaves it armed too; and the 32-bit tick count makes an old cache look fresh again after 2^32
  milliseconds. In every run the cache fits the document throughout if and only if no chorded Backspace or
  Escape and no edit of the host's own takes the committed text away from the caret while the cache is young
  (`TsfUndo.CacheFitsExactly`); then every restore that does not misjudge the age is exact.
- The integer parser looks back through a pointer that a new block may have overwritten
  (`extern/tomlplusplus/toml.hpp:14620-14650` with `12762`). Behind the 127 characters its scan ahead keeps,
  the last character of a block is seen as whatever the next block has in the same slot, or as nothing: an
  underscore that starts a block can be refused behind a digit or accepted behind another underscore, and a
  trailing one at the end of a block accepted. `TomlLookback.LookbackExactly` says exactly when a value is
  misread. Every decimal that is admitted and every value of up to 127 characters is read correctly; 128 is
  already too many.
- The value dispatcher assumes that it can step back over all it has scanned, 127 characters at most, and
  that a digit found behind a date and a blank does not end the value
  (`extern/tomlplusplus/toml.hpp:15080` and `13018-13022`). Neither is checked. The first fails exactly if
  the first scan saw a date in all 127 characters with a blank behind them, or if more than 124 characters
  stand before the blank, a digit and more (`TomlValue.ReachExactly`): a date with 115 underscores is enough
  (`TomlKinds.OverstepsExactly`). `TomlValue.Foreseen` says when both hold; otherwise the outcome is
  `Unforeseen` and nothing is promised.
- A date comes back exactly unless a blank, a digit and something other than underscores follow it
  (`TomlReadBack.DateComesBack`): the dispatcher then expects a date-time, or meets the end of the value and
  breaks the assumption above. The formatter prints no such line; times and date-times come back whatever
  follows them.
- A digit-led flag can stay armed over a live engine: the live flags say off when `WantKey` looks, the
  copied ones still say on, and a Backspace revives the word before the caret. This is the only way, and a
  narrow one: the bit is cleared by a write that also moves the epoch
  (`src/core/ipc/SharedStateManager.cpp:184-236`), so the settings check at the start of the test applies it
  and the revive is refused, unless the write lands inside that one test, or the check finds the state being
  written and gives up.
- The Escape that puts the raw keys in a word's place is eaten where the host only delivers keys, but reaches
  the application where the host tests first: the test commits the keys and claims the Escape, and the
  key-down then finds nothing to restore and does not eat it (`TsfText.LiveWordIsRaw`).
- A string printed over several lines does not come back if it begins with a line break, or if it is printed
  as a literal and holds three single quotes in a row; all other strings come back.
- Bytes that are no UTF-8 never come back, although the comment at
  `extern/tomlplusplus/toml.hpp:16526-16527` says that escaping them ensures it. They are read without an
  error, but as something else: a byte that belongs to no code point is printed as `\u00XX` and comes back as
  the two bytes of U+00XX or, below 80 hexadecimal, as itself, and a code point cut short at the end is not
  printed at all (`TomlMalformed.Salvage`).
- Dates, times and offsets outside their ranges are printed, and those exactly do not come back; nanoseconds
  of 10^9 and more are printed as none.
- A path with an empty key directly before an index loses that key; the empty path comes back as one empty key.
- The auto-capitalisation machine reads Shift with the period key as a full stop although it types '>'.

Where the code and its comments differ, the model follows the code: in `src/tsf/KeyEventSink.cpp:238-262`
the comment says that nothing is committed in the test phase when a punctuation key has no printable
character, but the branch at lines 325-329 then commits; at line 378 it says that the Escape is not passed
to the application; and `src/core/MacroPrefix.h:21` speaks of ASCII
folding where the code calls `towlower`.

`dafny verify dfyconfig.toml` checks the whole project.

## Model

| member | source | states |
|---|---|---|
| TsfSync.TestSyncs | src/tsf/KeyEventSink.cpp:134-333 | From any state of engine and composition, one test of a key in an unblocked context ends with a composition live iff the engine holds keys; an unclaimed key leaves both empty |
| TsfSync.KeyDownKeepsSync | src/tsf/KeyEventSink.cpp:349-466 | With stable settings a delivered key keeps engine and composition in step, whatever branch it takes and whichever edit sessions fail |
| TsfSync.StepKeepsSync | src/tsf/KeyEventSink.cpp:111-132 | The same for every kind of step: test, key, host edit, composition ended from outside, focus change |
| TsfSync.SyncOverRuns | src/tsf/KeyEventSink.cpp:170-190 | Over whole runs: after one test in an unblocked context, from any state at all, composing iff the engine buffer is non-empty holds for ever while the settings are stable |
| TsfSync.SeedingDecidesSync | src/core/engine/IInputEngine.h:43-50 | What the law of seeding is needed for: for an engine without it, a bare Backspace over a live composition with a revive pending keeps sync if and only if the word is accepted |
| TsfRun.RunSteadily | src/tsf/KeyEventSink.cpp:111-466 | The objects themselves, from any state, through a test and any run of steps under stable settings: the manager holds a composition, with the only reference, exactly when the engine holds keys |
| TsfRun.RunUnspoiled | src/tsf/EngineController.cpp:675-744 | The objects through any run in which nothing spoils the cache: at its end an armed young cache fits the document |
| TsfRun.RunThenPress | src/tsf/EngineController.cpp:716-744 | And one more key: if it restores, the document held the committed body before the caret and now holds the raw keys in its place |
| TsfRun.PressKey | src/tsf/KeyEventSink.cpp:134-466 | One key of a host that tests first, on the objects, is the model's test-then-key |
| TsfRun.EndFromOutside | src/tsf/CompositionManager.cpp:27-39 | The host ends the composition held, or one given up before |
| TsfSync.HandleKeySyncs | src/tsf/EngineController.cpp:264-383 | Letters, digits, Backspace, Space and both revive paths keep engine and composition in step, also when the host refuses to start a composition |
| TsfSync.ReviveSyncs | src/tsf/CompositionEditSession.h:342-458 | A revive leaves a composition exactly when the seeded engine still holds keys |
| TsfUndo.AgeIsTrue | src/tsf/EngineController.cpp:694-697 | Within one wrap of the tick counter the age computed by unsigned subtraction is the true age |
| TsfUndo.PressKeepsUndoInvExactly | src/tsf/KeyEventSink.cpp:283-305 | One test-then-key keeps the cache invariant (armed and younger than the time-out implies an empty engine and a document that ends, before the caret, with what was committed, or its body once primed) if and only if it is not a chorded Backspace or Escape whose effect takes the committed text away |
| TsfUndo.RestoreIsExact | src/tsf/EngineController.cpp:716-744 | Whenever the test of Escape restores from a cache that fits and whose age is not misjudged, the text before the caret was exactly the last committed body, and exactly that becomes the raw keys with the rest of the document unchanged |
| TsfUndo.CacheFitsExactly | src/tsf/KeyEventSink.cpp:162-204 | In every run of keys, host edits, caret moves, terminations and focus changes the cache invariant holds throughout if and only if nothing takes the committed text away from the caret while the cache is young |
| TsfUndo.EveryRestoreIsExact | src/tsf/KeyEventSink.cpp:206-228 | At the end of every run in which nothing spoils the cache, a restore that does not misjudge its age is exact |
| TsfUndo.KeyDownNeverRestores | src/tsf/KeyEventSink.cpp:379-397 | When the host tests first, the second call site of the restore, in the key-down, never restores, in any run and with a cache of any age: every restore is one of the test phase |
| TsfUndo.TestKeepsPrimedEmpty | src/tsf/KeyEventSink.cpp:206-305 | After every test a cache that waits for Escape means an empty engine, and a key that the test claims leaves no such cache |
| TsfUndo.AnnouncedChordsAreHarmless | src/tsf/KeyEventSink.cpp:162-168 | Where every chorded Backspace or Escape follows another chorded key and the host edits nothing of its own, nothing spoils the cache |
| TsfUndo.EditKeepsInvExactly | src/tsf/KeyEventSink.cpp:162-204 | A change of the document behind the service keeps a cache that fits if and only if the committed text still stands before the caret or the cache is no longer young |
| TsfUndo.MisjudgedExactly | src/tsf/EngineController.cpp:694-697 | An old cache is taken for a fresh one if and only if its age has wrapped around 2^32 milliseconds to within the time-out |
| TsfUndoLimits.CommitBackspaceEscape | src/tsf/EngineController.cpp:426-453 | A composed word, Space, Backspace and Escape within the time-out leave the prefix, the raw keys and the suffix |
| TsfUndoLimits.UnannouncedChordRestoresWrongText | src/tsf/KeyEventSink.cpp:166-168 | A concrete run: an unannounced Ctrl+Backspace makes a later restore replace the wrong text |
| TsfUndoLimits.MovedCaretRestoresWrongText | src/tsf/KeyEventSink.cpp:162-228 | A concrete run: the caret is moved by mouse between commit and Backspace, and the restore replaces the wrong text |
| TsfUndoLimits.TickWrapRestoresWrongText | src/tsf/EngineController.cpp:694-697 | A concrete run: after one wrap of the tick counter a stale cache counts as fresh and a restore replaces the wrong text |
| TsfDelivery.KeyOnlyDelivers | src/tsf/KeyEventSink.cpp:349-466 | A host that only delivers keys gets one delivery per key: punctuation commits, otherwise WantKey is asked once and obeyed |
| TsfDelivery.TestThenKeyDelivers | src/tsf/KeyEventSink.cpp:316-333 | A host that tests first gets the same single delivery, through the remembered answer of the test |
| TsfDelivery.DeliveryStyleDoesNotMatter | src/tsf/KeyEventSink.cpp:134-466 | For every covered run both hosts reach the same document, composition, engine buffer, digit-led flag and settings |
| TsfDelivery.ChordSeparates | src/tsf/KeyEventSink.cpp:197-204 | Outside the covered keys they do differ: a chord over a live buffer is committed by the test and left composed by a bare delivery |
| TsfDigits.TestKeepsDigitInv | src/tsf/KeyEventSink.cpp:134-333 | A test keeps the digit-led invariant if and only if it is not a stale revive: a Backspace behind a Vietnamese word while the flag is armed and the live flags say off |
| TsfDigits.ArmedMeansEmptyExactly | src/tsf/EngineController.cpp:198-214 | In every run the invariant (armed means an empty engine and no claimed key) holds throughout if and only if no test is a stale revive |
| TsfDigits.ArmedMeansEmpty | src/tsf/EngineController.cpp:198-214 | So without stale revives an armed flag means an empty engine after every run |
| TsfDigits.ArmedKeyPasses | src/tsf/KeyEventSink.cpp:264-331 | While the flag is armed no key that types inside the word is eaten, in either delivery style and whatever settings change it notices, and it enters the document |
| TsfDigits.DigitArms | src/tsf/EngineController.cpp:200-214 | A digit at the start of a word goes to the host, and arms the flag if and only if WantKey is asked for it, which a remembered answer for the same key prevents |
| TsfDigits.NumberLedWordVerbatim | src/tsf/EngineController.cpp:200-214 | From the digit that arms the flag to the next boundary key the document receives exactly what was typed, in either delivery style, behind any earlier key, in any editor and across settings changes |
| TsfText.LiveWordGrows | src/tsf/EngineController.cpp:291-380 | A letter (large or small by Shift and Caps Lock, which undo each other) or an engine digit typed into a word leaves the text around it, and the composition is what the engine answers after that character |
| TsfText.LiveWordShrinks | src/tsf/EngineController.cpp:385-400 | A Backspace takes the last key from the engine and shows its answer; when none is left the composition goes and nothing else |
| TsfText.LiveWordIsSpaced | src/tsf/EngineController.cpp:284-288 | Space outside Scintilla leaves what the engine commits for the keys, and a space, in the word's place |
| TsfText.LiveWordEnds | src/tsf/EngineController.cpp:402-424 | Every other key but those two, tested chords included, leaves what the engine commits in the word's place, and then what the host does of its own |
| TsfText.LiveWordIsPunctuated | src/tsf/EngineController.cpp:426-453 | Punctuation leaves what the engine commits and its own character, in both delivery styles |
| TsfText.LiveWordIsRaw | src/tsf/EngineController.cpp:455-469 | Escape leaves the raw keys; a host that tests first then gets the Escape as well |
| TsfText.WordIsShown | src/tsf/EngineController.cpp:291-380 | Over any number of letters and digits, each in either delivery style, the engine gets exactly what was typed and its answer is shown between the texts around it |
| TsfText.WordIsCommitted | src/tsf/EngineController.cpp:426-453 | And Space leaves what the engine commits for all of them |
| TsfText.WordIs | src/tsf/CompositionEditSession.h:176-248 | Looking back finds a word if and only if nothing is selected and it is the longest stretch of Vietnamese letters at the caret within the window |
| TsfText.LetterResumes | src/tsf/CompositionEditSession.h:404-458 | A letter behind a word that is not English makes the word the composition: the text in front of it and behind the caret stays, and the engine's answer for the word and the letter is shown; a host that refuses loses the letter |
| TsfText.StartsSentenceIs | src/core/AutoCapDecision.h:40-65 | A capital is due exactly at the start of the text or of a line, blanks aside, and behind a sentence mark and a blank |
| TsfText.LetterBegins | src/tsf/EngineController.cpp:291-369 | Anywhere else a letter begins a composition at the caret, a capital where a sentence begins and auto-capitals are on; a host that refuses gets the letter |
| TsfText.EmptyKeyPasses | src/tsf/KeyEventSink.cpp:264-333 | With nothing typed any other key but Backspace and a restoring Escape reaches the host and changes nothing else |
| TsfText.BackspaceResumes | src/tsf/CompositionEditSession.h:342-402 | A tested Backspace behind a word makes it the composition without its last key, the text in front of it and behind the caret unchanged; if no key is left the answer becomes plain text |
| TsfText.BackspaceDeletes | src/tsf/KeyEventSink.cpp:283-316 | Otherwise, and untested always, a Backspace with nothing typed reaches the host |
| TsfText.NothingStaysPending | src/tsf/EngineController.cpp:265-281 | A pending revive does not outlive the key that asked for it |
| TsfText.DigitLedEndsExactly | src/core/DigitLedWordDecision.h:72-81 | A digit-led word ends exactly at Backspace, Tab, Enter, Escape, Delete and the keys from Space to the arrows |
| TsfText.LostCompositionIsForgotten | src/tsf/KeyEventSink.cpp:171-191 | Keys held without their composition are forgotten by the next test, as if never typed, and the text stays |
| TsfText.StrayCompositionIsCommitted | src/tsf/KeyEventSink.cpp:171-195 | A composition without keys is committed before the key is looked at |
| TsfText.NoticedSettingsHold | src/tsf/EngineController.cpp:581-625 | A noticed change replaces settings, flags and engine, the input method going by its number, and leaves the text |
| TsfText.SettingsStay | src/tsf/EngineController.cpp:514-538 | No key changes the settings but by noticing new ones |
| TsfText.FocusReadsState | src/tsf/EngineController.cpp:540-572 | A focus change reads the flags, or switches the engine off where there are none, keeps the text and drops the undo cache |
| TsfText.FocusReadsSettings | src/tsf/EngineController.cpp:540-572 | It reads the settings exactly where it switches the engine on |
| VietAlphabet.AlphabetExactly | src/core/engine/VietnameseTables.h:119-183 | What counts as a letter is exactly the Latin alphabet, the crossed D, and twelve vowels with and without the five tones, in both cases |
| TsfDigits.DisabledFlagsReviveWhileArmed | src/tsf/EngineController.cpp:158-162 | A concrete stale revive: the flag ends up armed over a non-empty engine |
| TsfService.CompositionManager.StartComposition | src/tsf/CompositionManager.cpp:41-113 | The document gains an empty composition, both pointers are set with one reference each, or nothing changes on failure |
| TsfService.CompositionManager.SetCompositionText | src/tsf/CompositionManager.cpp:115-150 | The composition shows the given text; without one nothing happens |
| TsfService.CompositionManager.EndComposition | src/tsf/CompositionManager.cpp:152-175 | The composition becomes plain text and both references are given back |
| TsfService.CompositionManager.TerminateComposition | src/tsf/CompositionManager.cpp:177-188 | Both pointers are dropped with their references and the text stays in the document |
| TsfService.CompositionManager.ReleaseTerminated | src/tsf/CompositionManager.cpp:27-39 | A composition ended by the host is released once, and only if it is the one held |
| TsfService.EngineController.CommitEditSession | src/tsf/CompositionEditSession.h:94-119 | The final text replaces the composition and ends it |
| TsfService.EngineController.UpdateCompositionEditSession | src/tsf/CompositionEditSession.h:19-74 | A composition is started if need be and shows the text |
| TsfService.EngineController.ReviveEditSession | src/tsf/CompositionEditSession.h:342-458 | The word before the caret becomes the composition of a seeded engine, with the failure branches of the edit session |
| TsfService.EngineController.ReadPrecedingWord | src/tsf/CompositionEditSession.h:176-248 | The Vietnamese word that ends at the caret, found by walking back |
| TsfService.CountVietLetters | src/tsf/CompositionEditSession.h:176-248 | Walks back over Vietnamese letters as far as they go |
| TsfService.EngineController.InspectPrecedingText | src/tsf/CompositionEditSession.h:250-340 | The word before the caret and the auto-capitalise decision from one read |
| TsfService.EngineController.HandleLetter | src/tsf/EngineController.cpp:291-365 | Type-revive first, then auto-capitalise, then push and show |
| TsfService.EngineController.PushAndShow | src/tsf/EngineController.cpp:337-364 | The engine takes the key only if the composition can show it |
| TsfService.EngineController.Reset | src/tsf/EngineController.cpp:484-488 | Empties the engine, drops the pointers and disarms the digit-led flag |
| TsfService.EngineController.ResetCommitUndo | src/tsf/EngineController.cpp:705-710 | Drops the commit-undo cache |
| TsfService.EngineController.CheckConfigEvent | src/tsf/EngineController.cpp:514-538 | Applies new settings when a change is noticed |
| TsfService.EngineController.WantKey | src/tsf/EngineController.cpp:151-244 | Updates the copied flags and the digit-led flag and answers as the model does |
| TsfService.EngineController.PrepareBackspaceRevive | src/tsf/EngineController.cpp:81-122 | Arms a pending revive exactly when the gates pass and a Vietnamese word precedes the caret |
| TsfService.EngineController.HandleKey | src/tsf/EngineController.cpp:264-383 | Every branch of the key handling, as the model has it |
| TsfService.EngineController.ProcessBackspace | src/tsf/EngineController.cpp:385-400 | The engine and the composition lose a key together, or the emptied composition is dropped |
| TsfService.EngineController.Commit | src/tsf/EngineController.cpp:402-424 | Commits the engine text, empties the engine and records no undo window |
| TsfService.EngineController.CommitWithChar | src/tsf/EngineController.cpp:426-453 | Commits the engine text with the character appended and opens the undo window |
| TsfService.EngineController.CommitRawAndEnd | src/tsf/EngineController.cpp:455-468 | Replaces the composition by the raw keys when there are any |
| TsfService.EngineController.RecordCommitSnapshot | src/tsf/EngineController.cpp:675-692 | Arms the cache only for a non-empty text with a trailing character and non-empty raw keys |
| TsfService.EngineController.TryRestoreLastCommitRaw | src/tsf/EngineController.cpp:716-744 | Replaces as many characters before the caret as the committed body has by the raw keys and drops the cache |
| TsfService.EngineController.ApplySharedState | src/tsf/EngineController.cpp:581-625 | New settings replace the engine by an empty one; a live composition stays as it is, for the next test to repair |
| TsfService.EngineController.RefreshFlags | src/tsf/EngineController.cpp:540-572 | Re-reads window class and flags; a re-enabled engine reloads its settings |
| TsfService.EngineController.OnCompositionTerminated | src/tsf/CompositionManager.cpp:27-39 | Every termination from outside empties the engine; a reference is released only for the composition held |
| TsfService.KeyEventSink.OnTestKeyDown | src/tsf/KeyEventSink.cpp:134-333 | The whole test handler equals its model function; the manager keeps the only reference to a live composition |
| TsfService.KeyEventSink.OnKeyDown | src/tsf/KeyEventSink.cpp:349-466 | The whole key-down handler equals its model function |
| TsfService.KeyEventSink.OnSetFocus | src/tsf/KeyEventSink.cpp:111-132 | The focus handler equals its model function |
| TsfService.KeyEventSink.TestUnblocked | src/tsf/KeyEventSink.cpp:150-190 | Suggestion dismissal, cache invalidation and recovery at the start of a test |
| TsfService.KeyEventSink.Recover | src/tsf/KeyEventSink.cpp:170-190 | Keys without a composition are forgotten, a composition without keys is committed |
| TsfService.KeyEventSink.RestoreOnEscape | src/tsf/KeyEventSink.cpp:215-228 | The Escape branch both handlers share |
| TsfService.KeyEventSink.TestOnceWanted | src/tsf/KeyEventSink.cpp:283-333 | Undo and revive get their say on a Backspace, then the answer is remembered |
| TsfService.KeyEventSink.HandleOrdinaryKey | src/tsf/KeyEventSink.cpp:423-465 | The remembered or fresh answer decides between handling, committing and passing on |
| AutoCap.ClassifyCapTrigger | src/core/AutoCapDecision.h:40-65 | The walk back finds the last character that is neither space nor tab and classifies by it |
| AutoCap.KeyKeepsMatch | src/core/AutoCapStateTransition.h:53-98 | A key keeps machine state and text matched, for every matching pair, if and only if it types a character of its own kind |
| AutoCap.MachineAgreesWithClassifier | src/core/AutoCapStateTransition.h:53-98 | The machine is ready exactly when the classifier reports a line start or sentence end after every well-typed history, if and only if the start matches; Idle after ordinary text is such a start |
| AutoCap.ShiftPeriodBreaksAgreement | src/core/AutoCapStateTransition.h:53-98 | A concrete history with Shift and the period key on which the two disagree |
| Utf8.UnfinishedIsShort | extern/tomlplusplus/toml.hpp:12690-12695 | An unfinished code point has at most three bytes, so the four-byte carry never overflows |
| Utf8.FinishedIsEncoding | extern/tomlplusplus/toml.hpp:8951-9018 | The automaton finishes a code point only on the bytes that encode it |
| Utf8.EncodingFinishes | extern/tomlplusplus/toml.hpp:8951-9018 | The encoding of every scalar value takes the automaton to acceptance with that value, and not earlier |
| Utf8.DecoderIsExact | extern/tomlplusplus/toml.hpp:8951-9018 | Decoding succeeds if and only if the bytes are well-formed UTF-8, and yields the scalars they encode |
| Utf8Reader.Reader.ReadNextBlock | extern/tomlplusplus/toml.hpp:12709-12885 | One block, on the ASCII or the decoding path, continues the one-pass decoding of the whole stream and clears the slots it does not fill; a truncated last code point is an error |
| Utf8Reader.Reader.CalcPositions | extern/tomlplusplus/toml.hpp:12765-12785 | Lines and columns of the block are those of the whole stream |
| Utf8Reader.Reader.TakeAscii | extern/tomlplusplus/toml.hpp:12785-12799 | The fast path delivers what decoding byte by byte would |
| Utf8Reader.Reader.TakeDecoded | extern/tomlplusplus/toml.hpp:12810-12837 | The slow path carries an unfinished code point over the block boundary and stops at the first bad byte |
| Utf8Reader.Reader.ReadNext | extern/tomlplusplus/toml.hpp:12887-12903 | Each call hands out the slot of the next code point of the one-pass decoding with its position, and the slot handed out before then holds what `Reread` says; an error means ill-formed input and stays |
| Utf8Reader.AsciiReread | extern/tomlplusplus/toml.hpp:12762-12799 | In ASCII input a slot still holds its byte unless the byte ended a 32-byte block with another behind it; then it holds the byte 32 further on, or zero |
| Utf8Reader.ReadAll | extern/tomlplusplus/toml.hpp:12709-12903 | Reading to the end succeeds if and only if the input without its byte order mark is well-formed, and delivers every code point and position |
| Utf8Reader.PositionIs | extern/tomlplusplus/toml.hpp:12765-12785 | The line is one more than the line feeds passed, the column one more than the code points since the last of them |
| HistoryRing.BufferedReader.ReadNext | extern/tomlplusplus/toml.hpp:12973-13009 | Reads on, or replays what was stepped back over, as a cursor over the decoded input does, and says what the pointer handed out before yields from then on |
| HistoryRing.BufferedReader.Remember | extern/tomlplusplus/toml.hpp:12973-13009 | The head moves into the ring, pushing out the oldest of 127 elements |
| HistoryRing.BufferedReader.Replay | extern/tomlplusplus/toml.hpp:12973-13009 | What was stepped back over is handed out again |
| HistoryRing.BufferedReader.StepBack | extern/tomlplusplus/toml.hpp:13012-13024 | Goes back within the recorded history |
| HistoryRing.BufferedReader.CurrentLeads | extern/tomlplusplus/toml.hpp:12948-13030 | Until more is asked for, the pointer handed out last leads to the code point at the cursor, or is null at the end |
| HistoryRing.RunCalls | extern/tomlplusplus/toml.hpp:12944-13030 | Any mix of reads and steps back within the history, over the block reader, answers as a cursor over the decoded input does, after any number of wraps; only ill-formed input stops it |
| TomlCursor.TextCursor.Advance | extern/tomlplusplus/toml.hpp:13575-13597 | The next character, and what the pointer left behind yields |
| TomlCursor.TextCursor.GoBack | extern/tomlplusplus/toml.hpp:13566-13573 | Steps back over characters already read, within the history |
| TomlNumerals.NumeralRoundTrip | extern/tomlplusplus/toml.hpp:10297-10339 | A numeral in any base up to sixteen has the value it was made from |
| TomlNumerals.PaddedIs | extern/tomlplusplus/toml.hpp:10297-10339 | A number padded to a width keeps its value and has that width |
| TomlInteger.Accumulate | extern/tomlplusplus/toml.hpp:14694-14706 | The 64-bit accumulation, with every operation modulo 2^64, gives the exact value of the digits |
| TomlInteger.Convert | extern/tomlplusplus/toml.hpp:14652-14727 | Digits become a value exactly when there is no forbidden leading zero and the value fits 64 bits signed, including the minimum |
| TomlInteger.Collect | extern/tomlplusplus/toml.hpp:14617-14650 | The scanner accepts exactly the digits and underscores whose underscores follow digits, and do not end the value, as its look-backs see them, with at most 128 digits |
| TomlInteger.ReadLead | extern/tomlplusplus/toml.hpp:14588-14615 | A sign or base prefix with a digit right behind it |
| TomlInteger.SkipZeros | extern/tomlplusplus/toml.hpp:14668-14677 | Trimming leading zeros keeps the value |
| TomlInteger.ParseInteger | extern/tomlplusplus/toml.hpp:14578-14728 | In every base, from every state of reader and ring: a value is accepted if and only if it is a literal as the look-backs see it, has at most 128 digits and fits 64 bits, and its value is returned; ill-formed input is an error |
| TomlValue.ScanOn | extern/tomlplusplus/toml.hpp:15076-15146 | One run of the scan: the characters without underscores and their traits, to the end of the value or to 127 in all, and at least one |
| TomlValue.ScanFurther | extern/tomlplusplus/toml.hpp:15150-15189 | The forced scan behind a date and a blank: on to what may be a time, or back to the date, if the history allows |
| TomlValue.LookAhead | extern/tomlplusplus/toml.hpp:15072-15192 | Both scans and the way back: where the scan's assumptions hold, the cursor is where it began and the traits are those of the value's text; where they do not, that is reported |
| TomlValue.ReachExactly | extern/tomlplusplus/toml.hpp:15150-15192 | The scan goes further ahead than the ring can take back if and only if a date with a blank behind it takes all 127 characters, or more than 124 (125 at the end of the input) with a digit behind the blank |
| TomlKinds.OverstepsExactly | extern/tomlplusplus/toml.hpp:15150-15192 | A date with underscores, a blank, a digit and more can be stepped back over if and only if the underscores are at most 114 |
| TomlValue.ParseValue | extern/tomlplusplus/toml.hpp:15059-15471 | Scan, traits, choice of the parser, short cuts for single digits, length limit of decimals and the parser, from every state of reader and ring |
| TomlValue.IntegersAreScannedOnce | extern/tomlplusplus/toml.hpp:15150-15314 | What is taken for an integer was seen in the first scan alone, so its length limit is that of the text |
| TomlKinds.WrittenIsTaken | extern/tomlplusplus/toml.hpp:15194-15314 | Every integer the formatter writes is taken for an integer of its base, and read back |
| TomlKinds.DateIsTakenExactly | extern/tomlplusplus/toml.hpp:15150-15189 | A printed date is read as that date if and only if not a blank, a digit and something other than underscores follow it |
| TomlKinds.TimeIsTaken | extern/tomlplusplus/toml.hpp:15409-15416 | A printed time is taken for a time, whatever follows, and read back |
| TomlKinds.DateTimeIsTaken | extern/tomlplusplus/toml.hpp:15423-15461 | A printed date-time, with any offset or none, is taken for a date-time and read back |
| TomlLookback.ReadAsIs | extern/tomlplusplus/toml.hpp:14617-14728 | Whether a value is accepted is decided look-back by look-back; what it stands for does not depend on them |
| TomlLookback.LookbackExactly | extern/tomlplusplus/toml.hpp:14617-14650 | A value is read as the grammar says if and only if the decisions taken by looking back across block boundaries come out as the characters themselves would have them, or something else is wrong with it anyway |
| TomlLookback.MisreadExactly | extern/tomlplusplus/toml.hpp:14617-14650 | Exactly which literals are refused, and which other texts are accepted |
| TomlLookback.AsciiCrossing | extern/tomlplusplus/toml.hpp:12762-12799 | In ASCII input the characters in question are those before a multiple of 32 bytes that the scan did not reach |
| TomlLookback.ScannedIsExact | extern/tomlplusplus/toml.hpp:15192 | A value that the scan ahead has kept whole is read as the grammar says |
| TomlLookback.UncrossedIsExact | extern/tomlplusplus/toml.hpp:14623-14650 | So is every value with no underscore behind a character in question and no end at one |
| TomlLookback.NumbersAreExact | extern/tomlplusplus/toml.hpp:15299-15314 | So is every decimal that is admitted, and every value of up to 127 characters |
| TomlLookback.WrittenIsRead | extern/tomlplusplus/toml.hpp:16725-16770 | Every integer the formatter writes is read back, wherever it stands and the blocks end |
| TomlLookbackLimits.LiteralRefused | extern/tomlplusplus/toml.hpp:14623-14630 | A family of files whose grammatical binary literal is refused |
| TomlLookbackLimits.TrailingUnderscoreAccepted | extern/tomlplusplus/toml.hpp:14645-14650 | A family of files whose value ends in an underscore and is accepted, down to 128 characters |
| TomlLookbackLimits.RefusedInFile | extern/tomlplusplus/toml.hpp:14623-14630 | The refusal as it happens: opened, read up to the value, scanned and parsed, such a file gives an error for a grammatical literal |
| TomlLookbackLimits.AcceptedInFile | extern/tomlplusplus/toml.hpp:14645-14650 | The acceptance as it happens, with the value zero |
| TomlInteger.PrintInteger | extern/tomlplusplus/toml.hpp:10297-10339 | The printed digits: lower-case conversion upper-cased in place, sign and zero handled |
| TomlInteger.UpperCase | extern/tomlplusplus/toml.hpp:10333-10338 | In place: every hexadecimal letter is upper-cased, everything else kept |
| TomlInteger.WriteInteger | extern/tomlplusplus/toml.hpp:16725-16770 | The base prefix and digits the formatter is allowed to use |
| TomlInteger.IntegerRoundTrip | extern/tomlplusplus/toml.hpp:14578-14728 | The grammar gives every 64-bit integer back from its written form in whichever base was used |
| TomlSpellings.DigitsAre | extern/tomlplusplus/toml.hpp:8869-8891 | The digits of each base, in either case, and their values |
| TomlSpellings.ReadsExactlySpellings | extern/tomlplusplus/toml.hpp:14578-14728 | A text is read as an integer if and only if it spells it: a sign or not, one of the prefixes, digits in either case, leading zeros behind a prefix, an underscore or none between two digits, at most 128 digits, in 64 bits |
| TomlSpellings.AnyCaseIsRead | extern/tomlplusplus/toml.hpp:14694-14706 | Every number in every base is read from its digits in any mix of cases |
| TomlSpellings.WrittenSpells | extern/tomlplusplus/toml.hpp:16725-16770 | The formatter spells a number in the base asked for where that is allowed and the number is not negative, and else in decimals |
| TomlLiterals.LiteralIsTaken | extern/tomlplusplus/toml.hpp:15076-15314 | Whatever its spelling, an integer literal is taken for one of its base by the value dispatcher |
| TomlDateTime.ParseDate | extern/tomlplusplus/toml.hpp:14732-14782 | The date field by field with leap years, and what may follow it |
| TomlDateTime.ConsumeDigitSequence | extern/tomlplusplus/toml.hpp:13741-13757 | Exactly the given number of digits, or failure |
| TomlDateTime.ConsumeDigits | extern/tomlplusplus/toml.hpp:13761-13776 | As many digits as there are, up to a limit |
| TomlDateTime.ParseTime | extern/tomlplusplus/toml.hpp:14786-14870 | The time field by field with its optional fraction |
| TomlDateTime.ParseFraction | extern/tomlplusplus/toml.hpp:14838-14870 | Up to 64 fractional digits; missing ones count as zeros |
| TomlDateTime.SumDigits | extern/tomlplusplus/toml.hpp:14859-14865 | The 32-bit sum of up to nine digits never wraps |
| TomlDateTime.Scale | extern/tomlplusplus/toml.hpp:14859-14868 | The fraction in nanoseconds, in 32 bits without wrapping |
| TomlDateTime.ParseOffset | extern/tomlplusplus/toml.hpp:14894-14939 | No offset, zero or signed hours and minutes, then the end of the value |
| TomlDateTime.ParseDateTime | extern/tomlplusplus/toml.hpp:14874-14939 | The three parts in order, from wherever the cursor stands to the end of the value; ill-formed input is an error |
| TomlDateTime.PrintDateTo | extern/tomlplusplus/toml.hpp:10564-10571 | Year, month and day with their widths |
| TomlDateTime.PrintTimeTo | extern/tomlplusplus/toml.hpp:10574-10593 | Any time is printed; trailing zeros of the fraction are trimmed, and one of 10^9 nanoseconds and more is left out |
| TomlDateTime.PrintPadded | extern/tomlplusplus/toml.hpp:10297-10339 | A number with leading zeros up to the minimum width |
| TomlDateTime.PrintDateTimeTo | extern/tomlplusplus/toml.hpp:10625-10632 | Date, T, time and offset as printed, of any date-time |
| TomlDateTime.PrintOffsetTo | extern/tomlplusplus/toml.hpp:10596-10622 | Sign, hours and minutes of any offset, Z for zero |
| TomlDateTime.DateRoundTrip | extern/tomlplusplus/toml.hpp:10564-10571 | Every valid date up to year 9999 comes back, leap days included |
| TomlDateTime.TimeRoundTrip | extern/tomlplusplus/toml.hpp:10574-10593 | Every valid time comes back: padding undoes trimming |
| TomlDateTime.OffsetRoundTrip | extern/tomlplusplus/toml.hpp:10596-10622 | Every offset of less than 24 hours comes back |
| TomlDateTime.DateTimeRoundTrip | extern/tomlplusplus/toml.hpp:14874-14939 | Every valid date-time, with or without an offset, comes back |
| TomlDateTime.AcceptedDateTimeIsValid | extern/tomlplusplus/toml.hpp:14732-14939 | Whatever is accepted is a valid date, time and offset and is followed by the end of the value |
| TomlDateTime.DateTimeRoundTripExactly | extern/tomlplusplus/toml.hpp:10625-10632 | Of all date-times, those and only those that are valid come back from their printed form |
| TomlDateTime.TimeRoundTripExactly | extern/tomlplusplus/toml.hpp:10574-10593 | The same of all times |
| TomlDateTime.DateRoundTripExactly | extern/tomlplusplus/toml.hpp:10564-10571 | The same of all dates |
| TomlCalendar.MonthLengths | extern/tomlplusplus/toml.hpp:14744-14760 | How many days of every month are accepted, February's being 28 or 29 |
| TomlCalendar.CalendarIsGregorian | extern/tomlplusplus/toml.hpp:14744-14760 | Before year y, 365y + (y+3)/4 - (y+99)/100 + (y+399)/400 dates are accepted, for every year up to 10000 |
| TomlCalendar.AcceptedIsPrinted | extern/tomlplusplus/toml.hpp:14732-14782 | A date is accepted in its printed spelling only |
| TomlCalendar.ClockIs | extern/tomlplusplus/toml.hpp:14786-14837 | A printed time comes back if and only if it has hours below 24, minutes and seconds below 60 and nanoseconds below 10^9 |
| TomlCalendar.OffsetIs | extern/tomlplusplus/toml.hpp:14894-14939 | A printed offset comes back if and only if it is less than a day |
| TomlCalendar.FractionIsFloor | extern/tomlplusplus/toml.hpp:14838-14870 | A fraction of 1 to 64 digits is read as the whole nanoseconds in it |
| TomlCalendar.DateTimeSpelled | extern/tomlplusplus/toml.hpp:14874-14939 | Date and time may be parted by a blank or a T in either case |
| TomlCalendar.ZeroOffsets | extern/tomlplusplus/toml.hpp:14894-14939 | The five spellings of no offset and of none to UTC |
| TomlPath.Path.ParsePath | extern/tomlplusplus/toml.hpp:10888-11062 | The parser ends on every string with the components its grammar gives, and only ever appends |
| TomlPath.ScanIndexer | extern/tomlplusplus/toml.hpp:10904-10992 | An array indexer with its blanks, missing bracket and size limit |
| TomlPath.SkipIndexerEnd | extern/tomlplusplus/toml.hpp:10944-10963 | What may follow the digits of an indexer |
| TomlPath.FindSyntax | extern/tomlplusplus/toml.hpp:11022-11028 | A segment ends at the next dot or bracket |
| TomlPath.Path.ParseInto | extern/tomlplusplus/toml.hpp:11338-11367 | A failed parse leaves the components as they were; a successful one appends those of the path |
| TomlPath.Path.PrintTo | extern/tomlplusplus/toml.hpp:11372-11391 | Keys joined by dots, indices in brackets |
| TomlPath.ParsePrinted | extern/tomlplusplus/toml.hpp:11372-11391 | Parsing a printed path gives it back without the empty keys that stand directly before an index |
| TomlPath.IndexExactly | extern/tomlplusplus/toml.hpp:10904-10992 | An index is read if and only if it is digits with blanks around them and a closing bracket, which may be missing at the end and before a dot or bracket, and fits 64 bits |
| TomlPath.BehindAnIndex | extern/tomlplusplus/toml.hpp:11017-11048 | Behind an index blanks change nothing, any other text is an error, and so is a bracket that closes nothing |
| TomlPath.RoundTripExactly | extern/tomlplusplus/toml.hpp:10888-11062 | A path survives if and only if it is not empty, its keys hold no dot or bracket, and no empty key stands directly before an index |
| TomlStrings.Parser.ReadScalar | extern/tomlplusplus/toml.hpp:13860-13873 | Four or eight hexadecimal digits by place value, without wrapping in 32 bits |
| TomlStrings.Parser.ConsumeLineBreak | extern/tomlplusplus/toml.hpp:13643-13669 | LF or CR LF; anything else vertical is an error |
| TomlStrings.Parser.ConsumeLeadingWhitespace | extern/tomlplusplus/toml.hpp:13627-13641 | Spaces and tabs are skipped; other horizontal whitespace is an error |
| TomlStrings.Parser.ReadLineEnding | extern/tomlplusplus/toml.hpp:13808-13821 | A backslash at the end of a line swallows the line break and the whitespace behind it |
| TomlStrings.Parser.ReadEscape | extern/tomlplusplus/toml.hpp:13823-13912 | The escapes of a basic string; surrogates and values above U+10FFFF are refused |
| TomlStrings.Parser.CloseMultiLine | extern/tomlplusplus/toml.hpp:13916-13964 | Runs of delimiters inside and at the end of a string over several lines |
| TomlStrings.Parser.ParseBasicString | extern/tomlplusplus/toml.hpp:13781-14020 | The whole basic string, both forms, with line-ending backslashes |
| TomlStrings.Parser.ParseLiteralString | extern/tomlplusplus/toml.hpp:14023-14122 | The whole literal string, both forms |
| TomlStrings.Parser.ParseString | extern/tomlplusplus/toml.hpp:14126-14166 | Which form it is, by looking at three code points and stepping back two, which the ring always allows |
| TomlStrings.Parser.ParseKeySegment | extern/tomlplusplus/toml.hpp:15488-15520 | A bare segment or a string that is not over several lines |
| TomlStrings.Parser.ParseBareKeySegment | extern/tomlplusplus/toml.hpp:14170-14188 | The longest run of bare key characters |
| TomlStringSpellings.BasicSpelled | extern/tomlplusplus/toml.hpp:13781-14020 | Every spelling of a basic string, long and short escapes in either case, continued lines and inner quotes included, is read as what it means |
| TomlStringSpellings.LiteralSpelled | extern/tomlplusplus/toml.hpp:14023-14122 | Every spelling of a literal string, both kinds of line breaks and inner quotes included, is read as what it means |
| TomlStringSpellings.ReadsExactlySpellings | extern/tomlplusplus/toml.hpp:13781-14166 | A text is read as a string of given bytes with a given rest if and only if it spells one that means them: nothing else is accepted |
| TomlStringWriter.PrescanAscii | extern/tomlplusplus/toml.hpp:16492-16517 | The traits of an ASCII text, with the early exit |
| TomlStringWriter.PrescanUnicode | extern/tomlplusplus/toml.hpp:16520-16569 | The traits of other text; malformed text is detected |
| TomlStringWriter.EmitUnicodeBody | extern/tomlplusplus/toml.hpp:16639-16712 | The escaped body, byte by byte through the decoder |
| TomlStringWriter.EmitAsciiBody | extern/tomlplusplus/toml.hpp:16613-16636 | The escaped body of an ASCII text |
| TomlStringWriter.PrintString | extern/tomlplusplus/toml.hpp:16474-16716 | The whole printer: bare, literal or escaped |
| TomlStringRoundTrip.PrintedIsText | extern/tomlplusplus/toml.hpp:16474-16716 | Printing the bytes of a text prints the bytes of its printed text |
| TomlStringRoundTrip.FormExactly | extern/tomlplusplus/toml.hpp:16571-16610 | Which form is printed: bare, literal or basic, over one line or several, by the characters of the text and the format flags |
| TomlStringRoundTrip.EscapeIsRead | extern/tomlplusplus/toml.hpp:1500-1534 | Every escape the printer makes is read back as the character it stands for |
| TomlStringRoundTrip.StringRoundTripExactly | extern/tomlplusplus/toml.hpp:13781-14166 | A string comes back if and only if it is not one of those lost over several lines, for every combination of format flags |
| TomlStringRoundTrip.ValueRoundTrip | extern/tomlplusplus/toml.hpp:16718-16722 | Every value without line breaks comes back |
| TomlStringRoundTrip.KeyRoundTrip | extern/tomlplusplus/toml.hpp:17015-17018 | Every key comes back, line breaks and all, bare or quoted |
| TomlStringRoundTrip.WellFormedIsText | extern/tomlplusplus/toml.hpp:8951-9018 | The texts the round trips speak of are exactly the well-formed byte strings |
| TomlMalformed.MalformedIsPrinted | extern/tomlplusplus/toml.hpp:16524-16569 | Malformed bytes are printed as one quoted line of code points and escapes, never with raw bytes outside ASCII |
| TomlMalformed.MalformedComesBackAs | extern/tomlplusplus/toml.hpp:16639-16712 | That line is a string, read as what was salvaged of the bytes, and this is never what was printed |
| TomlMalformed.SalvageExactly | extern/tomlplusplus/toml.hpp:16639-16712 | What is salvaged is all of the bytes if and only if they are well-formed |
| TomlMalformed.TailIsSalvaged | extern/tomlplusplus/toml.hpp:16643-16667 | Behind text, an unfinished code point is gone if nothing follows, and the byte that spoils it makes its bytes come back as one code point each |
| TomlMalformed.LoneByteComesBack | extern/tomlplusplus/toml.hpp:16650-16664 | A byte FF comes back as C3 BF |
| TomlMalformed.TruncatedTailIsGone | extern/tomlplusplus/toml.hpp:16666-16667 | A C3 at the end does not come back at all |
| TomlReadBack.StringComesBack | extern/tomlplusplus/toml.hpp:12660-13028 | From printed bytes through blocks, ring and cursor: anywhere in a file a string comes back, with what stands behind it unread, if and only if printing loses nothing of it |
| TomlReadBack.KeyComesBack | extern/tomlplusplus/toml.hpp:15488-15520 | The same for every key |
| TomlReadBack.MalformedComesBack | extern/tomlplusplus/toml.hpp:16639-16712 | Malformed bytes, printed anywhere in a file, are read without an error as what was salvaged of them |
| TomlReadBack.ValueInFile | extern/tomlplusplus/toml.hpp:15059-15471 | A value anywhere in a file, through blocks, ring, cursor and the value dispatcher, is what the specification reads from the file's text |
| TomlReadBack.IntegerComesBack | extern/tomlplusplus/toml.hpp:15072-15314 | Every 64-bit integer in every format comes back through the value dispatcher, with what stands behind it unread |
| TomlReadBack.SpellingIsRead | extern/tomlplusplus/toml.hpp:15059-15314 | So does any other spelling of an integer that the scan can keep whole, through blocks, ring and dispatcher |
| TomlReadBack.DateTimeComesBack | extern/tomlplusplus/toml.hpp:15423-15461 | The same for every valid date-time |
| TomlReadBack.DateComesBack | extern/tomlplusplus/toml.hpp:15150-15189 | The same for every valid date, if and only if what stands behind it does not seem to be its time |
| TomlReadBack.TimeComesBack | extern/tomlplusplus/toml.hpp:15409-15416 | The same for every valid time |
| TomlReadBack.TextOfBytes | extern/tomlplusplus/toml.hpp:12506-12513 | The bytes of a text that does not start with a byte order mark are decoded to that text |
| TomlFlatten.LeafCount | extern/tomlplusplus/toml.hpp:11896-11905 | Counts the leaves at any depth |
| TomlFlatten.TomlArray.PreinsertionResize | extern/tomlplusplus/toml.hpp:11771-11784 | Opens empty slots and moves everything behind them up, losing nothing |
| TomlFlatten.TomlArray.FlattenChild | extern/tomlplusplus/toml.hpp:11908-11922 | The leaves of a nested array fill the empty slots from the given index on |
| TomlFlatten.TomlArray.EraseLeafless | extern/tomlplusplus/toml.hpp:11930-11946 | Arrays without leaves are erased and the final size is computed |
| TomlFlatten.TomlArray.Flatten | extern/tomlplusplus/toml.hpp:11925-11971 | Exactly the leaves remain, in order, every slot filled |
| TomlFlatten.TomlArray.MoveLeaves | extern/tomlplusplus/toml.hpp:11963-11967 | An array taken out of its slot is replaced by its leaves |
| TomlFlatten.NestingDoesNotMatter | extern/tomlplusplus/toml.hpp:11925-11971 | Wrapping a stretch of elements in an array does not change the result |
| TomlFlatten.FlatStaysFlat | extern/tomlplusplus/toml.hpp:11925-11971 | Flattening twice is flattening once |
| MacroOutput.ExpandEscapesForClipboard | src/core/MacroCase.cpp:146-158 | The clipboard text is the expansion with every newline escape as CR LF |
| MacroOutput.BuildSegments | src/core/MacroCase.cpp:160-184 | The segments joined are the expansion, converted unit by unit, with no empty and no adjacent texts |
| MacroOutput.OutputsAgree | src/core/MacroCase.cpp:146-184 | Joined Unicode segments with returns as CR LF are the clipboard text |
| MacroOutput.LinesAreBroken | src/core/MacroCase.cpp:146-158 | A backslash and an n between two stretches of text become CR and LF, and nothing else changes |
| MacroOutput.SegmentsAreUnique | src/core/MacroCase.cpp:160-184 | There is only one such segmentation |
| MacroPlan.Lookup | src/core/MacroCase.cpp:27-66 | The nested lookups find the first candidate key, in the stated priority, that is in the table |
| MacroPlan.CountBackspaces | src/core/MacroCase.cpp:69-90 | How many characters on the screen the expansion replaces |
| MacroPlan.IsTypedAllUpper | src/core/MacroCase.cpp:100-107 | All letters typed are upper case and there is one, in a buffer longer than one unit |
| MacroPlan.ApplyCaps | src/core/MacroCase.cpp:92-137 | The stored expansion with the capitals the typed case asks for |
| MacroPlan.UpperAll | src/core/MacroCase.cpp:109-118 | In place, every unit but those of newline escapes |
| MacroPlan.UpperWords | src/core/MacroCase.cpp:119-136 | In place, the first unit of every word, escapes counting as breaks |
| MacroPlan.Plan | src/core/MacroCase.cpp:20-144 | The plan as a whole |
| MacroPlan.CapsKeepEscapes | src/core/MacroCase.cpp:109-136 | Auto-caps never moves, creates or destroys a newline escape |
| MacroPlan.CapsLowerBack | src/core/MacroCase.cpp:92-137 | Lowering the result gives the stored expansion if and only if each upper-cased unit lowers back |
| MacroPlan.PlanKeepsExpansion | src/core/MacroCase.cpp:20-144 | A plan matches iff some candidate key is stored; its expansion has the line breaks of the stored one and differs only in case, only for a key matched through lowering |
| MacroPlan.CandidatesAre | src/core/MacroCase.cpp:27-66 | The priority of the keys, one by one |
| MacroScreen.ErasesExactly | src/core/MacroCase.cpp:69-90 | Whatever stands in front, erasing the plan's number of units leaves exactly that: the composition goes, in the code table's units, or the typed units without a trigger not yet inserted, for every kind of match and every flag |
| MacroScreen.TriggeredKeyErasesItself | src/core/MacroCase.cpp:40-53 | A key and its trigger, with nothing composed, erase exactly the key, and the trigger reaches the application |
| MacroScreen.TriggerIsSwallowedExactly | src/core/MacroCase.cpp:27-66 | The trigger is swallowed if and only if the key found has it in it |
| MacroScreen.CapsFollowTyping | src/core/MacroCase.cpp:92-137 | Which units of the expansion become capitals: all outside newline escapes, the first of every word, or none, by what was typed and how the key matched |
| MacroScreen.LongTextIsPasted | src/core/MacroCase.cpp:139-141 | The clipboard is used exactly for Unicode expansions over the threshold |
| MacroPrefix.IsSpaceMacroPrefix | src/core/MacroPrefix.h:24-48 | The loop over the keys answers whether some completion of the non-empty phrase is matched as a whole |
| MacroPrefix.PrefixIsReachability | src/core/MacroPrefix.h:24-48 | A key is started by the phrase if and only if some completion is matched by exact or lowered key |
| MacroPrefix.FullMatchIsThePlans | src/core/MacroCase.cpp:27-36 | That rule is the one the plan tries first |
| SmartSwitch.WriteStepIsSafe | src/core/SmartSwitchManager.cpp:103-130 | Every step of the writer stays in bounds, keeps hashes distinct and published entries in place |
| SmartSwitch.WriteStepKeepsOutcome | src/core/SmartSwitchManager.cpp:103-130 | The effect of a call is decided when it begins and no step changes it |
| SmartSwitch.WriterEffect | src/core/SmartSwitchManager.cpp:103-130 | Readers see the old table or the new one; a full table drops new names but updates known ones |
| SmartSwitch.RunIsSafe | src/core/SmartSwitchManager.cpp:103-146 | In every interleaved run from a fresh table: at most 64 entries, distinct hashes, no access out of bounds |
| SmartSwitch.HashesStay | src/core/SmartSwitchManager.cpp:120-128 | Published hashes are never changed or forgotten |
| SmartSwitch.AnswerIsCurrent | src/core/SmartSwitchManager.cpp:132-146 | The step that answers a reader sees the table say just that |
| SmartSwitch.AnswersAreInstants | src/core/SmartSwitchManager.cpp:132-146 | Every answer equals the table at some instant during the call |
| SmartSwitchTable.SmartSwitchState.InitDefaults | src/core/SmartSwitchState.h:39-49 | Whatever the memory held, the table is empty and every entry cleared |
| SmartSwitchTable.SmartSwitchState.Find | src/core/SmartSwitchManager.cpp:110-118 | The scan finds the hash if and only if it is published |
| SmartSwitchTable.SmartSwitchState.SetAppMode | src/core/SmartSwitchManager.cpp:103-130 | Alone, a call has the effect the state machine has |
| SmartSwitchTable.SmartSwitchState.GetAppMode | src/core/SmartSwitchManager.cpp:132-146 | Alone, a call answers what the table says |
| FnvHash.FnvHash | src/core/SmartSwitchState.h:52-62 | The loop computes the fold of the lowered units up to the first zero |
| FnvHash.StepIsBijective | src/core/SmartSwitchState.h:54-61 | Each step is a bijection of the 32-bit words, inverted with 0x359C449B |
| FnvHash.IgnoresCase | src/core/SmartSwitchState.h:52-62 | Names with the same lowered form hash alike |
| FnvHash.PublishedValues | src/core/SmartSwitchState.h:52-62 | The published FNV-1a values of the empty string and of "a" |
| FnvHash.OneDifferenceNeverCollides | src/core/SmartSwitchState.h:52-62 | Names of equal length whose lowered forms differ in exactly one place never collide |

## Left out

- COM plumbing, display attributes, the language bar and `ToggleVietnameseMode`: an edit session is one atomic document edit that succeeds or takes the failure branch the code has.
- The Vietnamese engine, the spell checker, the hook engine and the code tables: only the laws the callers rely on are stated.
- Selections: whether one exists is part of the event; its text is not modelled.
- Context switching and the password check: whether the context blocks input is fixed in a run.
- Settings changed between the test of a key and its key-down: a change is noticed by the first handler of a key.
- TsfUndo.EveryRestoreIsExact: that a restore is exact is shown from a cache that fits; a run that spoils the cache and then happens to put the same text back before the caret is not characterised further.
- TsfDelivery.DeliveryStyleDoesNotMatter: speaks of keys without Escape, of Backspace only while something is typed, and of stable settings; undo and revive are defined by the test phase and differ between the hosts.
- TsfModel and TsfService: a tick is an instant reduced modulo 2^32; the engine's own text is a parameter.
- The reader over `std::istream`, exceptions, error messages and error positions: a failed read is one sticky error.
- Machine widths of lines, columns and sizes: unbounded; the `first` counter of the history ring likewise.
- The default branch of the non-ASCII whitespace test, which the library marks unreachable (for instance for U+00A1): modelled as not whitespace.
- `std::to_chars` and `std::from_chars` are taken to do what the C++ standard says; the builds without them are not modelled.
- The surrounding TOML grammar: tables, arrays, dotted keys, comments, floats (whose parsers look back as the integer parser does), booleans, and the JSON and YAML formatters.
- TomlValue.ParseValue: values that begin with neither a digit nor a sign, and the parsers of floats, hexadecimal floats, infinities and not-a-number, end in the outcome `Elsewhere`; the table of traits is modelled without the rows that an earlier branch has decided.
- TomlValue.LookAhead: what the library does once an assumption it does not check fails is not modelled; the outcome is `Unforeseen`.
- SmartSwitch.AnswersAreInstants: memory accesses are sequentially consistent steps; reordering that a compiler or processor may do without the barriers is not modelled.
- `LoadFromMap` of the shared table: it can insert a hash twice, so it is not a step of the state machine; creating and mapping the shared memory is left out too.
- FnvHash.OneDifferenceNeverCollides: names that differ in more than one place, or in length, can collide and the table does not compare names.
- MacroPlan.PlanKeepsExpansion: assumes that upper-casing a lower-case unit lowers back; `CapsLowerBack` says exactly when that matters.
- `towlower` inside `ToLowerVietnamese`: only A to Z and the two letters the explicit cases leave to it; locales that lower other characters to Latin letters are not modelled.
- Locale tables behind `towlower` in macros, `iswupper`, `iswalpha` and `iswspace`: parameters with the laws `LowersProperly` and `KeepsEscapes`.
- The windows, the tray, the updater, registration, logging and the per-application decisions that are settled by reading a few branches.
