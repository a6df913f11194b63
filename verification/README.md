# Verified model of the perimeter alarm server's core

The server watches cameras for people, keeps a trail for each of them, raises alarms at borders, films
what led to an alarm and talks JSON over a coroutine library that is kept in its source tree. These
Dafny files model the parts of it that compute rather than call devices, and prove what they are for.

| Files | What they model |
|---|---|
| `ByteText`, `Options`, `Decimal`, `Utf8` | bytes and spans of text, decimal text, UTF-8 |
| `JsonValue`, `JsonGrammar` | json11's values; the texts of RFC 8259 sections 2 to 7 as syntax trees, which no parser takes part in |
| `JsonReader`, `Json11Parser` | json11's parser: as functions of the text and the cursor, and as the object with a cursor and a sticky failure |
| `JsonPrinter`, `Json*Proofs`, `JsonCompleteness`, `JsonSoundness`, `JsonTheorems`, `JsonErrors` | json11's printer; exact acceptance and the round trip; which error is kept |
| `CoValue`, `CoReader`, `CoParser`, `CoTheorems`, `CoRoundTrip` | the co library's JSON printer and parser, with the key buffer that all objects of a text share |
| `CoTokens`, `CoGrammar`, `CoAcceptance` | the texts that the co parser takes, as syntax trees which no parser takes part in; exact acceptance |
| `Utf16` | characters spelt by `\u` escapes, as both libraries read them |
| `CoToJson11`, `CoStandard` | what json11 makes of text that the co library printed; what the co parser makes of RFC 8259 texts |
| `SharedStack`, `CoScheduler` | coroutines that share one stack, as a machine and as the scheduler's objects |
| `CoMutex`, `CoSchedules`, `CoTimers` | the coroutine mutex over any number of schedulers; the mutex and the shared stacks together; a scheduler's timers |
| `Tracker`, `AlarmEngine`, `AlarmNames`, `TrailPaths`, `DstEngineObjects` | trails, alarms and films: one frame, whole runs, the names of the films, the paths of the trails, and the engine's objects |
| `PathClean` | lexical cleaning of paths in place |
| `Word32`, `Md5`, `Md5Block`, `Md5Context`, `Md5Digest`, `Base64` | streaming MD5, its block function and a digest of the RFC; Base64 with line breaks |
| `FastringRfind`, `Recency`, `LruMaps`, `IntegerText`, `LehmerRandom` | backward search, the LRU map and the format cache, table-driven integer printing, the Lehmer generator |

Most loops of the source are methods here. Each is proved to compute a function, and the theorems are
about that function. They compare it with a description that does not use the code: a grammar, a machine
with private stacks, a split-fold-join, a sequence of entries.

Things the proofs brought out about the code:

- A film of a region alarm is saved under the name of the latest such alarm, which is its own exactly when
  no sampled foot was inside a region in the nine frames that follow (`AlarmNames.FilmBearsItsOwnName`).
  While one person stays inside a region that is never so (`AlarmNames.OneWhoStaysIsMisnamed`): of
  twenty-two frames of one person standing there, the one film is of the third alarm and is saved under
  the fourth's name (`AlarmNames.TwentyTwoFrames`).
- The ready part of the loop erases timers past the remembered position. Over any run the position stays
  on a timer that is there exactly as long as none of those is the timer it is on
  (`CoTimers.StandsUnlessEverHit`). A timer by `add_timer`, a later one for an event, the timeout of the
  first and the readiness of the second leave it on a timer that is gone
  (`CoTimers.TimeoutThenReadyHits`, `CoTimers.PositionLeftBehind`).
- `fastatoi` adds the code of the last digit before it takes off that of zero, and so overflows for sizes
  above 2^63 - 49, though what it would return fits (`CoRoundTrip.FastAtoiReadsBack`).
- The co parser keeps names as they are spelt, so that a name comes out as it should exactly when it has no
  escapes (`CoStandard.SpellingIsValue`), and refuses escaped high surrogates without a low one and
  exponents without a fraction (`CoStandard.ReadsStandardTexts`). Beyond RFC 8259 it takes a comma before a
  closing bracket, control bytes in strings, keys that end at any quote, and integers with leading zeros
  (`CoAcceptance.ParseTakesExactly`).
- `base64_decode` looks before its text exactly if that is empty or a single line break character, and
  refuses both (`Base64.Base64Decode`).
- A json11 value nested more than 200 deep is printed but not read back (`JsonTheorems.RoundTrip`).
- A co string comes through json11 exactly when its control bytes are those the printer escapes
  (`CoToJson11.StringSurvivesExactly`).

## Model

| member | source | states |
|---|---|---|
| JsonTheorems.ParseAcceptsExactly | hengda_server-cj/utility/json11.cpp:377-744 | for every text, value and strategy: the parser succeeds with the value if and only if the text is in the grammar, nests at most 200 deep and denotes it |
| JsonTheorems.ReadDocument | hengda_server-cj/utility/json11.cpp:644-744 | every grammatical text that fits the depth limit is read to what it denotes; every deeper one is refused |
| JsonTheorems.GrammarIsUnambiguous | hengda_server-cj/utility/json11.cpp:644-744 | two syntax trees with the same text denote the same value and fit the depth limit or not together |
| JsonTheorems.CommentsExtendStandard | hengda_server-cj/utility/json11.cpp:386-435 | what STANDARD accepts, COMMENTS accepts with the same value |
| JsonTheorems.RoundTrip | hengda_server-cj/utility/json11.cpp:53-142 | printing and parsing gives the value back, in both strategies, exactly when no value is under more than 200 containers |
| JsonTheorems.Reads201Arrays | hengda_server-cj/utility/json11.cpp:31-31 | of arrays nested in one another, given by their brackets, 201 are read and no more |
| JsonCompleteness.ReadValueComplete | hengda_server-cj/utility/json11.cpp:644-728 | at any place, depth and nesting, a spelled tree is consumed exactly and gives its value |
| JsonSoundness.ReadValueSound | hengda_server-cj/utility/json11.cpp:644-728 | whatever a successful reading consumed is the text of a valid tree with the value it gave |
| JsonStringProofs.StringDecoderIsTwoPass | hengda_server-cj/utility/json11.cpp:480-567 | the one-pass decoder with its deferred surrogate equals tokenising, joining high and low surrogate escapes left to right, and then encoding |
| JsonStringProofs.AbsorbPending | hengda_server-cj/utility/json11.cpp:526-549 | one character with a deferred code point before it means the same as in the two-pass reading |
| JsonGapProofs.SkipGapComplete | hengda_server-cj/utility/json11.cpp:377-435 | white space and comments are skipped exactly to where the next token starts |
| JsonGapProofs.SkipGapSound | hengda_server-cj/utility/json11.cpp:377-435 | what was skipped is white space and closed comments |
| JsonNumberProofs.ReadNumberComplete | hengda_server-cj/utility/json11.cpp:573-622 | every number of the grammar is consumed whole, and gives its value |
| JsonNumberProofs.ReadNumberSound | hengda_server-cj/utility/json11.cpp:573-622 | what was consumed as a number is a number of the grammar |
| Json11Parser.JsonParser.ConsumeComment | hengda_server-cj/utility/json11.cpp:386-418 | the loop over a comment moves the cursor as the function of the text says, inside the text, failing where it fails |
| Json11Parser.JsonParser.ParseString | hengda_server-cj/utility/json11.cpp:480-567 | the decoding loop gives the function's string, cursor and error |
| Json11Parser.JsonParser.ParseNumber | hengda_server-cj/utility/json11.cpp:573-622 | the scanning loops give the function's number, cursor and error |
| Json11Parser.JsonParser.ParseObject | hengda_server-cj/utility/json11.cpp:670-701 | the member loop builds the map of the function, or leaves the first error |
| Json11Parser.JsonParser.ParseArray | hengda_server-cj/utility/json11.cpp:703-725 | the element loop builds the sequence of the function, or leaves the first error |
| Json11Parser.JsonParser.ParseJson | hengda_server-cj/utility/json11.cpp:644-728 | cursor, error and value after any value; the cursor stays in the text and a failure stays |
| Json11Parser.Parse | hengda_server-cj/utility/json11.cpp:732-744 | no error if and only if the text denotes some value, which is then the result; otherwise null and the first error |
| JsonPrinter.WriteString | hengda_server-cj/utility/json11.cpp:77-112 | the loop appends the escaped text of the string |
| JsonPrinter.Write | hengda_server-cj/utility/json11.cpp:53-142 | the printer appends the text of the value |
| JsonPrinter.PrintedIsPlain | hengda_server-cj/utility/json11.cpp:77-112 | no printed string has a control byte or one of the line separators U+2028 and U+2029 |
| JsonPrinter.ItemsAreSpaced | hengda_server-cj/utility/json11.cpp:114-125 | between two items stand a comma and a space, around them brackets |
| JsonPrinter.MembersAreSpaced | hengda_server-cj/utility/json11.cpp:127-142 | between two members stand a comma and a space, around them braces |
| JsonGrammar.EscapesAre | hengda_server-cj/utility/json11.cpp:551-565 | there are eight escapes by a letter, and they stand for the characters of RFC 8259 section 7 |
| JsonGrammar.KeptExactly | hengda_server-cj/utility/json11.cpp:573-622 | a number without fraction and exponent is kept exactly up to 2^53 on either side |
| JsonErrors.CommentErrors | hengda_server-cj/utility/json11.cpp:386-418 | a text for each error of a comment, and which it is |
| JsonErrors.StringErrors | hengda_server-cj/utility/json11.cpp:480-567 | the same for strings and escapes |
| JsonErrors.NumberErrors | hengda_server-cj/utility/json11.cpp:573-622 | the same for numbers |
| JsonErrors.PlaceErrors | hengda_server-cj/utility/json11.cpp:627-744 | the same for what is missing or left over |
| JsonErrors.NoCommaBetweenFields | hengda_server-cj/utility/json11.cpp:692-696 | anything but a comma or a brace behind a member is the error of a missing comma in an object |
| JsonErrors.NoCommaBetweenItems | hengda_server-cj/utility/json11.cpp:715-719 | anything but a comma or a bracket behind an item is the error of a missing comma in a list |
| JsonErrors.NoColonAfterName | hengda_server-cj/utility/json11.cpp:684-686 | anything but a colon behind a name is the error of a missing colon |
| JsonErrors.TooManyBrackets | hengda_server-cj/utility/json11.cpp:644-647 | a value under more than 200 containers is the error of nesting |
| JsonValue.LessIs | hengda_server-cj/utility/json11.cpp:127-142 | keys are ordered by the first byte in which they differ, a prefix first |
| JsonValue.PutIsUpdate | hengda_server-cj/utility/json11.cpp:688-688 | assigning a key changes what is found under that key and under no other |
| JsonValue.CollectLookup | hengda_server-cj/utility/json11.cpp:671-700 | the last of several members with the same name is the one found |
| JsonValue.CollectAscending | hengda_server-cj/utility/json11.cpp:671-700 | an object printed in key order collects to itself |
| Utf8.DecodeEncode | hengda_server-cj/utility/json11.cpp:455-474 | a decoder after RFC 3629 section 3 inverts the encoding of every scalar value up to 0x10FFFF |
| Utf8.EncodeDecode | hengda_server-cj/utility/json11.cpp:455-474 | what that decoder accepts is what the encoder writes |
| Utf8.DecodeAllEncodeAll | hengda_server-cj/utility/json11.cpp:455-474 | the same for whole strings of scalar values |
| Utf8.ExamplesOfTheRfc | hengda_server-cj/utility/json11.cpp:455-474 | the examples of section 7 of RFC 3629, byte by byte |
| Utf8.LoneSurrogate | hengda_server-cj/utility/json11.cpp:455-474 | a surrogate on its own is written in three bytes as its neighbours are |
| Utf16.PairCombines | hengda_server-cj/utility/json11.cpp:526-549 | the two UTF-16 units of every character from 0x10000 to 0x10FFFF are a high and a low surrogate, and combine to it |
| Utf16.EscapedTextsAreRead | hengda_server-cj/utility/json11.cpp:480-567 | any characters, each spelt by one `\u` escape or by its surrogate pair, with hexadecimal digits of either case, are read by json11 and by the co parser to bytes that decode to just these characters |
| Decimal.IntTextValue | include/co/base/fast.h:25-29 | the decimal text of an integer stands for that integer |
| CoValue.Write | include/co/base/json.cc:49-134 | the co printer appends the text of the value |
| CoValue.WriteString | include/co/base/json.cc:55-89 | the loop from one special byte to the next appends the escaped string |
| CoValue.StringBodyIsBytewise | include/co/base/json.cc:55-89 | for strings without NUL, jumping between special bytes writes what escaping byte by byte would |
| CoValue.SpecialsAre | include/co/base/json.cc:55-89 | the printer escapes exactly seven bytes, each to its letter |
| CoValue.ItemsAreTight | include/co/base/json.cc:111-121 | between two items stands a comma alone |
| CoValue.MembersAreTight | include/co/base/json.cc:91-109 | between two members stands a comma alone |
| CoToJson11.PrintedTextIsRead | hengda_server-cj/utility/de_serv_impl.cpp:154-164 | text printed by the co library is parsed by json11 to the same value if it nests at most 200 deep, and refused if deeper |
| CoToJson11.LookupsAgree | hengda_server-cj/utility/de_serv_impl.cpp:154-164 | with distinct keys both libraries find the same member under every key |
| CoToJson11.StringSurvivesExactly | include/co/base/json.cc:55-89 | a string comes back unchanged if and only if its control bytes are all among those the printer escapes |
| CoTheorems.KeyBufferSuffices | include/co/base/json.cc:395-525 | an accepted text needs no more key buffer than its own length, whatever length the caller asks for; every key of the value is in the buffer, and the reference count is the number of objects |
| CoTheorems.KeysStay | include/co/base/json.cc:414-418 | keys already stored are the same when more keys are appended |
| CoTheorems.ReadValueGrows | include/co/base/json.cc:395-497 | reading only appends to the buffer, by no more than the text it consumed |
| CoRoundTrip.RoundTrip | include/co/base/json.cc:499-525 | a printed object or array of 64-bit integers is parsed back to the same value, all keys included, without outgrowing a buffer of the text's length |
| CoRoundTrip.FastAtoiReadsBack | include/co/base/json.cc:337-347 | for every 64-bit integer `fastatoi` of its text is that integer in 64 bits, no accumulator is more than its size, and no operation overflows if and only if its size is at most 2^63 - 49 |
| Decimal.AccumulatesInRange | include/co/base/json.cc:341-344 | over any digits no operation of the loop leaves 64 bits if and only if the number they stand for is at most 2^63 - 49 |
| CoRoundTrip.KeyReadBack | include/co/base/json.cc:328-335 | a key without quote and NUL is found again at its offset |
| CoParser.KeyStream.Append | include/co/base/json.cc:328-335 | bytes are appended; the buffer is marked moved if and only if it was before or they did not fit |
| CoParser.ReadString | include/co/base/json.cc:283-326 | the loop from escape to escape gives the function's string and position |
| CoTokens.IntegerIs | include/co/base/json.cc:337-347 | what `fastatoi` takes are digits, perhaps none, after an optional minus |
| CoTokens.EndsTokenIs | include/co/base/json.cc:356-356 | a word or number ends before a comma, a closing bracket or brace, or white space |
| CoReader.DefaultKeysLen | include/co/base/json.cc:506-507 | a text of more than four bytes has a key buffer of its length unless another is asked for |
| CoParser.FastAtoi | include/co/base/json.cc:337-347 | the digit loop with its 64-bit accumulator gives what 64 bits keep of the integer the text stands for, or fails on any other byte |
| CoParser.ParseObject | include/co/base/json.cc:395-461 | the member loop gives the function's members, position and key buffer |
| CoParser.ParseArray | include/co/base/json.cc:463-497 | the element loop gives the function's elements, position and key buffer |
| CoParser.ParseFrom | include/co/base/json.cc:499-525 | accepts what the function accepts; the key buffer moves if and only if its contents outgrow it, never with the default length or one no less than the text's; while it has not moved the value is the text's, and it reads back everything printed |
| CoAcceptance.ParseTakesExactly | include/co/base/json.cc:216-525 | for every byte string and value: the parser succeeds with the value if and only if the text is in the grammar of `CoGrammar`, trailing commas, control bytes and keys up to any quote included, and denotes it |
| CoAcceptance.DocumentRead | include/co/base/json.cc:216-525 | every text of that grammar is read, to the value its tree denotes |
| CoAcceptance.DocumentFound | include/co/base/json.cc:216-525 | every text that is read is spelt by a valid tree of that grammar |
| CoStandard.ReadsStandardTexts | include/co/base/json.cc:283-525 | of the RFC 8259 texts without an escaped quote in a name, exactly those are accepted that are an array or object with paired surrogate escapes, no exponent without a fraction, and fractions that `str::to_double` takes; with integers within 2^53 and names without escapes the value is that of the grammar |
| CoStandard.BothReadTheSame | include/co/base/json.cc:499-525 | such a text within json11's depth limit is read by both libraries to the same value |
| CoStandard.ReadChars | include/co/base/json.cc:216-326 | a string is read to the value the grammar gives it if every escaped high surrogate is followed by an escaped low one, and refused otherwise |
| CoStandard.SpellingIsValue | include/co/base/json.cc:328-335 | the spelling of a name, which is what is kept, is its value if and only if it has no escapes |
| SharedStack.StackSharingIsTransparent | include/co/base/co/impl/scheduler.cc:43-82 | for any programs and any schedule that wakes only suspended coroutines, all assertions hold and all runs come out as in a machine where each coroutine owns its stack |
| SharedStack.ResumedAsItYielded | include/co/base/co/impl/scheduler.cc:62-82 | after any run, what a suspended coroutine will find above its context is what it left there at its last yield; pool index is id, and main, free and suspended coroutines make up the pool |
| SharedStack.NewCoroutineIsNotLive | include/co/base/co/impl/scheduler.h:237-250 | the coroutine handed out is not a live one, becomes live, and every live one stays as it was |
| SharedStack.FreedLastIsUsedAgain | include/co/base/co/impl/scheduler.h:237-250 | while an id is free the one freed last is handed out and taken off, and the pool does not grow; otherwise it grows by one |
| SharedStack.PoolIsAtItsPeak | include/co/base/co/impl/scheduler.h:195-250 | after any legal run the pool is the main coroutine and as many others as were ever under way at once |
| SharedStack.StepMatches | include/co/base/co/impl/scheduler.cc:62-82 | one event of the shared machine is one move of the private one and keeps the relation between them |
| SharedStack.ResumeMatches | include/co/base/co/impl/scheduler.cc:62-82 | restoring, running and saving is running on the private stack |
| SharedStack.StepBalances | include/co/base/co/impl/scheduler.h:195-250 | every event keeps the pool equal to the main, the free and the suspended coroutines |
| CoScheduler.Scheduler.NewCoroutine | include/co/base/co/impl/scheduler.h:237-250 | the coroutine freed last comes back, and only when none is free one more is made; the objects change as the machine says |
| CoScheduler.Scheduler.SaveStack | include/co/base/co/impl/scheduler.cc:43-50 | the saved bytes are those from the context to the top |
| CoScheduler.Scheduler.CopyIn | include/co/base/co/impl/scheduler.cc:73-73 | the shared stack holds the bytes at their place and is otherwise as before |
| CoScheduler.Scheduler.Resume | include/co/base/co/impl/scheduler.cc:62-82 | the size assertion holds and the objects change as the machine says |
| CoScheduler.Scheduler.RunTasks | include/co/base/co/impl/scheduler.cc:117-137 | the task part of the loop takes both lists over and is the run of their events in order; what is on the lists then is exactly what was added during that round, in order |
| CoScheduler.NoTaskIsLost | include/co/base/co/impl/scheduler.cc:117-137 | over any number of rounds: the tasks run, and then those waiting, are the first ones and then those added, in order; none is lost, run twice or overtaken |
| CoScheduler.RoundIs | include/co/base/co/impl/scheduler.cc:117-137 | a round is the new tasks and then the coroutines, each in the order they were added |
| CoMutex.MutualExclusion | include/co/base/co/impl/co.cc:94-141 | in every run, judged by who has come back from `lock()` or a successful `try_lock()` and has not called `unlock()`: at most one coroutine is in its critical section, `_lock` is set iff one is or one is to be next, and nobody waits for an unset lock |
| CoMutex.RunIsSeen | include/co/base/co/impl/co.cc:111-141 | the calls of a run and whether they came back tell who is inside and who is blocked |
| CoMutex.WokenExactlyOnce | include/co/base/co/impl/co.cc:125-136 | a coroutine blocked in `lock()` is in exactly one place: the queue, or, owning the lock, on its way into or in the tasks of its own scheduler |
| CoMutex.GrantsInOrder | include/co/base/co/impl/co.cc:111-136 | over any run the waiters granted the lock are the first ones, in order, as many as unlocks; each is added to tasks once and enters once, and nobody overtakes |
| CoMutex.OwnsAfterItsTurn | include/co/base/co/impl/co.cc:111-136 | a waiter with k ahead owns the lock after exactly k + 1 unlocks and is in the queue before |
| CoMutex.StepKeeps | include/co/base/co/impl/co.cc:111-141 | each step of each scheduler keeps the invariant |
| CoMutex.TokenKeeps | include/co/base/co/impl/scheduler.cc:117-137 | no step makes a coroutine be queued twice or forgets a blocked one |
| CoMutex.ResumedInOrder | include/co/base/co/impl/scheduler.cc:117-137 | a scheduler resumes the first of what waits for it, and every step adds at the end if at all |
| CoSchedules.SchedulesAreLegal | include/co/base/co/impl/scheduler.cc:62-164 | whatever n schedulers do with a mutex, with wake-ups from elsewhere and with starting and ending coroutines: the runs on the stack of any one of them are a legal schedule, so that they come out as with private stacks, and the mutex sees one of its own runs |
| CoSchedules.OnlySuspendedAreResumed | include/co/base/co/impl/scheduler.cc:117-137 | in every run what a scheduler takes off its task list is a suspended coroutine of its own |
| CoSchedules.StepKeeps | include/co/base/co/impl/scheduler.cc:62-82 | every step keeps: the live coroutines of a stack are the suspended ones of its scheduler and the running one if it will yield |
| CoMutex.MutexImpl.Lock | include/co/base/co/impl/co.cc:111-123 | comes back if and only if the lock was free, which is taken; otherwise the coroutine is queued under its scheduler |
| CoMutex.MutexImpl.TryLock | include/co/base/co/impl/co.cc:138-141 | succeeds if and only if the lock was free, and leaves it taken |
| CoMutex.MutexImpl.Unlock | include/co/base/co/impl/co.cc:125-136 | frees the lock, or takes the front waiter off and adds it to its own scheduler's tasks and to no other's |
| CoTimers.Timers.CheckTimeout | include/co/base/co/impl/scheduler.cc:171-202 | exactly the timers due are taken off, their coroutines returned in order of time; the wait is up to the next timer, cut to 32 bits; a position that is due moves to the first timer left |
| CoTimers.Timers.AddTimer | include/co/base/co/impl/scheduler.h:127-130 | the timer is put in order and becomes the remembered position; the wait is no longer than its time |
| CoTimers.Timers.AddEvTimer | include/co/base/co/impl/scheduler.h:132-135 | the timer is put in order and the remembered position stays |
| CoTimers.DueIsExact | include/co/base/co/impl/scheduler.cc:180-186 | a timer is among those taken off if and only if its time has come |
| CoTimers.Timers.DelTimer | include/co/base/co/impl/scheduler.h:137-140 | the timer goes, and a position on it moves to the next timer |
| CoTimers.DeletedIs | include/co/base/co/impl/scheduler.h:137-140 | deleting the k-th timer takes it out, and a position on it moves to the one after it or to the end |
| CoTimers.CheckedIs | include/co/base/co/impl/scheduler.cc:171-202 | with the first n timers due they go, and a position that is due moves to the first one left or to the end |
| CoTimers.StandsUnlessEverHit | include/co/base/co/impl/scheduler.cc:147-147 | over any run of adding, deleting, timing out and direct erasing, the remembered position is after every operation on a timer that is there, or at the end, if and only if no direct erasing is of the timer it is on |
| CoTimers.TimeoutThenReadyHits | include/co/base/co/impl/scheduler.cc:145-193 | for any timer and any later one of an event: after the first times out, erasing the second leaves the position on a timer that is gone |
| CoTimers.PositionIsLastAdded | include/co/base/co/impl/scheduler.h:127-140 | over any run the position is on the timer that `add_timer` added last until that is taken off |
| CoTimers.Timers.EraseTimer | include/co/base/co/impl/scheduler.cc:147-147 | the timer goes and the position stays, which keeps the objects valid if and only if it was not that timer |
| CoTimers.PositionLeftBehind | include/co/base/co/impl/scheduler.cc:145-193 | a run of the methods at whose end there is no timer and the position is on one |
| Tracker.ChooseIsBestOpenTrail | hengda_server-cj/DstEngine/DstEngine.cpp:330-357 | a box goes to the first best scoring open trail if that scores above -0.5 and either above 0.2 or away from the edge, and to a new trail exactly otherwise |
| Tracker.FootIs | hengda_server-cj/DstEngine/trail.h:43-45 | the foot of a box is half way between its sides, cut towards zero, on its lower edge |
| Tracker.EachPersonToItsOwnTrail | hengda_server-cj/DstEngine/DstEngine.cpp:261-358 | the persons of a frame go to pairwise different trails, open or new, each updated with its own box; all others are unchanged |
| Tracker.AssignAllInv | hengda_server-cj/DstEngine/DstEngine.cpp:329-357 | assigning keeps trails well formed, distinct and as old as the time since their last box |
| Tracker.AgeInv | hengda_server-cj/DstEngine/DstEngine.cpp:250-259 | ageing keeps the same and opens every trail |
| AlarmEngine.EachPersonIsFollowed | hengda_server-cj/DstEngine/DstEngine.cpp:250-358 | in every frame of every run each person goes to exactly one trail and no trail takes two |
| AlarmEngine.TrailsStayWellFormed | hengda_server-cj/DstEngine/trail.h:38-95 | after every run each trail has 1 to 60 points, the last under its current box, and a count that is the time since that box, at most 120 |
| TrailPaths.PointsAreThePath | hengda_server-cj/DstEngine/trail.h:52-90 | over every run there are names of the trails that each frame's persons went to, such that the points of every trail are its path, told from the frames and the names alone, and a frame is marked 2 if and only if a path crosses a line in it |
| TrailPaths.PathIsOfTheLastFeet | hengda_server-cj/DstEngine/trail.h:71-90 | a path is the feet of the last boxes of its trail in order, at least one and at most sixty |
| TrailPaths.PathIsExactly | hengda_server-cj/DstEngine/trail.h:71-90 | a path is the feet of the boxes since its trail began, or since its last crossing with the box it had then; with the sixty-first it starts anew |
| TrailPaths.OnePointIsLeft | hengda_server-cj/DstEngine/DstEngine.cpp:381-422 | a trail that crossed in the last frame has one point, the foot of its box |
| AlarmEngine.KeptForExactly120Frames | hengda_server-cj/DstEngine/DstEngine.cpp:250-259 | a trail is there after a frame if and only if it was given a box in that frame or one of the 120 before |
| AlarmEngine.EveryAlarmIsFilmedOnce | hengda_server-cj/DstEngine/DstEngine.cpp:361-441 | over any run the films are, in order, exactly one for each marked frame with ten before and nine after it, of its mark's kind and of exactly those twenty frames |
| AlarmEngine.WindowIs | hengda_server-cj/DstEngine/DstEngine.cpp:229-236 | the window always holds the last twenty frames, or all, and their final marks |
| AlarmEngine.MarkSaysWhatWasRaised | hengda_server-cj/DstEngine/DstEngine.cpp:282-321 | a frame's final mark is 2 if it raised a crossing, else 1 if it raised a region alarm, else 0 |
| AlarmNames.FilmBearsItsOwnName | hengda_server-cj/DstEngine/DstEngine.cpp:291-394 | a film of a region alarm is stored under that alarm's name if and only if no foot inside a region in the nine frames after it is a sampled one, counted over the input frames; one of a crossing if and only if in none of those frames the points of a trail cross a line of the frame |
| AlarmNames.MarkIs | hengda_server-cj/DstEngine/DstEngine.cpp:282-422 | the mark of a frame is 2 if the points of one of its trails cross a line of the frame, else 1 if one of its feet inside regions is a sampled one, else 0 |
| AlarmNames.SevenHitsMisname | hengda_server-cj/DstEngine/DstEngine.cpp:287-394 | with seven feet inside regions or more in the nine frames after a region alarm, its film is stored under another name |
| AlarmNames.OneWhoStaysIsMisnamed | hengda_server-cj/DstEngine/DstEngine.cpp:287-394 | with one foot inside a region in every frame, the marked frames are those with a sampled one, and each of their films is stored under the number of alarms nine frames later, which is never its own |
| AlarmNames.TwentyTwoFrames | hengda_server-cj/DstEngine/DstEngine.cpp:287-394 | a run: of twenty-two equal frames of one person in a region, the only film is of the third alarm and stored under the fourth's name |
| AlarmNames.RunHits | hengda_server-cj/DstEngine/DstEngine.cpp:261-321 | what a run counts are the feet of persons inside regions, frame by frame |
| AlarmNames.EverySixthHitIsReported | hengda_server-cj/DstEngine/DstEngine.cpp:287-315 | the region alarms raised are the sampled ones of the feet of persons inside regions in the input frames: every sixth, from the first, below 2^32 of them |
| DstEngineObjects.Trail.Insert | hengda_server-cj/DstEngine/trail.h:71-90 | the trail takes the box, restarts its points after sixty, and closes |
| DstEngineObjects.DstEngine.AgeTrails | hengda_server-cj/DstEngine/DstEngine.cpp:251-259 | the erasing loop leaves the aged trails in order |
| DstEngineObjects.DstEngine.FindTarget | hengda_server-cj/DstEngine/DstEngine.cpp:333-344 | the search loop finds the first best open trail and its score |
| DstEngineObjects.DstEngine.AssignBox | hengda_server-cj/DstEngine/DstEngine.cpp:330-357 | the box is inserted or starts a trail, as the choice says |
| DstEngineObjects.DstEngine.CheckFoot | hengda_server-cj/DstEngine/DstEngine.cpp:282-321 | the loop over the borders raises the region alarms of one foot point |
| DstEngineObjects.DstEngine.CheckAllTrails | hengda_server-cj/DstEngine/DstEngine.cpp:381-422 | the two loops raise the crossings of all trails and clear the trails that crossed |
| DstEngineObjects.DstEngine.ProcessResult | hengda_server-cj/DstEngine/DstEngine.cpp:213-446 | one call is one step of the model: window, marks, trails, alarms and films |
| PathClean.CleanPath | include/co/base/path.cc:5-51 | the in-place loop returns the split, folded and joined path; its writes stay in the input-sized buffer |
| PathClean.CopyElement | include/co/base/path.cc:36-45 | copying a name adds it to the path so far, with a slash where one is needed, and the write index does not pass the read index |
| PathClean.CleanIsIdempotent | include/co/base/path.cc:5-51 | cleaning a clean path changes nothing |
| PathClean.CleanIsNormal | include/co/base/path.cc:5-51 | a clean path is `.`, or names joined by single slashes with `..` only in front and only if not rooted |
| PathClean.CleanLeadsToTheSame | include/co/base/path.cc:5-51 | walked byte by byte from any directory, a path and the clean path lead to the same directory |
| PathClean.Backtrack | include/co/base/path.cc:24-27 | moving back to the last slash leaves the text without the last name |
| Md5.AnySplitGivesTheDigest | include/co/base/hash/md5.cc:208-299 | however a message is cut into updates, finishing gives the fold of the block function over the message padded as in RFC 1321 |
| Md5.UpdateStands | include/co/base/hash/md5.cc:218-250 | an update keeps: words of the whole blocks, unprocessed tail in the buffer, length modulo 2^61 in the two counters |
| Md5.FinishIsDigest | include/co/base/hash/md5.cc:252-299 | the last one or two blocks are the rest of the message and its padding |
| Md5.PaddingFillsBlocks | include/co/base/hash/md5.cc:252-277 | message and padding fill whole blocks, with 9 to 72 bytes of padding |
| Md5.LengthIs | include/co/base/hash/md5.cc:269-277 | the eight length bytes are the length in bits modulo 2^64 |
| Md5.InitialWords | include/co/base/hash/md5.cc:208-212 | the initial words, low-order bytes first, are the sixteen bytes of section 3.3 of RFC 1321 |
| Md5Block.AnySplitGivesTheMd5 | include/co/base/hash/md5.cc:91-299 | the same with the block function of section 3.4 of RFC 1321: finishing gives the MD5 digest of the message |
| Md5Block.CodedIs | include/co/base/hash/md5.cc:49-53 | the rewritten bitwise functions of every step are the F, G, H and I of the RFC |
| Md5Block.NextStep | include/co/base/hash/md5.cc:58-61 | a step of the code, with its two shifts, is one operation of the RFC |
| Md5Block.BytesAssemble | include/co/base/hash/md5.cc:77-82 | putting four bytes together by shifts gives the word with the low-order byte first |
| Md5Block.Round1 | include/co/base/hash/md5.cc:109-125 | the sixteen unrolled steps are the first sixteen operations of the RFC |
| Md5Block.Round2 | include/co/base/hash/md5.cc:127-143 | the next sixteen |
| Md5Block.Round3 | include/co/base/hash/md5.cc:145-161 | the next sixteen |
| Md5Block.Round4 | include/co/base/hash/md5.cc:163-179 | the last sixteen |
| Word32.ShiftsRotate | include/co/base/hash/md5.cc:58-61 | the two shifts of a step are a circular shift by as many single bits |
| Md5Context.Context.Body | include/co/base/hash/md5.cc:91-195 | the loop folds the block function of the RFC over the blocks |
| Md5Context.Context.Update | include/co/base/hash/md5.cc:218-250 | the context changes in place as the function says |
| Md5Context.Context.Finish | include/co/base/hash/md5.cc:252-299 | returns the function's digest and wipes the context |
| Md5Context.Context.constructor | include/co/base/hash/md5.cc:208-216 | a new context has the sixteen bytes of section 3.3 of RFC 1321 for its words, and has counted nothing |
| Md5Digest.DigestOfTheAlphabet | include/co/base/hash/md5.cc:91-299 | the digest of the alphabet is the one that appendix A.5 of RFC 1321 gives |
| Base64.DecodesExactly | include/co/base/hash/base64.cc:64-123 | the decoder accepts exactly the groups with up to two line break characters after each, the last perhaps padded, and gives exactly their bytes |
| Base64.RoundTrip | include/co/base/hash/base64.cc:25-123 | decoding gives back every non-empty input, with any line breaks of up to two characters after each group |
| Base64.EncodeDecodes | include/co/base/hash/base64.cc:25-62 | the encoding has four characters for every three bytes begun, and decodes to its input |
| Base64.FirstLetters | include/co/base/hash/base64.cc:3-4 | the first sixteen letters of the alphabet in order |
| Base64.SecondLetters | include/co/base/hash/base64.cc:3-4 | the next sixteen |
| Base64.ThirdLetters | include/co/base/hash/base64.cc:3-4 | the next sixteen |
| Base64.LastLetters | include/co/base/hash/base64.cc:3-4 | the last sixteen |
| Base64.ValueIsPlace | include/co/base/hash/base64.cc:6-23 | a byte has a value if and only if it is a letter of the alphabet, and that is its place |
| Base64.GroupIsNumber | include/co/base/hash/base64.cc:36-44 | four letters stand for the 24 bits of three bytes, the first the highest |
| Base64.LastGroupIsNumber | include/co/base/hash/base64.cc:46-59 | one or two bytes at the end are filled up with zero bits and with `=` |
| Base64.Base64Encode | include/co/base/hash/base64.cc:25-62 | the loop fills a buffer of exactly that size with the encoding |
| Base64.Base64Decode | include/co/base/hash/base64.cc:64-123 | the loop decodes into a buffer of three quarters of the text without writing beyond it; the reads stay inside the text if and only if it is neither empty nor a single line break character, and whatever lies before those two, they are refused |
| FastringRfind.Rfind | include/co/base/fastring.cc:79-103 | returns the last occurrence, or none iff there is none; the index never underflows |
| FastringRfind.LastIsUnique | include/co/base/fastring.cc:79-103 | no two results satisfy what `rfind` promises |
| FastringRfind.NoMatchIsSkipped | include/co/base/fastring.cc:96-99 | an occurrence before an index lies at least the table's skip before it |
| FastringRfind.SkipTable | include/co/base/fastring.cc:89-90 | the table holds for every byte its first place in the pattern |
| Recency.OrderIsRecency | include/co/base/lru_map.h:33-57 | after any operations there is no key twice, no more than the capacity, and the order is that of last use |
| Recency.EvictsLeastRecentlyUsed | include/co/base/lru_map.h:51-56 | a new key in a full map drops the key used the longest ago and no other |
| Recency.KeysAfter | include/co/base/lru_map.h:33-70 | after an operation an inserted key is there, and of the others only an erased one has gone, or the last one of a full map |
| LruMaps.LruMap.Find | include/co/base/lru_map.h:33-41 | finds the value and moves the key to the front; map, index and list stay in agreement |
| LruMaps.LruMap.Insert | include/co/base/lru_map.h:44-57 | inserts a new key in front and drops the last beyond the capacity; map, index and list stay in agreement |
| LruMaps.LruMap.Erase | include/co/base/lru_map.h:59-70 | takes the key out of all three |
| LruMaps.FormatCache.Dtoa | include/co/base/fast.cc:183-209 | through the cache the text is always what formatting gives; nothing is formatted that the cache has, and it has what was asked for last |
| IntegerText.NatTextByFours | include/co/base/fast.cc:71-144 | the canonical text of a number is that of its ten-thousandth part and four padded digits |
| IntegerText.EntryText | include/co/base/fast.cc:19-34 | as many last digits of a table entry as its first byte says are its canonical text |
| IntegerText.InitTable | include/co/base/fast.cc:13-38 | the loops fill the tables with the pairs of hexadecimal digits and the packed decimal digits |
| IntegerText.U32toa | include/co/base/fast.cc:71-97 | the canonical decimal text of every 32-bit value |
| IntegerText.U64toa | include/co/base/fast.cc:99-144 | the canonical decimal text of every 64-bit value |
| IntegerText.I64toa | include/co/base/fast.h:25-29 | the decimal text of every 64-bit value |
| IntegerText.U64toh | include/co/base/fast.cc:56-69 | the canonical hexadecimal text of every 64-bit value |
| LehmerRandom.Random.Next | include/co/base/random.h:13-23 | the n-th number is the seed times 16385^n modulo 2^31 - 1, and never zero |
| LehmerRandom.ShiftAndAdd | include/co/base/random.h:17-20 | the 32-bit sum does not overflow, and one subtraction reduces it |
| LehmerRandom.NextPermutes | include/co/base/random.h:13-23 | the step permutes 1 to 2^31 - 2, by an explicit inverse of the multiplier |

## Left out

- JsonTheorems.RoundTrip: values hold null, booleans, integers of 32 bits, strings, arrays and objects; a number with a fraction or an exponent is kept as its text, and no claim is made about formatting or rounding doubles.
- Json11Parser.Parse: errors are named by kind; their message texts are not modelled, nor is `parse_multi`.
- CoToJson11.PrintedTextIsRead: integers within 2^53, keys that need no escape, strings whose control bytes are among those the printer escapes, no doubles; for strings the condition is exact (`CoToJson11.StringSurvivesExactly`).
- CoRoundTrip.RoundTrip: strings and keys are C strings without NUL, and keys hold no quote, because keys are printed as they are; no doubles.
- CoParser.FastAtoi: an overflow of the 64-bit accumulator, which is undefined in C++, wraps around here.
- CoParser.ParseFrom: the value that keeps pointing into a moved key buffer is not modelled, nor the reference counts and the raw memory of values, nor the pretty printer.
- CoStandard.ReadsStandardTexts: texts with an escaped quote in a name, at which the parser ends the name; what becomes of them is in `CoAcceptance.ParseTakesExactly`.
- CoAcceptance.ParseTakesExactly: `str::to_double` is any predicate on texts, and a double is kept as its text.
- CoTheorems.KeyBufferSuffices: the four bytes of the reference count are counted but not laid out.
- CoScheduler.Scheduler.constructor: the stack is allocated with the scheduler, where the code does it at the first resumption.
- CoScheduler.Scheduler.Jump: a run is any function of what ran before, its job and its frames; the context switch itself, the main context, registers and pointers from outside into a suspended stack are not modelled. The callback and the scheduler of a coroutine share a union in the code and are apart here.
- CoScheduler.Scheduler.RunTasks: what is added during a round, by its runs or by other threads, is added as each run ends.
- SharedStack.StackSharingIsTransparent: a schedule starts a job only while it is not under way and wakes only suspended coroutines; that the schedulers and the mutex do so is `CoSchedules.SchedulesAreLegal`.
- CoSchedules.SchedulesAreLegal: a wake-up from elsewhere, and a direct resumption, is for a coroutine that is suspended or about to be and is not queued; the hooks and events that send them are not modelled.
- CoMutex.WokenExactlyOnce: wake-ups from elsewhere reach only coroutines that wait elsewhere; `Event` and timed waits are not modelled.
- CoTimers.Timers.CheckTimeout: the clock is a parameter and times are unbounded; the event flag of the coroutines is not modelled, and where a timer goes among others of the same time is left to the caller.
- CoMutex.GrantsInOrder: safety over runs; that schedulers keep taking steps is not claimed.
- DstEngineObjects.DstEngine.ProcessResult: files and pictures are taken to be written; the cover picture, the alarm message and its sending, and the rotation of the saved copy (through a reference to an element already removed) are left out.
- AlarmEngine.EveryAlarmIsFilmedOnce: the judgements at borders and the score of a box are any functions; nothing is claimed about polygons or line crossings, and `cross_line` uses a variable that is never assigned.
- AlarmNames.FilmBearsItsOwnName: the names belong to one engine here; in the code (DstEngine.cpp:41-42) they are variables of the file, which all engines of the process share, so that another engine's alarms can rename a film too.
- Tracker.ChooseIsBestOpenTrail: scores are real numbers, without the rounding of `float`; coordinates do not overflow.
- Md5Block.AnySplitGivesTheMd5: the table of the RFC is written out; that its numbers are sines is not proved.
- Base64.Base64Decode: the byte before a text is any byte, where in C++ reading it is undefined.
- FastringRfind.Rfind: sizes fit 32 bits, and the empty pattern is looked up in a string that has memory.
- LruMaps.LruMap.Find: iterators are values looked up; `swap` is left out. A list node is an object, its links are not.
- LruMaps.FormatCache.Dtoa: formatting a number is any function that may fail.
- IntegerText.I64toa: negating the least 64-bit integer, which is undefined in C++, wraps around here.
- Sockets, polling, hooks, RPC framing, flags, logs, files, decoding and inference engines, checksums and the remaining string helpers.
