# ResumeBuilder: the record store and the study page, in Dafny

This project models two self-contained parts of the ResumeBuilder portfolio
application and proves properties of them.

- **The in-memory record store** (`MemStorage`, `server/storage.ts`).
  - It holds users, contact messages and study sessions. Each is a map from
    integer id to record, with its own id counter that starts at 1.
  - Creates hand out the counter's value and advance only their own counter.
  - Creates normalise fields: a missing or empty `subject` is stored as null,
    and a missing or `false` `completed` as `false`.
  - The two list operations return every record, newest `createdAt` first.
  - `updateStudySession` shallow-merges a partial record into the stored one,
    and reports a missing id as absent without changing anything.
  - Modelled as the class `Storage.MemStorage`. Its methods update the maps
    and counters in place. `Valid()` states the store's invariant: each
    collection holds exactly the ids its counter has issued.
- **The study page's timer and card reordering**
  (`client/src/pages/study.tsx`).
  - The timer is a state machine over `timerType`, `customDuration`,
    `timeLeft`, `isRunning`, `isBreak` and `pomodoroRound`.
    - Each handler is a transition function in `StudyTimer`.
    - The class `StudyPage.StudyPage` holds the component state. Each timer
      handler method is proved to produce exactly the state that the
      matching `StudyTimer` function gives; the drag handlers state the new
      card state directly.
  - `formatTime` renders seconds as `MM:SS` (`TimeFormat`).
  - `getTotalDuration` is `StudyTimer.TotalDuration`.
  - `handleDrop` moves the dragged card to the target's position with two
    `splice` calls (`CardOrder`).

Modelling choices:

- **List order.** The store's lists are read from a JavaScript `Map`, which
  iterates in insertion order. Ids come from a counter and a `set` on an
  existing key keeps its position, so that order is ascending key (the id
  handed out at creation, even where a later patch changed a session's `id`
  field). `Array.prototype.sort` is stable, so records with equal timestamps
  keep ascending-key order. `TimeOrder` sorts keys by that total order, and proves
  that any two arrangements sorted by it are the same sequence.
- **Clock.** The clock (`new Date()`) is the parameter `now`, in milliseconds.
- **Merge.** A partial study session is `SessionPatch`, with every field
  optional. `Merge` is the shallow merge `{...session, ...updates}`.
- **Integers.** JavaScript's `%` truncates toward zero, which `JsRemainder`
  models. `Math.floor(seconds / 60)` is Dafny's `/`, which rounds down for a
  positive divisor.
- **Splice.** `Splice` clamps its start and delete count as
  `Array.prototype.splice` does.

Two behaviours are kept as written:

- `createContactMessage` stores `subject || null`, so an empty subject is
  stored as null, just like an absent one.
- The shallow merge in `updateStudySession` can overwrite `id` and
  `createdAt`, because the route passes the request body through unchecked
  (`server/routes.ts:84-85`). A session's `id` field can therefore differ
  from its key, so `Valid()` ties id to key only for users and messages.

## Model

| member | source | states |
|---|---|---|
| Storage.MemStorage.Valid | ResumeBuilder/server/storage.ts:14-29 | the store invariant: every counter is at least 1, each collection holds exactly the ids 1 to counter - 1, and users and messages are stored under their own id |
| Storage.MemStorage.constructor | ResumeBuilder/server/storage.ts:22-29 | all three collections start empty and all three counters start at 1 |
| Storage.MemStorage.GetUser | ResumeBuilder/server/storage.ts:31-33 | a user is found exactly for the ids 1 to currentUserId - 1 that were handed out, and the user found carries that id |
| Storage.MemStorage.GetUserByUsername | ResumeBuilder/server/storage.ts:35-39 | absent exactly when no stored user has the name; otherwise the stored user with that name and the lowest id (the first in Map order); changes nothing |
| Storage.MemStorage.CreateUser | ResumeBuilder/server/storage.ts:41-46 | the new user is the input plus the counter's old value as id, an id not used before; only users and the user counter change; afterwards GetUser on the new id returns the new user |
| Storage.StoredSubject | ResumeBuilder/server/storage.ts:54 | a subject is kept exactly when it is present and non-empty, and then unchanged |
| Storage.MemStorage.CreateContactMessage | ResumeBuilder/server/storage.ts:48-60 | name, email and message are copied; the subject is normalised; createdAt is the current time; the id is fresh; only the messages and their counter change |
| Storage.MemStorage.GetContactMessages | ResumeBuilder/server/storage.ts:62-65 | returns every stored message exactly once (one per key), ordered by createdAt descending and, for equal timestamps, by ascending id; changes nothing |
| Storage.StoredCompleted | ResumeBuilder/server/storage.ts:74 | a new session is completed exactly when the input says completed = true |
| Storage.MemStorage.CreateStudySession | ResumeBuilder/server/storage.ts:67-79 | timerType, duration and theme are copied; completed is normalised; createdAt is the current time; the id is fresh; only the sessions and their counter change |
| Storage.MemStorage.GetStudySessions | ResumeBuilder/server/storage.ts:81-84 | returns every stored session exactly once, ordered by createdAt descending and, for equal timestamps, by ascending key; changes nothing |
| Storage.MemStorage.UpdateStudySession | ResumeBuilder/server/storage.ts:86-93 | a missing id gives absent and no change; otherwise the shallow merge is stored under the same key and returned, and no other session and no counter changes |
| Storage.Merge | ResumeBuilder/server/storage.ts:90 | the shallow merge: each field present in the patch takes the patch value, each absent field keeps the stored value, for all six fields including id and createdAt |
| Storage.MergeNoChanges | ResumeBuilder/server/storage.ts:90 | merging an empty patch leaves the session as it was |
| Storage.MergeIdempotent | ResumeBuilder/server/storage.ts:90 | merging the same patch twice equals merging it once |
| Storage.MergeThen | ResumeBuilder/server/storage.ts:90 | two successive merges equal one merge in which, field by field, the later value wins |
| Storage.MergeCompletedOnly | ResumeBuilder/server/storage.ts:90 | a patch carrying only completed changes completed and keeps every other field, id and createdAt included |
| Storage.IssuedCount | ResumeBuilder/server/storage.ts:42 | a collection whose keys are exactly the ids 1 to next - 1 holds next - 1 records, so ids are dense and never reused |
| Storage.MessagesListed | ResumeBuilder/server/storage.ts:62-65 | the messages read out under the sorted keys: as many as stored, each stored message once, each under its own id, ordered by createdAt descending with ascending ids on ties |
| Storage.SessionsListed | ResumeBuilder/server/storage.ts:81-84 | the sessions read out under the sorted keys: as many as stored, each stored session once, ordered by createdAt descending with ascending keys on ties |
| Storage.NewestFirstKeys | ResumeBuilder/server/storage.ts:63-64 | the keys of a collection in sorted order: a duplicate-free list of exactly the stored keys, newest first, with equal timestamps in ascending key order |
| TimeOrder.InsertionOrder | ResumeBuilder/server/storage.ts:63 | the iteration order of a Map filled by the id counter: 1, 2, ..., next - 1 |
| TimeOrder.Insert | ResumeBuilder/server/storage.ts:64 | inserting a key into a newest-first list keeps it newest-first and adds exactly that key |
| TimeOrder.Sort | ResumeBuilder/server/storage.ts:63-64 | the result is a permutation of the keys and is newest-first |
| TimeOrder.NewestFirstUnique | ResumeBuilder/server/storage.ts:63-64 | two newest-first permutations of the same keys are equal, so every stable descending sort gives Sort's result |
| TimeOrder.Lookup | ResumeBuilder/server/storage.ts:63 | the values stored under the keys, position by position, each of them a value of the map |
| StudyTimer.Valid | ResumeBuilder/client/src/pages/study.tsx:129-134 | the timer invariant: time left is not negative, rounds count from 1, the custom duration is a slider value (5 to 120), and a pomodoro never has more time left than its phase length |
| StudyTimer.BreakMinutes | ResumeBuilder/client/src/pages/study.tsx:174 | the break is 15 minutes exactly in rounds divisible by 4, and 5 minutes otherwise |
| StudyTimer.TotalDuration | ResumeBuilder/client/src/pages/study.tsx:244-249 | work phases last 25 minutes; breaks last 15 or 5 minutes according to the round; a regular timer lasts the custom duration; the length is positive for every slider value |
| StudyTimer.Tick | ResumeBuilder/client/src/pages/study.tsx:147-158 | a running timer with time left loses exactly one second within the same phase; at zero the timer completes; a paused timer with time left is unchanged; the invariant StudyTimer.Valid is kept (time left never negative, and never above the phase length for a pomodoro) |
| StudyTimer.Complete | ResumeBuilder/client/src/pages/study.tsx:167-196 | the timer stops; a pomodoro work phase becomes a full-length break of the same round, and a break becomes the next round's full work phase; a regular timer only stops |
| StudyTimer.Start | ResumeBuilder/client/src/pages/study.tsx:198-200 | only isRunning changes, and it becomes true |
| StudyTimer.Pause | ResumeBuilder/client/src/pages/study.tsx:202-204 | only isRunning changes, and it becomes false |
| StudyTimer.Restart | ResumeBuilder/client/src/pages/study.tsx:206-229 | the common result of reset and type change: stopped, work phase, round 1, time left equal to the full length of the phase |
| StudyTimer.Reset | ResumeBuilder/client/src/pages/study.tsx:206-216 | a reset restarts the current kind of timer |
| StudyTimer.ChangeType | ResumeBuilder/client/src/pages/study.tsx:218-229 | a type change restarts with the new kind of timer |
| StudyTimer.ChangeCustomDuration | ResumeBuilder/client/src/pages/study.tsx:231-236 | the new duration is always kept; a stopped regular timer is also set to the new full length; otherwise nothing else changes; a pomodoro phase length is unaffected |
| StudyTimer.CountDown | ResumeBuilder/client/src/pages/study.tsx:148-151 | n ticks of a running timer with at least n seconds left take exactly n seconds off |
| StudyTimer.WorkPhaseEndsInBreak | ResumeBuilder/client/src/pages/study.tsx:167-179 | a running work phase, left alone, ends one tick after reaching zero in a stopped break of the same round and of the length that round calls for |
| StudyTimer.BreakPhaseEndsInNextRound | ResumeBuilder/client/src/pages/study.tsx:180-189 | a running break, left alone, ends in a stopped 25-minute work phase of the next round |
| StudyTimer.InitialValid | ResumeBuilder/client/src/pages/study.tsx:129-134 | the initial state satisfies the invariant and shows a full 25-minute work phase |
| TimeFormat.NatToString | ResumeBuilder/client/src/pages/study.tsx:241 | toString of a count gives decimal digits with no leading zero: one digit below 10, two digits below 100, a nonzero first digit from 1 on |
| TimeFormat.NatToStringValue | ResumeBuilder/client/src/pages/study.tsx:241 | the digits toString produces denote the number |
| TimeFormat.PadStart | ResumeBuilder/client/src/pages/study.tsx:241 | padStart gives the longer of the string and the width, ends with the string and is filled in front |
| TimeFormat.PadTwoValue | ResumeBuilder/client/src/pages/study.tsx:241 | zero-padding a numeral to two characters keeps its value |
| TimeFormat.IntToString | ResumeBuilder/client/src/pages/study.tsx:241 | toString of an integer: for a count that is not negative, decimal digits denoting it, with a nonzero first digit from 1 on; for a negative one, a minus sign followed by the digits of its size |
| TimeFormat.JsRemainder | ResumeBuilder/client/src/pages/study.tsx:240 | the remainder of JavaScript's %: it differs from the dividend by a multiple of the divisor, is smaller than the divisor in size, and has the sign of the dividend |
| TimeFormat.MinutesField | ResumeBuilder/client/src/pages/study.tsx:239-241 | for a count of seconds that is not negative, the minutes field has at least two digits and denotes seconds / 60; it is exactly two digits or starts with a nonzero digit, so only the padding adds a zero |
| TimeFormat.SecondsField | ResumeBuilder/client/src/pages/study.tsx:240-241 | for a count of seconds that is not negative, the seconds field has exactly two digits and denotes seconds % 60 |
| TimeFormat.FormatTime | ResumeBuilder/client/src/pages/study.tsx:238-242 | for a count of seconds that is not negative, the result is MM:SS with at least two minute digits, two second digits below 60, and minutes * 60 + seconds equal to the input; it is exactly five characters or its first minute digit is nonzero |
| TimeFormat.ParseTime | ResumeBuilder/client/src/pages/study.tsx:241 | the inverse reading of a display: the value of the minute digits times 60 plus the second digits, or absent when the text is not a display |
| TimeFormat.FormatThenParse | ResumeBuilder/client/src/pages/study.tsx:238-242 | reading a formatted time back gives the original number of seconds |
| CardOrder.IndexOf | ResumeBuilder/client/src/pages/study.tsx:281-282 | -1 exactly when the card is absent; otherwise the position of its first occurrence |
| CardOrder.SpliceStart | ResumeBuilder/client/src/pages/study.tsx:285-286 | the splice start is clamped into the array, and a start inside the array is kept |
| CardOrder.Splice | ResumeBuilder/client/src/pages/study.tsx:285-286 | splice, as the array it leaves behind: with a start and a count inside the array, exactly that slice is replaced by the items |
| CardOrder.RemoveAt | ResumeBuilder/client/src/pages/study.tsx:285 | removing one element shortens the sequence by one |
| CardOrder.MoveCard | ResumeBuilder/client/src/pages/study.tsx:280-286 | the two splices give a permutation of the same length with the moved card at the target's old position; all other cards stay in their relative order |
| CardOrder.DropOnCard | ResumeBuilder/client/src/pages/study.tsx:280-286 | dropping a card on a different card of a list of distinct cards: both are found, and the result is a permutation of the same length with distinct cards, the dragged card at the target's old index, and the other cards in their relative order |
| CardOrder.MoveKeepsDistinct | ResumeBuilder/client/src/pages/study.tsx:280-286 | moving a card never duplicates a card |
| StudyPage.StudyPage.Valid | ResumeBuilder/client/src/pages/study.tsx:129-139 | the page invariant: the timer satisfies StudyTimer.Valid, the card order is a permutation of the three cards without repeats, and a card being dragged is one of them |
| StudyPage.StudyPage.constructor | ResumeBuilder/client/src/pages/study.tsx:129-139 | the page starts with a stopped 25-minute pomodoro in round 1, the default card order and nothing being dragged |
| StudyPage.StudyPage.TimerEffect | ResumeBuilder/client/src/pages/study.tsx:147-158 | one run of the timer effect updates the state exactly as StudyTimer.Tick does, and keeps the page invariant |
| StudyPage.StudyPage.HandleTimerComplete | ResumeBuilder/client/src/pages/study.tsx:167-196 | the state after completion is StudyTimer.Complete of the state before |
| StudyPage.StudyPage.StartTimer | ResumeBuilder/client/src/pages/study.tsx:198-200 | the new state is StudyTimer.Start of the old state |
| StudyPage.StudyPage.PauseTimer | ResumeBuilder/client/src/pages/study.tsx:202-204 | the new state is StudyTimer.Pause of the old state |
| StudyPage.StudyPage.ResetTimer | ResumeBuilder/client/src/pages/study.tsx:206-216 | the new state is StudyTimer.Reset of the old state |
| StudyPage.StudyPage.HandleTimerTypeChange | ResumeBuilder/client/src/pages/study.tsx:218-229 | the new state is StudyTimer.ChangeType of the old state |
| StudyPage.StudyPage.HandleCustomDurationChange | ResumeBuilder/client/src/pages/study.tsx:231-236 | the new state is StudyTimer.ChangeCustomDuration of the old state |
| StudyPage.StudyPage.HandleDragStart | ResumeBuilder/client/src/pages/study.tsx:262-265 | the picked-up card is remembered |
| StudyPage.StudyPage.HandleDrop | ResumeBuilder/client/src/pages/study.tsx:272-290 | with nothing dragged, or a card dropped on itself, the order is unchanged; otherwise the new order is a permutation of the same length, the dragged card sits at the target's old index and the other cards keep their relative order; the drag ends either way and the cards stay distinct |
| StudyPage.StudyPage.HandleDragEnd | ResumeBuilder/client/src/pages/study.tsx:292-294 | the drag ends |

## Left out

- Asynchrony: the `async`/`Promise` wrappers of the store add no behaviour and are left out.
- The module-level singleton `storage` (ResumeBuilder/server/storage.ts:96) is left out.
- The clock: `new Date()` is the caller-supplied parameter `now`. Timestamps are whole milliseconds.
- Field types: records are typed. A patch field of the wrong JSON type is not modelled (for example a string `createdAt`, which would make the sort throw).
- Extra patch keys: the merge at `server/storage.ts:90` copies every key of the request body into the stored and returned session, including keys that are not session fields. `SessionPatch` has only the six session fields, so such extra keys are not modelled.
- JavaScript numbers are doubles. The model uses unbounded integers, so rounding of large values is not modelled, and neither is `toString` switching to exponent notation from 1e21 on.
- Ids from `parseInt`: a `NaN` id is not modelled.
- `@shared/schema` is not part of this model: record and input shapes follow the store's code, and the two enumerations come from the page.
- Username uniqueness is modelled as written: `CreateUser` does no duplicate check, and `GetUserByUsername` returns the first match in id order.
- The HTTP routes (`routes.ts`), the home page and the floating navigation are not part of this model.
- `getProgress` (floating-point percentage) is left out. Its denominator `TotalDuration` is proved positive.
- `getNewQuote` (randomness) is left out.
- Toasts, themes and images, the volume slider, the Spotify embed, `handleDragOver` and the drag effect flags are left out.
- Timer scheduling: `setInterval`/`clearInterval` and React's effect scheduling are not modelled. One run of the effect is one step (`TimerEffect`, `StudyTimer.Tick`), and a tick is one second.
- React applies a handler's state updates together after the handler returns. The model applies each handler's updates as one step; it does not model the intermediate renders React skips.
- StudyTimer.Tick: the invariant bounds time left by the phase length only for a pomodoro. A regular timer whose custom duration is lowered while it runs keeps its larger time left, because the handler sets time left only for a stopped timer; the page disables the slider while the timer runs, but the model allows the call.
- StudyPage.StudyPage.HandleCustomDurationChange: the slider's step of 5 is not modelled. Only its range of 5 to 120 minutes is required. The slider is disabled while the timer runs, but the handler's own running check is modelled for every call.
- StudyPage.StudyPage.HandleDrop: the target is required to be one of the rendered cards, as every drop target is.
- StudyPage.StudyPage.HandleDrop: the falsy test on `draggedCard` is modelled as "no card". An empty card name, which that test would also treat as none, cannot occur because the three card names are not empty.
- TimeFormat.FormatTime: for a negative count the result is produced as the code would, but no contract is stated for it, because the timer never shows a negative count.
