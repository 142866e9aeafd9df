# Beauty Study Live: shared study rooms and client timers in Dafny

This project models the collaborative study timer "Beauty Study Live" in two parts.

The first part is the server (`server.js`). Participants register with `user:init` and open study rooms with `room:create`. Others join a room with its invite code, a random text of up to six characters. Inside a room, everyone shares one countdown (`timerState`). Any member can start it, pause it, or report ticks of it. Members also broadcast a presence status. When the last member leaves or disconnects, the room is deleted.

The model covers the following:
- The two in-memory maps, `users` and `rooms`, become the fields of the class `Server.Store`.
- A `StudyRoom` is a class whose `members` and `timerState` its methods update in place.
- Each socket handler is one method. It returns the events it would emit, each tagged with its audience: the sender, the room's group, or every socket. It also states the store it leaves behind.
- The key order of the JavaScript `Map` matters, because `room:join` takes the first matching room. The field `order` models it.

The second part is the browser client (`app.js`):
- the `Timer` class, with start, per-second tick, pause, reset, set and the `mm:ss` display;
- the water counter;
- the task list, with add-after-trim, toggle and delete.

Each class is proved against specification functions on values: `Started`, `Ticked`, `Paused`, `Rewound` and `SetTo` for the client timer, `Joined`, `Without` and `WithStatus` for the members, `Trim`, `Toggled` and `Spliced` for the tasks, and so on. The lemmas next to those functions state what the program promises.

The module `Scenario` replays one session through the handlers' contracts alone. Two users create and join room "Exam Cram". They start its timer and tick it. Then they leave, and the invite code no longer works.

Files:
- `wrappers.dfy`: `Option`.
- `members.dfy`: the member list as values.
- `shared_timer.dfy`: the shared `timerState` transitions.
- `study_room.dfy`: the `StudyRoom` class.
- `store.dfy`: `User`, the events and the `Store` class with the handlers.
- `clock_format.dfy`: the `mm:ss` text.
- `countdown_timer.dfy`: the client `Timer`.
- `trackers.dfy`: water and tasks.
- `scenario.dfy`: the session above.

Points where the program's behaviour may surprise:
- **Invite codes.** Lookup compares codes exactly, so it is case-sensitive (server.js:128).
- **Tick values.** A reported tick value is stored as is, with no clamping to `[0, totalTime]` (server.js:200). `TickIsUnclamped` exhibits this.
- **Code uniqueness.** Nothing checks that invite codes are unique. With two rooms on one code, the room created first wins.
- **Joining a second room.** A user who joins another room is not removed from the previous one.
- **Re-registering.** `user:init` for an existing id replaces the whole record, so `currentRoom` goes back to none.

## Model

| member | source | states |
|---|---|---|
| Members.Find | server.js:55-77 | `members.find` by id: none exactly when the id is absent; otherwise the first index holding that id |
| Members.NewMember | server.js:57-63 | the record of a newcomer carries its id, is idle and has no focus time |
| Members.Joined | server.js:55-68 | addMember's result holds the id, grows by one exactly when the id was absent, and keeps every earlier member's id in place |
| Members.WithStatus | server.js:74-77 | updateMemberStatus keeps length and ids in place, is a no-op for an absent id, and otherwise leaves a member with that id carrying the new status |
| Members.Without | server.js:70-72 | the filtered list is no longer, has no member with the id, and keeps every member with another id and no new one |
| Members.JoinedPresent | server.js:55-67 | addMember for a present id (ids distinct) keeps length, order, ids, names, statuses and focus times; only that member's socketId becomes the new one |
| Members.JoinedAbsent | server.js:56-63 | addMember for an absent id appends exactly one member, idle with focus time 0, at the end |
| Members.JoinedOnce | server.js:55-68 | after addMember the id is present and member ids remain distinct |
| Members.JoinedIdempotent | server.js:55-68 | joining twice with the same id and socket equals joining once, whatever name the second call passes |
| Members.WithoutAt | server.js:70-72 | with distinct ids, removing the id at position k removes exactly that entry and keeps the others in their relative order |
| Members.WithoutAbsent | server.js:70-72 | removing an absent id leaves the list unchanged |
| Members.WithoutDistinct | server.js:70-72 | removeMember keeps member ids distinct |
| Members.WithStatusEffect | server.js:74-77 | updateMemberStatus keeps length and ids, sets the status of the member with the id, changes no other member, and is a no-op for an absent id |
| Rooms.StudyRoom.constructor | server.js:39-53 | a new room has the creator as sole member (idle, focus time 0, no socket) and the default timer |
| Rooms.StudyRoom.AddMember | server.js:55-68 | the member list becomes `Joined(old members, ...)`, the id is present, ids remain distinct, the timer is untouched |
| Rooms.StudyRoom.RemoveMember | server.js:70-72 | the member list becomes `Without(old members, id)`, the id is gone, ids remain distinct, the timer is untouched |
| Rooms.StudyRoom.UpdateMemberStatus | server.js:74-77 | the member list becomes `WithStatus(old members, id, status)`, ids remain distinct, the timer is untouched |
| SharedTimer.Phase | server.js:170 | the phase is the given one, and work when none is given |
| SharedTimer.Duration | server.js:171 | the total is the given duration unless it is missing or zero, otherwise 1800 s for work and 300 s for a break; it is never zero |
| SharedTimer.Started | server.js:169-172 | timer:start leaves the timer running with a full phase of non-zero length, in the phase and with the length chosen above |
| SharedTimer.Paused | server.js:188 | pausing clears `isRunning` and changes no other field |
| SharedTimer.Ticked | server.js:200-207 | a tick stores the report, keeps phase and total, is `Finished` exactly when the report is <= 0, and leaves the timer running only when it ran and the report is positive |
| SharedTimer.AfterTicks | server.js:200-207 | after a series of reports the last one is the remaining time, phase and total are kept, and the timer runs only when it ran before and every report was positive |
| SharedTimer.InitialTimerFacts | server.js:45-50 | a new room's timer is stopped, in a work phase, with 1800 of 1800 seconds left |
| SharedTimer.TicksNeverResume | server.js:200-207 | no sequence of tick reports restarts a stopped timer |
| SharedTimer.StartThenTick | server.js:169-206 | when the phase length is above 1 s, a start followed by a report of one second less is an `Update` with the timer still running |
| SharedTimer.ShortStartFinishes | server.js:169-204 | when the phase length is 1 s or less (a duration of 1, or a negative one, is accepted), the report of one second less is already `Finished` and stops the timer |
| SharedTimer.FinishIsFinal | server.js:202-204 | a report of 0 finishes and stops; a later tick without a new start does not resume |
| SharedTimer.TickIsUnclamped | server.js:200 | one report can push a full timer below zero or above its total |
| SharedTimer.TicksWithinBounds | server.js:200-207 | reports within `[0, total]` keep `timeRemaining` within `[0, total]` and the total unchanged |
| Server.Erase | server.js:248-251 | `Map.delete(k)` on the key order: the keys left are the others, and duplicate-freedom is kept |
| Server.EraseAt | server.js:248-251 | deleting a present key drops exactly its position and keeps the other keys in order |
| Server.EraseAbsent | server.js:248-251 | deleting an absent key leaves the order unchanged |
| Server.Store.constructor | server.js:21-22 | the server starts with no users and no rooms |
| Server.Store.ListingOf | server.js:230 | the first n values of `rooms.values()`, in insertion order |
| Server.Store.Listing | server.js:230 | every live room's current value, in insertion order, as many as there are rooms |
| Server.Store.Separate | server.js:22 | distinct keys of `rooms` hold distinct room objects |
| Server.Store.OnlyRoomChanged | server.js:22 | changing one room's fields keeps the store valid and changes only that room's view |
| Server.Store.RoomAdded | server.js:102 | `rooms.set(k, room)` keeps the store valid; a new key goes last in the order, an existing key keeps its place |
| Server.Store.Appended | server.js:102 | appending a fresh key to a duplicate-free enumeration of the keys enumerates the keys plus it |
| Server.Store.RoomDeleted | server.js:248-251 | `rooms.delete(k)` keeps the store valid and removes exactly k's view |
| Server.Store.InitUser | server.js:85-93 | the id is the supplied one unless it is missing or empty, else the generated one. The entry under it becomes a fresh idle user with this socket and no room. Rooms are untouched, and `user:ready` goes to the sender |
| Server.Store.ListRooms | server.js:229-231 | the loop builds the listing of every live room in creation order, and the one event is `room:list` with it, to the sender; nothing changes |
| Server.Store.DistinctCard | server.js:230 | a duplicate-free enumeration of the keys is as long as the key set is large |
| Server.Store.CreateRoom | server.js:96-118 | an unregistered caller faults with nothing changed. Otherwise a fresh room with the creator as sole member and the default timer is stored under the new id, and the caller's `currentRoom` is set. `room:created` goes to the sender and the full listing to everyone |
| Server.Store.FindByCode | server.js:126-132 | the loop stops at the first room, in insertion order, whose code equals the given one exactly; it runs to the end exactly when no live room has that code |
| Server.Store.FirstUnique | server.js:126-132 | at most one position is the first match |
| Server.Store.JoinRoom | server.js:121-159 | no matching code: an error to the sender and nothing changed. Unregistered caller: a fault. Otherwise the user's `currentRoom` becomes the first matching room and its members become `Joined(...)`. `room:joined` goes to the sender and `member:joined` to the room |
| Server.Store.StartTimer | server.js:162-178 | a user with no live room changes nothing. Otherwise that room's timer becomes `Started(duration, isWorkSession)` and `timer:started` goes to the room, naming the starter |
| Server.Store.PauseTimer | server.js:181-190 | a user with no live room changes nothing; otherwise only that room's `isRunning` is cleared and `timer:paused` goes to the room |
| Server.Store.Tick | server.js:193-208 | a user with no live room changes nothing; otherwise that room's timer becomes `Ticked(timer, reported)`, and `timer:finished` or `timer:update` goes to the room accordingly |
| Server.Store.UpdateStatus | server.js:211-226 | a user with no live room changes nothing; otherwise the user's status and the room's member list (`WithStatus`) are updated and `member:status` goes to the room |
| Server.Store.Dropped | server.js:239-251 | the effect of a leave from live room k: `member:left` to the room with the remaining members; the room is deleted from the map and the order exactly when none remain, otherwise only its member list changes |
| Server.Store.DropMember | server.js:239-251 | the member is filtered out and `member:left` goes to the room with the remaining list. The room is deleted (map and order) exactly when that list is empty; otherwise only its members change |
| Server.Store.LeaveRoom | server.js:234-255 | an unregistered caller faults with nothing changed. A registered caller always ends with no current room. If the current room was live, the member is dropped as in `DropMember` |
| Server.Store.Disconnect | server.js:258-275 | the user entry is always removed. A live, non-empty current room id drops the member as in `DropMember`. Anything else emits nothing and leaves the rooms alone |
| ClockFormat.IntToString | app.js:25 | `toString` of an integer: a non-empty text that starts with a minus sign exactly for a negative number and is otherwise digits |
| ClockFormat.PadStart2 | app.js:25 | `padStart(2, '0')`: the text grows to two characters by leading zeros and a longer text is kept |
| ClockFormat.JsRem | app.js:25 | JavaScript's `%` by a positive number: smaller than the divisor in size, with the sign of the dividend, and differing from the dividend by a multiple of the divisor, which fixes the value (for example -5 for -5 % 60) |
| ClockFormat.Display | app.js:25 | the text is two fields of at least two characters around a colon |
| ClockFormat.DigitChar | app.js:25 | the character of a decimal digit |
| ClockFormat.NatToString | app.js:25 | `toString` of a non-negative integer is a non-empty string of digits, one digit exactly below 10 |
| ClockFormat.NatToStringValue | app.js:25 | the numeral `toString` writes denotes the number |
| ClockFormat.LeadingZero | app.js:25 | `padStart` with '0' keeps a numeral's value |
| ClockFormat.PadStart2Value | app.js:25 | padding a numeral gives at least two digits with the same value, exactly two for one or two digits |
| ClockFormat.MinutesField | app.js:25 | the minutes field is at least two digits that denote the minutes |
| ClockFormat.SecondsField | app.js:25 | the seconds field of a remainder by 60 is exactly two digits that denote it |
| ClockFormat.DisplayRoundTrip | app.js:25 | for remaining >= 0, the text is minutes (at least two digits), a colon and exactly two second digits denoting 0..59; reading it back gives the remaining time |
| ClockFormat.DisplayNegative | app.js:25 | with JavaScript's truncating `%`, -5 s displays as "-1:-5" |
| CountdownTimer.Started | app.js:13-21 | start leaves the timer running with both times unchanged; on a running timer it changes nothing, and on a stopped one the new interval holds the callback exactly when one is given |
| CountdownTimer.Ticked | app.js:15-19 | one firing takes a second off a positive time and keeps running; at or below zero it stops with the time kept, and it completes exactly then when a callback was given |
| CountdownTimer.Paused | app.js:22 | pause clears the interval and changes nothing else |
| CountdownTimer.Rewound | app.js:23 | reset makes the remaining time the initial one and changes nothing else |
| CountdownTimer.SetTo | app.js:24 | set makes the value both the initial and the remaining time and keeps a live interval |
| CountdownTimer.Run | app.js:13-21 | after any number of firings `initial` is unchanged, the callback has run at most once and only if given, and then the interval is gone; a stopped timer does not move |
| CountdownTimer.StartedWhileRunning | app.js:14 | start on a running timer changes nothing, so there is never a second interval |
| CountdownTimer.TickedPositive | app.js:15-19 | a tick at a positive time takes exactly one second off and keeps running |
| CountdownTimer.TickedAtZero | app.js:16 | a tick at or below zero stops the timer, keeps the time, and invokes the callback exactly when one was given |
| CountdownTimer.PausedFacts | app.js:22 | on a stopped timer pause is a no-op |
| CountdownTimer.SetThenReset | app.js:23-24 | set makes `initial` and `remaining` the value, reset after any number of ticks restores it, and reset sets `remaining` to `initial` and keeps `initial` unchanged |
| CountdownTimer.RunDown | app.js:13-21 | from r >= 0, after n firings the time is max(r - n, 0). The timer runs while n <= r. The callback has run once, if given, after n > r |
| CountdownTimer.StaysNonNegative | app.js:13-24 | from a non-negative time no operation goes below zero |
| CountdownTimer.Timer.constructor | app.js:7-12 | a new timer holds the given seconds as `initial` and `remaining` and is not running |
| CountdownTimer.Timer.Default | app.js:7-12 | a timer built without a length holds 1500 s as `initial` and `remaining` and is not running |
| CountdownTimer.Timer.Display | app.js:25 | for a non-negative time the text shown is at least two minute digits, a colon and two second digits denoting 0..59, and it reads back as that time |
| CountdownTimer.Timer.Start | app.js:13-21 | the state becomes `Started(old state, cb given)` |
| CountdownTimer.Timer.Tick | app.js:15-19 | the state and the completion become `Ticked(old state)` |
| CountdownTimer.Timer.Pause | app.js:22 | the state becomes `Paused(old state)` |
| CountdownTimer.Timer.Reset | app.js:23 | the state becomes `Rewound(old state)` |
| CountdownTimer.Timer.Set | app.js:24 | the state becomes `SetTo(old state, seconds)` |
| Trackers.WaterCounter.constructor | app.js:58 | the counter starts at the stored value |
| Trackers.WaterCounter.Increment | app.js:60 | adds exactly one |
| Trackers.WaterCounter.Decrement | app.js:61 | takes one off only when positive, so a non-negative count stays non-negative |
| Trackers.IsSpace | app.js:90 | the characters trim removes include space, tab, line feed, carriage return and no-break space, and exclude digits and Latin letters |
| Trackers.SkipStart | app.js:90 | the end of the leading white space: everything before it from i is white space, and the character there is not |
| Trackers.SkipEnd | app.js:90 | the start of the trailing white space within a range: everything after it is white space, and the character before it is not |
| Trackers.Trim | app.js:90 | `trim()` yields a slice of the text with only white space cut off on either side, and it neither starts nor ends with white space |
| Trackers.TrimEmpty | app.js:90 | a text trims to nothing exactly when it is all white space |
| Trackers.TrimIdempotent | app.js:90 | trimming twice equals trimming once |
| Trackers.Toggled | app.js:87 | the done button flips one task's flag, keeps its text and due date, and keeps every other task |
| Trackers.Spliced | app.js:86 | `splice(i, 1)` on a present index removes exactly that one task (one fewer, same tasks otherwise); past the end it removes nothing |
| Trackers.ToggledFacts | app.js:87 | toggling the same task twice restores the list |
| Trackers.SplicedFacts | app.js:86 | `splice(i, 1)` shortens the list by one and shifts the later tasks down by one |
| Trackers.TaskList.constructor | app.js:80 | the list starts as the stored one |
| Trackers.TaskList.Add | app.js:90 | a task is added exactly when the text is not all white space, and then it is the trimmed text with the due date and `done == false`, appended at the end; otherwise nothing changes |
| Trackers.TaskList.Toggle | app.js:87 | the list becomes `Toggled(old list, i)` |
| Trackers.TaskList.Delete | app.js:86 | the list becomes `Spliced(old list, i)`; an index past the end removes nothing |
| Scenario.Open | server.js:85-118 | two registrations and a room creation leave one room whose sole member is the creator |
| Scenario.BobJoins | server.js:121-159 | joining with the room's code makes both users members, in join order |
| Scenario.StartAndTick | server.js:162-208 | a 1500 s start and a report of 1499 leave the shared timer running at 1499 of 1500 |
| Scenario.BobDisconnects | server.js:258-275 | a disconnect leaves the other member alone in the room and forgets the user |
| Scenario.AliceLeaves | server.js:234-255 | the last member's leave deletes the room, after which its code is refused |
| Scenario.ExamCram | server.js:85-275 | the whole session ends with the newcomer's join refused as an invalid invite code |

## Left out

- The transport is not modelled. This covers Express, CORS, static files, the HTTP server and `listen` (server.js:2-18, 278-280), and socket.io's rooms and fan-out (`socket.join`, `socket.leave`, `io.to(...).emit`). Each broadcast is an `Emit` value naming its audience.
- `socket.userId`, `socket.id`, `uuidv4()` and the `Math.random` invite code are foreign and nondeterministic. They are parameters of the handlers and of the room constructor.
- `createdAt`, the `console.log` calls and the unused `sessions` map have no bearing on the state machine.
- Event payloads carry whole room values (`RoomView`). The source picks a subset of fields for `room:created` and `room:joined` objects, and serialises `createdAt`.
- Handlers receive typed payloads. Non-numeric durations or tick values, and non-boolean phases, are not modelled. Only JavaScript falsiness of a missing or empty id and of a zero duration is modelled.
- JavaScript numbers are modelled as unbounded integers. Among the behaviours lost are these. A fractional tick report such as 0.5 is `timer:update` in the source (server.js:202). A fractional duration such as 90.5 is truthy and becomes both `totalTime` and `timeRemaining` (server.js:171-172). An `Infinity` duration or tick is kept as it is. A `NaN` duration is falsy and takes the phase default (server.js:171). Integers beyond 2^53 lose precision in the source. The model has none of these values.
- The timer lengths passed to `Timer`, `set` and the water counter are integers for the same reason; fractional or `NaN` lengths from `parseInt` are not modelled.
- The exception thrown when a handler reads a field of an unregistered user is modelled as one `Fault` event with no state change. It is thrown before any mutation, and the model does not describe the socket.io behaviour that follows.
- Client `Timer`: real time, `setInterval` and `clearInterval` are reduced to a `running` flag and an explicit `Tick`. The callback is a flag recording whether `start` received one, and `Tick` reports whether it was invoked. `updateDisplay` is the pure `Display` text, with the DOM write left out.
- CountdownTimer.Timer.Tick: requires a running timer, because a cleared interval never fires.
- The DOM, rendering, `alert`, `localStorage` and `JSON` (app.js:58-62, 80-91) are left out. The counter and the task list start from a given stored value.
- Trackers.TaskList.Toggle: requires an index inside the list, because the toggle buttons are rendered one per task; the TypeError an out-of-range index would raise is not modelled. Indices are numbers, not the `dataset.i` strings.
- The workout picker (app.js:64-74), the exam checklist (app.js:93-104) and the theme toggle (app.js:107-109) are outside the modelled core.
