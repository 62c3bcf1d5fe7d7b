# Live polling session coordinator, in Dafny

This project models the core of a live classroom polling tool. A teacher opens
multiple-choice polls with a time limit. Students join under a display name and
answer once each. The teacher can kick a student, who may then not rejoin under
the same name for 20 seconds.

The model has two parts:

- **The server's session coordinator** (`server/index.js`). It is one
  process-wide state: the current poll or none, the list of closed polls, the
  roster (socket id to student name) and the kick timestamps (name to time). The
  handlers `student_joined`, `new_poll` and its timer callback,
  `submit_answer`, `get_current_poll_state`, `get_student_list`,
  `get_past_polls`, `kick_student` and `disconnect` change it.
  `Server.Session` is a class with those four variables as fields and one
  method per handler. Every method states the whole new state. Time is the
  parameter `now`. The poll timer's callback is the method `ClosePoll`, which
  the environment may call at any moment. Outgoing messages are appended to the
  field `outbox`, and who receives them (everyone or one socket) is recorded.
- **The teacher page's logic** (`client/src/pages/Teacher.jsx`). This covers the
  option-list edits, the validation and normalisation applied before a poll is
  sent, and the per-poll tally shown for past polls.

Files:

- `dict.dfy`, module `Dict`: a JavaScript plain object with string keys.
  It is an association list in key-insertion order. Writing an existing key
  changes its value in place, writing a new key appends it, and `delete`
  removes it. The order matters: `kick_student` walks the roster in this order,
  and the tally's keys follow it.
- `results.dfy`, module `Results`: the tally `getResults`. There is a
  specification function `Tally`, the loop method `CountVotes`, and lemmas
  about exactness and the total.
- `server.dfy`, module `Server`: the `Session` class.
- `teacher.dfy`, module `Teacher`: `String.prototype.trim`, the option
  normalisation, `sendPoll`, `addOption`, `handleOptionChange` and the page's
  `getResults`.
- `protocol.dfy`, `wrappers.dfy`: the `new_poll` payload and `Option`.
- `scenarios.dfy`, module `Scenarios`: whole sessions played through the
  handlers. They cover a kick followed by a rejoin, a poll answered and closed,
  a poll overwritten before its timer fires, and late joiners.

Behaviour of the code worth knowing:

- The timer callback has no generation check. It closes whatever poll is
  current when it fires. When the timer of a poll that was overwritten is due
  first (for example, with equal durations), it closes the newer poll early,
  and the newer poll's own timer then finds no poll
  (`Scenarios.OverwrittenPoll`). Otherwise the newer poll closes on its own
  timer and the old timer finds no poll.
- The server does not validate poll data. Only the teacher page refuses an
  empty question or fewer than two options (`Teacher.SendPoll`).
- A kick timestamp is never removed. The delete at `server/index.js:58` is
  guarded by the same condition as the refusal just before it, so it cannot
  run. The cooldown still ends, because the refusal compares times.
- "Already answered" means "holds a truthy answer". A stored empty-string
  answer can therefore be replaced.
- The counts of a tally add up to exactly the number of answers that match
  some option, and so never to more than the number of answers
  (`Results.TallySum`).

## Model

| member | source | states |
|---|---|---|
| Dict.IndexOf | server/index.js:93 | the position found is the first entry with the key, or the end when no entry has it |
| Dict.IndexOfValue | server/index.js:129-130 | the position found is the first roster entry, in insertion order, whose name matches, or the end when none does |
| Dict.Get | server/index.js:63 | reading a key gives undefined exactly when no entry has that key, and otherwise a value stored under it |
| Dict.Set | server/index.js:97 | writing an existing key keeps the object's size; writing a new key appends exactly one entry at the end |
| Dict.Remove | server/index.js:142 | delete keeps every entry with another key and drops every entry with that key |
| Dict.SetInPlace | server/index.js:97 | writing a key that is present overwrites its entry where it stands: every entry keeps its position and only that key's value changes |
| Dict.GetSet | server/index.js:60 | after `roster[socketId] = name` that socket reads `name` and every other key reads as before |
| Dict.GetRemove | server/index.js:142 | after the delete the socket reads undefined and every other socket reads as before |
| Dict.RemoveAppend | server/index.js:142 | deleting from an object split anywhere deletes from both parts and keeps the survivors of the first part in front |
| Dict.RemoveAround | server/index.js:142 | an entry that survives a delete keeps the survivors of the entries before it in front of it and those after it behind it, so the roster order is kept |
| Dict.RemoveIdempotent | server/index.js:140-144 | deleting the same socket twice leaves the same roster as deleting it once |
| Dict.RemoveAbsent | server/index.js:142 | deleting a socket that is not in the roster changes nothing |
| Dict.RemovePresentLength | server/index.js:142 | deleting a present socket removes exactly one roster entry |
| Dict.RemoveKeepsDistinct | server/index.js:142 | the roster keeps distinct keys after a delete |
| Results.CountIsMultiplicity | server/index.js:38-41 | the number of answers equal to an option is that option's multiplicity among the answers, so at most the number of answers |
| Results.Dedup | server/index.js:35-37 | zeroing a bucket per option yields each option once, and exactly the options |
| Results.TallyShape | server/index.js:33-44 | the tally has distinct keys, exactly the options, each holding the number of answers exactly equal to it |
| Results.TallyGet | server/index.js:35-42 | every option has a bucket holding its exact count, even when zero; an answer that is no option has no bucket |
| Results.TallySum | server/index.js:38-42 | the counts add up to the number of answers that match some option, so to at most the number of answers |
| Results.ZeroStep | server/index.js:35-37 | one more option adds a zero bucket unless that option already has one |
| Results.VoteStep | server/index.js:38-42 | one more answer increments the bucket it names, if there is one, and no other bucket |
| Results.CountVotes | server/index.js:33-44 | the two loops of getResults compute exactly the tally |
| Server.Session.constructor | server/index.js:23-26 | the server starts with no poll, no history, an empty roster and no kicks |
| Server.Session.BroadcastStudentList | server/index.js:28-31 | the roster's names, in insertion order, are broadcast to everyone |
| Server.Session.StudentJoined | server/index.js:49-66 | a name kicked less than 20000 ms ago is refused with kicked and a disconnect, and nothing else changes; otherwise the socket is bound to the name, the roster is broadcast, the ack is called, and the open poll is sent to the joiner only if they hold no truthy answer in it; the kick map never changes |
| Server.Session.NewPoll | server/index.js:68-75 | the current poll becomes the given question, options and duration with no answers, the old poll is dropped without being archived, and the new one is broadcast |
| Server.Session.ClosePoll | server/index.js:76-89 | whatever poll is current is appended to the history with a copy of its answers, its final tally, answers and the history are broadcast, and it is cleared; with no poll nothing changes |
| Server.Session.SubmitAnswer | server/index.js:92-102 | with no poll, or when the name already holds a truthy answer, nothing changes; otherwise answers[name] is written, nothing else changes, and the live tally and answers are broadcast |
| Server.Session.GetCurrentPollState | server/index.js:104-110 | only the asking socket gets the open poll, its tally and its answers; with no poll nothing is sent |
| Server.Session.GetStudentList | server/index.js:112-115 | only the asking socket gets the roster's names |
| Server.Session.GetPastPolls | server/index.js:117-119 | only the asking socket gets the whole history |
| Server.Session.KickStudent | server/index.js:128-138 | only the first roster entry whose name matches is sent kicked and disconnected, and only then is the kick time recorded; the roster is unchanged |
| Server.Session.Disconnect | server/index.js:140-144 | only that socket's roster entry is removed, and the roster is broadcast; the roster shrinks by exactly one entry when the socket was in it and is unchanged otherwise |
| Teacher.LeadingSpace | client/src/pages/Teacher.jsx:63 | trim's white-space prefix is as long as possible |
| Teacher.TrailingSpace | client/src/pages/Teacher.jsx:63 | trim's white-space suffix is as long as possible |
| Teacher.Trim | client/src/pages/Teacher.jsx:63-64 | a trimmed string neither starts nor ends with white space |
| Teacher.TrimSlice | client/src/pages/Teacher.jsx:63 | trim gives the slice of the string that starts after its longest white-space prefix, and all that follows the slice is white space |
| Teacher.TrimEmpty | client/src/pages/Teacher.jsx:63-64 | trim gives the empty string exactly when the string is all white space, which is when `filter(Boolean)` drops it |
| Teacher.TrimTrimmed | client/src/pages/Teacher.jsx:63 | trimming a string without surrounding white space changes nothing |
| Teacher.TrimIdempotent | client/src/pages/Teacher.jsx:63 | trimming twice is trimming once |
| Teacher.Normalise | client/src/pages/Teacher.jsx:63 | every option kept is non-empty and trimmed, and there are no more of them than fields |
| Teacher.KeptIncreasing | client/src/pages/Teacher.jsx:63 | the fields that survive are taken in their original order |
| Teacher.KeptExactly | client/src/pages/Teacher.jsx:63 | a field survives exactly when it is not blank after trimming |
| Teacher.KeptAt | client/src/pages/Teacher.jsx:63 | the same for one field, by induction on the fields before the last |
| Teacher.NormaliseKeepsOrder | client/src/pages/Teacher.jsx:63 | the k-th option sent is the trimmed k-th surviving field |
| Teacher.NormaliseIdempotent | client/src/pages/Teacher.jsx:63 | options that are already trimmed and non-empty pass through unchanged |
| Teacher.AddOption | client/src/pages/Teacher.jsx:58-60 | exactly one empty field is appended and the earlier fields are unchanged |
| Teacher.AddOptionSendsNothing | client/src/pages/Teacher.jsx:58-64 | an added blank field never changes the options that are sent |
| Teacher.HandleOptionChange | client/src/pages/Teacher.jsx:52-56 | the list keeps its length, the edited position holds the new value, and every other position is unchanged |
| Teacher.SendPoll | client/src/pages/Teacher.jsx:62-75 | nothing is emitted, and the form is kept, exactly when the trimmed question is empty or fewer than two options remain; otherwise the question sent is the trimmed question and the options sent are the normalised fields (so in their original relative order, by `NormaliseKeepsOrder`); the question is non-empty, at least two options are sent, all trimmed and non-empty, the duration is kept, and the form is cleared |
| Teacher.SendCleanForm | client/src/pages/Teacher.jsx:62-70 | a form that is already clean is sent exactly as it stands |
| Teacher.GetResults | client/src/pages/Teacher.jsx:43-50 | the page's tally equals the server's, and a poll without answers gives a zero for every option |
| Scenarios.KickThenRejoin | server/index.js:49-57 | after a kick and the disconnect, the name is off the roster; a rejoin under it is refused before 20000 ms and accepted from then on |
| Scenarios.ColorPoll | server/index.js:92-97 | with two students' answers and a repeated answer ignored, closing archives both first answers and tallies one vote per option |
| Scenarios.ColorAnswers | server/index.js:92-97 | the answers object grows by one entry per first answer, and a repeated answer finds its name already holding a truthy answer |
| Scenarios.ColorTally | server/index.js:33-44 | the tally of answers Red and Blue over options Red and Blue is one vote each |
| Scenarios.OverwrittenPoll | server/index.js:68-89 | an overwritten poll's answers are lost; the first timer to fire closes the newer poll with no answers, and the next one finds no poll |
| Scenarios.LateJoiners | server/index.js:63-65 | a rejoining student who already answered is not sent the poll again, and a newcomer is |

## Left out

- Transport: Express, Socket.IO, CORS and `server.listen` (`server/index.js:1-21`, `147-150`). Broadcasts are recorded in `outbox`; their delivery is not modelled.
- Real time and scheduling. `Date.now()` is the parameter `now`. The `setTimeout` of `new_poll` is the separate method `ClosePoll`, which the environment may call at any time, so `duration * 1000` is not modelled. The interleaving of timers and handlers on the event loop is not modelled; each handler runs to completion.
- Forced disconnects (`socket.disconnect()`, `server/index.js:55`, `134`) appear as a `Disconnected` event. Socket.IO runs the socket's `disconnect` listener (`server/index.js:140-144`) before `socket.disconnect()` returns, so the roster delete and the `student_list` broadcast happen inside the `kick_student` handler and inside the refusal branch of `student_joined`. The model splits that one synchronous step into two calls: `KickStudent` or `StudentJoined`, then `Disconnect`. The contracts saying that `KickStudent` leaves the roster unchanged and that a refused `StudentJoined` changes nothing else hold only under that split; `Scenarios.KickThenRejoin` plays both calls.
- The `ack` callback of `student_joined` is the flag `hasAck` and an `Acknowledged` event.
- The chat relay (`server/index.js:121-126`) and `client/src/components/ChatBox.jsx`. It only stamps a time and broadcasts, and keeps no state.
- `client/src/pages/Student.jsx`, `client/src/pages/Landing.jsx` and `client/src/theme.js`. These hold UI state, interval timers, navigation and styling.
- `console.log`, React rendering and `alert`. The teacher page's form state is the value `Teacher.Form`, and `sendPoll` returns the next form instead of calling the state setters.
- Payloads are modelled as strings and integers. A name or answer that is not a string is not modelled, and neither are fields of `new_poll` beyond question, options and duration.
- JavaScript prototype keys: a name, option or answer such as `"toString"` or `"__proto__"` reads inherited properties. The model uses plain string-keyed objects.
- The kick timestamp's truthiness is modelled as `!= 0`. `Date.now()` is never 0.
- Results.Tally: its key order is the order in which options first occur. JavaScript lists integer-like keys such as `"1"` or `"42"` first, in ascending numeric order, and the model does not reproduce that. The counts themselves are not affected.
- Server.Poll answers: a student name that is integer-like, such as `"7"`, is listed first by JavaScript in the copy made on close, in `Object.values` and in the `poll_answers_detailed` payload. The model keeps insertion order. The counts and the already-answered check are unaffected.
- Dict: the same caveat applies to the roster order that `kick_student` walks. Socket.IO socket ids are not integer-like.
- Teacher.HandleOptionChange: requires an index inside the list. The page only passes indexes of rendered fields. JavaScript would extend the array for any other index.
- Aliasing: a closed poll shares its `options` array with the poll it came from. That array is never mutated, so the model uses values.
