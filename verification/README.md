# Daily-reminder bot, modelled in Dafny

A model of the reminder bot in `index.js`. It is a chat webhook that reads a
command from each inbound message, and a once-a-minute job that sends the stored
reminders whose time has come. The two share one in-memory list of jobs,
`schedules`.

- **Webhook** (`index.js:24-47`). The body is lower-cased; a missing body counts
  as `""`. A body that starts with `schedule` is split on single spaces. The second
  token becomes the job's `time` and tokens three onward, re-joined with a space,
  become its `message`. The job `{to, time, message}` is appended and a
  confirmation is sent back. Any other body gets the usage text back and stores
  nothing. Nothing is validated: `schedulefoo` also takes the schedule path, and a
  bare `schedule` stores a job with no time and an empty message.
- **Tick** (`index.js:50-59`). Given the current `HH:MM` string, it walks the jobs
  in order and sends `job.message` to `job.to` for every job whose time equals
  that string.
- **sendMessage** (`index.js:62-68`). Modelled as appending `(to, body)` to an
  outbox.

Files:

- `wrappers.dfy`: `Option`, which stands for a value JavaScript leaves `undefined`.
- `tokens.dfy`: the string built-ins the handler uses. These are `toLowerCase`,
  `startsWith`, and `split`/`join` with a one-character separator, with the
  round-trip lemmas between split and join.
- `commands.dfy`: how a body is read. It covers normalisation, time and message
  extraction and the two reply texts, with lemmas on what time and message are
  in terms of the spaces in the body.
- `reminder_bot.dfy`: the `Job` and `Outgoing` records and the class `Bot`. `Bot`
  has the fields `schedules` and `outbox` and the methods `Webhook`, `Tick` and
  `SendMessage`. The file also holds `Due`, the sends a tick makes, and
  `MatchIndices`, an independent description of which jobs are due.

`index.js` handles only the `schedule` command and keeps its jobs in memory.
The mongoose schemas in `models/` (with `createdAt` and `pinHash`) are never used
by it.

## Model

| member | source | states |
|---|---|---|
| `Tokens.Lower` | index.js:26 | lower-casing keeps the length, maps each character on its own, and leaves no capital letter |
| `Tokens.LowerConcat` | index.js:26 | lower-casing a concatenation is the concatenation of the lower-cased pieces, so each part of the body is stored as its own lower-cased form |
| `Tokens.StartsWith` | index.js:30 | `startsWith` holds exactly when the string is the prefix followed by the rest of the string |
| `Tokens.Split` | index.js:31 | `split(" ")` always yields at least one piece, and no piece contains the separator |
| `Tokens.SplitCount` | index.js:31-32 | a split has one more piece than the string has separators, so `parts[1]` exists exactly when the body has a space |
| `Tokens.Join` | index.js:33 | `join(" ")` of a non-empty list starts with its first piece and ends with its last; `JoinCount`, `JoinSplit` and `SplitJoin` pin down the rest |
| `Tokens.JoinCount` | index.js:33 | joining n separator-free pieces puts exactly n - 1 separators into the result |
| `Tokens.JoinSplitSuffix` | index.js:31-33 | re-joining the pieces of a split from any piece onward gives a tail end of the original string |
| `Tokens.JoinSplit` | index.js:31-33 | joining the pieces of a split gives back the original string |
| `Tokens.SplitJoin` | index.js:31-33 | splitting a join of at least one separator-free piece gives back exactly those pieces |
| `Commands.Normalize` | index.js:26 | the text the handler works on has no capitals; a missing body reads as `""`; a present body reads as its lower-cased form, and the empty-body guard changes nothing |
| `Commands.KeywordIgnoresCase` | index.js:26-30 | the `schedule` branch is taken exactly when the body's first eight characters, lower-cased, spell `schedule` |
| `Commands.NormalizeIgnoresCase` | index.js:26 | two bodies equal up to case are read identically |
| `Commands.ScheduleTime` | index.js:31-32 | `parts[1]` is missing exactly when the text has no space, and a present time holds no space; `TwoSpaces`, `OneSpace` and `NoSpace` say which substring it is |
| `Commands.ScheduleMessage` | index.js:31-33 | `parts.slice(2).join(" ")` is always a tail end of the text; `TwoSpaces`, `OneSpace`, `NoSpace` and `FewSpacesEmptyMessage` say which tail end |
| `Commands.TwoSpaces` | index.js:31-33 | with a first space at i and a second at j, the time is the text between them and the message is the exact text after j |
| `Commands.OneSpace` | index.js:31-33 | with exactly one space, the time is everything after it and the message is empty |
| `Commands.NoSpace` | index.js:31-33 | with no space, the time is missing and the message is empty |
| `Commands.FewSpacesEmptyMessage` | index.js:31-33 | fewer than two spaces give an empty message |
| `Commands.WellFormedCommand` | index.js:30-33 | `schedule <time> <message>` with a space-free time reads back as exactly that time and message, spaces in the message included |
| `Commands.UnvalidatedCommands` | index.js:30-33 | `schedulefoo` takes the schedule path, and it and a bare `schedule` yield a missing time and an empty message |
| `Commands.ExtractedLower` | index.js:26-33 | the stored time and message hold no capitals, because they are cut from the lower-cased body |
| `Commands.Confirmation` | index.js:41 | the confirmation reply contains the message, and contains the time as the template literal prints it (`undefined` when missing) |
| `ReminderBot.Due` | index.js:54-58 | the sends of one tick are never more than the stored jobs; `DueIsMatchingJobs` and `NothingDueNothingSent` say exactly which sends they are |
| `ReminderBot.MatchIndices` | index.js:54-55 | lists the positions of the due jobs: strictly increasing, only jobs whose time equals the tick's, and every such job |
| `ReminderBot.DueIsMatchingJobs` | index.js:54-58 | a tick sends exactly one message per due job, in stored order: the k-th send is the k-th due job's message to its recipient, and nothing else is sent |
| `ReminderBot.NothingDueNothingSent` | index.js:54-58 | a tick sends nothing exactly when no stored job is due |
| `ReminderBot.DueAppend` | index.js:35-39 | jobs appended later do not change what the earlier jobs send; a tick's sends over an extended list are the old sends followed by the new jobs' sends |
| `ReminderBot.ScheduledCommandIsDelivered` | index.js:26-58 | the job stored for the body `schedule <t> <m>`, typed in any case and with a space-free t, takes the schedule branch. A tick at the lower-cased t sends the lower-cased m to the sender, after all earlier due jobs |
| `ReminderBot.Bot.constructor` | index.js:21 | the bot starts with no jobs and an empty outbox |
| `ReminderBot.Bot.SendMessage` | index.js:62-68 | appends one message to the given recipient with the given text to the outbox |
| `ReminderBot.Bot.Webhook` | index.js:24-47 | exactly one reply, to the sender. A keyword body appends exactly one job (sender, extracted time, extracted message) and replies with its confirmation. Any other body, a missing one included, leaves the jobs unchanged and replies with the usage text. Earlier jobs are kept unchanged and in order. Stored text stays free of capitals |
| `ReminderBot.Bot.Tick` | index.js:50-59 | leaves the jobs unchanged and appends to the outbox exactly the sends of `Due`, i.e. one per due job in stored order |

## Left out

- HTTP framing: the Express app, body parsing, `res.sendStatus(200)`, `app.listen`, environment lookups and the console log (index.js:1-18, 28, 46, 71-72).
- The Twilio client. `sendMessage` appends to an outbox. The promise it returns, delivery failures and the sender number are not modelled.
- node-cron and the wall clock. `new Date().toTimeString().slice(0, 5)` is replaced by the `now` parameter of `Tick`.
- `Tokens.Lower`: models `toLowerCase` only on the ASCII capitals `A`-`Z`. Other letters are left unchanged, so the Unicode case mapping is not modelled.
- A missing `From` field. The sender is always a string here, whereas the source would store and reply to `undefined`.
- Concurrency between webhook calls and ticks. Each call is one atomic step.
- `models/Reminder.js` and `models/User.js` only declare storage schemas that `index.js` never uses. Persistence, `createdAt` and `pinHash` are not part of this model.
