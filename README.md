# Giveaway lifecycle of the disbot `Giveaway` cog, in Dafny

This project models the giveaway feature of a Discord bot, `cogs/giveaway.py`.
The cog holds at most one open giveaway (`active_giveaway`). It keeps the most
recently decided one (`last_giveaway`) so that a winner can be redrawn. It also
holds a countdown task (`_timer_task`) that ends the open giveaway when time runs
out. Five operations drive it:

- an admin starts a giveaway;
- verified members join it with a button;
- the countdown or an admin ends it, and winners are drawn;
- an admin cancels it;
- an admin rerolls one new winner from the last giveaway.

Files, one module each:

- `wrappers.dfy` (`Wrappers`): `Option` and `Result`.
- `winners.dfy` (`Winners`): `pick_winners`. The participant set is listed,
  then `random.sample` runs on that list. The random source is an explicit
  argument `rolls`, the index it picks at each step.
- `lifecycle.dfy` (`Lifecycle`): the cog's state as a value
  `State(active, last, timerArmed)`, and one pure step function per operation.
  Each step function's contract ties every refusal, and success, to its exact
  condition in the source's order, and states the new state. The end command
  is split in two at the point where it suspends on its reply: `EndAcceptStep`,
  then `_end_giveaway` (`EndStep`). Every step except these two halves is
  proved to keep the invariant `Valid`. The halves can break it while the end
  command is suspended.
- `properties.dfy` (`Properties`): properties that span several operations:
  - end is idempotent;
  - the countdown after a manual end decides nothing;
  - rerolls can reach every participant;
  - repeated joins add exactly the distinct clickers;
  - an accounting law over arbitrary runs of events;
  - what happens when a cancel, a second end command or a new start runs
    while an accepted end command waits on its reply;
  - scenarios: a giveaway with two entrants, one nobody joins, one cancelled.
- `manager.dfy` (`Manager`): the cog as a class `GiveawayManager`. Its fields
  `active`, `last` and `timerArmed` are updated in place. Each method is proved
  to make exactly the transition of its step function. The file also holds the
  loop that turns winner ids into mentions.

Inputs the model takes as parameters:

- `now`: the current time, in whole seconds since 1970-01-01 UTC.
- `callerRoles` and `userRoles`: the role sets that Discord reports.
- `liveChannels`: the channels `bot.get_channel` still finds.
- `members`: the users `guild.get_member` still finds.
- `messageId`: the id of the posted announcement.
- `rolls`: the random choices.

The admin gate is `is_admin` from `config.py`. The verified-role id and the two
admin role ids are the constants in `config.py`.

Behaviour of the code that the model follows:

- There is no status field. "Open" means the record is in `active`. "Decided"
  means it is in `last`.
- `_end_giveaway` does not cancel the countdown. The end command cancels it
  before calling `_end_giveaway`. The countdown is the running task itself.
- When the giveaway's channel can no longer be found, `_end_giveaway` still
  moves the record into `last`. It then returns before drawing any winner. The
  model reports this as `ChannelGone`.
- Join first requires the verified role (`VERIFY_ROLE_ID`). Then it checks the
  giveaway's required role, then duplicates.
- Every command is refused first when the caller is not an admin.
- Durations are whole minutes: `end_time = now + 60 * duration_minutes`.
- A start whose end time would fall after 9999-12-31 23:59:59 UTC raises
  `OverflowError` at line 203, before any record is opened. The model reports
  this as the refusal `EndTimeOverflow` and leaves the state unchanged.
- The end command checks `active`, cancels the countdown, and then suspends on
  its reply (line 295) before `_end_giveaway` runs (line 296). Anything that
  runs in that gap is seen by `_end_giveaway`. A cancel or a second end command
  in the gap leaves it nothing to decide. After a cancel and a new start in the
  gap, it ends the new giveaway and leaves that giveaway's countdown pending
  with nothing open.

## Model

| member | source | states |
|---|---|---|
| `Winners.ListOf` | cogs/giveaway.py:99 | `list(participants)` holds every participant exactly once and nothing else |
| `Winners.PickWinners` | cogs/giveaway.py:98-100 | the winners number `min(count, n)` for `n` participants, are all participants, and none appears twice |
| `Winners.SampleSound` | cogs/giveaway.py:100 | a sample only holds entries of the pool, and none twice when the pool has none twice |
| `Winners.SampleReaches` | cogs/giveaway.py:100 | every duplicate-free selection of `min(k, n)` entries of a pool of `n` is drawn by some choices of the random source |
| `Winners.PickWinnersReaches` | cogs/giveaway.py:98-100 | converse of the bounds: every duplicate-free selection of `min(count, n)` for `n` participants can be the winners |
| `Lifecycle.StartStep` | cogs/giveaway.py:185-224 | refusals in order: not admin, already running, duration under one minute, fewer than one winner, end time past year 9999 (the `OverflowError` of line 203); the start succeeds iff none applies; a refusal leaves the state alone; success opens a record with no participants, `endTime = now + 60*minutes`, the given winner count, required role, prize, host, channel and message id, arms the countdown, keeps `last`, and keeps `Valid` |
| `Lifecycle.JoinStep` | cogs/giveaway.py:16-42 | the click is accepted iff a giveaway is open, the user holds the verified role, holds the required role if one is set, and has not joined; each of the four refusals holds iff its check is the first to fail, in that order, and changes nothing; success adds exactly the user (count grows by one) and changes nothing else |
| `Lifecycle.DrawFor` | cogs/giveaway.py:242-252 | no draw when the channel is gone; otherwise no winners when nobody joined, else `min(winnerCount, n)` distinct participants for `n` participants, so between 1 and `winnerCount` |
| `Lifecycle.EndStep` | cogs/giveaway.py:234-240 | with nothing open, nothing happens; otherwise the open record moves into `last`, `active` is cleared, and the decision carries that record and its draw |
| `Lifecycle.TimerStep` | cogs/giveaway.py:228-230 | a countdown that is not pending decides nothing; a pending one stops being pending and runs the end sequence, deciding the open record into `last` and keeping `Valid` |
| `Lifecycle.EndAcceptStep` | cogs/giveaway.py:283-295 | refused when not admin, else when nothing is open, with the state unchanged; accepted iff an admin ends an open giveaway, and then only the countdown is cancelled: the record stays open |
| `Lifecycle.EndCommandStep` | cogs/giveaway.py:283-296 | refused when not admin, else when nothing is open, with the state unchanged; accepted iff an admin ends an open giveaway, and then the countdown is cancelled and the open record is decided into `last`, keeping `Valid` |
| `Lifecycle.CancelStep` | cogs/giveaway.py:301-314 | `last` is never modified; refused when not admin, else when nothing is open; succeeds iff an admin cancels an open giveaway, and then the open record is returned, `active` cleared and the countdown cancelled |
| `Lifecycle.RerollOutcome` | cogs/giveaway.py:336-351 | refused in order: not admin, no last giveaway, last giveaway without participants; succeeds iff none applies, and then the one winner is a participant of the last giveaway |
| `Properties.EndIdempotent` | cogs/giveaway.py:234-240 | a second `_end_giveaway` right after the first decides nothing and changes nothing |
| `Properties.TimerAfterManualEndDecidesNothing` | cogs/giveaway.py:292-296 | after an accepted manual end, the countdown (cancelled) and a stray end sequence both decide nothing |
| `Properties.ManualEndAfterTimerRefused` | cogs/giveaway.py:288-290 | after the countdown decided, the end command is refused with "no active giveaway" and joins are refused too |
| `Properties.DecidedWinnersBounds` | cogs/giveaway.py:246-252 | a manual end of a giveaway with participants yields 1 to `winnerCount` distinct winners, all participants |
| `Properties.RerollReachesEveryone` | cogs/giveaway.py:345-351 | every participant of the last giveaway can be the reroll winner: the draw is from the full pool |
| `Properties.RerollMayRepeatAWinner` | cogs/giveaway.py:350-351 | after a manual end, a reroll can name a winner just drawn |
| `Properties.JoinAllAddsClickers` | cogs/giveaway.py:38-42 | eligible clicks add exactly the set of distinct clickers; repeated clicks add nobody; `last` and the countdown are untouched |
| `Properties.RunAccountsForEveryGiveaway` | cogs/giveaway.py:189-314 | over any sequence of commands, clicks, countdowns and end commands suspended on their reply (line 295) and resumed later: decided + cancelled + still open = started + open at first, and records stay those of successful starts |
| `Properties.RunKeepsValid` | cogs/giveaway.py:189-314 | over any sequence of handlers that each run to completion, `Valid` holds throughout |
| `Properties.DecidedAtMostOnce` | cogs/giveaway.py:228-296 | without a new start, any interleaving of countdowns, end commands and suspended end commands decides at most once, from any state |
| `Properties.GiftCardScenario` | cogs/giveaway.py:177-296 | start, two joins, manual end: one winner among the two, the record becomes `last`, a later countdown decides nothing |
| `Properties.NobodyJoinedScenario` | cogs/giveaway.py:246-250 | a three-winner giveaway nobody joined, ended by the countdown, is decided with no winners and becomes `last` |
| `Properties.CancelScenario` | cogs/giveaway.py:301-343 | cancelling the only giveaway returns the cog to its initial state, and a reroll is then refused with "no previous giveaway" |
| `Properties.TwoEndCommandsDecideOnce` | cogs/giveaway.py:234-240 | two end commands accepted before either resumes: the first `_end_giveaway` decides the giveaway, the second finds nothing open and decides nothing |
| `Properties.CancelWhileEndWaits` | cogs/giveaway.py:292-314 | a cancel while an accepted end command waits on its reply succeeds; the resumed `_end_giveaway` then decides nothing and `last` is untouched |
| `Properties.WaitingEndTakesNextGiveaway` | cogs/giveaway.py:224-296 | after a cancel and a new start in that gap, the resumed `_end_giveaway` decides the new giveaway and leaves its countdown pending with nothing open, which breaks `Valid` |
| `Manager.WinnerMentions` | cogs/giveaway.py:253-256 | one mention per winner id, in order, naming the member when the guild still knows the user and the raw id otherwise |
| `Manager.GiveawayManager.constructor` | cogs/giveaway.py:104-108 | a new cog has nothing open, no history and no countdown |
| `Manager.GiveawayManager.Start` | cogs/giveaway.py:177-224 | makes exactly the `StartStep` transition, and keeps `Valid` when it held before |
| `Manager.GiveawayManager.Join` | cogs/giveaway.py:16-42 | makes exactly the `JoinStep` transition, and keeps `Valid` when it held before |
| `Manager.GiveawayManager.EndGiveaway` | cogs/giveaway.py:234-256 | makes exactly the `EndStep` transition; mentions are produced for the drawn winners only |
| `Manager.GiveawayManager.TimerFires` | cogs/giveaway.py:228-230 | makes exactly the `TimerStep` transition, and keeps `Valid` when it held before |
| `Manager.GiveawayManager.AcceptEnd` | cogs/giveaway.py:283-295 | makes exactly the `EndAcceptStep` transition |
| `Manager.GiveawayManager.EndCommand` | cogs/giveaway.py:283-296 | `AcceptEnd` followed by `EndGiveaway`: makes exactly the `EndCommandStep` transition, and keeps `Valid` when it held before |
| `Manager.GiveawayManager.Cancel` | cogs/giveaway.py:301-314 | makes exactly the `CancelStep` transition, and keeps `Valid` when it held before |
| `Manager.GiveawayManager.Reroll` | cogs/giveaway.py:336-351 | changes nothing and returns `RerollOutcome`: on success, a participant of the last giveaway |
| `Manager.JoinAndCancelWhileEndWaits` | cogs/giveaway.py:283-314 | with the class: while an accepted end command waits on its reply, a member's join is accepted and an admin's cancel returns the record holding that member; the resumed `_end_giveaway` decides nothing |
| `Manager.EndRace` | cogs/giveaway.py:224-240 | with the class: one member joins, an admin ends the giveaway and the member wins; the countdown firing afterwards decides nothing |

## Left out

- The embed builders (`build_active_embed`, `build_ended_embed`, `build_cancelled_embed`) and the guild icon: presentation only.
- All Discord I/O: replies, sending, fetching and editing messages, and disabling the button. A failure there (`discord.NotFound`) does not affect the state.
- The announcement text: the model returns the decision and the mentions instead.
- `setup_giveaway`: it finds or creates a channel through the Discord API and keeps no state.
- `cog_load` and `cog_unload`: they register the button view and cancel the countdown on unload. This is extension lifecycle, outside the giveaway rules.
- Scheduling: `create_task` and `asyncio.sleep` become the `timerArmed` flag and an explicit `TimerFires` step. The time at which the countdown fires is not tied to `endTime`.
- Start is one atomic step. The source awaits between opening the record (line 205) and recording the message id and arming the countdown (lines 222-224). Interleavings inside that gap are not modelled. If an end command's `_end_giveaway` runs inside it, line 222 raises and no countdown is armed. If an end command is accepted inside it but resumes only after line 224, its cancel (lines 292-293) ran before the countdown existed. That countdown then outlives its giveaway, which is the state `Valid` excludes. After the next start overwrites `_timer_task`, it can end that giveaway before its end time.
- `Properties.RunKeepsValid` covers only runs whose handlers each run to completion. Once an end command is suspended on its reply (line 295), `Valid` can fail (`WaitingEndTakesNextGiveaway`). For those runs the model proves the accounting and the soundness of records (`RunAccountsForEveryGiveaway`), not `Valid`.
- The only suspension modelled is the end command's at line 295. The other handlers run as one step each: their awaits come after their last change to the cog's fields, except start's (see above).
- The class holds a single pending-countdown flag. It cannot represent two live countdown tasks, which the interleavings above can create.
- Exceptions raised by Discord calls: for example, a failed announcement in start leaves the record open without a countdown.
- `Winners.PickWinners` models which selections are possible, not their probability. The model does not capture that `random.sample` draws them uniformly.
- `Winners.PickWinners` takes a non-negative count. The source only passes the validated winner count (at least 1) or 1; `random.sample` would raise on a negative count.
- `Winners.ListOf` lists the set in ascending order, whereas Python's set iteration order is unspecified. `PickWinnersReaches` shows that no selection is lost by this choice.
- Role lookup: `guild.get_role` returns nothing for a deleted role. The source's membership test then fails. The model checks the role id against the user's roles, which gives the same answer because a member only holds existing roles.
- The host is stored as a member object in the source. The model stores the member's id.
- Records are values. In the source, the same dictionary is shared between the local `giveaway` and `last_giveaway` after the end, but nothing mutates it once it has left `active`, so a value loses nothing.
- The other cogs (`oauth`, `ai_chat`, `tickets`, `verification`, `welcome`, `info`, `security`), `bot.py` and `launcher.py` are not part of this model. They translate platform events into API calls and keep no giveaway state.
