/** The giveaway lifecycle of cogs/giveaway.py as pure transitions on the
    cog's state.  The cog keeps three fields: `active_giveaway` (the open
    giveaway, if any), `last_giveaway` (the most recently decided one, kept
    for rerolls) and `_timer_task` (the countdown that ends the open
    giveaway).  A giveaway is "open" while it is the active record and
    "decided" once it has been moved into `last`; the source keeps no other
    status.

    Times are whole seconds since 1970-01-01 UTC; user, role, channel and message ids are
    integers; the caller's role set is an input (it comes from the chat
    platform). */
module Lifecycle {
  import opened Wrappers
  import opened Winners

  /** Role ids from config.py. */
  const AdminRoleId: int := 1472653727935496285
  const StaffRoleId: int := 1471769220759945236
  const VerifyRoleId: int := 1472316348771078275

  /** `is_admin` in config.py: the caller holds the admin or the staff role. */
  predicate IsAdmin(roles: set<int>) {
    AdminRoleId in roles || StaffRoleId in roles
  }

  /** The last whole second Python's `datetime` can hold,
      9999-12-31 23:59:59 UTC; a later end time raises `OverflowError`. */
  const LastSecond: int := 253402300799

  /** One giveaway: the dictionary built by `start_giveaway`.  `host` is the
      id of the member who started it. */
  datatype Record = Record(
    prize: string,
    host: int,
    channel: int,
    messageId: Option<int>,
    endTime: int,
    participants: set<int>,
    winnerCount: nat,
    requiredRole: Option<int>)

  /** The cog's fields; `timerArmed` is true while `_timer_task` is a
      countdown that has neither fired nor been cancelled. */
  datatype State = State(active: Option<Record>, last: Option<Record>, timerArmed: bool)

  /** The state right after the cog is constructed. */
  const Initial := State(None, None, false)

  /** Why a command or a click is turned away: one per reply the source
      sends before returning, and `EndTimeOverflow` for the exception that
      aborts a start whose end time lies past `LastSecond`. */
  datatype Refusal =
    | NotAdmin
    | AlreadyRunning
    | DurationTooShort
    | TooFewWinners
    | EndTimeOverflow
    | NoActiveGiveaway
    | NotVerified
    | MissingRequiredRole
    | AlreadyJoined
    | NoPreviousGiveaway
    | NoParticipants

  /** What the winner draw of `_end_giveaway` produced: nothing when the
      giveaway's channel can no longer be found (the source returns before
      drawing), otherwise the winners, empty when nobody joined. */
  datatype Draw = ChannelGone | Drawn(winners: seq<int>)

  /** The outcome of `_end_giveaway`: nothing when no giveaway is open, or
      the record that was decided together with its draw. */
  datatype Decision = Undecided | Decided(record: Record, draw: Draw)

  /** A record as `start_giveaway` leaves it: a message id, and at least
      one winner to draw. */
  predicate Sound(r: Record) {
    r.winnerCount >= 1 && r.messageId.Some?
  }

  /** The invariant the cog keeps: the countdown is pending exactly while a
      giveaway is open, and every record came out of a successful start. */
  predicate Valid(s: State) {
    && s.timerArmed == s.active.Some?
    && (s.active.Some? ==> Sound(s.active.value))
    && (s.last.Some? ==> Sound(s.last.value))
  }

  function OpenCount(s: State): nat {
    if s.active.Some? then 1 else 0
  }

  // ---------------------------------------------------------------- start

  /** The checks of `start_giveaway`, in the order the source makes them. */
  function StartRefusal(s: State, callerRoles: set<int>, durationMinutes: int, winners: int, now: int)
    : Option<Refusal>
  {
    if !IsAdmin(callerRoles) then Some(NotAdmin)
    else if s.active.Some? then Some(AlreadyRunning)
    else if durationMinutes < 1 then Some(DurationTooShort)
    else if winners < 1 then Some(TooFewWinners)
    else if now + 60 * durationMinutes > LastSecond then Some(EndTimeOverflow)
    else None
  }

  /** `start_giveaway`, with the announcement posted in the same step: its
      id is `messageId`, and `now` is the current time. */
  function StartStep(s: State, callerRoles: set<int>, prize: string, durationMinutes: int, winners: int,
                     requiredRole: Option<int>, host: int, channel: int, now: int, messageId: int)
    : (out: (State, Option<Refusal>))
    ensures out.1 == Some(NotAdmin) <==> !IsAdmin(callerRoles)
    ensures out.1 == Some(AlreadyRunning) <==> IsAdmin(callerRoles) && s.active.Some?
    ensures out.1 == Some(DurationTooShort) <==> IsAdmin(callerRoles) && s.active.None? && durationMinutes < 1
    ensures out.1 == Some(TooFewWinners) <==>
              IsAdmin(callerRoles) && s.active.None? && durationMinutes >= 1 && winners < 1
    ensures out.1 == Some(EndTimeOverflow) <==>
              && IsAdmin(callerRoles) && s.active.None? && durationMinutes >= 1 && winners >= 1
              && now + 60 * durationMinutes > LastSecond
    ensures out.1.None? <==>
              && IsAdmin(callerRoles) && s.active.None? && durationMinutes >= 1 && winners >= 1
              && now + 60 * durationMinutes <= LastSecond
    ensures out.1.Some? ==> out.0 == s
    ensures out.1.None? ==>
              && out.0.last == s.last
              && out.0.timerArmed
              && out.0.active.Some?
              && out.0.active.value.participants == {}
              && out.0.active.value.endTime == now + 60 * durationMinutes
              && out.0.active.value.winnerCount == winners
              && out.0.active.value.requiredRole == requiredRole
              && out.0.active.value.messageId == Some(messageId)
              && out.0.active.value.prize == prize
              && out.0.active.value.host == host
              && out.0.active.value.channel == channel
    ensures Valid(s) ==> Valid(out.0)
  {
    var refusal := StartRefusal(s, callerRoles, durationMinutes, winners, now);
    if refusal.Some? then (s, refusal)
    else
      var giveaway := Record(prize, host, channel, Some(messageId), now + 60 * durationMinutes,
                           {}, winners, requiredRole);
      (State(Some(giveaway), s.last, true), None)
  }

  // ----------------------------------------------------------------- join

  /** The checks of the join button, in the order the source makes them. */
  function JoinRefusal(s: State, user: int, userRoles: set<int>): Option<Refusal> {
    if s.active.None? then Some(NoActiveGiveaway)
    else if VerifyRoleId !in userRoles then Some(NotVerified)
    else if s.active.value.requiredRole.Some? && s.active.value.requiredRole.value !in userRoles
    then Some(MissingRequiredRole)
    else if user in s.active.value.participants then Some(AlreadyJoined)
    else None
  }

  /** `GiveawayJoinView.join_giveaway` for the member `user` holding
      `userRoles`. */
  function JoinStep(s: State, user: int, userRoles: set<int>): (out: (State, Option<Refusal>))
    ensures out.1.None? <==>
              && s.active.Some?
              && VerifyRoleId in userRoles
              && (s.active.value.requiredRole.Some? ==> s.active.value.requiredRole.value in userRoles)
              && user !in s.active.value.participants
    ensures out.1 == Some(NoActiveGiveaway) <==> s.active.None?
    ensures out.1 == Some(NotVerified) <==> s.active.Some? && VerifyRoleId !in userRoles
    ensures out.1 == Some(MissingRequiredRole) <==>
              && s.active.Some? && VerifyRoleId in userRoles
              && s.active.value.requiredRole.Some? && s.active.value.requiredRole.value !in userRoles
    ensures out.1 == Some(AlreadyJoined) <==>
              && s.active.Some? && VerifyRoleId in userRoles
              && (s.active.value.requiredRole.Some? ==> s.active.value.requiredRole.value in userRoles)
              && user in s.active.value.participants
    ensures out.1.Some? ==> out.0 == s
    ensures out.1.None? ==>
              && out.0.last == s.last
              && out.0.timerArmed == s.timerArmed
              && out.0.active == Some(s.active.value.(participants := s.active.value.participants + {user}))
              && |out.0.active.value.participants| == |s.active.value.participants| + 1
    ensures Valid(s) ==> Valid(out.0)
  {
    var refusal := JoinRefusal(s, user, userRoles);
    if refusal.Some? then (s, refusal)
    else
      var giveaway := s.active.value;
      (s.(active := Some(giveaway.(participants := giveaway.participants + {user}))), None)
  }

  // ------------------------------------------------------------------ end

  /** The winner draw of `_end_giveaway` for the record `r`, given the ids of
      the channels the bot can still see. */
  function DrawFor(r: Record, liveChannels: set<int>, rolls: seq<nat>): (d: Draw)
    ensures d.Drawn? <==> r.channel in liveChannels
    ensures d.Drawn? ==> |d.winners| == Min(r.winnerCount, |r.participants|)
    ensures d.Drawn? ==> Distinct(d.winners) && forall x :: x in d.winners ==> x in r.participants
    ensures d.Drawn? && r.participants == {} ==> d.winners == []
    ensures d.Drawn? && r.participants != {} && Sound(r) ==> 1 <= |d.winners| <= r.winnerCount
  {
    if r.channel !in liveChannels then ChannelGone
    else if r.participants == {} then Drawn([])
    else Drawn(PickWinners(r.participants, r.winnerCount, rolls))
  }

  /** `_end_giveaway`: when a giveaway is open, it is moved into `last`
      before anything else happens, so the move stands whatever becomes of
      the draw; when none is open, nothing happens.  The countdown is left
      as it is: both callers settle it first. */
  function EndStep(s: State, liveChannels: set<int>, rolls: seq<nat>): (out: (State, Decision))
    ensures s.active.None? ==> out == (s, Undecided)
    ensures s.active.Some? ==>
              && out.0 == State(None, s.active, s.timerArmed)
              && out.1 == Decided(s.active.value, DrawFor(s.active.value, liveChannels, rolls))
    ensures out.0.active.None?
  {
    if s.active.None? then (s, Undecided)
    else
      var giveaway := s.active.value;
      (State(None, Some(giveaway), s.timerArmed), Decided(giveaway, DrawFor(giveaway, liveChannels, rolls)))
  }

  /** The countdown of `_auto_end` running out: a pending countdown stops
      being pending and runs `_end_giveaway`; a cancelled one never runs. */
  function TimerStep(s: State, liveChannels: set<int>, rolls: seq<nat>): (out: (State, Decision))
    ensures !s.timerArmed ==> out == (s, Undecided)
    ensures s.timerArmed ==> out == EndStep(s.(timerArmed := false), liveChannels, rolls)
    ensures !out.0.timerArmed
    ensures Valid(s) ==> Valid(out.0) && out.0.active.None?
    ensures Valid(s) && s.timerArmed ==> out.1.Decided? && out.1.record == s.active.value && out.0.last == s.active
  {
    if !s.timerArmed then (s, Undecided)
    else EndStep(s.(timerArmed := false), liveChannels, rolls)
  }

  /** The part of `end_giveaway` that runs before it suspends on its reply
      "Ending giveaway...": the checks, and the countdown cancelled.  The
      record is still open afterwards; `_end_giveaway` (`EndStep`) runs only
      once the command resumes. */
  function EndAcceptStep(s: State, callerRoles: set<int>): (out: (State, Option<Refusal>))
    ensures out.1 == Some(NotAdmin) <==> !IsAdmin(callerRoles)
    ensures out.1 == Some(NoActiveGiveaway) <==> IsAdmin(callerRoles) && s.active.None?
    ensures out.1.None? <==> IsAdmin(callerRoles) && s.active.Some?
    ensures out.1.Some? ==> out.0 == s
    ensures out.1.None? ==> out.0 == State(s.active, s.last, false)
  {
    if !IsAdmin(callerRoles) then (s, Some(NotAdmin))
    else if s.active.None? then (s, Some(NoActiveGiveaway))
    else (s.(timerArmed := false), None)
  }

  /** `end_giveaway` run to completion: accepted, then `_end_giveaway`. */
  function EndCommandStep(s: State, callerRoles: set<int>, liveChannels: set<int>, rolls: seq<nat>)
    : (out: (State, Option<Refusal>, Decision))
    ensures out.1 == Some(NotAdmin) <==> !IsAdmin(callerRoles)
    ensures out.1 == Some(NoActiveGiveaway) <==> IsAdmin(callerRoles) && s.active.None?
    ensures out.1.None? <==> IsAdmin(callerRoles) && s.active.Some?
    ensures out.1.Some? ==> out.0 == s && out.2 == Undecided
    ensures out.1.None? ==>
              && out.0 == State(None, s.active, false)
              && out.2 == Decided(s.active.value, DrawFor(s.active.value, liveChannels, rolls))
    ensures Valid(s) ==> Valid(out.0)
  {
    var (t, refusal) := EndAcceptStep(s, callerRoles);
    if refusal.Some? then (s, refusal, Undecided)
    else
      var (u, decision) := EndStep(t, liveChannels, rolls);
      (u, None, decision)
  }

  // --------------------------------------------------------------- cancel

  /** `cancel_giveaway`: the open giveaway is dropped without a draw and the
      history is left alone; the dropped record is handed back for the
      cancellation notice. */
  function CancelStep(s: State, callerRoles: set<int>): (out: (State, Result<Record, Refusal>))
    ensures out.0.last == s.last
    ensures out.1 == Failure(NotAdmin) <==> !IsAdmin(callerRoles)
    ensures out.1 == Failure(NoActiveGiveaway) <==> IsAdmin(callerRoles) && s.active.None?
    ensures out.1.Success? <==> IsAdmin(callerRoles) && s.active.Some?
    ensures out.1.Failure? ==> out.0 == s
    ensures out.1.Success? ==> s.active == Some(out.1.value) && out.0 == State(None, s.last, false)
    ensures Valid(s) ==> Valid(out.0)
  {
    if !IsAdmin(callerRoles) then (s, Failure(NotAdmin))
    else if s.active.None? then (s, Failure(NoActiveGiveaway))
    else (State(None, s.last, false), Success(s.active.value))
  }

  // --------------------------------------------------------------- reroll

  /** `reroll_giveaway`: one new winner drawn from everyone who joined the
      last decided giveaway.  The state is only read. */
  function RerollOutcome(s: State, callerRoles: set<int>, rolls: seq<nat>): (r: Result<int, Refusal>)
    ensures r == Failure(NotAdmin) <==> !IsAdmin(callerRoles)
    ensures r == Failure(NoPreviousGiveaway) <==> IsAdmin(callerRoles) && s.last.None?
    ensures r == Failure(NoParticipants) <==>
              IsAdmin(callerRoles) && s.last.Some? && s.last.value.participants == {}
    ensures r.Success? <==> IsAdmin(callerRoles) && s.last.Some? && s.last.value.participants != {}
    ensures r.Success? ==> r.value in s.last.value.participants
  {
    if !IsAdmin(callerRoles) then Failure(NotAdmin)
    else if s.last.None? then Failure(NoPreviousGiveaway)
    else if s.last.value.participants == {} then Failure(NoParticipants)
    else
      var winnerIds := PickWinners(s.last.value.participants, 1, rolls);
      Success(winnerIds[0])
  }
}
