/** Properties of the giveaway lifecycle that relate several operations:
    the end sequence decides once, cancelling leaves the history alone,
    rerolls draw from the whole pool, joins only add, and over any run of
    commands, clicks and countdowns every giveaway that was opened is
    decided, cancelled or still open, exactly once. */
module Properties {
  import opened Wrappers
  import opened Winners
  import opened Lifecycle

  // ------------------------------------------------------ end, decided once

  /** `_end_giveaway` run twice in a row (the countdown racing the manual
      end) decides on the first run only; the second changes nothing. */
  lemma EndIdempotent(s: State, live1: set<int>, rolls1: seq<nat>, live2: set<int>, rolls2: seq<nat>)
    ensures var (t, _) := EndStep(s, live1, rolls1);
            EndStep(t, live2, rolls2) == (t, Undecided)
  {
  }

  /** After a manual end, the countdown cannot decide again: it was
      cancelled, and had it run anyway the end sequence would find nothing
      open. */
  lemma TimerAfterManualEndDecidesNothing(s: State, callerRoles: set<int>, live: set<int>, rolls: seq<nat>,
                                          live2: set<int>, rolls2: seq<nat>)
    requires Valid(s)
    ensures var (t, refusal, _) := EndCommandStep(s, callerRoles, live, rolls);
            refusal.None? ==>
              && TimerStep(t, live2, rolls2) == (t, Undecided)
              && EndStep(t, live2, rolls2).1 == Undecided
  {
  }

  /** After the countdown has decided, the manual end command is turned away
      and nobody can join any more. */
  lemma ManualEndAfterTimerRefused(s: State, live: set<int>, rolls: seq<nat>, callerRoles: set<int>,
                                   live2: set<int>, rolls2: seq<nat>, user: int, userRoles: set<int>)
    requires Valid(s) && s.timerArmed && IsAdmin(callerRoles)
    ensures var (t, _) := TimerStep(s, live, rolls);
            && EndCommandStep(t, callerRoles, live2, rolls2) == (t, Some(NoActiveGiveaway), Undecided)
            && JoinStep(t, user, userRoles) == (t, Some(NoActiveGiveaway))
  {
  }

  /** A decided giveaway with participants has between one and
      `winnerCount` winners, all of them participants, none twice. */
  lemma DecidedWinnersBounds(s: State, callerRoles: set<int>, live: set<int>, rolls: seq<nat>)
    requires Valid(s) && IsAdmin(callerRoles) && s.active.Some?
    requires s.active.value.channel in live && s.active.value.participants != {}
    ensures var (_, _, d) := EndCommandStep(s, callerRoles, live, rolls);
            && d.Decided? && d.draw.Drawn?
            && 1 <= |d.draw.winners| <= s.active.value.winnerCount
            && Distinct(d.draw.winners)
            && forall x :: x in d.draw.winners ==> x in s.active.value.participants
  {
  }

  // ----------------------------------------------------------------- reroll

  /** A reroll can name any participant of the last giveaway, a previous
      winner included: it draws from the full pool, not from those who have
      not won yet. */
  lemma RerollReachesEveryone(s: State, callerRoles: set<int>, p: int)
    requires IsAdmin(callerRoles) && s.last.Some? && p in s.last.value.participants
    ensures exists rolls :: RerollOutcome(s, callerRoles, rolls) == Success(p)
  {
    var pool := s.last.value.participants;
    assert |[p]| == Min(1, |pool|) by {
      assert {p} <= pool;
      assert |{p}| <= |pool| by { SubsetCardinality({p}, pool); }
    }
    PickWinnersReaches(pool, 1, [p]);
    var rolls :| PickWinners(pool, 1, rolls) == [p];
    assert RerollOutcome(s, callerRoles, rolls) == Success(p);
  }

  lemma {:induction false} SubsetCardinality(a: set<int>, b: set<int>)
    requires a <= b
    ensures |a| <= |b|
    decreases |b|
  {
    if a != {} {
      HasMember(a);
      var x :| x in a;
      SubsetCardinality(a - {x}, b - {x});
    }
  }

  /** Rerolling after a manual end can name one of the winners just drawn. */
  lemma RerollMayRepeatAWinner(s: State, callerRoles: set<int>, live: set<int>, rolls: seq<nat>)
    requires Valid(s) && IsAdmin(callerRoles)
    ensures var (t, _, d) := EndCommandStep(s, callerRoles, live, rolls);
            d.Decided? && d.draw.Drawn? && d.draw.winners != [] ==>
              exists again :: RerollOutcome(t, callerRoles, again) == Success(d.draw.winners[0])
  {
    var (t, _, d) := EndCommandStep(s, callerRoles, live, rolls);
    if d.Decided? && d.draw.Drawn? && d.draw.winners != [] {
      RerollReachesEveryone(t, callerRoles, d.draw.winners[0]);
    }
  }

  // ------------------------------------------------------------------ joins

  /** Clicks on the join button by `users`, in that order, all holding
      `roles`. */
  function JoinAll(s: State, users: seq<int>, roles: set<int>): State
    decreases |users|
  {
    if users == [] then s else JoinAll(JoinStep(s, users[0], roles).0, users[1..], roles)
  }

  /** Clicks by members eligible for the open giveaway add exactly the set
      of distinct clickers: a repeated click adds nobody, and nothing but
      the participants changes. */
  lemma {:induction false} JoinAllAddsClickers(s: State, users: seq<int>, roles: set<int>)
    requires s.active.Some? && VerifyRoleId in roles
    requires s.active.value.requiredRole.Some? ==> s.active.value.requiredRole.value in roles
    ensures var t := JoinAll(s, users, roles);
            && t.active == Some(s.active.value.(participants := s.active.value.participants + set u | u in users))
            && t.last == s.last && t.timerArmed == s.timerArmed
    decreases |users|
  {
    if users != [] {
      var t := JoinStep(s, users[0], roles).0;
      if users[0] in s.active.value.participants {
        assert s.active.value.participants + {users[0]} == s.active.value.participants;
      }
      assert t.active == Some(s.active.value.(participants := s.active.value.participants + {users[0]}));
      JoinAllAddsClickers(t, users[1..], roles);
      assert JoinAll(s, users, roles) == JoinAll(t, users[1..], roles);
      var before, later := s.active.value.participants, set u | u in users[1..];
      assert (set u | u in users) == {users[0]} + later;
      assert (before + {users[0]}) + later == before + set u | u in users;
    } else {
      assert s.active.value.participants + (set u | u in users) == s.active.value.participants;
    }
  }

  // ---------------------------------------------------------- whole runs

  /** Everything that can happen to the cog.  `EndCommand` is the end
      command run to completion; `EndAccepted` is an end command that has
      passed its checks and cancelled the countdown, and is suspended on its
      reply; `EndResumes` is one such command resuming with `_end_giveaway`. */
  datatype Event =
    | StartCommand(callerRoles: set<int>, prize: string, durationMinutes: int, winners: int,
                   requiredRole: Option<int>, host: int, channel: int, now: int, messageId: int)
    | JoinClick(user: int, userRoles: set<int>)
    | TimerExpiry(liveChannels: set<int>, rolls: seq<nat>)
    | EndCommand(callerRoles: set<int>, liveChannels: set<int>, rolls: seq<nat>)
    | EndAccepted(callerRoles: set<int>)
    | EndResumes(liveChannels: set<int>, rolls: seq<nat>)
    | CancelCommand(callerRoles: set<int>)
    | RerollCommand(callerRoles: set<int>, rolls: seq<nat>)

  /** The cog's fields, and how many accepted end commands are suspended
      on their reply with `_end_giveaway` still to run. */
  datatype Cog = Cog(state: State, waiting: nat)

  /** How many giveaways were started, decided and cancelled. */
  datatype Tally = Tally(started: nat, decided: nat, cancelled: nat)

  function Plus(a: Tally, b: Tally): Tally {
    Tally(a.started + b.started, a.decided + b.decided, a.cancelled + b.cancelled)
  }

  function Apply(c: Cog, e: Event): (Cog, Tally) {
    var s := c.state;
    match e
    case StartCommand(roles, prize, minutes, winners, role, host, channel, now, messageId) =>
      var (t, refusal) := StartStep(s, roles, prize, minutes, winners, role, host, channel, now, messageId);
      (c.(state := t), Tally(if refusal.None? then 1 else 0, 0, 0))
    case JoinClick(user, roles) =>
      (c.(state := JoinStep(s, user, roles).0), Tally(0, 0, 0))
    case TimerExpiry(live, rolls) =>
      var (t, d) := TimerStep(s, live, rolls);
      (c.(state := t), Tally(0, if d.Decided? then 1 else 0, 0))
    case EndCommand(roles, live, rolls) =>
      var (t, _, d) := EndCommandStep(s, roles, live, rolls);
      (c.(state := t), Tally(0, if d.Decided? then 1 else 0, 0))
    case EndAccepted(roles) =>
      var (t, refusal) := EndAcceptStep(s, roles);
      (Cog(t, if refusal.None? then c.waiting + 1 else c.waiting), Tally(0, 0, 0))
    case EndResumes(live, rolls) =>
      if c.waiting == 0 then (c, Tally(0, 0, 0))
      else
        var (t, d) := EndStep(s, live, rolls);
        (Cog(t, c.waiting - 1), Tally(0, if d.Decided? then 1 else 0, 0))
    case CancelCommand(roles) =>
      var (t, r) := CancelStep(s, roles);
      (c.(state := t), Tally(0, 0, if r.Success? then 1 else 0))
    case RerollCommand(_, _) =>
      (c, Tally(0, 0, 0))
  }

  function Run(c: Cog, events: seq<Event>): (Cog, Tally)
    decreases |events|
  {
    if events == [] then (c, Tally(0, 0, 0))
    else
      var (t, first) := Apply(c, events[0]);
      var (u, rest) := Run(t, events[1..]);
      (u, Plus(first, rest))
  }

  /** Every record held came out of a successful start. */
  predicate RecordsSound(s: State) {
    && (s.active.Some? ==> Sound(s.active.value))
    && (s.last.Some? ==> Sound(s.last.value))
  }

  /** Over any run, also one where end commands are suspended on their
      reply while other events happen, every giveaway that was open at the
      start or started during the run has been decided or cancelled exactly
      once, or is the one still open; and every record held came out of a
      successful start. */
  lemma {:induction false} RunAccountsForEveryGiveaway(c: Cog, events: seq<Event>)
    ensures var (t, n) := Run(c, events);
            && (RecordsSound(c.state) ==> RecordsSound(t.state))
            && n.decided + n.cancelled + OpenCount(t.state) == n.started + OpenCount(c.state)
    decreases |events|
  {
    if events != [] {
      var (t, first) := Apply(c, events[0]);
      ApplyAccounts(c, events[0]);
      RunAccountsForEveryGiveaway(t, events[1..]);
      var (u, rest) := Run(t, events[1..]);
      assert Run(c, events) == (u, Plus(first, rest));
    }
  }

  /** One event keeps the records sound and the accounting balanced. */
  lemma ApplyAccounts(c: Cog, e: Event)
    ensures var (t, n) := Apply(c, e);
            && (RecordsSound(c.state) ==> RecordsSound(t.state))
            && n.decided + n.cancelled + OpenCount(t.state) == n.started + OpenCount(c.state)
  {
  }

  /** Over a run of handlers that each run to completion, the invariant
      `Valid` holds throughout.  (An end command suspended on its reply
      can break it: `WaitingEndTakesNextGiveaway`.) */
  lemma {:induction false} RunKeepsValid(c: Cog, events: seq<Event>)
    requires Valid(c.state) && c.waiting == 0
    requires forall i :: 0 <= i < |events| ==> !events[i].EndAccepted?
    ensures Valid(Run(c, events).0.state) && Run(c, events).0.waiting == 0
    decreases |events|
  {
    if events != [] {
      var (t, _) := Apply(c, events[0]);
      RunKeepsValid(t, events[1..]);
    }
  }

  /** Without a new start, a run decides at most once, however the
      countdown, end commands run to completion and suspended end commands
      interleave. */
  lemma {:induction false} DecidedAtMostOnce(c: Cog, events: seq<Event>)
    requires forall i :: 0 <= i < |events| ==> !events[i].StartCommand?
    ensures Run(c, events).1.decided <= OpenCount(c.state) <= 1
    decreases |events|
  {
    RunAccountsForEveryGiveaway(c, events);
    NoStartsNoneStarted(c, events);
  }

  lemma {:induction false} NoStartsNoneStarted(c: Cog, events: seq<Event>)
    requires forall i :: 0 <= i < |events| ==> !events[i].StartCommand?
    ensures Run(c, events).1.started == 0
    decreases |events|
  {
    if events != [] {
      var (t, _) := Apply(c, events[0]);
      NoStartsNoneStarted(t, events[1..]);
    }
  }

  // -------------------------------------------------------------- scenarios

  /** A one-minute "Gift Card" giveaway, two members join, an admin ends it
      before the countdown: one of the two wins, the record is the new
      history, and the countdown firing afterwards decides nothing. */
  lemma GiftCardScenario(admin: set<int>, a: int, rolesA: set<int>, b: int, rolesB: set<int>,
                         host: int, channel: int, now: int, messageId: int,
                         live: set<int>, rolls: seq<nat>, rolls2: seq<nat>)
    requires IsAdmin(admin) && a != b && VerifyRoleId in rolesA && VerifyRoleId in rolesB
    requires channel in live && now + 60 <= LastSecond
    ensures var (s1, e1) := StartStep(Initial, admin, "Gift Card", 1, 1, None, host, channel, now, messageId);
            var (s2, e2) := JoinStep(s1, a, rolesA);
            var (s3, e3) := JoinStep(s2, b, rolesB);
            var (s4, e4, d) := EndCommandStep(s3, admin, live, rolls);
            && e1 == None && e2 == None && e3 == None && e4 == None
            && d.Decided? && d.record.participants == {a, b}
            && d.draw.Drawn? && |d.draw.winners| == 1 && d.draw.winners[0] in {a, b}
            && s4 == State(None, Some(d.record), false)
            && TimerStep(s4, live, rolls2) == (s4, Undecided)
  {
    var (s1, _) := StartStep(Initial, admin, "Gift Card", 1, 1, None, host, channel, now, messageId);
    var (s2, _) := JoinStep(s1, a, rolesA);
    var (s3, _) := JoinStep(s2, b, rolesB);
    assert |s3.active.value.participants| == 2;
  }

  /** A three-winner giveaway nobody joins, ended by its countdown: the
      record still becomes the history, with no winners. */
  lemma NobodyJoinedScenario(admin: set<int>, prize: string, minutes: int, host: int, channel: int,
                             now: int, messageId: int, live: set<int>, rolls: seq<nat>)
    requires IsAdmin(admin) && minutes >= 1 && channel in live && now + 60 * minutes <= LastSecond
    ensures var (s1, e1) := StartStep(Initial, admin, prize, minutes, 3, None, host, channel, now, messageId);
            var (s2, d) := TimerStep(s1, live, rolls);
            && e1 == None
            && d.Decided? && d.draw == Drawn([])
            && s2 == State(None, s1.active, false)
  {
  }

  /** Cancelling an open giveaway returns the cog to its previous history:
      with no giveaway decided before, a reroll is then turned away. */
  lemma CancelScenario(admin: set<int>, prize: string, minutes: int, winners: int, role: Option<int>,
                       host: int, channel: int, now: int, messageId: int, rolls: seq<nat>)
    requires IsAdmin(admin) && minutes >= 1 && winners >= 1 && now + 60 * minutes <= LastSecond
    ensures var (s1, e1) := StartStep(Initial, admin, prize, minutes, winners, role, host, channel, now, messageId);
            var (s2, r) := CancelStep(s1, admin);
            && e1 == None && r.Success?
            && s2 == Initial
            && RerollOutcome(s2, admin, rolls) == Failure(NoPreviousGiveaway)
  {
  }

  // ------------------------------------ an end command waiting on its reply

  /** Two admins end the same giveaway and both commands are accepted before
      either resumes: the first `_end_giveaway` decides it, the second finds
      nothing open and does nothing. */
  lemma TwoEndCommandsDecideOnce(s: State, admin: set<int>, other: set<int>,
                                 live: set<int>, rolls: seq<nat>, live2: set<int>, rolls2: seq<nat>)
    requires Valid(s) && s.active.Some? && IsAdmin(admin) && IsAdmin(other)
    ensures var (s1, e1) := EndAcceptStep(s, admin);
            var (s2, e2) := EndAcceptStep(s1, other);
            var (s3, d1) := EndStep(s2, live, rolls);
            var (s4, d2) := EndStep(s3, live2, rolls2);
            && e1 == None && e2 == None
            && d1 == Decided(s.active.value, DrawFor(s.active.value, live, rolls))
            && d2 == Undecided
            && s4 == State(None, s.active, false) && Valid(s4)
  {
  }

  /** An admin cancels while an accepted end command waits on its reply:
      when the end command resumes, `_end_giveaway` decides nothing, and the
      history stays what it was before the giveaway. */
  lemma CancelWhileEndWaits(s: State, admin: set<int>, other: set<int>, live: set<int>, rolls: seq<nat>)
    requires Valid(s) && s.active.Some? && IsAdmin(admin) && IsAdmin(other)
    ensures var (s1, e1) := EndAcceptStep(s, admin);
            var (s2, r) := CancelStep(s1, other);
            && e1 == None && r == Success(s.active.value)
            && s2 == State(None, s.last, false)
            && EndStep(s2, live, rolls) == (s2, Undecided)
  {
  }

  /** An end command still waiting after its giveaway was cancelled and a
      new one started ends the new giveaway as soon as it resumes.  The new
      giveaway's countdown, never cancelled, is then left pending with
      nothing open: the state `Valid` excludes. */
  lemma WaitingEndTakesNextGiveaway(s: State, admin: set<int>, prize: string, minutes: int, winners: int,
                                    role: Option<int>, host: int, channel: int, now: int, messageId: int,
                                    live: set<int>, rolls: seq<nat>)
    requires Valid(s) && s.active.Some? && IsAdmin(admin)
    requires minutes >= 1 && winners >= 1 && now + 60 * minutes <= LastSecond
    ensures var (s1, e1) := EndAcceptStep(s, admin);
            var (s2, r) := CancelStep(s1, admin);
            var (s3, e3) := StartStep(s2, admin, prize, minutes, winners, role, host, channel, now, messageId);
            var (s4, d) := EndStep(s3, live, rolls);
            && e1 == None && r.Success? && e3 == None
            && d.Decided? && s3.active.Some? && d.record == s3.active.value && d.record.prize == prize
            && s4.active.None? && s4.timerArmed && !Valid(s4)
  {
  }
}
