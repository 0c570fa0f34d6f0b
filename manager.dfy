/** The `Giveaway` cog of cogs/giveaway.py as an object: its three fields
    are updated in place by the command handlers, the join button and the
    countdown.  Each method is proved to make exactly the transition of the
    matching step function in module Lifecycle, whose properties are proved
    there and in module Properties. */
module Manager {
  import opened Wrappers
  import opened Winners
  import opened Lifecycle

  /** How a winner is named in the result: by the guild member when the bot
      can still find them, otherwise by the raw user id. */
  datatype Mention = MemberMention(id: int) | RawMention(id: int)

  function MentionOf(id: int, members: set<int>): Mention {
    if id in members then MemberMention(id) else RawMention(id)
  }

  /** The loop of `_end_giveaway` that turns the winner ids into mentions,
      one per winner and in the same order; `members` are the ids the guild
      still knows. */
  method WinnerMentions(winnerIds: seq<int>, members: set<int>) returns (mentions: seq<Mention>)
    ensures |mentions| == |winnerIds|
    ensures forall i :: 0 <= i < |winnerIds| ==>
              && mentions[i].id == winnerIds[i]
              && (mentions[i].MemberMention? <==> winnerIds[i] in members)
  {
    mentions := [];
    for i := 0 to |winnerIds|
      invariant |mentions| == i
      invariant forall k :: 0 <= k < i ==> mentions[k] == MentionOf(winnerIds[k], members)
    {
      mentions := mentions + [MentionOf(winnerIds[i], members)];
    }
  }

  class GiveawayManager {
    var active: Option<Record>
    var last: Option<Record>
    var timerArmed: bool

    /** The fields as a value of the lifecycle's state type. */
    function Snapshot(): State
      reads this
    {
      State(active, last, timerArmed)
    }

    ghost predicate Valid()
      reads this
    {
      Lifecycle.Valid(Snapshot())
    }

    /** A freshly loaded cog: nothing open, no history, no countdown. */
    constructor ()
      ensures Snapshot() == Initial && Valid()
    {
      active := None;
      last := None;
      timerArmed := false;
    }

    /** `start_giveaway`, run as one step: the announcement it posts gets
        the id `messageId`, which is written into the record once known;
        then the countdown is armed. */
    method Start(callerRoles: set<int>, prize: string, durationMinutes: int, winners: int,
                 requiredRole: Option<int>, host: int, channel: int, now: int, messageId: int)
      returns (refusal: Option<Refusal>)
      modifies this
      ensures old(Valid()) ==> Valid()
      ensures (Snapshot(), refusal) ==
              StartStep(old(Snapshot()), callerRoles, prize, durationMinutes, winners,
                        requiredRole, host, channel, now, messageId)
    {
      if !IsAdmin(callerRoles) {
        return Some(NotAdmin);
      }
      if active.Some? {
        return Some(AlreadyRunning);
      }
      if durationMinutes < 1 {
        return Some(DurationTooShort);
      }
      if winners < 1 {
        return Some(TooFewWinners);
      }
      var endTime := now + 60 * durationMinutes;
      if endTime > LastSecond {
        return Some(EndTimeOverflow);
      }
      active := Some(Record(prize, host, channel, None, endTime, {}, winners, requiredRole));
      active := Some(active.value.(messageId := Some(messageId)));
      timerArmed := true;
      refusal := None;
    }

    /** The join button, clicked by `user` holding `userRoles`; the set of
        participants grows in place. */
    method Join(user: int, userRoles: set<int>) returns (refusal: Option<Refusal>)
      modifies this
      ensures old(Valid()) ==> Valid()
      ensures (Snapshot(), refusal) == JoinStep(old(Snapshot()), user, userRoles)
    {
      if active.None? {
        return Some(NoActiveGiveaway);
      }
      if VerifyRoleId !in userRoles {
        return Some(NotVerified);
      }
      var giveaway := active.value;
      if giveaway.requiredRole.Some? && giveaway.requiredRole.value !in userRoles {
        return Some(MissingRequiredRole);
      }
      if user in giveaway.participants {
        return Some(AlreadyJoined);
      }
      active := Some(giveaway.(participants := giveaway.participants + {user}));
      refusal := None;
    }

    /** `_end_giveaway`, shared by the countdown and the end command.
        `liveChannels` are the channels the bot can still find and
        `members` the users the guild still knows. */
    method EndGiveaway(liveChannels: set<int>, members: set<int>, rolls: seq<nat>)
      returns (decision: Decision, mentions: seq<Mention>)
      modifies this
      ensures (Snapshot(), decision) == EndStep(old(Snapshot()), liveChannels, rolls)
      ensures decision.Decided? && decision.draw.Drawn? ==>
                && |mentions| == |decision.draw.winners|
                && forall i :: 0 <= i < |mentions| ==> mentions[i] == MentionOf(decision.draw.winners[i], members)
      ensures !(decision.Decided? && decision.draw.Drawn?) ==> mentions == []
    {
      if active.None? {
        return Undecided, [];
      }
      var giveaway := active.value;
      active := None;
      last := Some(giveaway);
      if giveaway.channel !in liveChannels {
        return Decided(giveaway, ChannelGone), [];
      }
      if giveaway.participants == {} {
        decision, mentions := Decided(giveaway, Drawn([])), [];
      } else {
        var winnerIds := PickWinners(giveaway.participants, giveaway.winnerCount, rolls);
        mentions := WinnerMentions(winnerIds, members);
        decision := Decided(giveaway, Drawn(winnerIds));
      }
    }

    /** The countdown of `_auto_end` running out.  A countdown that was
        cancelled never runs. */
    method TimerFires(liveChannels: set<int>, members: set<int>, rolls: seq<nat>)
      returns (decision: Decision, mentions: seq<Mention>)
      modifies this
      ensures old(Valid()) ==> Valid()
      ensures (Snapshot(), decision) == TimerStep(old(Snapshot()), liveChannels, rolls)
    {
      if !timerArmed {
        return Undecided, [];
      }
      timerArmed := false;
      decision, mentions := EndGiveaway(liveChannels, members, rolls);
    }

    /** `end_giveaway` up to its reply "Ending giveaway...": the checks,
        and the countdown cancelled while the record stays open. */
    method AcceptEnd(callerRoles: set<int>) returns (refusal: Option<Refusal>)
      modifies this
      ensures (Snapshot(), refusal) == EndAcceptStep(old(Snapshot()), callerRoles)
    {
      if !IsAdmin(callerRoles) {
        return Some(NotAdmin);
      }
      if active.None? {
        return Some(NoActiveGiveaway);
      }
      if timerArmed {
        timerArmed := false;
      }
      refusal := None;
    }

    /** `end_giveaway`, the command that ends the open giveaway early: once
        accepted, it resumes with `_end_giveaway`. */
    method EndCommand(callerRoles: set<int>, liveChannels: set<int>, members: set<int>, rolls: seq<nat>)
      returns (refusal: Option<Refusal>, decision: Decision, mentions: seq<Mention>)
      modifies this
      ensures old(Valid()) ==> Valid()
      ensures (Snapshot(), refusal, decision) == EndCommandStep(old(Snapshot()), callerRoles, liveChannels, rolls)
    {
      refusal := AcceptEnd(callerRoles);
      if refusal.Some? {
        return refusal, Undecided, [];
      }
      decision, mentions := EndGiveaway(liveChannels, members, rolls);
    }

    /** `cancel_giveaway`: the open giveaway is dropped, its countdown
        cancelled, and the history kept. */
    method Cancel(callerRoles: set<int>) returns (result: Result<Record, Refusal>)
      modifies this
      ensures old(Valid()) ==> Valid()
      ensures (Snapshot(), result) == CancelStep(old(Snapshot()), callerRoles)
    {
      if !IsAdmin(callerRoles) {
        return Failure(NotAdmin);
      }
      if active.None? {
        return Failure(NoActiveGiveaway);
      }
      if timerArmed {
        timerArmed := false;
      }
      var giveaway := active.value;
      active := None;
      result := Success(giveaway);
    }

    /** `reroll_giveaway`: a new winner for the last decided giveaway; the
        cog's fields are only read. */
    method Reroll(callerRoles: set<int>, rolls: seq<nat>) returns (result: Result<int, Refusal>)
      ensures result == RerollOutcome(Snapshot(), callerRoles, rolls)
      ensures result.Success? ==> last.Some? && result.value in last.value.participants
    {
      if !IsAdmin(callerRoles) {
        return Failure(NotAdmin);
      }
      if last.None? {
        return Failure(NoPreviousGiveaway);
      }
      var participants := last.value.participants;
      if participants == {} {
        return Failure(NoParticipants);
      }
      var winnerIds := PickWinners(participants, 1, rolls);
      result := Success(winnerIds[0]);
    }
  }

  /** A client of the class: the countdown fires after an admin has already
      ended the giveaway, and the second trigger decides nothing. */
  method EndRace(admin: set<int>, user: int, userRoles: set<int>, channel: int, members: set<int>,
                 rolls: seq<nat>, rolls2: seq<nat>)
    returns (first: Decision, second: Decision)
    requires IsAdmin(admin) && VerifyRoleId in userRoles
    ensures first.Decided? && first.record.participants == {user}
    ensures first.draw == Drawn([user])
    ensures second == Undecided
  {
    var cog := new GiveawayManager();
    var refusal := cog.Start(admin, "Gift Card", 1, 1, None, 7, channel, 0, 11);
    refusal := cog.Join(user, userRoles);
    assert cog.active.value.participants == {user};
    var mentions;
    refusal, first, mentions := cog.EndCommand(admin, {channel}, members, rolls);
    second, mentions := cog.TimerFires({channel}, members, rolls2);
  }

  /** A client of the class: while an accepted end command waits on its
      reply, a member joins and an admin cancels; the end command then
      resumes, and its `_end_giveaway` decides nothing. */
  method JoinAndCancelWhileEndWaits(admin: set<int>, user: int, userRoles: set<int>, channel: int,
                             members: set<int>, rolls: seq<nat>)
    returns (cancelled: Result<Record, Refusal>, decision: Decision)
    requires IsAdmin(admin) && VerifyRoleId in userRoles
    ensures cancelled.Success? && cancelled.value.participants == {user}
    ensures decision == Undecided
  {
    var cog := new GiveawayManager();
    var refusal := cog.Start(admin, "Gift Card", 1, 1, None, 7, channel, 0, 11);
    refusal := cog.AcceptEnd(admin);
    refusal := cog.Join(user, userRoles);
    cancelled := cog.Cancel(admin);
    var mentions;
    decision, mentions := cog.EndGiveaway({channel}, members, rolls);
  }
}
