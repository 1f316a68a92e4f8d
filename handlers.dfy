/**
 * The database as app.py uses it: one mutable store whose tables the request
 * handlers update in place through the ORM session. Each handler is a method
 * that changes the tables step by step as app.py does, and is proved to
 * leave the store exactly as the matching function of module App says, and
 * to keep the schema invariants.
 */
module Handlers {
  import opened Schema
  import opened App
  import opened AppProperties

  class PollStore {
    var users: map<Id, UserRow>
    var polls: map<Id, PollRow>
    var options: map<Id, OptionRow>
    var votes: map<Id, VoteRow>
    var nextUserId: Id
    var nextPollId: Id
    var nextOptionId: Id
    var nextVoteId: Id

    /** The tables and id counters as one database value. */
    function Snapshot(): Db
      reads this
    {
      Db(users, polls, options, votes, nextUserId, nextPollId, nextOptionId, nextVoteId)
    }

    ghost predicate Valid()
      reads this
    {
      Schema.Valid(Snapshot())
    }

    /** `db.create_all()` on an empty database file. */
    constructor ()
      ensures Valid()
      ensures Snapshot() == EmptyDb
    {
      users, polls, options, votes := map[], map[], map[], map[];
      nextUserId, nextPollId, nextOptionId, nextVoteId := 1, 1, 1, 1;
      EmptyDbValid();
    }

    /** check_poll_expiry, which keeps the invariants. */
    method CheckPollExpiry(now: Time)
      modifies this
      ensures old(Valid()) ==> Valid()
      ensures Snapshot() == App.CheckPollExpiry(old(Snapshot()), now)
    {
      ghost var db := Snapshot();
      Sweep(now);
      if Schema.Valid(db) {
        CheckPollExpiryPreservesValid(db, now);
      }
    }

    /**
     * The loop of check_poll_expiry: visit the active polls and switch off
     * each one whose expiry has passed.
     */
    method Sweep(now: Time)
      modifies this
      ensures Snapshot() == App.CheckPollExpiry(old(Snapshot()), now)
    {
      ghost var db := Snapshot();
      var pending := set id | id in polls && polls[id].isActive;
      while pending != {}
        invariant pending <= polls.Keys
        invariant polls.Keys == old(polls).Keys
        invariant forall id :: id in polls ==>
          polls[id] == if id in pending then old(polls)[id] else Swept(old(polls)[id], now)
        invariant users == db.users && options == db.options && votes == db.votes
        invariant nextUserId == db.nextUserId && nextPollId == db.nextPollId
        invariant nextOptionId == db.nextOptionId && nextVoteId == db.nextVoteId
        decreases pending
      {
        var id :| id in pending;
        var poll := polls[id];
        if poll.expiresAt.Some? && poll.expiresAt.value < now {
          polls := polls[id := poll.(isActive := false)];
        }
        pending := pending - {id};
      }
      assert polls == SweepPolls(old(polls), now);
    }

    /** vote: the sweep, then the checks in the handler's order, then the count and the vote row. */
    method Vote(userId: Id, pollId: Id, optionId: Id, now: Time) returns (r: Result<nat>)
      modifies this
      requires userId in users
      ensures old(Valid()) ==> Valid()
      ensures (r, Snapshot()) == CastVote(old(Snapshot()), userId, pollId, optionId, now)
    {
      ghost var db := Snapshot();
      Sweep(now);
      ghost var swept := Snapshot();
      ghost var expected := CastVote(db, userId, pollId, optionId, now);
      if pollId !in polls {
        r := Err(NotFound);
        assert expected == (r, swept);
      } else if !polls[pollId].isActive {
        r := Err(PollEnded);
        assert expected == (r, swept);
      } else if HasVoted(votes, userId, pollId) {
        r := Err(AlreadyVoted);
        assert expected == (r, swept);
      } else if optionId !in options {
        r := Err(NotFound);
        assert expected == (r, swept);
      } else if options[optionId].pollId != pollId {
        r := Err(InvalidOption);
        assert expected == (r, swept);
      } else {
        AcceptedVoteIsRecordVote(db, userId, pollId, optionId, now);
        var option := options[optionId];
        options := options[optionId := option.(votes := option.votes + 1)];
        votes := votes[nextVoteId := NewVote(userId, pollId, optionId, now)];
        nextVoteId := nextVoteId + 1;
        r := Ok(options[optionId].votes);
        assert expected == (r, Snapshot());
      }
      if Schema.Valid(db) {
        CastVotePreservesValid(db, userId, pollId, optionId, now);
      }
    }

    /**
     * create_poll: the acceptance test, then the poll row, then one option
     * row per submitted text that is not blank.
     */
    method CreatePoll(userId: Id, question: string, texts: seq<string>, durationHours: int, now: Time)
      returns (r: Result<Id>)
      modifies this
      requires userId in users
      ensures old(Valid()) ==> Valid()
      ensures (r, Snapshot()) == App.CreatePoll(old(Snapshot()), userId, question, texts, durationHours, now)
    {
      ghost var db := Snapshot();
      ghost var expected := App.CreatePoll(db, userId, question, texts, durationHours, now);
      if question != [] && |texts| >= 2 {
        var expiresAt: Option<Time> := None;
        if durationHours != 0 {
          expiresAt := Some(now + durationHours * SecondsPerHour);
        }
        var pollId := nextPollId;
        polls := polls[pollId := NewPoll(question, userId, expiresAt, now)];
        nextPollId := nextPollId + 1;
        AddOptions(pollId, texts);
        r := Ok(pollId);
        assert expected == (r, Snapshot());
      } else {
        r := Err(IncompletePoll);
        assert expected == (r, db);
      }
      if Schema.Valid(db) {
        CreatePollPreservesValid(db, userId, question, texts, durationHours, now);
      }
    }

    /** The loop of create_poll: one option row for each submitted text that is not blank, in order. */
    method AddOptions(pollId: Id, texts: seq<string>)
      modifies this
      ensures options == old(options) + NewOptions(Kept(texts), pollId, old(nextOptionId))
      ensures nextOptionId == old(nextOptionId) + |Kept(texts)|
      ensures users == old(users) && polls == old(polls) && votes == old(votes)
      ensures nextUserId == old(nextUserId) && nextPollId == old(nextPollId) && nextVoteId == old(nextVoteId)
    {
      ghost var base, first := options, nextOptionId;
      var i := 0;
      while i < |texts|
        invariant 0 <= i <= |texts|
        invariant options == base + NewOptions(Kept(texts[..i]), pollId, first)
        invariant nextOptionId == first + |Kept(texts[..i])|
        invariant users == old(users) && polls == old(polls) && votes == old(votes)
        invariant nextUserId == old(nextUserId) && nextPollId == old(nextPollId) && nextVoteId == old(nextVoteId)
      {
        InsertionStep(base, texts, i, pollId, first);
        if HasText(texts[i]) {
          options := options[nextOptionId := NewOption(texts[i], pollId)];
          nextOptionId := nextOptionId + 1;
        }
        i := i + 1;
      }
      assert texts[..|texts|] == texts;
    }

    /** delete_poll: only the creator may delete; the poll's options go with it. */
    method DeletePoll(userId: Id, pollId: Id) returns (r: Result<()>)
      modifies this
      ensures old(Valid()) ==> Valid()
      ensures (r, Snapshot()) == App.DeletePoll(old(Snapshot()), userId, pollId)
    {
      ghost var db := Snapshot();
      ghost var expected := App.DeletePoll(db, userId, pollId);
      if pollId !in polls {
        r := Err(NotFound);
        assert expected == (r, db);
      } else if polls[pollId].userId != userId {
        r := Err(Forbidden);
        assert expected == (r, db);
      } else {
        options := map o | o in options && options[o].pollId != pollId :: options[o];
        polls := polls - {pollId};
        r := Ok(());
        assert expected == (r, Snapshot());
      }
      if Schema.Valid(db) {
        DeletePollPreservesValid(db, userId, pollId);
      }
    }

    /** register: password confirmation, then the username, then the email; otherwise one new user. */
    method Register(username: string, email: string, password: string, confirmPassword: string,
                    passwordHash: string, now: Time) returns (r: Result<Id>)
      modifies this
      ensures old(Valid()) ==> Valid()
      ensures (r, Snapshot()) == App.Register(old(Snapshot()), username, email, password, confirmPassword,
                                              passwordHash, now)
    {
      ghost var db := Snapshot();
      ghost var expected := App.Register(db, username, email, password, confirmPassword, passwordHash, now);
      if password != confirmPassword {
        r := Err(PasswordMismatch);
        assert expected == (r, db);
      } else if UsernameInUse(users, username) {
        r := Err(UsernameTaken);
        assert expected == (r, db);
      } else if EmailInUse(users, email) {
        r := Err(EmailTaken);
        assert expected == (r, db);
      } else {
        r := Ok(nextUserId);
        users := users[nextUserId := NewUser(username, email, passwordHash, now)];
        nextUserId := nextUserId + 1;
        assert expected == (r, Snapshot());
      }
      if Schema.Valid(db) {
        RegisterPreservesValid(db, username, email, password, confirmPassword, passwordHash, now);
      }
    }

    /** index: the sweep, then every poll, newest first. */
    method Index(now: Time) returns (listed: seq<Id>)
      modifies this
      ensures old(Valid()) ==> Valid()
      ensures (listed, Snapshot()) == App.Index(old(Snapshot()), now)
    {
      ghost var db := Snapshot();
      Sweep(now);
      if Schema.Valid(db) {
        CheckPollExpiryPreservesValid(db, now);
      }
      listed := NewestFirst(polls, polls.Keys);
    }

    /** view_poll: the sweep, then the poll as it now stands and whether the viewer has voted. */
    method ViewPoll(viewer: Option<Id>, pollId: Id, now: Time) returns (r: Result<PollView>)
      modifies this
      ensures old(Valid()) ==> Valid()
      ensures (r, Snapshot()) == App.ViewPoll(old(Snapshot()), viewer, pollId, now)
    {
      ghost var db := Snapshot();
      Sweep(now);
      if Schema.Valid(db) {
        CheckPollExpiryPreservesValid(db, now);
      }
      if pollId !in polls {
        return Err(NotFound);
      }
      r := Ok(PollView(polls[pollId], viewer.Some? && HasVoted(votes, viewer.value, pollId)));
    }
  }
}
