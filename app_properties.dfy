/**
 * What the handlers of app.py guarantee together with the schema of
 * models.py: every handler keeps the database valid (uniqueness, one vote
 * per user and poll, references, tallies), the expiry sweep is idempotent,
 * a second vote is refused, and a new poll reads back as submitted.
 */
module AppProperties {
  import opened Schema
  import opened App

  // ---------------------------------------------------------------------
  // The expiry sweep

  /** A sweep followed by a later one is the later one alone. */
  lemma SweepThenLaterSweep(polls: map<Id, PollRow>, now: Time, later: Time)
    requires now <= later
    ensures SweepPolls(SweepPolls(polls, now), later) == SweepPolls(polls, later)
  {
    var once := SweepPolls(polls, now);
    var twice := SweepPolls(once, later);
    forall id | id in polls
      ensures twice[id] == SweepPolls(polls, later)[id]
    {
      assert Expired(polls[id], now) ==> Expired(polls[id], later);
    }
  }

  /** Running the sweep twice equals running it once. */
  lemma SweepIdempotent(db: Db, now: Time)
    ensures CheckPollExpiry(CheckPollExpiry(db, now), now) == CheckPollExpiry(db, now)
  {
    SweepThenLaterSweep(db.polls, now, now);
  }

  lemma CheckPollExpiryPreservesValid(db: Db, now: Time)
    requires Valid(db)
    ensures Valid(CheckPollExpiry(db, now))
  {
    var next := CheckPollExpiry(db, now);
    assert next.polls.Keys == db.polls.Keys;
  }

  // ---------------------------------------------------------------------
  // Voting

  /** A new vote row for a (user, poll) pair that has none keeps the pairs unique. */
  lemma VoteRowsStayUnique(votes: map<Id, VoteRow>, voteId: Id, row: VoteRow)
    requires OneVotePerUserPoll(votes) && voteId !in votes && !HasVoted(votes, row.userId, row.pollId)
    ensures OneVotePerUserPoll(votes[voteId := row])
  {
    var next := votes[voteId := row];
    forall a, b | a in next && b in next && a != b
      ensures next[a].userId != next[b].userId || next[a].pollId != next[b].pollId
    {
      if a == voteId {
        assert !(votes[b].userId == row.userId && votes[b].pollId == row.pollId);
      } else if b == voteId {
        assert !(votes[a].userId == row.userId && votes[a].pollId == row.pollId);
      }
    }
  }

  /** The database after one count increment paired with one vote row. */
  ghost function AfterVote(db: Db, optionId: Id, row: VoteRow): Db
    requires optionId in db.options
  {
    var option := db.options[optionId];
    db.(options := db.options[optionId := option.(votes := option.votes + 1)],
        votes := db.votes[db.nextVoteId := row],
        nextVoteId := db.nextVoteId + 1)
  }

  lemma RecordVoteKeepsReferences(db: Db, optionId: Id, row: VoteRow)
    requires ReferencesExist(db)
    requires optionId in db.options && row.optionId == optionId && row.pollId == db.options[optionId].pollId
    requires row.userId in db.users
    ensures ReferencesExist(AfterVote(db, optionId, row))
  {
  }

  lemma RecordVoteKeepsCounters(db: Db, optionId: Id, row: VoteRow)
    requires IdsBelowCounters(db) && ReferencesExist(db)
    requires optionId in db.options && row.pollId == db.options[optionId].pollId
    ensures IdsBelowCounters(AfterVote(db, optionId, row))
  {
  }

  /** In the poll voted in, the one count increment is matched by the one new vote row. */
  lemma VotedPollTally(db: Db, optionId: Id, row: VoteRow)
    requires db.nextVoteId !in db.votes
    requires optionId in db.options && row.pollId == db.options[optionId].pollId
    requires Tally(db.options, OptionsOf(db.options, row.pollId)) == |VotesOn(db.votes, row.pollId)|
    ensures var next := AfterVote(db, optionId, row);
      Tally(next.options, OptionsOf(next.options, row.pollId)) == |VotesOn(next.votes, row.pollId)|
  {
    var next := AfterVote(db, optionId, row);
    var ids := OptionsOf(db.options, row.pollId);
    assert OptionsOf(next.options, row.pollId) == ids;
    TallyBump(db.options, ids, optionId);
    assert VotesOn(next.votes, row.pollId) == VotesOn(db.votes, row.pollId) + {db.nextVoteId};
  }

  /** In every other poll, neither the counts nor the vote rows change. */
  lemma OtherPollTally(db: Db, optionId: Id, row: VoteRow, p: Id)
    requires db.nextVoteId !in db.votes
    requires optionId in db.options && row.pollId == db.options[optionId].pollId && p != row.pollId
    requires Tally(db.options, OptionsOf(db.options, p)) == |VotesOn(db.votes, p)|
    ensures var next := AfterVote(db, optionId, row);
      Tally(next.options, OptionsOf(next.options, p)) == |VotesOn(next.votes, p)|
  {
    var next := AfterVote(db, optionId, row);
    var ids := OptionsOf(db.options, p);
    assert OptionsOf(next.options, p) == ids;
    TallyFrame(db.options, next.options, ids);
    assert VotesOn(next.votes, p) == VotesOn(db.votes, p);
  }

  lemma RecordVoteKeepsTally(db: Db, optionId: Id, row: VoteRow)
    requires TallyMatches(db) && IdsBelowCounters(db)
    requires optionId in db.options && row.pollId == db.options[optionId].pollId
    ensures TallyMatches(AfterVote(db, optionId, row))
  {
    var next := AfterVote(db, optionId, row);
    assert db.nextVoteId !in db.votes;
    forall p | p in next.polls
      ensures Tally(next.options, OptionsOf(next.options, p)) == |VotesOn(next.votes, p)|
    {
      if p == row.pollId {
        VotedPollTally(db, optionId, row);
      } else {
        OtherPollTally(db, optionId, row, p);
      }
    }
  }

  /**
   * Adding one to the count of an option of an existing poll together with
   * one vote row for that poll, by a user who has none there, keeps every
   * invariant.
   */
  lemma RecordVotePreservesValid(db: Db, optionId: Id, row: VoteRow)
    requires Valid(db)
    requires optionId in db.options && row.optionId == optionId && row.pollId == db.options[optionId].pollId
    requires row.userId in db.users && !HasVoted(db.votes, row.userId, row.pollId)
    ensures Valid(AfterVote(db, optionId, row))
  {
    assert db.nextVoteId !in db.votes;
    VoteRowsStayUnique(db.votes, db.nextVoteId, row);
    RecordVoteKeepsReferences(db, optionId, row);
    RecordVoteKeepsCounters(db, optionId, row);
    RecordVoteKeepsTally(db, optionId, row);
  }

  /** A refused vote commits only the sweep. */
  lemma RefusedVotePreservesValid(db: Db, userId: Id, pollId: Id, optionId: Id, now: Time)
    requires Valid(db)
    requires CastVote(db, userId, pollId, optionId, now).0.Err?
    ensures Valid(CastVote(db, userId, pollId, optionId, now).1)
  {
    CheckPollExpiryPreservesValid(db, now);
    assert CastVote(db, userId, pollId, optionId, now).1 == CheckPollExpiry(db, now);
  }

  /** An accepted vote is the sweep followed by one count increment and one vote row. */
  lemma AcceptedVoteIsRecordVote(db: Db, userId: Id, pollId: Id, optionId: Id, now: Time)
    requires CastVote(db, userId, pollId, optionId, now).0.Ok?
    ensures var after := AfterVote(CheckPollExpiry(db, now), optionId, NewVote(userId, pollId, optionId, now));
      CastVote(db, userId, pollId, optionId, now) == (Ok(after.options[optionId].votes), after)
  {
  }

  lemma AcceptedVotePreservesValid(db: Db, userId: Id, pollId: Id, optionId: Id, now: Time)
    requires Valid(db) && userId in db.users
    requires CastVote(db, userId, pollId, optionId, now).0.Ok?
    ensures Valid(CastVote(db, userId, pollId, optionId, now).1)
  {
    var swept := CheckPollExpiry(db, now);
    CheckPollExpiryPreservesValid(db, now);
    var row := NewVote(userId, pollId, optionId, now);
    RecordVotePreservesValid(swept, optionId, row);
    AcceptedVoteIsRecordVote(db, userId, pollId, optionId, now);
  }

  /** Every vote, accepted or refused, keeps every invariant. */
  lemma CastVotePreservesValid(db: Db, userId: Id, pollId: Id, optionId: Id, now: Time)
    requires Valid(db) && userId in db.users
    ensures Valid(CastVote(db, userId, pollId, optionId, now).1)
  {
    if CastVote(db, userId, pollId, optionId, now).0.Ok? {
      AcceptedVotePreservesValid(db, userId, pollId, optionId, now);
    } else {
      RefusedVotePreservesValid(db, userId, pollId, optionId, now);
    }
  }

  /**
   * After a successful vote, the same user's next vote on the same poll is
   * refused (as already voted, or as ended if the poll has expired in
   * between) and changes no count and no vote row.
   */
  lemma NoSecondVote(db: Db, userId: Id, pollId: Id, optionId: Id, otherOptionId: Id, now: Time, later: Time)
    requires CastVote(db, userId, pollId, optionId, now).0.Ok?
    ensures
      var first := CastVote(db, userId, pollId, optionId, now).1;
      var second := CastVote(first, userId, pollId, otherOptionId, later);
      && second.0 in {Err(AlreadyVoted), Err(PollEnded)}
      && (OpenAt(first.polls, pollId, later) ==> second.0 == Err(AlreadyVoted))
      && second.1.options == first.options
      && second.1.votes == first.votes
  {
    var first := CastVote(db, userId, pollId, optionId, now).1;
    assert first.votes[db.nextVoteId] == NewVote(userId, pollId, optionId, now);
    assert HasVoted(first.votes, userId, pollId);
  }

  /** No vote is accepted once a poll's expiry has passed. */
  lemma ExpiredPollRefusesVotes(db: Db, userId: Id, pollId: Id, optionId: Id, now: Time)
    requires pollId in db.polls && Expired(db.polls[pollId], now)
    ensures CastVote(db, userId, pollId, optionId, now).0 == Err(PollEnded)
    ensures CastVote(db, userId, pollId, optionId, now).1.votes == db.votes
  {
  }

  // ---------------------------------------------------------------------
  // Creating a poll

  /** Dropping blanks distributes over concatenation. */
  lemma {:induction false} KeptConcat(a: seq<string>, b: seq<string>)
    ensures Kept(a + b) == Kept(a) + Kept(b)
    decreases |b|
  {
    if b == [] {
      assert a + b == a;
    } else {
      var front := b[..|b| - 1];
      assert (a + b)[..|a + b| - 1] == a + front;
      assert (a + b)[|a + b| - 1] == b[|b| - 1];
      KeptConcat(a, front);
    }
  }

  /** Every kept text is one of the submitted texts; none is made up. */
  lemma {:induction false} KeptFromTexts(texts: seq<string>)
    ensures forall t :: t in Kept(texts) ==> t in texts
  {
    if texts != [] {
      var front := texts[..|texts| - 1];
      KeptFromTexts(front);
      assert forall t :: t in front ==> t in texts;
    }
  }

  /** One more submitted text: it is kept at the end exactly when it is not blank. */
  lemma KeptStep(texts: seq<string>, i: nat)
    requires i < |texts|
    ensures Kept(texts[..i + 1]) == Kept(texts[..i]) + (if HasText(texts[i]) then [texts[i]] else [])
  {
    assert texts[..i + 1][..i] == texts[..i];
  }

  /** Inserting one more option row numbers it right after the previous ones. */
  lemma NewOptionsSnoc(kept: seq<string>, text: string, pollId: Id, first: Id)
    ensures NewOptions(kept + [text], pollId, first) ==
      NewOptions(kept, pollId, first)[first + |kept| := NewOption(text, pollId)]
  {
    assert (kept + [text])[..|kept|] == kept;
  }

  /** Inserting the next option row into the option table extends the inserted block by one. */
  lemma InsertNextOption(table: map<Id, OptionRow>, kept: seq<string>, text: string, pollId: Id, first: Id)
    ensures (table + NewOptions(kept, pollId, first))[first + |kept| := NewOption(text, pollId)]
         == table + NewOptions(kept + [text], pollId, first)
  {
    NewOptionsSnoc(kept, text, pollId, first);
  }

  /**
   * One turn of the insertion loop of create_poll: a non-blank text becomes
   * the next option row, numbered right after the ones already inserted;
   * a blank one changes nothing.
   */
  lemma InsertionStep(table: map<Id, OptionRow>, texts: seq<string>, i: nat, pollId: Id, first: Id)
    requires i < |texts|
    ensures var kept := Kept(texts[..i]);
      if HasText(texts[i]) then
        && |Kept(texts[..i + 1])| == |kept| + 1
        && table + NewOptions(Kept(texts[..i + 1]), pollId, first)
           == (table + NewOptions(kept, pollId, first))[first + |kept| := NewOption(texts[i], pollId)]
      else
        Kept(texts[..i + 1]) == kept
  {
    KeptStep(texts, i);
    if HasText(texts[i]) {
      InsertNextOption(table, Kept(texts[..i]), texts[i], pollId, first);
    } else {
      assert Kept(texts[..i]) + [] == Kept(texts[..i]);
    }
  }

  /** Texts that are all non-blank are kept as they are, in order. */
  lemma {:induction false} KeptAllText(texts: seq<string>)
    requires forall i :: 0 <= i < |texts| ==> HasText(texts[i])
    ensures Kept(texts) == texts
    decreases |texts|
  {
    if texts != [] {
      var front := texts[..|texts| - 1];
      KeptAllText(front);
      assert front + [texts[|texts| - 1]] == texts;
    }
  }

  /** Strictly increasing ids grow by at least the distance between their positions. */
  lemma {:induction false} IncreasingGaps(r: seq<Id>, i: nat, j: nat)
    requires forall a, b :: 0 <= a < b < |r| ==> r[a] < r[b]
    requires i <= j < |r|
    ensures r[j] - r[i] >= j - i
    decreases j - i
  {
    if i < j {
      IncreasingGaps(r, i + 1, j);
    }
  }

  /**
   * The options inserted for a new poll take exactly the next |kept| ids,
   * the i-th kept text under the i-th id, each for that poll with 0 votes.
   */
  lemma {:induction false} NewOptionsShape(kept: seq<string>, pollId: Id, first: Id)
    ensures |NewOptions(kept, pollId, first)| == |kept|
    ensures forall id :: id in NewOptions(kept, pollId, first) <==> first <= id < first + |kept|
    ensures forall id :: id in NewOptions(kept, pollId, first) ==>
      NewOptions(kept, pollId, first)[id] == OptionRow(kept[id - first], 0, pollId)
    decreases |kept|
  {
    if kept != [] {
      var n := |kept| - 1;
      NewOptionsShape(kept[..n], pollId, first);
      assert first + n !in NewOptions(kept[..n], pollId, first);
    }
  }

  /** Listing a block of consecutive ids in increasing order numbers them off. */
  lemma ConsecutiveIdsAscending(ids: set<Id>, first: Id, n: nat)
    requires |ids| == n
    requires forall id :: id in ids <==> first <= id < first + n
    ensures |IdsAscending(ids)| == n
    ensures forall i :: 0 <= i < n ==> IdsAscending(ids)[i] == first + i
  {
    var r := IdsAscending(ids);
    forall i | 0 <= i < n
      ensures r[i] == first + i
    {
      assert r[0] in ids && r[n - 1] in ids;
      IncreasingGaps(r, 0, i);
      IncreasingGaps(r, i, n - 1);
    }
  }

  /** The database after inserting `poll` and the options `kept` for it. */
  ghost function AfterCreate(db: Db, poll: PollRow, kept: seq<string>): Db
  {
    db.(polls := db.polls[db.nextPollId := poll],
        options := db.options + NewOptions(kept, db.nextPollId, db.nextOptionId),
        nextPollId := db.nextPollId + 1,
        nextOptionId := db.nextOptionId + |kept|)
  }

  /** The new rows do not collide with the old ones. */
  lemma CreateUsesFreshIds(db: Db, poll: PollRow, kept: seq<string>)
    requires ReferencesExist(db) && IdsBelowCounters(db)
    ensures db.nextPollId !in db.polls
    ensures forall o :: o in db.options ==> o !in NewOptions(kept, db.nextPollId, db.nextOptionId)
    ensures forall o :: o in db.options ==> db.options[o].pollId != db.nextPollId
    ensures forall v :: v in db.votes ==> db.votes[v].pollId != db.nextPollId
  {
    NewOptionsShape(kept, db.nextPollId, db.nextOptionId);
  }

  /** Nobody has voted in a poll that is about to be created. */
  lemma NoVotesForNewPoll(db: Db, userId: Id)
    requires IdsBelowCounters(db)
    ensures !HasVoted(db.votes, userId, db.nextPollId)
  {
  }

  /** The options of the new poll are exactly the inserted ones. */
  lemma NewPollOptions(db: Db, poll: PollRow, kept: seq<string>)
    requires ReferencesExist(db) && IdsBelowCounters(db)
    ensures OptionsOf(AfterCreate(db, poll, kept).options, db.nextPollId)
         == NewOptions(kept, db.nextPollId, db.nextOptionId).Keys
  {
    CreateUsesFreshIds(db, poll, kept);
    NewOptionsShape(kept, db.nextPollId, db.nextOptionId);
  }

  /** The options of every other poll are untouched. */
  lemma OldPollOptions(db: Db, poll: PollRow, kept: seq<string>, p: Id)
    requires IdsBelowCounters(db) && p != db.nextPollId
    ensures var next := AfterCreate(db, poll, kept).options;
      && OptionsOf(next, p) == OptionsOf(db.options, p)
      && forall o :: o in OptionsOf(db.options, p) ==> next[o] == db.options[o]
  {
    NewOptionsShape(kept, db.nextPollId, db.nextOptionId);
  }

  lemma CreateKeepsTally(db: Db, poll: PollRow, kept: seq<string>)
    requires TallyMatches(db) && ReferencesExist(db) && IdsBelowCounters(db)
    ensures TallyMatches(AfterCreate(db, poll, kept))
  {
    var next := AfterCreate(db, poll, kept);
    var pollId := db.nextPollId;
    CreateUsesFreshIds(db, poll, kept);
    forall p | p in next.polls
      ensures Tally(next.options, OptionsOf(next.options, p)) == |VotesOn(next.votes, p)|
    {
      if p == pollId {
        NewPollOptions(db, poll, kept);
        NewOptionsShape(kept, pollId, db.nextOptionId);
        TallyZero(next.options, OptionsOf(next.options, p));
        assert VotesOn(next.votes, p) == {};
      } else {
        OldPollOptions(db, poll, kept, p);
        TallyFrame(db.options, next.options, OptionsOf(db.options, p));
      }
    }
  }

  /** The new poll names an existing user and the new options name the new poll. */
  lemma CreateKeepsOwners(db: Db, poll: PollRow, kept: seq<string>)
    requires ReferencesExist(db) && poll.userId in db.users
    ensures var next := AfterCreate(db, poll, kept);
      && (forall p :: p in next.polls ==> next.polls[p].userId in next.users)
      && (forall o :: o in next.options ==> next.options[o].pollId in next.polls)
  {
    NewOptionsShape(kept, db.nextPollId, db.nextOptionId);
  }

  /** Every vote in an existing poll still names one of that poll's options. */
  lemma CreateKeepsVoteTargets(db: Db, poll: PollRow, kept: seq<string>)
    requires ReferencesExist(db) && IdsBelowCounters(db)
    ensures var next := AfterCreate(db, poll, kept);
      forall v :: v in next.votes && next.votes[v].pollId in next.polls ==>
        next.votes[v].optionId in next.options && next.options[next.votes[v].optionId].pollId == next.votes[v].pollId
  {
    var next := AfterCreate(db, poll, kept);
    CreateUsesFreshIds(db, poll, kept);
    forall v | v in next.votes && next.votes[v].pollId in next.polls
      ensures next.votes[v].optionId in next.options
      ensures next.options[next.votes[v].optionId].pollId == next.votes[v].pollId
    {
      assert next.votes[v].pollId in db.polls;
    }
  }

  lemma CreateKeepsReferences(db: Db, poll: PollRow, kept: seq<string>)
    requires ReferencesExist(db) && IdsBelowCounters(db) && poll.userId in db.users
    ensures ReferencesExist(AfterCreate(db, poll, kept))
  {
    CreateKeepsOwners(db, poll, kept);
    CreateKeepsVoteTargets(db, poll, kept);
  }

  lemma CreateKeepsCounters(db: Db, poll: PollRow, kept: seq<string>)
    requires IdsBelowCounters(db)
    ensures IdsBelowCounters(AfterCreate(db, poll, kept))
  {
    var next := AfterCreate(db, poll, kept);
    forall o | o in next.options
      ensures o < next.nextOptionId
    {
      if o !in db.options {
        NewOptionsShape(kept, db.nextPollId, db.nextOptionId);
      }
    }
  }

  /**
   * A successful creation keeps every invariant: the new poll and options
   * take fresh ids, and the new options tally to zero, as no vote row
   * names the new poll.
   */
  lemma CreatePollPreservesValid(db: Db, userId: Id, question: string, texts: seq<string>, durationHours: int,
                                 now: Time)
    requires Valid(db) && userId in db.users
    ensures Valid(CreatePoll(db, userId, question, texts, durationHours, now).1)
  {
    var r := CreatePoll(db, userId, question, texts, durationHours, now);
    if r.0.Ok? {
      var poll := NewPoll(question, userId, ExpiryFor(durationHours, now), now);
      assert r.1 == AfterCreate(db, poll, Kept(texts));
      CreateKeepsReferences(db, poll, Kept(texts));
      CreateKeepsCounters(db, poll, Kept(texts));
      CreateKeepsTally(db, poll, Kept(texts));
    }
  }

  /** Options numbered off from `first`, listed by consecutive ids, come in insertion order. */
  lemma ListedInInsertionOrder(options: map<Id, OptionRow>, pollId: Id, kept: seq<string>, first: Id, ids: seq<Id>)
    requires |ids| == |kept|
    requires forall i :: 0 <= i < |ids| ==> ids[i] == first + i
    requires forall id :: first <= id < first + |kept| ==>
      id in options && options[id] == OptionRow(kept[id - first], 0, pollId)
    ensures forall i :: 0 <= i < |kept| ==> ids[i] in options && options[ids[i]] == OptionRow(kept[i], 0, pollId)
  {
    forall i | 0 <= i < |kept|
      ensures ids[i] in options && options[ids[i]] == OptionRow(kept[i], 0, pollId)
    {
      assert ids[i] - first == i;
    }
  }

  /** The options of a new poll take exactly the next |kept| option ids. */
  lemma NewPollBlockIds(db: Db, poll: PollRow, kept: seq<string>)
    requires ReferencesExist(db) && IdsBelowCounters(db)
    ensures var options := AfterCreate(db, poll, kept).options;
      && |OptionsOf(options, db.nextPollId)| == |kept|
      && forall id :: id in OptionsOf(options, db.nextPollId) <==> db.nextOptionId <= id < db.nextOptionId + |kept|
  {
    var block := NewOptions(kept, db.nextPollId, db.nextOptionId);
    NewPollOptions(db, poll, kept);
    NewOptionsShape(kept, db.nextPollId, db.nextOptionId);
    assert |block.Keys| == |block|;
  }

  /** The `k`-th new option id holds the `k`-th kept text, with no votes. */
  lemma NewPollBlockValues(db: Db, poll: PollRow, kept: seq<string>)
    ensures var options := AfterCreate(db, poll, kept).options;
      forall id :: db.nextOptionId <= id < db.nextOptionId + |kept| ==>
        id in options && options[id] == OptionRow(kept[id - db.nextOptionId], 0, db.nextPollId)
  {
    NewOptionsShape(kept, db.nextPollId, db.nextOptionId);
  }

  /** The results of a poll nobody voted in, whose options were inserted in one block. */
  lemma ResultsOfUntouchedPoll(db: Db, viewer: Option<Id>, pollId: Id, kept: seq<string>)
    requires pollId in db.polls
    requires viewer.Some? ==> !HasVoted(db.votes, viewer.value, pollId)
    requires |OptionIdsOf(db.options, pollId)| == |kept|
    requires forall i :: 0 <= i < |kept| ==>
      db.options[OptionIdsOf(db.options, pollId)[i]] == OptionRow(kept[i], 0, pollId)
    ensures GetResults(db, viewer, pollId) ==
      Ok(Results(seq(|kept|, i requires 0 <= i < |kept| => OptionResult(kept[i], 0)),
                 false, db.polls[pollId].isActive, db.polls[pollId].expiresAt))
  {
    var got := GetResults(db, viewer, pollId);
    var want := seq(|kept|, i requires 0 <= i < |kept| => OptionResult(kept[i], 0));
    assert |got.value.results| == |want|;
    assert forall i :: 0 <= i < |want| ==> got.value.results[i] == want[i];
    assert got.value.results == want;
  }

  /** The results of a poll nobody voted in, whose options were inserted in one block from `first`. */
  lemma ResultsOfBlockPoll(db: Db, viewer: Option<Id>, pollId: Id, kept: seq<string>, first: Id)
    requires pollId in db.polls
    requires viewer.Some? ==> !HasVoted(db.votes, viewer.value, pollId)
    requires |OptionsOf(db.options, pollId)| == |kept|
    requires forall id :: id in OptionsOf(db.options, pollId) <==> first <= id < first + |kept|
    requires forall id :: first <= id < first + |kept| ==>
      id in db.options && db.options[id] == OptionRow(kept[id - first], 0, pollId)
    ensures GetResults(db, viewer, pollId) ==
      Ok(Results(seq(|kept|, i requires 0 <= i < |kept| => OptionResult(kept[i], 0)),
                 false, db.polls[pollId].isActive, db.polls[pollId].expiresAt))
  {
    var ids := OptionIdsOf(db.options, pollId);
    ConsecutiveIdsAscending(OptionsOf(db.options, pollId), first, |kept|);
    ListedInInsertionOrder(db.options, pollId, kept, first, ids);
    ResultsOfUntouchedPoll(db, viewer, pollId, kept);
  }

  /** Right after its creation, a poll's results list the kept texts in order, with 0 votes. */
  lemma ResultsOfNewPoll(db: Db, poll: PollRow, kept: seq<string>, viewer: Option<Id>)
    requires ReferencesExist(db) && IdsBelowCounters(db)
    ensures
      GetResults(AfterCreate(db, poll, kept), viewer, db.nextPollId) ==
        Ok(Results(seq(|kept|, i requires 0 <= i < |kept| => OptionResult(kept[i], 0)),
                   false, poll.isActive, poll.expiresAt))
  {
    var next := AfterCreate(db, poll, kept);
    NewPollBlockIds(db, poll, kept);
    NewPollBlockValues(db, poll, kept);
    if viewer.Some? {
      NoVotesForNewPoll(db, viewer.value);
    }
    ResultsOfBlockPoll(next, viewer, db.nextPollId, kept, db.nextOptionId);
  }

  /**
   * A created poll is new, active, owned by its creator and expires as its
   * duration says; reading its results right away lists exactly the
   * non-blank submitted texts, in submitted order, each with 0 votes.
   */
  lemma CreatedPoll(db: Db, userId: Id, question: string, texts: seq<string>, durationHours: int, now: Time,
                    viewer: Option<Id>)
    requires Valid(db)
    requires question != [] && |texts| >= 2
    ensures
      var r := CreatePoll(db, userId, question, texts, durationHours, now);
      var pollId := r.0.value;
      var kept := Kept(texts);
      && pollId !in db.polls
      && r.1.polls[pollId] == PollRow(question, now, ExpiryFor(durationHours, now), true, userId)
      && GetResults(r.1, viewer, pollId) ==
           Ok(Results(seq(|kept|, i requires 0 <= i < |kept| => OptionResult(kept[i], 0)),
                      false, true, ExpiryFor(durationHours, now)))
  {
    var poll := NewPoll(question, userId, ExpiryFor(durationHours, now), now);
    var r := CreatePoll(db, userId, question, texts, durationHours, now);
    assert r.1 == AfterCreate(db, poll, Kept(texts)) && r.0.value == db.nextPollId;
    ResultsOfNewPoll(db, poll, Kept(texts), viewer);
  }

  /**
   * The acceptance test counts option strings before blanks are dropped,
   * so a poll can be stored with a single option.
   */
  lemma OneOptionPollIsAccepted()
    ensures
      var r := CreatePoll(EmptyDb, 1, "Tabs or spaces?", ["Tabs", "   "], 0, 0);
      && r.0 == Ok(1)
      && OptionsOf(r.1.options, 1) == {1}
  {
    assert !IsSpace("Tabs"[0]);
    assert HasText("Tabs");
    assert forall i :: 0 <= i < |"   "| ==> IsSpace("   "[i]);
    assert !HasText("   ");
    assert Kept(["Tabs", "   "]) == ["Tabs"] by {
      assert ["Tabs", "   "][..1] == ["Tabs"];
      assert ["Tabs"][..0] == [];
    }
  }

  // ---------------------------------------------------------------------
  // Deleting a poll and registering

  /** The options of every remaining poll are untouched by a delete. */
  lemma DeleteKeepsOtherOptions(db: Db, userId: Id, pollId: Id, p: Id)
    requires DeletePoll(db, userId, pollId).0.Ok? && p != pollId
    ensures var next := DeletePoll(db, userId, pollId).1.options;
      && OptionsOf(next, p) == OptionsOf(db.options, p)
      && forall o :: o in OptionsOf(db.options, p) ==> next[o] == db.options[o]
  {
  }

  lemma DeleteKeepsReferences(db: Db, userId: Id, pollId: Id)
    requires ReferencesExist(db)
    ensures ReferencesExist(DeletePoll(db, userId, pollId).1)
  {
  }

  lemma DeleteKeepsTally(db: Db, userId: Id, pollId: Id)
    requires TallyMatches(db)
    ensures TallyMatches(DeletePoll(db, userId, pollId).1)
  {
    var r := DeletePoll(db, userId, pollId);
    if r.0.Ok? {
      var next := r.1;
      forall p | p in next.polls
        ensures Tally(next.options, OptionsOf(next.options, p)) == |VotesOn(next.votes, p)|
      {
        DeleteKeepsOtherOptions(db, userId, pollId, p);
        TallyFrame(db.options, next.options, OptionsOf(db.options, p));
      }
    }
  }

  /**
   * A delete keeps every invariant: the options of the deleted poll go with
   * it; its vote rows stay, naming a poll id that the counters never hand
   * out again. SQLite's own numbering can hand it out again; see
   * ReusedPollIdInheritsVotes.
   */
  lemma DeletePollPreservesValid(db: Db, userId: Id, pollId: Id)
    requires Valid(db)
    ensures Valid(DeletePoll(db, userId, pollId).1)
  {
    DeleteKeepsReferences(db, userId, pollId);
    DeleteKeepsTally(db, userId, pollId);
  }

  /** A registration keeps usernames and emails unique. */
  lemma RegisterPreservesValid(db: Db, username: string, email: string, password: string, confirmPassword: string,
                               passwordHash: string, now: Time)
    requires Valid(db)
    ensures Valid(Register(db, username, email, password, confirmPassword, passwordHash, now).1)
  {
    var r := Register(db, username, email, password, confirmPassword, passwordHash, now);
    if r.0.Ok? {
      var next := r.1;
      var userId := db.nextUserId;
      assert userId !in db.users;
      forall a, b | a in next.users && b in next.users && a != b
        ensures next.users[a].username != next.users[b].username && next.users[a].email != next.users[b].email
      {
        if a == userId {
          assert db.users[b].username != username && db.users[b].email != email;
        } else if b == userId {
          assert db.users[a].username != username && db.users[a].email != email;
        }
      }
    }
  }

  /**
   * A registration that passes the three checks succeeds: the new user takes
   * an id not in use and is the one row added.
   */
  lemma RegisteredUser(db: Db, username: string, email: string, password: string, passwordHash: string, now: Time)
    requires Valid(db)
    requires !UsernameInUse(db.users, username) && !EmailInUse(db.users, email)
    ensures var r := Register(db, username, email, password, password, passwordHash, now);
      && r.0.Ok?
      && r.0.value !in db.users
      && r.1.users.Keys == db.users.Keys + {r.0.value}
      && |r.1.users| == |db.users| + 1
      && r.1.users[r.0.value] == UserRow(username, email, passwordHash, now)
  {
    var r := Register(db, username, email, password, password, passwordHash, now);
    assert r.1.users.Keys == db.users.Keys + {r.0.value};
  }

  // ---------------------------------------------------------------------
  // Reusing the id of a deleted poll

  /** One user who voted in the one poll there is. */
  ghost const VotedDb: Db :=
    Db(map[1 := UserRow("ana", "ana@example.org", "hash", 0)],
       map[1 := PollRow("Lunch?", 0, None, true, 1)],
       map[1 := OptionRow("Pizza", 1, 1)],
       map[1 := VoteRow(1, 1, 1, 5)],
       2, 2, 2, 2)

  lemma VotedDbReferences()
    ensures ReferencesExist(VotedDb)
  {
    var db := VotedDb;
    forall v | v in db.votes
      ensures db.votes[v] == VoteRow(1, 1, 1, 5)
    {
    }
    assert db.options[1].pollId == 1 && 1 in db.polls && 1 in db.users;
    assert db.polls[1].userId == 1;
  }

  lemma VotedDbTally()
    ensures TallyMatches(VotedDb)
  {
    var db := VotedDb;
    assert db.polls.Keys == {1};
    assert OptionsOf(db.options, 1) == {1};
    assert VotesOn(db.votes, 1) == {1};
    TallyRemove(db.options, {1}, 1);
  }

  lemma VotedDbUnique()
    ensures UniqueUsernames(VotedDb.users) && UniqueEmails(VotedDb.users) && OneVotePerUserPoll(VotedDb.votes)
    ensures IdsBelowCounters(VotedDb)
  {
    var db := VotedDb;
    assert db.users.Keys == {1} && db.polls.Keys == {1} && db.options.Keys == {1} && db.votes.Keys == {1};
  }

  /** The starting point of the example below meets every invariant. */
  lemma VotedDbValid()
    ensures Valid(VotedDb)
  {
    VotedDbReferences();
    VotedDbTally();
    VotedDbUnique();
  }

  /** VotedDb once its poll is deleted: the vote row stays. */
  ghost const PollDeletedDb: Db := VotedDb.(polls := map[], options := map[])

  /** PollDeletedDb with a new poll numbered as SQLite numbers it, taking id 1 back. */
  ghost const ReusedDb: Db :=
    PollDeletedDb.(polls := map[1 := PollRow("Dinner?", 20, None, true, 1)],
                   options := map[1 := OptionRow("Soup", 0, 1), 2 := OptionRow("Salad", 0, 1)],
                   nextUserId := 2, nextPollId := 2, nextOptionId := 3, nextVoteId := 2)

  lemma SoupAndSaladKept()
    ensures Kept(["Soup", "Salad"]) == ["Soup", "Salad"]
  {
    var texts := ["Soup", "Salad"];
    assert !IsSpace(texts[0][0]) && !IsSpace(texts[1][0]);
    assert HasText(texts[0]) && HasText(texts[1]);
    KeptAllText(texts);
  }

  lemma SqliteAllocationAfterDelete()
    ensures SqliteAllocation(PollDeletedDb) == PollDeletedDb.(nextPollId := 1, nextOptionId := 1)
  {
    var db := PollDeletedDb;
    assert db.users.Keys == {1} && db.votes.Keys == {1};
    assert db.polls.Keys == {} && db.options.Keys == {};
  }

  lemma SoupAndSaladOptions()
    ensures NewOptions(["Soup", "Salad"], 1, 1) == map[1 := OptionRow("Soup", 0, 1), 2 := OptionRow("Salad", 0, 1)]
  {
    var texts := ["Soup", "Salad"];
    assert texts[..1] == ["Soup"] && texts[..1][..0] == [];
  }

  lemma CreateAfterSqliteAllocation()
    ensures CreatePoll(SqliteAllocation(PollDeletedDb), 1, "Dinner?", ["Soup", "Salad"], 0, 20) == (Ok(1), ReusedDb)
  {
    SoupAndSaladKept();
    SqliteAllocationAfterDelete();
    SoupAndSaladOptions();
    var block := NewOptions(["Soup", "Salad"], 1, 1);
    assert map[] + block == ReusedDb.options;
    assert ExpiryFor(0, 20) == None;
    assert map[][1 := NewPoll("Dinner?", 1, None, 20)] == ReusedDb.polls;
  }

  /** The new poll's counts add up to 0, while one vote row names it. */
  lemma ReusedDbTallyFails()
    ensures !TallyMatches(ReusedDb)
  {
    var db := ReusedDb;
    assert OptionsOf(db.options, 1) == {1, 2};
    TallyZero(db.options, {1, 2});
    assert VotesOn(db.votes, 1) == {1};
  }

  lemma DeleteVotedPoll()
    ensures DeletePoll(VotedDb, 1, 1) == (Ok(()), PollDeletedDb)
  {
    assert VotedDb.polls - {1} == map[];
    assert VotedDb.options.Keys == {1} && VotedDb.options[1].pollId == 1;
    assert DeletePoll(VotedDb, 1, 1).1.options.Keys == {};
  }

  /** The voter of the deleted poll counts as having voted in the new one. */
  lemma ReusedDbVoterRefused()
    ensures CastVote(ReusedDb, 1, 1, 1, 30).0 == Err(AlreadyVoted)
    ensures GetResults(ReusedDb, Some(1), 1).value.hasVoted
  {
    var db := ReusedDb;
    assert db.votes[1].userId == 1 && db.votes[1].pollId == 1;
    assert HasVoted(db.votes, 1, 1);
    assert OpenAt(db.polls, 1, 30);
  }

  /** With the counters, the same new poll takes id 2, in which nobody has voted. */
  lemma CountedIdAfterDelete()
    ensures CreatePoll(PollDeletedDb, 1, "Dinner?", ["Soup", "Salad"], 0, 20).0 == Ok(2)
    ensures !HasVoted(CreatePoll(PollDeletedDb, 1, "Dinner?", ["Soup", "Salad"], 0, 20).1.votes, 1, 2)
  {
    var votes := PollDeletedDb.votes;
    assert votes.Keys == {1} && votes[1].pollId == 1;
  }

  /**
   * With SQLite's numbering, the creator deletes the poll and creates a new
   * one: the new poll takes id 1 back and, since the vote rows of the old
   * poll were not deleted, it starts with a vote that none of its option
   * counts reflects. The voter is refused as having voted already and is
   * shown as having voted. With counters that never go back, the new poll
   * takes id 2 and nobody has voted in it.
   */
  lemma ReusedPollIdInheritsVotes()
    ensures
      var deleted := DeletePoll(VotedDb, 1, 1).1;
      var reused := CreatePoll(SqliteAllocation(deleted), 1, "Dinner?", ["Soup", "Salad"], 0, 20);
      var counted := CreatePoll(deleted, 1, "Dinner?", ["Soup", "Salad"], 0, 20);
      && Valid(VotedDb)
      && DeletePoll(VotedDb, 1, 1).0.Ok?
      && reused.0 == Ok(1)
      && !TallyMatches(reused.1)
      && CastVote(reused.1, 1, 1, 1, 30).0 == Err(AlreadyVoted)
      && GetResults(reused.1, Some(1), 1).value.hasVoted
      && counted.0 == Ok(2)
      && !HasVoted(counted.1.votes, 1, 2)
  {
    VotedDbValid();
    DeleteVotedPoll();
    CreateAfterSqliteAllocation();
    ReusedDbTallyFails();
    ReusedDbVoterRefused();
    CountedIdAfterDelete();
  }

  // ---------------------------------------------------------------------
  // Reading a poll

  /**
   * get_results reports the stored flag: a poll whose expiry has passed
   * still reads as active until a sweep has run, while view_poll shows it
   * ended.
   */
  lemma ResultsMayReportExpiredPollActive()
    ensures
      var db := EmptyDb.(polls := map[1 := PollRow("Lunch?", 0, Some(3600), true, 1)]);
      && GetResults(db, None, 1).Ok?
      && GetResults(db, None, 1).value.isActive
      && ViewPoll(db, None, 1, 7200).0.Ok?
      && !ViewPoll(db, None, 1, 7200).0.value.poll.isActive
  {
  }
}
