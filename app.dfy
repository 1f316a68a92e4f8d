/**
 * The request handlers of app.py as functions from a database value to a
 * result and the next database value. The authenticated user id, the clock
 * and the password hash are parameters; routing and rendering are not
 * modelled. Every handler that reads or writes the active flag of a poll
 * through check_poll_expiry does so here through CheckPollExpiry.
 */
module App {
  import opened Schema

  /** The outcomes the handlers report instead of a success. */
  datatype Error =
    | NotFound          // get_or_404
    | PollEnded         // "This poll has ended."
    | AlreadyVoted      // "You have already voted in this poll."
    | InvalidOption     // "Invalid option for this poll"
    | Forbidden         // "You can only delete your own polls!"
    | IncompletePoll    // "Please provide a question and at least 2 options."
    | PasswordMismatch  // "Passwords do not match!"
    | UsernameTaken     // "Username already exists!"
    | EmailTaken        // "Email already registered!"

  datatype Result<+T> = Ok(value: T) | Err(error: Error)

  // ---------------------------------------------------------------------
  // check_poll_expiry

  /** The poll has an expiry and it lies strictly before `now`. */
  predicate Expired(p: PollRow, now: Time)
  {
    p.expiresAt.Some? && p.expiresAt.value < now
  }

  /** One poll as the sweep leaves it. */
  function Swept(p: PollRow, now: Time): PollRow
  {
    if p.isActive && Expired(p, now) then p.(isActive := false) else p
  }

  /** The active polls whose expiry has passed are switched off. */
  function SweepPolls(polls: map<Id, PollRow>, now: Time): (r: map<Id, PollRow>)
    ensures r.Keys == polls.Keys
    ensures forall id :: id in polls ==>
      && (r[id].isActive <==> polls[id].isActive && !Expired(polls[id], now))
      && r[id] == polls[id].(isActive := r[id].isActive)
  {
    map id | id in polls :: Swept(polls[id], now)
  }

  /** The sweep applied to the database; it touches nothing but the poll table. */
  function CheckPollExpiry(db: Db, now: Time): Db
  {
    db.(polls := SweepPolls(db.polls, now))
  }

  /** The poll exists and is still active once the sweep at `now` has run. */
  predicate OpenAt(polls: map<Id, PollRow>, pollId: Id, now: Time)
  {
    pollId in polls && polls[pollId].isActive && !Expired(polls[pollId], now)
  }

  // ---------------------------------------------------------------------
  // vote

  /** A vote row exists for (userId, pollId). */
  predicate HasVoted(votes: map<Id, VoteRow>, userId: Id, pollId: Id)
  {
    exists v | v in votes :: votes[v].userId == userId && votes[v].pollId == pollId
  }

  /**
   * The vote handler: sweep, then the checks in order (first failure wins),
   * then one count increment paired with one vote row. The sweep's changes
   * are committed whatever the outcome.
   */
  function CastVote(db: Db, userId: Id, pollId: Id, optionId: Id, now: Time): (r: (Result<nat>, Db))
    ensures r.1.(options := db.options, votes := db.votes, nextVoteId := db.nextVoteId) == CheckPollExpiry(db, now)
    ensures pollId !in db.polls ==> r.0 == Err(NotFound)
    ensures pollId in db.polls && !OpenAt(db.polls, pollId, now) ==> r.0 == Err(PollEnded)
    ensures OpenAt(db.polls, pollId, now) && HasVoted(db.votes, userId, pollId) ==> r.0 == Err(AlreadyVoted)
    ensures OpenAt(db.polls, pollId, now) && !HasVoted(db.votes, userId, pollId) && optionId !in db.options ==>
      r.0 == Err(NotFound)
    ensures (OpenAt(db.polls, pollId, now) && !HasVoted(db.votes, userId, pollId) && optionId in db.options &&
             db.options[optionId].pollId != pollId) ==> r.0 == Err(InvalidOption)
    ensures r.0.Ok? <==>
      OpenAt(db.polls, pollId, now) && !HasVoted(db.votes, userId, pollId) &&
      optionId in db.options && db.options[optionId].pollId == pollId
    ensures r.0.Err? ==> r.1.options == db.options && r.1.votes == db.votes && r.1.nextVoteId == db.nextVoteId
    ensures r.0.Ok? ==>
      && r.1.options.Keys == db.options.Keys
      && (forall o :: o in db.options && o != optionId ==> r.1.options[o] == db.options[o])
      && r.1.options[optionId] == db.options[optionId].(votes := db.options[optionId].votes + 1)
      && r.0.value == r.1.options[optionId].votes
      && r.1.votes == db.votes[db.nextVoteId := NewVote(userId, pollId, optionId, now)]
      && r.1.nextVoteId == db.nextVoteId + 1
  {
    var swept := CheckPollExpiry(db, now);
    if pollId !in swept.polls then (Err(NotFound), swept)
    else if !swept.polls[pollId].isActive then (Err(PollEnded), swept)
    else if HasVoted(swept.votes, userId, pollId) then (Err(AlreadyVoted), swept)
    else if optionId !in swept.options then (Err(NotFound), swept)
    else if swept.options[optionId].pollId != pollId then (Err(InvalidOption), swept)
    else
      var option := swept.options[optionId];
      var counted := option.(votes := option.votes + 1);
      (Ok(counted.votes),
       swept.(options := swept.options[optionId := counted],
              votes := swept.votes[swept.nextVoteId := NewVote(userId, pollId, optionId, now)],
              nextVoteId := swept.nextVoteId + 1))
  }

  // ---------------------------------------------------------------------
  // create_poll

  /** The characters Python's `str.strip()` removes (Unicode whitespace). */
  predicate IsSpace(c: char)
  {
    var n := c as int;
    || n == 0x20 || 0x09 <= n <= 0x0D || 0x1C <= n <= 0x1F || n == 0x85 || n == 0xA0
    || n == 0x1680 || 0x2000 <= n <= 0x200A || n == 0x2028 || n == 0x2029
    || n == 0x202F || n == 0x205F || n == 0x3000
  }

  /** `s.strip()` is non-empty. */
  predicate HasText(s: string)
  {
    exists i | 0 <= i < |s| :: !IsSpace(s[i])
  }

  /** The submitted option texts that survive the blank check, unstripped and in order. */
  function Kept(texts: seq<string>): (kept: seq<string>)
    ensures |kept| <= |texts|
    ensures forall k :: 0 <= k < |kept| ==> HasText(kept[k])
  {
    if texts == [] then []
    else
      var last := texts[|texts| - 1];
      Kept(texts[..|texts| - 1]) + (if HasText(last) then [last] else [])
  }

  /** The expiry a duration in hours gives: "0" means none. */
  function ExpiryFor(durationHours: int, now: Time): (e: Option<Time>)
    ensures e.None? <==> durationHours == 0
    ensures e.Some? ==> e.value - now == durationHours * SecondsPerHour
  {
    if durationHours != 0 then Some(now + durationHours * SecondsPerHour) else None
  }

  /** The option rows inserted for `kept`, one after the other, numbered from `firstId`. */
  function NewOptions(kept: seq<string>, pollId: Id, firstId: Id): map<Id, OptionRow>
  {
    if kept == [] then map[]
    else
      var n := |kept| - 1;
      NewOptions(kept[..n], pollId, firstId)[firstId + n := NewOption(kept[n], pollId)]
  }

  /**
   * The create_poll handler: the question must be non-empty and at least two
   * option strings must have been submitted (counted before blanks are
   * dropped); then the poll and its non-blank options are inserted.
   */
  function CreatePoll(db: Db, userId: Id, question: string, texts: seq<string>, durationHours: int, now: Time)
    : (r: (Result<Id>, Db))
    ensures r.0.Ok? <==> question != [] && |texts| >= 2
    ensures r.0.Err? ==> r.0.error == IncompletePoll && r.1 == db
    ensures r.0.Ok? ==>
      && r.1.users == db.users && r.1.votes == db.votes
      && r.1.polls == db.polls[r.0.value := NewPoll(question, userId, ExpiryFor(durationHours, now), now)]
      && r.1.options == db.options + NewOptions(Kept(texts), r.0.value, db.nextOptionId)
  {
    if question != [] && |texts| >= 2 then
      var pollId := db.nextPollId;
      var kept := Kept(texts);
      (Ok(pollId),
       db.(polls := db.polls[pollId := NewPoll(question, userId, ExpiryFor(durationHours, now), now)],
           options := db.options + NewOptions(kept, pollId, db.nextOptionId),
           nextPollId := pollId + 1,
           nextOptionId := db.nextOptionId + |kept|))
    else
      (Err(IncompletePoll), db)
  }

  // ---------------------------------------------------------------------
  // delete_poll

  /**
   * The delete_poll handler: only the creator may delete; the poll goes and
   * its options go with it, while its vote rows stay.
   */
  function DeletePoll(db: Db, userId: Id, pollId: Id): (r: (Result<()>, Db))
    ensures r.0 == Err(NotFound) <==> pollId !in db.polls
    ensures r.0 == Err(Forbidden) <==> pollId in db.polls && db.polls[pollId].userId != userId
    ensures r.0.Ok? <==> pollId in db.polls && db.polls[pollId].userId == userId
    ensures r.0.Err? ==> r.1 == db
    ensures r.0.Ok? ==>
      && r.1.polls.Keys == db.polls.Keys - {pollId}
      && (forall p :: p in r.1.polls ==> r.1.polls[p] == db.polls[p])
      && r.1.options.Keys == db.options.Keys - OptionsOf(db.options, pollId)
      && (forall o :: o in r.1.options ==> r.1.options[o] == db.options[o])
      && OptionsOf(r.1.options, pollId) == {}
      && r.1.users == db.users && r.1.votes == db.votes
  {
    if pollId !in db.polls then (Err(NotFound), db)
    else if db.polls[pollId].userId != userId then (Err(Forbidden), db)
    else
      (Ok(()),
       db.(polls := db.polls - {pollId},
           options := map o | o in db.options && db.options[o].pollId != pollId :: db.options[o]))
  }

  // ---------------------------------------------------------------------
  // register

  predicate UsernameInUse(users: map<Id, UserRow>, username: string)
  {
    exists id | id in users :: users[id].username == username
  }

  predicate EmailInUse(users: map<Id, UserRow>, email: string)
  {
    exists id | id in users :: users[id].email == email
  }

  /**
   * The register handler: password confirmation, then username, then email;
   * otherwise one new user. `passwordHash` is what the credential store
   * makes of `password`.
   */
  function Register(db: Db, username: string, email: string, password: string, confirmPassword: string,
                    passwordHash: string, now: Time): (r: (Result<Id>, Db))
    ensures r.0 == Err(PasswordMismatch) <==> password != confirmPassword
    ensures r.0 == Err(UsernameTaken) <==> password == confirmPassword && UsernameInUse(db.users, username)
    ensures r.0 == Err(EmailTaken) <==>
      password == confirmPassword && !UsernameInUse(db.users, username) && EmailInUse(db.users, email)
    ensures r.0.Ok? <==>
      password == confirmPassword && !UsernameInUse(db.users, username) && !EmailInUse(db.users, email)
    ensures r.0.Ok? && IdsBelowCounters(db) ==> r.0.value !in db.users
    ensures r.0.Err? ==> r.1 == db
    ensures r.0.Ok? ==>
      && r.1.users == db.users[r.0.value := NewUser(username, email, passwordHash, now)]
      && r.1.polls == db.polls && r.1.options == db.options && r.1.votes == db.votes
  {
    if password != confirmPassword then (Err(PasswordMismatch), db)
    else if UsernameInUse(db.users, username) then (Err(UsernameTaken), db)
    else if EmailInUse(db.users, email) then (Err(EmailTaken), db)
    else
      var userId := db.nextUserId;
      (Ok(userId),
       db.(users := db.users[userId := NewUser(username, email, passwordHash, now)], nextUserId := userId + 1))
  }

  // ---------------------------------------------------------------------
  // Listings: index and profile order polls by created_at, newest first.

  /**
   * `a` is listed no later than `b`: it is newer, or as new with a higher id
   * (the database leaves the order of equal timestamps open; this picks one).
   */
  predicate NewerOrSame(polls: map<Id, PollRow>, a: Id, b: Id)
    requires a in polls && b in polls
  {
    polls[a].createdAt > polls[b].createdAt || (polls[a].createdAt == polls[b].createdAt && a >= b)
  }

  /** `m` is the first of `ids` in listing order. */
  predicate IsNewest(polls: map<Id, PollRow>, m: Id, ids: set<Id>)
    requires ids <= polls.Keys
  {
    m in ids && forall j :: j in ids ==> NewerOrSame(polls, m, j)
  }

  lemma {:induction false} NewestExists(polls: map<Id, PollRow>, ids: set<Id>)
    requires ids != {} && ids <= polls.Keys
    ensures exists m :: IsNewest(polls, m, ids)
    decreases ids
  {
    var x :| x in ids;
    if ids == {x} {
      assert IsNewest(polls, x, ids);
    } else {
      NewestExists(polls, ids - {x});
      var m :| IsNewest(polls, m, ids - {x});
      var best := if NewerOrSame(polls, x, m) then x else m;
      forall j | j in ids
        ensures NewerOrSame(polls, best, j)
      {
        if j != x {
          assert j in ids - {x};
        }
      }
      assert IsNewest(polls, best, ids);
    }
  }

  /** Putting the newest poll in front of the others, listed newest first, lists them all newest first. */
  lemma NewestCons(polls: map<Id, PollRow>, m: Id, rest: seq<Id>, ids: set<Id>)
    requires ids <= polls.Keys && IsNewest(polls, m, ids)
    requires |rest| == |ids - {m}|
    requires forall x :: x in rest <==> x in ids - {m}
    requires forall k :: 0 <= k < |rest| ==> rest[k] in polls
    requires forall i, j :: 0 <= i < j < |rest| ==> rest[i] != rest[j] && NewerOrSame(polls, rest[i], rest[j])
    ensures |[m] + rest| == |ids|
    ensures forall x :: x in [m] + rest <==> x in ids
    ensures forall k :: 0 <= k < |[m] + rest| ==> ([m] + rest)[k] in polls
    ensures forall i, j :: 0 <= i < j < |[m] + rest| ==>
      ([m] + rest)[i] != ([m] + rest)[j] && NewerOrSame(polls, ([m] + rest)[i], ([m] + rest)[j])
  {
    var r := [m] + rest;
    forall i, j | 0 <= i < j < |r|
      ensures r[i] != r[j] && NewerOrSame(polls, r[i], r[j])
    {
      assert r[j] == rest[j - 1] && r[j] in ids - {m};
      if i > 0 {
        assert r[i] == rest[i - 1];
      }
    }
    forall x
      ensures x in r <==> x in ids
    {
      if x in ids && x != m {
        assert x in ids - {m};
      }
    }
  }

  /** The polls `ids`, each once, newest first. */
  function NewestFirst(polls: map<Id, PollRow>, ids: set<Id>): (r: seq<Id>)
    requires ids <= polls.Keys
    ensures |r| == |ids|
    ensures forall x :: x in r <==> x in ids
    ensures forall i, j :: 0 <= i < j < |r| ==> r[i] != r[j] && NewerOrSame(polls, r[i], r[j])
    decreases ids
  {
    if ids == {} then []
    else
      NewestExists(polls, ids);
      var m :| IsNewest(polls, m, ids);
      var rest := NewestFirst(polls, ids - {m});
      NewestCons(polls, m, rest, ids);
      [m] + rest
  }

  /** The index page: the sweep runs, then every poll is listed, newest first. */
  function Index(db: Db, now: Time): (r: (seq<Id>, Db))
    ensures r.1 == CheckPollExpiry(db, now)
    ensures |r.0| == |db.polls|
    ensures forall p :: p in r.0 <==> p in db.polls
    ensures forall i, j :: 0 <= i < j < |r.0| ==>
      r.0[i] != r.0[j] && db.polls[r.0[i]].createdAt >= db.polls[r.0[j]].createdAt
  {
    var swept := CheckPollExpiry(db, now);
    (NewestFirst(swept.polls, swept.polls.Keys), swept)
  }

  /** The profile page: the user's own polls, newest first; no sweep runs. */
  function Profile(db: Db, userId: Id): (r: seq<Id>)
    ensures forall p :: p in r <==> p in db.polls && db.polls[p].userId == userId
    ensures forall i, j :: 0 <= i < j < |r| ==>
      r[i] != r[j] && db.polls[r[i]].createdAt >= db.polls[r[j]].createdAt
  {
    NewestFirst(db.polls, set p | p in db.polls && db.polls[p].userId == userId)
  }

  // ---------------------------------------------------------------------
  // Reading one poll: view_poll and get_results.

  /** `m` is the smallest of `ids`. */
  predicate IsLeast(m: Id, ids: set<Id>)
  {
    m in ids && forall j :: j in ids ==> m <= j
  }

  lemma {:induction false} SmallestExists(ids: set<Id>)
    requires ids != {}
    ensures exists m :: IsLeast(m, ids)
    decreases ids
  {
    var x :| x in ids;
    if ids == {x} {
      assert IsLeast(x, ids);
    } else {
      SmallestExists(ids - {x});
      var m :| IsLeast(m, ids - {x});
      var least := if x < m then x else m;
      forall j | j in ids
        ensures least <= j
      {
        if j != x {
          assert j in ids - {x};
        }
      }
      assert IsLeast(least, ids);
    }
  }

  /** Putting the smallest id in front of the others, listed in increasing order, lists them all in order. */
  lemma AscendingCons(m: Id, rest: seq<Id>, ids: set<Id>)
    requires IsLeast(m, ids)
    requires |rest| == |ids - {m}|
    requires forall x :: x in rest <==> x in ids - {m}
    requires forall i, j :: 0 <= i < j < |rest| ==> rest[i] < rest[j]
    ensures |[m] + rest| == |ids|
    ensures forall x :: x in [m] + rest <==> x in ids
    ensures forall i, j :: 0 <= i < j < |[m] + rest| ==> ([m] + rest)[i] < ([m] + rest)[j]
  {
    var r := [m] + rest;
    forall i, j | 0 <= i < j < |r|
      ensures r[i] < r[j]
    {
      assert r[j] == rest[j - 1] && r[j] in ids - {m};
      if i > 0 {
        assert r[i] == rest[i - 1];
      }
    }
    forall x
      ensures x in r <==> x in ids
    {
      if x in ids && x != m {
        assert x in ids - {m};
      }
    }
  }

  /** The ids in increasing order: the order in which `poll.options` yields the options. */
  function IdsAscending(ids: set<Id>): (r: seq<Id>)
    ensures |r| == |ids|
    ensures forall x :: x in r <==> x in ids
    ensures forall i, j :: 0 <= i < j < |r| ==> r[i] < r[j]
    decreases ids
  {
    if ids == {} then []
    else
      SmallestExists(ids);
      var m :| IsLeast(m, ids);
      var rest := IdsAscending(ids - {m});
      AscendingCons(m, rest, ids);
      [m] + rest
  }

  /** The ids of the options of poll `pollId`, in the order `poll.options` yields them. */
  function OptionIdsOf(options: map<Id, OptionRow>, pollId: Id): (ids: seq<Id>)
    ensures |ids| == |OptionsOf(options, pollId)|
    ensures forall i :: 0 <= i < |ids| ==> ids[i] in options && options[ids[i]].pollId == pollId
    ensures forall o :: o in options && options[o].pollId == pollId ==> o in ids
    ensures forall i, j :: 0 <= i < j < |ids| ==> ids[i] < ids[j]
  {
    IdsAscending(OptionsOf(options, pollId))
  }

  datatype OptionResult = OptionResult(text: string, votes: nat)

  /** The JSON body of /results: per-option text and count, has_voted, is_active, expires_at. */
  datatype Results = Results(results: seq<OptionResult>, hasVoted: bool, isActive: bool, expiresAt: Option<Time>)

  /**
   * The get_results handler. It does not run the sweep, so `isActive` is the
   * stored flag, which may be stale.
   */
  function GetResults(db: Db, viewer: Option<Id>, pollId: Id): (r: Result<Results>)
    ensures r.Err? <==> pollId !in db.polls
    ensures r.Err? ==> r.error == NotFound
    ensures r.Ok? ==>
      var ids := OptionIdsOf(db.options, pollId);
      && |r.value.results| == |OptionsOf(db.options, pollId)|
      && (forall i :: 0 <= i < |ids| ==>
            r.value.results[i] == OptionResult(db.options[ids[i]].text, db.options[ids[i]].votes))
      && (r.value.hasVoted <==> viewer.Some? && HasVoted(db.votes, viewer.value, pollId))
      && r.value.isActive == db.polls[pollId].isActive
      && r.value.expiresAt == db.polls[pollId].expiresAt
  {
    if pollId !in db.polls then Err(NotFound)
    else
      var poll := db.polls[pollId];
      var ids := OptionIdsOf(db.options, pollId);
      Ok(Results(
        seq(|ids|, i requires 0 <= i < |ids| => OptionResult(db.options[ids[i]].text, db.options[ids[i]].votes)),
        viewer.Some? && HasVoted(db.votes, viewer.value, pollId),
        poll.isActive,
        poll.expiresAt))
  }

  /** What the poll page is rendered from. */
  datatype PollView = PollView(poll: PollRow, hasVoted: bool)

  /** The view_poll handler: the sweep runs first, so the flag shown is current. */
  function ViewPoll(db: Db, viewer: Option<Id>, pollId: Id, now: Time): (r: (Result<PollView>, Db))
    ensures r.1 == CheckPollExpiry(db, now)
    ensures r.0.Err? <==> pollId !in db.polls
    ensures r.0.Err? ==> r.0.error == NotFound
    ensures r.0.Ok? ==>
      && (r.0.value.poll.isActive <==> OpenAt(db.polls, pollId, now))
      && r.0.value.poll == db.polls[pollId].(isActive := r.0.value.poll.isActive)
      && (r.0.value.hasVoted <==> viewer.Some? && HasVoted(db.votes, viewer.value, pollId))
  {
    var swept := CheckPollExpiry(db, now);
    if pollId !in swept.polls then (Err(NotFound), swept)
    else (Ok(PollView(swept.polls[pollId], viewer.Some? && HasVoted(swept.votes, viewer.value, pollId))), swept)
  }
}
