/**
 * The relational schema of models.py: four tables keyed by integer row id,
 * with their column defaults, uniqueness constraints, non-null references and
 * the Poll -> Option cascade, stated as invariants of a database value.
 */
module Schema {

  /** Primary keys and foreign keys (SQLite integer row ids). */
  type Id = nat

  /** Timestamps, in whole seconds (app.py stores naive UTC datetimes). */
  type Time = int

  const SecondsPerHour: int := 3600

  datatype Option<+T> = None | Some(value: T)

  /** A row of the `user` table; `passwordHash` is whatever the credential store produced. */
  datatype UserRow = UserRow(username: string, email: string, passwordHash: string, createdAt: Time)

  /** A row of the `poll` table; `expiresAt` is the only nullable column. */
  datatype PollRow = PollRow(question: string, createdAt: Time, expiresAt: Option<Time>, isActive: bool, userId: Id)

  /** A row of the `option` table. */
  datatype OptionRow = OptionRow(text: string, votes: nat, pollId: Id)

  /** A row of the `vote` table. */
  datatype VoteRow = VoteRow(userId: Id, pollId: Id, optionId: Id, votedAt: Time)

  /**
   * The whole database. The `next...Id` counters stand for the ids the
   * database hands out on insert.
   */
  datatype Db = Db(
    users: map<Id, UserRow>,
    polls: map<Id, PollRow>,
    options: map<Id, OptionRow>,
    votes: map<Id, VoteRow>,
    nextUserId: Id,
    nextPollId: Id,
    nextOptionId: Id,
    nextVoteId: Id)

  const EmptyDb: Db := Db(map[], map[], map[], map[], 1, 1, 1, 1)

  // Rows as the model classes build them, with the column defaults filled in.

  /** `User(...)`: `created_at` defaults to the insertion time. */
  function NewUser(username: string, email: string, passwordHash: string, now: Time): UserRow
  {
    UserRow(username, email, passwordHash, now)
  }

  /** `Poll(...)`: `is_active` defaults to true, `created_at` to the insertion time. */
  function NewPoll(question: string, userId: Id, expiresAt: Option<Time>, now: Time): PollRow
  {
    PollRow(question, now, expiresAt, true, userId)
  }

  /** `Option(...)`: `votes` defaults to 0. */
  function NewOption(text: string, pollId: Id): OptionRow
  {
    OptionRow(text, 0, pollId)
  }

  /** `Vote(...)`: `voted_at` defaults to the insertion time. */
  function NewVote(userId: Id, pollId: Id, optionId: Id, now: Time): VoteRow
  {
    VoteRow(userId, pollId, optionId, now)
  }

  // Constraints declared by the schema.

  /** `username` is declared unique. */
  ghost predicate UniqueUsernames(users: map<Id, UserRow>)
  {
    forall a, b :: a in users && b in users && a != b ==> users[a].username != users[b].username
  }

  /** `email` is declared unique. */
  ghost predicate UniqueEmails(users: map<Id, UserRow>)
  {
    forall a, b :: a in users && b in users && a != b ==> users[a].email != users[b].email
  }

  /** The `unique_user_poll_vote` constraint on (user_id, poll_id). */
  ghost predicate OneVotePerUserPoll(votes: map<Id, VoteRow>)
  {
    forall a, b :: a in votes && b in votes && a != b ==>
      votes[a].userId != votes[b].userId || votes[a].pollId != votes[b].pollId
  }

  /**
   * The non-null foreign keys point at existing rows. Options always belong
   * to an existing poll (the cascade removes them with it). No cascade is
   * declared from Poll to Vote, so a vote row may outlive its poll; only the
   * votes of an existing poll are guaranteed to name one of its options.
   */
  ghost predicate ReferencesExist(db: Db)
  {
    && (forall p :: p in db.polls ==> db.polls[p].userId in db.users)
    && (forall o :: o in db.options ==> db.options[o].pollId in db.polls)
    && (forall v :: v in db.votes ==> db.votes[v].userId in db.users)
    && (forall v :: v in db.votes && db.votes[v].pollId in db.polls ==>
          db.votes[v].optionId in db.options && db.options[db.votes[v].optionId].pollId == db.votes[v].pollId)
  }

  /**
   * Every id in use, including the poll ids of orphaned votes, is below its
   * counter. The counters never go back, as SQLite's AUTOINCREMENT keeps
   * them; the plain integer keys of models.py get `SqliteNextId` instead.
   */
  ghost predicate IdsBelowCounters(db: Db)
  {
    && (forall u :: u in db.users ==> u < db.nextUserId)
    && (forall p :: p in db.polls ==> p < db.nextPollId)
    && (forall o :: o in db.options ==> o < db.nextOptionId)
    && (forall v :: v in db.votes ==> v < db.nextVoteId)
    && (forall v :: v in db.votes ==> db.votes[v].pollId < db.nextPollId)
  }

  // How SQLite numbers the rows of models.py.

  /**
   * The id SQLite gives a new row of a table whose `id` is a plain integer
   * primary key: one more than the largest id in use, or 1 for an empty
   * table. An id freed by a delete at the top of the table comes back.
   */
  ghost function SqliteNextId(ids: set<Id>): (next: Id)
    ensures next >= 1 && next !in ids
    ensures forall i :: i in ids ==> i < next
    ensures ids == {} ==> next == 1
    ensures ids != {} ==> next - 1 in ids
    decreases ids
  {
    if ids == {} then 1
    else
      var x :| x in ids;
      var rest := SqliteNextId(ids - {x});
      assert forall i :: i in ids ==> i == x || i in ids - {x};
      if x < rest then rest else x + 1
  }

  /** The database with each counter set to the id SQLite would hand out next. */
  ghost function SqliteAllocation(db: Db): Db
  {
    db.(nextUserId := SqliteNextId(db.users.Keys),
        nextPollId := SqliteNextId(db.polls.Keys),
        nextOptionId := SqliteNextId(db.options.Keys),
        nextVoteId := SqliteNextId(db.votes.Keys))
  }

  // Tallies.

  /** The ids of the options of poll `pollId` (the `poll.options` relationship). */
  function OptionsOf(options: map<Id, OptionRow>, pollId: Id): (ids: set<Id>)
    ensures forall o :: o in ids <==> o in options && options[o].pollId == pollId
  {
    set o | o in options && options[o].pollId == pollId
  }

  /** The ids of the vote rows cast in poll `pollId`. */
  ghost function VotesOn(votes: map<Id, VoteRow>, pollId: Id): set<Id>
  {
    set v | v in votes && votes[v].pollId == pollId
  }

  /** The sum of the vote counts of the options `ids`. */
  ghost function Tally(options: map<Id, OptionRow>, ids: set<Id>): nat
    requires ids <= options.Keys
    decreases ids
  {
    if ids == {} then 0
    else
      var o :| o in ids;
      options[o].votes + Tally(options, ids - {o})
  }

  /**
   * For every existing poll, the counts of its options add up to the number
   * of vote rows cast in it.
   */
  ghost predicate TallyMatches(db: Db)
  {
    forall p :: p in db.polls ==> Tally(db.options, OptionsOf(db.options, p)) == |VotesOn(db.votes, p)|
  }

  /** Everything the schema and the handlers together keep true. */
  ghost predicate Valid(db: Db)
  {
    && UniqueUsernames(db.users)
    && UniqueEmails(db.users)
    && OneVotePerUserPoll(db.votes)
    && ReferencesExist(db)
    && IdsBelowCounters(db)
    && TallyMatches(db)
  }

  lemma EmptyDbValid()
    ensures Valid(EmptyDb)
  {
  }

  /** A tally may be split at any of its options. */
  lemma {:induction false} TallyRemove(options: map<Id, OptionRow>, ids: set<Id>, x: Id)
    requires ids <= options.Keys && x in ids
    ensures Tally(options, ids) == options[x].votes + Tally(options, ids - {x})
    decreases ids
  {
    var y :| y in ids && Tally(options, ids) == options[y].votes + Tally(options, ids - {y});
    if y != x {
      TallyRemove(options, ids - {y}, x);
      TallyRemove(options, ids - {x}, y);
      assert ids - {y} - {x} == ids - {x} - {y};
    }
  }

  /** A tally depends only on the counts of the options it sums. */
  lemma {:induction false} TallyFrame(a: map<Id, OptionRow>, b: map<Id, OptionRow>, ids: set<Id>)
    requires ids <= a.Keys && ids <= b.Keys
    requires forall i :: i in ids ==> a[i].votes == b[i].votes
    ensures Tally(a, ids) == Tally(b, ids)
    decreases ids
  {
    if ids != {} {
      var x :| x in ids;
      TallyRemove(a, ids, x);
      TallyRemove(b, ids, x);
      TallyFrame(a, b, ids - {x});
    }
  }

  /** Adding one to a single option's count adds one to every tally that includes it. */
  lemma TallyBump(a: map<Id, OptionRow>, ids: set<Id>, x: Id)
    requires ids <= a.Keys && x in ids
    ensures Tally(a[x := a[x].(votes := a[x].votes + 1)], ids) == Tally(a, ids) + 1
  {
    var b := a[x := a[x].(votes := a[x].votes + 1)];
    TallyRemove(a, ids, x);
    TallyRemove(b, ids, x);
    TallyFrame(a, b, ids - {x});
  }

  /** Options that nobody has voted for tally to zero. */
  lemma {:induction false} TallyZero(a: map<Id, OptionRow>, ids: set<Id>)
    requires ids <= a.Keys
    requires forall i :: i in ids ==> a[i].votes == 0
    ensures Tally(a, ids) == 0
    decreases ids
  {
    if ids != {} {
      var x :| x in ids;
      TallyRemove(a, ids, x);
      TallyZero(a, ids - {x});
    }
  }
}
