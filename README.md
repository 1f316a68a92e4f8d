# Polling app: the poll and vote store

This project models the store behind a small Flask polling site. Registered
users create polls with a question, several option texts and an optional
duration in hours. Anyone views a poll and its results. Each logged-in user
casts at most one vote per poll, and only the creator deletes a poll. Polls
carry a persisted `is_active` flag, which `check_poll_expiry` switches off
once the expiry has passed; the handlers that depend on the flag run that
sweep first.

The project has four modules:

- `Schema` (schema.dfy) holds the four tables of models.py as maps from row
  id to row, the column defaults (`NewUser`, `NewPoll`, `NewOption`,
  `NewVote`), and the database invariant `Valid`. That invariant covers:
  - the unique `username` and `email`;
  - the `unique_user_poll_vote` constraint;
  - the non-null references;
  - row ids below the id counters;
  - the tally invariant: the vote counts of a poll's options add up to the
    number of vote rows cast in it.
- `App` (app.dfy) has every handler of app.py as a function from a database
  value to a result and the next database value. The authenticated user, the
  clock and the password hash are parameters.
- `AppProperties` (app_properties.dfy) proves what the handlers promise
  together with the schema:
  - every handler keeps `Valid`;
  - the sweep is idempotent;
  - a second vote is refused;
  - a poll reads back as submitted;
  - the quirks of the code, shown on concrete databases.
- `Handlers` (handlers.dfy) has the store as a class, `PollStore`, whose map
  fields the handler methods update step by step, as the ORM session does.
  The sweep and the option insertion are loops. Each method is proved to
  leave the store exactly as the matching `App` function says, and to keep
  `Valid`.

Some behaviour of app.py and models.py that the model keeps as it is:

- `create_poll` counts option strings before blank ones are dropped, so a
  poll can be stored with one option, or with none.
- The poll and its options are inserted in two separate commits, not as one
  unit. The model treats the handler as one step (see Left out).
- Deleting a poll removes its options through the declared cascade. It
  removes no vote rows, so these rows remain and name a poll that no longer
  exists. `ReferencesExist` only requires the votes of existing polls to
  name one of their options.
- `get_results` does not run the sweep, so it can report a poll as active
  after its expiry has passed.

Row ids come from per-table counters that never go back, as SQLite's
AUTOINCREMENT would hand them out. The tables of models.py use plain integer
keys instead, for which SQLite hands out one more than the largest id in
use, so the id of a deleted newest poll comes back. Together with the vote
rows that a delete leaves behind, this lets a new poll inherit old votes;
see Findings. The invariants `TallyMatches` and `IdsBelowCounters`, and the
lemmas that a new poll has no votes, hold for the counter numbering only.

## Model

| member | source | states |
|---|---|---|
| Schema.SqliteNextId | models.py:18 | the id SQLite gives a new row of a plain integer key: not in use, above every id in use, 1 for an empty table and otherwise one more than the largest id in use |
| Schema.EmptyDbValid | models.py:8-40 | the freshly created, empty database meets every declared constraint and the tally invariant |
| App.SweepPolls | app.py:24-30 | the sweep keeps every poll; a poll is active afterwards iff it was active and its expiry is not strictly before `now`; no other column changes |
| App.CastVote | app.py:156-183 | the sweep is committed whatever the outcome. Checks run in the handler's order: missing poll, then ended poll, then an existing vote by the user, then missing option, then an option of another poll. A refused vote changes no count and no vote row. An accepted vote raises exactly the chosen option's count by one, adds exactly one vote row (with `voted_at` = now) and returns the new count; it is accepted iff every check passes |
| App.Kept | app.py:131-132 | no more texts are kept than were submitted, and every kept text has a non-whitespace character |
| App.ExpiryFor | app.py:114-121 | a duration of 0 gives no expiry; any other duration gives an expiry exactly `hours * 3600` seconds after `now` |
| App.CreatePoll | app.py:108-142 | accepted iff the question is non-empty and at least two option strings were submitted; a refusal changes nothing. On success: one new poll row (active, `created_at` = now, the requested expiry, owned by the caller) and the option rows of the kept texts; users and votes untouched |
| App.DeletePoll | app.py:202-215 | `NotFound` iff the poll is missing; `Forbidden` iff someone other than the creator asks; success iff the creator asks for an existing poll; a refusal changes nothing. On success exactly the poll and its options are removed, every other row is unchanged, and no vote row is touched |
| App.Register | app.py:38-73 | password mismatch first, then a taken username, then a taken email, each iff its condition holds and the earlier ones do not; success iff all three checks pass; a refusal changes nothing; on success exactly one user row is added under an id not in use, and no other table changes |
| App.NewestFirst | app.py:35 | lists each of the given polls exactly once, each no older than the ones after it |
| App.Index | app.py:32-36 | runs the sweep, then lists every poll exactly once, newest `created_at` first |
| App.Profile | app.py:102-106 | lists exactly the polls owned by the user, each once, newest first |
| App.IdsAscending | app.py:188 | lists each id of the set exactly once, in increasing order |
| App.OptionIdsOf | app.py:188 | lists every option id of the poll exactly once, in increasing (insertion) order, and nothing else |
| App.GetResults | app.py:185-200 | `NotFound` iff the poll is missing. Otherwise one entry per option of the poll, in id order, with its text and count. `has_voted` is true iff the viewer is logged in and has a vote row in the poll. `is_active` and `expires_at` are the stored columns |
| App.ViewPoll | app.py:144-154 | runs the sweep; `NotFound` iff the poll is missing; the poll shown is active iff it is still open at `now`, otherwise unchanged; `has_voted` as in get_results |
| AppProperties.SweepThenLaterSweep | app.py:24-30 | a sweep followed by a later sweep has the effect of the later sweep alone |
| AppProperties.SweepIdempotent | app.py:24-30 | running the sweep twice at the same time equals running it once |
| AppProperties.CheckPollExpiryPreservesValid | app.py:24-30 | the sweep keeps every invariant |
| AppProperties.VoteRowsStayUnique | models.py:39-40 | a vote row for a (user, poll) pair that has none keeps the pairs unique |
| AppProperties.RecordVoteKeepsTally | app.py:178-181 | raising one option's count together with adding one vote row in its poll keeps every poll's tally equal to its number of vote rows |
| AppProperties.RecordVotePreservesValid | app.py:177-181 | recording an accepted vote keeps every invariant |
| AppProperties.RefusedVotePreservesValid | app.py:159-175 | a refused vote keeps every invariant |
| AppProperties.AcceptedVoteIsRecordVote | app.py:177-183 | an accepted vote is the sweep followed by one count increment and one vote row, and returns the new count |
| AppProperties.CastVotePreservesValid | app.py:156-183 | every vote, accepted or refused, by an existing user keeps every invariant |
| AppProperties.NoSecondVote | app.py:166-169 | after an accepted vote, the same user's next vote on that poll is refused (as already voted, or as ended if the poll expired in between) and changes no count and no vote row |
| AppProperties.ExpiredPollRefusesVotes | app.py:159-164 | once a poll's expiry has passed, every vote on it is refused as ended and adds no vote row |
| AppProperties.KeptConcat | app.py:131-132 | dropping blank texts distributes over concatenation |
| AppProperties.KeptFromTexts | app.py:131-133 | every stored option text is one of the submitted texts, unstripped |
| AppProperties.KeptAllText | app.py:131-133 | texts that are all non-blank are stored as submitted, in order |
| AppProperties.InsertionStep | app.py:131-134 | one turn of the insertion loop: a non-blank text becomes the next option row, a blank one changes nothing |
| AppProperties.NewOptionsShape | app.py:131-134 | the inserted option rows take exactly the next ids, the k-th kept text under the k-th id, for the new poll, with 0 votes |
| AppProperties.CreateKeepsReferences | models.py:23-30 | a creation keeps every reference non-dangling: the new poll names its creator, the new options name the new poll |
| AppProperties.CreateKeepsTally | app.py:128-136 | the options of the new poll tally to zero, matching its zero vote rows; other polls' tallies are unchanged |
| AppProperties.CreatePollPreservesValid | app.py:108-136 | a creation by an existing user keeps every invariant |
| AppProperties.ResultsOfNewPoll | app.py:185-200 | right after creation, the results list the kept texts in submitted order, each with 0 votes, nobody has voted, and the flag and expiry are the new poll's |
| AppProperties.NewPollOptions | models.py:24 | right after a creation, the new poll's `options` relationship holds exactly the option rows inserted for it, none older |
| AppProperties.CreatedPoll | app.py:108-136 | a created poll has a fresh id, is active, owned by its creator, created now, expires as its duration says, and reads back the non-blank submitted texts in order with 0 votes |
| AppProperties.OneOptionPollIsAccepted | app.py:116 | the two-option check counts blank strings, so a poll is stored with a single option |
| AppProperties.DeleteKeepsOtherOptions | app.py:212-213 | a delete leaves the options of every other poll as they were |
| AppProperties.DeleteKeepsTally | app.py:212-213 | a delete keeps the tally of every remaining poll |
| AppProperties.DeletePollPreservesValid | models.py:24 | a delete keeps every invariant: the options go with the poll through the cascade, and its vote rows stay |
| AppProperties.RegisterPreservesValid | models.py:10-11 | a registration keeps usernames and emails unique, and every other invariant |
| AppProperties.RegisteredUser | app.py:61-68 | a registration that passes the three checks succeeds, and adds exactly one user, under an id not in use, with the given name, email, hash and time |
| AppProperties.VotedDbValid | models.py:8-40 | the starting database of the example below (one user who voted in the one poll) meets every invariant |
| AppProperties.ReusedPollIdInheritsVotes | app.py:202-213 | with SQLite's numbering, deleting a voted poll and creating a new one gives the new poll the old id and the old vote row: its counts no longer add up to its vote rows, and the old voter is refused as having voted and shown as having voted; with the counters the new poll takes a fresh id with no votes |
| AppProperties.ResultsMayReportExpiredPollActive | app.py:185-200 | after a poll's expiry has passed and before any sweep, get_results still reports it active while view_poll shows it ended |
| Handlers.PollStore.constructor | app.py:217-219 | `create_all` on an empty file gives the empty database, which is valid |
| Handlers.PollStore.Sweep | app.py:26-29 | the loop over the active polls leaves the store exactly as the sweep function says |
| Handlers.PollStore.CheckPollExpiry | app.py:24-30 | leaves the store as the sweep says and keeps the invariants |
| Handlers.PollStore.Vote | app.py:156-183 | returns and leaves exactly what `CastVote` gives, and keeps the invariants |
| Handlers.PollStore.AddOptions | app.py:131-136 | the loop appends exactly the option rows of the kept texts, numbered from the option counter, and changes nothing else |
| Handlers.PollStore.CreatePoll | app.py:108-142 | returns and leaves exactly what the `CreatePoll` function gives, and keeps the invariants |
| Handlers.PollStore.DeletePoll | app.py:202-215 | returns and leaves exactly what the `DeletePoll` function gives, and keeps the invariants |
| Handlers.PollStore.Register | app.py:38-73 | returns and leaves exactly what the `Register` function gives, and keeps the invariants |
| Handlers.PollStore.Index | app.py:32-36 | returns the listing and leaves the store exactly as the `Index` function says, and keeps the invariants |
| Handlers.PollStore.ViewPoll | app.py:144-154 | returns and leaves exactly what the `ViewPoll` function gives, and keeps the invariants |

## Left out

- Routing, templates, flash messages, redirects and JSON encoding: the handlers return an outcome value instead.
- Login, logout, the session and the `is_authenticated` redirect of register: the caller's user id is a parameter, and `None` stands for an anonymous viewer.
- Password hashing and checking: the hash is an opaque string parameter.
- The real clock: time is a whole number of seconds passed in as `now`.
- `int(duration)` on text that is not a number: the duration is already an integer. The text check `duration != '0'` is modelled as a test for the number 0, so an input such as "00" is not distinguished.
- A `timedelta` too large for `datetime` is not modelled.
- The column length limits (`String(80)` and the others) are not checked, since SQLite does not enforce them.
- A missing or non-integer `option_id` in the vote request is not modelled: the option id is a parameter.
- The SQLAlchemy session, and the non-atomic create: the poll commit and the option commit happen as one step, so a failure between them is not modelled.
- Concurrency: requests run one at a time. Two simultaneous votes of one user are not modelled; the unique constraint would reject the second.
- Row ids come from counters that never go back, as with SQLite's AUTOINCREMENT. The handlers do not model SQLite's own numbering of plain integer keys; `Schema.SqliteNextId` and `AppProperties.ReusedPollIdInheritsVotes` show what it changes (see Findings).
- The nullable `votes` column: counts are natural numbers that start at 0.
- The order of polls with equal `created_at`: the database leaves it open. The model lists the higher id first.
- The order of `poll.options`: the relationship declares none. The model yields options by increasing id, which is their insertion order.
- `get_results` and `profile` change nothing and run no sweep, so they appear only as the functions `App.GetResults` and `App.Profile`, with no store method.
- The `user_loader` callback, the login handler and static/script.js are not part of this model.

## Findings

| source | as written | input that shows it | evidently intended | confidence | as-written member | corrected member |
|---|---|---|---|---|---|---|
| app.py:212-213, models.py:18,24,32-37 | deleting a poll leaves its vote rows, and SQLite gives the next poll one more than the largest poll id in use, so the id of a deleted newest poll comes back with those vote rows | user 1 votes in poll 1 (its only poll), deletes it, then creates a poll with two options: the new poll gets id 1, has one vote row while its counts add up to 0, and user 1 is refused with "You have already voted in this poll." | a new poll starts with no votes: either ids are never reused or a poll's vote rows go with it | not executed; medium | AppProperties.ReusedPollIdInheritsVotes | AppProperties.CreatedPoll |
