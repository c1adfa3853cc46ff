# FediStreaks streak evaluation, modelled in Dafny

FediStreaks follows back the followers of a Misskey account and keeps, for
each of them, a daily posting streak in the PostgreSQL table
`fedistreaks_users(user, start_date, last_note_date)`. Every poll runs
`check_user_streak` once per follower. That function builds the follower's
handle, inserts a fresh row if there is none, and then takes one of two
branches:

- if the follower wrote notes today, it moves `last_note_date` to today and
  sends "N day streak! :3" when the streak length changed;
- otherwise it reads `today - start_date`, sweeps the whole table (every row
  whose last note is at least two days old restarts today) and sends "Your
  streak of N days has expired :(" to the polled follower when the sweep
  rewrote any row at all.

The model has five modules:

- `Wrappers` (`wrappers.dfy`): `Option`.
- `Decimal` (`decimal.dfy`): how an f-string prints an `int`, with its parser
  as partner.
- `Mention` (`mention.dfy`): the handle `@user` or `@user@host`, with its
  parser as partner.
- `Streaks` (`streaks.dfy`): the table as `map<Handle, Row>`, one function per
  SQL statement, `Evaluate` for one whole evaluation, and the lemmas about
  them.
- `StreakStore` (`store.dfy`): class `Store`, which holds the table in a
  mutable field. It has one method per SQL statement; the sweep is a loop
  that counts the rows it rewrites. `CheckUserStreak` runs the statements in
  main.py's order and is proved to give exactly `Evaluate`'s table and
  message.

Dates are whole day numbers (`int`), as PostgreSQL's `date - date` gives
them. `today` stands for `current_date`. The note count is the length of
the list the API returned. The follower's `id` is the id the evaluation is
called with (`user_id`), to which the note is addressed; `username` and
`host` are what `users_show` returns. The message is returned as a `Notice` value (recipient,
handle, kind, number), and `Text` gives the exact string main.py sends.

One might expect a streak to grow by exactly one on the first note of a day.
The posted branch never sweeps, so the streak grows by the whole gap
since the last credited note. An earlier poll without notes would normally
have expired a gap of two days or more, but nothing forces that poll to
happen. `Streaks.StreakGrowth` states what the code does: the growth is one
day exactly when the last note was yesterday.

## Model

| member | source | states |
|---|---|---|
| `Mention.EffectiveHost` | main.py:39 | the host is used exactly when it is present and non-empty (Python truthiness of `user['host']`) |
| `Mention.Mention` | main.py:39-42 | the handle is `'@' + username` without an effective host and `'@' + username + '@' + host` with one |
| `Mention.MentionRoundTrip` | main.py:39-42 | for a username without `@`, parsing the handle gives back the username and the effective host |
| `Mention.MentionInjective` | main.py:39-42 | two followers (usernames without `@`) with the same handle have the same username and effective host, so the key identifies the follower |
| `Decimal.NatDecimal` | main.py:81 | a natural number prints as non-empty digits without a leading zero |
| `Decimal.IntDecimal` | main.py:81 | an integer prints with a leading `-` exactly when it is negative, otherwise starting with a digit |
| `Decimal.NatDecimalRoundTrip` | main.py:81 | the printed digits of `n` have value `n` |
| `Decimal.IntDecimalRoundTrip` | main.py:99 | parsing the printed form of any integer gives that integer back |
| `Decimal.IntDecimalInjective` | main.py:99 | different numbers never print the same |
| `Streaks.EnsureUser` | main.py:52-54 | the insert-if-absent: the handle is tracked afterwards; a new handle gets `start_date = last_note_date = today`; existing rows, the user's included, are unchanged |
| `Streaks.Evaluate` | main.py:34-99 | one whole evaluation: its own contract says the handle is tracked afterwards, no other key appears or disappears, and any note goes to the polled follower with their handle; `PostedTable`, `PostedNoticeIff`, `NotPostedTable`, `NotPostedNoticeIff` and `NoticeOfBranch` state what each branch computes |
| `Streaks.Text` | main.py:81 | the note text starts with the handle and a space and continues past it; `TextKindMarker`, `TextDays` and `TextInjective` state that the rest fixes the kind (the f-strings at main.py:81 and 99) and the number |
| `Streaks.EnsureUserIdempotent` | main.py:52-54 | inserting twice (even on a later day) leaves the table as inserting once |
| `Streaks.Extend` | main.py:66 | the update sets the user's `last_note_date` to today, keeps their `start_date` and touches no other row or key |
| `Streaks.StaleKeys` | main.py:92-95 | the rows the sweep rewrites are exactly the rows with `today - last_note_date >= 2` (the WHERE clause, predicate `Streaks.Stale`) |
| `Streaks.Swept` | main.py:92-93 | after the sweep every stale row is `(today, today)` and every other row is unchanged; no row is added or removed (the SET on one row is `Streaks.SweepRow`) |
| `Streaks.SweepCountBound` | main.py:92-95 | the sweep's row count is at most the number of rows |
| `Streaks.SweepThenQuiet` | main.py:92-95 | after a sweep no row is stale on that day, so a second sweep the same day rewrites zero rows and changes nothing |
| `Streaks.EnsureUserStaleKeys` | main.py:52-54 | the row just inserted is never stale, so the insert does not change which rows the sweep rewrites |
| `Streaks.PostedTable` | main.py:56-66 | posted branch: the user's row becomes `(start_date, today)`, where `start_date` is the stored one (today for a new row); every other row is unchanged |
| `Streaks.PostedNoticeIff` | main.py:57-81 | posted branch: the increment note is sent exactly when the user was tracked with `last_note_date != today`, and it carries `today - start_date` |
| `Streaks.FreshPosterSilent` | main.py:57-81 | posted branch: a row created in the same evaluation gets no increment note |
| `Streaks.StreakGrowth` | main.py:57-77 | posted branch: the new streak length is the old one plus the days since the last credited note |
| `Streaks.SecondPostSameDaySilent` | main.py:56-81 | two posted evaluations on one day: the second sends nothing, so there is at most one increment note per day |
| `Streaks.NotPostedTable` | main.py:82-95 | not-posted branch: a new handle gets `(today, today)`, every stale row becomes `(today, today)`, every other row is unchanged |
| `Streaks.NotPostedNoticeIff` | main.py:83-99 | not-posted branch: the expiry note is sent exactly when some row of the table was stale, whoever owns it, and carries `today - start_date` read before the sweep (0 for a new row) |
| `Streaks.ExpiryNoticeToBystander` | main.py:92-99 | the quirk, on a concrete table: a fresh follower is told their streak expired because another follower's row was swept |
| `Streaks.NoticeOfBranch` | main.py:56-99 | an evaluation sends at most one note, to the polled follower with their handle, of the kind its branch decides |
| `Streaks.EvaluatePreservesOrder` | main.py:52-95 | if every row has `start_date <= last_note_date <= today`, so does every row after the insert and either branch |
| `Streaks.WellOrderedLater` | main.py:160 | that ordering still holds when today moves forward |
| `Streaks.OrderAcrossPolls` | main.py:52-95 | the ordering holds after one evaluation on day `d1` followed by another on any later day `d2`, for any followers and note counts |
| `Streaks.TextKindMarker` | main.py:81 | the character after the handle and the space tells the increment text from the expiry text |
| `Streaks.TextDays` | main.py:99 | two texts of the same kind for the same handle are equal only if they carry the same number |
| `Streaks.TextInjective` | main.py:81 | for a given handle the text determines which note it is and its number |
| `Streaks.CreditNextDay` | main.py:56-81 | a row `(1, 5)` credited on day 6 becomes `(1, 6)` and receives exactly `"@b 5 day streak! :3"` |
| `Streaks.ExpiredTextWithHost` | main.py:99 | the exact expiry text for a remote handle with 5 days |
| `Streaks.ExpireAfterGap` | main.py:83-99 | a remote follower with row `(1, 3)` polled without notes on day 6 is reset to `(6, 6)` and told their streak of 5 days expired |
| `StreakStore.Store.constructor` | main.py:109-116 | the store starts from a given table |
| `StreakStore.Store.InsertIfAbsent` | main.py:52-54 | the new table is `EnsureUser` of the old one |
| `StreakStore.Store.SelectStreakDays` | main.py:57-75 | returns `last_note_date - start_date` of the user's row, which must exist (the value `Streaks.StreakDays` gives) |
| `StreakStore.Store.SelectDaysSinceStart` | main.py:83-88 | returns `today - start_date` of the user's row, which must exist |
| `StreakStore.Store.UpdateLastNoteDate` | main.py:66-68 | the new table is `Extend` of the old one; the row count is 1 if the user was tracked and 0 otherwise |
| `StreakStore.Store.ExpireStale` | main.py:92-95 | the loop over all rows leaves the table `Swept` and returns the number of stale rows as its row count |
| `StreakStore.SweepStart` | main.py:92-93 | before the sweep visits any row the table is unchanged and nothing is counted |
| `StreakStore.SweepStep` | main.py:92-95 | visiting one more row rewrites it to `(today, today)` exactly when it is stale, leaves it otherwise, and raises the count by one exactly when it is stale |
| `StreakStore.SweepEnd` | main.py:92-95 | once every row is visited the table is the swept table and the count is the number of stale rows |
| `StreakStore.Store.CheckUserStreak` | main.py:34-99 | running the statements in order gives exactly the table and note of `Evaluate` |
| `StreakStore.PollTwiceSameDay` | main.py:160 | two posted polls of one follower on one day: the table ends as the two evaluations give it, the first notifies exactly when the stored last note date was not today, the second never does |

## Left out

- The Misskey API calls (`users_show`, `users_notes`, `notes_create`, `i`, `users_followers`, `following_create`) are network calls. Their results (follower id, username, host, the number of today's notes) are inputs, and the note to send is the result.
- The `since_date` midnight computation from `datetime.now()` and the API's 100-note limit are clock and foreign details. `today` is an integer and the note count a `nat`.
- The cursor, `db.commit()` and `cur.close()` in the `finally` block are transaction plumbing. Each SQL statement is a direct table transformation, and a run either completes or is not modelled; partial commits after an exception are not modelled.
- `logging` calls, including the logged row count of the single-row update, are not modelled beyond the count being returned.
- `check_users_streak` creates the schema and spawns one thread per follower. Its point is concurrency, and overlapping evaluations are not modelled; only sequential evaluations are.
- `follow_back` is a loop of foreign API calls that swallows and reports errors. It has no state of its own and is not modelled.
- The scheduler loop, `time.sleep`, environment configuration and Sentry setup are process setup and I/O, and are not modelled.
- A missing row after the insert (which would make `fetchone()[0]` fail) cannot happen in the model. The select methods require the row, and every call follows the insert.
