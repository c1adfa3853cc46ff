/**
 The table `fedistreaks_users` as mutable state, and `check_user_streak` as a
 method that runs its SQL statements one after another against it. Each
 statement is a method whose postcondition ties the new table to the
 matching function of `Streaks`; the evaluation as a whole is proved to
 produce exactly `Streaks.Evaluate`.
 */
module StreakStore {
  import opened Wrappers
  import opened Streaks

  class Store {
    var rows: Table

    constructor (initial: Table)
      ensures rows == initial
    {
      rows := initial;
    }

    /** `insert ... on conflict do nothing`. */
    method InsertIfAbsent(user: Handle, today: Day)
      modifies this
      ensures rows == EnsureUser(old(rows), user, today)
    {
      if user !in rows {
        rows := rows[user := Row(today, today)];
      }
    }

    /** `select (last_note_date - start_date) ... where "user" = user`; the row must exist. */
    method SelectStreakDays(user: Handle) returns (days: int)
      requires user in rows
      ensures days == rows[user].lastNoteDate - rows[user].startDate
    {
      var r := rows[user];
      days := r.lastNoteDate - r.startDate;
    }

    /** `select (current_date - start_date) ... where "user" = user`; the row must exist. */
    method SelectDaysSinceStart(user: Handle, today: Day) returns (days: int)
      requires user in rows
      ensures days == today - rows[user].startDate
    {
      days := today - rows[user].startDate;
    }

    /** `update ... set last_note_date = current_date where "user" = user`, with its `rowcount`. */
    method UpdateLastNoteDate(user: Handle, today: Day) returns (rowcount: nat)
      modifies this
      ensures rows == Extend(old(rows), user, today)
      ensures rowcount == if user in old(rows) then 1 else 0
    {
      rowcount := 0;
      if user in rows {
        rows := rows[user := Row(rows[user].startDate, today)];
        rowcount := 1;
      }
    }

    /**
     The global sweep: every row whose last note is two or more days old
     restarts today; `rowcount` is the number of rows rewritten.
     */
    method ExpireStale(today: Day) returns (rowcount: nat)
      modifies this
      ensures rows == Swept(old(rows), today)
      ensures rowcount == |StaleKeys(old(rows), today)|
    {
      ghost var t0 := rows;
      var todo := rows.Keys;
      rowcount := 0;
      SweepStart(t0, today);
      while todo != {}
        invariant todo <= t0.Keys
        invariant rows == PartlySwept(t0, t0.Keys - todo, today)
        invariant rowcount == VisitedStale(t0, todo, today)
        decreases todo
      {
        var k :| k in todo;
        SweepStep(t0, todo, k, today);
        if today - rows[k].lastNoteDate >= ExpiryThreshold {
          rows := rows[k := Row(today, today)];
          rowcount := rowcount + 1;
        }
        todo := todo - {k};
      }
      SweepEnd(t0, today);
    }

    /**
     One run of `check_user_streak` for follower `f`, who wrote `noteCount`
     notes today; returns the note to send, if any.
     */
    method CheckUserStreak(f: Follower, noteCount: nat, today: Day) returns (notice: Option<Notice>)
      modifies this
      ensures Outcome(rows, notice) == Evaluate(old(rows), today, f, noteCount)
    {
      var mention := HandleOf(f);
      InsertIfAbsent(mention, today);
      if noteCount > 0 {
        var oldDays := SelectStreakDays(mention);
        var _ := UpdateLastNoteDate(mention, today);
        var newDays := SelectStreakDays(mention);
        notice := None;
        if oldDays != newDays {
          notice := Some(Notice(f.id, mention, StreakUp, newDays));
        }
      } else {
        var days := SelectDaysSinceStart(mention, today);
        var rowcount := ExpireStale(today);
        notice := None;
        if rowcount > 0 {
          notice := Some(Notice(f.id, mention, StreakExpired, days));
        }
      }
    }
  }

  /** The table part-way through the sweep: the rows in `done` have been visited. */
  ghost function PartlySwept(t: Table, done: set<Handle>, today: Day): Table {
    map k | k in t :: if k in done then SweepRow(t[k], today) else t[k]
  }

  /** How many of the rows visited so far (those not in `todo`) were stale. */
  ghost function VisitedStale(t: Table, todo: set<Handle>, today: Day): nat {
    |StaleKeys(t, today) * (t.Keys - todo)|
  }

  /** Before the first row: nothing rewritten, nothing counted. */
  lemma SweepStart(t: Table, today: Day)
    ensures PartlySwept(t, t.Keys - t.Keys, today) == t
    ensures VisitedStale(t, t.Keys, today) == 0
  {
    assert t.Keys - t.Keys == {};
    assert StaleKeys(t, today) * {} == {};
  }

  /**
   Visiting row `k`: it still holds its old value, afterwards it holds what
   the sweep makes of it, and the count grows by one exactly when it is stale.
   */
  lemma SweepStep(t: Table, todo: set<Handle>, k: Handle, today: Day)
    requires k in todo && todo <= t.Keys
    ensures PartlySwept(t, t.Keys - todo, today)[k] == t[k]
    ensures var before, after := PartlySwept(t, t.Keys - todo, today), PartlySwept(t, t.Keys - (todo - {k}), today);
      after == if Stale(t[k], today) then before[k := Row(today, today)] else before
    ensures VisitedStale(t, todo - {k}, today)
         == VisitedStale(t, todo, today) + (if Stale(t[k], today) then 1 else 0)
  {
    var done := t.Keys - todo;
    var stale := StaleKeys(t, today);
    assert t.Keys - (todo - {k}) == done + {k};
    if k in stale {
      assert stale * (done + {k}) == stale * done + {k};
    } else {
      assert stale * (done + {k}) == stale * done;
    }
  }

  /** After the last row: the table is swept and the count is the number of stale rows. */
  lemma SweepEnd(t: Table, today: Day)
    ensures PartlySwept(t, t.Keys - {}, today) == Swept(t, today)
    ensures VisitedStale(t, {}, today) == |StaleKeys(t, today)|
  {
    assert t.Keys - {} == t.Keys;
    assert StaleKeys(t, today) * t.Keys == StaleKeys(t, today);
  }

  /**
   Two polls of the same follower on one store: the second one, on the same
   day and again with notes, stays silent. This is the in-place counterpart
   of `Streaks.SecondPostSameDaySilent`.
   */
  method PollTwiceSameDay(store: Store, f: Follower, n1: nat, n2: nat, today: Day)
    returns (first: Option<Notice>, second: Option<Notice>)
    requires n1 > 0 && n2 > 0
    modifies store
    ensures store.rows == Evaluate(Evaluate(old(store.rows), today, f, n1).table, today, f, n2).table
    ensures second == None
    ensures first.Some? <==> HandleOf(f) in old(store.rows) && old(store.rows)[HandleOf(f)].lastNoteDate != today
  {
    ghost var t0 := store.rows;
    first := store.CheckUserStreak(f, n1, today);
    PostedNoticeIff(t0, today, f, n1);
    second := store.CheckUserStreak(f, n2, today);
    SecondPostSameDaySilent(t0, today, f, n1, n2);
  }
}
