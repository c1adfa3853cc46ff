/**
 The streak state machine of one follower evaluation, on values.

 The table `fedistreaks_users` is a map from a handle to its row
 (`start_date`, `last_note_date`). Dates are whole day numbers, as
 PostgreSQL's `date - date` yields. `Evaluate` is one run of
 `check_user_streak` for one follower: it takes the table, today's date,
 the follower as the API returned it and the number of notes they wrote
 today, and gives the new table and the message to send, if any. Each SQL
 statement of that run is one function here; the class in
 `StreakStore` performs the same statements in place and is proved to
 agree with these functions.
 */
module Streaks {
  import opened Wrappers
  import Decimal
  import Mention

  /** A calendar date as a day number. */
  type Day = int

  /** The key of the table: `@username` or `@username@host`. */
  type Handle = string

  datatype Row = Row(startDate: Day, lastNoteDate: Day)

  type Table = map<Handle, Row>

  /** `last_note_date - start_date`, the streak length the posted branch reads. */
  function StreakDays(r: Row): int {
    r.lastNoteDate - r.startDate
  }

  /** A streak expires once this many days have passed since the last credited note. */
  const ExpiryThreshold: int := 2

  /** The WHERE clause of the sweep: `(current_date - last_note_date) >= 2`. */
  predicate Stale(r: Row, today: Day) {
    today - r.lastNoteDate >= ExpiryThreshold
  }

  /** Every row's streak starts no later than its last note, which is not in the future. */
  ghost predicate WellOrdered(t: Table, today: Day) {
    forall k :: k in t ==> t[k].startDate <= t[k].lastNoteDate <= today
  }

  // ---------------------------------------------------------------------------
  // The SQL statements, one function each

  /** `insert ... values (user, current_date, current_date) on conflict do nothing`. */
  function EnsureUser(t: Table, user: Handle, today: Day): (t': Table)
    ensures t'.Keys == t.Keys + {user}
    ensures user in t ==> t'[user] == t[user]
    ensures user !in t ==> t'[user] == Row(today, today)
    ensures forall k :: k in t ==> t'[k] == t[k]
  {
    if user in t then t else t[user := Row(today, today)]
  }

  /** `update ... set last_note_date = current_date where "user" = user`. */
  function Extend(t: Table, user: Handle, today: Day): (t': Table)
    ensures t'.Keys == t.Keys
    ensures user in t ==> t'[user] == Row(t[user].startDate, today)
    ensures forall k :: k in t && k != user ==> t'[k] == t[k]
  {
    if user in t then t[user := Row(t[user].startDate, today)] else t
  }

  /** The rows the sweep rewrites; its `rowcount` is the size of this set. */
  function StaleKeys(t: Table, today: Day): (s: set<Handle>)
    ensures s <= t.Keys
    ensures forall k :: k in s <==> k in t && Stale(t[k], today)
  {
    set k | k in t && Stale(t[k], today)
  }

  /** One row under the sweep. */
  function SweepRow(r: Row, today: Day): Row {
    if Stale(r, today) then Row(today, today) else r
  }

  /**
   `update ... set start_date = current_date, last_note_date = current_date
   where (current_date - last_note_date) >= 2`, over the whole table.
   */
  function Swept(t: Table, today: Day): (t': Table)
    ensures t'.Keys == t.Keys
    ensures forall k :: k in t && Stale(t[k], today) ==> t'[k] == Row(today, today)
    ensures forall k :: k in t && !Stale(t[k], today) ==> t'[k] == t[k]
  {
    map k | k in t :: SweepRow(t[k], today)
  }

  // ---------------------------------------------------------------------------
  // Messages

  datatype NoticeKind = StreakUp | StreakExpired

  /** A note of visibility "specified", visible to `recipient` only. */
  datatype Notice = Notice(recipient: string, mention: Handle, kind: NoticeKind, days: int)

  /** The exact text of the note: the handle, a space, then the message carrying `days`. */
  function Text(n: Notice): (r: string)
    ensures |r| > |n.mention| + 1
    ensures r[..|n.mention|] == n.mention && r[|n.mention|] == ' '
  {
    match n.kind
    case StreakUp => n.mention + " " + Decimal.IntDecimal(n.days) + " day streak! :3"
    case StreakExpired => n.mention + " Your streak of " + Decimal.IntDecimal(n.days) + " days has expired :("
  }

  // ---------------------------------------------------------------------------
  // One evaluation

  /**
   The follower being evaluated: `id` is the id the evaluation is called with
   (the note is addressed to it); `username` and `host` come from `users_show`.
   */
  datatype Follower = Follower(id: string, username: string, host: Option<string>)

  datatype Outcome = Outcome(table: Table, notice: Option<Notice>)

  function HandleOf(f: Follower): Handle {
    Mention.Mention(f.username, f.host)
  }

  /**
   One run of `check_user_streak`. The lemmas below (`PostedTable`,
   `PostedNoticeIff`, `NotPostedTable`, `NotPostedNoticeIff`,
   `NoticeOfBranch`) state what each branch computes.
   */
  function Evaluate(t: Table, today: Day, f: Follower, noteCount: nat): (o: Outcome)
    ensures o.table.Keys == t.Keys + {HandleOf(f)}
    ensures o.notice.Some? ==> o.notice.value.recipient == f.id && o.notice.value.mention == HandleOf(f)
  {
    var h := HandleOf(f);
    var t1 := EnsureUser(t, h, today);
    if noteCount > 0 then
      var oldDays := StreakDays(t1[h]);
      var t2 := Extend(t1, h, today);
      var newDays := StreakDays(t2[h]);
      Outcome(t2, if oldDays != newDays then Some(Notice(f.id, h, StreakUp, newDays)) else None)
    else
      var days := today - t1[h].startDate;
      var rowcount := |StaleKeys(t1, today)|;
      Outcome(Swept(t1, today), if rowcount > 0 then Some(Notice(f.id, h, StreakExpired, days)) else None)
  }

  // ---------------------------------------------------------------------------
  // The insert

  /** Inserting twice leaves the table as inserting once. */
  lemma EnsureUserIdempotent(t: Table, user: Handle, today: Day, later: Day)
    ensures EnsureUser(EnsureUser(t, user, today), user, later) == EnsureUser(t, user, today)
  {
  }

  // ---------------------------------------------------------------------------
  // The posted branch

  /** After a posted evaluation only the follower's row has changed, and only its last note date. */
  lemma PostedTable(t: Table, today: Day, f: Follower, noteCount: nat)
    requires noteCount > 0
    ensures var o := Evaluate(t, today, f, noteCount); var h := HandleOf(f);
      && o.table.Keys == t.Keys + {h}
      && o.table[h] == Row(if h in t then t[h].startDate else today, today)
      && forall k :: k in t && k != h ==> o.table[k] == t[k]
  {
  }

  /** The increment note fires exactly when the stored last note date was not already today. */
  lemma PostedNoticeIff(t: Table, today: Day, f: Follower, noteCount: nat)
    requires noteCount > 0
    ensures var o := Evaluate(t, today, f, noteCount); var h := HandleOf(f);
      && (o.notice.Some? <==> h in t && t[h].lastNoteDate != today)
      && (o.notice.Some? ==> o.notice.value == Notice(f.id, h, StreakUp, today - t[h].startDate))
  {
    var h := HandleOf(f);
    if h in t {
      var t1 := EnsureUser(t, h, today);
      assert t1 == t;
      assert StreakDays(Extend(t1, h, today)[h]) - StreakDays(t1[h]) == today - t[h].lastNoteDate;
    }
  }

  /** A follower seen for the first time gets no increment note in the same evaluation. */
  lemma FreshPosterSilent(t: Table, today: Day, f: Follower, noteCount: nat)
    requires noteCount > 0 && HandleOf(f) !in t
    ensures Evaluate(t, today, f, noteCount).notice == None
  {
    PostedNoticeIff(t, today, f, noteCount);
  }

  /**
   The posted branch credits every day since the last note: the streak grows
   by the gap, which is one day exactly when the last note was yesterday.
   */
  lemma StreakGrowth(t: Table, today: Day, f: Follower, noteCount: nat)
    requires noteCount > 0 && HandleOf(f) in t
    ensures var h := HandleOf(f);
      StreakDays(Evaluate(t, today, f, noteCount).table[h]) == StreakDays(t[h]) + (today - t[h].lastNoteDate)
  {
  }

  /** A second posted evaluation on the same day sends nothing: one increment note per day. */
  lemma SecondPostSameDaySilent(t: Table, today: Day, f: Follower, n1: nat, n2: nat)
    requires n1 > 0 && n2 > 0
    ensures Evaluate(Evaluate(t, today, f, n1).table, today, f, n2).notice == None
  {
    PostedTable(t, today, f, n1);
    PostedNoticeIff(Evaluate(t, today, f, n1).table, today, f, n2);
  }

  // ---------------------------------------------------------------------------
  // The sweep

  /** The row just inserted never counts as stale, so the insert does not change what the sweep sees. */
  lemma EnsureUserStaleKeys(t: Table, user: Handle, today: Day)
    ensures StaleKeys(EnsureUser(t, user, today), today) == StaleKeys(t, today)
  {
  }

  /** The sweep touches no more rows than the table has. */
  lemma SweepCountBound(t: Table, today: Day)
    ensures |StaleKeys(t, today)| <= |t|
  {
    var s := StaleKeys(t, today);
    assert t.Keys == s + (t.Keys - s);
    assert |t| == |t.Keys|;
  }

  /** A sweep leaves nothing stale, so sweeping again the same day affects zero rows. */
  lemma SweepThenQuiet(t: Table, today: Day)
    ensures StaleKeys(Swept(t, today), today) == {}
    ensures Swept(Swept(t, today), today) == Swept(t, today)
  {
    var s := Swept(t, today);
    forall k | k in s ensures !Stale(s[k], today) {
    }
  }

  // ---------------------------------------------------------------------------
  // The not-posted branch

  /** Without notes today the table becomes the swept table (after the insert). */
  lemma NotPostedTable(t: Table, today: Day, f: Follower)
    ensures var o := Evaluate(t, today, f, 0); var h := HandleOf(f);
      && o.table.Keys == t.Keys + {h}
      && (h !in t ==> o.table[h] == Row(today, today))
      && (forall k :: k in t && Stale(t[k], today) ==> o.table[k] == Row(today, today))
      && (forall k :: k in t && !Stale(t[k], today) ==> o.table[k] == t[k])
  {
  }

  /**
   The expiry note goes to the polled follower exactly when some row of the
   table was stale, whoever owns it, and reports `today - start_date` as it
   stood before the sweep.
   */
  lemma NotPostedNoticeIff(t: Table, today: Day, f: Follower)
    ensures var o := Evaluate(t, today, f, 0); var h := HandleOf(f);
      && (o.notice.Some? <==> StaleKeys(t, today) != {})
      && (o.notice.Some? ==>
            o.notice.value == Notice(f.id, h, StreakExpired, if h in t then today - t[h].startDate else 0))
  {
    var h := HandleOf(f);
    EnsureUserStaleKeys(t, h, today);
    var s := StaleKeys(t, today);
    if s != {} {
      var k :| k in s;
      assert |s| >= |{k}|;
    }
  }

  /**
   A quirk of `check_user_streak`: a follower whose own row is fresh is told
   their streak expired because another follower's row was swept.
   */
  lemma ExpiryNoticeToBystander()
    ensures var t := map["@bob" := Row(1, 1)];
      var o := Evaluate(t, 5, Follower("1", "alice", None), 0);
      && "@alice" in o.table && o.table["@alice"] == Row(5, 5)
      && o.notice == Some(Notice("1", "@alice", StreakExpired, 0))
  {
    var t := map["@bob" := Row(1, 1)];
    assert HandleOf(Follower("1", "alice", None)) == "@alice";
    NotPostedTable(t, 5, Follower("1", "alice", None));
    NotPostedNoticeIff(t, 5, Follower("1", "alice", None));
    assert "@bob" in StaleKeys(t, 5);
  }

  // ---------------------------------------------------------------------------
  // The whole evaluation

  /** One evaluation sends at most one note, of the kind its branch decides, to the polled follower. */
  lemma NoticeOfBranch(t: Table, today: Day, f: Follower, noteCount: nat)
    ensures var o := Evaluate(t, today, f, noteCount);
      o.notice.Some? ==>
        && o.notice.value.recipient == f.id
        && o.notice.value.mention == HandleOf(f)
        && o.notice.value.kind == (if noteCount > 0 then StreakUp else StreakExpired)
  {
  }

  /** `start_date <= last_note_date <= today` survives the insert, the update and the sweep. */
  lemma EvaluatePreservesOrder(t: Table, today: Day, f: Follower, noteCount: nat)
    requires WellOrdered(t, today)
    ensures WellOrdered(Evaluate(t, today, f, noteCount).table, today)
  {
    var h := HandleOf(f);
    var t1 := EnsureUser(t, h, today);
    assert WellOrdered(t1, today);
    if noteCount > 0 {
      var t2 := Extend(t1, h, today);
      forall k | k in t2 ensures t2[k].startDate <= t2[k].lastNoteDate <= today {
        if k == h {
          assert t1[h].startDate <= today;
        }
      }
    }
  }

  /** The order also holds on any later day, so it carries from one poll to the next. */
  lemma WellOrderedLater(t: Table, today: Day, later: Day)
    requires WellOrdered(t, today) && today <= later
    ensures WellOrdered(t, later)
  {
  }

  /** Two polls in sequence, the second on a later (or the same) day, keep the order. */
  lemma OrderAcrossPolls(t: Table, d1: Day, d2: Day, f1: Follower, n1: nat, f2: Follower, n2: nat)
    requires WellOrdered(t, d1) && d1 <= d2
    ensures WellOrdered(Evaluate(Evaluate(t, d1, f1, n1).table, d2, f2, n2).table, d2)
  {
    var t1 := Evaluate(t, d1, f1, n1).table;
    EvaluatePreservesOrder(t, d1, f1, n1);
    WellOrderedLater(t1, d1, d2);
    EvaluatePreservesOrder(t1, d2, f2, n2);
  }

  // ---------------------------------------------------------------------------
  // Message text

  /** The character after the handle and its space tells the two notes apart. */
  lemma TextKindMarker(n: Notice)
    ensures |Text(n)| > |n.mention| + 1
    ensures Text(n)[|n.mention| + 1] == 'Y' <==> n.kind == StreakExpired
  {
    var d := Decimal.IntDecimal(n.days);
    if n.kind == StreakUp {
      assert Text(n) == n.mention + " " + d + " day streak! :3";
      assert Text(n)[|n.mention| + 1] == d[0];
    } else {
      assert Text(n) == n.mention + " " + "Your streak of " + d + " days has expired :(";
    }
  }

  lemma TextDays(n1: Notice, n2: Notice)
    requires n1.mention == n2.mention && n1.kind == n2.kind
    requires Text(n1) == Text(n2)
    ensures n1.days == n2.days
  {
    var m := n1.mention;
    var d1, d2 := Decimal.IntDecimal(n1.days), Decimal.IntDecimal(n2.days);
    var pre := if n1.kind == StreakUp then m + " " else m + " Your streak of ";
    var suf := if n1.kind == StreakUp then " day streak! :3" else " days has expired :(";
    assert Text(n1) == pre + d1 + suf;
    assert Text(n2) == pre + d2 + suf;
    assert |d1| == |d2|;
    assert d1 == Text(n1)[|pre|..|pre| + |d1|];
    assert d2 == Text(n2)[|pre|..|pre| + |d2|];
    Decimal.IntDecimalInjective(n1.days, n2.days);
  }

  /** For a given handle the text determines the note: which kind it is and the number it carries. */
  lemma TextInjective(n1: Notice, n2: Notice)
    requires n1.mention == n2.mention
    requires Text(n1) == Text(n2)
    ensures n1.kind == n2.kind && n1.days == n2.days
  {
    TextKindMarker(n1);
    TextKindMarker(n2);
    TextDays(n1, n2);
  }

  // ---------------------------------------------------------------------------
  // Worked cases

  /** A follower tracked since day 1, last credited on day 5, posts on day 6. */
  lemma CreditNextDay()
    ensures var o := Evaluate(map["@b" := Row(1, 5)], 6, Follower("2", "b", None), 1);
      && "@b" in o.table && o.table["@b"] == Row(1, 6)
      && o.notice.Some? && Text(o.notice.value) == "@b" + " " + "5" + " day streak! :3"
  {
    assert HandleOf(Follower("2", "b", None)) == "@b";
    assert Decimal.IntDecimal(5) == "5";
    PostedNoticeIff(map["@b" := Row(1, 5)], 6, Follower("2", "b", None), 1);
  }

  /** The expiry text for a follower on another instance. */
  lemma ExpiredTextWithHost()
    ensures Text(Notice("3", "@c@x.org", StreakExpired, 5)) == "@c@x.org" + " Your streak of " + "5" + " days has expired :("
  {
    assert Decimal.IntDecimal(5) == "5";
  }

  /** A follower on another instance, last credited three days ago, has not posted today. */
  lemma ExpireAfterGap()
    ensures var f := Follower("3", "c", Some("x.org"));
      var o := Evaluate(map["@c@x.org" := Row(1, 3)], 6, f, 0);
      && HandleOf(f) == "@c@x.org"
      && "@c@x.org" in o.table && o.table["@c@x.org"] == Row(6, 6)
      && o.notice == Some(Notice("3", "@c@x.org", StreakExpired, 5))
      && Text(o.notice.value) == "@c@x.org" + " Your streak of " + "5" + " days has expired :("
  {
    var t := map["@c@x.org" := Row(1, 3)];
    var f := Follower("3", "c", Some("x.org"));
    var h := HandleOf(f);
    assert h == "@c@x.org";
    NotPostedTable(t, 6, f);
    NotPostedNoticeIff(t, 6, f);
    assert h in StaleKeys(t, 6);
    ExpiredTextWithHost();
  }
}
