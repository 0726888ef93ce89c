/** What the meal-entry rules promise, proved about the functions of
  * meal_entry.dfy: the backfill covers the month without touching existing
  * rows and is idempotent; create and update write today's, tomorrow's and
  * the auto-entry window's rows as the views say and leave every other
  * member's rows alone; the slug column stays unique. */
module MealProperties {
  import opened Common
  import opened Roles
  import opened Memberships
  import opened MealTable
  import opened MealEntry

  // ---------------------------------------------------------------- backfill

  /** One member's backfill keeps the earlier rows in place and adds only
    * placeholders of that member for days `d`..`last` of that month. */
  lemma {:induction false} BackfillDaysAppends(t: Table, member: MemberId, conf: Option<MemberId>,
                                               y: int, mo: int, d: int, last: int)
    requires Valid(t)
    ensures var r := BackfillDays(t, member, conf, y, mo, d, last);
            Valid(r) && Extends(r.rows, t.rows) &&
            (forall i | |t.rows| <= i < |r.rows| ::
               IsPlaceholder(r.rows[i]) && r.rows[i].member == member &&
               r.rows[i].date.year == y && r.rows[i].date.month == mo && d <= r.rows[i].date.day <= last)
    decreases last + 1 - d
  {
    if d <= last {
      var day := Date(y, mo, d);
      var t1 := if HasRow(t.rows, member, day) then t else Append(t, Placeholder(member, day, conf));
      if !HasRow(t.rows, member, day) {
        AppendKeeps(t, Placeholder(member, day, conf));
      }
      BackfillDaysAppends(t1, member, conf, y, mo, d + 1, last);
      var r := BackfillDays(t1, member, conf, y, mo, d + 1, last);
      ExtendsTrans(r.rows, t1.rows, t.rows);
      forall i | |t.rows| <= i < |t1.rows|
        ensures IsPlaceholder(r.rows[i]) && r.rows[i].member == member &&
                r.rows[i].date.year == y && r.rows[i].date.month == mo && d <= r.rows[i].date.day <= last
      {
        assert r.rows[i] == t1.rows[i];
      }
    }
  }

  /** After one member's backfill the member has a row for every day
    * `d`..`last`. */
  lemma {:induction false} BackfillDaysCovers(t: Table, member: MemberId, conf: Option<MemberId>,
                                              y: int, mo: int, d: int, last: int)
    requires Valid(t)
    ensures forall k | d <= k <= last :: HasRow(BackfillDays(t, member, conf, y, mo, d, last).rows, member, Date(y, mo, k))
    decreases last + 1 - d
  {
    if d <= last {
      var day := Date(y, mo, d);
      var t1 := if HasRow(t.rows, member, day) then t else Append(t, Placeholder(member, day, conf));
      if !HasRow(t.rows, member, day) {
        AppendKeeps(t, Placeholder(member, day, conf));
      }
      BackfillDaysCovers(t1, member, conf, y, mo, d + 1, last);
      BackfillDaysAppends(t1, member, conf, y, mo, d + 1, last);
      var r := BackfillDays(t1, member, conf, y, mo, d + 1, last);
      ExtendsHasRow(r.rows, t1.rows, member, day);
    }
  }

  /** When the member already has every day `d`..`last`, nothing is added. */
  lemma {:induction false} BackfillDaysNoop(t: Table, member: MemberId, conf: Option<MemberId>,
                                            y: int, mo: int, d: int, last: int)
    requires forall k | d <= k <= last :: HasRow(t.rows, member, Date(y, mo, k))
    ensures BackfillDays(t, member, conf, y, mo, d, last) == t
    decreases last + 1 - d
  {
    if d <= last {
      BackfillDaysNoop(t, member, conf, y, mo, d + 1, last);
    }
  }

  lemma ExtendsCovered(rows: seq<Meal>, before: seq<Meal>, members: seq<MemberId>, y: int, mo: int, last: int)
    requires Extends(rows, before) && Covered(before, members, y, mo, last)
    ensures Covered(rows, members, y, mo, last)
  {
    forall m, k | m in members && 1 <= k <= last ensures HasRow(rows, m, Date(y, mo, k)) {
      ExtendsHasRow(rows, before, m, Date(y, mo, k));
    }
  }

  /** The `post` backfill keeps every existing row in place, leaves every
    * listed member with a row for each day 1..`last`, and adds only
    * placeholders of listed members in that month. */
  lemma {:induction false} BackfillWrites(t: Table, members: seq<MemberId>, conf: Option<MemberId>,
                                          y: int, mo: int, last: int)
    requires Valid(t)
    ensures var r := Backfill(t, members, conf, y, mo, last);
            Valid(r) && Extends(r.rows, t.rows) && Covered(r.rows, members, y, mo, last) &&
            (forall i | |t.rows| <= i < |r.rows| ::
               IsPlaceholder(r.rows[i]) && r.rows[i].member in members &&
               r.rows[i].date.year == y && r.rows[i].date.month == mo && 1 <= r.rows[i].date.day <= last)
    decreases |members|
  {
    if members != [] {
      var t1 := BackfillDays(t, members[0], conf, y, mo, 1, last);
      BackfillDaysAppends(t, members[0], conf, y, mo, 1, last);
      BackfillDaysCovers(t, members[0], conf, y, mo, 1, last);
      BackfillWrites(t1, members[1..], conf, y, mo, last);
      var r := Backfill(t1, members[1..], conf, y, mo, last);
      ExtendsTrans(r.rows, t1.rows, t.rows);
      forall m, k | m in members && 1 <= k <= last ensures HasRow(r.rows, m, Date(y, mo, k)) {
        if m == members[0] {
          ExtendsHasRow(r.rows, t1.rows, m, Date(y, mo, k));
        } else {
          assert m in members[1..];
        }
      }
      forall i | |t.rows| <= i < |r.rows|
        ensures IsPlaceholder(r.rows[i]) && r.rows[i].member in members &&
                r.rows[i].date.year == y && r.rows[i].date.month == mo && 1 <= r.rows[i].date.day <= last
      {
        if i < |t1.rows| {
          assert r.rows[i] == t1.rows[i];
        } else {
          assert r.rows[i].member in members[1..];
        }
      }
    }
  }

  /** A table that already covers the month is left as it is. */
  lemma {:induction false} BackfillNoop(t: Table, members: seq<MemberId>, conf: Option<MemberId>,
                                        y: int, mo: int, last: int)
    requires Covered(t.rows, members, y, mo, last)
    ensures Backfill(t, members, conf, y, mo, last) == t
    decreases |members|
  {
    if members != [] {
      assert members[0] in members;
      BackfillDaysNoop(t, members[0], conf, y, mo, 1, last);
      forall m, k | m in members[1..] && 1 <= k <= last ensures HasRow(t.rows, m, Date(y, mo, k)) {
        assert m in members;
      }
      BackfillNoop(t, members[1..], conf, y, mo, last);
    }
  }

  /** Running the backfill twice adds nothing the first run did not. */
  lemma BackfillIdempotent(t: Table, members: seq<MemberId>, conf: Option<MemberId>, y: int, mo: int, last: int)
    requires Valid(t)
    ensures Backfill(Backfill(t, members, conf, y, mo, last), members, conf, y, mo, last)
            == Backfill(t, members, conf, y, mo, last)
  {
    BackfillWrites(t, members, conf, y, mo, last);
    BackfillNoop(Backfill(t, members, conf, y, mo, last), members, conf, y, mo, last);
  }

  /** The backfill never creates a second row for a (member, day). */
  lemma {:induction false} BackfillDaysOnePerDay(t: Table, member: MemberId, conf: Option<MemberId>,
                                                 y: int, mo: int, d: int, last: int)
    requires OnePerDay(t.rows)
    ensures OnePerDay(BackfillDays(t, member, conf, y, mo, d, last).rows)
    decreases last + 1 - d
  {
    if d <= last {
      var day := Date(y, mo, d);
      var t1 := if HasRow(t.rows, member, day) then t else Append(t, Placeholder(member, day, conf));
      if !HasRow(t.rows, member, day) {
        var m := Placeholder(member, day, conf).(slug := t.next);
        assert t1.rows == t.rows + [m];
        forall mem, dd ensures CountFor(t1.rows, mem, dd) <= 1 {
          AppendFrame(t.rows, m, ForKey(mem, dd));
          assert CountFor(t.rows, mem, dd) <= 1;
          if IsFor(m, mem, dd) {
            assert CountFor(t.rows, mem, dd) == 0;
          }
        }
      }
      BackfillDaysOnePerDay(t1, member, conf, y, mo, d + 1, last);
    }
  }

  lemma {:induction false} BackfillOnePerDay(t: Table, members: seq<MemberId>, conf: Option<MemberId>,
                                             y: int, mo: int, last: int)
    requires OnePerDay(t.rows)
    ensures OnePerDay(Backfill(t, members, conf, y, mo, last).rows)
    decreases |members|
  {
    if members != [] {
      BackfillDaysOnePerDay(t, members[0], conf, y, mo, 1, last);
      BackfillOnePerDay(BackfillDays(t, members[0], conf, y, mo, 1, last), members[1..], conf, y, mo, last);
    }
  }

  // ------------------------------------------------------------------ create

  /** Some row of (member, d) was added at or after index `from`. */
  predicate HasNewRow(rows: seq<Meal>, from: nat, member: MemberId, d: Date)
  {
    exists i | from <= i < |rows| :: IsFor(rows[i], member, d)
  }

  /** The rows a table gained, counted for one (member, date). */
  lemma CountExtends(rows: seq<Meal>, before: seq<Meal>, member: MemberId, d: Date)
    requires Extends(rows, before)
    ensures CountFor(rows, member, d) == CountFor(before, member, d) + CountFor(rows[|before|..], member, d)
  {
    assert rows == before + rows[|before|..];
    FilterConcat(before, rows[|before|..], ForKey(member, d));
  }

  /** The create view's window loop keeps earlier rows, adds only rows of
    * `me` carrying the auto value on days `d`..month end of this month, and
    * adds one for each of those days. */
  lemma {:induction false} FillWindowCreateAppends(t: Table, me: MemberId, c: Clock, v: Amount, d: int)
    requires Valid(t)
    ensures var r := FillWindowCreate(t, me, c, v, d);
            Valid(r) && Extends(r.rows, t.rows) &&
            (forall i | |t.rows| <= i < |r.rows| ::
               r.rows[i].member == me && AutoValues(r.rows[i], me, v) &&
               InMonthOf(r.rows[i].date, c) && d <= r.rows[i].date.day <= c.monthLength)
    decreases c.monthLength + 1 - d
  {
    if d <= c.monthLength {
      var t1 := Append(t, AutoRow(me, DayOfMonth(c, d), v));
      AppendKeeps(t, AutoRow(me, DayOfMonth(c, d), v));
      FillWindowCreateAppends(t1, me, c, v, d + 1);
      var r := FillWindowCreate(t1, me, c, v, d + 1);
      ExtendsTrans(r.rows, t1.rows, t.rows);
      assert r.rows[|t.rows|] == t1.rows[|t.rows|];
    }
  }

  lemma {:induction false} FillWindowCreateCovers(t: Table, me: MemberId, c: Clock, v: Amount, d: int)
    requires Valid(t)
    ensures forall k | d <= k <= c.monthLength ::
              HasNewRow(FillWindowCreate(t, me, c, v, d).rows, |t.rows|, me, DayOfMonth(c, k))
    decreases c.monthLength + 1 - d
  {
    if d <= c.monthLength {
      var t1 := Append(t, AutoRow(me, DayOfMonth(c, d), v));
      AppendKeeps(t, AutoRow(me, DayOfMonth(c, d), v));
      FillWindowCreateCovers(t1, me, c, v, d + 1);
      FillWindowCreateAppends(t1, me, c, v, d + 1);
      var r := FillWindowCreate(t1, me, c, v, d + 1);
      assert r.rows[|t.rows|] == t1.rows[|t.rows|];
      assert IsFor(r.rows[|t.rows|], me, DayOfMonth(c, d));
    }
  }

  /** An accepted create keeps every earlier row in place and adds exactly:
    * tomorrow's row (announced count, next-day count 0), then with auto entry
    * one auto-valued row for each day from the day after tomorrow to month
    * end, then today's row; `me` is the confirmer of each. */
  lemma {:induction false} CreateWritesRows(t: Table, me: MemberId, c: Clock, today: Amount, tomorrow: Amount,
                         auto: bool, v: Option<Amount>)
    requires Valid(t) && (auto ==> v.Some?)
    ensures var r := CreateWrites(t, me, c, today, tomorrow, auto, v);
            Valid(r) && Extends(r.rows, t.rows) && |r.rows| >= |t.rows| + 2 &&
            r.rows[|t.rows|] == Meal(t.next, me, Tomorrow(c), Some(tomorrow), Some(0), auto, v, me) &&
            r.rows[|r.rows| - 1] == Meal(r.next - 1, me, Today(c), Some(today), Some(tomorrow), auto, v, me) &&
            (!auto ==> |r.rows| == |t.rows| + 2) &&
            (forall i | |t.rows| < i < |r.rows| - 1 ::
               r.rows[i].member == me && AutoValues(r.rows[i], me, v.value) &&
               InMonthOf(r.rows[i].date, c) && c.day + 2 <= r.rows[i].date.day <= c.monthLength)
  {
    CreateWritesEnds(t, me, c, today, tomorrow, auto, v);
    CreateWritesMiddle(t, me, c, today, tomorrow, auto, v);
  }

  /** The first and the last row create appends, and the table it leaves. */
  lemma {:induction false} CreateWritesEnds(t: Table, me: MemberId, c: Clock, today: Amount, tomorrow: Amount,
                                            auto: bool, v: Option<Amount>)
    requires Valid(t) && (auto ==> v.Some?)
    ensures var r := CreateWrites(t, me, c, today, tomorrow, auto, v);
            Valid(r) && Extends(r.rows, t.rows) && |r.rows| >= |t.rows| + 2 &&
            r.rows[|t.rows|] == Meal(t.next, me, Tomorrow(c), Some(tomorrow), Some(0), auto, v, me) &&
            r.rows[|r.rows| - 1] == Meal(r.next - 1, me, Today(c), Some(today), Some(tomorrow), auto, v, me) &&
            (!auto ==> |r.rows| == |t.rows| + 2)
  {
    var t1 := Append(t, Meal(0, me, Tomorrow(c), Some(tomorrow), Some(0), auto, v, me));
    AppendKeeps(t, Meal(0, me, Tomorrow(c), Some(tomorrow), Some(0), auto, v, me));
    var t2 := if auto then FillWindowCreate(t1, me, c, v.value, c.day + 2) else t1;
    if auto {
      FillWindowCreateAppends(t1, me, c, v.value, c.day + 2);
    }
    var r := Append(t2, Meal(0, me, Today(c), Some(today), Some(tomorrow), auto, v, me));
    assert CreateWrites(t, me, c, today, tomorrow, auto, v) == r;
    AppendKeeps(t2, Meal(0, me, Today(c), Some(today), Some(tomorrow), auto, v, me));
    ExtendsTrans(r.rows, t2.rows, t.rows);
    assert r.rows[|t.rows|] == t1.rows[|t.rows|];
  }

  /** The rows create appends between those two are auto rows of `me` in the
    * window; there are none without auto entry. */
  lemma {:induction false} CreateWritesMiddle(t: Table, me: MemberId, c: Clock, today: Amount, tomorrow: Amount,
                                              auto: bool, v: Option<Amount>)
    requires Valid(t) && (auto ==> v.Some?)
    ensures var r := CreateWrites(t, me, c, today, tomorrow, auto, v);
            (!auto ==> |r.rows| == |t.rows| + 2) &&
            (forall i | |t.rows| < i < |r.rows| - 1 ::
               r.rows[i].member == me && AutoValues(r.rows[i], me, v.value) &&
               InMonthOf(r.rows[i].date, c) && c.day + 2 <= r.rows[i].date.day <= c.monthLength)
  {
    var t1 := Append(t, Meal(0, me, Tomorrow(c), Some(tomorrow), Some(0), auto, v, me));
    AppendKeeps(t, Meal(0, me, Tomorrow(c), Some(tomorrow), Some(0), auto, v, me));
    var t2 := if auto then FillWindowCreate(t1, me, c, v.value, c.day + 2) else t1;
    var r := Append(t2, Meal(0, me, Today(c), Some(today), Some(tomorrow), auto, v, me));
    assert CreateWrites(t, me, c, today, tomorrow, auto, v) == r;
    if auto {
      FillWindowCreateAppends(t1, me, c, v.value, c.day + 2);
      forall i | |t.rows| < i < |r.rows| - 1
        ensures r.rows[i].member == me && AutoValues(r.rows[i], me, v.value) &&
                InMonthOf(r.rows[i].date, c) && c.day + 2 <= r.rows[i].date.day <= c.monthLength
      {
        assert r.rows[i] == t2.rows[i];
      }
    }
  }

  /** With auto entry every day from the day after tomorrow to month end gets
    * a new row. */
  lemma CreateWritesWindow(t: Table, me: MemberId, c: Clock, today: Amount, tomorrow: Amount, v: Amount)
    requires Valid(t)
    ensures forall k | c.day + 2 <= k <= c.monthLength ::
              HasNewRow(CreateWrites(t, me, c, today, tomorrow, true, Some(v)).rows, |t.rows|, me, DayOfMonth(c, k))
  {
    var t1 := Append(t, Meal(0, me, Tomorrow(c), Some(tomorrow), Some(0), true, Some(v), me));
    AppendKeeps(t, Meal(0, me, Tomorrow(c), Some(tomorrow), Some(0), true, Some(v), me));
    var t2 := FillWindowCreate(t1, me, c, v, c.day + 2);
    FillWindowCreateCovers(t1, me, c, v, c.day + 2);
    var r := CreateWrites(t, me, c, today, tomorrow, true, Some(v));
    forall k | c.day + 2 <= k <= c.monthLength ensures HasNewRow(r.rows, |t.rows|, me, DayOfMonth(c, k)) {
      var i :| |t1.rows| <= i < |t2.rows| && IsFor(t2.rows[i], me, DayOfMonth(c, k));
      assert r.rows[i] == t2.rows[i];
    }
  }

  /** Create writes nothing exactly when the clock reads 00:00 or `me`
    * already has a row for today. */
  lemma CreateEntryRefusal(t: Table, me: MemberId, c: Clock, today: Amount, tomorrow: Amount,
                           value: Option<Amount>)
    requires Valid(t)
    ensures CreateEntry(t, me, c, today, tomorrow, value) == t <==>
            Maintenance(c) || HasRow(t.rows, me, Today(c))
  {
    if !(Maintenance(c) || HasRow(t.rows, me, Today(c))) {
      var decision := AutoDecision(c, value);
      CreateWritesRows(t, me, c, today, tomorrow, decision.0, decision.1);
    }
  }

  /** Rows gained between a first and a last new row that all miss
    * (member, d) add nothing to its count but those two rows. */
  lemma CountAddedEnds(rows: seq<Meal>, before: seq<Meal>, member: MemberId, d: Date)
    requires Extends(rows, before) && |rows| >= |before| + 2
    requires forall i | |before| < i < |rows| - 1 :: !IsFor(rows[i], member, d)
    ensures CountFor(rows, member, d) == CountFor(before, member, d) +
              (if IsFor(rows[|before|], member, d) then 1 else 0) +
              (if IsFor(rows[|rows| - 1], member, d) then 1 else 0)
  {
    var added := rows[|before|..];
    var mid := added[1..|added| - 1];
    assert added == [added[0]] + mid + [added[|added| - 1]];
    forall i | 0 <= i < |mid| ensures !ForKey(member, d)(mid[i]) {
      assert mid[i] == rows[|before| + 1 + i];
    }
    FilterNone(mid, ForKey(member, d));
    FilterConcat([added[0]] + mid, [added[|added| - 1]], ForKey(member, d));
    FilterConcat([added[0]], mid, ForKey(member, d));
    assert [added[0]][1..] == [] && [added[|added| - 1]][1..] == [];
    CountExtends(rows, before, member, d);
  }

  /** Rows gained that all belong to `me` leave the other members' rows as
    * they were. */
  lemma OthersUnchangedByOwnRows(rows: seq<Meal>, before: seq<Meal>, me: MemberId)
    requires Extends(rows, before)
    requires forall i | |before| <= i < |rows| :: rows[i].member == me
    ensures OthersRows(rows, me) == OthersRows(before, me)
  {
    var added := rows[|before|..];
    assert rows == before + added;
    FilterConcat(before, added, NotOf(me));
    forall i | 0 <= i < |added| ensures !NotOf(me)(added[i]) {
      assert added[i] == rows[|before| + i];
    }
    FilterNone(added, NotOf(me));
  }

  /** An accepted create leaves `me` exactly one row for today, adds one row
    * for tomorrow to those already there (the view's `get_or_create` always
    * creates, its slug being new), and leaves every other member's rows as
    * they were. */
  lemma {:induction false} CreateEntryCounts(t: Table, me: MemberId, c: Clock, today: Amount, tomorrow: Amount,
                          value: Option<Amount>)
    requires Valid(t) && !Maintenance(c) && !HasRow(t.rows, me, Today(c))
    ensures var r := CreateEntry(t, me, c, today, tomorrow, value);
            CountFor(r.rows, me, Today(c)) == 1 &&
            CountFor(r.rows, me, Tomorrow(c)) == CountFor(t.rows, me, Tomorrow(c)) + 1 &&
            OthersRows(r.rows, me) == OthersRows(t.rows, me)
  {
    var decision := AutoDecision(c, value);
    var r := CreateWrites(t, me, c, today, tomorrow, decision.0, decision.1);
    assert CreateEntry(t, me, c, today, tomorrow, value) == r;
    CreateWritesRows(t, me, c, today, tomorrow, decision.0, decision.1);
    AddedCounts(r.rows, t.rows, me, c);
  }

  /** Own rows appended as create appends them (tomorrow's first, today's
    * last, the window between) count once for today and add one for
    * tomorrow. */
  lemma {:induction false} AddedCounts(rows: seq<Meal>, before: seq<Meal>, me: MemberId, c: Clock)
    requires Extends(rows, before) && |rows| >= |before| + 2 && !HasRow(before, me, Today(c))
    requires IsFor(rows[|before|], me, Tomorrow(c)) && IsFor(rows[|rows| - 1], me, Today(c))
    requires forall i | |before| < i < |rows| - 1 ::
               rows[i].member == me && InMonthOf(rows[i].date, c) && c.day + 2 <= rows[i].date.day
    ensures CountFor(rows, me, Today(c)) == 1
    ensures CountFor(rows, me, Tomorrow(c)) == CountFor(before, me, Tomorrow(c)) + 1
    ensures OthersRows(rows, me) == OthersRows(before, me)
  {
    WindowMissesTodayAndTomorrow(rows, |before|, me, c);
    CountAddedEnds(rows, before, me, Today(c));
    CountAddedEnds(rows, before, me, Tomorrow(c));
    OthersUnchangedByOwnRows(rows, before, me);
  }

  /** The auto-entry rows lie from the day after tomorrow on, so none of
    * them is a row of today or of tomorrow. */
  lemma {:induction false} WindowMissesTodayAndTomorrow(rows: seq<Meal>, from: nat, me: MemberId, c: Clock)
    requires forall i | from < i < |rows| - 1 :: InMonthOf(rows[i].date, c) && c.day + 2 <= rows[i].date.day
    ensures forall i | from < i < |rows| - 1 :: !IsFor(rows[i], me, Today(c)) && !IsFor(rows[i], me, Tomorrow(c))
  {
    var tm := Tomorrow(c);
    assert (tm.year == c.year && tm.month == c.month) ==> tm.day == c.day + 1;
  }

  // ------------------------------------------------------------------- admin

  /** During maintenance the override writes nothing. Otherwise it sets the
    * meal count and confirmer of the row with the given slug and nothing
    * else: no row is added or removed, no other field of that row changes,
    * and rows of other members are untouched. */
  lemma AdminOverrideEffect(t: Table, actor: MemberId, i: nat, c: Clock, value: Amount)
    requires Valid(t) && i < |t.rows|
    ensures var r := AdminOverride(t, actor, t.rows[i].slug, c, value);
            Valid(r) && (Maintenance(c) ==> r == t) &&
            (!Maintenance(c) ==>
               |r.rows| == |t.rows| &&
               r.rows[i] == t.rows[i].(mealToday := Some(value), confirmedBy := actor) &&
               (forall j | 0 <= j < |t.rows| && j != i :: r.rows[j] == t.rows[j]) &&
               (forall member, d :: CountFor(r.rows, member, d) == CountFor(t.rows, member, d)) &&
               OthersRows(r.rows, t.rows[i].member) == OthersRows(t.rows, t.rows[i].member))
  {
    var slug := t.rows[i].slug;
    if !Maintenance(c) {
      UpdateWhereValid(t, WithSlug(slug), AdminSet(actor, value));
      forall member, d ensures CountFor(AdminOverride(t, actor, slug, c, value).rows, member, d) == CountFor(t.rows, member, d) {
        UpdateWhereCount(t.rows, WithSlug(slug), AdminSet(actor, value), ForKey(member, d));
      }
      UpdateWhereFrame(t.rows, WithSlug(slug), AdminSet(actor, value), NotOf(t.rows[i].member));
    }
  }
}
