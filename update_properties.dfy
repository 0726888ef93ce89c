/** What the update view promises, proved stage by stage about the
  * functions of meal_entry.dfy: tomorrow's rows carry the announced count,
  * the auto-entry window is filled or cleared, today's loaded row is saved,
  * every other (member, day) and every other member keeps its rows, and a
  * table with one row per member and day keeps that shape. */
module UpdateProperties {
  import opened Common
  import opened Memberships
  import opened MealTable
  import opened MealEntry

  /** The values the update view writes into tomorrow's rows. */
  predicate TomorrowValues(m: Meal, me: MemberId, tomorrow: Amount, auto: bool, v: Option<Amount>)
  {
    m.mealToday == Some(tomorrow) && m.mealNextDay == Some(0) && m.autoEntry == auto &&
    m.autoValue == v && m.confirmedBy == me
  }

  /** Day `k` of the clock's month has a row of `me`, and each such row
    * carries the auto value `v`. */
  predicate AutoDay(rows: seq<Meal>, me: MemberId, c: Clock, k: int, v: Amount)
  {
    HasRow(rows, me, DayOfMonth(c, k)) &&
    forall m | m in RowsFor(rows, me, DayOfMonth(c, k)) :: AutoValues(m, me, v)
  }

  /** Deleting a row keeps every other row. */
  lemma RemoveAtSubset(rows: seq<Meal>, i: nat, m: Meal)
    requires i < |rows| && m in RemoveAt(rows, i)
    ensures m in rows
  {
    assert m in rows[..i] || m in rows[i + 1..];
  }

  // ------------------------------------------------------ duplicate deletion

  lemma DropEarliestValid(t: Table, me: MemberId, d: Date)
    requires Valid(t)
    ensures Valid(DropEarliest(t, me, d)) && DropEarliest(t, me, d).next == t.next
  {
    if CountFor(t.rows, me, d) >= 2 {
      RemoveAtValid(t, FirstIndex(t.rows, me, d));
    }
  }

  /** Only a row of (me, d) can go. */
  lemma DropEarliestFrame(t: Table, me: MemberId, d: Date, member: MemberId, day: Date)
    requires member != me || day != d
    ensures RowsFor(DropEarliest(t, me, d).rows, member, day) == RowsFor(t.rows, member, day)
    ensures OthersRows(DropEarliest(t, me, d).rows, me) == OthersRows(t.rows, me)
  {
    if CountFor(t.rows, me, d) >= 2 {
      var j := FirstIndex(t.rows, me, d);
      RemoveAtFrame(t.rows, j, ForKey(member, day));
      RemoveAtFrame(t.rows, j, NotOf(me));
    }
  }

  /** Of two or more rows of (me, d) one goes; the rest are rows of before. */
  lemma DropEarliestRows(t: Table, me: MemberId, d: Date)
    ensures var n := CountFor(t.rows, me, d);
            CountFor(DropEarliest(t, me, d).rows, me, d) == (if n >= 2 then n - 1 else n)
    ensures forall m | m in RowsFor(DropEarliest(t, me, d).rows, me, d) :: m in RowsFor(t.rows, me, d)
  {
    if CountFor(t.rows, me, d) >= 2 {
      var j := FirstIndex(t.rows, me, d);
      RemoveAtFrame(t.rows, j, ForKey(me, d));
      forall m | m in RowsFor(DropEarliest(t, me, d).rows, me, d) ensures m in RowsFor(t.rows, me, d) {
        RemoveAtSubset(t.rows, j, m);
      }
    }
  }

  // ------------------------------------------------------- tomorrow's rows

  lemma WriteTomorrowValid(t: Table, me: MemberId, c: Clock, tomorrow: Amount, auto: bool, v: Option<Amount>)
    requires Valid(t)
    ensures Valid(WriteTomorrow(t, me, c, tomorrow, auto, v))
    ensures WriteTomorrow(t, me, c, tomorrow, auto, v).next >= t.next
  {
    var d := Tomorrow(c);
    if HasRow(t.rows, me, d) {
      UpdateWhereValid(t, ForKey(me, d), TomorrowSet(me, tomorrow, auto, v));
    } else {
      AppendKeeps(t, Meal(0, me, d, Some(tomorrow), Some(0), auto, v, me));
    }
    DropEarliestValid(UpsertTomorrow(t, me, c, tomorrow, auto, v), me, d);
  }

  /** Only tomorrow's rows of `me` are touched. */
  lemma WriteTomorrowFrame(t: Table, me: MemberId, c: Clock, tomorrow: Amount, auto: bool, v: Option<Amount>,
                           member: MemberId, d: Date)
    requires member != me || d != Tomorrow(c)
    ensures RowsFor(WriteTomorrow(t, me, c, tomorrow, auto, v).rows, member, d) == RowsFor(t.rows, member, d)
    ensures OthersRows(WriteTomorrow(t, me, c, tomorrow, auto, v).rows, me) == OthersRows(t.rows, me)
  {
    var dt := Tomorrow(c);
    var row := Meal(0, me, dt, Some(tomorrow), Some(0), auto, v, me);
    if HasRow(t.rows, me, dt) {
      UpdateWhereFrame(t.rows, ForKey(me, dt), TomorrowSet(me, tomorrow, auto, v), ForKey(member, d));
      UpdateWhereFrame(t.rows, ForKey(me, dt), TomorrowSet(me, tomorrow, auto, v), NotOf(me));
    } else {
      AppendFrame(t.rows, row.(slug := t.next), ForKey(member, d));
      AppendFrame(t.rows, row.(slug := t.next), NotOf(me));
    }
    DropEarliestFrame(UpsertTomorrow(t, me, c, tomorrow, auto, v), me, dt, member, d);
  }

  /** The upsert leaves every row of (me, tomorrow) with the announced
    * values, and as many rows as before, or one when there were none. */
  lemma UpsertTomorrowRows(t: Table, me: MemberId, c: Clock, tomorrow: Amount, auto: bool, v: Option<Amount>)
    ensures var r := UpsertTomorrow(t, me, c, tomorrow, auto, v);
            var n := CountFor(t.rows, me, Tomorrow(c));
            CountFor(r.rows, me, Tomorrow(c)) == (if n == 0 then 1 else n) &&
            forall m | m in RowsFor(r.rows, me, Tomorrow(c)) :: TomorrowValues(m, me, tomorrow, auto, v)
  {
    var d := Tomorrow(c);
    var t1 := UpsertTomorrow(t, me, c, tomorrow, auto, v);
    if HasRow(t.rows, me, d) {
      UpdateWhereCount(t.rows, ForKey(me, d), TomorrowSet(me, tomorrow, auto, v), ForKey(me, d));
      forall m | m in RowsFor(t1.rows, me, d) ensures TomorrowValues(m, me, tomorrow, auto, v) {
        var i :| 0 <= i < |t1.rows| && t1.rows[i] == m;
        assert t1.rows[i] == TomorrowSet(me, tomorrow, auto, v)(t.rows[i]);
      }
    } else {
      var row := Meal(0, me, d, Some(tomorrow), Some(0), auto, v, me);
      AppendFrame(t.rows, row.(slug := t.next), ForKey(me, d));
      assert CountFor(t.rows, me, d) == 0;
      assert RowsFor(t.rows, me, d) == [];
    }
  }

  /** Afterwards `me` has a row for tomorrow, every such row carries the
    * announced count, and of several rows the earliest one is gone. */
  lemma WriteTomorrowRows(t: Table, me: MemberId, c: Clock, tomorrow: Amount, auto: bool, v: Option<Amount>)
    ensures var r := WriteTomorrow(t, me, c, tomorrow, auto, v);
            var n := CountFor(t.rows, me, Tomorrow(c));
            HasRow(r.rows, me, Tomorrow(c)) &&
            CountFor(r.rows, me, Tomorrow(c)) == (if n <= 1 then 1 else n - 1) &&
            forall m | m in RowsFor(r.rows, me, Tomorrow(c)) :: TomorrowValues(m, me, tomorrow, auto, v)
  {
    UpsertTomorrowRows(t, me, c, tomorrow, auto, v);
    DropEarliestRows(UpsertTomorrow(t, me, c, tomorrow, auto, v), me, Tomorrow(c));
  }

  /** With at most one row of `me` for tomorrow before, exactly one after,
    * so one row per member and day is kept. */
  lemma WriteTomorrowOnePerDay(t: Table, me: MemberId, c: Clock, tomorrow: Amount, auto: bool, v: Option<Amount>)
    requires OnePerDay(t.rows)
    ensures OnePerDay(WriteTomorrow(t, me, c, tomorrow, auto, v).rows)
  {
    var r := WriteTomorrow(t, me, c, tomorrow, auto, v);
    forall member, d ensures CountFor(r.rows, member, d) <= 1 {
      if member == me && d == Tomorrow(c) {
        WriteTomorrowRows(t, me, c, tomorrow, auto, v);
      } else {
        WriteTomorrowFrame(t, me, c, tomorrow, auto, v, member, d);
        assert CountFor(t.rows, member, d) <= 1;
      }
    }
  }

  // ------------------------------------------------------------ clearing

  lemma ClearWindowValid(t: Table, me: MemberId, c: Clock)
    requires Valid(t)
    ensures Valid(ClearWindow(t, me, c)) && ClearWindow(t, me, c).next == t.next
  {
    UpdateWhereValid(t, ClearSel(me, c), Cleared());
  }

  /** Clearing touches only `me`'s rows in the window, and no row count. */
  lemma ClearWindowFrame(t: Table, me: MemberId, c: Clock, member: MemberId, d: Date)
    ensures c.day == c.monthLength || !(member == me && ClearDate(d, c)) ==>
            RowsFor(ClearWindow(t, me, c).rows, member, d) == RowsFor(t.rows, member, d)
    ensures CountFor(ClearWindow(t, me, c).rows, member, d) == CountFor(t.rows, member, d)
    ensures OthersRows(ClearWindow(t, me, c).rows, me) == OthersRows(t.rows, me)
  {
    if c.day != c.monthLength {
      if !(member == me && ClearDate(d, c)) {
        UpdateWhereFrame(t.rows, ClearSel(me, c), Cleared(), ForKey(member, d));
      }
      UpdateWhereCount(t.rows, ClearSel(me, c), Cleared(), ForKey(member, d));
      UpdateWhereFrame(t.rows, ClearSel(me, c), Cleared(), NotOf(me));
    }
  }

  /** Unless today is the month's last day, every row of `me` in the window
    * ends empty, as a backfilled placeholder is. */
  lemma ClearWindowRows(t: Table, me: MemberId, c: Clock, d: Date)
    requires c.day != c.monthLength && ClearDate(d, c)
    ensures forall m | m in RowsFor(ClearWindow(t, me, c).rows, me, d) :: IsPlaceholder(m)
  {
    var r := ClearWindow(t, me, c);
    forall m | m in RowsFor(r.rows, me, d) ensures IsPlaceholder(m) {
      var i :| 0 <= i < |r.rows| && r.rows[i] == m;
      assert r.rows[i] == Cleared()(t.rows[i]);
    }
  }

  // ------------------------------------------------------------- filling

  lemma {:induction false} FillWindowUpdateValid(t: Table, me: MemberId, c: Clock, v: Amount, d: int)
    requires Valid(t)
    ensures Valid(FillWindowUpdate(t, me, c, v, d)) && FillWindowUpdate(t, me, c, v, d).next >= t.next
    decreases c.monthLength + 1 - d
  {
    if d <= c.monthLength {
      var day := DayOfMonth(c, d);
      if HasRow(t.rows, me, day) {
        UpdateWhereValid(t, ForKey(me, day), AutoSet(me, v));
        FillWindowUpdateValid(Table(UpdateWhere(t.rows, ForKey(me, day), AutoSet(me, v)), t.next), me, c, v, d + 1);
      } else {
        AppendKeeps(t, AutoRow(me, day, v));
        FillWindowUpdateValid(Append(t, AutoRow(me, day, v)), me, c, v, d + 1);
      }
    }
  }

  /** One step of the window loop touches only (me, day `d`). */
  lemma FillStepFrame(t: Table, me: MemberId, c: Clock, v: Amount, d: int, member: MemberId, dd: Date)
    requires member != me || dd != DayOfMonth(c, d)
    ensures var day := DayOfMonth(c, d);
            var t1 := if HasRow(t.rows, me, day)
                      then Table(UpdateWhere(t.rows, ForKey(me, day), AutoSet(me, v)), t.next)
                      else Append(t, AutoRow(me, day, v));
            RowsFor(t1.rows, member, dd) == RowsFor(t.rows, member, dd) &&
            OthersRows(t1.rows, me) == OthersRows(t.rows, me)
  {
    var day := DayOfMonth(c, d);
    if HasRow(t.rows, me, day) {
      UpdateWhereFrame(t.rows, ForKey(me, day), AutoSet(me, v), ForKey(member, dd));
      UpdateWhereFrame(t.rows, ForKey(me, day), AutoSet(me, v), NotOf(me));
    } else {
      AppendFrame(t.rows, AutoRow(me, day, v).(slug := t.next), ForKey(member, dd));
      AppendFrame(t.rows, AutoRow(me, day, v).(slug := t.next), NotOf(me));
    }
  }

  /** The window loop touches only `me`'s rows of this month from day `d`
    * on, and no other member's rows. */
  lemma {:induction false} FillWindowUpdateFrame(t: Table, me: MemberId, c: Clock, v: Amount, d: int,
                                                 member: MemberId, dd: Date)
    requires !(member == me && InMonthOf(dd, c) && d <= dd.day)
    ensures RowsFor(FillWindowUpdate(t, me, c, v, d).rows, member, dd) == RowsFor(t.rows, member, dd)
    ensures OthersRows(FillWindowUpdate(t, me, c, v, d).rows, me) == OthersRows(t.rows, me)
    decreases c.monthLength + 1 - d
  {
    if d <= c.monthLength {
      var day := DayOfMonth(c, d);
      var t1 := if HasRow(t.rows, me, day)
                then Table(UpdateWhere(t.rows, ForKey(me, day), AutoSet(me, v)), t.next)
                else Append(t, AutoRow(me, day, v));
      FillStepFrame(t, me, c, v, d, member, dd);
      FillWindowUpdateFrame(t1, me, c, v, d + 1, member, dd);
    }
  }

  /** One step of the window loop leaves day `d` with a row of `me`, each
    * carrying the auto value, and as many rows as before or one. */
  lemma FillStepRows(t: Table, me: MemberId, c: Clock, v: Amount, d: int)
    ensures var day := DayOfMonth(c, d);
            var t1 := if HasRow(t.rows, me, day)
                      then Table(UpdateWhere(t.rows, ForKey(me, day), AutoSet(me, v)), t.next)
                      else Append(t, AutoRow(me, day, v));
            var n := CountFor(t.rows, me, day);
            AutoDay(t1.rows, me, c, d, v) && CountFor(t1.rows, me, day) == (if n == 0 then 1 else n)
  {
    var day := DayOfMonth(c, d);
    var t1 := if HasRow(t.rows, me, day)
              then Table(UpdateWhere(t.rows, ForKey(me, day), AutoSet(me, v)), t.next)
              else Append(t, AutoRow(me, day, v));
    if HasRow(t.rows, me, day) {
      UpdateWhereCount(t.rows, ForKey(me, day), AutoSet(me, v), ForKey(me, day));
      forall m | m in RowsFor(t1.rows, me, day) ensures AutoValues(m, me, v) {
        var i :| 0 <= i < |t1.rows| && t1.rows[i] == m;
        assert t1.rows[i] == AutoSet(me, v)(t.rows[i]);
      }
    } else {
      AppendFrame(t.rows, AutoRow(me, day, v).(slug := t.next), ForKey(me, day));
      assert CountFor(t.rows, me, day) == 0;
      assert RowsFor(t.rows, me, day) == [];
    }
    assert CountFor(t1.rows, me, day) > 0;
  }

  /** After the window loop every day `d`..month end has a row of `me`, and
    * each row of `me` on those days carries the auto value. */
  lemma {:induction false} FillWindowUpdateRows(t: Table, me: MemberId, c: Clock, v: Amount, d: int)
    ensures forall k | d <= k <= c.monthLength :: AutoDay(FillWindowUpdate(t, me, c, v, d).rows, me, c, k, v)
    decreases c.monthLength + 1 - d
  {
    if d <= c.monthLength {
      var day := DayOfMonth(c, d);
      var t1 := if HasRow(t.rows, me, day)
                then Table(UpdateWhere(t.rows, ForKey(me, day), AutoSet(me, v)), t.next)
                else Append(t, AutoRow(me, day, v));
      var r := FillWindowUpdate(t, me, c, v, d);
      assert r == FillWindowUpdate(t1, me, c, v, d + 1);
      assert AutoDay(r.rows, me, c, d, v) by {
        FillStepRows(t, me, c, v, d);
        FillWindowUpdateFrame(t1, me, c, v, d + 1, me, day);
        assert RowsFor(r.rows, me, day) == RowsFor(t1.rows, me, day);
        assert CountFor(r.rows, me, day) > 0;
      }
      FillWindowUpdateRows(t1, me, c, v, d + 1);
    }
  }

  /** The window loop adds a row for a day only when there was none. */
  lemma {:induction false} FillWindowUpdateOnePerDay(t: Table, me: MemberId, c: Clock, v: Amount, d: int)
    requires OnePerDay(t.rows)
    ensures OnePerDay(FillWindowUpdate(t, me, c, v, d).rows)
    decreases c.monthLength + 1 - d
  {
    if d <= c.monthLength {
      var day := DayOfMonth(c, d);
      var t1 := if HasRow(t.rows, me, day)
                then Table(UpdateWhere(t.rows, ForKey(me, day), AutoSet(me, v)), t.next)
                else Append(t, AutoRow(me, day, v));
      forall member, dd ensures CountFor(t1.rows, member, dd) <= 1 {
        assert CountFor(t.rows, member, dd) <= 1;
        if member == me && dd == day {
          FillStepRows(t, me, c, v, d);
        } else {
          FillStepFrame(t, me, c, v, d, member, dd);
        }
      }
      FillWindowUpdateOnePerDay(t1, me, c, v, d + 1);
    }
  }

  // ----------------------------------------------------- window as a whole

  /** The days from the day after tomorrow to month end. */
  predicate WindowDate(d: Date, c: Clock)
  {
    InMonthOf(d, c) && d.day >= c.day + 2
  }

  lemma AdjustWindowValid(t: Table, me: MemberId, c: Clock, auto: bool, v: Option<Amount>)
    requires Valid(t) && (auto ==> v.Some?)
    ensures Valid(AdjustWindow(t, me, c, auto, v)) && AdjustWindow(t, me, c, auto, v).next >= t.next
  {
    if auto {
      FillWindowUpdateValid(t, me, c, v.value, c.day + 2);
      DropEarliestValid(FillWindowUpdate(t, me, c, v.value, c.day + 2), me, DayOfMonth(c, c.monthLength));
    } else {
      ClearWindowValid(t, me, c);
    }
  }

  /** The clearing window lies within the days after tomorrow. */
  lemma ClearDateInWindow(c: Clock, d: Date)
    requires ValidClock(c) && c.day != c.monthLength && ClearDate(d, c)
    ensures WindowDate(d, c)
  {
    assert Tomorrow(c).day == c.day + 1;
  }

  /** Filling then collapsing touches only `me`'s rows in the window. */
  lemma FillCollapseFrame(t: Table, me: MemberId, c: Clock, v: Amount, member: MemberId, d: Date)
    requires c.day < c.monthLength - 1
    ensures var r := CollapseMonthEnd(FillWindowUpdate(t, me, c, v, c.day + 2), me, c);
            (!(member == me && WindowDate(d, c)) ==> RowsFor(r.rows, member, d) == RowsFor(t.rows, member, d)) &&
            OthersRows(r.rows, me) == OthersRows(t.rows, me)
  {
    var t1 := FillWindowUpdate(t, me, c, v, c.day + 2);
    if !(member == me && WindowDate(d, c)) {
      FillWindowUpdateFrame(t, me, c, v, c.day + 2, member, d);
      DropEarliestFrame(t1, me, DayOfMonth(c, c.monthLength), member, d);
    }
    FillWindowUpdateFrame(t, me, c, v, c.day + 2, me + 1, d);
    DropEarliestFrame(t1, me, DayOfMonth(c, c.monthLength), me + 1, d);
  }

  /** Filling or clearing touches only `me`'s rows in the window. */
  lemma AdjustWindowFrame(t: Table, me: MemberId, c: Clock, auto: bool, v: Option<Amount>, member: MemberId, d: Date)
    requires ValidClock(c) && (auto ==> v.Some? && c.day < c.monthLength - 1)
    ensures !(member == me && WindowDate(d, c)) ==>
            RowsFor(AdjustWindow(t, me, c, auto, v).rows, member, d) == RowsFor(t.rows, member, d)
    ensures OthersRows(AdjustWindow(t, me, c, auto, v).rows, me) == OthersRows(t.rows, me)
  {
    if auto {
      FillCollapseFrame(t, me, c, v.value, member, d);
    } else {
      if c.day != c.monthLength && member == me && ClearDate(d, c) {
        ClearDateInWindow(c, d);
      }
      ClearWindowFrame(t, me, c, member, d);
    }
  }

  lemma DropEarliestOnePerDay(t: Table, me: MemberId, d: Date)
    requires OnePerDay(t.rows)
    ensures OnePerDay(DropEarliest(t, me, d).rows)
  {
    forall member, day ensures CountFor(DropEarliest(t, me, d).rows, member, day) <= 1 {
      assert CountFor(t.rows, member, day) <= 1;
      if member == me && day == d {
        DropEarliestRows(t, me, d);
      } else {
        DropEarliestFrame(t, me, d, member, day);
      }
    }
  }

  lemma AdjustWindowOnePerDay(t: Table, me: MemberId, c: Clock, auto: bool, v: Option<Amount>)
    requires OnePerDay(t.rows) && (auto ==> v.Some?)
    ensures OnePerDay(AdjustWindow(t, me, c, auto, v).rows)
  {
    if auto {
      FillWindowUpdateOnePerDay(t, me, c, v.value, c.day + 2);
      DropEarliestOnePerDay(FillWindowUpdate(t, me, c, v.value, c.day + 2), me, DayOfMonth(c, c.monthLength));
    } else {
      var r := ClearWindow(t, me, c);
      forall member, d ensures CountFor(r.rows, member, d) <= 1 {
        ClearWindowFrame(t, me, c, member, d);
        assert CountFor(t.rows, member, d) <= 1;
      }
    }
  }

  // ------------------------------------------------------- today's save

  lemma SaveTodayValid(t: Table, slug: nat, tomorrow: Amount, auto: bool, v: Option<Amount>)
    requires Valid(t)
    ensures Valid(SaveToday(t, slug, tomorrow, auto, v)) && SaveToday(t, slug, tomorrow, auto, v).next == t.next
  {
    UpdateWhereValid(t, WithSlug(slug), TodaySet(tomorrow, auto, v));
  }

  /** Writing back the row with slug `row.slug` touches that row only: every
    * other (member, day) keeps its rows, and no count changes. */
  lemma SaveTodayFrame(t: Table, row: Meal, tomorrow: Amount, auto: bool, v: Option<Amount>, member: MemberId, d: Date)
    requires Valid(t) && row in t.rows
    ensures var r := SaveToday(t, row.slug, tomorrow, auto, v);
            (!IsFor(row, member, d) ==> RowsFor(r.rows, member, d) == RowsFor(t.rows, member, d)) &&
            CountFor(r.rows, member, d) == CountFor(t.rows, member, d) &&
            OthersRows(r.rows, row.member) == OthersRows(t.rows, row.member) &&
            TodaySet(tomorrow, auto, v)(row) in RowsFor(r.rows, row.member, row.date)
  {
    var j :| 0 <= j < |t.rows| && t.rows[j] == row;
    var r := SaveToday(t, row.slug, tomorrow, auto, v);
    var f := TodaySet(tomorrow, auto, v);
    assert forall i | 0 <= i < |t.rows| && WithSlug(row.slug)(t.rows[i]) :: t.rows[i] == row;
    assert !IsFor(row, member, d) ==> RowsFor(r.rows, member, d) == RowsFor(t.rows, member, d) by {
      if !IsFor(row, member, d) {
        UpdateWhereFrame(t.rows, WithSlug(row.slug), f, ForKey(member, d));
      }
    }
    assert CountFor(r.rows, member, d) == CountFor(t.rows, member, d) by {
      UpdateWhereCount(t.rows, WithSlug(row.slug), f, ForKey(member, d));
    }
    assert OthersRows(r.rows, row.member) == OthersRows(t.rows, row.member) by {
      UpdateWhereFrame(t.rows, WithSlug(row.slug), f, NotOf(row.member));
    }
    assert r.rows[j] == f(row);
  }

  // ------------------------------------------------------ the whole update

  /** The row loaded as today's survives tomorrow's write and the window
    * adjustment, so the final save finds it. */
  lemma LoadedRowSurvives(t: Table, me: MemberId, c: Clock, row: Meal, tomorrow: Amount, auto: bool, v: Option<Amount>)
    requires Valid(t) && ValidClock(c) && (auto ==> v.Some? && c.day < c.monthLength - 1)
    requires row in t.rows && IsFor(row, me, Today(c))
    ensures var t2 := AdjustWindow(WriteTomorrow(t, me, c, tomorrow, auto, v), me, c, auto, v);
            Valid(t2) && row in t2.rows &&
            RowsFor(t2.rows, me, Today(c)) == RowsFor(t.rows, me, Today(c)) &&
            OthersRows(t2.rows, me) == OthersRows(t.rows, me)
  {
    var t1 := WriteTomorrow(t, me, c, tomorrow, auto, v);
    WriteTomorrowValid(t, me, c, tomorrow, auto, v);
    WriteTomorrowFrame(t, me, c, tomorrow, auto, v, me, Today(c));
    AdjustWindowValid(t1, me, c, auto, v);
    AdjustWindowFrame(t1, me, c, auto, v, me, Today(c));
    assert row in RowsFor(t.rows, me, Today(c));
  }

  /** The update keeps the slugs valid and every other member's rows, and
    * saves the loaded row with the form's values without adding or
    * removing any row of today. */
  lemma UpdateWritesToday(t: Table, me: MemberId, c: Clock, row: Meal, tomorrow: Amount, auto: bool, v: Option<Amount>)
    requires Valid(t) && ValidClock(c) && (auto ==> v.Some? && c.day < c.monthLength - 1)
    requires row in t.rows && IsFor(row, me, Today(c))
    ensures var r := UpdateWrites(t, me, c, row.slug, tomorrow, auto, v);
            Valid(r) && OthersRows(r.rows, me) == OthersRows(t.rows, me) &&
            TodaySet(tomorrow, auto, v)(row) in RowsFor(r.rows, me, Today(c)) &&
            CountFor(r.rows, me, Today(c)) == CountFor(t.rows, me, Today(c))
  {
    var t2 := AdjustWindow(WriteTomorrow(t, me, c, tomorrow, auto, v), me, c, auto, v);
    LoadedRowSurvives(t, me, c, row, tomorrow, auto, v);
    SaveTodayValid(t2, row.slug, tomorrow, auto, v);
    SaveTodayFrame(t2, row, tomorrow, auto, v, me, Today(c));
  }

  /** Tomorrow's rows end with the announced count, whatever the window. */
  lemma UpdateWritesTomorrow(t: Table, me: MemberId, c: Clock, row: Meal, tomorrow: Amount, auto: bool, v: Option<Amount>)
    requires Valid(t) && ValidClock(c) && (auto ==> v.Some? && c.day < c.monthLength - 1)
    requires row in t.rows && IsFor(row, me, Today(c))
    ensures var r := UpdateWrites(t, me, c, row.slug, tomorrow, auto, v);
            var n := CountFor(t.rows, me, Tomorrow(c));
            HasRow(r.rows, me, Tomorrow(c)) &&
            CountFor(r.rows, me, Tomorrow(c)) == (if n <= 1 then 1 else n - 1) &&
            forall m | m in RowsFor(r.rows, me, Tomorrow(c)) :: TomorrowValues(m, me, tomorrow, auto, v)
  {
    var t1 := WriteTomorrow(t, me, c, tomorrow, auto, v);
    var t2 := AdjustWindow(t1, me, c, auto, v);
    WriteTomorrowRows(t, me, c, tomorrow, auto, v);
    AdjustWindowFrame(t1, me, c, auto, v, me, Tomorrow(c));
    LoadedRowSurvives(t, me, c, row, tomorrow, auto, v);
    SaveTodayFrame(t2, row, tomorrow, auto, v, me, Tomorrow(c));
  }

  /** Collapsing the month's last day keeps a filled day filled. */
  lemma CollapseKeepsAutoDay(t: Table, me: MemberId, c: Clock, k: int, v: Amount)
    requires AutoDay(t.rows, me, c, k, v)
    ensures AutoDay(CollapseMonthEnd(t, me, c).rows, me, c, k, v)
  {
    if k == c.monthLength {
      DropEarliestRows(t, me, DayOfMonth(c, k));
    } else {
      DropEarliestFrame(t, me, DayOfMonth(c, c.monthLength), me, DayOfMonth(c, k));
    }
  }

  /** With auto entry every day from the day after tomorrow to month end has
    * a row of `me`, each carrying the auto value. */
  lemma {:induction false} UpdateWritesFilled(t: Table, me: MemberId, c: Clock, row: Meal, tomorrow: Amount, v: Amount)
    requires Valid(t) && ValidClock(c) && c.day < c.monthLength - 1
    requires row in t.rows && IsFor(row, me, Today(c))
    ensures forall k | c.day + 2 <= k <= c.monthLength ::
              AutoDay(UpdateWrites(t, me, c, row.slug, tomorrow, true, Some(v)).rows, me, c, k, v)
  {
    var f := FillWindowUpdate(WriteTomorrow(t, me, c, tomorrow, true, Some(v)), me, c, v, c.day + 2);
    var r := UpdateWrites(t, me, c, row.slug, tomorrow, true, Some(v));
    LoadedRowKept(t, me, c, row, tomorrow, v);
    FilledWindowRows(t, me, c, tomorrow, v);
    FilledWindowSurvives(f, row, me, c, tomorrow, v);
    UpdateWritesAutoSteps(t, me, c, row.slug, tomorrow, v);
    forall k | c.day + 2 <= k <= c.monthLength ensures AutoDay(r.rows, me, c, k, v) {
      assert AutoDay(SaveToday(CollapseMonthEnd(f, me, c), row.slug, tomorrow, true, Some(v)).rows, me, c, k, v);
    }
  }

  /** With auto entry the update is the fill, the month-end collapse and
    * the save, in that order. */
  lemma UpdateWritesAutoSteps(t: Table, me: MemberId, c: Clock, slug: nat, tomorrow: Amount, v: Amount)
    ensures UpdateWrites(t, me, c, slug, tomorrow, true, Some(v)) ==
            SaveToday(CollapseMonthEnd(FillWindowUpdate(WriteTomorrow(t, me, c, tomorrow, true, Some(v)), me, c, v, c.day + 2), me, c),
                      slug, tomorrow, true, Some(v))
  {
  }

  /** The row loaded as today's is still there, in a valid table, after the
    * tomorrow write, the fill and the month-end collapse. */
  lemma LoadedRowKept(t: Table, me: MemberId, c: Clock, row: Meal, tomorrow: Amount, v: Amount)
    requires Valid(t) && ValidClock(c) && c.day < c.monthLength - 1
    requires row in t.rows && IsFor(row, me, Today(c))
    ensures var f := FillWindowUpdate(WriteTomorrow(t, me, c, tomorrow, true, Some(v)), me, c, v, c.day + 2);
            Valid(CollapseMonthEnd(f, me, c)) && row in CollapseMonthEnd(f, me, c).rows
  {
    LoadedRowSurvives(t, me, c, row, tomorrow, true, Some(v));
    AdjustWindowAuto(WriteTomorrow(t, me, c, tomorrow, true, Some(v)), me, c, v);
  }

  /** After the tomorrow write and the fill, every window day holds auto
    * rows only, and at least one. */
  lemma FilledWindowRows(t: Table, me: MemberId, c: Clock, tomorrow: Amount, v: Amount)
    ensures var f := FillWindowUpdate(WriteTomorrow(t, me, c, tomorrow, true, Some(v)), me, c, v, c.day + 2);
            forall k | c.day + 2 <= k <= c.monthLength :: AutoDay(f.rows, me, c, k, v)
  {
    FillWindowUpdateRows(WriteTomorrow(t, me, c, tomorrow, true, Some(v)), me, c, v, c.day + 2);
  }

  /** With auto entry the window step is the fill followed by the
    * month-end collapse. */
  lemma AdjustWindowAuto(t: Table, me: MemberId, c: Clock, v: Amount)
    ensures AdjustWindow(t, me, c, true, Some(v)) == CollapseMonthEnd(FillWindowUpdate(t, me, c, v, c.day + 2), me, c)
  {
  }

  /** Collapsing the month's last day and then saving today's row leave a
    * filled window filled. */
  lemma {:induction false} FilledWindowSurvives(f: Table, row: Meal, me: MemberId, c: Clock, tomorrow: Amount, v: Amount)
    requires Valid(CollapseMonthEnd(f, me, c)) && row in CollapseMonthEnd(f, me, c).rows && row.date == Today(c)
    requires forall k | c.day + 2 <= k <= c.monthLength :: AutoDay(f.rows, me, c, k, v)
    ensures forall k | c.day + 2 <= k <= c.monthLength ::
              AutoDay(SaveToday(CollapseMonthEnd(f, me, c), row.slug, tomorrow, true, Some(v)).rows, me, c, k, v)
  {
    var t2 := CollapseMonthEnd(f, me, c);
    forall k | c.day + 2 <= k <= c.monthLength
      ensures AutoDay(SaveToday(t2, row.slug, tomorrow, true, Some(v)).rows, me, c, k, v)
    {
      CollapseKeepsAutoDay(f, me, c, k, v);
      FilledDaySurvivesSave(t2, row, me, c, k, tomorrow, v);
    }
  }

  /** Saving today's row leaves a filled later day filled. */
  lemma {:induction false} FilledDaySurvivesSave(t: Table, row: Meal, me: MemberId, c: Clock, k: int, tomorrow: Amount, v: Amount)
    requires Valid(t) && row in t.rows && row.date == Today(c) && k != c.day
    requires AutoDay(t.rows, me, c, k, v)
    ensures AutoDay(SaveToday(t, row.slug, tomorrow, true, Some(v)).rows, me, c, k, v)
  {
    assert !IsFor(row, me, DayOfMonth(c, k));
    SaveTodayFrame(t, row, tomorrow, true, Some(v), me, DayOfMonth(c, k));
  }

  /** Without auto entry, unless today is the month's last day, every row of
    * `me` in the clearing window ends empty. */
  lemma UpdateWritesCleared(t: Table, me: MemberId, c: Clock, row: Meal, tomorrow: Amount)
    requires Valid(t) && ValidClock(c) && c.day != c.monthLength
    requires row in t.rows && IsFor(row, me, Today(c))
    ensures forall d, m | ClearDate(d, c) && m in RowsFor(UpdateWrites(t, me, c, row.slug, tomorrow, false, None).rows, me, d) ::
              IsPlaceholder(m)
  {
    var t1 := WriteTomorrow(t, me, c, tomorrow, false, None);
    var t2 := AdjustWindow(t1, me, c, false, None);
    var r := UpdateWrites(t, me, c, row.slug, tomorrow, false, None);
    LoadedRowSurvives(t, me, c, row, tomorrow, false, None);
    forall d, m | ClearDate(d, c) && m in RowsFor(r.rows, me, d) ensures IsPlaceholder(m) {
      ClearWindowRows(t1, me, c, d);
      SaveTodayFrame(t2, row, tomorrow, false, None, me, d);
    }
  }

  /** An update keeps one row per member and day. */
  lemma UpdateWritesOnePerDay(t: Table, me: MemberId, c: Clock, row: Meal, tomorrow: Amount, auto: bool, v: Option<Amount>)
    requires Valid(t) && ValidClock(c) && (auto ==> v.Some? && c.day < c.monthLength - 1)
    requires row in t.rows && IsFor(row, me, Today(c))
    requires OnePerDay(t.rows)
    ensures OnePerDay(UpdateWrites(t, me, c, row.slug, tomorrow, auto, v).rows)
  {
    var t1 := WriteTomorrow(t, me, c, tomorrow, auto, v);
    var t2 := AdjustWindow(t1, me, c, auto, v);
    var r := UpdateWrites(t, me, c, row.slug, tomorrow, auto, v);
    WriteTomorrowOnePerDay(t, me, c, tomorrow, auto, v);
    AdjustWindowOnePerDay(t1, me, c, auto, v);
    LoadedRowSurvives(t, me, c, row, tomorrow, auto, v);
    forall member, d ensures CountFor(r.rows, member, d) <= 1 {
      SaveTodayFrame(t2, row, tomorrow, auto, v, member, d);
      assert CountFor(t2.rows, member, d) <= 1;
    }
  }

  // ------------------------------------------------------- the update view

  /** The update writes nothing during maintenance or when `me` has no row
    * for today; it always keeps the slugs valid, every other member's rows
    * and one row per member and day. */
  lemma UpdateEntryKeeps(t: Table, me: MemberId, c: Clock, tomorrow: Amount, value: Option<Amount>)
    requires Valid(t) && ValidClock(c)
    ensures var r := UpdateEntry(t, me, c, tomorrow, value);
            Valid(r) && OthersRows(r.rows, me) == OthersRows(t.rows, me) &&
            (Maintenance(c) || !HasRow(t.rows, me, Today(c)) ==> r == t) &&
            (OnePerDay(t.rows) ==> OnePerDay(r.rows))
  {
    var i := LastIndex(t.rows, me, Today(c));
    if !Maintenance(c) && i >= 0 {
      var decision := AutoDecision(c, value);
      UpdateWritesToday(t, me, c, t.rows[i], tomorrow, decision.0, decision.1);
      if OnePerDay(t.rows) {
        UpdateWritesOnePerDay(t, me, c, t.rows[i], tomorrow, decision.0, decision.1);
      }
    }
  }

  /** An accepted update saves today's most recent row with the announced
    * next-day count and auto-entry setting, and leaves tomorrow's rows with
    * the announced count, the next-day count 0 and `me` as confirmer. */
  lemma UpdateEntryTodayTomorrow(t: Table, me: MemberId, c: Clock, tomorrow: Amount, value: Option<Amount>)
    requires Valid(t) && ValidClock(c) && !Maintenance(c) && HasRow(t.rows, me, Today(c))
    ensures var r := UpdateEntry(t, me, c, tomorrow, value);
            var decision := AutoDecision(c, value);
            var loaded := t.rows[LastIndex(t.rows, me, Today(c))];
            loaded.(mealNextDay := Some(tomorrow), autoEntry := decision.0, autoValue := decision.1)
              in RowsFor(r.rows, me, Today(c)) &&
            CountFor(r.rows, me, Today(c)) == CountFor(t.rows, me, Today(c)) &&
            HasRow(r.rows, me, Tomorrow(c)) &&
            forall m | m in RowsFor(r.rows, me, Tomorrow(c)) :: TomorrowValues(m, me, tomorrow, decision.0, decision.1)
  {
    var i := LastIndex(t.rows, me, Today(c));
    var decision := AutoDecision(c, value);
    UpdateWritesToday(t, me, c, t.rows[i], tomorrow, decision.0, decision.1);
    UpdateWritesTomorrow(t, me, c, t.rows[i], tomorrow, decision.0, decision.1);
  }

  /** An accepted update with auto entry leaves every day from the day after
    * tomorrow to month end with rows of `me` carrying the auto value; without
    * it (or when it is forced off), every row of `me` in the clearing window
    * ends empty, unless today is the month's last day. */
  lemma UpdateEntryWindow(t: Table, me: MemberId, c: Clock, tomorrow: Amount, value: Option<Amount>)
    requires Valid(t) && ValidClock(c) && !Maintenance(c) && HasRow(t.rows, me, Today(c))
    ensures var r := UpdateEntry(t, me, c, tomorrow, value);
            (value.Some? && c.day < c.monthLength - 1 ==>
               forall k | c.day + 2 <= k <= c.monthLength :: AutoDay(r.rows, me, c, k, value.value)) &&
            (!(value.Some? && c.day < c.monthLength - 1) && c.day != c.monthLength ==>
               forall d, m | ClearDate(d, c) && m in RowsFor(r.rows, me, d) :: IsPlaceholder(m))
  {
    var i := LastIndex(t.rows, me, Today(c));
    if value.Some? && c.day < c.monthLength - 1 {
      UpdateWritesFilled(t, me, c, t.rows[i], tomorrow, value.value);
    } else if c.day != c.monthLength {
      UpdateWritesCleared(t, me, c, t.rows[i], tomorrow);
    }
  }
}
