/** The meal-entry rules of `MealCreateView`, `MealUpdateView` and
  * `MealUpdateAdminView` (tracker/views.py) as functions from the meal table
  * before a request to the table after it, given the request's clock. The
  * imperative versions in meal_ledger.dfy are proved equal to these. */
module MealEntry {
  import opened Common
  import opened Roles
  import opened Memberships
  import opened MealTable

  // -------------------------------------------------------------- auto entry

  /** Auto entry is on when a value was given, and is forced off (its value
    * dropped) in the last two days of the month. */
  function AutoDecision(c: Clock, value: Option<Amount>): (r: (bool, Option<Amount>))
    ensures r.0 <==> value.Some? && c.day < c.monthLength - 1
    ensures r.1 == if r.0 then value else None
  {
    var auto := value.Some?;
    if c.day >= c.monthLength - 1 && auto then (false, None) else (auto, value)
  }

  /** A row carrying the auto-entry value `v`, confirmed by `me`. */
  predicate AutoValues(m: Meal, me: MemberId, v: Amount)
  {
    m.mealToday == Some(v) && m.mealNextDay == Some(v) && m.autoEntry &&
    m.autoValue == Some(v) && m.confirmedBy == me
  }

  function AutoRow(me: MemberId, d: Date, v: Amount): Meal
  {
    Meal(0, me, d, Some(v), Some(v), true, Some(v), me)
  }

  /** The rewrite the update view's window loop applies to an existing row. */
  function AutoSet(me: MemberId, v: Amount): Meal -> Meal
  {
    (m: Meal) => m.(mealToday := Some(v), mealNextDay := Some(v), autoEntry := true,
                    autoValue := Some(v), confirmedBy := me)
  }

  // ------------------------------------------------------------------ create

  /** The create view's window loop: one new row per day `d`..month end. */
  function FillWindowCreate(t: Table, me: MemberId, c: Clock, v: Amount, d: int): Table
    decreases c.monthLength + 1 - d
  {
    if d > c.monthLength then t
    else FillWindowCreate(Append(t, AutoRow(me, DayOfMonth(c, d), v)), me, c, v, d + 1)
  }

  /** `MealCreateView.form_valid`: refused during maintenance and when `me`
    * already has a row for today; otherwise the rows of `CreateWrites`. */
  function CreateEntry(t: Table, me: MemberId, c: Clock, today: Amount, tomorrow: Amount,
                       value: Option<Amount>): Table
  {
    if Maintenance(c) || HasRow(t.rows, me, Today(c)) then t
    else
      var decision := AutoDecision(c, value);
      CreateWrites(t, me, c, today, tomorrow, decision.0, decision.1)
  }

  /** Tomorrow's row, the auto-entry window and today's row are created, in
    * that order. */
  function CreateWrites(t: Table, me: MemberId, c: Clock, today: Amount, tomorrow: Amount,
                        auto: bool, v: Option<Amount>): Table
    requires auto ==> v.Some?
  {
    var t1 := Append(t, Meal(0, me, Tomorrow(c), Some(tomorrow), Some(0), auto, v, me));
    var t2 := if auto then FillWindowCreate(t1, me, c, v.value, c.day + 2) else t1;
    Append(t2, Meal(0, me, Today(c), Some(today), Some(tomorrow), auto, v, me))
  }

  // ---------------------------------------------------------------- backfill

  /** The empty row the backfill creates. The create and update views record
    * the member as its confirmer, the admin view the acting manager. */
  function Placeholder(member: MemberId, d: Date, confirmer: Option<MemberId>): Meal
  {
    Meal(0, member, d, None, None, false, None, if confirmer.Some? then confirmer.value else member)
  }

  predicate IsPlaceholder(m: Meal)
  {
    m.mealToday.None? && m.mealNextDay.None? && !m.autoEntry && m.autoValue.None?
  }

  /** The inner backfill loop: days `d`..`last` of (`year`, `month`). */
  function BackfillDays(t: Table, member: MemberId, confirmer: Option<MemberId>,
                        year: int, month: int, d: int, last: int): Table
    decreases last + 1 - d
  {
    if d > last then t
    else
      var day := Date(year, month, d);
      var t1 := if HasRow(t.rows, member, day) then t else Append(t, Placeholder(member, day, confirmer));
      BackfillDays(t1, member, confirmer, year, month, d + 1, last)
  }

  /** The `post` backfill: every listed member gets a row for each day
    * 1..`last` of (`year`, `month`) that had none. */
  function Backfill(t: Table, members: seq<MemberId>, confirmer: Option<MemberId>,
                    year: int, month: int, last: int): Table
    decreases |members|
  {
    if members == [] then t
    else Backfill(BackfillDays(t, members[0], confirmer, year, month, 1, last), members[1..],
                  confirmer, year, month, last)
  }

  ghost predicate Covered(rows: seq<Meal>, members: seq<MemberId>, year: int, month: int, last: int)
  {
    forall m, k | m in members && 1 <= k <= last :: HasRow(rows, m, Date(year, month, k))
  }

  // ------------------------------------------------------------------ update

  /** The new values of tomorrow's row. */
  function TomorrowSet(me: MemberId, tomorrow: Amount, auto: bool, v: Option<Amount>): Meal -> Meal
  {
    (m: Meal) => m.(mealToday := Some(tomorrow), mealNextDay := Some(0), autoEntry := auto,
                    autoValue := v, confirmedBy := me)
  }

  /** Tomorrow's rows are all updated, or one is created when there is
    * none; then the earliest is deleted when two or more remain. */
  function WriteTomorrow(t: Table, me: MemberId, c: Clock, tomorrow: Amount, auto: bool,
                         v: Option<Amount>): Table
  {
    DropEarliest(UpsertTomorrow(t, me, c, tomorrow, auto, v), me, Tomorrow(c))
  }

  function UpsertTomorrow(t: Table, me: MemberId, c: Clock, tomorrow: Amount, auto: bool,
                          v: Option<Amount>): Table
  {
    var d := Tomorrow(c);
    if HasRow(t.rows, me, d)
    then Table(UpdateWhere(t.rows, ForKey(me, d), TomorrowSet(me, tomorrow, auto, v)), t.next)
    else Append(t, Meal(0, me, d, Some(tomorrow), Some(0), auto, v, me))
  }

  /** `if len(qs) >= 2: qs.first().delete()` on the rows of (me, d). */
  function DropEarliest(t: Table, me: MemberId, d: Date): Table
  {
    if CountFor(t.rows, me, d) >= 2 then Table(RemoveAt(t.rows, FirstIndex(t.rows, me, d)), t.next)
    else t
  }

  function Cleared(): Meal -> Meal
  {
    (m: Meal) => m.(mealToday := None, mealNextDay := None, autoEntry := false, autoValue := None)
  }

  /** The rows the auto-off branch clears: `me`'s rows of this month from the
    * day after tomorrow on, leaving out the month's last day when today is
    * one of the last two days. */
  predicate InClearWindow(m: Meal, me: MemberId, c: Clock)
  {
    m.member == me && ClearDate(m.date, c)
  }

  predicate ClearDate(d: Date, c: Clock)
  {
    InMonthOf(d, c) && d.day >= Tomorrow(c).day + 1 && !(c.day >= c.monthLength - 1 && d.day == c.monthLength)
  }

  function ClearSel(me: MemberId, c: Clock): Meal -> bool
  {
    (m: Meal) => InClearWindow(m, me, c)
  }

  function ClearWindow(t: Table, me: MemberId, c: Clock): Table
  {
    if c.day == c.monthLength then t
    else Table(UpdateWhere(t.rows, ClearSel(me, c), Cleared()), t.next)
  }

  /** The update view's window loop: for each day `d`..month end, every
    * existing row is set to the auto value, or one is created. */
  function FillWindowUpdate(t: Table, me: MemberId, c: Clock, v: Amount, d: int): Table
    decreases c.monthLength + 1 - d
  {
    if d > c.monthLength then t
    else
      var day := DayOfMonth(c, d);
      var t1 := if HasRow(t.rows, me, day)
                then Table(UpdateWhere(t.rows, ForKey(me, day), AutoSet(me, v)), t.next)
                else Append(t, AutoRow(me, day, v));
      FillWindowUpdate(t1, me, c, v, d + 1)
  }

  /** After the window loop only the last day's duplicates are collapsed. */
  function CollapseMonthEnd(t: Table, me: MemberId, c: Clock): Table
  {
    DropEarliest(t, me, DayOfMonth(c, c.monthLength))
  }

  /** With auto entry the window is filled and the month's last day
    * collapsed; without it the window is cleared. */
  function AdjustWindow(t: Table, me: MemberId, c: Clock, auto: bool, v: Option<Amount>): Table
    requires auto ==> v.Some?
  {
    if auto then CollapseMonthEnd(FillWindowUpdate(t, me, c, v.value, c.day + 2), me, c)
    else ClearWindow(t, me, c)
  }

  /** The form's save of today's row. */
  function TodaySet(tomorrow: Amount, auto: bool, v: Option<Amount>): Meal -> Meal
  {
    (m: Meal) => m.(mealNextDay := Some(tomorrow), autoEntry := auto, autoValue := v)
  }

  /** `super().form_valid(form)`: the row loaded as today's (by slug) is
    * written back with the form's values. */
  function SaveToday(t: Table, slug: nat, tomorrow: Amount, auto: bool, v: Option<Amount>): Table
  {
    Table(UpdateWhere(t.rows, WithSlug(slug), TodaySet(tomorrow, auto, v)), t.next)
  }

  /** `MealUpdateView.form_valid`: refused during maintenance and when `me`
    * has no row for today; otherwise tomorrow's row is written, the window
    * is cleared or filled, and today's most recent row is saved. */
  function UpdateEntry(t: Table, me: MemberId, c: Clock, tomorrow: Amount, value: Option<Amount>): Table
  {
    var i := LastIndex(t.rows, me, Today(c));
    if Maintenance(c) || i < 0 then t
    else
      var decision := AutoDecision(c, value);
      UpdateWrites(t, me, c, t.rows[i].slug, tomorrow, decision.0, decision.1)
  }

  function UpdateWrites(t: Table, me: MemberId, c: Clock, slug: nat, tomorrow: Amount,
                        auto: bool, v: Option<Amount>): Table
    requires auto ==> v.Some?
  {
    var t1 := WriteTomorrow(t, me, c, tomorrow, auto, v);
    var t2 := AdjustWindow(t1, me, c, auto, v);
    SaveToday(t2, slug, tomorrow, auto, v)
  }

  // ------------------------------------------------------------------- admin

  /** `MealUpdateAdminView.user_passes_test`: a manager of the owner's room,
    * for a row dated today that is not the manager's own. */
  function AdminMayOverride(actor: Membership, owner: Membership, meal: Meal, c: Clock): (r: bool)
    ensures r ==> actor != owner
    ensures r <==> actor.role == Manager && owner.room == actor.room && meal.date == Today(c) && owner.id != actor.id
  {
    owner.room == actor.room && actor.role == Manager && meal.date == Today(c) && owner.id != actor.id
  }

  /** `MealUpdateAdminView.form_valid`: the row's meal count is replaced and
    * the manager becomes its confirmer; refused during maintenance. */
  function AdminOverride(t: Table, actor: MemberId, slug: nat, c: Clock, value: Amount): Table
  {
    if Maintenance(c) then t
    else Table(UpdateWhere(t.rows, WithSlug(slug), AdminSet(actor, value)), t.next)
  }

  function AdminSet(actor: MemberId, value: Amount): Meal -> Meal
  {
    (m: Meal) => m.(mealToday := Some(value), confirmedBy := actor)
  }

  // ------------------------------------------------------------ whole views

  /** The month the `post` backfill of a view covers after the form. */
  function NextMonthYear(c: Clock): int { Tomorrow(c).year }
  function NextMonth(c: Clock): int { Tomorrow(c).month }

  /** `MealCreateView.post`: the form, then the current month's backfill for
    * every room member, whether or not the form was accepted. */
  function CreatePost(t: Table, me: MemberId, room: seq<MemberId>, c: Clock, today: Amount,
                      tomorrow: Amount, value: Option<Amount>): Table
  {
    Backfill(CreateEntry(t, me, c, today, tomorrow, value), room, None, c.year, c.month, c.monthLength)
  }

  /** `MealUpdateView.post`: the form, then on the month's last day the next
    * month's backfill. */
  function UpdatePost(t: Table, me: MemberId, room: seq<MemberId>, c: Clock, tomorrow: Amount,
                      value: Option<Amount>): Table
  {
    var t1 := UpdateEntry(t, me, c, tomorrow, value);
    if c.day == c.monthLength then Backfill(t1, room, None, NextMonthYear(c), NextMonth(c), c.nextMonthLength)
    else t1
  }

  /** `MealUpdateAdminView.post`: the form, then the next month's backfill
    * on the last day and the current month's otherwise, confirmed by the
    * manager. */
  function AdminPost(t: Table, actor: MemberId, room: seq<MemberId>, slug: nat, c: Clock, value: Amount): Table
  {
    var t1 := AdminOverride(t, actor, slug, c, value);
    if c.day == c.monthLength then Backfill(t1, room, Some(actor), NextMonthYear(c), NextMonth(c), c.nextMonthLength)
    else if c.day < c.monthLength then Backfill(t1, room, Some(actor), c.year, c.month, c.monthLength)
    else t1
  }
}
