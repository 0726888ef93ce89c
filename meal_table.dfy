/** The `Meal` and `MealUpdateRequest` tables of tracker/models.py and the
  * queryset operations the meal views run on them: lookups by member and
  * date, `.last()`, `.first().delete()`, `.update()` and `create`. */
module MealTable {
  import opened Common
  import opened Memberships

  /** One meal row: the meal count of its day, the count announced for the
    * next day, the auto-entry flag and value, and who confirmed it. The
    * nullable decimal columns are options; the slug is the row's identity. */
  datatype Meal = Meal(slug: nat, member: MemberId, date: Date,
                       mealToday: Option<Amount>, mealNextDay: Option<Amount>,
                       autoEntry: bool, autoValue: Option<Amount>, confirmedBy: MemberId)

  /** A pending change request for the meal whose slug it carries. */
  datatype MealRequest = MealRequest(slug: nat, member: MemberId, shouldBe: Amount, requestTo: MemberId)

  /** The meal rows in insertion order, and the next unused slug. */
  datatype Table = Table(rows: seq<Meal>, next: nat)

  predicate SlugsUnique(rows: seq<Meal>)
  {
    forall i, j | 0 <= i < j < |rows| :: rows[i].slug != rows[j].slug
  }

  /** The slug column is unique and every slug in use is below `next`. */
  predicate Valid(t: Table)
  {
    SlugsUnique(t.rows) && forall i | 0 <= i < |t.rows| :: t.rows[i].slug < t.next
  }

  predicate IsFor(m: Meal, member: MemberId, d: Date)
  {
    m.member == member && m.date == d
  }

  /** `Meal.objects.filter(member=member, meal_date=d).exists()`. */
  predicate HasRow(rows: seq<Meal>, member: MemberId, d: Date)
  {
    exists i | 0 <= i < |rows| :: IsFor(rows[i], member, d)
  }

  /** The lookup `member=member, meal_date=d` as a row selector. */
  function ForKey(member: MemberId, d: Date): Meal -> bool
  {
    (m: Meal) => IsFor(m, member, d)
  }

  /** The lookup `slug=slug` as a row selector. */
  function WithSlug(slug: nat): Meal -> bool
  {
    (m: Meal) => m.slug == slug
  }

  /** `Meal.objects.filter(member=member, meal_date=d)`, in insertion order. */
  function RowsFor(rows: seq<Meal>, member: MemberId, d: Date): (r: seq<Meal>)
    ensures forall m :: m in r <==> m in rows && IsFor(m, member, d)
  {
    Filter(rows, ForKey(member, d))
  }

  /** `len(...)` of that queryset. */
  function CountFor(rows: seq<Meal>, member: MemberId, d: Date): (n: nat)
    ensures n <= |rows|
    ensures n == 0 <==> !HasRow(rows, member, d)
  {
    var r := RowsFor(rows, member, d);
    assert |r| > 0 ==> HasRow(rows, member, d) by {
      if |r| > 0 {
        assert r[0] in rows && IsFor(r[0], member, d);
      }
    }
    assert HasRow(rows, member, d) ==> |r| > 0 by {
      if HasRow(rows, member, d) {
        var i :| 0 <= i < |rows| && IsFor(rows[i], member, d);
        assert rows[i] in r;
      }
    }
    |r|
  }

  /** The index of `Meal.objects.filter(member=member, meal_date=d).last()`,
    * the most recently inserted match, or -1 when there is none. */
  function LastIndex(rows: seq<Meal>, member: MemberId, d: Date): (i: int)
    ensures -1 <= i < |rows|
    ensures i == -1 <==> !HasRow(rows, member, d)
    ensures i >= 0 ==> IsFor(rows[i], member, d) && forall j | i < j < |rows| :: !IsFor(rows[j], member, d)
  {
    if rows == [] then -1
    else if IsFor(rows[|rows| - 1], member, d) then |rows| - 1
    else
      var init := rows[..|rows| - 1];
      var i := LastIndex(init, member, d);
      assert HasRow(rows, member, d) ==> HasRow(init, member, d) by {
        if HasRow(rows, member, d) {
          var k :| 0 <= k < |rows| && IsFor(rows[k], member, d);
          assert init[k] == rows[k];
        }
      }
      i
  }

  /** `.last()` as a row. */
  function LastFor(rows: seq<Meal>, member: MemberId, d: Date): (r: Option<Meal>)
    ensures r.None? <==> !HasRow(rows, member, d)
    ensures r.Some? ==> r.value in rows && IsFor(r.value, member, d)
  {
    var i := LastIndex(rows, member, d);
    if i < 0 then None else Some(rows[i])
  }

  /** The index of `.first()`, the earliest inserted match. */
  function FirstIndex(rows: seq<Meal>, member: MemberId, d: Date): (i: nat)
    requires HasRow(rows, member, d)
    ensures i < |rows| && IsFor(rows[i], member, d)
    ensures forall j | 0 <= j < i :: !IsFor(rows[j], member, d)
  {
    if IsFor(rows[0], member, d) then 0
    else
      assert HasRow(rows[1..], member, d) by {
        var k :| 0 <= k < |rows| && IsFor(rows[k], member, d);
        assert rows[1..][k - 1] == rows[k];
      }
      1 + FirstIndex(rows[1..], member, d)
  }

  /** The index of the row with the given slug, or -1. */
  function IndexOfSlug(rows: seq<Meal>, slug: nat): (i: int)
    ensures -1 <= i < |rows|
    ensures i == -1 <==> forall j | 0 <= j < |rows| :: rows[j].slug != slug
    ensures i >= 0 ==> rows[i].slug == slug
  {
    if rows == [] then -1
    else if rows[|rows| - 1].slug == slug then |rows| - 1
    else IndexOfSlug(rows[..|rows| - 1], slug)
  }

  /** `Meal.objects.create(...)`: the row is added last with a fresh slug. */
  function Append(t: Table, m: Meal): Table
  {
    Table(t.rows + [m.(slug := t.next)], t.next + 1)
  }

  /** `instance.delete()` of the row at index `i`. */
  function RemoveAt(rows: seq<Meal>, i: nat): seq<Meal>
    requires i < |rows|
  {
    rows[..i] + rows[i + 1..]
  }

  /** The rows of every member other than `me`, in order. */
  function OthersRows(rows: seq<Meal>, me: MemberId): (r: seq<Meal>)
    ensures forall m :: m in r <==> m in rows && m.member != me
  {
    Filter(rows, NotOf(me))
  }

  function NotOf(me: MemberId): Meal -> bool
  {
    (m: Meal) => m.member != me
  }

  /** `rows` keeps `before` as its prefix: every earlier row is where it was. */
  predicate Extends(rows: seq<Meal>, before: seq<Meal>)
  {
    |before| <= |rows| && rows[..|before|] == before
  }

  /** Every row of (member, d) satisfies `p`. */
  predicate AllFor(rows: seq<Meal>, member: MemberId, d: Date, p: Meal -> bool)
  {
    forall i | 0 <= i < |rows| :: IsFor(rows[i], member, d) ==> p(rows[i])
  }

  /** At most one row per member and date: what the backfill's existence
    * check and the update's duplicate deletion aim at. */
  ghost predicate OnePerDay(rows: seq<Meal>)
  {
    forall member, d :: CountFor(rows, member, d) <= 1
  }

  // ----------------------------------------------------------------- lemmas

  lemma ExtendsHasRow(rows: seq<Meal>, before: seq<Meal>, member: MemberId, d: Date)
    requires Extends(rows, before) && HasRow(before, member, d)
    ensures HasRow(rows, member, d)
  {
    var i :| 0 <= i < |before| && IsFor(before[i], member, d);
    assert rows[i] == before[i];
  }

  lemma ExtendsTrans(a: seq<Meal>, b: seq<Meal>, c: seq<Meal>)
    requires Extends(a, b) && Extends(b, c)
    ensures Extends(a, c)
  {
    assert a[..|c|] == a[..|b|][..|c|];
  }

  /** Creating a row keeps the slugs unique and fresh, keeps every earlier
    * row in place, and makes the row's (member, date) present. */
  lemma AppendKeeps(t: Table, m: Meal)
    requires Valid(t)
    ensures Valid(Append(t, m))
    ensures Append(t, m).rows[..|t.rows|] == t.rows
    ensures HasRow(Append(t, m).rows, m.member, m.date)
    ensures forall member, d :: HasRow(t.rows, member, d) ==> HasRow(Append(t, m).rows, member, d)
  {
    var r := Append(t, m).rows;
    assert IsFor(r[|t.rows|], m.member, m.date);
    forall member, d | HasRow(t.rows, member, d) ensures HasRow(r, member, d) {
      var i :| 0 <= i < |t.rows| && IsFor(t.rows[i], member, d);
      assert r[i] == t.rows[i];
    }
  }

  /** Deleting a row removes it from the rows satisfying `p`, and only it. */
  lemma RemoveAtFrame(rows: seq<Meal>, i: nat, p: Meal -> bool)
    requires i < |rows|
    ensures !p(rows[i]) ==> Filter(RemoveAt(rows, i), p) == Filter(rows, p)
    ensures |Filter(rows, p)| == |Filter(RemoveAt(rows, i), p)| + (if p(rows[i]) then 1 else 0)
  {
    assert rows == rows[..i] + ([rows[i]] + rows[i + 1..]);
    FilterConcat(rows[..i], [rows[i]] + rows[i + 1..], p);
    FilterConcat([rows[i]], rows[i + 1..], p);
    FilterConcat(rows[..i], rows[i + 1..], p);
    assert [rows[i]][1..] == [];
  }

  /** Adding a row adds it to the rows satisfying `p` when it does. */
  lemma AppendFrame(rows: seq<Meal>, m: Meal, p: Meal -> bool)
    ensures Filter(rows + [m], p) == Filter(rows, p) + (if p(m) then [m] else [])
  {
    FilterConcat(rows, [m], p);
    assert [m][1..] == [];
  }

  /** An update that keeps each row's slug keeps the slugs valid. */
  lemma UpdateWhereValid(t: Table, sel: Meal -> bool, f: Meal -> Meal)
    requires Valid(t)
    requires forall m :: f(m).slug == m.slug
    ensures Valid(Table(UpdateWhere(t.rows, sel, f), t.next))
  {
    var u := UpdateWhere(t.rows, sel, f);
    assert forall i | 0 <= i < |u| :: u[i].slug == t.rows[i].slug;
  }

  /** Deleting a row keeps the slugs valid. */
  lemma RemoveAtValid(t: Table, i: nat)
    requires Valid(t) && i < |t.rows|
    ensures Valid(Table(RemoveAt(t.rows, i), t.next))
  {
    var r := RemoveAt(t.rows, i);
    forall a, b | 0 <= a < b < |r| ensures r[a].slug != r[b].slug {
      var a' := if a < i then a else a + 1;
      var b' := if b < i then b else b + 1;
      assert r[a] == t.rows[a'] && r[b] == t.rows[b'];
    }
    forall a | 0 <= a < |r| ensures r[a].slug < t.next {
      assert r[a] == t.rows[if a < i then a else a + 1];
    }
  }
}
