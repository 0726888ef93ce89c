/** Values shared by every part of the household ledger: optional column
  * values, calendar dates and the request clock, the ASCII string helpers
  * behind the regular-expression validators, and sums over columns. */
module Common {

  datatype Option<T> = None | Some(value: T)

  /** Why a form field or a view refused its input. */
  datatype FormError =
    | Required | Duplicate | BadCharacters | TooLong | TooShort | InvalidContact
    | UnitWithoutQuantity | OutsideCurrentMonth

  /** The outcome of a form field's validation. */
  datatype Check = Pass | Fail(error: FormError)

  /** Money and meal counts in hundredths. The source columns are
    * DecimalField(decimal_places=2) with a minimum of 0. */
  type Amount = nat

  datatype Date = Date(year: int, month: int, day: int)

  /** The moment a request is handled, with the two calendar facts the views
    * derive from it through `calendar.monthrange`: the length of the current
    * month and the length of the next one. */
  datatype Clock = Clock(year: int, month: int, day: int, hour: int, minute: int,
                         monthLength: int, nextMonthLength: int)

  predicate ValidClock(c: Clock)
  {
    1 <= c.month <= 12 && 28 <= c.monthLength <= 31 && 1 <= c.day <= c.monthLength &&
    28 <= c.nextMonthLength <= 31 && 0 <= c.hour < 24 && 0 <= c.minute < 60
  }

  /** `time.strftime("%H-%M") == "00-00"`: the nightly maintenance minute. */
  predicate Maintenance(c: Clock)
  {
    c.hour == 0 && c.minute == 0
  }

  function Today(c: Clock): Date
  {
    Date(c.year, c.month, c.day)
  }

  function DayOfMonth(c: Clock, d: int): Date
  {
    Date(c.year, c.month, d)
  }

  function DayOfNextMonth(c: Clock, d: int): Date
  {
    if c.month == 12 then Date(c.year + 1, 1, d) else Date(c.year, c.month + 1, d)
  }

  /** `now + timedelta(days=1)`. */
  function Tomorrow(c: Clock): (r: Date)
    ensures r != Today(c)
    ensures (r.year == c.year && r.month == c.month) <==> c.day < c.monthLength
    ensures r.day == if c.day < c.monthLength then c.day + 1 else 1
  {
    if c.day < c.monthLength then DayOfMonth(c, c.day + 1) else DayOfNextMonth(c, 1)
  }

  /** True when the date lies in the clock's month. */
  predicate InMonthOf(d: Date, c: Clock)
  {
    d.year == c.year && d.month == c.month
  }

  /** Keeps the elements satisfying `p`, in order. */
  function Filter<T(!new)>(xs: seq<T>, p: T -> bool): (r: seq<T>)
    ensures |r| <= |xs|
    ensures forall x :: x in r <==> x in xs && p(x)
  {
    if xs == [] then []
    else if p(xs[0]) then [xs[0]] + Filter(xs[1..], p)
    else Filter(xs[1..], p)
  }

  lemma {:induction false} FilterStronger<T(!new)>(xs: seq<T>, p: T -> bool, q: T -> bool)
    requires forall x :: x in xs && p(x) ==> q(x)
    ensures |Filter(xs, p)| <= |Filter(xs, q)|
  {
    if xs != [] { FilterStronger(xs[1..], p, q); }
  }

  lemma {:induction false} FilterConcat<T(!new)>(xs: seq<T>, ys: seq<T>, p: T -> bool)
    ensures Filter(xs + ys, p) == Filter(xs, p) + Filter(ys, p)
  {
    if xs == [] {
      assert xs + ys == ys;
    } else {
      var zs := xs + ys;
      assert zs[0] == xs[0] && zs[1..] == xs[1..] + ys;
      FilterConcat(xs[1..], ys, p);
      if p(xs[0]) {
        assert Filter(zs, p) == [xs[0]] + (Filter(xs[1..], p) + Filter(ys, p));
        assert Filter(xs, p) == [xs[0]] + Filter(xs[1..], p);
      }
    }
  }

  /** A filter that selects nothing yields nothing. */
  lemma {:induction false} FilterNone<T(!new)>(xs: seq<T>, p: T -> bool)
    requires forall i | 0 <= i < |xs| :: !p(xs[i])
    ensures Filter(xs, p) == []
  {
    if xs != [] {
      FilterNone(xs[1..], p);
    }
  }

  /** `queryset.update(...)`: every selected row is rewritten by `f`. */
  function UpdateWhere<T>(rows: seq<T>, sel: T -> bool, f: T -> T): seq<T>
  {
    seq(|rows|, i requires 0 <= i < |rows| => if sel(rows[i]) then f(rows[i]) else rows[i])
  }

  /** An update that leaves `p` false on every row it selects leaves the
    * rows satisfying `p` exactly as they were. */
  lemma {:induction false} UpdateWhereFrame<T(!new)>(rows: seq<T>, sel: T -> bool, f: T -> T, p: T -> bool)
    requires forall i | 0 <= i < |rows| :: sel(rows[i]) ==> !p(rows[i]) && !p(f(rows[i]))
    ensures Filter(UpdateWhere(rows, sel, f), p) == Filter(rows, p)
  {
    if rows != [] {
      assert forall i | 0 <= i < |rows| - 1 :: rows[1..][i] == rows[i + 1];
      UpdateWhereFrame(rows[1..], sel, f, p);
      assert UpdateWhere(rows, sel, f)[1..] == UpdateWhere(rows[1..], sel, f);
    }
  }

  /** An update that does not change whether a row satisfies `p` keeps the
    * number of rows satisfying `p`. */
  lemma {:induction false} UpdateWhereCount<T(!new)>(rows: seq<T>, sel: T -> bool, f: T -> T, p: T -> bool)
    requires forall m :: sel(m) ==> (p(f(m)) <==> p(m))
    ensures |Filter(UpdateWhere(rows, sel, f), p)| == |Filter(rows, p)|
  {
    if rows != [] {
      UpdateWhereCount(rows[1..], sel, f, p);
      assert UpdateWhere(rows, sel, f)[1..] == UpdateWhere(rows[1..], sel, f);
    }
  }

  // ---------------------------------------------------------------- strings

  predicate IsDigit(ch: char) { '0' <= ch <= '9' }

  predicate IsLetter(ch: char) { 'a' <= ch <= 'z' || 'A' <= ch <= 'Z' }

  /** Every character of `s` satisfies `p`. */
  predicate All(s: string, p: char -> bool)
  {
    forall i | 0 <= i < |s| :: p(s[i])
  }

  /** `re.match("^[...]+$", s)` for a character class `p`: non-empty and
    * made of class members only. */
  predicate MatchesPlus(s: string, p: char -> bool)
  {
    |s| > 0 && All(s, p)
  }

  function LowerChar(ch: char): char
  {
    if 'A' <= ch <= 'Z' then (ch as int - 'A' as int + 'a' as int) as char else ch
  }

  function Lower(s: string): (r: string)
    ensures |r| == |s|
  {
    seq(|s|, i requires 0 <= i < |s| => LowerChar(s[i]))
  }

  /** The `__iexact` lookup, with ASCII case folding. */
  predicate EqualsIgnoreCase(a: string, b: string)
  {
    Lower(a) == Lower(b)
  }

  predicate IsPrefix(p: string, s: string)
  {
    |p| <= |s| && s[..|p|] == p
  }

  predicate OccursAt(n: string, h: string, i: nat)
  {
    i + |n| <= |h| && h[i..i + |n|] == n
  }

  predicate IsSubstring(n: string, h: string)
  {
    exists i: nat | i <= |h| :: OccursAt(n, h, i)
  }

  /** The `__icontains` lookup, with ASCII case folding. */
  predicate ContainsIgnoreCase(h: string, n: string)
  {
    IsSubstring(Lower(n), Lower(h))
  }

  /** `s.count(ch)`. */
  function CountChar(s: string, ch: char): (r: nat)
    ensures r <= |s|
    ensures r == 0 <==> forall i | 0 <= i < |s| :: s[i] != ch
  {
    if s == [] then 0 else (if s[0] == ch then 1 else 0) + CountChar(s[1..], ch)
  }

  lemma {:induction false} CountCharSplit(s: string, k: nat, ch: char)
    requires k <= |s|
    ensures CountChar(s, ch) == CountChar(s[..k], ch) + CountChar(s[k..], ch)
  {
    if k > 0 {
      CountCharSplit(s[1..], k - 1, ch);
      assert s[1..][..k - 1] == s[..k][1..];
      assert s[1..][k - 1..] == s[k..];
    } else {
      assert s[..k] == [];
      assert s[k..] == s;
    }
  }

  // ------------------------------------------------------------------- sums

  /** SQL `SUM` over a nullable column: NULLs are skipped and the sum of no
    * non-NULL value is NULL. */
  function SqlSum(xs: seq<Option<Amount>>): (r: Option<Amount>)
    ensures r.None? <==> forall i | 0 <= i < |xs| :: xs[i].None?
  {
    if xs == [] then None
    else
      var rest := SqlSum(xs[..|xs| - 1]);
      match xs[|xs| - 1]
      case None => rest
      case Some(v) => Some(v + (if rest.Some? then rest.value else 0))
  }

  /** The same column summed with NULL read as zero. */
  function SumOrZero(xs: seq<Option<Amount>>): nat
  {
    if xs == [] then 0
    else SumOrZero(xs[..|xs| - 1]) + (if xs[|xs| - 1].Some? then xs[|xs| - 1].value else 0)
  }

  function Total(xs: seq<Amount>): nat
  {
    if xs == [] then 0 else Total(xs[..|xs| - 1]) + xs[|xs| - 1]
  }

  lemma {:induction false} SqlSumAgrees(xs: seq<Option<Amount>>)
    ensures SqlSum(xs).Some? ==> SqlSum(xs).value == SumOrZero(xs)
    ensures SqlSum(xs).None? ==> SumOrZero(xs) == 0
  {
    if xs != [] { SqlSumAgrees(xs[..|xs| - 1]); }
  }

  lemma {:induction false} SumOrZeroAppend(xs: seq<Option<Amount>>, ys: seq<Option<Amount>>)
    ensures SumOrZero(xs + ys) == SumOrZero(xs) + SumOrZero(ys)
  {
    if ys != [] {
      SumOrZeroAppend(xs, ys[..|ys| - 1]);
      assert (xs + ys)[..|xs + ys| - 1] == xs + ys[..|ys| - 1];
    } else {
      assert xs + ys == xs;
    }
  }

  lemma {:induction false} TotalAppend(xs: seq<Amount>, ys: seq<Amount>)
    ensures Total(xs + ys) == Total(xs) + Total(ys)
  {
    if ys != [] {
      TotalAppend(xs, ys[..|ys| - 1]);
      assert (xs + ys)[..|xs + ys| - 1] == xs + ys[..|ys| - 1];
    } else {
      assert xs + ys == xs;
    }
  }
}
