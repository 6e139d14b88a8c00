/** The business-day window: `get_last_weekdays` walks backward from the day
    before "today" and collects Monday-to-Friday dates until it has `n`. */
module DateWindow {
  import opened Wrappers
  import opened Calendar

  /** The number of days the pipeline downloads (`num_days=5`). */
  const DefaultWindow := 5

  function Prepend(prefix: seq<Date>, rest: Option<seq<Date>>): Option<seq<Date>>
  {
    match rest
    case None => None
    case Some(s) => Some(prefix + s)
  }

  /** The loop of `get_last_weekdays` entered with `today == cur` and `n` dates
      still wanted. Every pass takes `cur` if it is a business day and then
      steps back one day, so the step after the last date taken can still overflow. */
  function WalkBack(cur: Date, n: int): (r: Option<seq<Date>>)
    requires Valid(cur)
    ensures r.Some? ==> |r.value| == (if n <= 0 then 0 else n)
    decreases ToOrdinal(cur)
  {
    if n <= 0 then Some([])
    else
      var taken := if IsBusinessDay(cur) then [cur] else [];
      match PrevDay(cur)
      case None => None
      case Some(p) => Prepend(taken, WalkBack(p, n - |taken|))
  }

  /** `get_last_weekdays(n)` called on `today`: None is the OverflowError of
      stepping below 0001-01-01. */
  function LastWeekdays(today: Date, n: int): (r: Option<seq<Date>>)
    requires Valid(today)
    ensures r.Some? ==> |r.value| == (if n <= 0 then 0 else n)
  {
    match PrevDay(today)
    case None => None
    case Some(yesterday) => WalkBack(yesterday, n)
  }

  lemma PrependTwice(a: seq<Date>, b: seq<Date>, rest: Option<seq<Date>>)
    ensures Prepend(a, Prepend(b, rest)) == Prepend(a + b, rest)
  {
    if rest.Some? {
      assert a + (b + rest.value) == (a + b) + rest.value;
    }
  }

  /** One pass of the loop, for a day that has a predecessor. */
  lemma WalkBackUnfold(cur: Date, k: int, taken: seq<Date>, prev: Date, m: int)
    requires Valid(cur) && k > 0 && PrevDay(cur) == Some(prev)
    requires taken == if IsBusinessDay(cur) then [cur] else []
    requires m == k - |taken|
    ensures WalkBack(cur, k) == Prepend(taken, WalkBack(prev, m))
  {
    match PrevDay(cur)
    case Some(p) =>
      assert p == prev;
  }

  /** The walk overflows when the day it stands on is 0001-01-01. */
  lemma WalkBackStuck(cur: Date, k: int)
    requires Valid(cur) && k > 0 && PrevDay(cur).None?
    ensures WalkBack(cur, k) == None
  {
  }

  /** Moving the dates of one pass from the pending walk to the collected list. */
  lemma PrependShift(weekdays: seq<Date>, taken: seq<Date>, walk: Option<seq<Date>>, rest: Option<seq<Date>>)
    requires walk == Prepend(taken, rest)
    ensures Prepend(weekdays + taken, rest) == Prepend(weekdays, walk)
  {
    PrependTwice(weekdays, taken, rest);
  }

  /** The loop invariant of `GetLastWeekdays`: the dates collected so far,
      followed by what the rest of the walk from `cur` yields, are `goal`. */
  ghost predicate Pending(weekdays: seq<Date>, cur: Date, n: int, goal: Option<seq<Date>>)
    requires Valid(cur)
  {
    Prepend(weekdays, WalkBack(cur, n - |weekdays|)) == goal
  }

  /** One pass of the loop, stated on the invariant. */
  lemma PendingStep(weekdays: seq<Date>, cur: Date, n: int, goal: Option<seq<Date>>, taken: seq<Date>, prev: Date)
    requires Valid(cur) && |weekdays| < n && PrevDay(cur) == Some(prev)
    requires taken == if IsBusinessDay(cur) then [cur] else []
    requires Pending(weekdays, cur, n, goal)
    ensures Pending(weekdays + taken, prev, n, goal)
  {
    var k := n - |weekdays|;
    var m := n - |weekdays + taken|;
    WalkBackUnfold(cur, k, taken, prev, m);
    PrependShift(weekdays, taken, WalkBack(cur, k), WalkBack(prev, m));
  }

  /** One pass of the loop of `get_last_weekdays`: take `cur` if it is a
      business day, then step back one day; `stuck` is the OverflowError. */
  method Step(weekdays: seq<Date>, cur: Date, n: int, ghost goal: Option<seq<Date>>)
    returns (stuck: bool, weekdays': seq<Date>, cur': Date)
    requires Valid(cur) && |weekdays| < n
    requires Pending(weekdays, cur, n, goal)
    ensures stuck ==> goal == None
    ensures !stuck ==> Valid(cur') && ToOrdinal(cur') < ToOrdinal(cur)
    ensures !stuck ==> Pending(weekdays', cur', n, goal)
  {
    var taken := if IsBusinessDay(cur) then [cur] else [];
    var prev := PrevDay(cur);
    if prev.None? {
      WalkBackStuck(cur, n - |weekdays|);
      return true, weekdays, cur;
    }
    PendingStep(weekdays, cur, n, goal, taken, prev.value);
    return false, weekdays + taken, prev.value;
  }

  /** The loop of `GetLastWeekdays` starts with nothing collected and the
      whole walk pending. */
  lemma LoopEntry(today: Date, n: int, cur: Date)
    requires Valid(today) && PrevDay(today) == Some(cur)
    ensures Pending([], cur, n, LastWeekdays(today, n))
  {
    if WalkBack(cur, n).Some? {
      assert [] + WalkBack(cur, n).value == WalkBack(cur, n).value;
    }
  }

  /** The loop of `GetLastWeekdays` ends with nothing pending. */
  lemma LoopExit(cur: Date, n: int, weekdays: seq<Date>, goal: Option<seq<Date>>)
    requires Valid(cur) && |weekdays| >= n
    requires Pending(weekdays, cur, n, goal)
    ensures goal == Some(weekdays)
  {
    assert weekdays + [] == weekdays;
  }

  method GetLastWeekdays(today: Date, n: int) returns (r: Option<seq<Date>>)
    requires Valid(today)
    ensures r == LastWeekdays(today, n)
  {
    var start := PrevDay(today);
    if start.None? {
      return None;
    }
    var cur := start.value;
    var weekdays: seq<Date> := [];
    ghost var goal := LastWeekdays(today, n);
    LoopEntry(today, n, cur);
    while |weekdays| < n
      invariant Valid(cur)
      invariant Pending(weekdays, cur, n, goal)
      decreases ToOrdinal(cur)
    {
      var stuck;
      stuck, weekdays, cur := Step(weekdays, cur, n, goal);
      if stuck {
        return None;
      }
    }
    LoopExit(cur, n, weekdays, goal);
    return Some(weekdays);
  }

  /** Every ordinal strictly between `lo` and `hi` is a Saturday or a Sunday. */
  ghost predicate OnlyWeekendsBetween(lo: int, hi: int)
  {
    forall o :: lo < o < hi ==> !IsBusinessOrdinal(o)
  }

  /** What a successful walk from `cur` returns: `n` business days, newest
      first, none after `cur`, and no business day skipped on the way. */
  ghost predicate IsWindowFrom(r: seq<Date>, cur: int, n: int)
  {
    && |r| == (if n <= 0 then 0 else n)
    && (forall i :: 0 <= i < |r| ==> Valid(r[i]) && IsBusinessDay(r[i]))
    && (forall i, j :: 0 <= i < j < |r| ==> ToOrdinal(r[j]) < ToOrdinal(r[i]))
    && (|r| > 0 ==> ToOrdinal(r[0]) <= cur && OnlyWeekendsBetween(ToOrdinal(r[0]), cur + 1))
    && (forall i :: 0 <= i < |r| - 1 ==> OnlyWeekendsBetween(ToOrdinal(r[i + 1]), ToOrdinal(r[i])))
  }

  /** Taking a weekend day adds nothing to the window. */
  lemma WindowSkipsWeekend(r: seq<Date>, cur: int, n: int)
    requires IsWindowFrom(r, cur - 1, n)
    requires !IsBusinessOrdinal(cur)
    ensures IsWindowFrom(r, cur, n)
  {
  }

  /** Taking a business day puts it in front of the window. */
  lemma WindowTakesBusinessDay(d: Date, r: seq<Date>, n: int)
    requires Valid(d) && IsBusinessDay(d) && n >= 1
    requires IsWindowFrom(r, ToOrdinal(d) - 1, n - 1)
    ensures IsWindowFrom([d] + r, ToOrdinal(d), n)
  {
    var s := [d] + r;
    assert s[1..] == r;
    forall i, j | 0 <= i < j < |s| ensures ToOrdinal(s[j]) < ToOrdinal(s[i]) {
      assert s[j] == r[j - 1];
      if i > 0 {
        assert s[i] == r[i - 1];
      }
    }
    forall i | 0 <= i < |s| - 1 ensures OnlyWeekendsBetween(ToOrdinal(s[i + 1]), ToOrdinal(s[i])) {
      assert s[i + 1] == r[i];
      if i > 0 {
        assert s[i] == r[i - 1];
      }
    }
  }

  /** One pass of the loop, unfolded. */
  lemma WalkBackStep(cur: Date, n: int)
    requires Valid(cur) && n > 0
    requires WalkBack(cur, n).Some?
    ensures PrevDay(cur).Some?
    ensures var k := if IsBusinessDay(cur) then n - 1 else n;
      && WalkBack(PrevDay(cur).value, k).Some?
      && WalkBack(cur, n).value == (if IsBusinessDay(cur) then [cur] else []) + WalkBack(PrevDay(cur).value, k).value
  {
  }

  lemma {:induction false} WalkBackIsWindow(cur: Date, n: int)
    requires Valid(cur)
    requires WalkBack(cur, n).Some?
    ensures IsWindowFrom(WalkBack(cur, n).value, ToOrdinal(cur), n)
    decreases ToOrdinal(cur)
  {
    if n > 0 {
      var p := PrevDay(cur).value;
      var k := if IsBusinessDay(cur) then n - 1 else n;
      WalkBackStep(cur, n);
      WalkBackIsWindow(p, k);
      if IsBusinessDay(cur) {
        WindowTakesBusinessDay(cur, WalkBack(p, k).value, n);
      } else {
        WindowSkipsWeekend(WalkBack(p, k).value, ToOrdinal(cur), n);
      }
    }
  }

  /** The window property of `get_last_weekdays`: exactly `n` Monday-to-Friday
      dates, all before `today`, strictly decreasing, with no business day
      between yesterday and the oldest one left out. */
  lemma LastWeekdaysIsWindow(today: Date, n: int)
    requires Valid(today)
    requires LastWeekdays(today, n).Some?
    ensures IsWindowFrom(LastWeekdays(today, n).value, ToOrdinal(today) - 1, n)
  {
    WalkBackIsWindow(PrevDay(today).value, n);
  }

  /** Days from a weekday back to the nearest Friday at or before a weekend day:
      2 from a Sunday, 1 from a Saturday, 0 from a business day. */
  function WeekendSlack(weekday: int): nat
  {
    if weekday == 6 then 2 else if weekday == 5 then 1 else 0
  }

  /** The bound of `WalkBackSucceeds` survives one step back. */
  lemma SlackStep(cur: Date, p: Date, n: int)
    requires Valid(cur) && Valid(p) && ToOrdinal(p) == ToOrdinal(cur) - 1
    requires n > 0 && ToOrdinal(cur) >= 3 * n + 1 + WeekendSlack(Weekday(cur))
    ensures ToOrdinal(p) >= 3 * (n - (if IsBusinessDay(cur) then 1 else 0)) + 1 + WeekendSlack(Weekday(p))
  {
    WeekdayStep(ToOrdinal(cur));
  }

  /** The walk cannot overflow when it starts far enough above 0001-01-01:
      at most two weekend days separate consecutive business days. */
  lemma {:induction false} WalkBackSucceeds(cur: Date, n: int)
    requires Valid(cur)
    requires ToOrdinal(cur) >= 3 * n + 1 + WeekendSlack(Weekday(cur))
    ensures WalkBack(cur, n).Some?
    decreases ToOrdinal(cur)
  {
    if n > 0 {
      FirstDay(cur);
      var p := PrevDay(cur).value;
      SlackStep(cur, p, n);
      WalkBackSucceeds(p, n - (if IsBusinessDay(cur) then 1 else 0));
    }
  }

  /** `get_last_weekdays` cannot overflow once "today" is more than `3 * n + 3`
      days after 0001-01-01; for the default window, from 0001-01-19 on. */
  lemma LastWeekdaysSucceeds(today: Date, n: int)
    requires Valid(today) && n >= 0
    requires ToOrdinal(today) >= 3 * n + 4
    ensures LastWeekdays(today, n).Some?
  {
    WalkBackSucceeds(PrevDay(today).value, n);
  }

  /** The latest business day before ordinal `t` with only weekend days in between. */
  lemma PrecedingBusinessOrdinal(o: int, t: int)
    requires o < t && IsBusinessOrdinal(o) && OnlyWeekendsBetween(o, t)
    ensures WeekdayOf(t) == 0 ==> o == t - 3 && WeekdayOf(o) == 4
    ensures WeekdayOf(t) == 6 ==> o == t - 2 && WeekdayOf(o) == 4
    ensures WeekdayOf(t) == 5 ==> o == t - 1 && WeekdayOf(o) == 4
    ensures 1 <= WeekdayOf(t) <= 4 ==> o == t - 1
  {
    WeekdayStep(t);
    WeekdayStep(t - 1);
    WeekdayStep(t - 2);
    assert o < t - 1 ==> !IsBusinessOrdinal(t - 1);
    assert o < t - 2 ==> !IsBusinessOrdinal(t - 2);
    assert o < t - 3 ==> !IsBusinessOrdinal(t - 3);
  }

  /** Run on a Monday, a Saturday or a Sunday, the newest date is the preceding
      Friday; run on Tuesday to Friday, it is yesterday. */
  lemma NewestIsPrecedingBusinessDay(today: Date, n: int)
    requires Valid(today) && n >= 1
    requires LastWeekdays(today, n).Some?
    ensures var newest := LastWeekdays(today, n).value[0];
      && Valid(newest)
      && (Weekday(today) == 0 ==> Weekday(newest) == 4 && ToOrdinal(newest) == ToOrdinal(today) - 3)
      && (Weekday(today) == 6 ==> Weekday(newest) == 4 && ToOrdinal(newest) == ToOrdinal(today) - 2)
      && (Weekday(today) == 5 ==> Weekday(newest) == 4 && ToOrdinal(newest) == ToOrdinal(today) - 1)
      && (1 <= Weekday(today) <= 4 ==> ToOrdinal(newest) == ToOrdinal(today) - 1)
  {
    LastWeekdaysIsWindow(today, n);
    var newest := LastWeekdays(today, n).value[0];
    PrecedingBusinessOrdinal(ToOrdinal(newest), ToOrdinal(today));
  }
}
