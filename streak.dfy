/**
 The daily streak record `{count, date}`. Days are UTC day numbers (the
 source compares `toISOString().slice(0, 10)` strings, which are UTC dates),
 so "yesterday" is exactly `today - 1`. A missing date, `null`, or a stored
 value that is not a date string all behave as `None`: they never equal
 today or yesterday.
 */
module Streak {
  import opened Wrappers

  datatype Streak = Streak(count: int, date: Option<int>)

  /** The record used when nothing is stored: `{"count":0,"date":null}`. */
  const Initial: Streak := Streak(0, None)

  /** The effect of `updateStreak(completedToday)` on the record, on day `today`. */
  function Next(s: Streak, completedToday: bool, today: int): (r: Streak)
    ensures !completedToday ==> r == s
    ensures s.date == Some(today) ==> r == s
    ensures completedToday ==> r.date == Some(today)
    ensures completedToday && s.date == Some(today - 1) ==> r.count == s.count + 1
    ensures completedToday && s.date != Some(today) && s.date != Some(today - 1) ==> r.count == 1
  {
    if !completedToday || s.date == Some(today) then s
    else if s.date == Some(today - 1) then Streak(s.count + 1, Some(today))
    else Streak(1, Some(today))
  }

  /** The record after a completion on each of `days`, in order, from the initial record. */
  function History(days: seq<int>): Streak
  {
    if days == [] then Initial else Next(History(days[..|days| - 1]), true, days[|days| - 1])
  }

  /** Day `days[i + 1]` follows day `days[i]` without a gap. */
  predicate NoGapAt(days: seq<int>, i: int)
    requires 0 <= i < |days| - 1
  {
    days[i + 1] == days[i] || days[i + 1] == days[i] + 1
  }

  /** After any completion the record is dated on the last completion day. */
  lemma {:induction false} HistoryDate(days: seq<int>)
    requires days != []
    ensures History(days).date == Some(days[|days| - 1])
  {
  }

  /** The streak count is the number of calendar days spanned by the last
      unbroken run of completion days: if the run starts at index `lo`
      (each later completion is on the same day or the next one, and the
      completion before `lo`, if any, is neither), the count is
      `last - days[lo] + 1`. */
  lemma {:induction false} HistoryIsRunSpan(days: seq<int>, lo: int)
    requires 0 <= lo < |days|
    requires forall i :: lo <= i < |days| - 1 ==> NoGapAt(days, i)
    requires lo > 0 ==> !NoGapAt(days, lo - 1)
    ensures History(days) == Streak(days[|days| - 1] - days[lo] + 1, Some(days[|days| - 1]))
    decreases |days|
  {
    var n := |days|;
    var prefix := days[..n - 1];
    if lo == n - 1 {
      if lo > 0 {
        HistoryDate(prefix);
      }
    } else {
      assert forall i :: lo <= i < |prefix| - 1 ==> NoGapAt(prefix, i) by {
        forall i | lo <= i < |prefix| - 1 ensures NoGapAt(prefix, i) {
          assert NoGapAt(days, i);
        }
      }
      assert lo > 0 ==> !NoGapAt(prefix, lo - 1) by {
        if lo > 0 { assert !NoGapAt(days, lo - 1); }
      }
      HistoryIsRunSpan(prefix, lo);
      assert NoGapAt(days, n - 2);
    }
  }

  /** Any completion leaves a streak of at least one day. */
  lemma HistoryPositive(days: seq<int>)
    requires days != []
    ensures History(days).count >= 1
  {
    var lo := RunStart(days, |days| - 1);
    HistoryIsRunSpan(days, lo);
  }

  /** The first index of the unbroken run that ends at index `hi`. */
  function RunStart(days: seq<int>, hi: int): (lo: int)
    requires 0 <= hi < |days|
    ensures 0 <= lo <= hi
    ensures forall i :: lo <= i < hi ==> NoGapAt(days, i)
    ensures lo > 0 ==> !NoGapAt(days, lo - 1)
    ensures days[lo] <= days[hi]
    decreases hi
  {
    if hi == 0 || !NoGapAt(days, hi - 1) then hi else RunStart(days, hi - 1)
  }
}
