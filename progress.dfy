/**
 The completion arithmetic of `updateProgress`: how many catalog items a
 progress map marks done, each kind's fraction done, and the overall value.
 A map entry counts as done only when present and `true`; absence means
 "not done".
 */
module Progress {

  type ProgressMap = map<string, bool>

  predicate IsDone(m: ProgressMap, id: string)
  {
    id in m && m[id]
  }

  /** `items.filter((item) => m[item.id]).length`, over the items' ids. */
  function DoneCount(ids: seq<string>, m: ProgressMap): (n: nat)
    ensures n <= |ids|
    ensures n == 0 <==> forall i :: 0 <= i < |ids| ==> !IsDone(m, ids[i])
    ensures n == |ids| <==> forall i :: 0 <= i < |ids| ==> IsDone(m, ids[i])
    decreases |ids|
  {
    if ids == [] then 0
    else
      var rest := DoneCount(ids[1..], m);
      assert forall i :: 1 <= i < |ids| ==> ids[i] == ids[1..][i - 1];
      (if IsDone(m, ids[0]) then 1 else 0) + rest
  }

  /** Counting over a concatenation (built-in then custom items) adds the counts. */
  lemma {:induction false} DoneCountConcat(a: seq<string>, b: seq<string>, m: ProgressMap)
    ensures DoneCount(a + b, m) == DoneCount(a, m) + DoneCount(b, m)
    decreases |a|
  {
    if a != [] {
      assert (a + b)[1..] == a[1..] + b;
      DoneCountConcat(a[1..], b, m);
    } else {
      assert a + b == b;
    }
  }

  /** The count depends only on which of the listed ids are done, not on how
      absence is stored or on entries for other ids. */
  lemma {:induction false} DoneCountSameDone(ids: seq<string>, m1: ProgressMap, m2: ProgressMap)
    requires forall i :: 0 <= i < |ids| ==> IsDone(m1, ids[i]) == IsDone(m2, ids[i])
    ensures DoneCount(ids, m1) == DoneCount(ids, m2)
    decreases |ids|
  {
    if ids != [] {
      assert forall i :: 0 <= i < |ids[1..]| ==> ids[1..][i] == ids[i + 1];
      DoneCountSameDone(ids[1..], m1, m2);
    }
  }

  /** Checking an item never lowers the count, unchecking never raises it. */
  lemma {:induction false} DoneCountMonotone(ids: seq<string>, m: ProgressMap, id: string)
    ensures DoneCount(ids, m) <= DoneCount(ids, m[id := true])
    ensures DoneCount(ids, m[id := false]) <= DoneCount(ids, m)
    decreases |ids|
  {
    if ids != [] {
      DoneCountMonotone(ids[1..], m, id);
    }
  }

  /** Setting an entry and then setting it back to its former done-ness leaves
      every id's done-ness, and hence every count, as it was. */
  lemma ToggleBackRestoresCounts(ids: seq<string>, m: ProgressMap, id: string)
    ensures var m' := m[id := !IsDone(m, id)][id := IsDone(m, id)];
      forall k :: IsDone(m', k) <==> IsDone(m, k)
    ensures DoneCount(ids, m[id := !IsDone(m, id)][id := IsDone(m, id)]) == DoneCount(ids, m)
  {
    DoneCountSameDone(ids, m[id := !IsDone(m, id)][id := IsDone(m, id)], m);
  }

  /** `total || 1`: the divisor, which is 1 for an empty list. */
  function Divisor(total: nat): (d: nat)
    ensures d >= 1 && (total > 0 ==> d == total)
  {
    if total == 0 then 1 else total
  }

  /** The facts about `n / d` that a fraction of a count needs. */
  lemma QuotientFacts(n: real, d: real)
    requires 0.0 <= n && 1.0 <= d
    ensures (n / d) * d == n
    ensures 0.0 <= n / d
    ensures n <= d ==> n / d <= 1.0
    ensures n / d == 1.0 <==> n == d
  {
  }

  /** `done / (total || 1)`. */
  function Percent(done: nat, total: nat): (p: real)
    ensures p * Divisor(total) as real == done as real
    ensures done <= total ==> 0.0 <= p <= 1.0
    ensures done == 0 ==> p == 0.0
    ensures total > 0 ==> (p == 1.0 <==> done == total)
  {
    var d := Divisor(total);
    QuotientFacts(done as real, d as real);
    done as real / d as real
  }

  datatype Report = Report(reading: real, practice: real, overall: real)

  /** Each kind's fraction is its done count over `total || 1`, and the
      overall value is their mean. */
  predicate Fractions(r: Report, readingDone: nat, readingTotal: nat, practiceDone: nat, practiceTotal: nat)
  {
    && r.reading == readingDone as real / Divisor(readingTotal) as real
    && r.practice == practiceDone as real / Divisor(practiceTotal) as real
    && r.overall == (r.reading + r.practice) / 2.0
  }

  /** What `updateProgress` computes before formatting it for display. */
  function Compute(readingIds: seq<string>, readings: ProgressMap,
                   practiceIds: seq<string>, practice: ProgressMap): (r: Report)
    ensures Fractions(r, DoneCount(readingIds, readings), |readingIds|, DoneCount(practiceIds, practice), |practiceIds|)
    ensures 0.0 <= r.reading <= 1.0 && 0.0 <= r.practice <= 1.0 && 0.0 <= r.overall <= 1.0
    ensures readingIds == [] ==> r.reading == 0.0
    ensures practiceIds == [] ==> r.practice == 0.0
    ensures r.reading == 1.0 <==> readingIds != [] && forall i :: 0 <= i < |readingIds| ==> IsDone(readings, readingIds[i])
    ensures r.practice == 1.0 <==> practiceIds != [] && forall i :: 0 <= i < |practiceIds| ==> IsDone(practice, practiceIds[i])
  {
    var rd := DoneCount(readingIds, readings);
    var pd := DoneCount(practiceIds, practice);
    var rp := Percent(rd, |readingIds|);
    var pp := Percent(pd, |practiceIds|);
    Report(rp, pp, (rp + pp) / 2.0)
  }
}
