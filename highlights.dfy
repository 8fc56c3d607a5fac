/**
 * The three highlight detectors of the timeseries view. Each is a loop
 * appending to `highlights`; here each is a method proved equal to a
 * specification function, and the detector's promise is proved about that
 * function.
 *
 * Number formatting in titles and details (`:.1f`, `:.2f`, `:+.1f`) is not
 * modelled: a detail carries the numbers it would print.
 */
module Highlights {
  import opened Wrappers
  import opened Dates
  import opened Coerce
  import opened Models

  /** The `type` of a highlight. */
  datatype Kind = PolicyShift | CasesRise | DeathsRise | VaxMilestone

  function KindName(k: Kind): string
  {
    match k
    case PolicyShift => "policy"
    case CasesRise => "cases"
    case DeathsRise => "deaths"
    case VaxMilestone => "vax"
  }

  /** What a highlight's `details` line reports. */
  datatype Detail =
    | StringencyShift(from: real, to: real)
    | IndicatorChange(indicator: string, oldLevel: Option<int>, newLevel: Option<int>)
    | Acceleration(ratio: real, priorMean: real, currentMean: real)
    | Milestone(threshold: int)

  datatype Highlight = Highlight(date: Date, kind: Kind, title: string, detail: Detail)

  // ---------------------------------------------------------------------
  // 1) Policy highlights

  /** `POLICY_LABELS`, in order. */
  const IndicatorLabels: seq<string> :=
    ["School closing", "Workplace closing", "Stay-at-home requirements",
     "International travel controls", "Facial coverings"]

  /** The five ordinal indicators of a row, in the order of `IndicatorLabels`. */
  function Indicators(p: PolicyDaily): (r: seq<Option<int>>)
    ensures |r| == |IndicatorLabels|
  {
    [p.c1SchoolClosing, p.c2WorkplaceClosing, p.c6StayAtHome, p.c8InternationalTravelControls, p.h6FacialCoverings]
  }

  function Abs(x: real): real
  {
    if x < 0.0 then -x else x
  }

  /** The stringency highlight of a date against the previous one, if any. */
  function StringencyHighlight(d: Date, prev: PolicyDaily, cur: PolicyDaily): (r: seq<Highlight>)
    ensures |r| <= 1
    ensures r != [] <==>
      prev.stringencyIndex.Some? && cur.stringencyIndex.Some?
      && Abs(cur.stringencyIndex.value - prev.stringencyIndex.value) >= 10.0
    ensures r != [] ==>
      && r[0].date == d && r[0].kind == PolicyShift
      && (r[0].title == "Policy stringency tightened" <==> cur.stringencyIndex.value > prev.stringencyIndex.value)
      && (r[0].title == "Policy stringency relaxed" <==> cur.stringencyIndex.value <= prev.stringencyIndex.value)
  {
    var s0, s1 := prev.stringencyIndex, cur.stringencyIndex;
    if s0.Some? && s1.Some? && Abs(s1.value - s0.value) >= 10.0 then
      var direction := if s1.value > s0.value then "tightened" else "relaxed";
      [Highlight(d, PolicyShift, "Policy stringency " + direction, StringencyShift(s0.value, s1.value))]
    else []
  }

  /** The highlight for indicator `k` when it changed. */
  function IndicatorHighlight(d: Date, k: nat, a: Option<int>, b: Option<int>): Highlight
    requires k < |IndicatorLabels|
  {
    Highlight(d, PolicyShift, IndicatorLabels[k] + " changed", IndicatorChange(IndicatorLabels[k], a, b))
  }

  /** The "changed" highlights of the first `n` indicators, in label order. */
  function ChangedIndicators(d: Date, prev: PolicyDaily, cur: PolicyDaily, n: nat): seq<Highlight>
    requires n <= |IndicatorLabels|
  {
    if n == 0 then []
    else
      var a, b := Indicators(prev)[n - 1], Indicators(cur)[n - 1];
      ChangedIndicators(d, prev, cur, n - 1)
        + (if a != b && (a.Some? || b.Some?) then [IndicatorHighlight(d, n - 1, a, b)] else [])
  }

  /** The positions among the first `n` indicators whose values differ, ascending. */
  ghost function DifferingIndicators(prev: PolicyDaily, cur: PolicyDaily, n: nat): (ks: seq<nat>)
    requires n <= |IndicatorLabels|
    ensures forall i :: 0 <= i < |ks| ==> ks[i] < n
  {
    if n == 0 then []
    else
      DifferingIndicators(prev, cur, n - 1)
        + (if Indicators(prev)[n - 1] != Indicators(cur)[n - 1] then [n - 1] else [])
  }

  /** The differing positions are exactly the indicators whose values differ. */
  lemma {:induction false} DifferingIndicatorsExact(prev: PolicyDaily, cur: PolicyDaily, n: nat)
    requires n <= |IndicatorLabels|
    ensures forall k :: k in DifferingIndicators(prev, cur, n) <==> 0 <= k < n && Indicators(prev)[k] != Indicators(cur)[k]
    decreases n
  {
    if n > 0 {
      DifferingIndicatorsExact(prev, cur, n - 1);
      var ks0 := DifferingIndicators(prev, cur, n - 1);
      assert forall k :: k in ks0 ==> k < n - 1;
    }
  }

  /** The differing positions ascend, so each indicator appears once. */
  lemma {:induction false} DifferingIndicatorsAscending(prev: PolicyDaily, cur: PolicyDaily, n: nat)
    requires n <= |IndicatorLabels|
    ensures StrictlyAscending(DifferingIndicators(prev, cur, n))
    decreases n
  {
    if n > 0 {
      DifferingIndicatorsAscending(prev, cur, n - 1);
      var ks0 := DifferingIndicators(prev, cur, n - 1);
      var ks := DifferingIndicators(prev, cur, n);
      assert ks == ks0 || ks == ks0 + [n - 1];
      forall i, j | 0 <= i < j < |ks|
        ensures ks[i] < ks[j]
      {
        assert ks[i] == ks0[i];
        if j < |ks0| {
          assert ks[j] == ks0[j];
        }
      }
    }
  }

  predicate StrictlyAscending(ks: seq<nat>)
  {
    forall i, j :: 0 <= i < j < |ks| ==> ks[i] < ks[j]
  }

  /** One "changed" highlight per differing indicator, in label order. */
  lemma {:induction false} ChangedIndicatorsInOrder(d: Date, prev: PolicyDaily, cur: PolicyDaily, n: nat)
    requires n <= |IndicatorLabels|
    ensures var r, ks := ChangedIndicators(d, prev, cur, n), DifferingIndicators(prev, cur, n);
      && |r| == |ks|
      && forall i :: 0 <= i < |r| ==> r[i] == IndicatorHighlight(d, ks[i], Indicators(prev)[ks[i]], Indicators(cur)[ks[i]])
    decreases n
  {
    if n > 0 {
      ChangedIndicatorsInOrder(d, prev, cur, n - 1);
    }
  }

  /** Exactly the indicators that differ get a "changed" highlight. */
  lemma {:induction false} ChangedIndicatorsExact(d: Date, prev: PolicyDaily, cur: PolicyDaily, n: nat)
    requires n <= |IndicatorLabels|
    ensures forall h :: h in ChangedIndicators(d, prev, cur, n) ==>
      exists k :: 0 <= k < n && Indicators(prev)[k] != Indicators(cur)[k]
        && h == IndicatorHighlight(d, k, Indicators(prev)[k], Indicators(cur)[k])
    ensures forall k :: 0 <= k < n && Indicators(prev)[k] != Indicators(cur)[k] ==>
      IndicatorHighlight(d, k, Indicators(prev)[k], Indicators(cur)[k]) in ChangedIndicators(d, prev, cur, n)
    decreases n
  {
    if n > 0 {
      ChangedIndicatorsExact(d, prev, cur, n - 1);
    }
  }

  /** All policy highlights of one date against the previous date. */
  function DayShifts(d: Date, prev: PolicyDaily, cur: PolicyDaily): seq<Highlight>
  {
    StringencyHighlight(d, prev, cur) + ChangedIndicators(d, prev, cur, |IndicatorLabels|)
  }

  /**
   * The policy highlights over the metric dates: date `i` is compared with
   * date `i - 1` only when both have a policy row.
   */
  function PolicyShifts(dates: seq<Date>, pmap: map<Date, PolicyDaily>): seq<Highlight>
    decreases |dates|
  {
    if |dates| < 2 then []
    else
      var n := |dates|;
      PolicyShifts(dates[..n - 1], pmap)
        + (if dates[n - 2] in pmap && dates[n - 1] in pmap
           then DayShifts(dates[n - 1], pmap[dates[n - 2]], pmap[dates[n - 1]])
           else [])
  }

  /** Date `i` is compared with its predecessor: both dates have a policy row. */
  predicate Compared(dates: seq<Date>, pmap: map<Date, PolicyDaily>, i: int)
  {
    1 <= i < |dates| && dates[i - 1] in pmap && dates[i] in pmap
  }

  /**
   * Every policy highlight comes from a compared pair of consecutive metric
   * dates, and every compared pair contributes all its highlights.
   */
  lemma {:induction false} PolicyShiftsExact(dates: seq<Date>, pmap: map<Date, PolicyDaily>)
    ensures forall h :: h in PolicyShifts(dates, pmap) ==>
      exists i :: Compared(dates, pmap, i) && h in DayShifts(dates[i], pmap[dates[i - 1]], pmap[dates[i]])
    ensures forall i, h :: Compared(dates, pmap, i) && h in DayShifts(dates[i], pmap[dates[i - 1]], pmap[dates[i]]) ==>
      h in PolicyShifts(dates, pmap)
    decreases |dates|
  {
    if |dates| >= 2 {
      var init := dates[..|dates| - 1];
      PolicyShiftsExact(init, pmap);
      forall h | h in PolicyShifts(dates, pmap)
        ensures exists i :: Compared(dates, pmap, i) && h in DayShifts(dates[i], pmap[dates[i - 1]], pmap[dates[i]])
      {
        if h in PolicyShifts(init, pmap) {
          var i :| Compared(init, pmap, i) && h in DayShifts(init[i], pmap[init[i - 1]], pmap[init[i]]);
          assert Compared(dates, pmap, i);
        } else {
          assert Compared(dates, pmap, |dates| - 1);
        }
      }
      forall i, h | Compared(dates, pmap, i) && h in DayShifts(dates[i], pmap[dates[i - 1]], pmap[dates[i]])
        ensures h in PolicyShifts(dates, pmap)
      {
        if i < |dates| - 1 {
          assert Compared(init, pmap, i);
        }
      }
    }
  }

  /** One more date extends the policy highlights by that date's shifts, if it is compared. */
  lemma PolicyShiftsStep(dates: seq<Date>, pmap: map<Date, PolicyDaily>, i: nat)
    requires i < |dates|
    ensures PolicyShifts(dates[..i + 1], pmap) == PolicyShifts(dates[..i], pmap)
      + (if i > 0 && dates[i - 1] in pmap && dates[i] in pmap
         then DayShifts(dates[i], pmap[dates[i - 1]], pmap[dates[i]])
         else [])
  {
    assert dates[..i + 1][..i] == dates[..i];
  }

  /** The inner loop over the indicator labels of one compared date. */
  method IndicatorHighlights(d: Date, prev: PolicyDaily, cur: PolicyDaily) returns (added: seq<Highlight>)
    ensures added == ChangedIndicators(d, prev, cur, |IndicatorLabels|)
  {
    added := [];
    for k := 0 to |IndicatorLabels|
      invariant added == ChangedIndicators(d, prev, cur, k)
    {
      var a, b := Indicators(prev)[k], Indicators(cur)[k];
      if a != b && (a.Some? || b.Some?) {
        added := added + [IndicatorHighlight(d, k, a, b)];
      }
    }
  }

  /**
   * The policy-highlight loop: `prev_p` is the previous date's policy row,
   * or none when that date has none.
   */
  method PolicyHighlights(dates: seq<Date>, pmap: map<Date, PolicyDaily>) returns (hs: seq<Highlight>)
    ensures hs == PolicyShifts(dates, pmap)
  {
    hs := [];
    var prev: Option<PolicyDaily> := None;
    for i := 0 to |dates|
      invariant hs == PolicyShifts(dates[..i], pmap)
      invariant prev == (if i > 0 && dates[i - 1] in pmap then Some(pmap[dates[i - 1]]) else None)
    {
      var d := dates[i];
      PolicyShiftsStep(dates, pmap, i);
      var cur := if d in pmap then Some(pmap[d]) else None;
      if cur.Some? && prev.Some? {
        var added := IndicatorHighlights(d, prev.value, cur.value);
        hs := hs + (StringencyHighlight(d, prev.value, cur.value) + added);
      }
      prev := cur;
    }
    assert dates[..|dates|] == dates;
  }

  // ---------------------------------------------------------------------
  // 2) Acceleration highlights

  /** The non-null values of a window, in order. */
  function Present(vals: seq<Option<real>>): (r: seq<real>)
    ensures |r| <= |vals|
  {
    if vals == [] then []
    else Present(vals[..|vals| - 1]) + (if vals[|vals| - 1].Some? then [vals[|vals| - 1].value] else [])
  }

  function Sum(xs: seq<real>): real
  {
    if xs == [] then 0.0 else Sum(xs[..|xs| - 1]) + xs[|xs| - 1]
  }

  /** `statistics.mean`, on reals. */
  function Mean(xs: seq<real>): real
    requires xs != []
  {
    Sum(xs) / |xs| as real
  }

  /** The two 7-day windows ending at `i`: days `i-6..i` and the week before. */
  function CurrentWindow(vals: seq<Option<real>>, i: nat): seq<real>
    requires 13 <= i < |vals|
  {
    Present(vals[i - 6..i + 1])
  }

  function PriorWindow(vals: seq<Option<real>>, i: nat): seq<real>
    requires 13 <= i < |vals|
  {
    Present(vals[i - 13..i - 6])
  }

  /** The acceleration at index `i`, when it is reported. */
  function AccelAt(vals: seq<Option<real>>, i: nat, floor: real): Option<Detail>
    requires 13 <= i < |vals|
  {
    var cur, prior := CurrentWindow(vals, i), PriorWindow(vals, i);
    if |cur| < 5 || |prior| < 5 then None
    else
      var curAvg, priorAvg := Mean(cur), Mean(prior);
      if priorAvg < floor then None
      else
        var ratio := if priorAvg != 0.0 then curAvg / priorAvg else 0.0;
        if ratio >= 1.5 then Some(Acceleration(ratio, priorAvg, curAvg)) else None
  }

  /**
   * With a positive floor, a date is reported exactly when both weeks have
   * at least five values, the prior mean reaches the floor, and the current
   * mean is at least one and a half times the prior one.
   */
  lemma AccelAtIff(vals: seq<Option<real>>, i: nat, floor: real)
    requires 13 <= i < |vals| && floor > 0.0
    ensures AccelAt(vals, i, floor).Some? <==>
      && |CurrentWindow(vals, i)| >= 5 && |PriorWindow(vals, i)| >= 5
      && Mean(PriorWindow(vals, i)) >= floor
      && Mean(CurrentWindow(vals, i)) >= 1.5 * Mean(PriorWindow(vals, i))
  {
    var cur, prior := CurrentWindow(vals, i), PriorWindow(vals, i);
    if |cur| >= 5 && |prior| >= 5 && Mean(prior) >= floor {
      var c, p := Mean(cur), Mean(prior);
      assert p > 0.0;
      assert c / p >= 1.5 <==> c >= 1.5 * p by {
        assert c == (c / p) * p;
      }
    }
  }

  /** The acceleration highlights of indices 14 up to `n`. */
  function Accelerations(vals: seq<Option<real>>, dates: seq<Date>, kind: Kind, title: string, floor: real, n: nat)
    : seq<Highlight>
    requires |vals| == |dates| && n <= |vals|
  {
    if n <= 14 then []
    else
      Accelerations(vals, dates, kind, title, floor, n - 1)
        + (match AccelAt(vals, n - 1, floor)
           case None => []
           case Some(detail) => [Highlight(dates[n - 1], kind, title, detail)])
  }

  /** Every acceleration highlight is the report of an index from 14 on, and every report is there. */
  lemma {:induction false} AccelerationsExact(vals: seq<Option<real>>, dates: seq<Date>, kind: Kind, title: string,
                                              floor: real, n: nat)
    requires |vals| == |dates| && n <= |vals|
    ensures forall h :: h in Accelerations(vals, dates, kind, title, floor, n) ==>
      exists i :: 14 <= i < n && AccelAt(vals, i, floor).Some?
        && h == Highlight(dates[i], kind, title, AccelAt(vals, i, floor).value)
    ensures forall i :: 14 <= i < n && AccelAt(vals, i, floor).Some? ==>
      Highlight(dates[i], kind, title, AccelAt(vals, i, floor).value) in Accelerations(vals, dates, kind, title, floor, n)
    decreases n
  {
    if n > 14 {
      AccelerationsExact(vals, dates, kind, title, floor, n - 1);
    }
  }

  /** `_add_accel`: one pass over the indices from 14 on. */
  method AddAccel(vals: seq<Option<real>>, dates: seq<Date>, kind: Kind, titlePrefix: string, floor: real)
    returns (hs: seq<Highlight>)
    requires |vals| == |dates|
    ensures hs == Accelerations(vals, dates, kind, titlePrefix + " accelerating", floor, |vals|)
  {
    hs := [];
    if |vals| == 0 {
      return;
    }
    var title := titlePrefix + " accelerating";
    var i := 14;
    while i < |vals|
      invariant 14 <= i && (i <= |vals| || |vals| < 14)
      invariant hs == Accelerations(vals, dates, kind, title, floor, if i <= |vals| then i else |vals|)
    {
      var curWindow := Present(vals[i - 6..i + 1]);
      var priorWindow := Present(vals[i - 13..i - 6]);
      if |curWindow| >= 5 && |priorWindow| >= 5 {
        var curAvg, priorAvg := Mean(curWindow), Mean(priorWindow);
        if priorAvg >= floor {
          var ratio := if priorAvg != 0.0 then curAvg / priorAvg else 0.0;
          if ratio >= 1.5 {
            hs := hs + [Highlight(dates[i], kind, title, Acceleration(ratio, priorAvg, curAvg))];
          }
        }
      }
      i := i + 1;
    }
  }

  // ---------------------------------------------------------------------
  // 3) Vaccination milestones

  /** The thresholds, in the order they are tried. */
  const Thresholds: seq<int> := [10, 25, 50, 70, 80]

  /** Between index `i - 1` and `i` the share crosses `t`: both values present and `a < t <= b`. */
  predicate Crosses(vax: seq<Option<real>>, i: int, t: int)
  {
    1 <= i < |vax| && vax[i - 1].Some? && vax[i].Some? && vax[i - 1].value < t as real <= vax[i].value
  }

  /** The first crossing of `t`. */
  predicate FirstCrossing(vax: seq<Option<real>>, i: int, t: int)
  {
    Crosses(vax, i, t) && forall j :: 1 <= j < i ==> !Crosses(vax, j, t)
  }

  function MilestoneHighlight(d: Date, t: int): Highlight
  {
    Highlight(d, VaxMilestone, "Vaccination milestone: " + IntStr(t) + "% fully vaccinated", Milestone(t))
  }

  /** The milestones of index `i` among the first `k` thresholds, in threshold order. */
  function MilestonesAt(vax: seq<Option<real>>, dates: seq<Date>, i: nat, k: nat): seq<Highlight>
    requires |vax| == |dates| && i < |vax| && k <= |Thresholds|
  {
    if k == 0 then []
    else
      MilestonesAt(vax, dates, i, k - 1)
        + (if FirstCrossing(vax, i, Thresholds[k - 1]) then [MilestoneHighlight(dates[i], Thresholds[k - 1])] else [])
  }

  /** The milestones of the index pairs before `n`: each threshold at its first crossing. */
  function Milestones(vax: seq<Option<real>>, dates: seq<Date>, n: nat): seq<Highlight>
    requires |vax| == |dates| && n <= |vax|
  {
    if n <= 1 then []
    else Milestones(vax, dates, n - 1) + MilestonesAt(vax, dates, n - 1, |Thresholds|)
  }

  lemma {:induction false} MilestonesAtExact(vax: seq<Option<real>>, dates: seq<Date>, i: nat, k: nat)
    requires |vax| == |dates| && i < |vax| && k <= |Thresholds|
    ensures forall h :: h in MilestonesAt(vax, dates, i, k) <==>
      exists m :: 0 <= m < k && FirstCrossing(vax, i, Thresholds[m]) && h == MilestoneHighlight(dates[i], Thresholds[m])
    decreases k
  {
    if k > 0 {
      MilestonesAtExact(vax, dates, i, k - 1);
    }
  }

  /**
   * A milestone highlight is exactly a threshold at the first index pair
   * that crosses it; a threshold never crossed gives none.
   */
  lemma {:induction false} MilestonesExact(vax: seq<Option<real>>, dates: seq<Date>, n: nat)
    requires |vax| == |dates| && n <= |vax|
    ensures forall h :: h in Milestones(vax, dates, n) <==>
      exists i, m :: 1 <= i < n && 0 <= m < |Thresholds| && FirstCrossing(vax, i, Thresholds[m])
        && h == MilestoneHighlight(dates[i], Thresholds[m])
    decreases n
  {
    if n > 1 {
      MilestonesExact(vax, dates, n - 1);
      MilestonesAtExact(vax, dates, n - 1, |Thresholds|);
    }
  }

  /** Each threshold fires at most once: no two milestone highlights name the same threshold. */
  lemma {:induction false} MilestonesOnce(vax: seq<Option<real>>, dates: seq<Date>, n: nat)
    requires |vax| == |dates| && n <= |vax|
    ensures forall p, q :: 0 <= p < q < |Milestones(vax, dates, n)| ==>
      Milestones(vax, dates, n)[p].detail != Milestones(vax, dates, n)[q].detail
    ensures forall h :: h in Milestones(vax, dates, n) ==>
      h.detail.Milestone? && SeenBefore(vax, n, h.detail.threshold)
    decreases n
  {
    if n > 1 {
      MilestonesOnce(vax, dates, n - 1);
      MilestonesAtDistinct(vax, dates, n - 1, |Thresholds|);
      var old_ := Milestones(vax, dates, n - 1);
      var new_ := MilestonesAt(vax, dates, n - 1, |Thresholds|);
      var all := old_ + new_;
      forall p, q | 0 <= p < q < |all|
        ensures all[p].detail != all[q].detail
      {
        if q >= |old_| && p < |old_| {
          assert all[p] in old_;
          assert all[q] == new_[q - |old_|];
          assert all[q] in new_;
        } else if p >= |old_| {
          assert all[p] == new_[p - |old_|] && all[q] == new_[q - |old_|];
        } else {
          assert all[p] == old_[p] && all[q] == old_[q];
        }
      }
      forall h | h in all
        ensures h.detail.Milestone? && SeenBefore(vax, n, h.detail.threshold)
      {
        if h in old_ {
          var j :| 1 <= j < n - 1 && Crosses(vax, j, h.detail.threshold);
        } else {
          assert Crosses(vax, n - 1, h.detail.threshold);
        }
      }
    }
  }

  /** Within one index pair the thresholds are tried in order, each at most once, each at its first crossing. */
  lemma {:induction false} MilestonesAtDistinct(vax: seq<Option<real>>, dates: seq<Date>, i: nat, k: nat)
    requires |vax| == |dates| && i < |vax| && k <= |Thresholds|
    ensures forall p, q :: 0 <= p < q < |MilestonesAt(vax, dates, i, k)| ==>
      MilestonesAt(vax, dates, i, k)[p].detail != MilestonesAt(vax, dates, i, k)[q].detail
    ensures forall h :: h in MilestonesAt(vax, dates, i, k) ==>
      h.detail.Milestone? && h.detail.threshold in Thresholds[..k] && FirstCrossing(vax, i, h.detail.threshold)
    decreases k
  {
    if k > 0 {
      MilestonesAtDistinct(vax, dates, i, k - 1);
      var prev := MilestonesAt(vax, dates, i, k - 1);
      var all := MilestonesAt(vax, dates, i, k);
      assert Thresholds[..k] == Thresholds[..k - 1] + [Thresholds[k - 1]];
      assert Thresholds[k - 1] !in Thresholds[..k - 1];
      forall p, q | 0 <= p < q < |all|
        ensures all[p].detail != all[q].detail
      {
        if q >= |prev| {
          assert all[p] == prev[p];
          assert all[p] in prev;
        }
      }
    }
  }

  /** An index pair with a missing value crosses nothing. */
  lemma {:induction false} NoMilestonesWithoutValues(vax: seq<Option<real>>, dates: seq<Date>, i: nat, k: nat)
    requires |vax| == |dates| && 1 <= i < |vax| && k <= |Thresholds|
    requires vax[i - 1].None? || vax[i].None?
    ensures MilestonesAt(vax, dates, i, k) == []
    decreases k
  {
    if k > 0 {
      NoMilestonesWithoutValues(vax, dates, i, k - 1);
    }
  }

  /** Threshold `t` is crossed somewhere before index `i`. */
  predicate SeenBefore(vax: seq<Option<real>>, i: int, t: int)
  {
    exists j :: 1 <= j < i && Crosses(vax, j, t)
  }

  /** One more index pair adds its own crossings to those seen. */
  lemma SeenBeforeStep(vax: seq<Option<real>>, i: int, t: int)
    ensures SeenBefore(vax, i + 1, t) <==> SeenBefore(vax, i, t) || Crosses(vax, i, t)
  {
    if SeenBefore(vax, i + 1, t) {
      var j :| 1 <= j < i + 1 && Crosses(vax, j, t);
    }
  }

  /** The thresholds seen before `i` plus those crossed at `i` are those seen before `i + 1`. */
  lemma SeenAfterStep(vax: seq<Option<real>>, i: int, seen: set<int>, seenAfter: set<int>)
    requires forall t :: t in seen <==> t in Thresholds && SeenBefore(vax, i, t)
    requires forall t :: t in seenAfter <==> t in seen || (t in Thresholds && Crosses(vax, i, t))
    ensures forall t :: t in seenAfter <==> t in Thresholds && SeenBefore(vax, i + 1, t)
  {
    forall t
      ensures SeenBefore(vax, i + 1, t) <==> SeenBefore(vax, i, t) || Crosses(vax, i, t)
    {
      SeenBeforeStep(vax, i, t);
    }
  }

  /**
   * The body of the milestone loop for index pair `i`: nothing when either
   * value is missing, otherwise the loop over the thresholds. Given the
   * thresholds crossed before `i`, it returns the milestones it appends and
   * the thresholds crossed before `i + 1`.
   */
  method CrossingsAt(vax: seq<Option<real>>, dates: seq<Date>, i: nat, seen: set<int>)
    returns (added: seq<Highlight>, seenAfter: set<int>)
    requires |vax| == |dates| && 1 <= i < |vax|
    requires forall t :: t in seen <==> t in Thresholds && SeenBefore(vax, i, t)
    ensures added == MilestonesAt(vax, dates, i, |Thresholds|)
    ensures forall t :: t in seenAfter <==> t in Thresholds && SeenBefore(vax, i + 1, t)
  {
    added, seenAfter := [], seen;
    if vax[i - 1].None? || vax[i].None? {
      NoMilestonesWithoutValues(vax, dates, i, |Thresholds|);
      SeenAfterStep(vax, i, seen, seenAfter);
      return;
    }
    var a, b := vax[i - 1].value, vax[i].value;
    for k := 0 to |Thresholds|
      invariant added == MilestonesAt(vax, dates, i, k)
      invariant forall t :: t in seenAfter <==> t in seen || (t in Thresholds[..k] && Crosses(vax, i, t))
    {
      var thr := Thresholds[k];
      assert Thresholds[..k + 1] == Thresholds[..k] + [thr];
      assert thr !in Thresholds[..k];
      assert thr in seenAfter <==> SeenBefore(vax, i, thr);
      assert FirstCrossing(vax, i, thr) <==> a < thr as real <= b && !SeenBefore(vax, i, thr);
      if thr !in seenAfter {
        if a < thr as real <= b {
          seenAfter := seenAfter + {thr};
          added := added + [MilestoneHighlight(dates[i], thr)];
        }
      }
    }
    assert Thresholds[..|Thresholds|] == Thresholds;
    SeenAfterStep(vax, i, seen, seenAfter);
  }

  /** The milestone loop: `seen_thr` holds the thresholds already crossed. */
  method VaxMilestones(vax: seq<Option<real>>, dates: seq<Date>) returns (hs: seq<Highlight>)
    requires |vax| == |dates|
    ensures hs == Milestones(vax, dates, |vax|)
  {
    hs := [];
    if |vax| == 0 {
      return;
    }
    var seenThr: set<int> := {};
    for i := 1 to |vax|
      invariant hs == Milestones(vax, dates, i)
      invariant forall t :: t in seenThr <==> t in Thresholds && SeenBefore(vax, i, t)
    {
      var added;
      added, seenThr := CrossingsAt(vax, dates, i, seenThr);
      hs := hs + added;
    }
  }
}
