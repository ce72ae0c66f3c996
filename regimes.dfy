/** Selection of the drag regime (linear coefficient k1, quadratic
    coefficient k2) from the current height and the deployment schedule. */
module Regimes {
  import opened Physics

  datatype Option<T> = None | Some(value: T)

  /** One entry of the deployment schedule: below `threshold` metres the
      equipment has reference area `area` and shape coefficient `cx`. */
  datatype Trigger = Trigger(threshold: real, area: real, cx: real)

  /** The viscous (linear) drag coefficients of the body, the small canopy
      and the large canopy. Their values come from pi and square roots, so
      the caller supplies them. */
  datatype LinearDrag = LinearDrag(body: real, small: real, large: real)

  /** The active drag regime: drag force is k1*v + k2*v^2. */
  datatype Regime = Regime(k1: real, k2: real)

  ghost predicate Sorted(s: seq<Trigger>) {
    forall i, j :: 0 <= i < j < |s| ==> s[i].threshold <= s[j].threshold
  }

  /** The triggers of `s` whose threshold is `k`, in their order in `s`. */
  function WithThreshold(s: seq<Trigger>, k: real): seq<Trigger> {
    if s == [] then []
    else if s[0].threshold == k then [s[0]] + WithThreshold(s[1..], k)
    else WithThreshold(s[1..], k)
  }

  /** Puts `x` in front of the first element whose threshold is at least
      its own, so `x` precedes the equal-threshold elements of `ys`. */
  function Insert(x: Trigger, ys: seq<Trigger>): (r: seq<Trigger>)
    ensures multiset(r) == multiset(ys) + multiset{x}
  {
    if ys == [] then [x]
    else if x.threshold <= ys[0].threshold then [x] + ys
    else
      assert ys == [ys[0]] + ys[1..];
      [ys[0]] + Insert(x, ys[1..])
  }

  /** Inserting keeps a common lower bound on the thresholds. */
  lemma {:induction false} InsertAbove(x: Trigger, ys: seq<Trigger>, b: real)
    requires b <= x.threshold
    requires forall k :: 0 <= k < |ys| ==> b <= ys[k].threshold
    ensures forall k :: 0 <= k < |Insert(x, ys)| ==> b <= Insert(x, ys)[k].threshold
  {
    if ys != [] && x.threshold > ys[0].threshold {
      InsertAbove(x, ys[1..], b);
    }
  }

  lemma {:induction false} InsertSorted(x: Trigger, ys: seq<Trigger>)
    requires Sorted(ys)
    ensures Sorted(Insert(x, ys))
  {
    if ys != [] && x.threshold > ys[0].threshold {
      InsertSorted(x, ys[1..]);
      InsertAbove(x, ys[1..], ys[0].threshold);
    }
  }

  /** Stable sort by ascending threshold (the order Python's `sorted` with
      the threshold as key produces). */
  function SortByThreshold(s: seq<Trigger>): (r: seq<Trigger>)
    ensures multiset(r) == multiset(s)
    ensures Sorted(r)
  {
    if s == [] then []
    else
      assert s == [s[0]] + s[1..];
      var t := SortByThreshold(s[1..]);
      InsertSorted(s[0], t);
      Insert(s[0], t)
  }

  lemma SortUnfold(s: seq<Trigger>)
    requires s != []
    ensures SortByThreshold(s) == Insert(s[0], SortByThreshold(s[1..]))
  {
  }

  lemma {:induction false} InsertKeepsEqualThresholdOrder(x: Trigger, ys: seq<Trigger>, k: real)
    requires Sorted(ys)
    ensures WithThreshold(Insert(x, ys), k)
         == if x.threshold == k then [x] + WithThreshold(ys, k) else WithThreshold(ys, k)
  {
    if ys == [] {
    } else if x.threshold <= ys[0].threshold {
      assert ([x] + ys)[1..] == ys;
    } else {
      var r := [ys[0]] + Insert(x, ys[1..]);
      assert r[1..] == Insert(x, ys[1..]);
      InsertKeepsEqualThresholdOrder(x, ys[1..], k);
      if x.threshold == k {
        assert ys[0].threshold != k;
      }
    }
  }

  /** The sort is stable: for every threshold, the triggers carrying it keep
      their relative input order. With Sorted and the multiset equation this
      fixes the sorted list uniquely. */
  lemma {:induction false} SortIsStable(s: seq<Trigger>, k: real)
    ensures WithThreshold(SortByThreshold(s), k) == WithThreshold(s, k)
  {
    if s != [] {
      SortIsStable(s[1..], k);
      InsertKeepsEqualThresholdOrder(s[0], SortByThreshold(s[1..]), k);
    }
  }

  /** The scan over the sorted schedule: the first trigger whose threshold
      lies strictly above `h`. */
  function FirstAbove(s: seq<Trigger>, h: real): (r: Option<Trigger>)
    ensures r.None? <==> forall j :: 0 <= j < |s| ==> s[j].threshold <= h
    ensures r.Some? ==>
      exists i :: 0 <= i < |s| && s[i] == r.value && h < s[i].threshold &&
                  (forall j :: 0 <= j < i ==> s[j].threshold <= h)
  {
    if s == [] then None
    else if h < s[0].threshold then Some(s[0])
    else
      var r := FirstAbove(s[1..], h);
      assert r.Some? ==> exists i :: 0 < i < |s| && s[i] == r.value && h < s[i].threshold &&
                                     (forall j :: 0 <= j < i ==> s[j].threshold <= h)
      by {
        if r.Some? {
          var i :| 0 <= i < |s| - 1 && s[1..][i] == r.value && h < s[1..][i].threshold &&
            forall j :: 0 <= j < i ==> s[1..][j].threshold <= h;
          assert forall j :: 0 <= j < i + 1 ==> s[j].threshold <= h by {
            forall j | 0 <= j < i + 1 ensures s[j].threshold <= h {
              if j > 0 { assert s[j] == s[1..][j - 1]; }
            }
          }
        }
      }
      r
  }

  /** Index `i` holds the trigger that should be active at height `h`: its
      threshold is strictly above `h`, no trigger above `h` has a lower
      threshold, and no earlier trigger above `h` has the same one. */
  ghost predicate IsChoice(s: seq<Trigger>, h: real, i: int) {
    0 <= i < |s| && h < s[i].threshold &&
    (forall j :: 0 <= j < |s| && h < s[j].threshold ==> s[i].threshold <= s[j].threshold) &&
    (forall j :: 0 <= j < i && h < s[j].threshold ==> s[i].threshold < s[j].threshold)
  }

  /** At most one index is the choice. */
  lemma ChoiceIsUnique(s: seq<Trigger>, h: real, i: int, k: int)
    requires IsChoice(s, h, i) && IsChoice(s, h, k)
    ensures i == k
  {
  }

  /** Scanning `Insert(x, ys)` picks `x` exactly when `x` is above `h` and no
      later candidate of `ys` has a strictly lower threshold. */
  lemma {:induction false} InsertFirstAbove(x: Trigger, ys: seq<Trigger>, h: real)
    requires Sorted(ys)
    ensures FirstAbove(Insert(x, ys), h)
         == if h < x.threshold &&
               (FirstAbove(ys, h).None? || x.threshold <= FirstAbove(ys, h).value.threshold)
            then Some(x) else FirstAbove(ys, h)
  {
    if ys == [] {
    } else if x.threshold <= ys[0].threshold {
      var r := [x] + ys;
      assert r[1..] == ys;
      var f := FirstAbove(ys, h);
      if h < x.threshold && f.Some? {
        var i :| 0 <= i < |ys| && ys[i] == f.value && h < ys[i].threshold;
        assert ys[0].threshold <= ys[i].threshold;
      }
    } else {
      var r := [ys[0]] + Insert(x, ys[1..]);
      assert r[1..] == Insert(x, ys[1..]);
      assert Sorted(ys[1..]);
      InsertFirstAbove(x, ys[1..], h);
    }
  }

  /** When the head of `s` is the choice, the rest offers no lower threshold
      above `h`. */
  lemma HeadChoiceBeatsRest(s: seq<Trigger>, h: real)
    requires IsChoice(s, h, 0)
    ensures FirstAbove(SortByThreshold(s[1..]), h).None? ||
            s[0].threshold <= FirstAbove(SortByThreshold(s[1..]), h).value.threshold
  {
    var rest := s[1..];
    var sr := SortByThreshold(rest);
    var f := FirstAbove(sr, h);
    if f.Some? {
      var k :| 0 <= k < |sr| && sr[k] == f.value && h < sr[k].threshold;
      assert sr[k] in multiset(rest);
      var j :| 0 <= j < |rest| && rest[j] == sr[k];
      assert s[j + 1] == rest[j];
    }
  }

  /** A choice behind the head of `s` is also the choice in the rest. */
  lemma LaterChoiceInRest(s: seq<Trigger>, h: real, i: int)
    requires IsChoice(s, h, i) && i > 0
    ensures IsChoice(s[1..], h, i - 1)
  {
    var rest := s[1..];
    assert forall j :: 0 <= j < |rest| ==> rest[j] == s[j + 1];
  }

  /** The first trigger above `h` in the sorted schedule is the choice. */
  lemma {:induction false} SortedScanPicksChoice(s: seq<Trigger>, h: real, i: int)
    requires IsChoice(s, h, i)
    ensures FirstAbove(SortByThreshold(s), h) == Some(s[i])
  {
    var x, rest := s[0], s[1..];
    var sr := SortByThreshold(rest);
    SortUnfold(s);
    InsertFirstAbove(x, sr, h);
    var f := FirstAbove(sr, h);
    if i == 0 {
      HeadChoiceBeatsRest(s, h);
      assert h < x.threshold && (f.None? || x.threshold <= f.value.threshold);
      assert FirstAbove(Insert(x, sr), h) == Some(x);
    } else {
      LaterChoiceInRest(s, h, i);
      SortedScanPicksChoice(rest, h, i - 1);
      assert f == Some(s[i]);
      assert h < x.threshold ==> s[i].threshold < x.threshold;
      assert FirstAbove(Insert(x, sr), h) == f;
    }
  }

  /** Whenever some trigger lies above `h`, a choice exists. */
  lemma {:induction false} ChoiceExists(s: seq<Trigger>, h: real, j: int)
    requires 0 <= j < |s| && h < s[j].threshold
    ensures exists i :: IsChoice(s, h, i)
  {
    var x, rest := s[0], s[1..];
    if exists j' :: 0 <= j' < |rest| && h < rest[j'].threshold {
      var j' :| 0 <= j' < |rest| && h < rest[j'].threshold;
      ChoiceExists(rest, h, j');
      var i' :| IsChoice(rest, h, i');
      if h < x.threshold && x.threshold <= rest[i'].threshold {
        assert IsChoice(s, h, 0);
      } else {
        assert IsChoice(s, h, i' + 1);
      }
    } else {
      assert j == 0;
      assert IsChoice(s, h, 0);
    }
  }

  /** The trigger found after sorting is the one IsChoice describes, and none
      is found exactly when every threshold is at or below `h` (a threshold
      equal to `h` is never selected). */
  lemma SelectionSpec(s: seq<Trigger>, h: real)
    ensures FirstAbove(SortByThreshold(s), h).None? <==>
              forall j :: 0 <= j < |s| ==> s[j].threshold <= h
    ensures forall i :: IsChoice(s, h, i) ==> FirstAbove(SortByThreshold(s), h) == Some(s[i])
    ensures FirstAbove(SortByThreshold(s), h).Some? ==>
              exists i :: IsChoice(s, h, i) && s[i] == FirstAbove(SortByThreshold(s), h).value
  {
    var sorted := SortByThreshold(s);
    forall i | IsChoice(s, h, i) ensures FirstAbove(sorted, h) == Some(s[i]) {
      SortedScanPicksChoice(s, h, i);
    }
    if j :| 0 <= j < |s| && h < s[j].threshold {
      ChoiceExists(s, h, j);
    } else {
      forall k | 0 <= k < |sorted| ensures sorted[k].threshold <= h {
        assert sorted[k] in multiset(s);
      }
    }
  }

  /** The linear coefficient recognised from a reference area: the small
      canopy's within 0.01 of S_SMALL, else the large canopy's within 0.01 of
      S_LARGE, else the body's. */
  function LinearFor(area: real, k1: LinearDrag): real {
    if Abs(area - S_SMALL) < 0.01 then k1.small
    else if Abs(area - S_LARGE) < 0.01 then k1.large
    else k1.body
  }

  /** Each reference area is mapped to the coefficient of its own
      configuration. */
  lemma LinearForReferenceAreas(k1: LinearDrag)
    ensures LinearFor(S_BODY, k1) == k1.body
    ensures LinearFor(S_SMALL, k1) == k1.small
    ensures LinearFor(S_LARGE, k1) == k1.large
  {
    ReferenceAreasApart();
  }

  /** The two tolerance windows do not overlap, so the order of the tests
      does not matter: with three distinct coefficients, the small canopy's
      is chosen exactly within 0.01 of S_SMALL, the large canopy's exactly
      within 0.01 of S_LARGE, and the body's exactly outside both. */
  lemma LinearForWindows(area: real, k1: LinearDrag)
    requires k1.body != k1.small && k1.body != k1.large && k1.small != k1.large
    ensures LinearFor(area, k1) == k1.small <==> Abs(area - S_SMALL) < 0.01
    ensures LinearFor(area, k1) == k1.large <==> Abs(area - S_LARGE) < 0.01
    ensures LinearFor(area, k1) == k1.body <==>
              Abs(area - S_SMALL) >= 0.01 && Abs(area - S_LARGE) >= 0.01
  {
    ReferenceAreasApart();
  }

  /** Free fall: the body alone, with the body's reference area and shape
      coefficient. */
  function BodyRegime(rho: real, k1: LinearDrag): Regime {
    Regime(k1.body, 0.5 * CX_BODY * rho * S_BODY)
  }

  /** The regime of an active trigger: k1 recognised from its area, and
      k2 = 0.5*cx*rho*area. */
  function TriggerRegime(t: Trigger, rho: real, k1: LinearDrag): Regime {
    Regime(LinearFor(t.area, k1), 0.5 * t.cx * rho * t.area)
  }

  /** The drag regime at height `h` in air of density `rho`: sort the
      schedule, scan it for the first trigger strictly above `h`, and fall
      back to the body alone when there is none. The schedule itself is a
      value and is left as it was. */
  function GetCoefficients(h: real, triggers: seq<Trigger>, rho: real, k1: LinearDrag): Regime {
    match FirstAbove(SortByThreshold(triggers), h)
    case None => BodyRegime(rho, k1)
    case Some(t) => TriggerRegime(t, rho, k1)
  }

  /** The regime in force at `h` is the body's when no threshold lies
      strictly above `h` (a threshold equal to `h` does not count), and
      otherwise that of the trigger with the smallest threshold above `h`,
      the earliest such in schedule order. */
  lemma CoefficientsSpec(h: real, triggers: seq<Trigger>, rho: real, k1: LinearDrag)
    ensures (forall j :: 0 <= j < |triggers| ==> triggers[j].threshold <= h) ==>
              GetCoefficients(h, triggers, rho, k1) == BodyRegime(rho, k1)
    ensures forall i :: IsChoice(triggers, h, i) ==>
              GetCoefficients(h, triggers, rho, k1) == TriggerRegime(triggers[i], rho, k1)
  {
    SelectionSpec(triggers, h);
  }

  /** With non-negative density, areas and shape coefficients and positive
      linear coefficients, both drag coefficients are non-negative. */
  lemma CoefficientsNonNegative(h: real, triggers: seq<Trigger>, rho: real, k1: LinearDrag)
    requires rho >= 0.0 && k1.body > 0.0 && k1.small > 0.0 && k1.large > 0.0
    requires forall j :: 0 <= j < |triggers| ==> triggers[j].area >= 0.0 && triggers[j].cx >= 0.0
    ensures GetCoefficients(h, triggers, rho, k1).k1 > 0.0
    ensures GetCoefficients(h, triggers, rho, k1).k2 >= 0.0
  {
    CoefficientsSpec(h, triggers, rho, k1);
    if j :| 0 <= j < |triggers| && h < triggers[j].threshold {
      ChoiceExists(triggers, h, j);
      var i :| IsChoice(triggers, h, i);
      RegimeNonNegative(triggers[i], rho, k1);
    } else {
      BodyRegimeNonNegative(rho, k1);
    }
  }

  lemma BodyRegimeNonNegative(rho: real, k1: LinearDrag)
    requires rho >= 0.0 && k1.body > 0.0
    ensures BodyRegime(rho, k1).k1 > 0.0 && BodyRegime(rho, k1).k2 >= 0.0
  {
    ReferenceAreasApart();
    ProductNonNegative(0.5 * CX_BODY, rho, S_BODY);
  }

  lemma RegimeNonNegative(t: Trigger, rho: real, k1: LinearDrag)
    requires rho >= 0.0 && k1.body > 0.0 && k1.small > 0.0 && k1.large > 0.0
    requires t.area >= 0.0 && t.cx >= 0.0
    ensures TriggerRegime(t, rho, k1).k1 > 0.0 && TriggerRegime(t, rho, k1).k2 >= 0.0
  {
    ProductNonNegative(0.5 * t.cx, rho, t.area);
  }
}
