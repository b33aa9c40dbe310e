/** `calculateMVPandMIP`: the rider who added the most points on the latest
    date (MVP) and the rider with the largest relative gain (MIP), where a
    gain from zero outranks every percentage. */
module Standouts {
  import opened Strings
  import opened Riders

  /** One step of a rider's history, from entry `i - 1` to entry `i`. */
  datatype Step = Step(name: string, date: string, before: real, after: real)
  {
    function Added(): real { after - before }
  }

  datatype Mvp = Mvp(name: string, pointsAdded: real, date: string)

  /** In a record with `fromZero`, `percentageIncrease` holds the points
      gained, as in the script. */
  datatype Mip = Mip(name: string, percentageIncrease: real, date: string, fromZero: bool)

  const NoMvp := Mvp("", 0.0, "")
  const NoMip := Mip("", 0.0, "", false)

  /** The script reads the last entry of every history, so every rider must
      have one. */
  predicate HasHistory(cyclists: seq<Rider>)
  {
    forall i :: 0 <= i < |cyclists| ==> |cyclists[i].pointHistory| > 0
  }

  function LastDate(c: Rider): string
    requires |c.pointHistory| > 0
  {
    c.pointHistory[|c.pointHistory| - 1].date
  }

  /** The `reduce` computing `latestDate`: the greatest last-entry date, as
      strings compare, or '' when there are no riders. */
  function LatestDate(cyclists: seq<Rider>): (d: string)
    requires HasHistory(cyclists)
    ensures forall i :: 0 <= i < |cyclists| ==> !Less(d, LastDate(cyclists[i]))
    ensures d == "" || exists i :: 0 <= i < |cyclists| && d == LastDate(cyclists[i])
  {
    if |cyclists| == 0 then ""
    else
      var p := cyclists[..|cyclists| - 1];
      var latest := LatestDate(p);
      var last := LastDate(cyclists[|cyclists| - 1]);
      if Less(latest, last) then
        assert forall i :: 0 <= i < |p| ==> !Less(last, LastDate(p[i])) by {
          forall i | 0 <= i < |p| ensures !Less(last, LastDate(p[i])) {
            if Less(last, LastDate(p[i])) {
              LessTransitive(latest, last, LastDate(p[i]));
            }
          }
        }
        LessIrreflexive(last);
        last
      else
        latest
  }

  /** The steps of one history up to entry `k`, in the inner loop's order. */
  function HistorySteps(name: string, h: seq<HistoryPoint>, k: nat): seq<Step>
    requires k <= |h|
  {
    if k <= 1 then []
    else HistorySteps(name, h, k - 1) + [Step(name, h[k - 1].date, h[k - 2].points, h[k - 1].points)]
  }

  /** Every step the two nested loops visit, in order. */
  function Steps(cyclists: seq<Rider>): seq<Step>
  {
    if |cyclists| == 0 then []
    else
      var c := cyclists[|cyclists| - 1];
      Steps(cyclists[..|cyclists| - 1]) + HistorySteps(c.name, c.pointHistory, |c.pointHistory|)
  }

  /** The MVP update for one step. */
  function MvpStep(m: Mvp, s: Step, latestDate: string): Mvp
  {
    if s.date == latestDate && s.Added() > m.pointsAdded then Mvp(s.name, s.Added(), s.date) else m
  }

  /** The MVP record after the steps, starting from `m`. */
  function MvpAfter(m: Mvp, steps: seq<Step>, latestDate: string): Mvp
  {
    if |steps| == 0 then m
    else MvpStep(MvpAfter(m, steps[..|steps| - 1], latestDate), steps[|steps| - 1], latestDate)
  }

  function MvpOf(steps: seq<Step>, latestDate: string): Mvp
  {
    MvpAfter(NoMvp, steps, latestDate)
  }

  /** `(pointsAdded / previous) * 100`, evaluated only for a positive
      previous value. */
  function PercentageIncrease(pointsAdded: real, previous: real): real
    requires previous > 0.0
  {
    (pointsAdded / previous) * 100.0
  }

  /** The percentage increase of a step from a positive value. */
  function Growth(s: Step): real
  {
    if s.before > 0.0 then PercentageIncrease(s.Added(), s.before) else 0.0
  }

  predicate IsZeroJump(s: Step)
  {
    s.before == 0.0 && s.after > 0.0
  }

  /** The MIP update for one step. */
  function MipStep(m: Mip, s: Step): Mip
  {
    if IsZeroJump(s) then
      if !m.fromZero || s.Added() > m.percentageIncrease then Mip(s.name, s.Added(), s.date, true) else m
    else if s.before > 0.0 then
      var percentageIncrease := PercentageIncrease(s.Added(), s.before);
      if percentageIncrease > m.percentageIncrease && !m.fromZero then Mip(s.name, percentageIncrease, s.date, false)
      else m
    else m
  }

  /** The MIP record after the steps, starting from `m`. */
  function MipAfter(m: Mip, steps: seq<Step>): Mip
  {
    if |steps| == 0 then m else MipStep(MipAfter(m, steps[..|steps| - 1]), steps[|steps| - 1])
  }

  function MipOf(steps: seq<Step>): Mip
  {
    MipAfter(NoMip, steps)
  }

  lemma {:induction false} MvpAfterAppend(m: Mvp, a: seq<Step>, b: seq<Step>, latestDate: string)
    ensures MvpAfter(m, a + b, latestDate) == MvpAfter(MvpAfter(m, a, latestDate), b, latestDate)
  {
    if |b| == 0 {
      assert a + b == a;
    } else {
      assert (a + b)[..|a + b| - 1] == a + b[..|b| - 1];
      MvpAfterAppend(m, a, b[..|b| - 1], latestDate);
    }
  }

  lemma {:induction false} MipAfterAppend(m: Mip, a: seq<Step>, b: seq<Step>)
    ensures MipAfter(m, a + b) == MipAfter(MipAfter(m, a), b)
  {
    if |b| == 0 {
      assert a + b == a;
    } else {
      assert (a + b)[..|a + b| - 1] == a + b[..|b| - 1];
      MipAfterAppend(m, a, b[..|b| - 1]);
    }
  }

  /** The nested loops of `calculateMVPandMIP`. */
  method CalculateMvpAndMip(cyclists: seq<Rider>) returns (mvp: Mvp, mip: Mip)
    requires HasHistory(cyclists)
    ensures mvp == MvpOf(Steps(cyclists), LatestDate(cyclists))
    ensures mip == MipOf(Steps(cyclists))
  {
    mvp, mip := NoMvp, NoMip;
    var latestDate := LatestDate(cyclists);
    var c := 0;
    while c < |cyclists|
      invariant 0 <= c <= |cyclists|
      invariant mvp == MvpOf(Steps(cyclists[..c]), latestDate)
      invariant mip == MipOf(Steps(cyclists[..c]))
    {
      var cyclist := cyclists[c];
      ghost var done := Steps(cyclists[..c]);
      ghost var own := HistorySteps(cyclist.name, cyclist.pointHistory, |cyclist.pointHistory|);
      MvpAfterAppend(NoMvp, done, own, latestDate);
      MipAfterAppend(NoMip, done, own);
      assert cyclists[..c + 1][..c] == cyclists[..c];
      mvp, mip := ScanHistory(cyclist.name, cyclist.pointHistory, latestDate, mvp, mip);
      c := c + 1;
    }
    assert cyclists[..c] == cyclists;
  }

  /** The `forEach` callback: the inner loop over one rider's history,
      updating the two records. */
  method ScanHistory(name: string, history: seq<HistoryPoint>, latestDate: string, mvp0: Mvp, mip0: Mip)
    returns (mvp: Mvp, mip: Mip)
    requires |history| > 0
    ensures mvp == MvpAfter(mvp0, HistorySteps(name, history, |history|), latestDate)
    ensures mip == MipAfter(mip0, HistorySteps(name, history, |history|))
  {
    mvp, mip := mvp0, mip0;
    var i := 1;
    while i < |history|
      invariant 1 <= i <= |history|
      invariant mvp == MvpAfter(mvp0, HistorySteps(name, history, i), latestDate)
      invariant mip == MipAfter(mip0, HistorySteps(name, history, i))
    {
      ScanStep(name, history, i, latestDate, mvp0, mip0);
      mvp := UpdateMvp(mvp, name, history[i - 1], history[i], latestDate);
      mip := UpdateMip(mip, name, history[i - 1], history[i]);
      i := i + 1;
    }
  }

  /** The MVP test of the inner loop for the entries `previous, current`. */
  method UpdateMvp(mvp: Mvp, name: string, previous: HistoryPoint, current: HistoryPoint, latestDate: string)
    returns (r: Mvp)
    ensures r == MvpStep(mvp, Step(name, current.date, previous.points, current.points), latestDate)
  {
    r := mvp;
    var pointsAdded := current.points - previous.points;
    if current.date == latestDate && pointsAdded > mvp.pointsAdded {
      r := Mvp(name, pointsAdded, current.date);
    }
  }

  /** The MIP tests of the inner loop for the entries `previous, current`. */
  method UpdateMip(mip: Mip, name: string, previous: HistoryPoint, current: HistoryPoint)
    returns (r: Mip)
    ensures r == MipStep(mip, Step(name, current.date, previous.points, current.points))
  {
    r := mip;
    var pointsAdded := current.points - previous.points;
    if previous.points == 0.0 && current.points > 0.0 {
      if mip.fromZero == false || pointsAdded > mip.percentageIncrease {
        r := Mip(name, pointsAdded, current.date, true);
      }
    } else if previous.points > 0.0 {
      var percentageIncrease := PercentageIncrease(pointsAdded, previous.points);
      if percentageIncrease > mip.percentageIncrease && !mip.fromZero {
        r := Mip(name, percentageIncrease, current.date, false);
      }
    }
  }

  /** One more entry of a history adds one step to each fold. */
  lemma ScanStep(name: string, history: seq<HistoryPoint>, i: nat, latestDate: string, mvp0: Mvp, mip0: Mip)
    requires 1 <= i < |history|
    ensures MvpAfter(mvp0, HistorySteps(name, history, i + 1), latestDate) ==
      MvpStep(MvpAfter(mvp0, HistorySteps(name, history, i), latestDate),
        Step(name, history[i].date, history[i - 1].points, history[i].points), latestDate)
    ensures MipAfter(mip0, HistorySteps(name, history, i + 1)) ==
      MipStep(MipAfter(mip0, HistorySteps(name, history, i)),
        Step(name, history[i].date, history[i - 1].points, history[i].points))
  {
    var seen := HistorySteps(name, history, i);
    var s := Step(name, history[i].date, history[i - 1].points, history[i].points);
    assert HistorySteps(name, history, i + 1) == seen + [s];
    assert (seen + [s])[..|seen|] == seen;
  }

  /** Once a jump from zero is recorded the record stays a jump from zero
      and its points never decrease; steps that are not jumps from zero
      leave it exactly as it is. */
  lemma {:induction false} FromZeroIsKept(m: Mip, steps: seq<Step>)
    requires m.fromZero
    ensures MipAfter(m, steps).fromZero
    ensures MipAfter(m, steps).percentageIncrease >= m.percentageIncrease
    ensures (forall j :: 0 <= j < |steps| ==> !IsZeroJump(steps[j])) ==> MipAfter(m, steps) == m
  {
    if |steps| > 0 {
      FromZeroIsKept(m, steps[..|steps| - 1]);
    }
  }

  /** Which steps compete for a record, and by what score. */
  datatype Contest = OnDate(date: string) | FromZero | Percentage

  predicate Eligible(contest: Contest, s: Step)
  {
    match contest
    case OnDate(d) => s.date == d
    case FromZero => IsZeroJump(s)
    case Percentage => s.before > 0.0
  }

  function Score(contest: Contest, s: Step): real
  {
    if contest.Percentage? then Growth(s) else s.Added()
  }

  /** Step `i` is eligible with a positive score, no eligible step scores
      higher, and every earlier eligible step scores strictly lower. */
  ghost predicate IsFirstBest(steps: seq<Step>, contest: Contest, i: int)
  {
    && 0 <= i < |steps|
    && Eligible(contest, steps[i]) && Score(contest, steps[i]) > 0.0
    && (forall j :: 0 <= j < |steps| && Eligible(contest, steps[j]) ==> Score(contest, steps[j]) <= Score(contest, steps[i]))
    && (forall j :: 0 <= j < i && Eligible(contest, steps[j]) ==> Score(contest, steps[j]) < Score(contest, steps[i]))
  }

  /** No eligible step has a positive score. */
  ghost predicate NonePositive(steps: seq<Step>, contest: Contest)
  {
    forall j :: 0 <= j < |steps| && Eligible(contest, steps[j]) ==> Score(contest, steps[j]) <= 0.0
  }

  /** A new step that beats every earlier eligible step with a positive
      score is the new first best. */
  lemma BestIsNew(p: seq<Step>, x: Step, contest: Contest)
    requires Eligible(contest, x) && Score(contest, x) > 0.0
    requires forall j :: 0 <= j < |p| && Eligible(contest, p[j]) ==> Score(contest, p[j]) < Score(contest, x)
    ensures IsFirstBest(p + [x], contest, |p|)
  {
    assert forall j :: 0 <= j < |p| ==> (p + [x])[j] == p[j];
  }

  /** A new step that does not beat the first best leaves it in place. */
  lemma BestIsKept(p: seq<Step>, x: Step, contest: Contest, i: int)
    requires IsFirstBest(p, contest, i)
    requires Eligible(contest, x) ==> Score(contest, x) <= Score(contest, p[i])
    ensures IsFirstBest(p + [x], contest, i)
  {
    assert forall j :: 0 <= j < |p| ==> (p + [x])[j] == p[j];
  }

  /** A new step without a positive eligible score keeps all scores
      non-positive. */
  lemma NoneIsKept(p: seq<Step>, x: Step, contest: Contest)
    requires NonePositive(p, contest)
    requires Eligible(contest, x) ==> Score(contest, x) <= 0.0
    ensures NonePositive(p + [x], contest)
  {
    assert forall j :: 0 <= j < |p| ==> (p + [x])[j] == p[j];
  }

  /** The MVP is the first step on the latest date with the strictly largest
      positive gain, or the empty record when no step on that date gained. */
  lemma {:induction false} MvpIsFirstLargestGain(steps: seq<Step>, latestDate: string)
    ensures var m := MvpOf(steps, latestDate);
      || (NonePositive(steps, OnDate(latestDate)) && m == NoMvp)
      || (exists i :: IsFirstBest(steps, OnDate(latestDate), i) && m == Mvp(steps[i].name, steps[i].Added(), steps[i].date))
  {
    if |steps| > 0 {
      var p, x := steps[..|steps| - 1], steps[|steps| - 1];
      assert steps == p + [x];
      var contest := OnDate(latestDate);
      MvpIsFirstLargestGain(p, latestDate);
      var m := MvpOf(p, latestDate);
      if NonePositive(p, contest) && m == NoMvp {
        if Eligible(contest, x) && x.Added() > 0.0 {
          BestIsNew(p, x, contest);
        } else {
          NoneIsKept(p, x, contest);
        }
      } else {
        var i :| IsFirstBest(p, contest, i) && m == Mvp(p[i].name, p[i].Added(), p[i].date);
        if Eligible(contest, x) && x.Added() > m.pointsAdded {
          BestIsNew(p, x, contest);
        } else {
          BestIsKept(p, x, contest, i);
        }
      }
    }
  }

  /** Some step jumps from zero. */
  ghost predicate AnyZeroJump(steps: seq<Step>)
  {
    exists j :: 0 <= j < |steps| && IsZeroJump(steps[j])
  }

  /** The MIP: when some step jumps from zero to a positive value, the first
      such step with the strictly largest gain in points, flagged `fromZero`
      (percentage steps never displace it); otherwise the first step with the
      strictly largest positive percentage increase from a positive value, or
      the empty record when there is none. */
  lemma {:induction false} MipIsFirstLargestIncrease(steps: seq<Step>)
    ensures AnyZeroJump(steps) ==>
      exists i :: IsFirstBest(steps, FromZero, i) && MipOf(steps) == Mip(steps[i].name, steps[i].Added(), steps[i].date, true)
    ensures !AnyZeroJump(steps) ==>
      || (NonePositive(steps, Percentage) && MipOf(steps) == NoMip)
      || (exists i :: IsFirstBest(steps, Percentage, i) && MipOf(steps) == Mip(steps[i].name, Growth(steps[i]), steps[i].date, false))
  {
    if |steps| > 0 {
      var p, x := steps[..|steps| - 1], steps[|steps| - 1];
      assert steps == p + [x];
      MipIsFirstLargestIncrease(p);
      var m := MipOf(p);
      if AnyZeroJump(p) {
        var i :| IsFirstBest(p, FromZero, i) && m == Mip(p[i].name, p[i].Added(), p[i].date, true);
        if IsZeroJump(x) && x.Added() > m.percentageIncrease {
          BestIsNew(p, x, FromZero);
        } else {
          BestIsKept(p, x, FromZero, i);
        }
        assert AnyZeroJump(steps) by {
          assert steps[i] == p[i];
        }
      } else if IsZeroJump(x) {
        BestIsNew(p, x, FromZero);
        assert IsZeroJump(steps[|p|]);
      } else {
        assert !AnyZeroJump(steps) by {
          assert forall j :: 0 <= j < |p| ==> steps[j] == p[j];
        }
        if NonePositive(p, Percentage) && m == NoMip {
          if x.before > 0.0 && Growth(x) > 0.0 {
            BestIsNew(p, x, Percentage);
          } else {
            NoneIsKept(p, x, Percentage);
          }
        } else {
          var i :| IsFirstBest(p, Percentage, i) && m == Mip(p[i].name, Growth(p[i]), p[i].date, false);
          if x.before > 0.0 && Growth(x) > m.percentageIncrease {
            BestIsNew(p, x, Percentage);
          } else {
            BestIsKept(p, x, Percentage, i);
          }
        }
      }
    }
  }
}
