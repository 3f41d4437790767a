/**
 The interactive grade calculator: from the six (score, received) inputs it
 accumulates the points earned and the weight counted, reports the average
 over the received work, and predicts the average needed on the remaining
 work to reach a target overall grade.

 The form widgets are not modelled: their values are the parameters here.
 Line numbers in the comments below refer to calculator.py.
 */
module Calculator {
  import opened Weights

  /** The six form inputs: a score and a "I have this grade" tick per component. */
  datatype Sheet = Sheet(homework: Entry, discussion: Entry, mid1: Entry,
                         mid2: Entry, mid3: Entry, finalExam: Entry)
  {
    function At(c: Component): Entry {
      match c
      case Homework => homework
      case Discussion => discussion
      case Mid1 => mid1
      case Mid2 => mid2
      case Mid3 => mid3
      case Final => finalExam
    }
  }

  /** Every component has been ticked. */
  predicate AllReceived(s: Sheet) {
    forall c: Component :: s.At(c).present
  }

  /** Every received score lies in [0, 100], as the number inputs enforce. */
  predicate ScoresInRange(s: Sheet) {
    forall c: Component :: s.At(c).present ==> 0.0 <= s.At(c).score <= 100.0
  }

  /** Two sheets tick the same components and agree on the scores of the ticked ones. */
  predicate SameReceived(s: Sheet, s': Sheet) {
    forall c: Component :: s.At(c).present == s'.At(c).present &&
                           (s.At(c).present ==> s.At(c).score == s'.At(c).score)
  }

  /** The points earned on the first `n` rows of the weight table: score times
      weight for each ticked component. */
  function GradeUpTo(s: Sheet, n: nat): real
    requires n <= 6
  {
    if n == 0 then 0.0 else GradeUpTo(s, n - 1) + Points(Tabled(n - 1), s.At(Tabled(n - 1)))
  }

  /** The weight counted on the first `n` rows of the weight table: the weight of each ticked component. */
  function CountedUpTo(s: Sheet, n: nat): real
    requires n <= 6
  {
    if n == 0 then 0.0 else CountedUpTo(s, n - 1) + Counted(Tabled(n - 1), s.At(Tabled(n - 1)))
  }

  /** `current_grade` once every component has been looked at. */
  function CurrentGrade(s: Sheet): real {
    GradeUpTo(s, 6)
  }

  /** `total_weight` once every component has been looked at. */
  function TotalWeight(s: Sheet): real {
    CountedUpTo(s, 6)
  }

  /** The guarded updates of the two accumulators (lines 92-109), one component
      after the other in table order. */
  method Accumulate(s: Sheet) returns (currentGrade: real, totalWeight: real)
    ensures currentGrade == CurrentGrade(s)
    ensures totalWeight == TotalWeight(s)
  {
    currentGrade, totalWeight := 0.0, 0.0;
    if s.homework.present {
      currentGrade := currentGrade + s.homework.score * Weight(Homework);
      totalWeight := totalWeight + Weight(Homework);
    }
    assert currentGrade == GradeUpTo(s, 1) && totalWeight == CountedUpTo(s, 1);
    if s.discussion.present {
      currentGrade := currentGrade + s.discussion.score * Weight(Discussion);
      totalWeight := totalWeight + Weight(Discussion);
    }
    assert currentGrade == GradeUpTo(s, 2) && totalWeight == CountedUpTo(s, 2);
    if s.mid1.present {
      currentGrade := currentGrade + s.mid1.score * Weight(Mid1);
      totalWeight := totalWeight + Weight(Mid1);
    }
    assert currentGrade == GradeUpTo(s, 3) && totalWeight == CountedUpTo(s, 3);
    if s.mid2.present {
      currentGrade := currentGrade + s.mid2.score * Weight(Mid2);
      totalWeight := totalWeight + Weight(Mid2);
    }
    assert currentGrade == GradeUpTo(s, 4) && totalWeight == CountedUpTo(s, 4);
    if s.mid3.present {
      currentGrade := currentGrade + s.mid3.score * Weight(Mid3);
      totalWeight := totalWeight + Weight(Mid3);
    }
    assert currentGrade == GradeUpTo(s, 5) && totalWeight == CountedUpTo(s, 5);
    if s.finalExam.present {
      currentGrade := currentGrade + s.finalExam.score * Weight(Final);
      totalWeight := totalWeight + Weight(Final);
    }
  }

  /** The weight counted on the first `n` rows lies between nothing and their
      full weight, and reaches the full weight exactly when all of them are ticked. */
  lemma {:induction false} CountedUpToBounds(s: Sheet, n: nat)
    requires n <= 6
    ensures 0.0 <= CountedUpTo(s, n) <= WeightUpTo(n)
    ensures CountedUpTo(s, n) == WeightUpTo(n) <==> forall i: nat :: i < n ==> s.At(Tabled(i)).present
  {
    if n > 0 {
      CountedUpToBounds(s, n - 1);
    }
  }

  /** `total_weight` lies in [0, 1] and equals 1 exactly when all six components were received. */
  lemma TotalWeightBounds(s: Sheet)
    ensures 0.0 <= TotalWeight(s) <= 1.0
    ensures TotalWeight(s) == 1.0 <==> AllReceived(s)
  {
    CountedUpToBounds(s, 6);
    WeightsSumToOne(6);
    if !AllReceived(s) {
      var c :| !s.At(c).present;
      assert Tabled(TableRank(c)) == c;
    }
  }

  /** With every ticked score in [0, 100], the first `n` rows earn between no
      points and 100 per unit of counted weight. */
  lemma {:induction false} GradeUpToBounds(s: Sheet, n: nat)
    requires n <= 6
    requires ScoresInRange(s)
    ensures 0.0 <= GradeUpTo(s, n) <= 100.0 * CountedUpTo(s, n)
  {
    if n > 0 {
      GradeUpToBounds(s, n - 1);
      var c := Tabled(n - 1);
      PointsInRange(c, s.At(c));
      Distribute(100.0, CountedUpTo(s, n - 1), Counted(c, s.At(c)));
    }
  }

  /** With every received score in [0, 100], the points earned are between none
      and 100 per unit of counted weight. */
  lemma CurrentGradeBounds(s: Sheet)
    requires ScoresInRange(s)
    ensures 0.0 <= CurrentGrade(s) <= 100.0 * TotalWeight(s)
  {
    GradeUpToBounds(s, 6);
  }

  /** On the first `n` rows, the scores of components that were not ticked have no effect. */
  lemma {:induction false} UpToIgnoresUnreceived(s: Sheet, s': Sheet, n: nat)
    requires n <= 6
    requires SameReceived(s, s')
    ensures GradeUpTo(s, n) == GradeUpTo(s', n) && CountedUpTo(s, n) == CountedUpTo(s', n)
  {
    if n > 0 {
      UpToIgnoresUnreceived(s, s', n - 1);
    }
  }

  /** The scores of components that were not ticked have no effect on either sum. */
  lemma UnreceivedScoresIgnored(s: Sheet, s': Sheet)
    requires SameReceived(s, s')
    ensures CurrentGrade(s) == CurrentGrade(s') && TotalWeight(s) == TotalWeight(s')
  {
    UpToIgnoresUnreceived(s, s', 6);
  }

  /** The average over the received work (lines 112-129): there is one only
      when some weight was counted. */
  datatype Progress = NoGradeYet | Progress(average: real)

  /** The guarded division: it happens only when some weight was counted, and
      the average then spreads the points evenly over that weight. */
  function CurrentAverage(currentGrade: real, totalWeight: real): (p: Progress)
    ensures p.Progress? <==> totalWeight > 0.0
    ensures p.Progress? ==> p.average * totalWeight == currentGrade
  {
    if totalWeight > 0.0 then Progress(currentGrade / totalWeight) else NoGradeYet
  }

  /** With scores in [0, 100] the current average lies in [0, 100] as well. */
  lemma AverageInRange(s: Sheet)
    requires ScoresInRange(s)
    ensures var p := CurrentAverage(CurrentGrade(s), TotalWeight(s));
            p.Progress? ==> 0.0 <= p.average <= 100.0
  {
    CurrentGradeBounds(s);
    var p := CurrentAverage(CurrentGrade(s), TotalWeight(s));
    if p.Progress? {
      Scale(p.average, 100.0, TotalWeight(s));
      Scale(0.0, p.average, TotalWeight(s));
    }
  }

  /** The component at a position of the list of remaining assignments (lines 146-152). */
  function Listed(i: nat): Component
    requires i < 6
  {
    match i
    case 0 => Mid3
    case 1 => Final
    case 2 => Homework
    case 3 => Discussion
    case 4 => Mid1
    case _ => Mid2
  }

  /** The position of a component in that list. */
  function ListingRank(c: Component): (i: nat)
    ensures i < 6 && Listed(i) == c
    ensures forall j: nat :: j < 6 && Listed(j) == c ==> j == i
  {
    match c
    case Mid3 => 0
    case Final => 1
    case Homework => 2
    case Discussion => 3
    case Mid1 => 4
    case Mid2 => 5
  }

  /** The unticked components among the first `n` of the list, in list order. */
  function UnreceivedAmong(s: Sheet, n: nat): seq<Component>
    requires n <= 6
  {
    if n == 0 then []
    else UnreceivedAmong(s, n - 1) + (if s.At(Listed(n - 1)).present then [] else [Listed(n - 1)])
  }

  /** The remaining assignments as the page lists them. */
  function Unreceived(s: Sheet): seq<Component> {
    UnreceivedAmong(s, 6)
  }

  /** Among the first `n` of the list, exactly the unticked components appear, each once, in list order. */
  lemma {:induction false} UnreceivedAmongExactly(s: Sheet, n: nat)
    requires n <= 6
    ensures forall c :: c in UnreceivedAmong(s, n) <==> ListingRank(c) < n && !s.At(c).present
    ensures forall i, j :: 0 <= i < j < |UnreceivedAmong(s, n)| ==>
              ListingRank(UnreceivedAmong(s, n)[i]) < ListingRank(UnreceivedAmong(s, n)[j])
  {
    if n > 0 {
      UnreceivedAmongExactly(s, n - 1);
      var last := Listed(n - 1);
      assert ListingRank(last) == n - 1 by {
        match last { case _ => }
      }
    }
  }

  /** The remaining assignments are exactly the unticked components, each
      listed once, in the order of lines 146-152. */
  lemma UnreceivedExactly(s: Sheet)
    ensures forall c :: c in Unreceived(s) <==> !s.At(c).present
    ensures forall i, j :: 0 <= i < j < |Unreceived(s)| ==>
              ListingRank(Unreceived(s)[i]) < ListingRank(Unreceived(s)[j])
  {
    UnreceivedAmongExactly(s, 6);
  }

  /** Which components are listed depends only on the ticks. */
  lemma {:induction false} UnreceivedAmongIgnoresScores(s: Sheet, s': Sheet, n: nat)
    requires n <= 6
    requires forall c: Component :: s.At(c).present == s'.At(c).present
    ensures UnreceivedAmong(s, n) == UnreceivedAmong(s', n)
  {
    if n > 0 {
      UnreceivedAmongIgnoresScores(s, s', n - 1);
    }
  }

  /** Builds the list of remaining assignments by appending each unticked one. */
  method ListRemaining(s: Sheet) returns (remaining: seq<Component>)
    ensures remaining == Unreceived(s)
  {
    remaining := [];
    if !s.mid3.present { remaining := remaining + [Mid3]; }
    assert remaining == UnreceivedAmong(s, 1);
    if !s.finalExam.present { remaining := remaining + [Final]; }
    assert remaining == UnreceivedAmong(s, 2);
    if !s.homework.present { remaining := remaining + [Homework]; }
    assert remaining == UnreceivedAmong(s, 3);
    if !s.discussion.present { remaining := remaining + [Discussion]; }
    assert remaining == UnreceivedAmong(s, 4);
    if !s.mid1.present { remaining := remaining + [Mid1]; }
    assert remaining == UnreceivedAmong(s, 5);
    if !s.mid2.present { remaining := remaining + [Mid2]; }
  }

  /** What the prediction section reports. The first three carry the required
      average and the remaining assignments; `NothingLeft` is the `else` at
      lines 168-169, taken when some weight is missing but none remains, where
      the page reports the target as already met; `AllEntered` is the
      comparison at lines 171-177. */
  datatype Outlook =
    | Impossible(required: real, remaining: seq<Component>)
    | AlreadyMet(required: real, remaining: seq<Component>)
    | Achievable(required: real, remaining: seq<Component>)
    | NothingLeft
    | AllEntered(meetsTarget: bool)
  {
    predicate HasRequired() {
      Impossible? || AlreadyMet? || Achievable?
    }
  }

  /** The three-way verdict on a required average (lines 159-166): exhaustive and exclusive. */
  function Classify(required: real, remaining: seq<Component>): (o: Outlook)
    ensures o.HasRequired() && o.required == required && o.remaining == remaining
    ensures o.Impossible? <==> required > 100.0
    ensures o.AlreadyMet? <==> required < 0.0
    ensures o.Achievable? <==> 0.0 <= required <= 100.0
  {
    if required > 100.0 then Impossible(required, remaining)
    else if required < 0.0 then AlreadyMet(required, remaining)
    else Achievable(required, remaining)
  }

  /** An entry as it would be after scoring `x` on it, if it is still to come. */
  function FillEntry(e: Entry, x: real): Entry {
    if e.present then e else Entry(x, true)
  }

  /** The sheet after scoring `x` on every remaining component. */
  function Fill(s: Sheet, x: real): (f: Sheet)
    ensures forall c: Component :: f.At(c) == FillEntry(s.At(c), x)
  {
    Sheet(FillEntry(s.homework, x), FillEntry(s.discussion, x), FillEntry(s.mid1, x),
          FillEntry(s.mid2, x), FillEntry(s.mid3, x), FillEntry(s.finalExam, x))
  }

  /** The weight of the unticked components among the first `n` rows of the weight table. */
  function MissingUpTo(s: Sheet, n: nat): real
    requires n <= 6
  {
    if n == 0 then 0.0 else MissingUpTo(s, n - 1) + (Weight(Tabled(n - 1)) - Counted(Tabled(n - 1), s.At(Tabled(n - 1))))
  }

  /** The missing weight is the full weight less the counted weight. */
  lemma {:induction false} MissingUpToIsRest(s: Sheet, n: nat)
    requires n <= 6
    ensures MissingUpTo(s, n) == WeightUpTo(n) - CountedUpTo(s, n)
  {
    if n > 0 {
      MissingUpToIsRest(s, n - 1);
    }
  }

  /** What scoring `x` on every component still to come adds to the points of the first `n` rows. */
  function GainUpTo(s: Sheet, x: real, n: nat): real
    requires n <= 6
  {
    if n == 0 then 0.0
    else GainUpTo(s, x, n - 1) + (if s.At(Tabled(n - 1)).present then 0.0 else x * Weight(Tabled(n - 1)))
  }

  /** The gain is `x` points per unit of missing weight. */
  lemma {:induction false} GainIsShare(s: Sheet, x: real, n: nat)
    requires n <= 6
    ensures GainUpTo(s, x, n) == x * MissingUpTo(s, n)
  {
    if n > 0 {
      GainIsShare(s, x, n - 1);
      var c := Tabled(n - 1);
      var more := Weight(c) - Counted(c, s.At(c));
      assert x * more == (if s.At(c).present then 0.0 else x * Weight(c));
      Distribute(x, MissingUpTo(s, n - 1), more);
    }
  }

  /** On the first `n` rows, scoring `x` on every component still to come
      completes their weight and adds the gain to the points. */
  lemma {:induction false} FillUpTo(s: Sheet, x: real, n: nat)
    requires n <= 6
    ensures CountedUpTo(Fill(s, x), n) == WeightUpTo(n)
    ensures GradeUpTo(Fill(s, x), n) == GradeUpTo(s, n) + GainUpTo(s, x, n)
  {
    if n > 0 {
      FillUpTo(s, x, n - 1);
      var c := Tabled(n - 1);
      assert Fill(s, x).At(c) == FillEntry(s.At(c), x);
    }
  }

  /** Scoring `x` on every remaining component completes the weight and adds
      `x` points per unit of remaining weight. */
  lemma FillCompletes(s: Sheet, x: real)
    ensures TotalWeight(Fill(s, x)) == 1.0
    ensures CurrentGrade(Fill(s, x)) == CurrentGrade(s) + x * (1.0 - TotalWeight(s))
  {
    FillUpTo(s, x, 6);
    GainIsShare(s, x, 6);
    MissingUpToIsRest(s, 6);
    WeightsSumToOne(6);
  }

  /** The whole prediction section (lines 131-177) as a function of the inputs. */
  function Outcome(s: Sheet, target: real): (o: Outlook)
    ensures o != NothingLeft
    ensures o.AllEntered? <==> AllReceived(s)
    ensures o.AllEntered? ==> (o.meetsTarget <==> CurrentGrade(s) >= target)
    ensures o.HasRequired() ==> TotalWeight(s) < 1.0
    ensures o.HasRequired() ==> CurrentGrade(s) + o.required * (1.0 - TotalWeight(s)) == target
    ensures o.HasRequired() ==> o.remaining == Unreceived(s)
  {
    TotalWeightBounds(s);
    var currentGrade, totalWeight := CurrentGrade(s), TotalWeight(s);
    if totalWeight < 1.0 then
      var remainingWeight := 1.0 - totalWeight;
      var pointsNeeded := target - currentGrade;
      if remainingWeight > 0.0 then
        Classify(pointsNeeded / remainingWeight, Unreceived(s))
      else
        NothingLeft
    else
      AllEntered(currentGrade >= target)
  }

  /** Round trip: scoring the required average on every remaining component
      lands the overall grade exactly on the target. */
  lemma RequiredReachesTarget(s: Sheet, target: real)
    ensures var o := Outcome(s, target);
            o.HasRequired() ==> CurrentGrade(Fill(s, o.required)) == target
  {
    var o := Outcome(s, target);
    if o.HasRequired() {
      FillCompletes(s, o.required);
    }
  }

  /** The required average is the one and only score that, earned on every
      remaining component, lands the overall grade exactly on the target. */
  lemma RequiredIsUnique(s: Sheet, target: real, x: real)
    requires !AllReceived(s)
    requires CurrentGrade(Fill(s, x)) == target
    ensures Outcome(s, target).HasRequired() && Outcome(s, target).required == x
  {
    var o := Outcome(s, target);
    TotalWeightBounds(s);
    FillCompletes(s, x);
    FillCompletes(s, o.required);
    Cancel(x, o.required, 1.0 - TotalWeight(s));
  }

  /** "Impossible" exactly when even 100 on every remaining component falls short of the target. */
  lemma ImpossibleIffOutOfReach(s: Sheet, target: real)
    ensures Outcome(s, target).Impossible?
        <==> !AllReceived(s) && CurrentGrade(Fill(s, 100.0)) < target
  {
    var o := Outcome(s, target);
    TotalWeightBounds(s);
    if !AllReceived(s) {
      RequiredReachesTarget(s, target);
      FillCompletes(s, o.required);
      FillCompletes(s, 100.0);
      Reach(CurrentGrade(s), 1.0 - TotalWeight(s), o.required, target, 100.0);
    }
  }

  /** "Already met" exactly when work remains and the points earned so far
      exceed the target. */
  lemma AlreadyMetIffAhead(s: Sheet, target: real)
    ensures Outcome(s, target).AlreadyMet?
        <==> !AllReceived(s) && target < CurrentGrade(s)
  {
    var o := Outcome(s, target);
    TotalWeightBounds(s);
    if !AllReceived(s) {
      RequiredReachesTarget(s, target);
      FillCompletes(s, o.required);
      Reach(CurrentGrade(s), 1.0 - TotalWeight(s), o.required, target, 0.0);
    }
  }

  /** The prediction depends only on the ticked components and their scores. */
  lemma OutcomeIgnoresUnreceived(s: Sheet, s': Sheet, target: real)
    requires SameReceived(s, s')
    ensures Outcome(s, target) == Outcome(s', target)
  {
    UnreceivedScoresIgnored(s, s');
    UnreceivedAmongIgnoresScores(s, s', 6);
  }

  /** Lines 78-177: accumulate, report the average, then predict. */
  method Evaluate(s: Sheet, target: real)
    returns (currentGrade: real, totalWeight: real, progress: Progress, outlook: Outlook)
    ensures currentGrade == CurrentGrade(s) && totalWeight == TotalWeight(s)
    ensures progress == CurrentAverage(currentGrade, totalWeight)
    ensures outlook == Outcome(s, target)
  {
    currentGrade, totalWeight := Accumulate(s);
    progress := CurrentAverage(currentGrade, totalWeight);
    if totalWeight < 1.0 {
      var remainingWeight := 1.0 - totalWeight;
      var pointsNeeded := target - currentGrade;
      if remainingWeight > 0.0 {
        var required := pointsNeeded / remainingWeight;
        var remaining := ListRemaining(s);
        outlook := Classify(required, remaining);
      } else {
        outlook := NothingLeft;
      }
    } else {
      outlook := AllEntered(currentGrade >= target);
    }
  }
}
