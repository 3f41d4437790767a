/**
 The standalone `calculate_grade` function and the expected results of its
 print-style test cases. The function receives a dictionary from component
 to `(score, has_grade)` and walks its items in iteration order; the
 dictionary is modelled here as that sequence of items, with distinct keys.
 Line numbers in the comments below refer to test_calculator.py.
 */
module TestCalculator {
  import opened Weights
  import Calculator

  /** A dictionary's items in iteration order: each key with its `(score, has_grade)` value. */
  type Items = seq<(Component, Entry)>

  /** No component appears twice, as in any Python dictionary. */
  predicate DistinctKeys(items: Items) {
    forall i, j :: 0 <= i < j < |items| ==> items[i].0 != items[j].0
  }

  /** The dictionary that a sequence of items describes (a later item overrides an earlier one). */
  function AsMap(items: Items): map<Component, Entry> {
    if items == [] then map[]
    else AsMap(items[..|items| - 1])[items[|items| - 1].0 := items[|items| - 1].1]
  }

  /** Every key of the dictionary comes from one of its items. */
  lemma {:induction false} AsMapKeys(items: Items)
    ensures forall c :: c in AsMap(items) ==> exists i :: 0 <= i < |items| && items[i].0 == c
  {
    if items != [] {
      var p, last := items[..|items| - 1], |items| - 1;
      AsMapKeys(p);
      forall c | c in AsMap(items)
        ensures exists i :: 0 <= i < |items| && items[i].0 == c
      {
        if c == items[last].0 {
          assert items[last].0 == c;
        } else {
          assert c in AsMap(p);
          var i :| 0 <= i < |p| && p[i].0 == c;
          assert items[i] == p[i];
        }
      }
    }
  }

  /** The points the loop has added after the given items: `score * weight` for each one with a grade. */
  function ItemsGrade(items: Items): real {
    if items == [] then 0.0
    else ItemsGrade(items[..|items| - 1]) + Points(items[|items| - 1].0, items[|items| - 1].1)
  }

  /** The weight the loop has added after the given items: the weight of each one with a grade. */
  function ItemsWeight(items: Items): real {
    if items == [] then 0.0
    else ItemsWeight(items[..|items| - 1]) + Counted(items[|items| - 1].0, items[|items| - 1].1)
  }

  /** The points of a dictionary, summed over the first `n` rows of the weight
      table independently of any iteration order. */
  function DictGrade(m: map<Component, Entry>, n: nat): real
    requires n <= 6
  {
    if n == 0 then 0.0
    else DictGrade(m, n - 1) + (if Tabled(n - 1) in m then Points(Tabled(n - 1), m[Tabled(n - 1)]) else 0.0)
  }

  /** The weight of a dictionary, summed over the first `n` rows of the weight table. */
  function DictWeight(m: map<Component, Entry>, n: nat): real
    requires n <= 6
  {
    if n == 0 then 0.0
    else DictWeight(m, n - 1) + (if Tabled(n - 1) in m then Counted(Tabled(n - 1), m[Tabled(n - 1)]) else 0.0)
  }

  /** An empty dictionary has neither points nor weight. */
  lemma {:induction false} DictEmpty(n: nat)
    requires n <= 6
    ensures DictGrade(map[], n) == 0.0 && DictWeight(map[], n) == 0.0
  {
    if n > 0 {
      DictEmpty(n - 1);
    }
  }

  /** Adding a new key adds its share to both sums, when its row is among the first `n`. */
  lemma {:induction false} DictInsert(m: map<Component, Entry>, k: Component, e: Entry, n: nat)
    requires n <= 6 && k !in m
    ensures DictGrade(m[k := e], n) == DictGrade(m, n) + (if TableRank(k) < n then Points(k, e) else 0.0)
    ensures DictWeight(m[k := e], n) == DictWeight(m, n) + (if TableRank(k) < n then Counted(k, e) else 0.0)
  {
    if n > 0 {
      DictInsert(m, k, e, n - 1);
    }
  }

  /** Summing the items in iteration order gives the order-free sums of the dictionary. */
  lemma {:induction false} ItemsMatchDict(items: Items)
    requires DistinctKeys(items)
    ensures ItemsGrade(items) == DictGrade(AsMap(items), 6)
    ensures ItemsWeight(items) == DictWeight(AsMap(items), 6)
  {
    if items == [] {
      DictEmpty(6);
    } else {
      var p, k, e := items[..|items| - 1], items[|items| - 1].0, items[|items| - 1].1;
      assert DistinctKeys(p);
      ItemsMatchDict(p);
      AsMapKeys(p);
      assert forall i :: 0 <= i < |p| ==> p[i].0 != k;
      DictInsert(AsMap(p), k, e, 6);
    }
  }

  /** The result does not depend on the dictionary's iteration order: two item
      sequences describing the same dictionary give the same grade and weight. */
  lemma OrderIrrelevant(items: Items, items': Items)
    requires DistinctKeys(items) && DistinctKeys(items')
    requires AsMap(items) == AsMap(items')
    ensures ItemsGrade(items) == ItemsGrade(items') && ItemsWeight(items) == ItemsWeight(items')
  {
    ItemsMatchDict(items);
    ItemsMatchDict(items');
  }

  /** The weight of a dictionary lies between nothing and the full weight of the
      first `n` rows, and reaches it exactly when each of them is a key with a grade. */
  lemma {:induction false} DictWeightBounds(m: map<Component, Entry>, n: nat)
    requires n <= 6
    ensures 0.0 <= DictWeight(m, n) <= WeightUpTo(n)
    ensures DictWeight(m, n) == WeightUpTo(n) <==>
              forall i: nat :: i < n ==> Tabled(i) in m && m[Tabled(i)].present
  {
    if n > 0 {
      DictWeightBounds(m, n - 1);
    }
  }

  /** The returned weight lies in [0, 1], and is 1 exactly when all six
      components are keys with a grade. */
  lemma WeightInRange(items: Items)
    requires DistinctKeys(items)
    ensures 0.0 <= ItemsWeight(items) <= 1.0
    ensures ItemsWeight(items) == 1.0 <==>
              forall c: Component :: c in AsMap(items) && AsMap(items)[c].present
  {
    ItemsMatchDict(items);
    DictWeightBounds(AsMap(items), 6);
    WeightsSumToOne(6);
    var m := AsMap(items);
    if !(forall c: Component :: c in m && m[c].present) {
      var c :| !(c in m && m[c].present);
      assert Tabled(TableRank(c)) == c;
    }
  }

  /** Every item with a grade has its score in [0, 100]. */
  predicate ScoresInRange(items: Items) {
    forall i :: 0 <= i < |items| && items[i].1.present ==> 0.0 <= items[i].1.score <= 100.0
  }

  /** With scores in [0, 100] the points are between none and 100 per unit of weight. */
  lemma {:induction false} GradeInRange(items: Items)
    requires ScoresInRange(items)
    ensures 0.0 <= ItemsGrade(items) <= 100.0 * ItemsWeight(items)
  {
    if items != [] {
      var p, k, e := items[..|items| - 1], items[|items| - 1].0, items[|items| - 1].1;
      assert ScoresInRange(p) by {
        forall i | 0 <= i < |p| && p[i].1.present
          ensures 0.0 <= p[i].1.score <= 100.0
        {
          assert p[i] == items[i];
        }
      }
      GradeInRange(p);
      PointsInRange(k, e);
      Distribute(100.0, ItemsWeight(p), Counted(k, e));
    }
  }

  /** The percentage returned: the grade spread over the weight when there is
      weight, and 0 otherwise, so that no division by zero happens. */
  function Percentage(grade: real, weight: real): (p: real)
    ensures weight > 0.0 ==> p * weight == grade
    ensures weight <= 0.0 ==> p == 0.0
  {
    if weight > 0.0 then grade / weight else 0.0
  }

  /** With scores in [0, 100] the percentage lies in [0, 100]. */
  lemma PercentageInRange(items: Items)
    requires ScoresInRange(items)
    ensures 0.0 <= Percentage(ItemsGrade(items), ItemsWeight(items)) <= 100.0
  {
    GradeInRange(items);
    var w := ItemsWeight(items);
    if w > 0.0 {
      var p := Percentage(ItemsGrade(items), w);
      assert p * w == ItemsGrade(items);
      Scale(p, 100.0, w);
      Scale(0.0, p, w);
    } else {
      assert Percentage(ItemsGrade(items), w) == 0.0;
    }
  }

  /** `calculate_grade` (lines 1-29): the loop over the items, then the guarded division. */
  method CalculateGrade(items: Items) returns (grade: real, weight: real, percentage: real)
    ensures grade == ItemsGrade(items) && weight == ItemsWeight(items)
    ensures percentage == Percentage(grade, weight)
  {
    grade, weight := 0.0, 0.0;
    var i := 0;
    while i < |items|
      invariant 0 <= i <= |items|
      invariant grade == ItemsGrade(items[..i]) && weight == ItemsWeight(items[..i])
    {
      var (component, entry) := items[i];
      if entry.present {
        grade := grade + entry.score * Weight(component);
        weight := weight + Weight(component);
      }
      assert items[..i + 1][..i] == items[..i];
      i := i + 1;
    }
    assert items[..i] == items;
    if weight > 0.0 {
      percentage := grade / weight;
    } else {
      percentage := 0.0;
    }
  }

  /** The dictionary's sums over the weight table equal the calculator's sums
      on a sheet holding the same entries. */
  lemma {:induction false} DictMatchesSheet(m: map<Component, Entry>, s: Calculator.Sheet, n: nat)
    requires n <= 6
    requires forall c: Component :: c in m && m[c] == s.At(c)
    ensures DictGrade(m, n) == Calculator.GradeUpTo(s, n)
    ensures DictWeight(m, n) == Calculator.CountedUpTo(s, n)
  {
    if n > 0 {
      DictMatchesSheet(m, s, n - 1);
    }
  }

  /** `calculate_grade` and the calculator page agree: given a dictionary with
      the page's six entries, in any order, it returns the page's `current_grade`
      and `total_weight`. */
  lemma AgreesWithCalculator(items: Items, s: Calculator.Sheet)
    requires DistinctKeys(items)
    requires forall c: Component :: c in AsMap(items) && AsMap(items)[c] == s.At(c)
    ensures ItemsGrade(items) == Calculator.CurrentGrade(s)
    ensures ItemsWeight(items) == Calculator.TotalWeight(s)
  {
    ItemsMatchDict(items);
    DictMatchesSheet(AsMap(items), s, 6);
  }

  /** The dictionary of a test case, in the order the test writes it. */
  function Case(homework: Entry, discussion: Entry, mid1: Entry,
                mid2: Entry, mid3: Entry, final: Entry): Items
  {
    [(Homework, homework), (Discussion, discussion), (Mid1, mid1),
     (Mid2, mid2), (Mid3, mid3), (Final, final)]
  }

  /** Appending one item adds its share to both sums. */
  lemma Append(items: Items, c: Component, e: Entry)
    ensures ItemsGrade(items + [(c, e)]) == ItemsGrade(items) + Points(c, e)
    ensures ItemsWeight(items + [(c, e)]) == ItemsWeight(items) + Counted(c, e)
  {
    assert (items + [(c, e)])[..|items|] == items;
  }

  /** A test case's sums, one component after the other. */
  lemma CaseSums(homework: Entry, discussion: Entry, mid1: Entry,
                 mid2: Entry, mid3: Entry, final: Entry)
    ensures ItemsGrade(Case(homework, discussion, mid1, mid2, mid3, final))
         == Points(Homework, homework) + Points(Discussion, discussion) + Points(Mid1, mid1)
            + Points(Mid2, mid2) + Points(Mid3, mid3) + Points(Final, final)
    ensures ItemsWeight(Case(homework, discussion, mid1, mid2, mid3, final))
         == Counted(Homework, homework) + Counted(Discussion, discussion) + Counted(Mid1, mid1)
            + Counted(Mid2, mid2) + Counted(Mid3, mid3) + Counted(Final, final)
  {
    var items: Items := [];
    Append(items, Homework, homework);
    items := items + [(Homework, homework)];
    Append(items, Discussion, discussion);
    items := items + [(Discussion, discussion)];
    Append(items, Mid1, mid1);
    items := items + [(Mid1, mid1)];
    Append(items, Mid2, mid2);
    items := items + [(Mid2, mid2)];
    Append(items, Mid3, mid3);
    items := items + [(Mid3, mid3)];
    Append(items, Final, final);
    items := items + [(Final, final)];
    assert items == Case(homework, discussion, mid1, mid2, mid3, final);
  }

  /** Test case 1 (lines 33-45): all six at 100 give grade 100, weight 1 and percentage 100. */
  lemma AllPerfectScores()
    ensures var items := Case(Entry(100.0, true), Entry(100.0, true), Entry(100.0, true),
                              Entry(100.0, true), Entry(100.0, true), Entry(100.0, true));
            ItemsGrade(items) == 100.0 && ItemsWeight(items) == 1.0
            && Percentage(ItemsGrade(items), ItemsWeight(items)) == 100.0
  {
    CaseSums(Entry(100.0, true), Entry(100.0, true), Entry(100.0, true),
             Entry(100.0, true), Entry(100.0, true), Entry(100.0, true));
  }

  /** Test case 2 (lines 49-61): grade 47, weight 0.55, percentage 47 / 0.55 (about 85.45). */
  lemma FirstTwoMidtermsOnly()
    ensures var items := Case(Entry(100.0, true), Entry(100.0, true), Entry(80.0, true),
                              Entry(80.0, true), Entry(0.0, false), Entry(0.0, false));
            ItemsGrade(items) == 47.0 && ItemsWeight(items) == 0.55
            && Percentage(ItemsGrade(items), ItemsWeight(items)) == 47.0 / 0.55
  {
    CaseSums(Entry(100.0, true), Entry(100.0, true), Entry(80.0, true),
             Entry(80.0, true), Entry(0.0, false), Entry(0.0, false));
  }

  /** Test case 3 (lines 65-77): grade 44, weight 0.55, percentage 80. */
  lemma MixedGradesSomeMissing()
    ensures var items := Case(Entry(90.0, true), Entry(85.0, true), Entry(75.0, true),
                              Entry(80.0, true), Entry(0.0, false), Entry(0.0, false));
            ItemsGrade(items) == 44.0 && ItemsWeight(items) == 0.55
            && Percentage(ItemsGrade(items), ItemsWeight(items)) == 80.0
  {
    CaseSums(Entry(90.0, true), Entry(85.0, true), Entry(75.0, true),
             Entry(80.0, true), Entry(0.0, false), Entry(0.0, false));
  }

  /** Test case 4 (lines 81-93): no grades give grade 0, weight 0 and percentage 0. */
  lemma NoGradesEntered()
    ensures var items := Case(Entry(0.0, false), Entry(0.0, false), Entry(0.0, false),
                              Entry(0.0, false), Entry(0.0, false), Entry(0.0, false));
            ItemsGrade(items) == 0.0 && ItemsWeight(items) == 0.0
            && Percentage(ItemsGrade(items), ItemsWeight(items)) == 0.0
  {
    CaseSums(Entry(0.0, false), Entry(0.0, false), Entry(0.0, false),
             Entry(0.0, false), Entry(0.0, false), Entry(0.0, false));
  }
}
