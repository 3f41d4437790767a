/**
 The fixed weight table shared by the interactive calculator and by the
 standalone `calculate_grade` function: six graded components, each worth a
 fixed fraction of the overall grade.

 Scores and weights are exact `real` numbers. The Python code works on IEEE
 doubles; this model abstracts that away, so every sum below is exact.
 */
module Weights {

  /** The six graded components of the course. */
  datatype Component = Homework | Discussion | Mid1 | Mid2 | Mid3 | Final

  /** The fraction of the overall grade that a component is worth. */
  function Weight(c: Component): (w: real)
    ensures 0.0 < w <= 0.25
  {
    match c
    case Homework => 0.05
    case Discussion => 0.10
    case Mid1 => 0.20
    case Mid2 => 0.20
    case Mid3 => 0.20
    case Final => 0.25
  }

  /** The component at a position of the weight table, in the order both
      `weights` dictionaries list them (calculator.py:82-89, test_calculator.py:10-17). */
  function Tabled(i: nat): Component
    requires i < 6
  {
    match i
    case 0 => Homework
    case 1 => Discussion
    case 2 => Mid1
    case 3 => Mid2
    case 4 => Mid3
    case _ => Final
  }

  /** The position of a component in the weight table: every component is listed, once. */
  function TableRank(c: Component): (i: nat)
    ensures i < 6 && Tabled(i) == c
    ensures forall j: nat :: j < 6 && Tabled(j) == c ==> j == i
  {
    match c
    case Homework => 0
    case Discussion => 1
    case Mid1 => 2
    case Mid2 => 3
    case Mid3 => 4
    case Final => 5
  }

  /** One component's input: its score (a percentage) and whether it has been received. */
  datatype Entry = Entry(score: real, present: bool)

  /** What a component adds to the points earned: score times weight once received. */
  function Points(c: Component, e: Entry): real {
    if e.present then e.score * Weight(c) else 0.0
  }

  /** What a component adds to the weight counted: its weight once received. */
  function Counted(c: Component, e: Entry): real {
    if e.present then Weight(c) else 0.0
  }

  /** A received score in [0, 100] earns between nothing and 100 points per unit of weight. */
  lemma PointsInRange(c: Component, e: Entry)
    requires e.present ==> 0.0 <= e.score <= 100.0
    ensures 0.0 <= Points(c, e) <= 100.0 * Counted(c, e)
  {
    if e.present {
      Scale(e.score, 100.0, Weight(c));
      Scale(0.0, e.score, Weight(c));
    }
  }

  /** The combined weight of the first `n` rows of the weight table. */
  function WeightUpTo(n: nat): real
    requires n <= 6
  {
    if n == 0 then 0.0 else WeightUpTo(n - 1) + Weight(Tabled(n - 1))
  }

  /** The partial sums of the weight table stay within [0, 1], and only the whole table sums to one. */
  lemma WeightsSumToOne(n: nat)
    requires n <= 6
    ensures 0.0 <= WeightUpTo(n) <= 1.0
    ensures WeightUpTo(n) == 1.0 <==> n == 6
  {
  }

  // Facts of real arithmetic. Each holds on its own, but the solver does not
  // find the instance it needs inside the callers' proofs, so they call it.

  lemma Scale(a: real, b: real, r: real)
    requires r > 0.0
    ensures a <= b <==> a * r <= b * r
    ensures a < b <==> a * r < b * r
  {
  }

  lemma Distribute(x: real, a: real, b: real)
    ensures x * a + x * b == x * (a + b)
  {
  }

  /** When `required` points per unit of the remaining weight `rest` lead from
      `earned` to `target`, comparing `required` with a score `bound` is comparing
      what `bound` per unit would lead to with `target`. */
  lemma Reach(earned: real, rest: real, required: real, target: real, bound: real)
    requires rest > 0.0 && earned + required * rest == target
    ensures bound < required <==> earned + bound * rest < target
    ensures required < bound <==> target < earned + bound * rest
  {
    Scale(bound, required, rest);
    Scale(required, bound, rest);
  }

  lemma Cancel(a: real, b: real, r: real)
    requires r > 0.0 && a * r == b * r
    ensures a == b
  {
    Scale(a, b, r);
    Scale(b, a, r);
  }
}
