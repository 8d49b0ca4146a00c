/** The grade ladder and the two-decimal rounding shared by the stats calculators
    of the frontend (App.jsx, StudentList.jsx) and of the Java backend
    (Student.java). */
module Grading {

  /** The grades from lowest to highest. */
  const Ladder: seq<string> := ["F", "D", "C", "B", "A", "A+"]

  /** The inclusive lower bounds of D, C, B, A and A+. */
  const Thresholds: seq<real> := [50.0, 60.0, 70.0, 80.0, 90.0]

  /** How many of the thresholds `ts` the percentage `p` reaches. */
  function Reached(p: real, ts: seq<real>): (n: nat)
    ensures n <= |ts|
  {
    if ts == [] then 0 else (if ts[0] <= p then 1 else 0) + Reached(p, ts[1..])
  }

  /** The if-chain of the source, first match wins: >= 90 "A+", >= 80 "A",
      >= 70 "B", >= 60 "C", >= 50 "D", otherwise "F". */
  function LetterGrade(p: real): (g: string)
    ensures g == Ladder[Reached(p, Thresholds)]
  {
    ReachedThresholds(p);
    if p >= 90.0 then "A+"
    else if p >= 80.0 then "A"
    else if p >= 70.0 then "B"
    else if p >= 60.0 then "C"
    else if p >= 50.0 then "D"
    else "F"
  }

  lemma {:induction false} ReachedThresholds(p: real)
    ensures Reached(p, Thresholds) ==
      (if p >= 90.0 then 5 else if p >= 80.0 then 4 else if p >= 70.0 then 3
       else if p >= 60.0 then 2 else if p >= 50.0 then 1 else 0)
  {
    var t5: seq<real> := [90.0];
    assert t5[1..] == [];
    assert Reached(p, t5) == (if 90.0 <= p then 1 else 0);
    var t4: seq<real> := [80.0, 90.0];
    assert t4[1..] == t5;
    assert Reached(p, t4) == (if 80.0 <= p then 1 else 0) + Reached(p, t5);
    var t3: seq<real> := [70.0, 80.0, 90.0];
    assert t3[1..] == t4;
    assert Reached(p, t3) == (if 70.0 <= p then 1 else 0) + Reached(p, t4);
    var t2: seq<real> := [60.0, 70.0, 80.0, 90.0];
    assert t2[1..] == t3;
    assert Reached(p, t2) == (if 60.0 <= p then 1 else 0) + Reached(p, t3);
    assert Thresholds[1..] == t2;
    assert Reached(p, Thresholds) == (if 50.0 <= p then 1 else 0) + Reached(p, t2);
  }

  /** The position of a grade on the ladder. */
  function Rank(g: string): nat {
    if g == "A+" then 5
    else if g == "A" then 4
    else if g == "B" then 3
    else if g == "C" then 2
    else if g == "D" then 1
    else 0
  }

  lemma {:induction false} ReachedMonotone(p: real, q: real, ts: seq<real>)
    requires p <= q
    ensures Reached(p, ts) <= Reached(q, ts)
  {
    if ts != [] {
      ReachedMonotone(p, q, ts[1..]);
    }
  }

  /** A higher percentage never earns a lower grade. */
  lemma {:induction false} LetterGradeMonotone(p: real, q: real)
    requires p <= q
    ensures Rank(LetterGrade(p)) <= Rank(LetterGrade(q))
  {
    ReachedMonotone(p, q, Thresholds);
    var i, j := Reached(p, Thresholds), Reached(q, Thresholds);
    assert forall k :: 0 <= k < |Ladder| ==> Rank(Ladder[k]) == k;
  }

  // ---------------------------------------------------------------------------
  // Rounding to hundredths

  /** A real that is a whole number of hundredths, as every two-decimal figure is. */
  predicate Hundredths(x: real) {
    (x * 100.0).Floor as real == x * 100.0
  }

  function RoundHalfUp(x: real): (r: real)
    ensures Hundredths(r)
    ensures x - 0.005 < r <= x + 0.005
  {
    var n := (x * 100.0 + 0.5).Floor;
    assert n as real <= x * 100.0 + 0.5 < n as real + 1.0;
    var r := n as real / 100.0;
    assert r * 100.0 == n as real;
    r
  }

  lemma {:induction false} HundredthsNegate(x: real)
    requires Hundredths(x)
    ensures Hundredths(-x)
  {
    var n := (x * 100.0).Floor;
    assert -x * 100.0 == (-n) as real;
  }

  /** `x.toFixed(2)` in JavaScript and `String.format("%.2f", x)` in Java, read back
      as a number: `x` to the nearest hundredth, halves rounded away from zero. */
  function Round2(x: real): (r: real)
    ensures Hundredths(r)
    ensures x - 0.005 <= r <= x + 0.005
    ensures x >= 0.0 ==> r >= 0.0
  {
    if x < 0.0 then
      HundredthsNegate(RoundHalfUp(-x));
      -RoundHalfUp(-x)
    else RoundHalfUp(x)
  }

  /** Rounding never reorders two numbers. */
  lemma {:induction false} Round2Monotone(x: real, y: real)
    requires x <= y
    ensures Round2(x) <= Round2(y)
  {
    if x < 0.0 && y < 0.0 {
      assert (-y * 100.0 + 0.5).Floor <= (-x * 100.0 + 0.5).Floor;
    } else if 0.0 <= x {
      assert (x * 100.0 + 0.5).Floor <= (y * 100.0 + 0.5).Floor;
    }
  }

  /** A figure that already has two decimals is left as it is. */
  lemma {:induction false} Round2Exact(x: real)
    requires Hundredths(x)
    ensures Round2(x) == x
  {
    if x < 0.0 {
      assert (-x * 100.0).Floor == -((x * 100.0).Floor);
      assert (-x * 100.0 + 0.5).Floor == (-x * 100.0).Floor;
    } else {
      assert (x * 100.0 + 0.5).Floor == (x * 100.0).Floor;
    }
  }

  /** A percentage in [0, 100] stays in [0, 100] once rounded. */
  lemma {:induction false} Round2InRange(x: real)
    requires 0.0 <= x <= 100.0
    ensures 0.0 <= Round2(x) <= 100.0
  {
    Round2Monotone(x, 100.0);
    Round2Exact(100.0);
  }

  /** For a non-negative `x` and a threshold `t` with two decimals, the rounded value
      reaches `t` exactly when `x` is at most half a hundredth below it. */
  lemma {:induction false} RoundedReaches(x: real, t: real)
    requires 0.0 <= x && Hundredths(t)
    ensures Round2(x) >= t <==> x >= t - 0.005
  {
    var n := (x * 100.0 + 0.5).Floor;
    var k := (t * 100.0).Floor;
    assert Round2(x) == n as real / 100.0;
    assert Round2(x) >= t <==> n >= k;
  }

  /** Grading the rounded percentage differs from grading the exact one precisely
      when the exact value lies within half a hundredth below one of the
      thresholds: there the rounding lifts it over the threshold. */
  lemma {:induction false} RoundingChangesGrade(x: real)
    ensures LetterGrade(Round2(x)) != LetterGrade(x)
        <==> exists i :: 0 <= i < |Thresholds| && Thresholds[i] - 0.005 <= x < Thresholds[i]
  {
    if x < 0.0 {
      assert Round2(x) <= 0.0;
    } else {
      RoundedReaches(x, 50.0);
      RoundedReaches(x, 60.0);
      RoundedReaches(x, 70.0);
      RoundedReaches(x, 80.0);
      RoundedReaches(x, 90.0);
    }
  }

  /** Rounding first never lowers the grade. */
  lemma {:induction false} RoundingNeverLowersGrade(x: real)
    ensures Rank(LetterGrade(x)) <= Rank(LetterGrade(Round2(x)))
  {
    if x >= 0.0 {
      RoundedReaches(x, 50.0);
      RoundedReaches(x, 60.0);
      RoundedReaches(x, 70.0);
      RoundedReaches(x, 80.0);
      RoundedReaches(x, 90.0);
    }
  }
}
