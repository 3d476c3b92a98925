/**
  Choosing one intern for one project: a capacity test, and a running best over
  the interns in list order that is replaced only on a strictly greater score.
 */
module Selection {
  import opened Wrappers

  /** JavaScript's relational comparison converts a null operand to 0. */
  function HoursOrZero(hours: Option<int>): int
  {
    match hours
    case None => 0
    case Some(h) => h
  }

  /** `intern.goal_hours && intern.goal_hours >= project.estimated_hours`:
      a null or zero goal is falsy, so it never qualifies. */
  predicate Eligible(goalHours: Option<int>, estimatedHours: Option<int>)
  {
    goalHours.Some? && goalHours.value != 0 && goalHours.value >= HoursOrZero(estimatedHours)
  }

  /** What the scan learns about one intern: the score, or None when the
      intern's ratings could not be read, and whether the capacity test passes. */
  datatype Entry = Entry(score: Option<int>, eligible: bool)

  /** The running best: the chosen intern's position (`bestMatch`) and `bestScore`. */
  datatype Best = Best(winner: Option<nat>, score: int)

  /** An intern that is read and passes the capacity test. */
  predicate Qualifies(e: Entry)
  {
    e.score.Some? && e.eligible
  }

  /** The running best after the scan has seen `es`, in order, starting from
      `bestMatch = null` and `bestScore = -1`. */
  function Pick(es: seq<Entry>): (b: Best)
    ensures b.winner.None? ==> b.score == -1
    ensures b.winner.Some? ==>
      b.winner.value < |es| && Qualifies(es[b.winner.value]) &&
      es[b.winner.value].score.value == b.score && b.score >= 0
  {
    if es == [] then Best(None, -1)
    else
      var prev := Pick(es[..|es| - 1]);
      var e := es[|es| - 1];
      if e.score.Some? && e.score.value > prev.score && e.eligible then Best(Some(|es| - 1), e.score.value)
      else prev
  }

  /** `k` holds the highest score among the qualifying entries, that score is
      at least 0, and no earlier qualifying entry reaches it. */
  predicate IsFirstArgMax(es: seq<Entry>, k: nat)
  {
    && k < |es|
    && Qualifies(es[k])
    && es[k].score.value >= 0
    && (forall j :: 0 <= j < |es| && Qualifies(es[j]) ==> es[j].score.value <= es[k].score.value)
    && (forall j :: 0 <= j < k && Qualifies(es[j]) ==> es[j].score.value < es[k].score.value)
  }

  /** A smaller (or equal) estimate keeps an intern eligible; a null or zero goal never is. */
  lemma EligibleMonotone(goalHours: Option<int>, estimatedHours: Option<int>, smaller: Option<int>)
    requires HoursOrZero(smaller) <= HoursOrZero(estimatedHours)
    ensures Eligible(goalHours, estimatedHours) ==> Eligible(goalHours, smaller)
    ensures goalHours == None || goalHours == Some(0) ==> !Eligible(goalHours, estimatedHours)
  {
  }

  /** The best score is at least the score of every qualifying entry. */
  lemma {:induction false} PickIsMaximum(es: seq<Entry>)
    ensures forall j :: 0 <= j < |es| && Qualifies(es[j]) ==> es[j].score.value <= Pick(es).score
  {
    if es != [] {
      var init := es[..|es| - 1];
      PickIsMaximum(init);
      assert forall j :: 0 <= j < |init| ==> init[j] == es[j];
    }
  }

  /** Ties go to the earliest: every qualifying entry before the winner scores strictly less. */
  lemma {:induction false} PickTieGoesToEarliest(es: seq<Entry>)
    ensures Pick(es).winner.Some? ==>
      forall j :: 0 <= j < Pick(es).winner.value && Qualifies(es[j]) ==> es[j].score.value < Pick(es).score
  {
    if es != [] {
      var init := es[..|es| - 1];
      assert forall j :: 0 <= j < |init| ==> init[j] == es[j];
      if Pick(es) == Pick(init) {
        PickTieGoesToEarliest(init);
      } else {
        PickIsMaximum(init);
      }
    }
  }

  /** The fold computes exactly the first arg-max among the qualifying entries. */
  lemma PickIsFirstArgMax(es: seq<Entry>, k: nat)
    ensures Pick(es).winner == Some(k) <==> IsFirstArgMax(es, k)
  {
    PickIsMaximum(es);
    PickTieGoesToEarliest(es);
    if IsFirstArgMax(es, k) {
      PickNoneIff(es);
      var w := Pick(es).winner.value;
      assert !(w < k) && !(k < w);
    }
  }

  /** Raising the winner's score, with every other entry unchanged, keeps the winner. */
  lemma PickKeepsRaisedWinner(es: seq<Entry>, raised: seq<Entry>, w: nat)
    requires Pick(es).winner == Some(w)
    requires |raised| == |es| && w < |es|
    requires forall j :: 0 <= j < |es| && j != w ==> raised[j] == es[j]
    requires Qualifies(raised[w]) && raised[w].score.value >= es[w].score.value
    ensures Pick(raised).winner == Some(w)
  {
    PickIsFirstArgMax(es, w);
    PickIsFirstArgMax(raised, w);
  }

  /** Nobody is chosen exactly when no qualifying entry scores 0 or more. */
  lemma {:induction false} PickNoneIff(es: seq<Entry>)
    ensures Pick(es).winner.None? <==> forall j :: 0 <= j < |es| && Qualifies(es[j]) ==> es[j].score.value < 0
  {
    PickIsMaximum(es);
    if es != [] {
      var init := es[..|es| - 1];
      assert forall j :: 0 <= j < |init| ==> init[j] == es[j];
      PickNoneIff(init);
    }
  }
}
