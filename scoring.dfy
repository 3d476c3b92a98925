/**
  The fit score of one intern for one project: the sum, over the project's
  required-skill rows, of the intern's rating for that skill, where a skill the
  intern has not rated (or rated with a null value) contributes 0.
 */
module Scoring {
  import opened Wrappers

  type SkillId = nat
  type InternId = nat

  /** One row of the `intern_skills` table. The `rating` column is nullable. */
  datatype InternSkill = InternSkill(internId: InternId, skillId: SkillId, rating: Option<int>)

  /** `row?.rating || 0` once a row was found: null is falsy and reads as 0
      (a stored 0 is falsy too and also reads as 0). */
  function RatingValue(rating: Option<int>): int
  {
    match rating
    case None => 0
    case Some(v) => v
  }

  /** Whether some row rates `skill`. */
  predicate HasRating(ratings: seq<InternSkill>, skill: SkillId)
  {
    exists k :: 0 <= k < |ratings| && ratings[k].skillId == skill
  }

  /** `ratings.find(r => r.skill_id === skill)?.rating || 0`: `find` stops at the
      first row for the skill; no row at all gives 0. */
  function RatingOf(ratings: seq<InternSkill>, skill: SkillId): int
  {
    if ratings == [] then 0
    else if ratings[0].skillId == skill then RatingValue(ratings[0].rating)
    else RatingOf(ratings[1..], skill)
  }

  /** The score: one term per required-skill row, so a skill listed twice counts twice. */
  function Score(skills: seq<SkillId>, ratings: seq<InternSkill>): int
  {
    if skills == [] then 0
    else Score(skills[..|skills| - 1], ratings) + RatingOf(ratings, skills[|skills| - 1])
  }

  /** How many required-skill rows name `skill`. */
  function Occurrences(skills: seq<SkillId>, skill: SkillId): nat
  {
    if skills == [] then 0
    else Occurrences(skills[..|skills| - 1], skill) + (if skills[|skills| - 1] == skill then 1 else 0)
  }

  /** Every stored rating is null or non-negative. */
  predicate NonNegativeRatings(ratings: seq<InternSkill>)
  {
    forall k :: 0 <= k < |ratings| && ratings[k].rating.Some? ==> ratings[k].rating.value >= 0
  }

  /** Every stored rating is null or lies in the rating slider's range 1..5. */
  predicate SliderRatings(ratings: seq<InternSkill>)
  {
    forall k :: 0 <= k < |ratings| && ratings[k].rating.Some? ==> 1 <= ratings[k].rating.value <= 5
  }

  /** The scoring loop: `score += skillRating` for each required-skill row. */
  method ComputeScore(skills: seq<SkillId>, ratings: seq<InternSkill>) returns (score: int)
    ensures score == Score(skills, ratings)
  {
    score := 0;
    for k := 0 to |skills|
      invariant score == Score(skills[..k], ratings)
    {
      assert skills[..k + 1][..k] == skills[..k];
      score := score + RatingOf(ratings, skills[k]);
    }
    assert skills[..|skills|] == skills;
  }

  /** `find` semantics: the rating read is the one of the first row for the skill. */
  lemma {:induction false} RatingOfFirstMatch(ratings: seq<InternSkill>, skill: SkillId, k: nat)
    requires k < |ratings| && ratings[k].skillId == skill
    requires forall j :: 0 <= j < k ==> ratings[j].skillId != skill
    ensures RatingOf(ratings, skill) == RatingValue(ratings[k].rating)
  {
    if k > 0 {
      assert ratings[0].skillId != skill;
      RatingOfFirstMatch(ratings[1..], skill, k - 1);
    }
  }

  /** A skill without any row contributes 0. */
  lemma {:induction false} RatingOfUnrated(ratings: seq<InternSkill>, skill: SkillId)
    requires !HasRating(ratings, skill)
    ensures RatingOf(ratings, skill) == 0
  {
    if ratings != [] {
      assert ratings[0].skillId != skill;
      assert !HasRating(ratings[1..], skill) by {
        forall k | 0 <= k < |ratings| - 1
          ensures ratings[1..][k].skillId != skill
        {
          assert ratings[1..][k] == ratings[k + 1];
        }
      }
      RatingOfUnrated(ratings[1..], skill);
    }
  }

  /** With non-negative ratings a single skill contributes at least 0, and at most 5 within the slider range. */
  lemma {:induction false} RatingOfRange(ratings: seq<InternSkill>, skill: SkillId)
    requires NonNegativeRatings(ratings)
    ensures 0 <= RatingOf(ratings, skill)
    ensures SliderRatings(ratings) ==> RatingOf(ratings, skill) <= 5
  {
    if ratings != [] && ratings[0].skillId != skill {
      RatingOfRange(ratings[1..], skill);
    }
  }

  /** The score is never negative, and within the slider range it is at most
      5 for every required-skill row. */
  lemma {:induction false} ScoreRange(skills: seq<SkillId>, ratings: seq<InternSkill>)
    requires NonNegativeRatings(ratings)
    ensures 0 <= Score(skills, ratings)
    ensures SliderRatings(ratings) ==> Score(skills, ratings) <= 5 * |skills|
  {
    if skills != [] {
      ScoreRange(skills[..|skills| - 1], ratings);
      RatingOfRange(ratings, skills[|skills| - 1]);
    }
  }

  /** The score of a concatenation of skill rows is the sum of the scores. */
  lemma {:induction false} ScoreConcat(a: seq<SkillId>, b: seq<SkillId>, ratings: seq<InternSkill>)
    ensures Score(a + b, ratings) == Score(a, ratings) + Score(b, ratings)
  {
    if b != [] {
      assert (a + b)[..|a + b| - 1] == a + b[..|b| - 1];
      ScoreConcat(a, b[..|b| - 1], ratings);
    } else {
      assert a + b == a;
    }
  }

  /** Appending a row changes what `find` returns only for a skill that had no row before. */
  lemma {:induction false} RatingOfAppend(ratings: seq<InternSkill>, row: InternSkill, skill: SkillId)
    ensures RatingOf(ratings + [row], skill) ==
      if HasRating(ratings, skill) then RatingOf(ratings, skill)
      else if row.skillId == skill then RatingValue(row.rating)
      else 0
  {
    if ratings == [] {
      assert [row][1..] == [];
    } else if ratings[0].skillId == skill {
      assert HasRating(ratings, skill);
    } else {
      assert (ratings + [row])[1..] == ratings[1..] + [row];
      RatingOfAppend(ratings[1..], row, skill);
      assert HasRating(ratings, skill) == HasRating(ratings[1..], skill) by {
        if HasRating(ratings, skill) {
          var k :| 0 <= k < |ratings| && ratings[k].skillId == skill;
          assert ratings[1..][k - 1] == ratings[k];
        }
        if HasRating(ratings[1..], skill) {
          var k :| 0 <= k < |ratings[1..]| && ratings[1..][k].skillId == skill;
          assert ratings[k + 1] == ratings[1..][k];
        }
      }
    }
  }

  /** Adding a rating row for a skill the intern had not rated raises the score
      by that rating once per required-skill row naming the skill; a row for an
      already-rated skill changes nothing, because `find` never reaches it. */
  lemma {:induction false} ScoreAddRating(skills: seq<SkillId>, ratings: seq<InternSkill>, row: InternSkill)
    ensures Score(skills, ratings + [row]) == Score(skills, ratings) +
      if HasRating(ratings, row.skillId) then 0
      else Occurrences(skills, row.skillId) * RatingValue(row.rating)
  {
    if skills != [] {
      var init, last := skills[..|skills| - 1], skills[|skills| - 1];
      ScoreAddRating(init, ratings, row);
      RatingOfAppend(ratings, row, last);
      if !HasRating(ratings, last) {
        RatingOfUnrated(ratings, last);
      }
      var c, v := Occurrences(init, row.skillId), RatingValue(row.rating);
      assert (c + 1) * v == c * v + v;
    }
  }

  /** Score monotonicity: adding a non-negative rating never lowers the score,
      and rating a required skill that was unrated with a positive value raises it. */
  lemma ScoreMonotone(skills: seq<SkillId>, ratings: seq<InternSkill>, row: InternSkill)
    requires RatingValue(row.rating) >= 0
    ensures Score(skills, ratings + [row]) >= Score(skills, ratings)
    ensures row.skillId in skills && !HasRating(ratings, row.skillId) && RatingValue(row.rating) > 0 ==>
      Score(skills, ratings + [row]) > Score(skills, ratings)
  {
    ScoreAddRating(skills, ratings, row);
    OccurrencesPositive(skills, row.skillId);
    var c, v := Occurrences(skills, row.skillId), RatingValue(row.rating);
    assert c * v >= 0;
    assert c >= 1 && v > 0 ==> c * v >= v;
  }

  /** A skill that appears among the rows is counted at least once. */
  lemma {:induction false} OccurrencesPositive(skills: seq<SkillId>, skill: SkillId)
    ensures skill in skills <==> Occurrences(skills, skill) >= 1
  {
    if skills != [] {
      var init := skills[..|skills| - 1];
      OccurrencesPositive(init, skill);
      assert skills == init + [skills[|skills| - 1]];
    }
  }
}
