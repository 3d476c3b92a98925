/**
  One auto-allocation run (the `POST` handler of the allocate route): list the
  unassigned projects and the interns once, then for each project in order read
  its required skills, score every intern, keep the best eligible one and, when
  there is one, insert an assignment and flag the project assigned.
 */
module Allocation {
  import opened Wrappers
  import opened Scoring
  import opened Selection
  import opened Tables

  /** Which reads of one run come back with null `data`. The two list reads
      are fatal; the skill read is identified by the project's position in the
      project list, and a ratings read by the positions of the project and the
      intern, since each such read is a separate call that can fail on its own. */
  datatype Faults = Faults(
    projectListFails: bool,
    internListFails: bool,
    skillReadFails: set<nat>,
    ratingReadFails: set<(nat, nat)>)

  /** The JSON response: `{ success: true }`, or an error message with status 500. */
  datatype Response = Success | Error(status: nat, message: string)

  /** What the run does with one project: skipped (skill read failed), left
      unassigned (no eligible intern), or given to the intern at this position. */
  datatype Outcome = Skipped | Unmatched | Matched(intern: nat)

  const ProjectListError := "Failed to fetch unassigned projects."
  const InternListError := "Failed to fetch interns."

  /** The read of the unassigned projects. */
  function ListUnassigned(projects: seq<Project>, faults: Faults): (r: Option<seq<Project>>)
    ensures r.None? <==> faults.projectListFails
    ensures r.Some? ==> forall p :: p in r.value <==> p in projects && p.assignedFlag.None?
  {
    if faults.projectListFails then None else Some(Unassigned(projects))
  }

  /** The read of the interns. */
  function ListInterns(users: seq<User>, faults: Faults): (r: Option<seq<User>>)
    ensures r.None? <==> faults.internListFails
    ensures r.Some? ==> forall u :: u in r.value <==> u in users && u.role == Intern
  {
    if faults.internListFails then None else Some(Interns(users))
  }

  /** The read of the required skills of the project at position `i`. */
  function SkillLookup(skillRows: seq<ProjectSkill>, projectId: ProjectId, i: nat, faults: Faults): (r: Option<seq<SkillId>>)
    ensures r.None? <==> i in faults.skillReadFails
    ensures r.Some? ==> forall s :: s in r.value <==> ProjectSkill(projectId, s) in skillRows
  {
    if i in faults.skillReadFails then None else Some(SkillsOf(skillRows, projectId))
  }

  /** The read of the ratings of the intern at position `j`, while scoring the project at position `i`. */
  function RatingLookup(ratingRows: seq<InternSkill>, internId: InternId, i: nat, j: nat, faults: Faults): (r: Option<seq<InternSkill>>)
    ensures r.None? <==> (i, j) in faults.ratingReadFails
    ensures r.Some? ==> forall row :: row in r.value <==> row in ratingRows && row.internId == internId
  {
    if (i, j) in faults.ratingReadFails then None else Some(RatingsOf(ratingRows, internId))
  }

  /** The intern at position `j` can win the project at position `i`: its
      ratings are read and it passes the capacity test. */
  predicate Candidate(project: Project, i: nat, interns: seq<User>, j: nat, ratingRows: seq<InternSkill>, faults: Faults)
  {
    j < |interns| && RatingLookup(ratingRows, interns[j].id, i, j, faults).Some? &&
    Eligible(interns[j].goalHours, project.estimatedHours)
  }

  /** What the scan learns about the intern at position `j`. */
  function EntryFor(project: Project, i: nat, j: nat, intern: User, skills: seq<SkillId>,
                    ratingRows: seq<InternSkill>, faults: Faults): Entry
  {
    var score := match RatingLookup(ratingRows, intern.id, i, j, faults)
      case None => None
      case Some(ratings) => Some(Score(skills, ratings));
    Entry(score, Eligible(intern.goalHours, project.estimatedHours))
  }

  /** The scan's view of every intern, in list order. */
  function Entries(project: Project, i: nat, interns: seq<User>, skills: seq<SkillId>,
                   ratingRows: seq<InternSkill>, faults: Faults): (es: seq<Entry>)
    ensures |es| == |interns|
  {
    seq(|interns|, j requires 0 <= j < |interns| => EntryFor(project, i, j, interns[j], skills, ratingRows, faults))
  }

  /** An entry qualifies exactly when its intern is a candidate. */
  lemma EntriesQualify(project: Project, i: nat, interns: seq<User>, skills: seq<SkillId>,
                       ratingRows: seq<InternSkill>, faults: Faults)
    ensures var es := Entries(project, i, interns, skills, ratingRows, faults);
      forall j :: 0 <= j < |es| ==> (Qualifies(es[j]) <==> Candidate(project, i, interns, j, ratingRows, faults))
  {
  }

  /** The outcome for the project at position `i`. */
  function Decide(project: Project, i: nat, interns: seq<User>, skillRows: seq<ProjectSkill>,
                  ratingRows: seq<InternSkill>, faults: Faults): (o: Outcome)
    ensures o.Skipped? <==> i in faults.skillReadFails
    ensures o.Matched? ==> Candidate(project, i, interns, o.intern, ratingRows, faults)
  {
    match SkillLookup(skillRows, project.id, i, faults)
    case None => Skipped
    case Some(skills) =>
      EntriesQualify(project, i, interns, skills, ratingRows, faults);
      var best := Pick(Entries(project, i, interns, skills, ratingRows, faults));
      if best.winner.Some? then Matched(best.winner.value) else Unmatched
  }

  /** The `intern_projects` rows the run writes for the project at position `i`. */
  function Written(project: Project, i: nat, interns: seq<User>, skillRows: seq<ProjectSkill>,
                   ratingRows: seq<InternSkill>, faults: Faults): (r: seq<Assignment>)
    ensures |r| <= 1
    ensures r != [] <==> Decide(project, i, interns, skillRows, ratingRows, faults).Matched?
    ensures forall a :: a in r ==> a.projectId == project.id && !a.completed
  {
    match Decide(project, i, interns, skillRows, ratingRows, faults)
    case Matched(j) => [Assignment(interns[j].id, project.id, false)]
    case _ => []
  }

  /** The rows the run writes for the projects of `snapshot`, in order. */
  function Writes(snapshot: seq<Project>, interns: seq<User>, skillRows: seq<ProjectSkill>,
                  ratingRows: seq<InternSkill>, faults: Faults): seq<Assignment>
  {
    if snapshot == [] then []
    else
      var i := |snapshot| - 1;
      Writes(snapshot[..i], interns, skillRows, ratingRows, faults) +
      Written(snapshot[i], i, interns, skillRows, ratingRows, faults)
  }

  /** The ids of the projects of `snapshot` that the run flags assigned. */
  function MatchedIds(snapshot: seq<Project>, interns: seq<User>, skillRows: seq<ProjectSkill>,
                      ratingRows: seq<InternSkill>, faults: Faults): (ids: set<ProjectId>)
    ensures forall id :: id in ids ==> exists k :: 0 <= k < |snapshot| && snapshot[k].id == id
  {
    if snapshot == [] then {}
    else
      var i := |snapshot| - 1;
      var earlier := MatchedIds(snapshot[..i], interns, skillRows, ratingRows, faults);
      assert forall k :: 0 <= k < i ==> snapshot[..i][k] == snapshot[k];
      earlier + if Decide(snapshot[i], i, interns, skillRows, ratingRows, faults).Matched? then {snapshot[i].id} else {}
  }

  /** The loop over the interns for the project at position `i`: the running
      best with `bestScore` starting at -1, replaced only on a strictly greater score. */
  method BestMatch(project: Project, i: nat, interns: seq<User>, skills: seq<SkillId>,
                   ratingRows: seq<InternSkill>, faults: Faults) returns (bestMatch: Option<nat>)
    ensures bestMatch == Pick(Entries(project, i, interns, skills, ratingRows, faults)).winner
  {
    ghost var es := Entries(project, i, interns, skills, ratingRows, faults);
    bestMatch := None;
    var bestScore := -1;
    for j := 0 to |interns|
      invariant Best(bestMatch, bestScore) == Pick(es[..j])
    {
      assert es[..j + 1][..j] == es[..j];
      var ratings := RatingLookup(ratingRows, interns[j].id, i, j, faults);
      if ratings.None? {
        continue;
      }
      var score := ComputeScore(skills, ratings.value);
      if score > bestScore && Eligible(interns[j].goalHours, project.estimatedHours) {
        bestScore := score;
        bestMatch := Some(j);
      }
    }
    assert es[..|interns|] == es;
  }

  /** The whole run. A failed list read returns an error before any write;
      otherwise every project of the snapshot gets exactly the writes its
      outcome calls for, in order, and the response is a success. */
  method Allocate(db: Database, faults: Faults) returns (response: Response)
    requires db.Valid()
    modifies db
    ensures db.Valid()
    ensures faults.projectListFails ==> response == Error(500, ProjectListError) && unchanged(db)
    ensures !faults.projectListFails && faults.internListFails ==> response == Error(500, InternListError) && unchanged(db)
    ensures !faults.projectListFails && !faults.internListFails ==>
      var snapshot := Unassigned(old(db.projects));
      var interns := Interns(old(db.users));
      && response == Success
      && db.internProjects == old(db.internProjects) + Writes(snapshot, interns, old(db.projectSkills), old(db.internSkills), faults)
      && db.projects == SetAssigned(old(db.projects), MatchedIds(snapshot, interns, old(db.projectSkills), old(db.internSkills), faults))
      && db.users == old(db.users) && db.projectSkills == old(db.projectSkills) && db.internSkills == old(db.internSkills)
    ensures old(db.Consistent()) ==> db.Consistent()
  {
    var unassignedProjects := ListUnassigned(db.projects, faults);
    if unassignedProjects.None? {
      return Error(500, ProjectListError);
    }
    var interns := ListInterns(db.users, faults);
    if interns.None? {
      return Error(500, InternListError);
    }
    response := Success;
    AllocateAll(db, unassignedProjects.value, interns.value, faults);
    RunKeepsNoDoubleAssignment(old(db.projects), old(db.internProjects), interns.value, db.projectSkills, db.internSkills, faults);
  }

  /** The loop over the listed projects, in order. */
  method AllocateAll(db: Database, snapshot: seq<Project>, interns: seq<User>, faults: Faults)
    requires db.Valid()
    modifies db
    ensures db.Valid()
    ensures db.users == old(db.users) && db.projectSkills == old(db.projectSkills) && db.internSkills == old(db.internSkills)
    ensures db.internProjects == old(db.internProjects) + Writes(snapshot, interns, db.projectSkills, db.internSkills, faults)
    ensures db.projects == SetAssigned(old(db.projects), MatchedIds(snapshot, interns, db.projectSkills, db.internSkills, faults))
  {
    ghost var skillRows, ratingRows := db.projectSkills, db.internSkills;
    for i := 0 to |snapshot|
      invariant db.Valid()
      invariant db.users == old(db.users) && db.projectSkills == skillRows && db.internSkills == ratingRows
      invariant db.internProjects == old(db.internProjects) + Writes(snapshot[..i], interns, skillRows, ratingRows, faults)
      invariant db.projects == SetAssigned(old(db.projects), MatchedIds(snapshot[..i], interns, skillRows, ratingRows, faults))
    {
      RunStep(snapshot, i, interns, skillRows, ratingRows, faults);
      ghost var flagged := MatchedIds(snapshot[..i], interns, skillRows, ratingRows, faults);
      AllocateProject(db, snapshot[i], i, interns, faults);
      SetAssignedTwice(old(db.projects), flagged,
        if Decide(snapshot[i], i, interns, skillRows, ratingRows, faults).Matched? then {snapshot[i].id} else {});
    }
    assert snapshot[..|snapshot|] == snapshot;
  }

  /** The body of the loop over projects for the project at position `i`: a
      failed skill read skips it; otherwise the best intern, if any, gets an
      `intern_projects` row and the project is flagged assigned. */
  method AllocateProject(db: Database, project: Project, i: nat, interns: seq<User>, faults: Faults)
    requires db.Valid()
    modifies db
    ensures db.Valid()
    ensures db.users == old(db.users) && db.projectSkills == old(db.projectSkills) && db.internSkills == old(db.internSkills)
    ensures db.internProjects == old(db.internProjects) + Written(project, i, interns, db.projectSkills, db.internSkills, faults)
    ensures db.projects == SetAssigned(old(db.projects),
      if Decide(project, i, interns, db.projectSkills, db.internSkills, faults).Matched? then {project.id} else {})
  {
    var projectSkills := SkillLookup(db.projectSkills, project.id, i, faults);
    if projectSkills.None? {
      assert old(db.projects) == SetAssigned(old(db.projects), {});
      return;
    }
    var bestMatch := BestMatch(project, i, interns, projectSkills.value, db.internSkills, faults);
    assert Decide(project, i, interns, db.projectSkills, db.internSkills, faults) ==
      if bestMatch.Some? then Matched(bestMatch.value) else Unmatched;
    if bestMatch.Some? {
      db.InsertAssignment(Assignment(interns[bestMatch.value].id, project.id, false));
      db.MarkAssigned(project.id);
    } else {
      assert old(db.projects) == SetAssigned(old(db.projects), {});
    }
  }

  /** One more project handled: its writes are appended and its id flagged when matched. */
  lemma RunStep(snapshot: seq<Project>, i: nat, interns: seq<User>, skillRows: seq<ProjectSkill>,
                ratingRows: seq<InternSkill>, faults: Faults)
    requires i < |snapshot|
    ensures Writes(snapshot[..i + 1], interns, skillRows, ratingRows, faults) ==
      Writes(snapshot[..i], interns, skillRows, ratingRows, faults) + Written(snapshot[i], i, interns, skillRows, ratingRows, faults)
    ensures MatchedIds(snapshot[..i + 1], interns, skillRows, ratingRows, faults) ==
      MatchedIds(snapshot[..i], interns, skillRows, ratingRows, faults) +
      if Decide(snapshot[i], i, interns, skillRows, ratingRows, faults).Matched? then {snapshot[i].id} else {}
  {
    assert snapshot[..i + 1][..i] == snapshot[..i];
  }

  /** A chosen intern was read, passes the capacity test, scores at least as
      much as every other candidate, and strictly more than every earlier one. */
  lemma DecideWinner(project: Project, i: nat, interns: seq<User>, skillRows: seq<ProjectSkill>,
                     ratingRows: seq<InternSkill>, faults: Faults, w: nat)
    requires Decide(project, i, interns, skillRows, ratingRows, faults) == Matched(w)
    ensures w < |interns|
    ensures RatingLookup(ratingRows, interns[w].id, i, w, faults).Some?
    ensures interns[w].goalHours.Some? && interns[w].goalHours.value != 0
    ensures interns[w].goalHours.value >= HoursOrZero(project.estimatedHours)
    ensures var es := Entries(project, i, interns, SkillsOf(skillRows, project.id), ratingRows, faults);
      && es[w].score.value >= 0
      && (forall k :: 0 <= k < |interns| && Candidate(project, i, interns, k, ratingRows, faults) ==>
            es[k].score.value <= es[w].score.value)
      && (forall k :: 0 <= k < w && Candidate(project, i, interns, k, ratingRows, faults) ==>
            es[k].score.value < es[w].score.value)
  {
    var es := Entries(project, i, interns, SkillsOf(skillRows, project.id), ratingRows, faults);
    EntriesQualify(project, i, interns, SkillsOf(skillRows, project.id), ratingRows, faults);
    PickIsFirstArgMax(es, w);
  }

  /** With non-negative stored ratings, a project whose skills were read is
      matched exactly when some intern is a candidate for it. */
  lemma DecideMatchesIffCandidate(project: Project, i: nat, interns: seq<User>, skillRows: seq<ProjectSkill>,
                                  ratingRows: seq<InternSkill>, faults: Faults)
    requires i !in faults.skillReadFails
    requires NonNegativeRatings(ratingRows)
    ensures Decide(project, i, interns, skillRows, ratingRows, faults).Matched? <==>
      exists k :: 0 <= k < |interns| && Candidate(project, i, interns, k, ratingRows, faults)
  {
    var skills := SkillsOf(skillRows, project.id);
    var es := Entries(project, i, interns, skills, ratingRows, faults);
    EntriesQualify(project, i, interns, skills, ratingRows, faults);
    forall k | 0 <= k < |es| && Qualifies(es[k])
      ensures es[k].score.value >= 0
    {
      var ratings := RatingsOf(ratingRows, interns[k].id);
      RatingsOfNonNegative(ratingRows, interns[k].id);
      ScoreRange(skills, ratings);
    }
    PickNoneIff(es);
  }

  /** Reading an intern's rows keeps the ratings non-negative. */
  lemma RatingsOfNonNegative(ratingRows: seq<InternSkill>, internId: InternId)
    requires NonNegativeRatings(ratingRows)
    ensures NonNegativeRatings(RatingsOf(ratingRows, internId))
  {
    var r := RatingsOf(ratingRows, internId);
    forall k | 0 <= k < |r| && r[k].rating.Some?
      ensures r[k].rating.value >= 0
    {
      assert r[k] in ratingRows;
    }
  }

  /** A new non-negative rating row for the chosen intern keeps that intern
      chosen: its score can only rise and no other intern's score changes
      (user ids are the primary key, so no other listed intern shares its id). */
  lemma DecideKeepsWinnerAfterRating(project: Project, i: nat, interns: seq<User>, skillRows: seq<ProjectSkill>,
                                     ratingRows: seq<InternSkill>, faults: Faults, w: nat, row: InternSkill)
    requires Decide(project, i, interns, skillRows, ratingRows, faults) == Matched(w)
    requires w < |interns| && row.internId == interns[w].id
    requires forall j :: 0 <= j < |interns| && j != w ==> interns[j].id != row.internId
    requires RatingValue(row.rating) >= 0
    ensures Decide(project, i, interns, skillRows, ratingRows + [row], faults) == Matched(w)
  {
    var skills := SkillsOf(skillRows, project.id);
    var es := Entries(project, i, interns, skills, ratingRows, faults);
    var raised := Entries(project, i, interns, skills, ratingRows + [row], faults);
    EntriesQualify(project, i, interns, skills, ratingRows, faults);
    forall j | 0 <= j < |interns| && j != w
      ensures raised[j] == es[j]
    {
      RatingsOfAppend(ratingRows, row, interns[j].id);
      assert RatingsOf(ratingRows, interns[j].id) + [] == RatingsOf(ratingRows, interns[j].id);
      assert RatingLookup(ratingRows + [row], interns[j].id, i, j, faults) == RatingLookup(ratingRows, interns[j].id, i, j, faults);
    }
    RatingsOfAppend(ratingRows, row, interns[w].id);
    ScoreMonotone(skills, RatingsOf(ratingRows, interns[w].id), row);
    PickKeepsRaisedWinner(es, raised, w);
  }

  /** A project without skill rows scores every intern 0, so it goes to the
      first candidate in list order. */
  lemma DecideWithoutSkills(project: Project, i: nat, interns: seq<User>, skillRows: seq<ProjectSkill>,
                            ratingRows: seq<InternSkill>, faults: Faults, w: nat)
    requires i !in faults.skillReadFails
    requires SkillsOf(skillRows, project.id) == []
    ensures Decide(project, i, interns, skillRows, ratingRows, faults) == Matched(w) <==>
      Candidate(project, i, interns, w, ratingRows, faults) &&
      forall k :: 0 <= k < w ==> !Candidate(project, i, interns, k, ratingRows, faults)
  {
    var es := Entries(project, i, interns, [], ratingRows, faults);
    EntriesQualify(project, i, interns, [], ratingRows, faults);
    assert forall k :: 0 <= k < |es| && es[k].score.Some? ==> es[k].score.value == 0;
    PickIsFirstArgMax(es, w);
  }

  /** Every row the run writes comes from a matched project: that intern, that
      project, `completed = false`. */
  lemma {:induction false} WritesJustified(snapshot: seq<Project>, interns: seq<User>, skillRows: seq<ProjectSkill>,
                                           ratingRows: seq<InternSkill>, faults: Faults)
    ensures forall a :: a in Writes(snapshot, interns, skillRows, ratingRows, faults) ==>
      exists i, w :: 0 <= i < |snapshot| && 0 <= w < |interns| &&
        Decide(snapshot[i], i, interns, skillRows, ratingRows, faults) == Matched(w) &&
        a == Assignment(interns[w].id, snapshot[i].id, false)
  {
    if snapshot != [] {
      var n := |snapshot| - 1;
      WritesJustified(snapshot[..n], interns, skillRows, ratingRows, faults);
      assert forall i :: 0 <= i < n ==> snapshot[..n][i] == snapshot[i];
    }
  }

  /** Every matched project of the snapshot gets its row (that intern, that
      project, `completed = false`) and its `assigned` flag. */
  lemma {:induction false} MatchedIsWritten(snapshot: seq<Project>, interns: seq<User>, skillRows: seq<ProjectSkill>,
                                            ratingRows: seq<InternSkill>, faults: Faults, i: nat, w: nat)
    requires i < |snapshot|
    requires Decide(snapshot[i], i, interns, skillRows, ratingRows, faults) == Matched(w)
    ensures w < |interns|
    ensures Assignment(interns[w].id, snapshot[i].id, false) in Writes(snapshot, interns, skillRows, ratingRows, faults)
    ensures snapshot[i].id in MatchedIds(snapshot, interns, skillRows, ratingRows, faults)
  {
    var n := |snapshot| - 1;
    if i < n {
      assert snapshot[..n][i] == snapshot[i];
      MatchedIsWritten(snapshot[..n], interns, skillRows, ratingRows, faults, i, w);
    }
  }

  /** A flagged id belongs to a matched project of the snapshot. */
  lemma {:induction false} FlaggedWasMatched(snapshot: seq<Project>, interns: seq<User>, skillRows: seq<ProjectSkill>,
                                             ratingRows: seq<InternSkill>, faults: Faults, id: ProjectId)
    requires id in MatchedIds(snapshot, interns, skillRows, ratingRows, faults)
    ensures exists k :: 0 <= k < |snapshot| && snapshot[k].id == id && Decide(snapshot[k], k, interns, skillRows, ratingRows, faults).Matched?
  {
    var n := |snapshot| - 1;
    var init := snapshot[..n];
    if id in MatchedIds(init, interns, skillRows, ratingRows, faults) {
      FlaggedWasMatched(init, interns, skillRows, ratingRows, faults, id);
      var k :| 0 <= k < n && init[k].id == id && Decide(init[k], k, interns, skillRows, ratingRows, faults).Matched?;
      assert init[k] == snapshot[k];
    } else {
      assert snapshot[n].id == id && Decide(snapshot[n], n, interns, skillRows, ratingRows, faults).Matched?;
    }
  }

  /** With distinct project ids, a listed project is flagged assigned exactly
      when it is matched. */
  lemma FlaggedIffMatched(snapshot: seq<Project>, interns: seq<User>, skillRows: seq<ProjectSkill>,
                          ratingRows: seq<InternSkill>, faults: Faults, i: nat)
    requires DistinctIds(snapshot)
    requires i < |snapshot|
    ensures snapshot[i].id in MatchedIds(snapshot, interns, skillRows, ratingRows, faults) <==>
      Decide(snapshot[i], i, interns, skillRows, ratingRows, faults).Matched?
  {
    var o := Decide(snapshot[i], i, interns, skillRows, ratingRows, faults);
    if o.Matched? {
      MatchedIsWritten(snapshot, interns, skillRows, ratingRows, faults, i, o.intern);
    }
    if snapshot[i].id in MatchedIds(snapshot, interns, skillRows, ratingRows, faults) {
      FlaggedWasMatched(snapshot, interns, skillRows, ratingRows, faults, snapshot[i].id);
      var k :| 0 <= k < |snapshot| && snapshot[k].id == snapshot[i].id &&
        Decide(snapshot[k], k, interns, skillRows, ratingRows, faults).Matched?;
      assert k == i;
    }
  }

  /** Capacity is respected: every written row pairs a project with an intern
      whose goal hours are set, non-zero and at least the project's estimate. */
  lemma RunRespectsCapacity(snapshot: seq<Project>, interns: seq<User>, skillRows: seq<ProjectSkill>,
                            ratingRows: seq<InternSkill>, faults: Faults)
    ensures forall a :: a in Writes(snapshot, interns, skillRows, ratingRows, faults) ==>
      !a.completed &&
      exists p, u ::
        p in snapshot && u in interns && a.projectId == p.id && a.internId == u.id && Eligible(u.goalHours, p.estimatedHours)
  {
    WritesJustified(snapshot, interns, skillRows, ratingRows, faults);
    forall a | a in Writes(snapshot, interns, skillRows, ratingRows, faults)
      ensures !a.completed
      ensures exists p, u ::
        p in snapshot && u in interns && a.projectId == p.id && a.internId == u.id && Eligible(u.goalHours, p.estimatedHours)
    {
      var i, w :| 0 <= i < |snapshot| && 0 <= w < |interns| &&
        Decide(snapshot[i], i, interns, skillRows, ratingRows, faults) == Matched(w) &&
        a == Assignment(interns[w].id, snapshot[i].id, false);
      assert snapshot[i] in snapshot && interns[w] in interns;
    }
  }

  /** Exactly one row per flagged project and none for any other project,
      when the listed projects have distinct ids. */
  lemma {:induction false} WritesCount(snapshot: seq<Project>, interns: seq<User>, skillRows: seq<ProjectSkill>,
                                       ratingRows: seq<InternSkill>, faults: Faults, projectId: ProjectId)
    requires DistinctIds(snapshot)
    ensures CountFor(Writes(snapshot, interns, skillRows, ratingRows, faults), projectId) ==
      if projectId in MatchedIds(snapshot, interns, skillRows, ratingRows, faults) then 1 else 0
  {
    if snapshot != [] {
      var n := |snapshot| - 1;
      var init := snapshot[..n];
      assert forall k :: 0 <= k < n ==> init[k] == snapshot[k];
      WritesCount(init, interns, skillRows, ratingRows, faults, projectId);
      var last := Written(snapshot[n], n, interns, skillRows, ratingRows, faults);
      CountForConcat(Writes(init, interns, skillRows, ratingRows, faults), last, projectId);
      assert last != [] ==> last[..0] == [];
      assert snapshot[n].id !in MatchedIds(init, interns, skillRows, ratingRows, faults);
    }
  }

  /** No double assignment survives a run: if every project had at most one
      live assignment, and none while unassigned, the same holds afterwards. */
  lemma RunKeepsNoDoubleAssignment(projects: seq<Project>, assignments: seq<Assignment>, interns: seq<User>,
                                   skillRows: seq<ProjectSkill>, ratingRows: seq<InternSkill>, faults: Faults)
    requires DistinctIds(projects)
    ensures var snapshot := Unassigned(projects);
      NoDoubleAssignment(projects, assignments) ==>
      NoDoubleAssignment(SetAssigned(projects, MatchedIds(snapshot, interns, skillRows, ratingRows, faults)),
                         assignments + Writes(snapshot, interns, skillRows, ratingRows, faults))
  {
    var snapshot := Unassigned(projects);
    var ids := MatchedIds(snapshot, interns, skillRows, ratingRows, faults);
    var writes := Writes(snapshot, interns, skillRows, ratingRows, faults);
    var after := SetAssigned(projects, ids);
    UnassignedDistinct(projects);
    if NoDoubleAssignment(projects, assignments) {
      forall k | 0 <= k < |after|
        ensures CountFor(assignments + writes, after[k].id) <= if after[k].assignedFlag.None? then 0 else 1
      {
        var id := projects[k].id;
        CountForConcat(assignments, writes, id);
        WritesCount(snapshot, interns, skillRows, ratingRows, faults, id);
        if id in ids {
          var i :| 0 <= i < |snapshot| && snapshot[i].id == id;
          assert snapshot[i] in projects;
          var m :| 0 <= m < |projects| && projects[m] == snapshot[i];
          assert m == k;
        }
      }
    }
  }

  /** Rating rows of the first scenario: intern 1 rates skills 1 and 2 with
      3 and 2, intern 2 with 5 and 5. */
  const scenarioRatings := [InternSkill(1, 1, Some(3)), InternSkill(1, 2, Some(2)),
                            InternSkill(2, 1, Some(5)), InternSkill(2, 2, Some(5))]

  /** Scored on skills 1 and 2, intern 1 gets 3 + 2. */
  lemma ScenarioFirstScore()
    ensures Score([1, 2], RatingsOf(scenarioRatings, 1)) == 5
  {
    var one: seq<SkillId>, both: seq<SkillId> := [1], [1, 2];
    assert both[..1] == one && one[..0] == [];
    var first := RatingsOf(scenarioRatings, 1);
    assert first == [InternSkill(1, 1, Some(3)), InternSkill(1, 2, Some(2))];
    assert first[1..] == [InternSkill(1, 2, Some(2))];
    assert Score(one, first) == RatingOf(first, 1) == 3;
    assert RatingOf(first, 2) == RatingOf(first[1..], 2) == 2;
  }

  /** Scored on skills 1 and 2, intern 2 gets 5 + 5. */
  lemma ScenarioSecondScore()
    ensures Score([1, 2], RatingsOf(scenarioRatings, 2)) == 10
  {
    var one: seq<SkillId>, both: seq<SkillId> := [1], [1, 2];
    assert both[..1] == one && one[..0] == [];
    var second := RatingsOf(scenarioRatings, 2);
    var tail := [InternSkill(2, 1, Some(5)), InternSkill(2, 2, Some(5))];
    assert scenarioRatings[1..][1..] == scenarioRatings[2..] == tail;
    assert RatingsOf(tail, 2) == tail by {
      assert tail[1..][1..] == [];
    }
    assert second == RatingsOf(scenarioRatings[1..], 2) == tail;
    assert second[1..] == [InternSkill(2, 2, Some(5))];
    assert Score(one, second) == RatingOf(second, 1) == 5;
    assert RatingOf(second, 2) == RatingOf(second[1..], 2) == 5;
  }

  const scenarioInterns := [User(1, Intern, Some(12)), User(2, Intern, Some(15))]
  const scenarioProject := Project(1, Some(10), None)
  const noFaults := Faults(false, false, {}, {})

  /** Both interns of the first scenario are read and eligible for the 10-hour project. */
  lemma ScenarioEntries()
    ensures var es := Entries(scenarioProject, 0, scenarioInterns, [1, 2], scenarioRatings, noFaults);
      |es| == 2 && es[0] == Entry(Some(5), true) && es[1] == Entry(Some(10), true)
  {
    var es := Entries(scenarioProject, 0, scenarioInterns, [1, 2], scenarioRatings, noFaults);
    assert es[0] == EntryFor(scenarioProject, 0, 0, scenarioInterns[0], [1, 2], scenarioRatings, noFaults);
    assert es[1] == EntryFor(scenarioProject, 0, 1, scenarioInterns[1], [1, 2], scenarioRatings, noFaults);
    ScenarioEntry(0, 5);
    ScenarioEntry(1, 10);
  }

  /** The entry of one intern of the first scenario. */
  lemma ScenarioEntry(j: nat, score: int)
    requires (j == 0 && score == 5) || (j == 1 && score == 10)
    ensures j < |scenarioInterns|
    ensures EntryFor(scenarioProject, 0, j, scenarioInterns[j], [1, 2], scenarioRatings, noFaults) == Entry(Some(score), true)
  {
    if j == 0 {
      ScenarioFirstScore();
    } else {
      ScenarioSecondScore();
    }
  }

  /** Project 1 (10 hours, skills 1 and 2) between intern 1 (goal 12, score 5)
      and intern 2 (goal 15, score 10) goes to intern 2. */
  lemma ScenarioHigherScoreWins()
    ensures Decide(scenarioProject, 0, scenarioInterns, [ProjectSkill(1, 1), ProjectSkill(1, 2)],
                   scenarioRatings, noFaults) == Matched(1)
  {
    ScenarioSkills();
    ScenarioPick();
  }

  /** Project 1 of the first scenario requires skills 1 and 2. */
  lemma ScenarioSkills()
    ensures SkillsOf([ProjectSkill(1, 1), ProjectSkill(1, 2)], 1) == [1, 2]
  {
    var rows := [ProjectSkill(1, 1), ProjectSkill(1, 2)];
    assert rows[1..] == [ProjectSkill(1, 2)] && rows[1..][1..] == [];
  }

  /** The running best of the first scenario ends at intern 2 with score 10. */
  lemma ScenarioPick()
    ensures Pick(Entries(scenarioProject, 0, scenarioInterns, [1, 2], scenarioRatings, noFaults)) == Best(Some(1), 10)
  {
    var es := Entries(scenarioProject, 0, scenarioInterns, [1, 2], scenarioRatings, noFaults);
    ScenarioEntries();
    assert es[..1] == [es[0]] && es[..1][..0] == [];
    assert Pick(es[..1]) == Best(Some(0), 5);
  }

  /** Project 2 (20 hours) with intern 3 (goal 10) as the only intern stays
      unassigned, whatever the score. */
  lemma ScenarioOverCapacity(skillRows: seq<ProjectSkill>, ratingRows: seq<InternSkill>)
    ensures Decide(Project(2, Some(20), None), 0, [User(3, Intern, Some(10))], skillRows, ratingRows, noFaults) == Unmatched
  {
    var lone := Entries(Project(2, Some(20), None), 0, [User(3, Intern, Some(10))], SkillsOf(skillRows, 2), ratingRows, noFaults);
    assert lone[..0] == [];
  }

  /** The interns are never removed from the list, so one intern can win
      every project of a run. */
  lemma ScenarioOneInternWinsTwice()
    ensures var projects := [Project(1, Some(5), None), Project(2, Some(8), None)];
      var interns := [User(7, Intern, Some(10))];
      Writes(projects, interns, [], [], noFaults) ==
        [Assignment(7, 1, false), Assignment(7, 2, false)]
  {
    var projects := [Project(1, Some(5), None), Project(2, Some(8), None)];
    var interns := [User(7, Intern, Some(10))];
    assert projects[..1] == [projects[0]];
    assert [projects[0]][..0] == [];
    DecideWithoutSkills(projects[0], 0, interns, [], [], noFaults, 0);
    DecideWithoutSkills(projects[1], 1, interns, [], [], noFaults, 0);
  }
}
