/**
  The rows of the data store that an allocation run reads and writes, the
  filtered selects it issues, and the store itself as an object whose tables
  the two writes (insert an `intern_projects` row, flag a project assigned)
  update in place.
 */
module Tables {
  import opened Wrappers
  import opened Scoring

  type ProjectId = nat

  datatype Role = Intern | Admin

  /** A row of `users`: `goal_hours` is the monthly hour goal an intern sets (nullable). */
  datatype User = User(id: InternId, role: Role, goalHours: Option<int>)

  /** A row of `projects`: `assigned` is null until the project is assigned. */
  datatype Project = Project(id: ProjectId, estimatedHours: Option<int>, assignedFlag: Option<bool>)

  /** A row of `project_skills`: one skill a project requires. */
  datatype ProjectSkill = ProjectSkill(projectId: ProjectId, skillId: SkillId)

  /** A row of `intern_projects`: a live assignment of a project to an intern. */
  datatype Assignment = Assignment(internId: InternId, projectId: ProjectId, completed: bool)

  /** `id` is the primary key of `projects`. */
  predicate DistinctIds(projects: seq<Project>)
  {
    forall a, b :: 0 <= a < b < |projects| ==> projects[a].id != projects[b].id
  }

  /** `select('*').is('assigned', null)` on `projects`, in table order. */
  function Unassigned(projects: seq<Project>): (r: seq<Project>)
    ensures forall p :: p in r <==> p in projects && p.assignedFlag.None?
  {
    if projects == [] then []
    else (if projects[0].assignedFlag.None? then [projects[0]] else []) + Unassigned(projects[1..])
  }

  /** The listed projects keep the primary key's distinct ids. */
  lemma {:induction false} UnassignedDistinct(projects: seq<Project>)
    requires DistinctIds(projects)
    ensures DistinctIds(Unassigned(projects))
  {
    if projects != [] {
      var rest := Unassigned(projects[1..]);
      UnassignedDistinct(projects[1..]);
      forall p | p in rest
        ensures p.id != projects[0].id
      {
        var k :| 0 <= k < |projects[1..]| && projects[1..][k] == p;
        assert projects[k + 1] == p;
      }
    }
  }

  /** `select('*').eq('role', 'intern')` on `users`, in table order. */
  function Interns(users: seq<User>): (r: seq<User>)
    ensures forall u :: u in r <==> u in users && u.role == Intern
  {
    if users == [] then []
    else (if users[0].role == Intern then [users[0]] else []) + Interns(users[1..])
  }

  /** The `skill_id` of every `project_skills` row for the project, in table
      order: one entry per row, so a skill stored twice is listed twice. */
  function SkillsOf(rows: seq<ProjectSkill>, projectId: ProjectId): (r: seq<SkillId>)
    ensures forall s :: s in r <==> ProjectSkill(projectId, s) in rows
    ensures forall s :: multiset(r)[s] == multiset(rows)[ProjectSkill(projectId, s)]
  {
    if rows == [] then []
    else
      var head := if rows[0].projectId == projectId then [rows[0].skillId] else [];
      assert rows == [rows[0]] + rows[1..];
      assert forall s :: multiset(head)[s] == multiset([rows[0]])[ProjectSkill(projectId, s)];
      head + SkillsOf(rows[1..], projectId)
  }

  /** `select('*').eq('intern_id', id)` on `intern_skills`, in table order. */
  function RatingsOf(rows: seq<InternSkill>, internId: InternId): (r: seq<InternSkill>)
    ensures forall row :: row in r <==> row in rows && row.internId == internId
  {
    if rows == [] then []
    else (if rows[0].internId == internId then [rows[0]] else []) + RatingsOf(rows[1..], internId)
  }

  /** A new `intern_skills` row shows up only in its own intern's ratings, at the end. */
  lemma {:induction false} RatingsOfAppend(rows: seq<InternSkill>, row: InternSkill, internId: InternId)
    ensures RatingsOf(rows + [row], internId) ==
      RatingsOf(rows, internId) + if row.internId == internId then [row] else []
  {
    if rows == [] {
      assert [row][1..] == [];
    } else {
      assert (rows + [row])[1..] == rows[1..] + [row];
      RatingsOfAppend(rows[1..], row, internId);
    }
  }

  /** `update({ assigned: true })` applied to every project row whose id is in `ids`. */
  function SetAssigned(projects: seq<Project>, ids: set<ProjectId>): (r: seq<Project>)
    ensures |r| == |projects|
    ensures forall k :: 0 <= k < |r| ==> r[k].id == projects[k].id && r[k].estimatedHours == projects[k].estimatedHours
    ensures forall k :: 0 <= k < |r| ==> r[k].assignedFlag == if projects[k].id in ids then Some(true) else projects[k].assignedFlag
  {
    seq(|projects|, k requires 0 <= k < |projects| =>
      if projects[k].id in ids then projects[k].(assignedFlag := Some(true)) else projects[k])
  }

  /** How many assignment rows name the project. */
  function CountFor(assignments: seq<Assignment>, projectId: ProjectId): nat
  {
    if assignments == [] then 0
    else
      var last := assignments[|assignments| - 1];
      CountFor(assignments[..|assignments| - 1], projectId) + (if last.projectId == projectId then 1 else 0)
  }

  /** No double assignment: a project has at most one live assignment, and
      none while its `assigned` flag is still null. */
  predicate NoDoubleAssignment(projects: seq<Project>, assignments: seq<Assignment>)
  {
    forall k :: 0 <= k < |projects| ==>
      CountFor(assignments, projects[k].id) <= if projects[k].assignedFlag.None? then 0 else 1
  }

  lemma {:induction false} CountForConcat(a: seq<Assignment>, b: seq<Assignment>, projectId: ProjectId)
    ensures CountFor(a + b, projectId) == CountFor(a, projectId) + CountFor(b, projectId)
  {
    if b == [] {
      assert a + b == a;
    } else {
      assert (a + b)[..|a + b| - 1] == a + b[..|b| - 1];
      CountForConcat(a, b[..|b| - 1], projectId);
    }
  }

  /** Two flag updates in a row are one update over the union of the ids. */
  lemma SetAssignedTwice(projects: seq<Project>, ids: set<ProjectId>, more: set<ProjectId>)
    ensures SetAssigned(SetAssigned(projects, ids), more) == SetAssigned(projects, ids + more)
  {
  }

  /** The data store, with one field per table the run touches. */
  class Database {
    var projects: seq<Project>
    var users: seq<User>
    var projectSkills: seq<ProjectSkill>
    var internSkills: seq<InternSkill>
    var internProjects: seq<Assignment>

    ghost predicate Valid()
      reads this
    {
      DistinctIds(projects)
    }

    ghost predicate Consistent()
      reads this
    {
      NoDoubleAssignment(projects, internProjects)
    }

    constructor (projects: seq<Project>, users: seq<User>, projectSkills: seq<ProjectSkill>,
                 internSkills: seq<InternSkill>, internProjects: seq<Assignment>)
      requires DistinctIds(projects)
      ensures Valid()
      ensures this.projects == projects && this.users == users && this.projectSkills == projectSkills
      ensures this.internSkills == internSkills && this.internProjects == internProjects
    {
      this.projects := projects;
      this.users := users;
      this.projectSkills := projectSkills;
      this.internSkills := internSkills;
      this.internProjects := internProjects;
    }

    /** `from('intern_projects').insert(...)`. */
    method InsertAssignment(a: Assignment)
      requires Valid()
      modifies this
      ensures Valid()
      ensures internProjects == old(internProjects) + [a]
      ensures projects == old(projects) && users == old(users)
      ensures projectSkills == old(projectSkills) && internSkills == old(internSkills)
    {
      internProjects := internProjects + [a];
    }

    /** `from('projects').update({ assigned: true }).eq('id', projectId)`. */
    method MarkAssigned(projectId: ProjectId)
      requires Valid()
      modifies this
      ensures Valid()
      ensures projects == SetAssigned(old(projects), {projectId})
      ensures internProjects == old(internProjects) && users == old(users)
      ensures projectSkills == old(projectSkills) && internSkills == old(internSkills)
    {
      projects := SetAssigned(projects, {projectId});
    }
  }
}
