/**
 Organizations: members, team members and project collaborators, the change of the owner, and the
 ranked view of project roles.
 */
module Membership {
  type PersonId = nat
  type OrgId = nat
  type TeamId = nat
  type ProjectId = nat

  /** The three kinds of users. */
  datatype Account = Person(person: PersonId) | Org(org: OrgId) | Team(team: TeamId)

  datatype MemberRole = AdminMember | PlainMember

  datatype Role = Admin | Manager | Editor | Reporter | Reader

  datatype Project = Project(owner: Account, isPublic: bool)

  datatype Collaboration = Collaboration(role: Role, incognito: bool)

  type Members = map<(OrgId, PersonId), MemberRole>

  datatype Db = Db(
    owners: map<OrgId, PersonId>,
    teams: map<TeamId, OrgId>,
    projects: map<ProjectId, Project>,
    members: Members,
    teamMembers: set<(TeamId, PersonId)>,
    collaborators: map<(ProjectId, Account), Collaboration>)

  // ---- queries ----

  predicate OwnedBy(db: Db, p: ProjectId, o: OrgId) {
    p in db.projects && db.projects[p].owner == Org(o)
  }

  predicate TeamOf(db: Db, t: TeamId, o: OrgId) {
    t in db.teams && db.teams[t] == o
  }

  predicate IsOwner(db: Db, o: OrgId, m: PersonId) {
    o in db.owners && db.owners[o] == m
  }

  predicate Belongs(db: Db, o: OrgId, m: PersonId) {
    (o, m) in db.members || IsOwner(db, o, m)
  }

  function MembersOf(db: Db, o: OrgId): set<(OrgId, PersonId)> {
    set x | x in db.members && x.0 == o
  }

  // ---- cascades ----

  /** The rows that the removal of member `m` from organization `o` takes along. */
  function WithoutTeamsOf(db: Db, o: OrgId, m: PersonId): set<(TeamId, PersonId)> {
    set x | x in db.teamMembers && !(TeamOf(db, x.0, o) && x.1 == m)
  }

  function WithoutCollaborationsOf(db: Db, o: OrgId, m: PersonId): map<(ProjectId, Account), Collaboration> {
    map x | x in db.collaborators && !(OwnedBy(db, x.0, o) && x.1 == Person(m)) :: db.collaborators[x]
  }

  /** Deleting one membership through its instance. */
  function Removed(db: Db, o: OrgId, m: PersonId): Db {
    db.(members := db.members - {(o, m)},
        teamMembers := WithoutTeamsOf(db, o, m),
        collaborators := WithoutCollaborationsOf(db, o, m))
  }

  predicate InOrgs(sel: set<(OrgId, PersonId)>, o: OrgId) {
    exists x :: x in sel && x.0 == o
  }

  predicate InPersons(sel: set<(OrgId, PersonId)>, m: PersonId) {
    exists x :: x in sel && x.1 == m
  }

  predicate TeamRowSelected(db: Db, sel: set<(OrgId, PersonId)>, x: (TeamId, PersonId)) {
    x.0 in db.teams && InOrgs(sel, db.teams[x.0]) && InPersons(sel, x.1)
  }

  predicate CollaborationSelected(db: Db, sel: set<(OrgId, PersonId)>, x: (ProjectId, Account)) {
    && x.0 in db.projects && db.projects[x.0].owner.Org? && InOrgs(sel, db.projects[x.0].owner.org)
    && x.1.Person? && InPersons(sel, x.1.person)
  }

  /** Deleting a query set of memberships: organizations and members are matched apart. */
  function RemovedAll(db: Db, sel: set<(OrgId, PersonId)>): Db {
    db.(members := db.members - sel,
        teamMembers := (set x | x in db.teamMembers && !TeamRowSelected(db, sel, x)),
        collaborators := map x | x in db.collaborators && !CollaborationSelected(db, sel, x) :: db.collaborators[x])
  }

  // ---- checks ----

  datatype Result = Ok | NotAllowed | SeatsFull | NotUnique | NoSuchRow

  /** `max` is the number of members the subscription allows, the owner included; -1 is unlimited. */
  predicate HasSeat(db: Db, o: OrgId, max: int) {
    max > -1 ==> |MembersOf(db, o)| + 1 < max
  }

  /** `OrganizationMember.clean` and the unique constraint, for a new row. */
  function CheckMember(db: Db, o: OrgId, m: PersonId, max: int): Result {
    if o !in db.owners then NoSuchRow
    else if db.owners[o] == m then NotAllowed
    else if !HasSeat(db, o, max) then SeatsFull
    else if (o, m) in db.members then NotUnique
    else Ok
  }

  function CheckTeamMember(db: Db, t: TeamId, m: PersonId): Result {
    if t !in db.teams then NoSuchRow
    else if !Belongs(db, db.teams[t], m) then NotAllowed
    else if (t, m) in db.teamMembers then NotUnique
    else Ok
  }

  function CheckCollaborator(db: Db, p: ProjectId, c: Account): Result {
    if p !in db.projects then NoSuchRow
    else
      var owner := db.projects[p].owner;
      if owner == c then NotAllowed
      else if c.Org? then NotAllowed
      else if owner.Org? && c.Person? && !Belongs(db, owner.org, c.person) then NotAllowed
      else if owner.Org? && c.Team? && !TeamOf(db, c.team, owner.org) then NotAllowed
      else if (p, c) in db.collaborators then NotUnique
      else Ok
  }

  /** `Organization.save` with a new owner.  The old owner becomes an admin member, if there is a
      seat; if it already was a member, the row is refused because the stored owner is still the old
      one. */
  function ChangedOwner(db: Db, o: OrgId, m: PersonId, max: int): (Result, Db) {
    if o !in db.owners then (NoSuchRow, db)
    else if db.owners[o] == m then (Ok, db)
    else
      var before := db.owners[o];
      var removed := RemovedAll(db, {(o, m)} * db.members.Keys);
      if (o, before) in removed.members then (NotAllowed, db)
      else if !HasSeat(removed, o, max) then (SeatsFull, db)
      else (Ok, removed.(members := removed.members[(o, before) := AdminMember], owners := removed.owners[o := m]))
  }

  // ---- what every operation keeps ----

  ghost predicate OwnersAreNoMembers(db: Db) {
    forall x :: x in db.members ==> x.0 in db.owners && db.owners[x.0] != x.1
  }

  /** Team members belong to the organization of their team. */
  ghost predicate TeamMembersBelong(db: Db) {
    forall x :: x in db.teamMembers ==> x.0 in db.teams && Belongs(db, db.teams[x.0], x.1)
  }

  /** On an organization's project, persons belong to the organization and teams are its own. */
  ghost predicate CollaboratorsBelong(db: Db) {
    forall x :: x in db.collaborators ==>
      && x.0 in db.projects && !x.1.Org?
      && (db.projects[x.0].owner.Org? ==>
            && (x.1.Person? ==> Belongs(db, db.projects[x.0].owner.org, x.1.person))
            && (x.1.Team? ==> TeamOf(db, x.1.team, db.projects[x.0].owner.org)))
  }

  ghost predicate Inv(db: Db) {
    OwnersAreNoMembers(db) && TeamMembersBelong(db) && CollaboratorsBelong(db)
  }

  // ---- the tables ----

  class Tables {
    var owners: map<OrgId, PersonId>
    var teams: map<TeamId, OrgId>
    var projects: map<ProjectId, Project>
    var members: Members
    var teamMembers: set<(TeamId, PersonId)>
    var collaborators: map<(ProjectId, Account), Collaboration>

    function Contents(): Db
      reads this
    {
      Db(owners, teams, projects, members, teamMembers, collaborators)
    }

    constructor ()
      ensures Contents() == Db(map[], map[], map[], map[], {}, map[])
    {
      owners, teams, projects, members, teamMembers, collaborators := map[], map[], map[], map[], {}, map[];
    }

    /** A new member belongs to the organization, is not its owner and has a seat. */
    method AddMember(o: OrgId, m: PersonId, role: MemberRole, max: int) returns (r: Result)
      modifies this`members
      ensures r == CheckMember(old(Contents()), o, m, max)
      ensures members == if r.Ok? then old(members)[(o, m) := role] else old(members)
      ensures r.Ok? <==>
        o in owners && owners[o] != m && (o, m) !in old(members)
        && (max < 0 || |set x | x in old(members) && x.0 == o| + 1 < max)
      ensures r.Ok? ==> Belongs(Contents(), o, m) && !IsOwner(Contents(), o, m)
      ensures r.Ok? && max > -1 ==> |MembersOf(Contents(), o)| + 1 <= max
      ensures Inv(old(Contents())) ==> Inv(Contents())
    {
      if o !in owners { return NoSuchRow; }
      if owners[o] == m { return NotAllowed; }
      if max > -1 && |MembersOf(Contents(), o)| + 1 >= max { return SeatsFull; }
      if (o, m) in members { return NotUnique; }
      ghost var before := Contents();
      members := members[(o, m) := role];
      assert MembersOf(Contents(), o) == MembersOf(before, o) + {(o, m)};
      r := Ok;
    }

    /** `OrganizationMember.delete` of one instance. */
    method RemoveMember(o: OrgId, m: PersonId)
      modifies this
      ensures Contents() == Removed(old(Contents()), o, m)
    {
      members := members - {(o, m)};
      collaborators := map x | x in collaborators && !(OwnedBy(Contents(), x.0, o) && x.1 == Person(m)) ::
        collaborators[x];
      teamMembers := set x | x in teamMembers && !(TeamOf(Contents(), x.0, o) && x.1 == m);
    }

    /** `OrganizationMemberQueryset.delete`. */
    method RemoveMembers(sel: set<(OrgId, PersonId)>)
      modifies this
      ensures Contents() == RemovedAll(old(Contents()), sel)
    {
      teamMembers := set x | x in teamMembers && !TeamRowSelected(Contents(), sel, x);
      collaborators := map x | x in collaborators && !CollaborationSelected(Contents(), sel, x) :: collaborators[x];
      members := members - sel;
    }

    /** A new team member belongs to the organization of the team. */
    method AddTeamMember(t: TeamId, m: PersonId) returns (r: Result)
      modifies this`teamMembers
      ensures r == CheckTeamMember(old(Contents()), t, m)
      ensures teamMembers == old(teamMembers) + if r.Ok? then {(t, m)} else {}
      ensures r.Ok? <==>
        t in teams && (t, m) !in old(teamMembers)
        && ((teams[t], m) in members || (teams[t] in owners && owners[teams[t]] == m))
      ensures Inv(old(Contents())) ==> Inv(Contents())
    {
      if t !in teams { return NoSuchRow; }
      var o := teams[t];
      if (o, m) !in members && !(o in owners && owners[o] == m) { return NotAllowed; }
      if (t, m) in teamMembers { return NotUnique; }
      teamMembers := teamMembers + {(t, m)};
      r := Ok;
    }

    /** A new collaborator on an organization's project is a person that belongs to the organization
        or one of its teams. */
    method AddCollaborator(p: ProjectId, c: Account, row: Collaboration) returns (r: Result)
      modifies this`collaborators
      ensures r == CheckCollaborator(old(Contents()), p, c)
      ensures collaborators == if r.Ok? then old(collaborators)[(p, c) := row] else old(collaborators)
      ensures r.Ok? <==>
        p in projects && (p, c) !in old(collaborators) && projects[p].owner != c && !c.Org?
        && (projects[p].owner.Org? ==>
              var o := projects[p].owner.org;
              if c.Person? then (o, c.person) in members || (o in owners && owners[o] == c.person)
              else c.team in teams && teams[c.team] == o)
      ensures Inv(old(Contents())) ==> Inv(Contents())
    {
      if p !in projects { return NoSuchRow; }
      var owner := projects[p].owner;
      if owner == c || c.Org? { return NotAllowed; }
      if owner.Org? {
        var o := owner.org;
        if c.Person? && (o, c.person) !in members && !(o in owners && owners[o] == c.person) { return NotAllowed; }
        if c.Team? && !(c.team in teams && teams[c.team] == o) { return NotAllowed; }
      }
      if (p, c) in collaborators { return NotUnique; }
      collaborators := collaborators[(p, c) := row];
      r := Ok;
    }

    /** `Organization.save`; the changes of the memberships are one transaction. */
    method ChangeOwner(o: OrgId, m: PersonId, max: int) returns (r: Result)
      modifies this
      ensures (r, Contents()) == ChangedOwner(old(Contents()), o, m, max)
    {
      if o !in owners { return NoSuchRow; }
      var before := owners[o];
      if before == m {
        assert owners[o := m] == owners;
      } else {
        var members0, teamMembers0, collaborators0 := members, teamMembers, collaborators;
        RemoveMembers({(o, m)} * members.Keys);
        if (o, before) in members || !HasSeat(Contents(), o, max) {
          r := if (o, before) in members then NotAllowed else SeatsFull;
          members, teamMembers, collaborators := members0, teamMembers0, collaborators0;
          return;
        }
        members := members[(o, before) := AdminMember];
      }
      owners := owners[o := m];
      r := Ok;
    }
  }

  // ---- the role views ----

  datatype Origin = ProjectOwner | OrganizationOwner | OrganizationAdmin | Collaborator | TeamMember | Public

  datatype RoleRow = RoleRow(rank: nat, role: Role, incognito: bool, origin: Origin)

  /** The union of the six sources for project `p` and user `m`; which rows are in it. */
  ghost predicate Candidate(db: Db, p: ProjectId, m: PersonId, r: RoleRow) {
    p in db.projects &&
    var owner := db.projects[p].owner;
    match r.origin
    case ProjectOwner => r == RoleRow(1, Admin, false, ProjectOwner) && owner == Person(m)
    case OrganizationOwner =>
      r == RoleRow(2, Admin, false, OrganizationOwner) && owner.Org? && IsOwner(db, owner.org, m)
    case OrganizationAdmin =>
      r == RoleRow(3, Admin, false, OrganizationAdmin)
      && owner.Org? && (owner.org, m) in db.members && db.members[(owner.org, m)].AdminMember?
    case Collaborator =>
      (p, Person(m)) in db.collaborators
      && r == RoleRow(4, db.collaborators[(p, Person(m))].role, db.collaborators[(p, Person(m))].incognito,
                      Collaborator)
    case TeamMember =>
      exists t :: (t, m) in db.teamMembers && t in db.teams && (p, Team(t)) in db.collaborators
        && r == RoleRow(5, db.collaborators[(p, Team(t))].role, db.collaborators[(p, Team(t))].incognito, TeamMember)
    case Public => r == RoleRow(6, Reader, false, Public) && db.projects[p].isPublic
  }

  /** A row that DISTINCT ON may keep: one of lowest rank. */
  ghost predicate IsRole(db: Db, p: ProjectId, m: PersonId, r: RoleRow) {
    Candidate(db, p, m, r) && forall q :: Candidate(db, p, m, q) ==> r.rank <= q.rank
  }

  ghost predicate HasRole(db: Db, p: ProjectId, m: PersonId) {
    exists r :: IsRole(db, p, m, r)
  }
}
