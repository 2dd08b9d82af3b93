/** Which role the view keeps, said of the tables. */
module RoleLaws {
  import opened Membership
  import opened MembershipProofs

  predicate OwnsProject(db: Db, p: ProjectId, m: PersonId)
    requires p in db.projects
  {
    db.projects[p].owner == Person(m)
  }

  /** The person owns the organization that owns the project. */
  predicate OwnsOrganization(db: Db, p: ProjectId, m: PersonId)
    requires p in db.projects
  {
    var owner := db.projects[p].owner; owner.Org? && owner.org in db.owners && db.owners[owner.org] == m
  }

  predicate IsAdminMember(db: Db, p: ProjectId, m: PersonId)
    requires p in db.projects
  {
    var owner := db.projects[p].owner;
    owner.Org? && (owner.org, m) in db.members && db.members[(owner.org, m)] == AdminMember
  }

  predicate Collaborates(db: Db, p: ProjectId, m: PersonId) {
    (p, Person(m)) in db.collaborators
  }

  /** The person is in a team that collaborates on the project as `c` says. */
  ghost predicate ThroughTeam(db: Db, p: ProjectId, m: PersonId, c: Collaboration) {
    exists t :: t in db.teams && (t, m) in db.teamMembers && (p, Team(t)) in db.collaborators
                && db.collaborators[(p, Team(t))] == c
  }

  ghost predicate InTeam(db: Db, p: ProjectId, m: PersonId) {
    exists c :: ThroughTeam(db, p, m, c)
  }

  /** The row that the tables give, by the first source that has one. */
  ghost predicate Expected(db: Db, p: ProjectId, m: PersonId, r: RoleRow)
    requires p in db.projects
  {
    if OwnsProject(db, p, m) then r == RoleRow(1, Admin, false, ProjectOwner)
    else if OwnsOrganization(db, p, m) then r == RoleRow(2, Admin, false, OrganizationOwner)
    else if IsAdminMember(db, p, m) then r == RoleRow(3, Admin, false, OrganizationAdmin)
    else if Collaborates(db, p, m) then
      var c := db.collaborators[(p, Person(m))]; r == RoleRow(4, c.role, c.incognito, Collaborator)
    else if InTeam(db, p, m) then
      r.rank == 5 && r.origin == TeamMember && ThroughTeam(db, p, m, Collaboration(r.role, r.incognito))
    else db.projects[p].isPublic && r == RoleRow(6, Reader, false, Public)
  }

  lemma TeamCandidateIff(db: Db, p: ProjectId, m: PersonId, r: RoleRow)
    requires p in db.projects && r.origin == TeamMember
    ensures Candidate(db, p, m, r) <==> r.rank == 5 && ThroughTeam(db, p, m, Collaboration(r.role, r.incognito))
  {
    if t :| t in db.teams && (t, m) in db.teamMembers && (p, Team(t)) in db.collaborators
            && db.collaborators[(p, Team(t))] == Collaboration(r.role, r.incognito) {
      assert (t, m) in db.teamMembers && t in db.teams && (p, Team(t)) in db.collaborators;
    }
  }

  /** Which rows the six sources give. */
  lemma CandidateIff(db: Db, p: ProjectId, m: PersonId, r: RoleRow)
    requires p in db.projects
    ensures Candidate(db, p, m, r) <==>
      match r.origin
      case ProjectOwner => OwnsProject(db, p, m) && r == RoleRow(1, Admin, false, ProjectOwner)
      case OrganizationOwner => OwnsOrganization(db, p, m) && r == RoleRow(2, Admin, false, OrganizationOwner)
      case OrganizationAdmin => IsAdminMember(db, p, m) && r == RoleRow(3, Admin, false, OrganizationAdmin)
      case Collaborator =>
        Collaborates(db, p, m)
        && r == RoleRow(4, db.collaborators[(p, Person(m))].role, db.collaborators[(p, Person(m))].incognito,
                        Collaborator)
      case TeamMember => r.rank == 5 && ThroughTeam(db, p, m, Collaboration(r.role, r.incognito))
      case Public => db.projects[p].isPublic && r == RoleRow(6, Reader, false, Public)
  {
    if r.origin == TeamMember {
      TeamCandidateIff(db, p, m, r);
    }
    hide ThroughTeam;
  }

  /** Main result: the view keeps exactly the row of the first source that has one: owner of the project,
      owner or admin member of its organization, own collaboration, some team's collaboration, and
      reader if the project is public. */
  lemma RoleIff(db: Db, p: ProjectId, m: PersonId, r: RoleRow)
    requires p in db.projects
    ensures IsRole(db, p, m, r) <==> Expected(db, p, m, r)
  {
    hide Candidate, ThroughTeam, OwnsProject, OwnsOrganization, IsAdminMember, Collaborates;
    CandidateIff(db, p, m, r);
    if IsRole(db, p, m, r) {
      KeptIsExpected(db, p, m, r);
    } else if Expected(db, p, m, r) {
      assert Candidate(db, p, m, r);
      var q :| Candidate(db, p, m, q) && q.rank < r.rank;
      CandidateIff(db, p, m, q);
    }
  }

  lemma KeptIsExpected(db: Db, p: ProjectId, m: PersonId, r: RoleRow)
    requires p in db.projects && IsRole(db, p, m, r)
    ensures Expected(db, p, m, r)
  {
    hide Candidate, ThroughTeam, OwnsProject, OwnsOrganization, IsAdminMember, Collaborates;
    CandidateIff(db, p, m, r);
    CandidateIff(db, p, m, RoleRow(1, Admin, false, ProjectOwner));
    CandidateIff(db, p, m, RoleRow(2, Admin, false, OrganizationOwner));
    CandidateIff(db, p, m, RoleRow(3, Admin, false, OrganizationAdmin));
    if Collaborates(db, p, m) {
      assert (p, Person(m)) in db.collaborators by { OwnRow(db, p, m); }
      var c := db.collaborators[(p, Person(m))];
      CandidateIff(db, p, m, RoleRow(4, c.role, c.incognito, Collaborator));
    }
    if InTeam(db, p, m) {
      var c :| ThroughTeam(db, p, m, c);
      CandidateIff(db, p, m, RoleRow(5, c.role, c.incognito, TeamMember));
    }
    CandidateIff(db, p, m, RoleRow(6, Reader, false, Public));
  }

  lemma OwnRow(db: Db, p: ProjectId, m: PersonId)
    ensures Collaborates(db, p, m) <==> (p, Person(m)) in db.collaborators
  {
  }

  /** Who has nothing to do with a project reads it if it is public, and has no role if it is not. */
  lemma StrangersRead(db: Db, p: ProjectId, m: PersonId, r: RoleRow)
    requires p in db.projects && db.projects[p].owner != Person(m)
    requires db.projects[p].owner.Org? ==>
      var o := db.projects[p].owner.org; !(o in db.owners && db.owners[o] == m) && (o, m) !in db.members
    requires (p, Person(m)) !in db.collaborators && forall t :: (t, m) !in db.teamMembers
    ensures IsRole(db, p, m, r) <==> db.projects[p].isPublic && r == RoleRow(6, Reader, false, Public)
  {
    RoleIff(db, p, m, r);
    hide IsRole;
  }

  /** A collaborator that is neither owner nor admin has the role and the incognito flag of that row,
      whatever teams the person is in and whether or not the project is public. */
  lemma CollaboratorsHaveTheirRole(db: Db, p: ProjectId, m: PersonId, r: RoleRow)
    requires p in db.projects && db.projects[p].owner != Person(m) && (p, Person(m)) in db.collaborators
    requires db.projects[p].owner.Org? ==>
      var o := db.projects[p].owner.org;
      !(o in db.owners && db.owners[o] == m) && ((o, m) in db.members ==> db.members[(o, m)] == PlainMember)
    ensures var c := db.collaborators[(p, Person(m))];
      IsRole(db, p, m, r) <==> r == RoleRow(4, c.role, c.incognito, Collaborator)
  {
    RoleIff(db, p, m, r);
    hide IsRole;
  }
}
