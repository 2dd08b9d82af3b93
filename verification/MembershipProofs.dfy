/** Who can reach an organization's projects: what every run of membership changes keeps. */
module MembershipProofs {
  import opened Membership

  datatype Op =
    | CreateOrganization(o: OrgId, m: PersonId)
    | CreateTeam(t: TeamId, o: OrgId)
    | CreateProject(p: ProjectId, owner: Account, isPublic: bool)
    | SetPublic(p: ProjectId, isPublic: bool)
    | AddMember(o: OrgId, m: PersonId, role: MemberRole, max: int)
    | RemoveMember(o: OrgId, m: PersonId)
    | RemoveMembers(sel: set<(OrgId, PersonId)>)
    | AddTeamMember(t: TeamId, m: PersonId)
    | DropTeamMember(t: TeamId, m: PersonId)
    | AddCollaborator(p: ProjectId, c: Account, row: Collaboration)
    | DropCollaborator(p: ProjectId, c: Account)
    | ChangeOwner(o: OrgId, m: PersonId, max: int)

  /** The tables after one operation; one that is refused changes nothing. */
  function Next(db: Db, op: Op): Db {
    match op
    case CreateOrganization(o, m) => if o in db.owners then db else db.(owners := db.owners[o := m])
    case CreateTeam(t, o) => if t in db.teams || o !in db.owners then db else db.(teams := db.teams[t := o])
    case CreateProject(p, owner, isPublic) =>
      if p in db.projects || owner.Team? then db else db.(projects := db.projects[p := Project(owner, isPublic)])
    case SetPublic(p, isPublic) =>
      if p !in db.projects then db else db.(projects := db.projects[p := db.projects[p].(isPublic := isPublic)])
    case AddMember(o, m, role, max) =>
      if CheckMember(db, o, m, max).Ok? then db.(members := db.members[(o, m) := role]) else db
    case RemoveMember(o, m) => Removed(db, o, m)
    case RemoveMembers(sel) => RemovedAll(db, sel)
    case AddTeamMember(t, m) =>
      if CheckTeamMember(db, t, m).Ok? then db.(teamMembers := db.teamMembers + {(t, m)}) else db
    case DropTeamMember(t, m) => db.(teamMembers := db.teamMembers - {(t, m)})
    case AddCollaborator(p, c, row) =>
      if CheckCollaborator(db, p, c).Ok? then db.(collaborators := db.collaborators[(p, c) := row]) else db
    case DropCollaborator(p, c) => db.(collaborators := db.collaborators - {(p, c)})
    case ChangeOwner(o, m, max) => ChangedOwner(db, o, m, max).1
  }

  lemma RemovalKeepsInv(db: Db, o: OrgId, m: PersonId)
    requires Inv(db)
    ensures Inv(Removed(db, o, m))
  {
  }

  lemma QuerysetRemovalKeepsInv(db: Db, sel: set<(OrgId, PersonId)>)
    requires Inv(db)
    ensures Inv(RemovedAll(db, sel))
  {
    var r := RemovedAll(db, sel);
    forall x | x in r.teamMembers ensures Belongs(r, r.teams[x.0], x.1) {
      assert (db.teams[x.0], x.1) in sel ==> TeamRowSelected(db, sel, x);
    }
    forall x | x in r.collaborators && r.projects[x.0].owner.Org? && x.1.Person?
      ensures Belongs(r, r.projects[x.0].owner.org, x.1.person)
    {
      assert (db.projects[x.0].owner.org, x.1.person) in sel ==> CollaborationSelected(db, sel, x);
    }
  }

  lemma OwnerChangeKeepsInv(db: Db, o: OrgId, m: PersonId, max: int)
    requires Inv(db)
    ensures Inv(ChangedOwner(db, o, m, max).1)
  {
    QuerysetRemovalKeepsInv(db, {(o, m)} * db.members.Keys);
    hide RemovedAll, HasSeat;
    if ChangedOwner(db, o, m, max).0.Ok? && db.owners[o] != m {
      var removed := RemovedAll(db, {(o, m)} * db.members.Keys);
      assert removed.owners == db.owners && (o, m) !in removed.members by { RemovedAllLeaves(db, o, m); }
      OwnerSwapKeepsInv(removed, o, m);
    }
  }

  lemma RemovedAllLeaves(db: Db, o: OrgId, m: PersonId)
    ensures var r := RemovedAll(db, {(o, m)} * db.members.Keys); r.owners == db.owners && (o, m) !in r.members
  {
  }

  lemma OwnerSwapKeepsInv(db: Db, o: OrgId, m: PersonId)
    requires Inv(db) && o in db.owners && db.owners[o] != m && (o, m) !in db.members
    ensures Inv(db.(members := db.members[(o, db.owners[o]) := AdminMember], owners := db.owners[o := m]))
  {
    var r := db.(members := db.members[(o, db.owners[o]) := AdminMember], owners := db.owners[o := m]);
    forall org, x | Belongs(db, org, x) ensures Belongs(r, org, x) {
    }
    hide Belongs;
  }

  lemma CreationKeepsInv(db: Db, op: Op)
    requires Inv(db) && (op.CreateOrganization? || op.CreateTeam? || op.CreateProject? || op.SetPublic?)
    ensures Inv(Next(db, op))
  {
    hide Removed, RemovedAll, ChangedOwner, CheckMember, CheckTeamMember, CheckCollaborator;
  }

  lemma RowsKeepInv(db: Db, op: Op)
    requires Inv(db) && (op.AddMember? || op.AddTeamMember? || op.AddCollaborator?)
    ensures Inv(Next(db, op))
  {
    hide Removed, RemovedAll, ChangedOwner, HasSeat;
  }

  lemma StepKeepsInv(db: Db, op: Op)
    requires Inv(db)
    ensures Inv(Next(db, op))
  {
    match op
    case RemoveMember(o, m) => RemovalKeepsInv(db, o, m);
    case RemoveMembers(sel) => QuerysetRemovalKeepsInv(db, sel);
    case ChangeOwner(o, m, max) => OwnerChangeKeepsInv(db, o, m, max);
    case DropTeamMember(t, m) => hide HasSeat;
    case DropCollaborator(p, c) => hide HasSeat;
    case AddMember(_, _, _, _) => RowsKeepInv(db, op);
    case AddTeamMember(_, _) => RowsKeepInv(db, op);
    case AddCollaborator(_, _, _) => RowsKeepInv(db, op);
    case _ => CreationKeepsInv(db, op);
  }

  /** The tables after these operations on an empty database. */
  function Run(ops: seq<Op>): Db {
    if ops == [] then Db(map[], map[], map[], map[], {}, map[]) else Next(Run(ops[..|ops| - 1]), ops[|ops| - 1])
  }

  /** Main result: in every reachable state the owner is not a member, and every team member and
      every person collaborating on an organization's project is a member or the owner. */
  lemma {:induction false} RunsKeepInv(ops: seq<Op>)
    ensures Inv(Run(ops))
  {
    if ops != [] {
      hide Next, Inv;
      RunsKeepInv(ops[..|ops| - 1]);
      StepKeepsInv(Run(ops[..|ops| - 1]), ops[|ops| - 1]);
    } else {
      assert Run(ops) == Db(map[], map[], map[], map[], {}, map[]);
    }
  }

  // ---- roles ----

  /** DISTINCT ON finds a row whenever there is one. */
  lemma RoleExists(db: Db, p: ProjectId, m: PersonId, r: RoleRow)
    requires Candidate(db, p, m, r)
    ensures HasRole(db, p, m)
    decreases r.rank
  {
    if q :| Candidate(db, p, m, q) && q.rank < r.rank {
      RoleExists(db, p, m, q);
    } else {
      assert IsRole(db, p, m, r);
    }
  }

  /** Who has a role on a private project of an organization. */
  lemma PrivateRolesIff(db: Db, p: ProjectId, o: OrgId, m: PersonId)
    requires OwnedBy(db, p, o) && !db.projects[p].isPublic
    ensures HasRole(db, p, m) <==>
      || IsOwner(db, o, m)
      || ((o, m) in db.members && db.members[(o, m)].AdminMember?)
      || (p, Person(m)) in db.collaborators
      || exists t :: (t, m) in db.teamMembers && t in db.teams && (p, Team(t)) in db.collaborators
  {
    if IsOwner(db, o, m) {
      RoleExists(db, p, m, RoleRow(2, Admin, false, OrganizationOwner));
    }
    if (o, m) in db.members && db.members[(o, m)].AdminMember? {
      RoleExists(db, p, m, RoleRow(3, Admin, false, OrganizationAdmin));
    }
    if (p, Person(m)) in db.collaborators {
      var c := db.collaborators[(p, Person(m))];
      RoleExists(db, p, m, RoleRow(4, c.role, c.incognito, Collaborator));
    }
    if t :| (t, m) in db.teamMembers && t in db.teams && (p, Team(t)) in db.collaborators {
      var c := db.collaborators[(p, Team(t))];
      RoleExists(db, p, m, RoleRow(5, c.role, c.incognito, TeamMember));
    }
  }

  /** Who does not belong to an organization has no role on its private projects. */
  lemma OutsidersHaveNoRole(ops: seq<Op>, p: ProjectId, o: OrgId, m: PersonId)
    requires var db := Run(ops); OwnedBy(db, p, o) && !db.projects[p].isPublic && !Belongs(db, o, m)
    ensures !HasRole(Run(ops), p, m)
  {
    RunsKeepInv(ops);
    PrivateRolesIff(Run(ops), p, o, m);
  }

  /** So a member that is removed, by either kind of deletion, loses every role on those projects. */
  lemma RemovedMemberHasNoRole(ops: seq<Op>, sel: set<(OrgId, PersonId)>, p: ProjectId, o: OrgId, m: PersonId)
    requires (o, m) in sel && OwnedBy(Run(ops), p, o) && !Run(ops).projects[p].isPublic && !IsOwner(Run(ops), o, m)
    ensures !HasRole(RemovedAll(Run(ops), sel), p, m) && !HasRole(Removed(Run(ops), o, m), p, m)
  {
    var one, all := ops + [RemoveMember(o, m)], ops + [RemoveMembers(sel)];
    assert one[..|ops|] == ops && all[..|ops|] == ops;
    assert Run(one) == Removed(Run(ops), o, m) && Run(all) == RemovedAll(Run(ops), sel);
    hide Run;
    OutsidersHaveNoRole(one, p, o, m);
    OutsidersHaveNoRole(all, p, o, m);
  }

  /** Team `t` is on the project and the person is in it. */
  ghost predicate TeamGives(db: Db, p: ProjectId, m: PersonId, t: TeamId) {
    p in db.projects && (t, m) in db.teamMembers && t in db.teams && (p, Team(t)) in db.collaborators
  }

  function TeamRow(db: Db, p: ProjectId, t: TeamId): RoleRow
    requires (p, Team(t)) in db.collaborators
  {
    var c := db.collaborators[(p, Team(t))];
    RoleRow(5, c.role, c.incognito, TeamMember)
  }

  ghost predicate TeamsAgree(db: Db, p: ProjectId, m: PersonId) {
    forall t, u :: TeamGives(db, p, m, t) && TeamGives(db, p, m, u) ==>
                     db.collaborators[(p, Team(t))] == db.collaborators[(p, Team(u))]
  }

  ghost predicate RankedAboveTeams(db: Db, p: ProjectId, m: PersonId) {
    exists r :: Candidate(db, p, m, r) && r.rank <= 4
  }

  ghost predicate RoleIsUnique(db: Db, p: ProjectId, m: PersonId) {
    forall r, q :: IsRole(db, p, m, r) && IsRole(db, p, m, q) ==> r == q
  }

  /** Rows of one rank below that of teams are the same row. */
  lemma RowsOfOneRank(db: Db, p: ProjectId, m: PersonId, r: RoleRow, q: RoleRow)
    requires Candidate(db, p, m, r) && Candidate(db, p, m, q) && r.rank == q.rank
    ensures r == q || (r.rank == 5 && (exists t :: TeamGives(db, p, m, t) && r == TeamRow(db, p, t))
                                   && (exists t :: TeamGives(db, p, m, t) && q == TeamRow(db, p, t)))
  {
    if r.origin == TeamMember {
      var t :| (t, m) in db.teamMembers && t in db.teams && (p, Team(t)) in db.collaborators
        && r == RoleRow(5, db.collaborators[(p, Team(t))].role, db.collaborators[(p, Team(t))].incognito, TeamMember);
      assert TeamGives(db, p, m, t);
    }
    if q.origin == TeamMember {
      var t :| (t, m) in db.teamMembers && t in db.teams && (p, Team(t)) in db.collaborators
        && q == RoleRow(5, db.collaborators[(p, Team(t))].role, db.collaborators[(p, Team(t))].incognito, TeamMember);
      assert TeamGives(db, p, m, t);
    }
  }

  lemma TeamsWithoutBetter(db: Db, p: ProjectId, m: PersonId, t: TeamId)
    requires TeamGives(db, p, m, t) && !RankedAboveTeams(db, p, m)
    ensures IsRole(db, p, m, TeamRow(db, p, t))
  {
    assert Candidate(db, p, m, TeamRow(db, p, t));
  }

  /** The row that the view keeps is determined exactly if a source above the teams gives one, or all
      teams of the project that the person is in have the same role there. */
  lemma RoleIsUniqueIff(db: Db, p: ProjectId, m: PersonId)
    ensures RoleIsUnique(db, p, m) <==> RankedAboveTeams(db, p, m) || TeamsAgree(db, p, m)
  {
    hide Candidate;
    if RankedAboveTeams(db, p, m) || TeamsAgree(db, p, m) {
      forall r, q | IsRole(db, p, m, r) && IsRole(db, p, m, q) ensures r == q {
        RowsOfOneRank(db, p, m, r, q);
      }
    } else {
      var t, u :| TeamGives(db, p, m, t) && TeamGives(db, p, m, u)
        && db.collaborators[(p, Team(t))] != db.collaborators[(p, Team(u))];
      TeamsWithoutBetter(db, p, m, t);
      TeamsWithoutBetter(db, p, m, u);
    }
  }

  /** An organization with a member in two teams that are on one project with different roles. */
  function TwoTeams(): seq<Op> {
    [CreateOrganization(1, 0), CreateTeam(5, 1), CreateTeam(6, 1), CreateProject(3, Org(1), false),
     AddMember(1, 7, PlainMember, -1), AddTeamMember(5, 7), AddTeamMember(6, 7),
     AddCollaborator(3, Team(5), Collaboration(Manager, false)),
     AddCollaborator(3, Team(6), Collaboration(Reader, false))]
  }

  lemma RunNext(ops: seq<Op>, n: nat)
    requires n < |ops|
    ensures Run(ops[..n + 1]) == Next(Run(ops[..n]), ops[n])
  {
    assert ops[..n + 1][..n] == ops[..n];
  }

  lemma TwoTeamsSetUp()
    ensures Run(TwoTeams()[..4])
         == Db(map[1 := 0], map[5 := 1, 6 := 1], map[3 := Project(Org(1), false)], map[], {}, map[])
  {
    var ops := TwoTeams();
    assert ops[..0] == [];
    RunNext(ops, 0);
    RunNext(ops, 1);
    RunNext(ops, 2);
    RunNext(ops, 3);
    hide Run, HasSeat;
  }

  lemma TwoTeamsMember()
    ensures Run(TwoTeams()[..5])
         == Db(map[1 := 0], map[5 := 1, 6 := 1], map[3 := Project(Org(1), false)], map[(1, 7) := PlainMember], {},
               map[])
  {
    hide Run;
    TwoTeamsSetUp();
    RunNext(TwoTeams(), 4);
    hide Removed, RemovedAll, ChangedOwner, CheckTeamMember, CheckCollaborator;
  }

  lemma TwoTeamsJoined()
    ensures Run(TwoTeams()[..7])
         == Db(map[1 := 0], map[5 := 1, 6 := 1], map[3 := Project(Org(1), false)], map[(1, 7) := PlainMember],
               {(5, 7), (6, 7)}, map[])
  {
    hide Run;
    TwoTeamsMember();
    RunNext(TwoTeams(), 5);
    RunNext(TwoTeams(), 6);
    hide Removed, RemovedAll, ChangedOwner, CheckMember, CheckCollaborator;
  }

  lemma TwoTeamsState()
    ensures Run(TwoTeams())
         == Db(map[1 := 0], map[5 := 1, 6 := 1], map[3 := Project(Org(1), false)], map[(1, 7) := PlainMember],
               {(5, 7), (6, 7)},
               map[(3, Team(5)) := Collaboration(Manager, false), (3, Team(6)) := Collaboration(Reader, false)])
  {
    hide Run;
    var ops := TwoTeams();
    TwoTeamsJoined();
    RunNext(ops, 7);
    RunNext(ops, 8);
    assert ops[..9] == ops;
    hide Removed, RemovedAll, ChangedOwner, CheckMember, CheckTeamMember;
  }

  /** A reachable state in which the view may keep either of two roles. */
  lemma TwoTeamsGiveTwoRoles()
    ensures !RoleIsUnique(Run(TwoTeams()), 3, 7)
    ensures IsRole(Run(TwoTeams()), 3, 7, RoleRow(5, Manager, false, TeamMember))
    ensures IsRole(Run(TwoTeams()), 3, 7, RoleRow(5, Reader, false, TeamMember))
  {
    TwoTeamsState();
    var db := Run(TwoTeams());
    hide Run, TwoTeams;
    assert TeamGives(db, 3, 7, 5) && TeamGives(db, 3, 7, 6);
    TeamsWithoutBetter(db, 3, 7, 5);
    TeamsWithoutBetter(db, 3, 7, 6);
  }

  /** An organization's owner is admin of its projects, whatever else gives that person a role. */
  lemma OwnerIsAdmin(db: Db, p: ProjectId, o: OrgId, m: PersonId, r: RoleRow)
    requires OwnedBy(db, p, o) && IsOwner(db, o, m)
    ensures IsRole(db, p, m, r) <==> r == RoleRow(2, Admin, false, OrganizationOwner)
  {
    assert Candidate(db, p, m, RoleRow(2, Admin, false, OrganizationOwner));
  }

  // ---- the two kinds of deletion ----

  /** Every membership of the selection removed for itself. */
  function RemovedEach(db: Db, sel: set<(OrgId, PersonId)>): Db {
    db.(members := db.members - sel,
        teamMembers := (set x | x in db.teamMembers && !(x.0 in db.teams && (db.teams[x.0], x.1) in sel)),
        collaborators := map x | x in db.collaborators
            && !(x.0 in db.projects && db.projects[x.0].owner.Org? && x.1.Person?
                 && (db.projects[x.0].owner.org, x.1.person) in sel) :: db.collaborators[x])
  }

  /** Deleting memberships one by one, each through its instance. */
  function RemovedInTurn(db: Db, list: seq<(OrgId, PersonId)>): Db {
    if list == [] then db
    else
      var x := list[|list| - 1];
      Removed(RemovedInTurn(db, list[..|list| - 1]), x.0, x.1)
  }

  lemma RemovedEachNone(db: Db)
    ensures RemovedEach(db, {}) == db
  {
    assert RemovedEach(db, {}).collaborators == db.collaborators;
  }

  lemma RemovedEachNext(db: Db, sel: set<(OrgId, PersonId)>, o: OrgId, m: PersonId)
    ensures Removed(RemovedEach(db, sel), o, m) == RemovedEach(db, sel + {(o, m)})
  {
    var r, q := Removed(RemovedEach(db, sel), o, m), RemovedEach(db, sel + {(o, m)});
    assert r.members == q.members;
    assert r.teamMembers == q.teamMembers;
    assert r.collaborators == q.collaborators;
  }

  /** The order of the instance deletions makes no difference. */
  lemma {:induction false} InTurnIsEach(db: Db, list: seq<(OrgId, PersonId)>)
    ensures RemovedInTurn(db, list) == RemovedEach(db, set x | x in list)
  {
    if list == [] {
      RemovedEachNone(db);
    } else {
      var init, x := list[..|list| - 1], list[|list| - 1];
      InTurnIsEach(db, init);
      RemovedEachNext(db, (set y | y in init), x.0, x.1);
      assert (set y | y in list) == (set y | y in init) + {(x.0, x.1)};
      hide Removed, RemovedEach;
    }
  }

  /** No row joins an organization and a person of two different selected memberships. */
  ghost predicate NoCrossedRow(db: Db, sel: set<(OrgId, PersonId)>) {
    && (forall x :: x in db.teamMembers && TeamRowSelected(db, sel, x) ==> (db.teams[x.0], x.1) in sel)
    && (forall x :: x in db.collaborators && CollaborationSelected(db, sel, x) ==>
                      (db.projects[x.0].owner.org, x.1.person) in sel)
  }

  /** Deleting memberships as a query set removes the same rows as deleting them one by one, through
      their instances, exactly if no row joins an organization and a person of two different ones. */
  lemma QuerysetDeleteIff(db: Db, list: seq<(OrgId, PersonId)>)
    ensures RemovedAll(db, set x | x in list) == RemovedInTurn(db, list) <==> NoCrossedRow(db, set x | x in list)
  {
    InTurnIsEach(db, list);
    EachIff(db, set x | x in list);
    hide RemovedAll, RemovedEach, RemovedInTurn, NoCrossedRow;
  }

  lemma EachIff(db: Db, sel: set<(OrgId, PersonId)>)
    ensures RemovedAll(db, sel) == RemovedEach(db, sel) <==> NoCrossedRow(db, sel)
  {
    var all, each := RemovedAll(db, sel), RemovedEach(db, sel);
    forall x | x in db.teamMembers
      ensures x in all.teamMembers <==> !TeamRowSelected(db, sel, x)
      ensures x in each.teamMembers <==> !(x.0 in db.teams && (db.teams[x.0], x.1) in sel)
    {
    }
    forall x | x in db.collaborators
      ensures x in all.collaborators <==> !CollaborationSelected(db, sel, x)
      ensures x in each.collaborators <==> !(x.0 in db.projects && db.projects[x.0].owner.Org? && x.1.Person?
                                             && (db.projects[x.0].owner.org, x.1.person) in sel)
    {
    }
  }

  /** In particular within one organization. */
  lemma OneOrganizationIsExact(db: Db, list: seq<(OrgId, PersonId)>, o: OrgId)
    requires forall x :: x in list ==> x.0 == o
    ensures RemovedAll(db, set x | x in list) == RemovedInTurn(db, list)
  {
    QuerysetDeleteIff(db, list);
    var sel := set x | x in list;
    forall m: PersonId | InPersons(sel, m) ensures (o, m) in sel {
      var x :| x in sel && x.1 == m;
      assert x == (o, m);
    }
  }

  /** A change of the owner takes the new owner's membership with its team rows and collaborations
      along, as an instance deletion does, and makes the old owner an admin member. */
  lemma OwnerChangeRemovesMember(db: Db, o: OrgId, m: PersonId, max: int)
    requires Inv(db) && o in db.owners && db.owners[o] != m && ChangedOwner(db, o, m, max).0.Ok?
    ensures var r := Removed(db, o, m);
      ChangedOwner(db, o, m, max).1
      == r.(members := r.members[(o, db.owners[o]) := AdminMember], owners := r.owners[o := m])
  {
    var sel := {(o, m)} * db.members.Keys;
    if (o, m) in db.members {
      var list := [(o, m)];
      OneOrganizationIsExact(db, list, o);
      assert list[..0] == [] && RemovedInTurn(db, []) == db;
      assert sel == set x | x in list;
    } else {
      assert sel == {};
      assert RemovedAll(db, {}) == db == Removed(db, o, m) by {
        NothingToRemove(db, o, m);
      }
    }
    hide RemovedAll, Removed, HasSeat;
  }

  lemma NothingToRemove(db: Db, o: OrgId, m: PersonId)
    requires Inv(db) && !Belongs(db, o, m)
    ensures RemovedAll(db, {}) == db == Removed(db, o, m)
  {
    assert RemovedAll(db, {}).collaborators == db.collaborators;
    assert Removed(db, o, m).collaborators == db.collaborators;
  }

  /** Over two organizations too much is deleted: person 7 stays a member of organization 2 but loses
      its team there, because 7 is removed from organization 1 and another person from 2. */
  lemma TwoOrganizationsDeleteTooMuch() returns (db: Db, sel: set<(OrgId, PersonId)>)
    ensures Inv(db) && sel == {(1, 7), (2, 8)}
    ensures (2, 7) in RemovedAll(db, sel).members && (5, 7) in db.teamMembers && db.teams[5] == 2
    ensures (5, 7) !in RemovedAll(db, sel).teamMembers && (5, 7) in RemovedInTurn(db, [(1, 7), (2, 8)]).teamMembers
  {
    sel := {(1, 7), (2, 8)};
    db := Db(map[1 := 0, 2 := 0], map[5 := 2], map[],
             map[(1, 7) := PlainMember, (2, 7) := PlainMember, (2, 8) := PlainMember], {(5, 7)}, map[]);
    var list := [(1, 7), (2, 8)];
    assert sel == set x | x in list;
    InTurnIsEach(db, list);
    hide Removed, RemovedInTurn;
    assert (2, 8) in sel && (1, 7) in sel;
    assert InOrgs(sel, 2) && InPersons(sel, 7);
  }

  // ---- the seat of the old owner ----

  /** A change of the owner succeeds exactly if there is a seat for the old owner; if the new owner
      was a member, it is that member's seat. */
  lemma OwnerChangeSucceedsIff(db: Db, o: OrgId, m: PersonId, max: int)
    requires Inv(db) && o in db.owners && db.owners[o] != m
    ensures ChangedOwner(db, o, m, max).0.Ok? <==>
      max < 0 || |MembersOf(db, o)| + (if (o, m) in db.members then 0 else 1) < max
    ensures !ChangedOwner(db, o, m, max).0.Ok? ==> ChangedOwner(db, o, m, max) == (SeatsFull, db)
  {
    var removed := RemovedAll(db, {(o, m)} * db.members.Keys);
    assert MembersOf(removed, o) == MembersOf(db, o) - {(o, m)};
  }

  // ---- refusals ----

  /** Why a new row is refused, first things first: something does not exist, the row is not allowed
      there, no seat is left, or there is one already. */
  lemma RefusedMemberIff(db: Db, o: OrgId, m: PersonId, max: int)
    ensures var r := CheckMember(db, o, m, max);
      var seats := max < 0 || |set x | x in db.members && x.0 == o| + 1 < max;
      && (r == NoSuchRow <==> o !in db.owners)
      && (r == NotAllowed <==> o in db.owners && db.owners[o] == m)
      && (r == SeatsFull <==> o in db.owners && db.owners[o] != m && !seats)
      && (r == NotUnique <==> o in db.owners && db.owners[o] != m && seats && (o, m) in db.members)
  {
  }

  lemma RefusedTeamMemberIff(db: Db, t: TeamId, m: PersonId)
    ensures var r := CheckTeamMember(db, t, m);
      var belongs := t in db.teams && ((db.teams[t], m) in db.members || IsOwner(db, db.teams[t], m));
      && (r == NoSuchRow <==> t !in db.teams)
      && (r == NotAllowed <==> t in db.teams && !belongs)
      && (r == NotUnique <==> belongs && (t, m) in db.teamMembers)
      && r != SeatsFull
  {
  }

  lemma RefusedCollaboratorIff(db: Db, p: ProjectId, c: Account)
    ensures var r := CheckCollaborator(db, p, c);
      var allowed := p in db.projects && db.projects[p].owner != c && !c.Org?
        && (db.projects[p].owner.Org? ==>
              var o := db.projects[p].owner.org;
              if c.Person? then (o, c.person) in db.members || IsOwner(db, o, c.person)
              else c.team in db.teams && db.teams[c.team] == o);
      && (r == NoSuchRow <==> p !in db.projects)
      && (r == NotAllowed <==> p in db.projects && !allowed)
      && (r == NotUnique <==> allowed && (p, c) in db.collaborators)
      && r != SeatsFull
  {
  }
}
