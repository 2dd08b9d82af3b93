/** When the order of the rows decides which secret the query returns. */
module SecretOrder {
  import opened Prelude
  import opened Strings
  import opened Secrets

  // ---- which secret is returned ----

  /** The secret is one of the project or of its organization, for everyone or for this user. */
  predicate Concerns(s: Secret, user: nat, project: nat, organization: Option<nat>) {
    && (s.project == Some(project) || (s.project.None? && organization.Some? && s.organization == organization))
    && (s.assignedTo.None? || s.assignedTo == Some(user))
  }

  /** A project's secret comes before an organization's, and then an assigned one before an unassigned. */
  predicate Beats(s: Secret, t: Secret) {
    || (s.project.Some? && t.project.None?)
    || ((s.project.Some? <==> t.project.Some?) && s.assignedTo.Some? && t.assignedTo.None?)
  }

  /** Main result, on the columns alone: under every name of a secret that concerns user and project one
      such secret is returned, and no other of that name comes before it. */
  lemma ReturnsWhatNothingBeats(rows: seq<Secret>, user: nat, project: nat, organization: Option<nat>)
    requires forall s :: s in rows ==> (s.project.Some? <==> s.organization.None?)
    ensures var r := ForUserAndProject(rows, user, project, organization);
      && (forall i, j :: 0 <= i < j < |r| ==> r[i].name != r[j].name)
      && (forall s :: s in r ==> s in rows && Concerns(s, user, project, organization))
      && (forall t :: t in rows && Concerns(t, user, project, organization) ==> exists s :: s in r && s.name == t.name)
      && (forall s, t :: s in r && t in rows && t.name == s.name && Concerns(t, user, project, organization) ==>
            !Beats(t, s))
  {
    var r := ForUserAndProject(rows, user, project, organization);
    forall s | s in rows ensures Scoped(s) {
    }
    ReturnsHighestLevel(rows, user, project, organization);
    forall s | s in rows ensures Applies(s, user, project, organization) <==> Concerns(s, user, project, organization) {
      assert Scoped(s);
    }
    forall s, t | Level(s) >= Level(t) ensures !Beats(t, s) {
    }
    forall t | t in rows && Concerns(t, user, project, organization) ensures exists s :: s in r && s.name == t.name {
      NamedIff(r, t.name);
    }
    hide ForUserAndProject, Applies, Concerns, Level, Beats, Scoped, Named;
  }

  // ---- the unique constraints ----

  /** Both constraints span the type, the name and the assignee, one the project and the other the
      organization.  Nulls are distinct, so a null in any of them keeps two rows apart. */
  predicate Conflict(s: Secret, t: Secret) {
    && s.kind == t.kind && s.name == t.name
    && s.assignedTo.Some? && s.assignedTo == t.assignedTo
    && ((s.project.Some? && s.project == t.project) || (s.organization.Some? && s.organization == t.organization))
  }

  /** What the constraints of the table allow. */
  ghost predicate Allowed(rows: seq<Secret>) {
    && (forall s :: s in rows ==> Scoped(s))
    && (forall i, j :: 0 <= i < j < |rows| ==> !Conflict(rows[i], rows[j]))
  }

  // ---- the rows of the highest level ----

  /** Of all rows that apply and have this name, `s` is of the highest level. */
  ghost predicate IsTop(rows: seq<Secret>, user: nat, project: nat, organization: Option<nat>, s: Secret) {
    && s in rows && Applies(s, user, project, organization)
    && (forall t :: t in rows && Applies(t, user, project, organization) && t.name == s.name ==> Level(s) >= Level(t))
  }

  ghost predicate OneTop(rows: seq<Secret>, user: nat, project: nat, organization: Option<nat>, name: string) {
    forall s, t ::
      (IsTop(rows, user, project, organization, s) && IsTop(rows, user, project, organization, t)
       && s.name == name && t.name == name)
      ==> s == t
  }

  /** What the query returns for a name. */
  ghost function Found(rows: seq<Secret>, user: nat, project: nat, organization: Option<nat>,
                       name: string): set<Secret> {
    set s | s in ForUserAndProject(rows, user, project, organization) && s.name == name
  }

  /** The database may have the rows in any order. */
  ghost predicate OrderIsIrrelevant(rows: seq<Secret>, user: nat, project: nat, organization: Option<nat>,
                                    name: string) {
    forall other: seq<Secret> :: multiset(other) == multiset(rows) ==>
      Found(other, user, project, organization, name) == Found(rows, user, project, organization, name)
  }

  // ---- the row that comes first wins ----

  lemma {:induction false} InsertedAt(x: Secret, s: seq<Secret>) returns (i: nat)
    ensures i < |Insert(x, s)| && Insert(x, s)[i] == x
    ensures forall j :: 0 <= j < i ==> Insert(x, s)[j] in s && SortsBefore(Insert(x, s)[j], x)
  {
    if s == [] || !SortsBefore(s[0], x) {
      i := 0;
    } else {
      var k := InsertedAt(x, s[1..]);
      i := k + 1;
    }
  }

  lemma {:induction false} FirstIsKept(s: seq<Secret>, i: nat)
    requires i < |s| && forall j :: 0 <= j < i ==> s[j].name != s[i].name
    ensures s[i] in FirstOfEachName(s)
  {
    if i < |s| - 1 {
      var before := s[..|s| - 1];
      assert before[i] == s[i];
      FirstIsKept(before, i);
    }
  }

  lemma TopFirstIsFound(s: Secret, rest: seq<Secret>, user: nat, project: nat, organization: Option<nat>)
    requires (forall t :: t in [s] + rest ==> Scoped(t)) && IsTop([s] + rest, user, project, organization, s)
    ensures s in Found([s] + rest, user, project, organization, s.name)
  {
    var rows, tail := [s] + rest, Filtered(rest, user, project, organization);
    assert rows[1..] == rest;
    assert Filtered(rows, user, project, organization) == [s] + tail;
    var sorted := Insert(s, Sorted(tail));
    assert ([s] + tail)[1..] == tail && Sorted([s] + tail) == sorted;
    var i := InsertedAt(s, Sorted(tail));
    hide Filtered, Insert, Sorted, SortsBefore, Applies, Scoped, Level;
    forall j | 0 <= j < i ensures sorted[j].name != s.name {
      TailApplies(rest, user, project, organization, sorted[j]);
      if sorted[j].name == s.name {
        assert MayPrecede(s, sorted[j]) by { OrderIsLevel(s, sorted[j], user, project, organization); }
        assert false;
      }
    }
    FirstIsKept(sorted, i);
    assert s in ForUserAndProject(rows, user, project, organization);
  }

  lemma TailApplies(rows: seq<Secret>, user: nat, project: nat, organization: Option<nat>, t: Secret)
    requires t in Sorted(Filtered(rows, user, project, organization))
    ensures t in rows && Applies(t, user, project, organization)
  {
    var filtered := Filtered(rows, user, project, organization);
    SortedIsInOrder(filtered);
    assert t in multiset(filtered);
    InFiltered(rows, user, project, organization, t);
  }

  /** The rows can be put in an order with `s` in front. */
  lemma PutFirst(rows: seq<Secret>, s: Secret) returns (rest: seq<Secret>)
    requires s in rows
    ensures multiset([s] + rest) == multiset(rows)
  {
    var i :| 0 <= i < |rows| && rows[i] == s;
    rest := rows[..i] + rows[i + 1..];
    assert rows == rows[..i] + [s] + rows[i + 1..];
  }

  lemma SameTops(rows: seq<Secret>, other: seq<Secret>, user: nat, project: nat, organization: Option<nat>)
    requires multiset(rows) == multiset(other)
    ensures forall s :: s in rows <==> s in other
    ensures forall s :: IsTop(rows, user, project, organization, s) <==> IsTop(other, user, project, organization, s)
  {
    forall s ensures s in rows <==> s in other {
      assert s in multiset(rows) <==> s in multiset(other);
    }
  }

  // ---- exactly when the order matters ----

  /** The query finds one row of the highest level for a name, if any row applies. */
  lemma FoundIsTop(rows: seq<Secret>, user: nat, project: nat, organization: Option<nat>, name: string)
    requires forall s :: s in rows ==> Scoped(s)
    ensures var found := Found(rows, user, project, organization, name);
      && (forall s :: s in found ==> IsTop(rows, user, project, organization, s) && s.name == name && found == {s})
      && (found == {} ==> forall t :: t in rows && Applies(t, user, project, organization) ==> t.name != name)
  {
    var r, found := ForUserAndProject(rows, user, project, organization),
      Found(rows, user, project, organization, name);
    ReturnsHighestLevel(rows, user, project, organization);
    hide ForUserAndProject, Applies, Level, Scoped, Named;
    forall s | s in found ensures IsTop(rows, user, project, organization, s) && found == {s} {
      assert forall t :: t in found ==> t == s;
    }
    forall t | t in rows && Applies(t, user, project, organization) && found == {} ensures t.name != name {
      NamedIff(r, t.name);
      var s :| s in r && s.name == t.name;
      assert s.name == name ==> s in found;
    }
  }

  /** Main result: for every order of the rows the query returns the same secret under a name exactly if
      the rows of the highest level that has this name are all equal. */
  lemma OrderIsIrrelevantIff(rows: seq<Secret>, user: nat, project: nat, organization: Option<nat>, name: string)
    requires forall s :: s in rows ==> Scoped(s)
    ensures OrderIsIrrelevant(rows, user, project, organization, name)
      <==> OneTop(rows, user, project, organization, name)
  {
    hide Found, IsTop, Applies, Scoped;
    if OneTop(rows, user, project, organization, name) {
      forall other: seq<Secret> | multiset(other) == multiset(rows)
        ensures Found(other, user, project, organization, name) == Found(rows, user, project, organization, name)
      {
        OneTopFoundAlike(rows, other, user, project, organization, name);
      }
    }
    if OrderIsIrrelevant(rows, user, project, organization, name) {
      forall s, t | IsTop(rows, user, project, organization, s) && IsTop(rows, user, project, organization, t)
                    && s.name == name && t.name == name
        ensures s == t
      {
        TopCanBeFound(rows, user, project, organization, s);
        TopCanBeFound(rows, user, project, organization, t);
        FoundIsTop(rows, user, project, organization, name);
      }
    }
  }

  lemma OneTopFoundAlike(rows: seq<Secret>, other: seq<Secret>, user: nat, project: nat, organization: Option<nat>,
                         name: string)
    requires (forall s :: s in rows ==> Scoped(s)) && multiset(other) == multiset(rows)
    requires OneTop(rows, user, project, organization, name)
    ensures Found(other, user, project, organization, name) == Found(rows, user, project, organization, name)
  {
    SameTops(rows, other, user, project, organization);
    FoundIsTop(rows, user, project, organization, name);
    FoundIsTop(other, user, project, organization, name);
    hide Found, Applies, Scoped, Level;
    var f, g := Found(rows, user, project, organization, name), Found(other, user, project, organization, name);
    if s :| s in f {
      if t :| t in g {
        assert s == t;
      }
    } else if t :| t in g {
    }
  }

  lemma TopCanBeFound(rows: seq<Secret>, user: nat, project: nat, organization: Option<nat>, s: Secret)
    requires (forall t :: t in rows ==> Scoped(t)) && IsTop(rows, user, project, organization, s)
    ensures exists other: seq<Secret> :: multiset(other) == multiset(rows)
                                         && s in Found(other, user, project, organization, s.name)
  {
    var rest := PutFirst(rows, s);
    SameTops(rows, [s] + rest, user, project, organization);
    TopFirstIsFound(s, rest, user, project, organization);
  }

  /** With the constraints of the table, the order decides exactly if two different rows of the highest
      level have the same scope and are unassigned or of different types. */
  lemma OrderDecidesIff(rows: seq<Secret>, user: nat, project: nat, organization: Option<nat>, name: string)
    requires Allowed(rows)
    ensures !OrderIsIrrelevant(rows, user, project, organization, name) <==>
      exists s, t :: IsTop(rows, user, project, organization, s) && IsTop(rows, user, project, organization, t)
                     && s.name == name && t.name == name && s != t
                     && s.project == t.project && s.organization == t.organization && s.assignedTo == t.assignedTo
                     && (s.assignedTo.None? || s.kind != t.kind)
  {
    OrderIsIrrelevantIff(rows, user, project, organization, name);
    hide OrderIsIrrelevant;
    forall s, t | IsTop(rows, user, project, organization, s) && IsTop(rows, user, project, organization, t)
                  && s.name == name && t.name == name && s != t
      ensures s.project == t.project && s.organization == t.organization && s.assignedTo == t.assignedTo
      ensures s.assignedTo.None? || s.kind != t.kind
    {
      TopsShareScope(rows, user, project, organization, s, t);
    }
  }

  lemma TopsShareScope(rows: seq<Secret>, user: nat, project: nat, organization: Option<nat>, s: Secret, t: Secret)
    requires Allowed(rows) && s.name == t.name && s != t
    requires IsTop(rows, user, project, organization, s) && IsTop(rows, user, project, organization, t)
    ensures s.project == t.project && s.organization == t.organization && s.assignedTo == t.assignedTo
    ensures s.assignedTo.None? || s.kind != t.kind
  {
    assert Level(s) == Level(t);
    assert !Conflict(s, t) by {
      var i :| 0 <= i < |rows| && rows[i] == s;
      var j :| 0 <= j < |rows| && rows[j] == t;
      assert !Conflict(rows[i], rows[j]) && !Conflict(rows[j], rows[i]);
    }
    assert Scoped(s) && Scoped(t);
  }

  // ---- both cases occur ----

  /** Two unassigned secrets of one project and name. */
  lemma UnassignedDuplicatesAreArbitrary(user: nat, project: nat, organization: Option<nat>)
    ensures var a := Secret("DB", EnvVar, Some(project), None, None, "1");
      var b := Secret("DB", EnvVar, Some(project), None, None, "2");
      && Allowed([a, b]) && Allowed([b, a])
      && ForUserAndProject([a, b], user, project, organization) == [a]
      && ForUserAndProject([b, a], user, project, organization) == [b]
  {
    var a := Secret("DB", EnvVar, Some(project), None, None, "1");
    var b := Secret("DB", EnvVar, Some(project), None, None, "2");
    FirstOfTwo(a, b, user, project, organization);
    FirstOfTwo(b, a, user, project, organization);
  }

  /** Two secrets of one project, name and assignee but of different types. */
  lemma BothTypesAreArbitrary(user: nat, project: nat, organization: Option<nat>)
    ensures var a := Secret("DB", EnvVar, Some(project), Some(user), None, "1");
      var b := Secret("DB", PgService, Some(project), Some(user), None, "2");
      && Allowed([a, b]) && Allowed([b, a])
      && ForUserAndProject([a, b], user, project, organization) == [a]
      && ForUserAndProject([b, a], user, project, organization) == [b]
  {
    var a := Secret("DB", EnvVar, Some(project), Some(user), None, "1");
    var b := Secret("DB", PgService, Some(project), Some(user), None, "2");
    FirstOfTwo(a, b, user, project, organization);
    FirstOfTwo(b, a, user, project, organization);
  }

  lemma FirstOfTwo(a: Secret, b: Secret, user: nat, project: nat, organization: Option<nat>)
    requires Applies(a, user, project, organization) && Applies(b, user, project, organization)
    requires a == b.(kind := a.kind, value := a.value)
    ensures ForUserAndProject([a, b], user, project, organization) == [a]
  {
    assert Filtered([a, b], user, project, organization) == [a, b] by {
      assert [a, b][1..] == [b] && [b][1..] == [];
      assert Filtered([b], user, project, organization) == [b];
    }
    hide Filtered, Applies;
    SortedTwo(a, b);
    hide Sorted;
    assert [a, b][..1] == [a] && [a][..0] == [];
    assert FirstOfEachName([a]) == [a];
    assert Named([a], b.name);
  }

  lemma SortedTwo(a: Secret, b: Secret)
    requires a == b.(kind := a.kind, value := a.value)
    ensures Sorted([a, b]) == [a, b]
  {
    Irreflexive(a.name);
    assert [a, b][1..] == [b] && [b][1..] == [];
    assert Sorted([b]) == Insert(b, []) == [b];
  }
}
