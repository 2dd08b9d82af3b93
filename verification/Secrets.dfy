/**
 The secrets of a user on a project: the query that sorts them by priority and keeps the first of each
 name, and the environment of the worker made from them.
 */
module Secrets {
  import opened Prelude
  import opened Strings

  datatype SecretType = EnvVar | PgService

  datatype Secret = Secret(name: string, kind: SecretType, project: Option<nat>, assignedTo: Option<nat>,
                           organization: Option<nat>, value: string)

  /** The check constraint: exactly one of project and organization is set. */
  predicate Scoped(s: Secret) {
    s.project.Some? != s.organization.Some?
  }

  // ---- the query ----

  /** The four disjuncts of the filter; comparing with None is a test for null. */
  predicate Applies(s: Secret, user: nat, project: nat, organization: Option<nat>) {
    || (s.organization == organization && s.project.None? && s.assignedTo.None?)
    || (s.organization == organization && s.project.None? && s.assignedTo == Some(user))
    || (s.organization.None? && s.project == Some(project) && s.assignedTo.None?)
    || (s.organization.None? && s.project == Some(project) && s.assignedTo == Some(user))
  }

  function Filtered(rows: seq<Secret>, user: nat, project: nat, organization: Option<nat>): seq<Secret> {
    if rows == [] then []
    else
      var rest := Filtered(rows[1..], user, project, organization);
      if Applies(rows[0], user, project, organization) then [rows[0]] + rest else rest
  }

  /** `a < b` for a nullable column in ascending order. */
  predicate Less(a: Option<nat>, b: Option<nat>, nullsFirst: bool) {
    if a.Some? && b.Some? then a.value < b.value
    else a.None? != b.None? && a.None? == nullsFirst
  }

  /** `a` sorts before `b`: by name, organization (nulls first), project and assignee (nulls last). */
  predicate SortsBefore(a: Secret, b: Secret) {
    || Greater(b.name, a.name)
    || (a.name == b.name && Less(a.organization, b.organization, true))
    || (a.name == b.name && a.organization == b.organization && Less(a.project, b.project, false))
    || (a.name == b.name && a.organization == b.organization && a.project == b.project
        && Less(a.assignedTo, b.assignedTo, false))
  }

  function Insert(x: Secret, s: seq<Secret>): seq<Secret> {
    if s == [] || !SortsBefore(s[0], x) then [x] + s else [s[0]] + Insert(x, s[1..])
  }

  /** Rows that compare equal stay in the order in which the database happens to have them. */
  function Sorted(s: seq<Secret>): seq<Secret> {
    if s == [] then [] else Insert(s[0], Sorted(s[1..]))
  }

  predicate Named(s: seq<Secret>, name: string) {
    exists i :: 0 <= i < |s| && s[i].name == name
  }

  /** `DISTINCT ON (name)`: the first row of each name. */
  function FirstOfEachName(s: seq<Secret>): seq<Secret> {
    if s == [] then []
    else
      var before, last := s[..|s| - 1], s[|s| - 1];
      FirstOfEachName(before) + if Named(before, last.name) then [] else [last]
  }

  function ForUserAndProject(rows: seq<Secret>, user: nat, project: nat, organization: Option<nat>): seq<Secret> {
    FirstOfEachName(Sorted(Filtered(rows, user, project, organization)))
  }

  // ---- the environment ----

  datatype EnvValue = Plain(value: string) | Names(names: set<string>)

  const CA_BUNDLE := "REQUESTS_CA_BUNDLE"
  const EXTRA := "QFIELDCLOUD_EXTRA_ENVVARS"

  /** The extra variables after the first `n` secrets. */
  function ExtraVars(start: map<string, string>, secrets: seq<Secret>, n: nat): map<string, string>
    requires n <= |secrets|
  {
    if n == 0 then start
    else
      var before := ExtraVars(start, secrets, n - 1);
      if secrets[n - 1].kind.EnvVar? then before[secrets[n - 1].name := secrets[n - 1].value] else before
  }

  function PgServices(secrets: seq<Secret>, n: nat): string
    requires n <= |secrets|
  {
    if n == 0 then ""
    else PgServices(secrets, n - 1) + if secrets[n - 1].kind.PgService? then "\n" + secrets[n - 1].value else ""
  }

  function StartVars(customCa: Option<string>): map<string, string> {
    if customCa.Some? then map[CA_BUNDLE := customCa.value] else map[]
  }

  /** What the deployment and the job contribute. */
  datatype JobVars = JobVars(token: string, url: string, jobId: string, grids: string)

  function Reserved(j: JobVars, pgServices: string, names: set<string>): map<string, EnvValue> {
    map["PGSERVICE_FILE_CONTENTS" := Plain(pgServices),
        EXTRA := Names(names),
        "QFIELDCLOUD_TOKEN" := Plain(j.token),
        "QFIELDCLOUD_URL" := Plain(j.url),
        "JOB_ID" := Plain(j.jobId),
        "PROJ_DOWNLOAD_DIR" := Plain(j.grids),
        "QT_QPA_PLATFORM" := Plain("offscreen")]
  }

  method GetEnvironment(secrets: seq<Secret>, customCa: Option<string>, j: JobVars) returns (env: map<string, EnvValue>)
    ensures var extra := ExtraVars(StartVars(customCa), secrets, |secrets|);
      env == Environment(extra, Reserved(j, PgServices(secrets, |secrets|), extra.Keys))
  {
    var extra: map<string, string> := map[];
    if customCa.Some? {
      extra := extra[CA_BUNDLE := customCa.value];
    }
    var pgServices := "";
    for i := 0 to |secrets|
      invariant extra == ExtraVars(StartVars(customCa), secrets, i)
      invariant pgServices == PgServices(secrets, i)
    {
      if secrets[i].kind.EnvVar? {
        extra := extra[secrets[i].name := secrets[i].value];
      } else {
        pgServices := pgServices + ("\n" + secrets[i].value);
      }
    }
    env := (map n | n in extra :: Plain(extra[n])) + Reserved(j, pgServices, extra.Keys);
  }

  // ---- sorting ----

  predicate MayPrecede(a: Secret, b: Secret) {
    !SortsBefore(b, a)
  }

  ghost predicate InOrder(s: seq<Secret>) {
    forall i, j :: 0 <= i < j < |s| ==> MayPrecede(s[i], s[j])
  }

  lemma LessTransitive(a: Option<nat>, b: Option<nat>, c: Option<nat>, nullsFirst: bool)
    ensures !Less(b, a, nullsFirst) && !Less(c, b, nullsFirst) ==> !Less(c, a, nullsFirst)
    ensures Less(a, b, nullsFirst) || Less(b, a, nullsFirst) || a == b
    ensures !(Less(a, b, nullsFirst) && Less(b, a, nullsFirst))
  {
  }

  lemma PrecedeTransitive(a: Secret, b: Secret, c: Secret)
    requires MayPrecede(a, b) && MayPrecede(b, c)
    ensures MayPrecede(a, c)
  {
    Trichotomy(a.name, b.name);
    Trichotomy(b.name, c.name);
    Trichotomy(a.name, c.name);
    if Greater(a.name, c.name) {
      if b.name == a.name || b.name == c.name {
      } else if Greater(c.name, b.name) {
        Transitive(a.name, c.name, b.name);
      }
    }
    if a.name == b.name == c.name {
      LessTransitive(a.organization, b.organization, c.organization, true);
      LessTransitive(a.project, b.project, c.project, false);
      LessTransitive(a.assignedTo, b.assignedTo, c.assignedTo, false);
    } else if a.name == c.name && Greater(b.name, a.name) {
    }
  }

  lemma Total(a: Secret, b: Secret)
    ensures MayPrecede(a, b) || MayPrecede(b, a)
  {
    Trichotomy(a.name, b.name);
  }

  lemma {:induction false} InsertKeepsOrder(x: Secret, s: seq<Secret>)
    requires InOrder(s)
    ensures InOrder(Insert(x, s)) && multiset(Insert(x, s)) == multiset{x} + multiset(s)
  {
    if s == [] || !SortsBefore(s[0], x) {
      hide SortsBefore;
      forall i | 0 <= i < |s| ensures MayPrecede(x, s[i]) {
        if i > 0 {
          PrecedeTransitive(x, s[0], s[i]);
        }
      }
      PutInFront(x, s);
    } else {
      assert s == [s[0]] + s[1..];
      assert forall i :: 0 <= i < |s| - 1 ==> s[1..][i] == s[i + 1];
      InsertKeepsOrder(x, s[1..]);
      var rest := Insert(x, s[1..]);
      Total(s[0], x);
      assert MayPrecede(s[0], x);
      hide MayPrecede, SortsBefore;
      forall i | 0 <= i < |rest| ensures MayPrecede(s[0], rest[i]) {
        assert rest[i] in multiset(rest);
        assert rest[i] == x || rest[i] in s[1..];
      }
      PutInFront(s[0], rest);
    }
  }

  lemma PutInFront(x: Secret, s: seq<Secret>)
    requires InOrder(s) && forall i :: 0 <= i < |s| ==> MayPrecede(x, s[i])
    ensures InOrder([x] + s)
  {
    hide MayPrecede;
  }

  lemma {:induction false} SortedIsInOrder(s: seq<Secret>)
    ensures InOrder(Sorted(s)) && multiset(Sorted(s)) == multiset(s)
  {
    if s != [] {
      assert s == [s[0]] + s[1..];
      SortedIsInOrder(s[1..]);
      InsertKeepsOrder(s[0], Sorted(s[1..]));
    }
  }

  // ---- what the query returns ----

  ghost predicate DistinctNames(s: seq<Secret>) {
    forall i, j :: 0 <= i < j < |s| ==> s[i].name != s[j].name
  }

  lemma NamedIff(s: seq<Secret>, name: string)
    ensures Named(s, name) <==> exists x :: x in s && x.name == name
  {
    if x :| x in s && x.name == name {
      var i :| 0 <= i < |s| && s[i] == x;
    }
    if i :| 0 <= i < |s| && s[i].name == name {
      assert s[i] in s;
    }
  }

  /** The rows kept are rows, one for each name. */
  lemma {:induction false} FirstsAreRows(s: seq<Secret>, name: string)
    ensures forall x :: x in FirstOfEachName(s) ==> x in s
    ensures Named(FirstOfEachName(s), name) <==> Named(s, name)
  {
    if s != [] {
      var before, last := s[..|s| - 1], s[|s| - 1];
      assert s == before + [last];
      FirstsAreRows(before, name);
      NamedIff(FirstOfEachName(before), name);
      NamedIff(FirstOfEachName(s), name);
      NamedIff(before, name);
      NamedIff(s, name);
    }
  }

  lemma {:induction false} FirstsAreDistinct(s: seq<Secret>)
    ensures DistinctNames(FirstOfEachName(s))
  {
    if s != [] {
      var before, last := s[..|s| - 1], s[|s| - 1];
      FirstsAreDistinct(before);
      FirstsAreRows(before, last.name);
    }
  }

  /** No row sorts before the one kept of its name. */
  lemma {:induction false} FirstsAreBest(s: seq<Secret>, x: Secret, y: Secret)
    requires InOrder(s) && x in FirstOfEachName(s) && y in s && y.name == x.name
    ensures MayPrecede(x, y)
  {
    var before, last := s[..|s| - 1], s[|s| - 1];
    assert s == before + [last];
    FirstsAreRows(before, last.name);
    if x in FirstOfEachName(before) {
      if y in before {
        FirstsAreBest(before, x, y);
      } else {
        var i :| 0 <= i < |before| && before[i] == x;
        assert s[i] == x && s[|s| - 1] == y;
      }
    } else {
      NamedIff(before, last.name);
      Irreflexive(x.name);
      Same(x);
    }
  }

  lemma Same(x: Secret)
    ensures MayPrecede(x, x)
  {
    Irreflexive(x.name);
  }

  // ---- four layers ----

  /** Organization < user's organization < project < user's project. */
  function Level(s: Secret): nat {
    (if s.project.Some? then 2 else 0) + (if s.assignedTo.Some? then 1 else 0)
  }

  lemma InFiltered(rows: seq<Secret>, user: nat, project: nat, organization: Option<nat>, s: Secret)
    ensures s in Filtered(rows, user, project, organization) <==> s in rows && Applies(s, user, project, organization)
  {
    if rows != [] {
      InFiltered(rows[1..], user, project, organization, s);
      assert s in rows <==> s == rows[0] || s in rows[1..];
    }
  }

  /** Among rows that apply and have the same name, the sort order is the order of the levels. */
  lemma OrderIsLevel(s: Secret, t: Secret, user: nat, project: nat, organization: Option<nat>)
    requires Scoped(s) && Scoped(t) && s.name == t.name
    requires Applies(s, user, project, organization) && Applies(t, user, project, organization)
    ensures MayPrecede(s, t) <==> Level(s) >= Level(t)
  {
    Irreflexive(s.name);
  }

  /** Main result: for every name of a secret that applies, the query returns one secret, and it is of
      the highest level that has this name. */
  lemma ReturnsHighestLevel(rows: seq<Secret>, user: nat, project: nat, organization: Option<nat>)
    requires forall s :: s in rows ==> Scoped(s)
    ensures var r := ForUserAndProject(rows, user, project, organization);
      && DistinctNames(r)
      && (forall s :: s in r ==> s in rows && Applies(s, user, project, organization))
      && (forall t :: t in rows && Applies(t, user, project, organization) ==> Named(r, t.name))
      && (forall s, t :: s in r && t in rows && Applies(t, user, project, organization) && t.name == s.name ==>
            Level(s) >= Level(t))
  {
    var filtered := Filtered(rows, user, project, organization);
    var r := ForUserAndProject(rows, user, project, organization);
    SortedIsInOrder(filtered);
    FirstsAreDistinct(Sorted(filtered));
    forall s ensures s in Sorted(filtered) <==> s in rows && Applies(s, user, project, organization) {
      InFiltered(rows, user, project, organization, s);
      assert s in Sorted(filtered) <==> s in multiset(filtered);
    }
    hide Filtered, Sorted, FirstOfEachName, Applies, MayPrecede, Scoped;
    FirstsAreRows(Sorted(filtered), "");
    forall t | t in rows && Applies(t, user, project, organization) ensures Named(r, t.name) {
      NamedIff(Sorted(filtered), t.name);
      FirstsAreRows(Sorted(filtered), t.name);
    }
    forall s, t | s in r && t in rows && Applies(t, user, project, organization) && t.name == s.name
      ensures Level(s) >= Level(t)
    {
      FirstsAreBest(Sorted(filtered), s, t);
      OrderIsLevel(s, t, user, project, organization);
    }
  }

  function NamesAt(rows: seq<Secret>, user: nat, project: nat, organization: Option<nat>, level: nat): set<string> {
    set s | s in rows && Applies(s, user, project, organization) && Level(s) == level :: s.name
  }

  /** The secrets of one level by name. */
  ghost function Layer(rows: seq<Secret>, user: nat, project: nat, organization: Option<nat>,
                       level: nat): map<string, Secret> {
    map n | n in NamesAt(rows, user, project, organization, level) ::
      AtLevel(rows, user, project, organization, level, n)
  }

  ghost function AtLevel(rows: seq<Secret>, user: nat, project: nat, organization: Option<nat>, level: nat,
                         name: string): (r: Secret)
    requires name in NamesAt(rows, user, project, organization, level)
    ensures r in rows && Applies(r, user, project, organization) && Level(r) == level && r.name == name
  {
    var s :| s in rows && Applies(s, user, project, organization) && Level(s) == level && s.name == name;
    s
  }

  predicate SameSlot(s: Secret, t: Secret, user: nat, project: nat, organization: Option<nat>) {
    && Applies(s, user, project, organization) && Applies(t, user, project, organization)
    && s.name == t.name && Level(s) == Level(t)
  }

  /** At most one secret per level and name. */
  ghost predicate OnePerLevel(rows: seq<Secret>, user: nat, project: nat, organization: Option<nat>) {
    forall s, t :: (s in rows && t in rows && SameSlot(s, t, user, project, organization)) ==> s == t
  }

  function ByName(s: seq<Secret>): map<string, Secret> {
    if s == [] then map[] else ByName(s[..|s| - 1])[s[|s| - 1].name := s[|s| - 1]]
  }

  lemma NamedNext(s: seq<Secret>, n: string)
    requires s != []
    ensures Named(s, n) <==> Named(s[..|s| - 1], n) || s[|s| - 1].name == n
  {
    var before := s[..|s| - 1];
    if Named(s, n) {
      var i :| 0 <= i < |s| && s[i].name == n;
      assert i < |before| ==> before[i].name == n;
    }
    if Named(before, n) {
      var i :| 0 <= i < |before| && before[i].name == n;
      assert s[i].name == n;
    }
  }

  lemma {:induction false} ByNameHas(s: seq<Secret>)
    requires DistinctNames(s)
    ensures forall n :: n in ByName(s) <==> Named(s, n)
    ensures forall x :: x in s ==> x.name in ByName(s) && ByName(s)[x.name] == x
  {
    if s != [] {
      var before := s[..|s| - 1];
      ByNameHas(before);
      forall n ensures n in ByName(s) <==> Named(s, n) {
        NamedNext(s, n);
      }
      forall x | x in s ensures x.name in ByName(s) && ByName(s)[x.name] == x {
        hide Named;
        var i :| 0 <= i < |s| && s[i] == x;
        if i < |before| {
          assert before[i] == x;
        }
      }
    }
  }

  ghost function Overlay(rows: seq<Secret>, user: nat, project: nat, organization: Option<nat>): map<string, Secret> {
    Layer(rows, user, project, organization, 0) + Layer(rows, user, project, organization, 1)
    + Layer(rows, user, project, organization, 2) + Layer(rows, user, project, organization, 3)
  }

  /** Main result: with at most one secret per level and name, the query is the overlay of four maps,
      organization < user's organization < project < user's project. */
  lemma OverlaysFourLayers(rows: seq<Secret>, user: nat, project: nat, organization: Option<nat>)
    requires (forall s :: s in rows ==> Scoped(s)) && OnePerLevel(rows, user, project, organization)
    ensures ByName(ForUserAndProject(rows, user, project, organization)) == Overlay(rows, user, project, organization)
  {
    var r := ByName(ForUserAndProject(rows, user, project, organization));
    var overlay := Overlay(rows, user, project, organization);
    forall n ensures n in r <==> n in overlay
             ensures n in r ==> r[n] == overlay[n]
    {
      OverlayAt(rows, user, project, organization, n);
    }
    hide ForUserAndProject, ByName, Overlay;
  }

  lemma OverlayAt(rows: seq<Secret>, user: nat, project: nat, organization: Option<nat>, n: string)
    requires (forall s :: s in rows ==> Scoped(s)) && OnePerLevel(rows, user, project, organization)
    ensures var r := ByName(ForUserAndProject(rows, user, project, organization));
      var overlay := Overlay(rows, user, project, organization);
      && (n in r <==> n in overlay)
      && (n in r ==> r[n] == overlay[n])
  {
    var r := ForUserAndProject(rows, user, project, organization);
    ReturnsHighestLevel(rows, user, project, organization);
    ByNameHas(r);
    NamedIff(r, n);
    hide ForUserAndProject, ByName, OnePerLevel, DistinctNames, Overlay, Named;
    if Named(r, n) {
      var s :| s in r && s.name == n;
      WinsOverlay(rows, user, project, organization, s);
    } else if n in Overlay(rows, user, project, organization) {
      var t := FromSomeLayer(rows, user, project, organization, n);
    }
  }

  lemma FromSomeLayer(rows: seq<Secret>, user: nat, project: nat, organization: Option<nat>, n: string)
    returns (t: Secret)
    requires n in Overlay(rows, user, project, organization)
    ensures t in rows && Applies(t, user, project, organization) && t.name == n
  {
    t := Overlay(rows, user, project, organization)[n];
    var l0, l1 := Layer(rows, user, project, organization, 0), Layer(rows, user, project, organization, 1);
    var l2, l3 := Layer(rows, user, project, organization, 2), Layer(rows, user, project, organization, 3);
    assert (n in l0 && t == l0[n]) || (n in l1 && t == l1[n]) || (n in l2 && t == l2[n]) || (n in l3 && t == l3[n]) by {
      hide Layer, Applies;
    }
    hide Overlay, Applies, Level;
  }

  lemma LayerHas(rows: seq<Secret>, user: nat, project: nat, organization: Option<nat>, s: Secret, level: nat)
    requires OnePerLevel(rows, user, project, organization) && s in rows && Applies(s, user, project, organization)
    requires forall t :: t in rows && Applies(t, user, project, organization) && t.name == s.name ==>
      Level(s) >= Level(t)
    ensures var l := Layer(rows, user, project, organization, level);
      && (level == Level(s) ==> s.name in l && l[s.name] == s)
      && (level > Level(s) ==> s.name !in l)
  {
    hide Applies, Level;
    if level == Level(s) {
      assert s.name in NamesAt(rows, user, project, organization, level);
      assert SameSlot(s, AtLevel(rows, user, project, organization, level, s.name), user, project, organization);
    }
  }

  lemma WinsOverlay(rows: seq<Secret>, user: nat, project: nat, organization: Option<nat>, s: Secret)
    requires OnePerLevel(rows, user, project, organization) && s in rows && Applies(s, user, project, organization)
    requires forall t :: t in rows && Applies(t, user, project, organization) && t.name == s.name ==>
      Level(s) >= Level(t)
    ensures var overlay := Overlay(rows, user, project, organization); s.name in overlay && overlay[s.name] == s
  {
    assert Level(s) <= 3;
    LayerHas(rows, user, project, organization, s, 0);
    LayerHas(rows, user, project, organization, s, 1);
    LayerHas(rows, user, project, organization, s, 2);
    LayerHas(rows, user, project, organization, s, 3);
    hide Applies, OnePerLevel, Layer, Level;
  }

  // ---- the environment of the worker ----

  /** Secrets of different names do not overwrite each other; the only extra variable that a secret can
      overwrite is the one for a custom certificate authority. */
  lemma {:induction false} SecretsDoNotCollide(start: map<string, string>, secrets: seq<Secret>, n: nat, name: string)
    requires DistinctNames(secrets) && n <= |secrets|
    ensures forall i :: 0 <= i < n && secrets[i].kind.EnvVar? ==>
      secrets[i].name in ExtraVars(start, secrets, n)
        && ExtraVars(start, secrets, n)[secrets[i].name] == secrets[i].value
    ensures (forall i :: 0 <= i < n && secrets[i].kind.EnvVar? ==> secrets[i].name != name) ==>
      (name in ExtraVars(start, secrets, n) <==> name in start)
      && (name in start ==> ExtraVars(start, secrets, n)[name] == start[name])
  {
    if n > 0 {
      SecretsDoNotCollide(start, secrets, n - 1, name);
    }
  }

  const RESERVED := {"PGSERVICE_FILE_CONTENTS", EXTRA, "QFIELDCLOUD_TOKEN", "QFIELDCLOUD_URL", "JOB_ID",
                     "PROJ_DOWNLOAD_DIR", "QT_QPA_PLATFORM"}

  function Environment(extra: map<string, string>, reserved: map<string, EnvValue>): map<string, EnvValue> {
    (map n | n in extra :: Plain(extra[n])) + reserved
  }

  /** Main result on the environment: a secret reaches the worker under its name exactly if its name is
      not reserved. */
  lemma {:induction false} SecretReachesWorkerIff(secrets: seq<Secret>, customCa: Option<string>, j: JobVars, i: nat)
    requires DistinctNames(secrets) && i < |secrets| && secrets[i].kind.EnvVar?
    ensures var extra := ExtraVars(StartVars(customCa), secrets, |secrets|);
      var reserved := Reserved(j, PgServices(secrets, |secrets|), extra.Keys);
      var env := Environment(extra, reserved);
      var name := secrets[i].name;
      if name in RESERVED then name in reserved && name in env && env[name] == reserved[name]
      else name in env && env[name] == Plain(secrets[i].value)
  {
    var name := secrets[i].name;
    hide RESERVED, StartVars, ExtraVars, PgServices, Reserved;
    SecretsDoNotCollide(StartVars(customCa), secrets, |secrets|, name);
    var extra := ExtraVars(StartVars(customCa), secrets, |secrets|);
    ReservedNames(j, PgServices(secrets, |secrets|), extra.Keys);
    EnvLookup(extra, Reserved(j, PgServices(secrets, |secrets|), extra.Keys), name);
    hide Environment, DistinctNames;
  }

  lemma EnvLookup(extra: map<string, string>, reserved: map<string, EnvValue>, name: string)
    ensures var env := Environment(extra, reserved);
      && (name in reserved ==> name in env && env[name] == reserved[name])
      && (name !in reserved && name in extra ==> name in env && env[name] == Plain(extra[name]))
  {
  }

  /** A custom certificate authority reaches the worker unless a secret has its name. */
  lemma {:induction false} CertificateReachesWorkerIff(secrets: seq<Secret>, ca: string, j: JobVars)
    requires DistinctNames(secrets)
    ensures var extra := ExtraVars(StartVars(Some(ca)), secrets, |secrets|);
      var env := Environment(extra, Reserved(j, PgServices(secrets, |secrets|), extra.Keys));
      CA_BUNDLE in env
      && (env[CA_BUNDLE] == Plain(ca) <==>
            forall i :: 0 <= i < |secrets| && secrets[i].kind.EnvVar? && secrets[i].name == CA_BUNDLE ==>
              secrets[i].value == ca)
  {
    SecretsDoNotCollide(StartVars(Some(ca)), secrets, |secrets|, CA_BUNDLE);
    var extra := ExtraVars(StartVars(Some(ca)), secrets, |secrets|);
    ReservedNames(j, PgServices(secrets, |secrets|), extra.Keys);
    hide ExtraVars, PgServices, Reserved, RESERVED;
  }

  lemma ReservedNames(j: JobVars, pgServices: string, names: set<string>)
    ensures Reserved(j, pgServices, names).Keys == RESERVED && CA_BUNDLE !in RESERVED
  {
    assert CA_BUNDLE[0] == 'R';
  }
}
