/** What uploads, purges and deletions keep over any run, if the clock is strictly increasing. */
module FileVersionProofs {
  import opened Prelude
  import opened FileVersions

  // ---- what every run keeps ----

  /** `w` was uploaded and stored before `v`. */
  predicate Older(w: Version, v: Version) {
    w.uploadedAt < v.uploadedAt && w.createdAt < v.createdAt
  }

  /** Two versions of one file were uploaded and stored in the same order. */
  ghost predicate StampsAgree(vs: Versions) {
    forall v, w :: v in vs && w in vs && v != w && vs[v].file == vs[w].file ==>
      Older(vs[v], vs[w]) || Older(vs[w], vs[v])
  }

  ghost predicate StampsUpTo(vs: Versions, clock: Time) {
    forall v :: v in vs ==> vs[v].uploadedAt <= clock && vs[v].createdAt <= clock
  }

  /** Some version of the file exists and the pointer is at the newest. */
  ghost predicate PointsAtNewest(s: Store, k: FileKey)
    requires k in s.files
  {
    && s.files[k].latest.Some?
    && s.files[k].latest.value in VersionsOf(s.versions, k)
    && forall w :: w in VersionsOf(s.versions, k) && w != s.files[k].latest.value ==>
                     Older(s.versions[w], s.versions[s.files[k].latest.value])
  }

  ghost predicate FileOk(s: Store, k: FileKey)
    requires k in s.files
  {
    PointsAtNewest(s, k) && |VersionsOf(s.versions, k)| <= s.files[k].latestCount
  }

  ghost predicate Core(s: Store, clock: Time) {
    && StampsAgree(s.versions) && StampsUpTo(s.versions, clock)
    && Linked(s.versions, s.files.Keys)
    && (forall k :: k in s.files ==> FileOk(s, k))
  }

  ghost predicate Linked(vs: Versions, files: set<FileKey>) {
    forall v :: v in vs ==> vs[v].file in files
  }

  lemma FewerVersions(vs: Versions, gone: set<VersionId>, clock: Time, files: set<FileKey>)
    requires StampsAgree(vs) && StampsUpTo(vs, clock) && Linked(vs, files)
    ensures StampsAgree(vs - gone) && StampsUpTo(vs - gone, clock) && Linked(vs - gone, files)
  {
  }

  lemma OneMoreVersion(vs: Versions, v: VersionId, added: Version, clock: Time, later: Time, files: set<FileKey>)
    requires StampsAgree(vs) && StampsUpTo(vs, clock) && Linked(vs, files) && v !in vs
    requires clock < added.uploadedAt <= later && clock < added.createdAt <= later
    ensures StampsAgree(vs[v := added]) && StampsUpTo(vs[v := added], later)
      && Linked(vs[v := added], files + {added.file})
  {
  }

  /** The byte total is exact, and once there is a project file the project keeps at least one version. */
  ghost predicate Inv(s: Store, clock: Time) {
    && Core(s, clock)
    && s.bytes == Bytes(OfProject(s.versions))
    && (s.keep == 0 ==> forall k :: k in s.files ==> !k.ProjectFile?)
  }

  // ---- a purge leaves the newest ----

  /** The versions of a set that are newer than `v`. */
  function NewerIn(vs: Versions, s: set<VersionId>, v: VersionId): set<VersionId>
    requires v in vs && s <= vs.Keys
  {
    set w | w in s && vs[w].createdAt > vs[v].createdAt
  }

  lemma {:induction false} OldestOf(vs: Versions, s: set<VersionId>) returns (m: VersionId)
    requires s != {} && s <= vs.Keys
    ensures m in s && forall w :: w in s ==> vs[m].createdAt <= vs[w].createdAt
    decreases s
  {
    var v :| v in s;
    m := v;
    if s != {v} {
      var rest := s - {v};
      var o := OldestOf(vs, rest);
      if vs[o].createdAt < vs[v].createdAt {
        m := o;
      }
      forall w | w in s ensures vs[m].createdAt <= vs[w].createdAt {
        assert w == v || w in rest;
      }
    }
  }

  /** The members of `s` with fewer than `keep` newer ones. */
  function Newest(vs: Versions, s: set<VersionId>, keep: nat): set<VersionId>
    requires s <= vs.Keys
  {
    set v | v in s && |NewerIn(vs, s, v)| < keep
  }

  lemma WithoutOldest(vs: Versions, s: set<VersionId>, keep: nat, m: VersionId)
    requires s <= vs.Keys && m in s && forall w :: w in s && w != m ==> vs[m].createdAt < vs[w].createdAt
    ensures Newest(vs, s, keep) == Newest(vs, s - {m}, keep) + if |s - {m}| < keep then {m} else {}
  {
    var rest := s - {m};
    forall v | v in rest ensures NewerIn(vs, s, v) == NewerIn(vs, rest, v) {
    }
    assert NewerIn(vs, s, m) == rest;
  }

  lemma {:induction false} NewestCount(vs: Versions, s: set<VersionId>, keep: nat)
    requires s <= vs.Keys && forall v, w :: v in s && w in s && v != w ==> vs[v].createdAt != vs[w].createdAt
    ensures |Newest(vs, s, keep)| == if |s| < keep then |s| else keep
    decreases s
  {
    if s == {} {
      assert Newest(vs, s, keep) == {};
    } else {
      var m := OldestOf(vs, s);
      NewestCount(vs, s - {m}, keep);
      WithoutOldest(vs, s, keep, m);
      assert m !in Newest(vs, s - {m}, keep);
      hide Newest;
    }
  }

  /** A purge keeps, of every project file, the min(n, keep) newest versions. */
  lemma PurgeKeepsNewest(s: Store, keep: nat, k: FileKey)
    requires StampsAgree(s.versions) && k.ProjectFile? && k in s.files
    ensures var n := |VersionsOf(s.versions, k)|;
      var kept := VersionsOf(Without(s, Old(s, keep)).versions, k);
      && kept <= VersionsOf(s.versions, k)
      && |kept| == (if n < keep then n else keep)
      && forall v, w :: v in kept && w in VersionsOf(s.versions, k) - kept ==> Older(s.versions[w], s.versions[v])
  {
    var all := VersionsOf(s.versions, k);
    var kept := VersionsOf(Without(s, Old(s, keep)).versions, k);
    forall v | v in all ensures Newer(s.versions, v) == NewerIn(s.versions, all, v) {
    }
    NewestCount(s.versions, all, keep);
    assert kept == Newest(s.versions, all, keep);
    forall v, w | v in kept && w in all - kept ensures Older(s.versions[w], s.versions[v]) {
      if Older(s.versions[v], s.versions[w]) {
        SmallerSubset(NewerIn(s.versions, all, w), NewerIn(s.versions, all, v));
      }
    }
  }

  lemma SmallerSubset(a: set<VersionId>, b: set<VersionId>)
    requires a <= b
    ensures |a| <= |b|
  {
    assert b == a + (b - a);
  }

  // ---- next and previous ----

  /** Next and previous version are inverse to each other. */
  lemma NextOfPrevious(vs: Versions, v: VersionId, w: VersionId)
    requires StampsAgree(vs) && v in vs && w in vs
    ensures IsNext(vs, v, Some(w)) <==> IsPrevious(vs, w, Some(v))
  {
  }

  // ---- runs ----

  datatype Op =
    | Upload(k: FileKey, v: VersionId, size: nat, now: Time, savedAt: Time, premium: bool, planKeep: nat)
    | DeleteVersion(name: string, v: VersionId, planKeep: nat, previous: Option<VersionId>)
    | DeleteFile(name: string, planKeep: nat)

  ghost function AfterPurge(s: Store, premium: bool, planKeep: nat): Store {
    var keepCount := KeepCount(s, premium, planKeep);
    var gone := Old(s, keepCount);
    if keepCount == 0 || gone == {} || Saved(Without(s, gone), planKeep).None? then s
    else Saved(Without(s, gone), planKeep).value
  }

  ghost function AfterSave(s: Store, planKeep: nat): Store {
    if Saved(s, planKeep).None? then s else Saved(s, planKeep).value
  }

  /** The store after one call of the view functions. */
  ghost function After(s: Store, op: Op): Store {
    match op
    case Upload(k, v, size, now, savedAt, premium, planKeep) =>
      var added := Added(s, k, v, size, now, savedAt);
      if k.PackageFile? then added
      else if Saved(added, planKeep).None? then s
      else AfterPurge(Saved(added, planKeep).value, premium, planKeep)
    case DeleteVersion(name, v, planKeep, p) =>
      var ids := VersionsOf(s.versions, ProjectFile(name));
      if |ids| <= 1 || v !in ids then s
      else AfterSave(Without(Repaired(s, v, p), {v}), planKeep)
    case DeleteFile(name, planKeep) =>
      if ProjectFile(name) !in s.files then s else AfterSave(WithoutFile(s, ProjectFile(name)), planKeep)
  }

  /** Version ids are new, the clock has advanced, and the previous version is what the query finds. */
  ghost predicate Enabled(s: Store, clock: Time, op: Op) {
    match op
    case Upload(k, v, size, now, savedAt, premium, planKeep) => v !in s.versions && clock < now <= savedAt
    case DeleteVersion(name, v, planKeep, p) => IsPrevious(s.versions, v, p)
    case DeleteFile(name, planKeep) => true
  }

  function Clock(clock: Time, op: Op): Time {
    if op.Upload? then op.savedAt else clock
  }

  /** A file none of whose rows change stays in order. */
  lemma SameFile(s: Store, t: Store, k: FileKey)
    requires k in s.files && k in t.files && t.files[k] == s.files[k] && FileOk(s, k)
    requires VersionsOf(t.versions, k) == VersionsOf(s.versions, k)
    requires forall v :: v in VersionsOf(s.versions, k) ==> t.versions[v] == s.versions[v]
    ensures FileOk(t, k)
  {
  }

  lemma AddKeepsFile(s: Store, clock: Time, k: FileKey, v: VersionId, size: nat, now: Time, savedAt: Time)
    requires Core(s, clock) && v !in s.versions && clock < now <= savedAt
    ensures FileOk(Added(s, k, v, size, now, savedAt), k)
  {
    var t := Added(s, k, v, size, now, savedAt);
    var ids := VersionsOf(s.versions, k);
    assert k !in s.files ==> ids == {};
    assert k in s.files ==> |ids| <= s.files[k].latestCount by {
      assert k in s.files ==> FileOk(s, k);
    }
    assert forall w :: w in ids ==> s.versions[w].uploadedAt <= clock && s.versions[w].createdAt <= clock;
    hide StampsAgree, StampsUpTo, Linked, PointsAtNewest;
    NewestOfFile(t, ids, k, v);
  }

  lemma NewestOfFile(t: Store, ids: set<VersionId>, k: FileKey, v: VersionId)
    requires k in t.files && t.files[k].latest == Some(v) && v !in ids && VersionsOf(t.versions, k) == ids + {v}
    requires forall w :: w in ids ==> Older(t.versions[w], t.versions[v])
    ensures PointsAtNewest(t, k) && |VersionsOf(t.versions, k)| == |ids| + 1
  {
  }

  lemma AddKeepsCore(s: Store, clock: Time, k: FileKey, v: VersionId, size: nat, now: Time, savedAt: Time)
    requires Core(s, clock) && v !in s.versions && clock < now <= savedAt
    ensures Core(Added(s, k, v, size, now, savedAt), savedAt)
  {
    var t := Added(s, k, v, size, now, savedAt);
    AddKeepsFile(s, clock, k, v, size, now, savedAt);
    OneMoreVersion(s.versions, v, Version(k, size, now, savedAt), clock, savedAt, s.files.Keys);
    assert t.files.Keys == s.files.Keys + {k};
    hide FileOk, StampsAgree, StampsUpTo, Linked;
    forall j | j in t.files && j != k ensures FileOk(t, j) {
      OtherFileStays(s, k, v, size, now, savedAt, j);
    }
    hide Added;
  }

  lemma OtherFileStays(s: Store, k: FileKey, v: VersionId, size: nat, now: Time, savedAt: Time, j: FileKey)
    requires j in s.files && j != k && FileOk(s, j) && v !in s.versions
    ensures FileOk(Added(s, k, v, size, now, savedAt), j)
  {
    var t := Added(s, k, v, size, now, savedAt);
    hide FileOk;
    assert VersionsOf(t.versions, j) == VersionsOf(s.versions, j);
    SameFile(s, t, j);
  }

  lemma RemovalKeepsFile(s: Store, gone: set<VersionId>, k: FileKey)
    requires k in s.files && FileOk(s, k) && s.files[k].latest.value !in gone
    ensures FileOk(Without(s, gone), k)
  {
    SmallerSubset(VersionsOf(Without(s, gone).versions, k), VersionsOf(s.versions, k));
  }

  /** None of these versions is the latest one of a file. */
  predicate SparesLatest(files: map<FileKey, File>, gone: set<VersionId>) {
    forall k :: k in files && files[k].latest.Some? ==> files[k].latest.value !in gone
  }

  /** Removing versions other than the latest ones keeps the core. */
  lemma RemovalKeepsCore(s: Store, clock: Time, gone: set<VersionId>)
    requires Core(s, clock) && SparesLatest(s.files, gone)
    ensures Core(Without(s, gone), clock)
  {
    FewerVersions(s.versions, gone, clock, s.files.Keys);
    hide StampsAgree, StampsUpTo, Linked;
    forall k | k in s.files ensures FileOk(Without(s, gone), k) {
      assert FileOk(s, k);
      RemovalKeepsFile(s, gone, k);
    }
    hide FileOk;
  }

  /** The latest version has none newer, so that no purge selects it. */
  lemma LatestIsKept(s: Store, clock: Time, keep: nat)
    requires Core(s, clock) && keep >= 1
    ensures SparesLatest(s.files, Old(s, keep))
  {
    forall k | k in s.files ensures s.files[k].latest.value !in Old(s, keep) {
      assert FileOk(s, k);
      assert Newer(s.versions, s.files[k].latest.value) == {};
    }
  }

  /** So the method `Purge` does in such states what the runs below take a purge to do. */
  lemma PurgeMovesNoPointer(s: Store, clock: Time, premium: bool, planKeep: nat, files: map<FileKey, File>)
    requires Core(s, clock) && KeepCount(s, premium, planKeep) >= 1
    requires var gone := Old(s, KeepCount(s, premium, planKeep));
      gone != {} && Saved(Without(s, gone), planKeep).Some? && PointersAfter(s.versions, s.files, files, gone)
    ensures var gone := Old(s, KeepCount(s, premium, planKeep));
      Saved(Without(s, gone), planKeep).value.(files := files) == AfterPurge(s, premium, planKeep)
  {
    LatestIsKept(s, clock, KeepCount(s, premium, planKeep));
    assert files == s.files by {
      hide Saved, Core, Old;
    }
    hide Core, Old, PointersAfter;
  }

  /** The latest version of a file with another one is replaced by the newest of the others. */
  lemma LatestIsReplaced(s: Store, clock: Time, k: FileKey, v: VersionId, p: Option<VersionId>)
    requires Core(s, clock) && k in s.files && s.files[k].latest == Some(v)
    requires |VersionsOf(s.versions, k)| > 1 && IsPrevious(s.versions, v, p)
    ensures FileOk(Without(Repaired(s, v, p), {v}), k)
  {
    assert FileOk(s, k);
    var ids := VersionsOf(s.versions, k);
    var w := OtherMember(ids, v);
    assert UploadedBefore(s.versions, w, v);
    var t := Without(Repaired(s, v, p), {v});
    assert VersionsOf(t.versions, k) == ids - {v};
    forall u | u in ids - {v} && u != p.value ensures Older(s.versions[u], s.versions[p.value]) {
      assert UploadedBefore(s.versions, u, v);
    }
  }

  lemma DeletionKeepsCore(s: Store, clock: Time, name: string, v: VersionId, p: Option<VersionId>)
    requires Core(s, clock) && v in VersionsOf(s.versions, ProjectFile(name))
    requires |VersionsOf(s.versions, ProjectFile(name))| > 1 && IsPrevious(s.versions, v, p)
    ensures Core(Without(Repaired(s, v, p), {v}), clock)
  {
    var k := ProjectFile(name);
    var t := Without(Repaired(s, v, p), {v});
    assert FileOk(s, k);
    if s.files[k].latest == Some(v) {
      FewerVersions(s.versions, {v}, clock, s.files.Keys);
      LatestIsReplaced(s, clock, k, v, p);
      hide StampsAgree, StampsUpTo, Linked, FileOk, IsPrevious;
      forall j | j in t.files && j != k ensures FileOk(t, j) {
        OtherFileSurvives(s, k, v, p, j);
      }
    } else {
      hide StampsAgree, StampsUpTo, Linked;
      forall j | j in s.files && s.files[j].latest.Some? ensures s.files[j].latest.value !in {v} {
        assert FileOk(s, j);
      }
      RemovalKeepsCore(s, clock, {v});
    }
  }

  lemma OtherFileSurvives(s: Store, k: FileKey, v: VersionId, p: Option<VersionId>, j: FileKey)
    requires k in s.files && v in VersionsOf(s.versions, k) && j in s.files && j != k && FileOk(s, j)
    ensures j in Without(Repaired(s, v, p), {v}).files ==> FileOk(Without(Repaired(s, v, p), {v}), j)
  {
    var t := Without(Repaired(s, v, p), {v});
    hide FileOk;
    assert VersionsOf(t.versions, j) == VersionsOf(s.versions, j);
    if j in t.files {
      SameFile(s, t, j);
    }
  }

  lemma OtherMember(ids: set<VersionId>, v: VersionId) returns (w: VersionId)
    requires v in ids && |ids| > 1
    ensures w in ids && w != v
  {
    assert |ids - {v}| > 0;
    w :| w in ids - {v};
  }

  lemma FileDeletionKeepsCore(s: Store, clock: Time, k: FileKey)
    requires Core(s, clock)
    ensures Core(WithoutFile(s, k), clock)
  {
    var t := WithoutFile(s, k);
    hide FileOk;
    forall j | j in t.files ensures FileOk(t, j) {
      assert VersionsOf(t.versions, j) == VersionsOf(s.versions, j);
      SameFile(s, t, j);
    }
  }

  lemma SavingKeepsInv(s: Store, clock: Time, planKeep: nat)
    requires Core(s, clock)
    ensures Saved(s, planKeep).Some? ==> Inv(Saved(s, planKeep).value, clock)
    ensures s.keep > 0 ==> Saved(s, planKeep).Some?
  {
    if Saved(s, planKeep).Some? {
      SameTablesSameCore(s, Saved(s, planKeep).value, clock);
    }
  }

  lemma SameTablesSameCore(s: Store, t: Store, clock: Time)
    requires Core(s, clock) && t.files == s.files && t.versions == s.versions
    ensures Core(t, clock)
  {
    forall k | k in t.files ensures FileOk(t, k) {
      SameFile(s, t, k);
    }
    hide FileOk;
  }

  lemma PurgeKeepsInv(s: Store, clock: Time, premium: bool, planKeep: nat)
    requires Inv(s, clock)
    ensures Inv(AfterPurge(s, premium, planKeep), clock)
  {
    var keepCount := KeepCount(s, premium, planKeep);
    if keepCount > 0 {
      LatestIsKept(s, clock, keepCount);
      RemovalKeepsCore(s, clock, Old(s, keepCount));
      hide Core, Old, Without;
      SavingKeepsInv(Without(s, Old(s, keepCount)), clock, planKeep);
    }
  }

  /** One call keeps the invariant. */
  lemma StepKeepsInv(s: Store, clock: Time, op: Op)
    requires Inv(s, clock) && Enabled(s, clock, op)
    ensures Inv(After(s, op), Clock(clock, op))
  {
    match op
    case Upload(k, v, size, now, savedAt, premium, planKeep) => UploadKeepsInv(s, clock, op);
    case DeleteVersion(name, v, planKeep, p) => VersionDeletionKeepsInv(s, clock, op);
    case DeleteFile(name, planKeep) => FileDeletionKeepsInv(s, clock, op);
  }

  lemma UploadKeepsInv(s: Store, clock: Time, op: Op)
    requires Inv(s, clock) && Enabled(s, clock, op) && op.Upload?
    ensures Inv(After(s, op), op.savedAt)
  {
    var added := Added(s, op.k, op.v, op.size, op.now, op.savedAt);
    AddKeepsCore(s, clock, op.k, op.v, op.size, op.now, op.savedAt);
    LaterClock(s, clock, op.savedAt);
    if op.k.PackageFile? {
      PackageKeepsInv(s, clock, op);
    } else {
      SavingKeepsInv(added, op.savedAt, op.planKeep);
      hide Core, Added, Inv, Saved, AfterPurge, Enabled;
      if Saved(added, op.planKeep).Some? {
        PurgeKeepsInv(Saved(added, op.planKeep).value, op.savedAt, op.premium, op.planKeep);
      }
    }
  }

  lemma PackageKeepsInv(s: Store, clock: Time, op: Op)
    requires Inv(s, clock) && op.Upload? && op.k.PackageFile? && op.v !in s.versions
    requires Core(Added(s, op.k, op.v, op.size, op.now, op.savedAt), op.savedAt)
    ensures Inv(Added(s, op.k, op.v, op.size, op.now, op.savedAt), op.savedAt)
  {
    hide Core;
    assert OfProject(Added(s, op.k, op.v, op.size, op.now, op.savedAt).versions) == OfProject(s.versions);
  }

  lemma VersionDeletionKeepsInv(s: Store, clock: Time, op: Op)
    requires Inv(s, clock) && Enabled(s, clock, op) && op.DeleteVersion?
    ensures Inv(After(s, op), clock)
  {
    var ids := VersionsOf(s.versions, ProjectFile(op.name));
    var t := Without(Repaired(s, op.v, op.previous), {op.v});
    assert After(s, op) == if |ids| <= 1 || op.v !in ids then s else AfterSave(t, op.planKeep);
    hide After;
    if |ids| > 1 && op.v in ids {
      HasProjectFile(s, clock, op.name, op.v);
      hide Saved, Repaired, Without, VersionsOf, StampsAgree, StampsUpTo, Linked, FileOk;
      DeletionKeepsCore(s, clock, op.name, op.v, op.previous);
      RepairKeepsSetting(s, op.v, op.previous);
      hide Core, IsPrevious, Inv, Enabled;
      SavingKeepsInv(t, clock, op.planKeep);
    }
  }

  lemma HasProjectFile(s: Store, clock: Time, name: string, v: VersionId)
    requires Inv(s, clock) && v in VersionsOf(s.versions, ProjectFile(name))
    ensures s.keep > 0
  {
  }

  lemma RepairKeepsSetting(s: Store, v: VersionId, p: Option<VersionId>)
    ensures Without(Repaired(s, v, p), {v}).keep == s.keep
  {
  }

  lemma FileDeletionKeepsInv(s: Store, clock: Time, op: Op)
    requires Inv(s, clock) && op.DeleteFile?
    ensures Inv(After(s, op), clock)
  {
    var k := ProjectFile(op.name);
    assert After(s, op) == if k !in s.files then s else AfterSave(WithoutFile(s, k), op.planKeep);
    assert Core(s, clock) && (k in s.files ==> s.keep > 0);
    hide After, Core, Saved, Inv;
    FileDeletionKeepsCore(s, clock, k);
    assert WithoutFile(s, k).keep == s.keep;
    hide WithoutFile;
    SavingKeepsInv(WithoutFile(s, k), clock, op.planKeep);
  }

  lemma LaterClock(s: Store, clock: Time, later: Time)
    requires Inv(s, clock) && clock <= later
    ensures Inv(s, later)
  {
  }

  datatype Reached = Reached(store: Store, clock: Time)

  /** The state after these calls on an empty project. */
  ghost function Run(keep: nat, ops: seq<Op>): Reached {
    if ops == [] then Reached(Store(map[], map[], 0, keep), 0)
    else
      var r := Run(keep, ops[..|ops| - 1]);
      Reached(After(r.store, ops[|ops| - 1]), Clock(r.clock, ops[|ops| - 1]))
  }

  ghost predicate Legal(keep: nat, ops: seq<Op>) {
    ops != [] ==>
      && Legal(keep, ops[..|ops| - 1])
      && Enabled(Run(keep, ops[..|ops| - 1]).store, Run(keep, ops[..|ops| - 1]).clock, ops[|ops| - 1])
  }

  lemma {:induction false} RunsKeepInv(keep: nat, ops: seq<Op>)
    requires Legal(keep, ops)
    ensures Inv(Run(keep, ops).store, Run(keep, ops).clock)
  {
    if ops == [] {
      assert OfProject(map[]) == map[];
    } else {
      hide Inv, Enabled, After;
      RunsKeepInv(keep, ops[..|ops| - 1]);
      StepKeepsInv(Run(keep, ops[..|ops| - 1]).store, Run(keep, ops[..|ops| - 1]).clock, ops[|ops| - 1]);
    }
  }

  /** Main result: after any run of uploads, purges and deletions every file has at least one version,
      its pointer is at the newest, the byte total is the sum over the project files, and the
      version count never understates. */
  lemma FilesStayConsistent(keep: nat, ops: seq<Op>)
    requires Legal(keep, ops)
    ensures var s := Run(keep, ops).store;
      && s.bytes == Bytes(OfProject(s.versions))
      && forall k :: k in s.files ==>
           && 1 <= |VersionsOf(s.versions, k)| <= s.files[k].latestCount
           && s.files[k].latest.Some? && s.files[k].latest.value in VersionsOf(s.versions, k)
           && forall w :: w in VersionsOf(s.versions, k) ==>
                s.versions[w].createdAt <= s.versions[s.files[k].latest.value].createdAt
  {
    RunsKeepInv(keep, ops);
    var s := Run(keep, ops).store;
    forall k | k in s.files ensures FileOk(s, k) && 1 <= |VersionsOf(s.versions, k)| <= s.files[k].latestCount {
      SmallerSubset({s.files[k].latest.value}, VersionsOf(s.versions, k));
    }
  }
}
