/** What the cached version count of a file counts. */
module FileCounts {
  import opened Prelude
  import opened FileVersions
  import opened FileVersionProofs

  /** The call is an upload, and its version is stored, though the purge after it may remove others. */
  ghost predicate Stores(s: Store, op: Op, k: FileKey) {
    && op.Upload? && op.k == k
    && (k.PackageFile? || Saved(Added(s, k, op.v, op.size, op.now, op.savedAt), op.planKeep).Some?)
  }

  predicate Deletes(op: Op, k: FileKey) {
    op.DeleteFile? && ProjectFile(op.name) == k
  }

  /** The uploads stored since the file's row was created. */
  ghost function Uploads(keep: nat, ops: seq<Op>, k: FileKey): nat {
    if ops == [] then 0
    else
      var before, op := ops[..|ops| - 1], ops[|ops| - 1];
      if Deletes(op, k) then 0
      else Uploads(keep, before, k) + if Stores(Run(keep, before).store, op, k) then 1 else 0
  }

  /** The versions of the file that one call removes. */
  ghost function RemovedBy(s: Store, op: Op, k: FileKey): set<VersionId> {
    VersionsOf(s.versions, k) + (if Stores(s, op, k) then {op.v} else {}) - VersionsOf(After(s, op).versions, k)
  }

  /** The versions removed since the file's row was created. */
  ghost function Removals(keep: nat, ops: seq<Op>, k: FileKey): nat {
    if ops == [] then 0
    else
      var before, op := ops[..|ops| - 1], ops[|ops| - 1];
      if Deletes(op, k) then 0 else Removals(keep, before, k) + |RemovedBy(Run(keep, before).store, op, k)|
  }

  function CountOf(s: Store, k: FileKey): nat {
    if k in s.files then s.files[k].latestCount else 0
  }

  lemma SavedTables(s: Store, planKeep: nat)
    ensures AfterSave(s, planKeep).files == s.files && AfterSave(s, planKeep).versions == s.versions
  {
  }

  lemma PurgedTables(s: Store, premium: bool, planKeep: nat, k: FileKey)
    ensures var t := AfterPurge(s, premium, planKeep);
      t.files == s.files && VersionsOf(t.versions, k) <= VersionsOf(s.versions, k)
  {
  }

  lemma AddedTables(s: Store, op: Op, k: FileKey)
    requires op.Upload? && op.v !in s.versions
    ensures var t := Added(s, op.k, op.v, op.size, op.now, op.savedAt);
      && VersionsOf(t.versions, k) == VersionsOf(s.versions, k) + (if op.k == k then {op.v} else {})
      && CountOf(t, k) == CountOf(s, k) + (if op.k == k then 1 else 0)
      && (k in t.files <==> k in s.files || op.k == k)
  {
  }

  /** One call other than the deletion of the file: its count grows with a stored upload alone, and
      its versions are among the old ones and the stored one. */
  lemma StepCounts(s: Store, op: Op, k: FileKey)
    requires !Deletes(op, k) && (op.Upload? ==> op.v !in s.versions)
    ensures var t := After(s, op);
      && VersionsOf(t.versions, k) <= VersionsOf(s.versions, k) + (if Stores(s, op, k) then {op.v} else {})
      && CountOf(t, k) == CountOf(s, k) + (if Stores(s, op, k) then 1 else 0)
      && (k in t.files <==> k in s.files || Stores(s, op, k))
      && (k !in t.files && VersionsOf(s.versions, k) == {} ==> VersionsOf(t.versions, k) == {})
  {
    match op
    case Upload(key, v, size, now, savedAt, premium, planKeep) =>
      AddedTables(s, op, k);
      var added := Added(s, key, v, size, now, savedAt);
      if key.ProjectFile? && Saved(added, planKeep).Some? {
        PurgedTables(Saved(added, planKeep).value, premium, planKeep, k);
      }
      hide Added, AfterPurge;
    case DeleteVersion(name, v, planKeep, p) =>
      SavedTables(Without(Repaired(s, v, p), {v}), planKeep);
    case DeleteFile(name, planKeep) =>
      SavedTables(WithoutFile(s, ProjectFile(name)), planKeep);
  }

  lemma FileIsGone(s: Store, op: Op, k: FileKey, clock: Time)
    requires Deletes(op, k) && Core(s, clock)
    ensures k !in After(s, op).files && VersionsOf(After(s, op).versions, k) == {} && CountOf(After(s, op), k) == 0
  {
    SavedTables(WithoutFile(s, k), op.planKeep);
  }

  /** Removed and remaining versions balance over one call. */
  lemma StepBalances(s: Store, op: Op, k: FileKey)
    requires !Deletes(op, k) && (op.Upload? ==> op.v !in s.versions)
    ensures |VersionsOf(After(s, op).versions, k)| + |RemovedBy(s, op, k)|
         == |VersionsOf(s.versions, k)| + if Stores(s, op, k) then 1 else 0
  {
    StepCounts(s, op, k);
    StoredIsNew(s, op, k);
    hide After, Stores, VersionsOf, CountOf;
    var stored := if Stores(s, op, k) then {op.v} else {};
    SetBalance(VersionsOf(s.versions, k), stored, VersionsOf(After(s, op).versions, k));
  }

  lemma SetBalance(there: set<VersionId>, more: set<VersionId>, kept: set<VersionId>)
    requires kept <= there + more && there !! more
    ensures |kept| + |there + more - kept| == |there| + |more|
  {
    assert there + more == kept + (there + more - kept);
  }

  /** Main result: the count is the number of uploads stored since the file's row was created, each of
      which is a version that is still there or one that was removed. */
  lemma {:induction false} CountIsUploads(keep: nat, ops: seq<Op>, k: FileKey)
    requires Legal(keep, ops)
    ensures var s := Run(keep, ops).store;
      && CountOf(s, k) == Uploads(keep, ops, k) == |VersionsOf(s.versions, k)| + Removals(keep, ops, k)
      && (k !in s.files ==> VersionsOf(s.versions, k) == {})
  {
    if ops == [] {
      assert VersionsOf(map[], k) == {};
    } else {
      var before, op := ops[..|ops| - 1], ops[|ops| - 1];
      var s, clock := Run(keep, before).store, Run(keep, before).clock;
      assert Legal(keep, before) && Enabled(s, clock, op) && Run(keep, ops).store == After(s, op);
      hide After, Stores, VersionsOf, Enabled, Core, RemovedBy, Legal, Run, CountOf;
      CountIsUploads(keep, before, k);
      RunsKeepInv(keep, before);
      EnabledIsNew(s, clock, op);
      if Deletes(op, k) {
        FileIsGone(s, op, k, clock);
      } else {
        StepCounts(s, op, k);
        StepBalances(s, op, k);
      }
    }
  }

  lemma EnabledIsNew(s: Store, clock: Time, op: Op)
    requires Enabled(s, clock, op)
    ensures op.Upload? ==> op.v !in s.versions
  {
  }

  lemma StoredIsNew(s: Store, op: Op, k: FileKey)
    requires op.Upload? ==> op.v !in s.versions
    ensures Stores(s, op, k) ==> op.v !in VersionsOf(s.versions, k)
  {
  }

  /** So the count is the number of versions exactly if none was removed since the file's row was
      created; it is never lowered. */
  lemma CountIsExactIff(keep: nat, ops: seq<Op>, k: FileKey)
    requires Legal(keep, ops) && k in Run(keep, ops).store.files
    ensures var s := Run(keep, ops).store;
      s.files[k].latestCount == |VersionsOf(s.versions, k)| <==> Removals(keep, ops, k) == 0
  {
    CountIsUploads(keep, ops, k);
  }

  lemma OneUpload()
    ensures var k := ProjectFile("a");
      After(Store(map[], map[], 0, 1), Upload(k, 1, 5, 1, 1, false, 1))
      == Store(map[k := File(Some(1), 1)], map[1 := Version(k, 5, 1, 1)], 5, 1)
  {
    var k := ProjectFile("a");
    var one := map[1 := Version(k, 5, 1, 1)];
    assert Newer(one, 1) == {};
    assert OfProject(one) == one && one - {1} == map[];
    BytesWithout(one, 1);
  }

  lemma SecondUpload()
    ensures var k := ProjectFile("a");
      var s := After(Store(map[k := File(Some(1), 1)], map[1 := Version(k, 5, 1, 1)], 5, 1),
                     Upload(k, 2, 7, 2, 2, false, 1));
      s.files == map[k := File(Some(2), 2)] && s.versions == map[2 := Version(k, 7, 2, 2)]
  {
    var k := ProjectFile("a");
    var two := map[1 := Version(k, 5, 1, 1), 2 := Version(k, 7, 2, 2)];
    assert Newer(two, 1) == {2} && Newer(two, 2) == {};
    var s := Added(Store(map[k := File(Some(1), 1)], map[1 := Version(k, 5, 1, 1)], 5, 1), k, 2, 7, 2, 2);
    assert s.versions == two;
    assert Old(s, 1) == {1};
    assert two - {1} == map[2 := Version(k, 7, 2, 2)];
    hide Bytes;
  }

  lemma TwoUploads() returns (ops: seq<Op>)
    ensures Legal(1, ops)
    ensures var s, k := Run(1, ops).store, ProjectFile("a");
      s.files == map[k := File(Some(2), 2)] && s.versions == map[2 := Version(k, 7, 2, 2)]
  {
    var k := ProjectFile("a");
    var first, second := Upload(k, 1, 5, 1, 1, false, 1), Upload(k, 2, 7, 2, 2, false, 1);
    ops := [first, second];
    assert ops[..1] == [first] && [first][..0] == [];
    OneUpload();
    SecondUpload();
    hide After;
    assert Legal(1, []) && Legal(1, [first]);
  }

  /** A purge removes: with one version kept, two uploads leave one version and a count of two. */
  lemma CountOverstates() returns (ops: seq<Op>)
    ensures Legal(1, ops) && Removals(1, ops, ProjectFile("a")) == 1
    ensures var s, k := Run(1, ops).store, ProjectFile("a");
      k in s.files && s.files[k].latestCount == 2 && VersionsOf(s.versions, k) == {2}
  {
    ops := TwoUploads();
    var k := ProjectFile("a");
    hide Run, Legal, Removals;
    CountIsUploads(1, ops, k);
    assert VersionsOf(Run(1, ops).store.versions, k) == {2};
  }
}
