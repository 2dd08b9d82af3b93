/** What uploads, purges and deletions do to the versions and the byte total of a project. */
module FileLaws {
  import opened Prelude
  import opened FileVersions
  import opened FileVersionProofs

  // ---- the byte total ----

  function SizesOf(vs: Versions, list: seq<VersionId>): nat
    requires forall v :: v in list ==> v in vs
  {
    if list == [] then 0 else SizesOf(vs, list[..|list| - 1]) + vs[list[|list| - 1]].size
  }

  /** The list has every version of a project file once, and no other. */
  ghost predicate Lists(vs: Versions, list: seq<VersionId>) {
    && (forall i, j :: 0 <= i < j < |list| ==> list[i] != list[j])
    && (forall v :: v in list <==> v in vs && vs[v].file.ProjectFile?)
  }

  lemma {:induction false} BytesOfList(vs: Versions, list: seq<VersionId>, part: Versions)
    requires forall i, j :: 0 <= i < j < |list| ==> list[i] != list[j]
    requires (forall v :: v in list ==> v in vs) && (forall v :: v in list <==> v in part)
    requires forall v :: v in part ==> part[v] == vs[v]
    ensures Bytes(part) == SizesOf(vs, list)
  {
    if list == [] {
      assert part == map[];
    } else {
      var init, last := list[..|list| - 1], list[|list| - 1];
      assert list == init + [last];
      BytesWithout(part, last);
      hide Bytes;
      BytesOfList(vs, init, part - {last});
    }
  }

  /** After any run the byte total is the sum of the sizes of all versions of project files, in whatever
      order they are listed; packages do not count. */
  lemma TotalIsSum(keep: nat, ops: seq<Op>, list: seq<VersionId>)
    requires Legal(keep, ops) && Lists(Run(keep, ops).store.versions, list)
    ensures var s := Run(keep, ops).store; s.bytes == SizesOf(s.versions, list)
  {
    hide Run, Legal, Bytes;
    FilesStayConsistent(keep, ops);
    var s := Run(keep, ops).store;
    hide Core, Inv;
    BytesOfList(s.versions, list, OfProject(s.versions));
  }

  lemma BytesOfOneMore(vs: Versions, v: VersionId, added: Version)
    requires v !in vs
    ensures Bytes(OfProject(vs[v := added])) == Bytes(OfProject(vs)) + if added.file.ProjectFile? then added.size else 0
  {
    var more := OfProject(vs[v := added]);
    if added.file.ProjectFile? {
      assert more - {v} == OfProject(vs);
      BytesWithout(more, v);
    } else {
      assert more == OfProject(vs);
    }
    hide Bytes;
  }

  /** An upload of a project file after which no version is purged raises the total by the size of the
      new version; a package file leaves it alone. */
  lemma UploadRaisesTotal(s: Store, clock: Time, op: Op)
    requires Inv(s, clock) && Enabled(s, clock, op) && op.Upload?
    ensures var t := After(s, op);
      && (op.k.PackageFile? ==> t.bytes == s.bytes)
      && (op.k.ProjectFile? && t.versions.Keys == s.versions.Keys + {op.v} ==> t.bytes == s.bytes + op.size)
  {
    hide Bytes, OfProject, Core;
    UploadKeepsInv(s, clock, op);
    var t, added := After(s, op), Version(op.k, op.size, op.now, op.savedAt);
    assert op.v !in s.versions && (op.k.PackageFile? ==> t.bytes == s.bytes);
    hide After, Enabled;
    if op.k.ProjectFile? && t.versions.Keys == s.versions.Keys + {op.v} {
      UploadedVersions(s, op);
      assert t.versions == s.versions[op.v := added];
      BytesOfOneMore(s.versions, op.v, added);
    }
  }

  /** What is left of the old versions and of the new one is as it was stored. */
  lemma UploadedVersions(s: Store, op: Op)
    requires op.Upload? && op.v !in s.versions
    ensures forall v :: v in After(s, op).versions ==>
      if v == op.v then After(s, op).versions[v] == Version(op.k, op.size, op.now, op.savedAt)
      else v in s.versions && After(s, op).versions[v] == s.versions[v]
  {
    hide Old, Bytes;
  }

  /** The deletion of one version lowers the total by its size. */
  lemma DeletionLowersTotal(s: Store, clock: Time, op: Op)
    requires Inv(s, clock) && Enabled(s, clock, op) && op.DeleteVersion? && op.v in s.versions
    requires op.v !in After(s, op).versions
    ensures After(s, op).bytes + s.versions[op.v].size == s.bytes
    ensures After(s, op).versions == s.versions - {op.v}
  {
    hide Bytes, OfProject, Core;
    VersionDeletionKeepsInv(s, clock, op);
    var t := After(s, op);
    DeletedVersion(s, op);
    hide After, Enabled;
    assert t.versions[op.v := s.versions[op.v]] == s.versions;
    BytesOfOneMore(t.versions, op.v, s.versions[op.v]);
  }

  lemma DeletedVersion(s: Store, op: Op)
    requires op.DeleteVersion? && op.v in s.versions && op.v !in After(s, op).versions
    ensures s.versions[op.v].file == ProjectFile(op.name) && After(s, op).versions == s.versions - {op.v}
  {
    hide Bytes, OfProject;
  }

  // ---- one upload ----

  /** The version row of an upload, and its file row: the pointer is at the new version and the count is
      one higher. */
  lemma UploadStores(s: Store, k: FileKey, v: VersionId, size: nat, now: Time, savedAt: Time)
    ensures var t := Added(s, k, v, size, now, savedAt);
      && v in t.versions && t.versions[v].file == k && t.versions[v].size == size
      && t.versions[v].uploadedAt == now && t.versions[v].createdAt == savedAt
      && (forall w :: w in s.versions && w != v ==> w in t.versions && t.versions[w] == s.versions[w])
      && k in t.files && t.files[k].latest == Some(v)
      && t.files[k].latestCount == (if k in s.files then s.files[k].latestCount else 0) + 1
      && (forall f :: f in s.files && f != k ==> f in t.files && t.files[f] == s.files[f])
      && t.bytes == s.bytes && t.keep == s.keep
  {
  }

  /** Saving a project keeps its own setting; without one it takes over the plan's, which must not be 0. */
  lemma SavedSetting(s: Store, planKeep: nat)
    ensures Saved(s, planKeep).None? <==> s.keep == 0 && planKeep == 0
    ensures Saved(s, planKeep).Some? ==>
      var t := Saved(s, planKeep).value;
      && (s.keep != 0 ==> t.keep == s.keep) && (s.keep == 0 ==> t.keep == planKeep)
      && t.files == s.files && t.versions == s.versions
  {
  }

  // ---- the purge ----

  /** `k` is the number of versions to keep: the project's own setting if the plan is premium and there
      is one, else the plan's number. */
  predicate ToKeep(s: Store, premium: bool, planKeep: nat, k: nat) {
    && (premium && s.keep != 0 ==> k == s.keep)
    && (!premium || s.keep == 0 ==> k == planKeep)
  }

  /** A purge leaves, of every project file with n versions, the min(n, k) newest ones. */
  lemma PurgeLeavesNewest(s: Store, clock: Time, premium: bool, planKeep: nat, k: nat, f: FileKey)
    requires Core(s, clock) && ToKeep(s, premium, planKeep, k) && k > 0 && f.ProjectFile? && f in s.files
    ensures var n, kept := |VersionsOf(s.versions, f)|, VersionsOf(AfterPurge(s, premium, planKeep).versions, f);
      && kept <= VersionsOf(s.versions, f)
      && |kept| == (if n < k then n else k)
      && forall v, w :: v in kept && w in VersionsOf(s.versions, f) - kept ==>
           s.versions[w].createdAt < s.versions[v].createdAt
  {
    assert StampsAgree(s.versions);
    hide Core, StampsAgree, Bytes;
    PurgeKeepsNewest(s, k, f);
    PurgedVersions(s, premium, planKeep, k);
    hide Old, Without, AfterPurge, ToKeep;
  }

  lemma PurgedVersions(s: Store, premium: bool, planKeep: nat, k: nat)
    requires ToKeep(s, premium, planKeep, k) && k > 0
    ensures AfterPurge(s, premium, planKeep).versions == Without(s, Old(s, k)).versions
  {
    hide Old, Bytes;
    assert Old(s, k) == {} ==> Without(s, Old(s, k)).versions == s.versions;
  }
}
