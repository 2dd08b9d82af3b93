/**
 The versioned files of one project: uploads, purges and deletions, with the cached pointer to the
 latest version and the cached byte total.
 */
module FileVersions {
  import opened Prelude

  type Time = int
  type VersionId = nat

  datatype FileKey = ProjectFile(name: string) | PackageFile(job: string, name: string)

  datatype File = File(latest: Option<VersionId>, latestCount: nat)

  datatype Version = Version(file: FileKey, size: nat, uploadedAt: Time, createdAt: Time)

  type Versions = map<VersionId, Version>

  /** `keep` is `storage_keep_versions` of the project, 0 if unset. */
  datatype Store = Store(files: map<FileKey, File>, versions: Versions, bytes: nat, keep: nat)

  // ---- queries ----

  function VersionsOf(vs: Versions, k: FileKey): set<VersionId> {
    set v | v in vs && vs[v].file == k
  }

  function OfProject(vs: Versions): Versions {
    map v | v in vs && vs[v].file.ProjectFile? :: vs[v]
  }

  ghost function Bytes(vs: Versions): nat {
    if vs == map[] then 0 else var v :| v in vs; vs[v].size + Bytes(vs - {v})
  }

  /** The sum can be taken in any order. */
  lemma {:induction false} BytesWithout(vs: Versions, v: VersionId)
    requires v in vs
    ensures Bytes(vs) == vs[v].size + Bytes(vs - {v})
    decreases |vs|
  {
    var w :| w in vs && Bytes(vs) == vs[w].size + Bytes(vs - {w});
    if w != v {
      BytesWithout(vs - {w}, v);
      BytesWithout(vs - {v}, w);
      assert vs - {w} - {v} == vs - {v} - {w};
    }
  }

  method SumBytes(vs: Versions) returns (n: nat)
    ensures n == Bytes(vs)
  {
    n := 0;
    var rest := vs;
    while rest != map[]
      invariant rest.Keys <= vs.Keys && n + Bytes(rest) == Bytes(vs)
      decreases |rest|
    {
      var v :| v in rest;
      BytesWithout(rest, v);
      n := n + rest[v].size;
      rest := rest - {v};
    }
  }

  /** Versions of the same file created later. */
  function Newer(vs: Versions, v: VersionId): set<VersionId>
    requires v in vs
  {
    set w | w in vs && vs[w].file == vs[v].file && vs[w].createdAt > vs[v].createdAt
  }

  /** What `order_by("-created_at")[keep:]` selects from one file. */
  function OldOf(vs: Versions, k: FileKey, keep: nat): set<VersionId> {
    set v | v in vs && vs[v].file == k && |Newer(vs, v)| >= keep
  }

  predicate UploadedBefore(vs: Versions, w: VersionId, v: VersionId) {
    w in vs && v in vs && vs[w].file == vs[v].file && vs[w].uploadedAt < vs[v].uploadedAt
  }

  /** `previous_version`: the last upload of the file before that of `v`. */
  ghost predicate IsPrevious(vs: Versions, v: VersionId, p: Option<VersionId>) {
    match p
    case None => forall w :: !UploadedBefore(vs, w, v)
    case Some(w) =>
      UploadedBefore(vs, w, v) && forall u :: UploadedBefore(vs, u, v) ==> vs[u].uploadedAt <= vs[w].uploadedAt
  }

  /** `next_version`. */
  ghost predicate IsNext(vs: Versions, v: VersionId, n: Option<VersionId>) {
    match n
    case None => forall w :: !UploadedBefore(vs, v, w)
    case Some(w) =>
      UploadedBefore(vs, v, w) && forall u :: UploadedBefore(vs, v, u) ==> vs[w].uploadedAt <= vs[u].uploadedAt
  }

  method PreviousVersion(vs: Versions, v: VersionId) returns (p: Option<VersionId>)
    requires v in vs
    ensures IsPrevious(vs, v, p)
  {
    p := None;
    var rest := vs.Keys;
    while rest != {}
      invariant rest <= vs.Keys
      invariant p.Some? ==> UploadedBefore(vs, p.value, v)
      invariant forall u :: u in vs && u !in rest && UploadedBefore(vs, u, v) ==>
                            p.Some? && vs[u].uploadedAt <= vs[p.value].uploadedAt
      decreases rest
    {
      var w :| w in rest;
      rest := rest - {w};
      if UploadedBefore(vs, w, v) && (p.None? || vs[p.value].uploadedAt < vs[w].uploadedAt) {
        p := Some(w);
      }
    }
  }

  // ---- the operations on the tables ----

  function Added(s: Store, k: FileKey, v: VersionId, size: nat, now: Time, savedAt: Time): Store {
    var before := if k in s.files then s.files[k] else File(Some(v), 0);
    s.(files := s.files[k := File(Some(v), before.latestCount + 1)],
       versions := s.versions[v := Version(k, size, now, savedAt)])
  }

  /** `Project.save(recompute_storage=True)`; None stands for the failing assertion. */
  ghost function Saved(s: Store, planKeep: nat): Option<Store> {
    var keep := if s.keep == 0 then planKeep else s.keep;
    if keep == 0 then None else Some(s.(bytes := Bytes(OfProject(s.versions)), keep := keep))
  }

  /** `owner_aware_storage_keep_versions`, before its assertion. */
  function KeepCount(s: Store, premium: bool, planKeep: nat): nat {
    if premium && s.keep != 0 then s.keep else planKeep
  }

  function Old(s: Store, keep: nat): set<VersionId> {
    set v | v in s.versions && s.versions[v].file.ProjectFile? && s.versions[v].file in s.files
            && |Newer(s.versions, v)| >= keep
  }

  /** The signal handler: a deleted latest version is replaced by the previous one. */
  function Repaired(s: Store, v: VersionId, p: Option<VersionId>): Store {
    if v in s.versions && s.versions[v].file in s.files && s.files[s.versions[v].file].latest == Some(v)
    then s.(files := s.files[s.versions[v].file := s.files[s.versions[v].file].(latest := p)])
    else s
  }

  function Without(s: Store, ids: set<VersionId>): Store {
    s.(versions := s.versions - ids)
  }

  function WithoutFile(s: Store, k: FileKey): Store {
    s.(files := s.files - {k}, versions := s.versions - VersionsOf(s.versions, k))
  }

  /** The signal handlers move the pointer of a file only if its latest version is among those deleted,
      and then to an earlier upload. */
  ghost predicate PointersAfter(vs: Versions, files0: map<FileKey, File>, files: map<FileKey, File>,
                                gone: set<VersionId>) {
    && files.Keys == files0.Keys
    && forall k :: k in files0 ==>
         && files[k].latestCount == files0[k].latestCount
         && (files[k].latest == files0[k].latest
             || (files0[k].latest.Some? && files0[k].latest.value in gone
                 && (files[k].latest.Some? ==> UploadedBefore(vs, files[k].latest.value, files0[k].latest.value))))
  }

  lemma PointersNext(s: Store, files0: map<FileKey, File>, gone: set<VersionId>, v: VersionId, p: Option<VersionId>)
    requires PointersAfter(s.versions, files0, s.files, gone) && v in gone && v in s.versions
    requires s.versions[v].file in s.files
    requires IsPrevious(s.versions, v, p) || s.files[s.versions[v].file].latest != Some(v)
    ensures PointersAfter(s.versions, files0, Repaired(s, v, p).files, gone)
  {
    if p.Some? && s.files[s.versions[v].file].latest == Some(v) {
      assert UploadedBefore(s.versions, p.value, v);
    }
    hide IsPrevious;
  }

  datatype Outcome = Deleted | LastVersion | NotFound | Raised

  class ProjectFiles {
    var files: map<FileKey, File>
    var versions: Versions
    var bytes: nat
    var keep: nat

    function Contents(): Store
      reads this
    {
      Store(files, versions, bytes, keep)
    }

    constructor ()
      ensures Contents() == Store(map[], map[], 0, 0)
    {
      files, versions, bytes, keep := map[], map[], 0, 0;
    }

    method AddVersion(k: FileKey, v: VersionId, size: nat, now: Time, savedAt: Time)
      modifies this`files, this`versions
      ensures Contents() == Added(old(Contents()), k, v, size, now, savedAt)
    {
      if k !in files {
        files := files[k := File(Some(v), 0)];
      }
      versions := versions[v := Version(k, size, now, savedAt)];
      files := files[k := files[k].(latest := Some(v))];
      files := files[k := files[k].(latestCount := files[k].latestCount + 1)];
    }

    method Save(planKeep: nat) returns (raised: bool)
      modifies this`bytes, this`keep
      ensures raised <==> Saved(old(Contents()), planKeep).None?
      ensures Contents() == if raised then old(Contents()) else Saved(old(Contents()), planKeep).value
    {
      var total := SumBytes(OfProject(versions));
      var k := if keep == 0 then planKeep else keep;
      if k < 1 { return true; }
      bytes, keep := total, k;
      raised := false;
    }

    /** The transaction of an upload; the version is taken back if saving the project raises. */
    method Upload(k: FileKey, v: VersionId, size: nat, now: Time, savedAt: Time, planKeep: nat) returns (raised: bool)
      modifies this
      ensures var added := Added(old(Contents()), k, v, size, now, savedAt);
        && (raised <==> k.ProjectFile? && Saved(added, planKeep).None?)
        && Contents() == if raised then old(Contents())
                         else if k.ProjectFile? then Saved(added, planKeep).value else added
    {
      var files0, versions0 := files, versions;
      AddVersion(k, v, size, now, savedAt);
      raised := false;
      if k.ProjectFile? {
        raised := Save(planKeep);
        if raised {
          files, versions := files0, versions0;
        }
      }
    }

    /** `pre_delete_file_version`; `p` is the previous version if it was looked up. */
    method PreDelete(v: VersionId) returns (p: Option<VersionId>)
      requires v in versions && versions[v].file in files
      modifies this`files
      ensures IsPrevious(versions, v, p) || (p == None && old(files)[versions[v].file].latest != Some(v))
      ensures Contents() == Repaired(old(Contents()), v, p)
    {
      p := None;
      if files[versions[v].file].latest != Some(v) { return; }
      p := PreviousVersion(versions, v);
      files := files[versions[v].file := files[versions[v].file].(latest := p)];
    }

    method OldVersions(keepCount: nat) returns (ids: set<VersionId>)
      ensures ids == Old(Contents(), keepCount)
    {
      ids := {};
      var rest := files.Keys;
      while rest != {}
        invariant rest <= files.Keys
        invariant ids == set v | v in versions && versions[v].file.ProjectFile? && versions[v].file in files.Keys - rest
                                 && |Newer(versions, v)| >= keepCount
        decreases rest
      {
        var k :| k in rest;
        rest := rest - {k};
        if k.ProjectFile? {
          ids := ids + OldOf(versions, k, keepCount);
        }
      }
    }

    /** `purge_old_file_versions`; if saving raises, its transaction is taken back. */
    method Purge(premium: bool, planKeep: nat) returns (raised: bool)
      requires forall v :: v in versions ==> versions[v].file in files
      modifies this
      ensures var s := old(Contents()); var keepCount := KeepCount(s, premium, planKeep); var gone := Old(s, keepCount);
        && (raised <==> keepCount == 0 || (gone != {} && Saved(Without(s, gone), planKeep).None?))
        && (raised || gone == {} ==> Contents() == s)
        && (!raised && gone != {} ==>
              && Contents() == Saved(Without(s, gone), planKeep).value.(files := files)
              && PointersAfter(s.versions, s.files, files, gone))
      ensures var s := old(Contents()); var k := if premium && s.keep != 0 then s.keep else planKeep;
        && (raised <==> k == 0)
        && (!raised ==> forall v :: v in s.versions ==>
              (v in versions <==> s.versions[v].file.PackageFile? || |Newer(s.versions, v)| < k))
    {
      var keepCount := if premium && keep != 0 then keep else planKeep;
      if keepCount < 1 { return true; }
      var ids := OldVersions(keepCount);
      assert forall v :: v in versions ==>
        (v in ids <==> versions[v].file.ProjectFile? && |Newer(versions, v)| >= keepCount);
      if ids == {} { return false; }
      var files0, versions0 := files, versions;
      var rest := ids;
      assert PointersAfter(versions0, files0, files, ids);
      hide IsPrevious, PointersAfter, Old;
      while rest != {}
        invariant rest <= ids && versions == versions0 && bytes == old(bytes) && keep == old(keep)
        invariant PointersAfter(versions0, files0, files, ids)
        decreases rest
      {
        var v :| v in rest;
        rest := rest - {v};
        ghost var before := Contents();
        var p := PreDelete(v);
        PointersNext(before, files0, ids, v, p);
      }
      versions := versions - ids;
      raised := Save(planKeep);
      if raised {
        files, versions := files0, versions0;
      }
    }

    /** Deleting one version: not a transaction with the saving of the project. */
    method DeleteVersion(name: string, v: VersionId, planKeep: nat) returns (r: Outcome, p: Option<VersionId>)
      requires forall w :: w in versions ==> versions[w].file in files
      modifies this
      ensures var s := old(Contents()); var k := ProjectFile(name);
        && (r == LastVersion <==> |VersionsOf(s.versions, k)| <= 1)
        && (r == NotFound <==> |VersionsOf(s.versions, k)| > 1 && v !in VersionsOf(s.versions, k))
        && (r in {LastVersion, NotFound} ==> Contents() == s)
        && (r in {Deleted, Raised} ==>
              && k in s.files && (IsPrevious(s.versions, v, p) || s.files[k].latest != Some(v))
              && var deleted := Without(Repaired(s, v, p), {v});
                 && (r == Raised <==> Saved(deleted, planKeep).None?)
                 && Contents() == if r == Raised then deleted else Saved(deleted, planKeep).value)
    {
      p := None;
      var ids := VersionsOf(versions, ProjectFile(name));
      if |ids| <= 1 { return LastVersion, p; }
      if v !in ids { return NotFound, p; }
      p := PreDelete(v);
      versions := versions - {v};
      var raised := Save(planKeep);
      r := if raised then Raised else Deleted;
    }

    method DeleteFile(name: string, planKeep: nat) returns (r: Outcome)
      modifies this
      ensures var s := old(Contents()); var k := ProjectFile(name); var deleted := WithoutFile(s, k);
        && (r == NotFound <==> k !in s.files)
        && (r == Raised <==> k in s.files && Saved(deleted, planKeep).None?)
        && r != LastVersion
        && Contents() == match r
                         case Deleted => Saved(deleted, planKeep).value
                         case Raised => deleted
                         case _ => s
    {
      var k := ProjectFile(name);
      if k !in files { return NotFound; }
      versions := versions - VersionsOf(versions, k);
      files := files - {k};
      var raised := Save(planKeep);
      r := if raised then Raised else Deleted;
    }
  }
}
