/**
 The cleaner of deleted objects: a paged listing of versions and delete markers is sorted page by
 page, grouped by key, and the versions of deleted keys are removed in batches.
 */
module StorageCleaner {
  import opened Prelude
  import opened Strings

  type Time = int

  /** A version of an object, or a delete marker. */
  datatype Entry = Entry(key: string, versionId: string, at: Time, marker: bool, size: nat)

  /** One answer of the listing: versions and markers apart. */
  datatype Page = Page(versions: seq<Entry>, markers: seq<Entry>)

  predicate WellFormedPage(p: Page) {
    && (forall i :: 0 <= i < |p.versions| ==> !p.versions[i].marker)
    && (forall i :: 0 <= i < |p.markers| ==> p.markers[i].marker)
  }

  const BATCH := 1000

  // ---- the order of a page ----

  /** `(a.key, a.at) > (b.key, b.at)`. */
  predicate SortsBefore(a: Entry, b: Entry) {
    Greater(a.key, b.key) || (a.key == b.key && a.at > b.at)
  }

  function Insert(e: Entry, s: seq<Entry>): seq<Entry> {
    if s == [] || !SortsBefore(s[0], e) then [e] + s else [s[0]] + Insert(e, s[1..])
  }

  /** The stable sort in descending order of (key, time). */
  function Sorted(s: seq<Entry>): seq<Entry> {
    if s == [] then [] else Insert(s[0], Sorted(s[1..]))
  }

  /** All pages, each sorted for itself. */
  function Listing(pages: seq<Page>): seq<Entry> {
    if pages == [] then [] else Sorted(pages[0].versions + pages[0].markers) + Listing(pages[1..])
  }

  method IterAllVersions(pages: seq<Page>) returns (s: seq<Entry>)
    ensures s == Listing(pages)
  {
    s := [];
    for i := 0 to |pages|
      invariant s + Listing(pages[i..]) == Listing(pages)
    {
      var page := pages[i].versions;
      page := page + pages[i].markers;
      s := s + Sorted(page);
      assert pages[i..][1..] == pages[i + 1..];
    }
  }

  // ---- grouping ----

  datatype Group = Group(key: string, versions: seq<Entry>)

  /** The groups once one more entry has arrived. */
  function Grouped(gs: seq<Group>, e: Entry): seq<Group> {
    if gs != [] && gs[|gs| - 1].key == e.key
    then gs[..|gs| - 1] + [Group(e.key, gs[|gs| - 1].versions + [e])]
    else gs + [Group(e.key, [e])]
  }

  /** The maximal runs of equal keys. */
  function Groups(s: seq<Entry>): seq<Group> {
    if s == [] then [] else Grouped(Groups(s[..|s| - 1]), s[|s| - 1])
  }

  /** The final group is only analysed if its key is not the empty string. */
  function Analysed(gs: seq<Group>): seq<Group> {
    if gs != [] && gs[|gs| - 1].key == "" then gs[..|gs| - 1] else gs
  }

  datatype DeletedObject = DeletedObject(key: string, deletedAt: Time, totalSize: nat, count: nat, versions: seq<Entry>)

  function TotalSize(s: seq<Entry>, n: nat): nat
    requires n <= |s|
  {
    if n == 0 then 0 else TotalSize(s, n - 1) + if s[n - 1].marker then 0 else s[n - 1].size
  }

  predicate IsDeleted(history: seq<Entry>, cutoff: Option<Time>) {
    history != [] && history[0].marker && (cutoff.Some? ==> history[0].at <= cutoff.value)
  }

  function Analysis(key: string, history: seq<Entry>, cutoff: Option<Time>): Option<DeletedObject> {
    if !IsDeleted(history, cutoff) then None
    else Some(DeletedObject(key, history[0].at, TotalSize(history, |history|), |history|, history))
  }

  function DeletedIn(g: Group, cutoff: Option<Time>): seq<DeletedObject> {
    var a := Analysis(g.key, g.versions, cutoff);
    if a.Some? then [a.value] else []
  }

  function Deleted(gs: seq<Group>, cutoff: Option<Time>): seq<DeletedObject> {
    if gs == [] then [] else Deleted(gs[..|gs| - 1], cutoff) + DeletedIn(gs[|gs| - 1], cutoff)
  }

  lemma GroupsNext(s: seq<Entry>, e: Entry)
    ensures Groups(s + [e]) == Grouped(Groups(s), e)
  {
    assert (s + [e])[..|s|] == s;
  }

  method AnalyzeKeyHistory(key: string, history: seq<Entry>, cutoff: Option<Time>) returns (r: Option<DeletedObject>)
    ensures r == Analysis(key, history, cutoff)
  {
    if history == [] { return None; }
    var latest := history[0];
    if !latest.marker { return None; }
    if cutoff.Some? && latest.at > cutoff.value { return None; }
    var total: nat := 0;
    for i := 0 to |history|
      invariant total == TotalSize(history, i)
    {
      if history[i].marker { continue; }
      total := total + history[i].size;
    }
    r := Some(DeletedObject(key, latest.at, total, |history|, history));
  }

  method IterLogicallyDeleted(s: seq<Entry>, cutoff: Option<Time>) returns (objects: seq<DeletedObject>)
    ensures objects == Deleted(Analysed(Groups(s)), cutoff)
  {
    objects := [];
    var currentKey: Option<string> := None;
    var current: seq<Entry> := [];
    ghost var done: seq<Group> := [];
    assert Groups(s[..0]) == [] && Deleted(done, cutoff) == [];
    hide Groups, Deleted, Analysis;
    for i := 0 to |s|
      invariant currentKey.None? <==> i == 0
      invariant i == 0 ==> current == [] && done == [] && Groups(s[..i]) == []
      invariant i > 0 ==> current != [] && Groups(s[..i]) == done + [Group(currentKey.value, current)]
      invariant objects == Deleted(done, cutoff)
    {
      var e := s[i];
      assert s[..i + 1] == s[..i] + [e];
      GroupsNext(s[..i], e);
      hide Analysed;
      if currentKey.None? {
        currentKey, current := Some(e.key), current + [e];
        continue;
      }
      var before := Group(currentKey.value, current);
      assert (done + [before])[..|done|] == done;
      if e.key == currentKey.value {
        current := current + [e];
      } else {
        var r := AnalyzeKeyHistory(currentKey.value, current, cutoff);
        DeletedNext(done, before, cutoff);
        if r.Some? {
          objects := objects + [r.value];
        }
        done := done + [before];
        currentKey, current := Some(e.key), [e];
      }
    }
    assert s[..|s|] == s;
    assert Analysed([]) == [];
    if currentKey.Some? {
      AnalysedNext(done, Group(currentKey.value, current));
    }
    hide Analysed;
    if currentKey.Some? && currentKey.value != "" && current != [] {
      var r := AnalyzeKeyHistory(currentKey.value, current, cutoff);
      DeletedNext(done, Group(currentKey.value, current), cutoff);
      if r.Some? {
        objects := objects + [r.value];
      }
    }
  }

  lemma AnalysedNext(done: seq<Group>, g: Group)
    ensures Analysed(done + [g]) == if g.key == "" then done else done + [g]
  {
    assert (done + [g])[..|done|] == done;
  }

  lemma DeletedNext(done: seq<Group>, g: Group, cutoff: Option<Time>)
    ensures Deleted(done + [g], cutoff) == Deleted(done, cutoff) + DeletedIn(g, cutoff)
  {
    assert (done + [g])[..|done|] == done;
  }

  // ---- deletion ----

  /** All versions of the objects, in order. */
  function VersionsOf(objects: seq<DeletedObject>): seq<Entry> {
    if objects == [] then [] else VersionsOf(objects[..|objects| - 1]) + objects[|objects| - 1].versions
  }

  /** Full batches, and what is left over. */
  function FullBatches(s: seq<Entry>): (bs: seq<seq<Entry>>)
    decreases |s|
  {
    if |s| < BATCH then [] else [s[..BATCH]] + FullBatches(s[BATCH..])
  }

  function Rest(s: seq<Entry>): (r: seq<Entry>)
    ensures |r| < BATCH
    decreases |s|
  {
    if |s| < BATCH then s else Rest(s[BATCH..])
  }

  function Batches(s: seq<Entry>): seq<seq<Entry>> {
    FullBatches(s) + if Rest(s) == [] then [] else [Rest(s)]
  }

  lemma {:induction false} OneMore(s: seq<Entry>, e: Entry)
    ensures if |Rest(s)| + 1 == BATCH
            then FullBatches(s + [e]) == FullBatches(s) + [Rest(s) + [e]] && Rest(s + [e]) == []
            else FullBatches(s + [e]) == FullBatches(s) && Rest(s + [e]) == Rest(s) + [e]
    decreases |s|
  {
    if |s| < BATCH {
      if |s| + 1 == BATCH {
        assert (s + [e])[..BATCH] == s + [e] && (s + [e])[BATCH..] == [];
      }
    } else {
      assert (s + [e])[..BATCH] == s[..BATCH] && (s + [e])[BATCH..] == s[BATCH..] + [e];
      OneMore(s[BATCH..], e);
    }
  }

  /** The entries of `stored` that a request names by key and version id. */
  function Named(stored: set<Entry>, batch: seq<Entry>): set<Entry> {
    set e | e in stored && exists i :: 0 <= i < |batch| && batch[i].key == e.key && batch[i].versionId == e.versionId
  }

  /** The storage after these requests; `failed[i]` are the entries that request `i` fails to delete. */
  function AfterRequests(stored: set<Entry>, batches: seq<seq<Entry>>, failed: nat -> set<Entry>, n: nat): set<Entry>
    requires n <= |batches|
  {
    if n == 0 then stored
    else
      var before := AfterRequests(stored, batches, failed, n - 1);
      before - (Named(before, batches[n - 1]) - failed(n - 1))
  }

  class Bucket {
    var stored: set<Entry>
    var requests: seq<seq<Entry>>

    constructor (stored: set<Entry>)
      ensures this.stored == stored && requests == []
    {
      this.stored, requests := stored, [];
    }

    /** Errors of the storage are only logged. */
    method DeleteVersionsBatch(batch: seq<Entry>, failed: nat -> set<Entry>)
      requires |batch| <= BATCH
      modifies this
      ensures batch == [] ==> stored == old(stored) && requests == old(requests)
      ensures batch != [] ==> requests == old(requests) + [batch]
                              && stored == old(stored) - (Named(old(stored), batch) - failed(|old(requests)|))
    {
      if batch == [] { return; }
      stored := stored - (Named(stored, batch) - failed(|requests|));
      requests := requests + [batch];
    }

    method PermanentlyDelete(objects: seq<DeletedObject>, failed: nat -> set<Entry>)
      requires requests == []
      modifies this
      ensures requests == Batches(VersionsOf(objects))
      ensures stored == AfterRequests(old(stored), requests, failed, |requests|)
    {
      var batch: seq<Entry> := [];
      ghost var sent: seq<Entry> := [];
      for i := 0 to |objects|
        invariant sent == VersionsOf(objects[..i])
        invariant requests == FullBatches(sent) && batch == Rest(sent)
        invariant stored == AfterRequests(old(stored), requests, failed, |requests|)
      {
        var versions := objects[i].versions;
        assert objects[..i + 1][..i] == objects[..i];
        for j := 0 to |versions|
          invariant sent == VersionsOf(objects[..i]) + versions[..j]
          invariant requests == FullBatches(sent) && batch == Rest(sent)
          invariant stored == AfterRequests(old(stored), requests, failed, |requests|)
        {
          OneMore(sent, versions[j]);
          assert versions[..j + 1] == versions[..j] + [versions[j]];
          sent := sent + [versions[j]];
          batch := batch + [versions[j]];
          if |batch| == BATCH {
            SameRequests(old(stored), requests, batch, failed, |requests|);
            DeleteVersionsBatch(batch, failed);
            batch := [];
          }
        }
        assert versions[..|versions|] == versions;
      }
      assert objects[..|objects|] == objects;
      if batch != [] {
        SameRequests(old(stored), requests, batch, failed, |requests|);
        DeleteVersionsBatch(batch, failed);
      }
    }
  }

  lemma {:induction false} SameRequests(stored: set<Entry>, batches: seq<seq<Entry>>, more: seq<Entry>,
                                        failed: nat -> set<Entry>, n: nat)
    requires n <= |batches|
    ensures AfterRequests(stored, batches + [more], failed, n) == AfterRequests(stored, batches, failed, n)
  {
    if n > 0 {
      SameRequests(stored, batches, more, failed, n - 1);
    }
  }
}
