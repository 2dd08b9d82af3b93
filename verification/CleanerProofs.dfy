/** Which entries the cleaner removes, and which it keeps. */
module CleanerProofs {
  import opened Prelude
  import opened Strings
  import opened StorageCleaner

  // ---- one page ----

  /** `a` is at least as new as `b`; a version wins a tie. */
  predicate Ahead(a: Entry, b: Entry) {
    a.at > b.at || (a.at == b.at && (a.marker ==> b.marker))
  }

  predicate Before(a: Entry, b: Entry) {
    Greater(a.key, b.key) || (a.key == b.key && Ahead(a, b))
  }

  ghost predicate InOrder(s: seq<Entry>) {
    forall i, j :: 0 <= i < j < |s| ==> Before(s[i], s[j])
  }

  lemma BeforeIsTransitive(a: Entry, b: Entry, c: Entry)
    requires Before(a, b) && Before(b, c)
    ensures Before(a, c)
  {
    if Greater(a.key, b.key) && Greater(b.key, c.key) {
      Transitive(a.key, b.key, c.key);
    }
  }

  /** If `b` does not sort before `a`, and `a` is a version unless both are markers, `a` may precede `b`. */
  lemma NotSortedBefore(a: Entry, b: Entry)
    requires !SortsBefore(b, a) && (a.marker ==> b.marker)
    ensures Before(a, b)
  {
    Trichotomy(a.key, b.key);
  }

  lemma {:induction false} InsertKeepsOrder(e: Entry, s: seq<Entry>)
    requires InOrder(s) && forall i :: 0 <= i < |s| && e.marker ==> s[i].marker
    ensures InOrder(Insert(e, s))
    ensures multiset(Insert(e, s)) == multiset{e} + multiset(s)
  {
    if s == [] || !SortsBefore(s[0], e) {
      forall i | 0 <= i < |s| ensures Before(e, s[i]) {
        NotSortedBefore(e, s[0]);
        if i > 0 {
          BeforeIsTransitive(e, s[0], s[i]);
        }
      }
      PutInFront(e, s);
    } else {
      assert s == [s[0]] + s[1..];
      assert forall i :: 0 <= i < |s| - 1 ==> s[1..][i] == s[i + 1];
      InsertKeepsOrder(e, s[1..]);
      var rest := Insert(e, s[1..]);
      assert Before(s[0], e);
      hide Before, SortsBefore;
      forall i | 0 <= i < |rest| ensures Before(s[0], rest[i]) {
        assert rest[i] in multiset(rest);
        assert rest[i] == e || rest[i] in s[1..];
      }
      PutInFront(s[0], rest);
    }
  }

  lemma PutInFront(e: Entry, s: seq<Entry>)
    requires InOrder(s) && forall i :: 0 <= i < |s| ==> Before(e, s[i])
    ensures InOrder([e] + s)
  {
    hide Before;
  }

  /** Sorting a page whose versions come before its markers keeps its entries and puts each key's
      history together, newest first, versions before markers in a tie. */
  lemma {:induction false} SortedIsInOrder(s: seq<Entry>)
    requires forall i, j :: 0 <= i < j < |s| && s[i].marker ==> s[j].marker
    ensures InOrder(Sorted(s)) && multiset(Sorted(s)) == multiset(s)
  {
    if s != [] {
      assert s == [s[0]] + s[1..];
      SortedIsInOrder(s[1..]);
      forall i | 0 <= i < |Sorted(s[1..])| && s[0].marker ensures Sorted(s[1..])[i].marker {
        assert Sorted(s[1..])[i] in multiset(s[1..]);
      }
      InsertKeepsOrder(s[0], Sorted(s[1..]));
    }
  }

  // ---- the whole listing ----

  /** Each key's entries are together, and the first of two is ahead. */
  ghost predicate Arranged(s: seq<Entry>) {
    && (forall i, j :: 0 <= i < j < |s| && s[i].key == s[j].key ==> Ahead(s[i], s[j]))
    && (forall i, k, j :: 0 <= i < k < j < |s| && s[i].key == s[j].key ==> s[k].key == s[i].key)
  }

  lemma InOrderIsArranged(s: seq<Entry>)
    requires InOrder(s)
    ensures Arranged(s)
  {
    forall i, j | 0 <= i < j < |s| && s[i].key == s[j].key ensures Ahead(s[i], s[j]) {
      assert Before(s[i], s[j]);
      Irreflexive(s[i].key);
    }
    forall i, k, j | 0 <= i < k < j < |s| && s[i].key == s[j].key ensures s[k].key == s[i].key {
      assert Before(s[i], s[k]) && Before(s[k], s[j]);
      Trichotomy(s[i].key, s[k].key);
    }
  }

  function EntriesOf(p: Page): seq<Entry> {
    p.versions + p.markers
  }

  function All(pages: seq<Page>): seq<Entry> {
    if pages == [] then [] else EntriesOf(pages[0]) + All(pages[1..])
  }

  /** No key has entries on two pages. */
  ghost predicate NoCrossing(pages: seq<Page>) {
    forall i, j, e, f :: 0 <= i < j < |pages| && e in EntriesOf(pages[i]) && f in EntriesOf(pages[j]) ==> e.key != f.key
  }

  lemma {:induction false} InAll(pages: seq<Page>, e: Entry)
    ensures e in All(pages) <==> exists i :: 0 <= i < |pages| && e in EntriesOf(pages[i])
  {
    if pages != [] {
      var rest := pages[1..];
      InAll(rest, e);
      assert All(pages) == EntriesOf(pages[0]) + All(rest);
      hide All, EntriesOf;
      if e in All(rest) {
        var i :| 0 <= i < |rest| && e in EntriesOf(rest[i]);
        assert e in EntriesOf(pages[i + 1]);
      }
      if i :| 1 <= i < |pages| && e in EntriesOf(pages[i]) {
        assert e in EntriesOf(rest[i - 1]);
      }
    }
  }

  lemma KeysApart(s: seq<Entry>, t: seq<Entry>, i: nat, j: nat)
    requires forall e, f :: e in s && f in t ==> e.key != f.key
    requires i < |s| <= j < |s| + |t|
    ensures (s + t)[i].key != (s + t)[j].key
  {
    assert (s + t)[i] in s && (s + t)[j] in t;
  }

  lemma ArrangedTogether(s: seq<Entry>, t: seq<Entry>)
    requires Arranged(s) && Arranged(t) && forall e, f :: e in s && f in t ==> e.key != f.key
    ensures Arranged(s + t)
  {
    var u := s + t;
    forall i, j | 0 <= i < j < |u| && u[i].key == u[j].key
      ensures Ahead(u[i], u[j]) && forall k :: i < k < j ==> u[k].key == u[i].key
    {
      if i < |s| <= j {
        KeysApart(s, t, i, j);
      } else if i >= |s| {
        assert t[i - |s|].key == t[j - |s|].key;
      }
    }
  }

  /** If no key's history crosses a page, the listing has every entry and is arranged by key. */
  lemma {:induction false} ListingIsArranged(pages: seq<Page>)
    requires NoCrossing(pages) && forall i :: 0 <= i < |pages| ==> WellFormedPage(pages[i])
    ensures Arranged(Listing(pages)) && multiset(Listing(pages)) == multiset(All(pages))
  {
    if pages != [] {
      var rest := pages[1..];
      assert NoCrossing(rest) by {
        forall i, j, e, f | 0 <= i < j < |rest| && e in EntriesOf(rest[i]) && f in EntriesOf(rest[j])
          ensures e.key != f.key
        {
          assert e in EntriesOf(pages[i + 1]) && f in EntriesOf(pages[j + 1]);
        }
      }
      ListingIsArranged(rest);
      var page := EntriesOf(pages[0]);
      assert WellFormedPage(pages[0]);
      SortedIsInOrder(page);
      InOrderIsArranged(Sorted(page));
      forall e, f | e in Sorted(page) && f in Listing(rest) ensures e.key != f.key {
        assert e in multiset(page) && f in multiset(All(rest));
        InAll(rest, f);
        var i :| 0 <= i < |rest| && f in EntriesOf(rest[i]);
        assert e in EntriesOf(pages[0]) && f in EntriesOf(pages[i + 1]);
      }
      ArrangedTogether(Sorted(page), Listing(rest));
    }
  }

  // ---- the groups ----

  function Flat(gs: seq<Group>): seq<Entry> {
    if gs == [] then [] else Flat(gs[..|gs| - 1]) + gs[|gs| - 1].versions
  }

  /** `g` is the whole history of its key in `s`, headed by its newest entry. */
  ghost predicate IsHistory(g: Group, s: seq<Entry>) {
    && g.versions != []
    && (forall e :: e in g.versions ==> e.key == g.key && e in s && Ahead(g.versions[0], e))
    && (forall e :: e in s && e.key == g.key ==> e in g.versions)
  }

  /** The groups are the histories of different keys. */
  ghost predicate AreHistories(gs: seq<Group>, s: seq<Entry>) {
    && (forall i :: 0 <= i < |gs| ==> IsHistory(gs[i], s))
    && (forall i, j :: 0 <= i < j < |gs| ==> gs[i].key != gs[j].key)
  }

  lemma {:induction false} InFlat(gs: seq<Group>, e: Entry)
    ensures e in Flat(gs) <==> exists i :: 0 <= i < |gs| && e in gs[i].versions
  {
    if gs != [] {
      InFlat(gs[..|gs| - 1], e);
    }
  }

  lemma FlatNext(gs: seq<Group>, g: Group)
    ensures Flat(gs + [g]) == Flat(gs) + g.versions
  {
    assert (gs + [g])[..|gs|] == gs;
  }

  lemma GrowsHistory(g: Group, s: seq<Entry>, e: Entry)
    requires IsHistory(g, s) && Arranged(s + [e]) && g.key == e.key
    ensures IsHistory(Group(e.key, g.versions + [e]), s + [e])
  {
    assert g.versions[0] in g.versions;
    var i :| 0 <= i < |s| && s[i] == g.versions[0];
    assert (s + [e])[i].key == (s + [e])[|s|].key;
    assert Ahead(s[i], e);
  }

  lemma KeepsHistory(g: Group, s: seq<Entry>, e: Entry)
    requires IsHistory(g, s) && g.key != e.key
    ensures IsHistory(g, s + [e])
  {
  }

  /** A key that differs from that of the entry before is new to an arranged listing. */
  lemma NewKey(s: seq<Entry>, e: Entry)
    requires Arranged(s + [e]) && s != [] && s[|s| - 1].key != e.key
    ensures forall i :: 0 <= i < |s| ==> s[i].key != e.key
  {
    var u := s + [e];
    forall i | 0 <= i < |s| ensures s[i].key != e.key {
      assert u[i] == s[i] && u[|s| - 1] == s[|s| - 1] && u[|s|] == e;
    }
  }

  /** The last group is of the key that came last. */
  lemma LastKey(s: seq<Entry>)
    requires s != []
    ensures Groups(s) != [] && Groups(s)[|Groups(s)| - 1].key == s[|s| - 1].key
  {
  }

  lemma GroupedAreHistories(gs: seq<Group>, s: seq<Entry>, e: Entry)
    requires AreHistories(gs, s) && Arranged(s + [e])
    requires s == [] <==> gs == []
    requires s != [] ==> gs[|gs| - 1].key == s[|s| - 1].key
    ensures AreHistories(Grouped(gs, e), s + [e])
  {
    var grown := Grouped(gs, e);
    var n := |grown| - 1;
    if gs != [] && gs[|gs| - 1].key == e.key {
      GrowsHistory(gs[n], s, e);
    } else {
      if s != [] {
        NewKey(s, e);
      }
      forall i | 0 <= i < |gs| ensures gs[i].key != e.key {
        assert IsHistory(gs[i], s);
        assert gs[i].versions[0] in s;
      }
      assert IsHistory(grown[n], s + [e]);
    }
    hide Arranged;
    forall i | 0 <= i < n ensures grown[i] == gs[i] && IsHistory(grown[i], s + [e]) {
      assert IsHistory(gs[i], s) && gs[i].key != e.key;
      KeepsHistory(gs[i], s, e);
    }
    hide IsHistory;
  }

  lemma ArrangedPrefix(s: seq<Entry>, e: Entry)
    requires Arranged(s + [e])
    ensures Arranged(s)
  {
    assert forall i :: 0 <= i < |s| ==> (s + [e])[i] == s[i];
  }

  lemma GroupedFlat(gs: seq<Group>, e: Entry)
    ensures Flat(Grouped(gs, e)) == Flat(gs) + [e]
  {
    if gs != [] && gs[|gs| - 1].key == e.key {
      var init, last := gs[..|gs| - 1], gs[|gs| - 1];
      assert gs == init + [last];
      FlatNext(init, Group(e.key, last.versions + [e]));
    } else {
      FlatNext(gs, Group(e.key, [e]));
    }
  }

  lemma NoGroupsYet()
    ensures Groups([]) == []
  {
  }

  /** In an arranged listing each group is the whole history of one key. */
  lemma {:induction false} GroupsAreHistories(s: seq<Entry>)
    requires Arranged(s)
    ensures AreHistories(Groups(s), s) && Flat(Groups(s)) == s
  {
    if s == [] {
      assert Groups(s) == [] && Flat([]) == [];
    } else {
      hide Groups, Grouped, Flat, Arranged, AreHistories, IsHistory;
      var before, e := s[..|s| - 1], s[|s| - 1];
      assert s == before + [e];
      ArrangedPrefix(before, e);
      GroupsAreHistories(before);
      if before == [] {
        NoGroupsYet();
      } else {
        LastKey(before);
      }
      GroupsNext(before, e);
      GroupedAreHistories(Groups(before), before, e);
      GroupedFlat(Groups(before), e);
    }
  }

  // ---- what is reported of a deleted key ----

  /** The total counts every version once and no marker. */
  lemma {:induction false} TotalOfParts(before: seq<Entry>, e: Entry, rest: seq<Entry>)
    ensures TotalSize([], 0) == 0
    ensures TotalSize(before + [e] + rest, |before| + 1 + |rest|)
         == TotalSize(before, |before|) + (if e.marker then 0 else e.size) + TotalSize(rest, |rest|)
  {
    var all := before + [e] + rest;
    if rest == [] {
      assert all == before + [e];
      TotalOfPrefix(all, before, |before|);
    } else {
      var init, last := rest[..|rest| - 1], rest[|rest| - 1];
      TotalOfParts(before, e, init);
      TotalOfPrefix(all, before + [e] + init, |before| + 1 + |init|);
      TotalOfPrefix(rest, init, |init|);
      assert all[|all| - 1] == last;
    }
  }

  lemma {:induction false} TotalOfPrefix(s: seq<Entry>, t: seq<Entry>, n: nat)
    requires n <= |t| <= |s| && t == s[..|t|]
    ensures TotalSize(s, n) == TotalSize(t, n)
  {
    if n > 0 {
      TotalOfPrefix(s, t, n - 1);
    }
  }

  /** A group is reported exactly if its first entry is a marker that is not after the cutoff; with the
      time of this marker, all its entries and their number. */
  lemma AnalysisSays(key: string, history: seq<Entry>, cutoff: Option<Time>)
    ensures var r := Analysis(key, history, cutoff);
      && (r.Some? <==> history != [] && history[0].marker && (cutoff.None? || history[0].at <= cutoff.value))
      && (r.Some? ==>
            && r.value.key == key && r.value.deletedAt == history[0].at && r.value.versions == history
            && r.value.count == |history| && r.value.totalSize == TotalSize(history, |history|))
  {
  }

  // ---- the selection ----

  /** The newest entry of the key is a delete marker not after the cutoff; a version wins a tie. */
  ghost predicate Doomed(all: seq<Entry>, cutoff: Option<Time>, key: string) {
    exists m :: m in all && m.key == key && m.marker && (cutoff.Some? ==> m.at <= cutoff.value)
      && forall e :: e in all && e.key == key ==> e.at < m.at || (e.at == m.at && e.marker)
  }

  lemma HistoryIsDeletedIff(g: Group, s: seq<Entry>, cutoff: Option<Time>)
    requires IsHistory(g, s)
    ensures IsDeleted(g.versions, cutoff) <==> Doomed(s, cutoff, g.key)
  {
    var first := g.versions[0];
    assert first in g.versions;
    if Doomed(s, cutoff, g.key) {
      var m :| m in s && m.key == g.key && m.marker && (cutoff.Some? ==> m.at <= cutoff.value)
        && forall e :: e in s && e.key == m.key ==> e.at < m.at || (e.at == m.at && e.marker);
      assert m in g.versions;
    }
  }

  lemma NotElsewhere(before: seq<Group>, g: Group, s: seq<Entry>, e: Entry)
    requires AreHistories(before + [g], s)
    ensures e.key == g.key ==> multiset(Flat(before))[e] == 0
    ensures e.key != g.key ==> multiset(g.versions)[e] == 0
    ensures AreHistories(before, s) && IsHistory(g, s)
  {
    var gs := before + [g];
    assert gs[|before|] == g;
    assert forall i :: 0 <= i < |before| ==> gs[i] == before[i];
    assert multiset(g.versions)[e] > 0 ==> e in g.versions;
    assert multiset(Flat(before))[e] > 0 ==> e in Flat(before);
    InFlat(before, e);
  }

  lemma SelectedNext(before: seq<Group>, g: Group, cutoff: Option<Time>)
    ensures VersionsOf(Deleted(before + [g], cutoff))
         == VersionsOf(Deleted(before, cutoff)) + if IsDeleted(g.versions, cutoff) then g.versions else []
  {
    DeletedNext(before, g, cutoff);
    var objects := Deleted(before, cutoff);
    hide Deleted;
    if IsDeleted(g.versions, cutoff) {
      VersionsNext(objects, Analysis(g.key, g.versions, cutoff).value);
    } else {
      assert objects + [] == objects;
    }
  }

  lemma VersionsNext(objects: seq<DeletedObject>, o: DeletedObject)
    ensures VersionsOf(objects + [o]) == VersionsOf(objects) + o.versions
  {
    assert (objects + [o])[..|objects|] == objects;
  }

  lemma {:induction false} SelectedOnce(gs: seq<Group>, s: seq<Entry>, cutoff: Option<Time>, e: Entry)
    requires AreHistories(gs, s)
    ensures multiset(VersionsOf(Deleted(gs, cutoff)))[e]
         == if Doomed(s, cutoff, e.key) then multiset(Flat(gs))[e] else 0
  {
    if gs != [] {
      var before, g := gs[..|gs| - 1], gs[|gs| - 1];
      assert gs == before + [g];
      NotElsewhere(before, g, s, e);
      SelectedOnce(before, s, cutoff, e);
      HistoryIsDeletedIff(g, s, cutoff);
      SelectedNext(before, g, cutoff);
      FlatNext(before, g);
      hide Doomed, AreHistories, IsHistory, IsDeleted, Deleted, VersionsOf, Flat;
    }
  }

  /** Main result: if no key's history crosses a page, the versions selected for deletion are, entry
      by entry and each as often as it is listed, those of the keys whose newest entry is a delete
      marker not after the cutoff. */
  lemma SelectsDeletedKeys(pages: seq<Page>, cutoff: Option<Time>, e: Entry)
    requires NoCrossing(pages) && forall i :: 0 <= i < |pages| ==> WellFormedPage(pages[i])
    requires forall f :: f in All(pages) ==> f.key != ""
    ensures multiset(VersionsOf(Deleted(Analysed(Groups(Listing(pages))), cutoff)))[e]
         == if Doomed(All(pages), cutoff, e.key) then multiset(All(pages))[e] else 0
  {
    var s := Listing(pages);
    ListingIsArranged(pages);
    GroupsAreHistories(s);
    var gs := Groups(s);
    if s != [] {
      LastKey(s);
      assert s[|s| - 1] in multiset(All(pages));
    }
    hide Groups, Deleted, VersionsOf, Doomed, AreHistories, NoCrossing, All, Listing;
    SelectedOnce(gs, s, cutoff, e);
    SameDoom(s, All(pages), cutoff, e.key);
  }

  lemma SameDoom(s: seq<Entry>, t: seq<Entry>, cutoff: Option<Time>, key: string)
    requires multiset(s) == multiset(t)
    ensures Doomed(s, cutoff, key) <==> Doomed(t, cutoff, key)
  {
    forall e ensures e in s <==> e in t {
      assert e in s <==> e in multiset(s);
      assert e in t <==> e in multiset(t);
    }
  }

  // ---- the batches ----

  function Concat(bs: seq<seq<Entry>>): seq<Entry> {
    if bs == [] then [] else bs[0] + Concat(bs[1..])
  }

  lemma {:induction false} ConcatNext(bs: seq<seq<Entry>>, b: seq<Entry>)
    ensures Concat(bs + [b]) == Concat(bs) + b
  {
    if bs == [] {
      assert [b][1..] == [] && bs + [b] == [b];
    } else {
      ConcatNext(bs[1..], b);
      assert (bs + [b])[1..] == bs[1..] + [b];
    }
  }

  lemma {:induction false} FullBatchesAreFull(s: seq<Entry>)
    ensures forall i :: 0 <= i < |FullBatches(s)| ==> |FullBatches(s)[i]| == BATCH
    ensures Concat(FullBatches(s)) + Rest(s) == s
    decreases |s|
  {
    if |s| >= BATCH {
      FullBatchesAreFull(s[BATCH..]);
      var b, bs := s[..BATCH], FullBatches(s[BATCH..]);
      assert FullBatches(s) == [b] + bs && Rest(s) == Rest(s[BATCH..]);
      hide FullBatches, Rest;
      assert ([b] + bs)[1..] == bs;
      assert s == b + s[BATCH..];
      assert Concat([b] + bs) + Rest(s) == b + (Concat(bs) + Rest(s[BATCH..]));
    }
  }

  /** The batches hold the versions in order, none is empty, none is over the limit, and all but the
      last are full. */
  lemma BatchesPartition(s: seq<Entry>)
    ensures Concat(Batches(s)) == s
    ensures forall i :: 0 <= i < |Batches(s)| ==> 1 <= |Batches(s)[i]| <= 1000
    ensures forall i :: 0 <= i < |Batches(s)| - 1 ==> |Batches(s)[i]| == 1000
  {
    FullBatchesAreFull(s);
    ConcatNext(FullBatches(s), Rest(s));
    assert FullBatches(s) + [] == FullBatches(s);
  }

  // ---- the storage afterwards ----

  /** Key and version id identify an entry. */
  ghost predicate UniqueIds(stored: set<Entry>) {
    forall e, f :: e in stored && f in stored && e.key == f.key && e.versionId == f.versionId ==> e == f
  }

  /** Requests that name only stored entries remove those that did not fail. */
  lemma {:induction false} RequestsRemove(stored: set<Entry>, batches: seq<seq<Entry>>, failed: nat -> set<Entry>,
                                          n: nat)
    requires UniqueIds(stored) && n <= |batches|
    requires forall i, e :: 0 <= i < n && e in batches[i] ==> e in stored
    ensures var after := AfterRequests(stored, batches, failed, n);
      && after <= stored
      && (forall e :: e in stored && e !in after ==> exists i :: 0 <= i < n && e in batches[i])
      && (forall i, e :: 0 <= i < n && e in batches[i] && e in after ==> e in failed(i))
  {
    if n > 0 {
      RequestsRemove(stored, batches, failed, n - 1);
      var before := AfterRequests(stored, batches, failed, n - 1);
      var after := AfterRequests(stored, batches, failed, n);
      var batch := batches[n - 1];
      var named := Named(before, batch);
      forall e | e in named ensures e in batch {
        var i :| 0 <= i < |batch| && batch[i].key == e.key && batch[i].versionId == e.versionId;
        assert batch[i] in stored;
      }
      forall e | e in batch && e in before ensures e in named {
        var i :| 0 <= i < |batch| && batch[i] == e;
      }
    }
  }

  lemma {:induction false} InConcat(bs: seq<seq<Entry>>, e: Entry)
    ensures e in Concat(bs) <==> exists i :: 0 <= i < |bs| && e in bs[i]
  {
    if bs != [] {
      InConcat(bs[1..], e);
      assert e in Concat(bs) <==> e in bs[0] || e in Concat(bs[1..]);
      if e in Concat(bs[1..]) {
        var i :| 0 <= i < |bs| - 1 && e in bs[1..][i];
        assert e in bs[i + 1];
      }
      if i :| 1 <= i < |bs| && e in bs[i] {
        assert e in bs[1..][i - 1];
      }
    }
  }

  /** What one run of the cleaner leaves in the storage. */
  ghost function AfterCleaning(pages: seq<Page>, cutoff: Option<Time>, stored: set<Entry>,
                               failed: nat -> set<Entry>): set<Entry> {
    var batches := Batches(VersionsOf(Deleted(Analysed(Groups(Listing(pages))), cutoff)));
    AfterRequests(stored, batches, failed, |batches|)
  }

  /** Main result: if no key's history crosses a page, every key that is not doomed keeps its whole
      history, and of the doomed keys nothing stays but what a request failed to delete. */
  lemma {:induction false} CleaningRemovesDeletedKeys(pages: seq<Page>, cutoff: Option<Time>, stored: set<Entry>,
                                                      failed: nat -> set<Entry>, e: Entry)
    requires NoCrossing(pages) && forall i :: 0 <= i < |pages| ==> WellFormedPage(pages[i])
    requires forall f :: f in All(pages) ==> f.key != ""
    requires stored == (set f | f in All(pages)) && UniqueIds(stored) && e in stored
    ensures !Doomed(All(pages), cutoff, e.key) ==> e in AfterCleaning(pages, cutoff, stored, failed)
    ensures Doomed(All(pages), cutoff, e.key) && e in AfterCleaning(pages, cutoff, stored, failed) ==>
      exists i :: e in failed(i)
  {
    var versions := VersionsOf(Deleted(Analysed(Groups(Listing(pages))), cutoff));
    forall f ensures f in versions <==> f in stored && Doomed(All(pages), cutoff, f.key) {
      SelectedIff(pages, cutoff, f);
    }
    hide Doomed, NoCrossing, Batches, Deleted, UniqueIds, Groups, Listing;
    RemovesExactly(versions, stored, failed, e);
  }

  lemma RemovesExactly(versions: seq<Entry>, stored: set<Entry>, failed: nat -> set<Entry>, e: Entry)
    requires UniqueIds(stored) && e in stored && forall f :: f in versions ==> f in stored
    ensures var bs := Batches(versions);
      && (e !in versions ==> e in AfterRequests(stored, bs, failed, |bs|))
      && (e in versions && e in AfterRequests(stored, bs, failed, |bs|) ==> exists i :: e in failed(i))
  {
    var bs := Batches(versions);
    BatchesPartition(versions);
    forall i, f | 0 <= i < |bs| && f in bs[i] ensures f in stored {
      InConcat(bs, f);
    }
    RequestsRemove(stored, bs, failed, |bs|);
    InConcat(bs, e);
    hide UniqueIds, Batches, AfterRequests;
  }

  lemma SelectedIff(pages: seq<Page>, cutoff: Option<Time>, e: Entry)
    requires NoCrossing(pages) && forall i :: 0 <= i < |pages| ==> WellFormedPage(pages[i])
    requires forall f :: f in All(pages) ==> f.key != ""
    ensures e in VersionsOf(Deleted(Analysed(Groups(Listing(pages))), cutoff))
       <==> e in All(pages) && Doomed(All(pages), cutoff, e.key)
  {
    SelectsDeletedKeys(pages, cutoff, e);
    var versions := VersionsOf(Deleted(Analysed(Groups(Listing(pages))), cutoff));
    assert e in versions <==> e in multiset(versions);
    assert e in All(pages) <==> e in multiset(All(pages));
  }

  // ---- a history on two pages ----

  lemma SortTwo(a: Entry, b: Entry)
    ensures Sorted([a, b]) == if SortsBefore(b, a) then [b, a] else [a, b]
  {
    assert [a, b][1..] == [b] && [b][1..] == [];
    assert Sorted([b]) == Insert(b, []) == [b];
    assert Insert(a, []) == [a];
    assert Sorted([a, b]) == Insert(a, [b]);
  }

  lemma GroupsOfFour(a: Entry, b: Entry, c: Entry, d: Entry)
    requires a.key == b.key && b.key != c.key && c.key != d.key
    ensures Groups([a, b, c, d]) == [Group(a.key, [a, b]), Group(c.key, [c]), Group(d.key, [d])]
  {
    assert Groups([]) == [];
    hide Groups;
    assert Groups([a]) == [Group(a.key, [a])] by {
      assert [] + [a] == [a];
      GroupsNext([], a);
    }
    assert Groups([a, b]) == [Group(a.key, [a, b])] by {
      assert [a] + [b] == [a, b];
      GroupsNext([a], b);
    }
    assert Groups([a, b, c]) == [Group(a.key, [a, b]), Group(c.key, [c])] by {
      assert [a, b] + [c] == [a, b, c];
      GroupsNext([a, b], c);
    }
    assert [a, b, c] + [d] == [a, b, c, d];
    GroupsNext([a, b, c], d);
  }

  lemma OnlyFirstDeleted(g: Group, h: Group, k: Group)
    requires IsDeleted(g.versions, None) && !IsDeleted(h.versions, None) && !IsDeleted(k.versions, None)
    ensures VersionsOf(Deleted([g, h, k], None)) == g.versions
  {
    SelectedNext([], g, None);
    SelectedNext([g], h, None);
    SelectedNext([g, h], k, None);
    assert [] + [g] == [g] && [g] + [h] == [g, h] && [g, h] + [k] == [g, h, k];
    assert VersionsOf(Deleted([], None)) == [];
    hide Deleted, VersionsOf;
  }

  lemma TwoPages(p: Page, q: Page)
    ensures All([p, q]) == EntriesOf(p) + EntriesOf(q)
    ensures Listing([p, q]) == Sorted(EntriesOf(p)) + Sorted(EntriesOf(q))
  {
    assert [p, q][1..] == [q] && [q][1..] == [];
    assert All([q]) == EntriesOf(q) && Listing([q]) == Sorted(EntriesOf(q));
  }

  const K3 := Entry("k", "3", 3, true, 0)
  const K2 := Entry("k", "2", 2, false, 5)
  const K1 := Entry("k", "1", 1, false, 5)
  const L1 := Entry("l", "1", 1, false, 5)

  function SplitPages(): seq<Page> {
    [Page([K2], [K3]), Page([K1, L1], [])]
  }

  lemma SplitAll()
    ensures All(SplitPages()) == [K2, K3, K1, L1] && Doomed(All(SplitPages()), None, "k")
  {
    TwoPages(SplitPages()[0], SplitPages()[1]);
    assert K3 in [K2, K3, K1, L1];
  }

  lemma SplitSelection()
    ensures VersionsOf(Deleted(Analysed(Groups(Listing(SplitPages()))), None)) == [K3, K2]
  {
    var p, q := SplitPages()[0], SplitPages()[1];
    TwoPages(p, q);
    assert EntriesOf(p) == [K2, K3] && EntriesOf(q) == [K1, L1];
    SortTwo(K2, K3);
    SortTwo(K1, L1);
    assert Greater("l", "k") && !Greater("k", "k");
    assert Listing(SplitPages()) == [K3, K2, L1, K1];
    GroupsOfFour(K3, K2, L1, K1);
    OnlyFirstDeleted(Group("k", [K3, K2]), Group("l", [L1]), Group("k", [K1]));
    hide Listing, Sorted, Groups, Deleted, VersionsOf, All, Greater, SplitPages;
  }

  /** A key whose history is split over two pages: the newest part is removed, with the delete
      marker, and the old version that stays is then the newest entry of its key. */
  lemma SplitHistoryResurrects(failed: nat -> set<Entry>)
    requires failed(0) == {}
    ensures All(SplitPages()) == [K2, K3, K1, L1] && Doomed(All(SplitPages()), None, "k")
    ensures AfterCleaning(SplitPages(), None, {K2, K3, K1, L1}, failed) == {K1, L1}
  {
    SplitAll();
    SplitSelection();
    hide Listing, Sorted, Groups, Deleted, VersionsOf, All, Doomed, SplitPages;
    assert Batches([K3, K2]) == [[K3, K2]];
    assert [K3, K2][0] == K3 && [K3, K2][1] == K2;
    var stored := {K2, K3, K1, L1};
    assert Named(stored, [K3, K2]) == {K2, K3};
    assert AfterRequests(stored, [[K3, K2]], failed, 0) == stored;
  }
}
