/** Exactly when the cleaner's selection is right, for listings in which histories cross pages. */
module CleanerPages {
  import opened Prelude
  import opened Strings
  import opened StorageCleaner
  import opened CleanerProofs

  // ---- the stream and its groups, for any pages ----

  lemma {:induction false} InsertKeepsEntries(e: Entry, s: seq<Entry>)
    ensures multiset(Insert(e, s)) == multiset{e} + multiset(s)
  {
    if s != [] && SortsBefore(s[0], e) {
      assert s == [s[0]] + s[1..];
      InsertKeepsEntries(e, s[1..]);
    }
  }

  lemma {:induction false} SortedKeepsEntries(s: seq<Entry>)
    ensures multiset(Sorted(s)) == multiset(s)
  {
    if s != [] {
      assert s == [s[0]] + s[1..];
      SortedKeepsEntries(s[1..]);
      InsertKeepsEntries(s[0], Sorted(s[1..]));
    }
  }

  lemma {:induction false} ListingKeepsEntries(pages: seq<Page>)
    ensures multiset(Listing(pages)) == multiset(All(pages))
  {
    if pages != [] {
      SortedKeepsEntries(EntriesOf(pages[0]));
      ListingKeepsEntries(pages[1..]);
    }
  }

  ghost predicate Keyed(g: Group) {
    g.versions != [] && forall e :: e in g.versions ==> e.key == g.key
  }

  ghost predicate AllKeyed(gs: seq<Group>) {
    forall g :: g in gs ==> Keyed(g)
  }

  lemma GroupedIsKeyed(gs: seq<Group>, e: Entry)
    requires AllKeyed(gs)
    ensures AllKeyed(Grouped(gs, e))
  {
    forall g | g in Grouped(gs, e) ensures Keyed(g) {
      if gs != [] {
        assert gs[|gs| - 1] in gs;
      }
    }
  }

  lemma {:induction false} GroupsAreKeyed(s: seq<Entry>)
    ensures Flat(Groups(s)) == s && AllKeyed(Groups(s))
  {
    if s != [] {
      var before, e := s[..|s| - 1], s[|s| - 1];
      assert s == before + [e];
      GroupsAreKeyed(before);
      hide Groups, Flat, AllKeyed, Grouped;
      GroupsNext(before, e);
      GroupedFlat(Groups(before), e);
      GroupedIsKeyed(Groups(before), e);
    }
  }

  // ---- which entries are selected ----

  function Selected(gs: seq<Group>, cutoff: Option<Time>): multiset<Entry> {
    multiset(VersionsOf(Deleted(gs, cutoff)))
  }

  ghost predicate JudgedRight(g: Group, all: seq<Entry>, cutoff: Option<Time>) {
    Keyed(g) && (IsDeleted(g.versions, cutoff) <==> Doomed(all, cutoff, g.key))
  }

  lemma OnlyOwnKey(g: Group, e: Entry)
    requires Keyed(g) && e.key != g.key
    ensures multiset(g.versions)[e] == 0
  {
    assert multiset(g.versions)[e] > 0 ==> e in g.versions;
  }

  /** Every entry is selected as often as it is in groups of doomed keys. */
  lemma {:induction false} SelectedOfRightGroups(gs: seq<Group>, all: seq<Entry>, cutoff: Option<Time>, e: Entry)
    requires forall g :: g in gs ==> JudgedRight(g, all, cutoff)
    ensures Selected(gs, cutoff)[e] == if Doomed(all, cutoff, e.key) then multiset(Flat(gs))[e] else 0
  {
    if gs != [] {
      var before, g := gs[..|gs| - 1], gs[|gs| - 1];
      assert gs == before + [g] && g in gs;
      assert JudgedRight(g, all, cutoff);
      hide Doomed, IsDeleted, Keyed, Deleted, VersionsOf, Flat;
      SelectedOfRightGroups(before, all, cutoff, e);
      if e.key != g.key {
        OnlyOwnKey(g, e);
      }
      hide Selected, JudgedRight;
      SelectedSum(before, g, cutoff, e);
    }
  }

  lemma SelectedSum(before: seq<Group>, g: Group, cutoff: Option<Time>, e: Entry)
    ensures Selected(before + [g], cutoff)[e]
         == Selected(before, cutoff)[e] + if IsDeleted(g.versions, cutoff) then multiset(g.versions)[e] else 0
    ensures multiset(Flat(before + [g]))[e] == multiset(Flat(before))[e] + multiset(g.versions)[e]
  {
    SelectedNext(before, g, cutoff);
    FlatNext(before, g);
    hide IsDeleted, Deleted, VersionsOf, Flat;
  }

  /** A group is selected whole or not at all. */
  lemma {:induction false} GroupCounts(gs: seq<Group>, cutoff: Option<Time>, i: nat, e: Entry)
    requires i < |gs|
    ensures Selected(gs, cutoff)[e] <= multiset(Flat(gs))[e]
    ensures IsDeleted(gs[i].versions, cutoff) ==> Selected(gs, cutoff)[e] >= multiset(gs[i].versions)[e]
    ensures !IsDeleted(gs[i].versions, cutoff) ==>
      Selected(gs, cutoff)[e] + multiset(gs[i].versions)[e] <= multiset(Flat(gs))[e]
  {
    var before, g := gs[..|gs| - 1], gs[|gs| - 1];
    assert gs == before + [g];
    SelectedNext(before, g, cutoff);
    FlatNext(before, g);
    if i < |before| {
      GroupCounts(before, cutoff, i, e);
    } else {
      AtMostAll(before, cutoff, e);
    }
    hide IsDeleted, Deleted, VersionsOf, Flat;
  }

  lemma {:induction false} AtMostAll(gs: seq<Group>, cutoff: Option<Time>, e: Entry)
    ensures Selected(gs, cutoff)[e] <= multiset(Flat(gs))[e]
  {
    if gs != [] {
      var before, g := gs[..|gs| - 1], gs[|gs| - 1];
      assert gs == before + [g];
      AtMostAll(before, cutoff, e);
      SelectedNext(before, g, cutoff);
      FlatNext(before, g);
      hide IsDeleted, Deleted, VersionsOf, Flat;
    }
  }

  /** The versions that one run sends in its requests. */
  function ToDelete(pages: seq<Page>, cutoff: Option<Time>): multiset<Entry> {
    Selected(Analysed(Groups(Listing(pages))), cutoff)
  }

  /** The object storage has no empty keys. */
  ghost predicate NoEmptyKey(pages: seq<Page>) {
    forall e :: e in All(pages) ==> e.key != ""
  }

  /** So every group is analysed, the last one included. */
  lemma AllGroupsAreAnalysed(pages: seq<Page>)
    requires NoEmptyKey(pages)
    ensures Analysed(Groups(Listing(pages))) == Groups(Listing(pages))
  {
    var s := Listing(pages);
    ListingKeepsEntries(pages);
    if s != [] {
      LastKey(s);
      assert s[|s| - 1] in multiset(s);
    }
  }

  /** Of every key in the listing, all entries are selected if it is doomed, and none otherwise. */
  ghost predicate Exact(pages: seq<Page>, cutoff: Option<Time>) {
    forall e :: ToDelete(pages, cutoff)[e]
             == if Doomed(All(pages), cutoff, e.key) then multiset(All(pages))[e] else 0
  }

  /** Every group of the stream is judged as the whole history of its key would be. */
  ghost predicate GroupsJudgeRight(pages: seq<Page>, cutoff: Option<Time>) {
    forall g :: g in Groups(Listing(pages)) ==> (IsDeleted(g.versions, cutoff) <==> Doomed(All(pages), cutoff, g.key))
  }

  /** For any listing, whatever crosses its pages: the selection is exact if and only if every group,
      a maximal run of one key in the stream, is judged as the whole history of its key would be. */
  lemma SelectionIsExactIff(pages: seq<Page>, cutoff: Option<Time>)
    requires NoEmptyKey(pages)
    ensures Exact(pages, cutoff) <==> GroupsJudgeRight(pages, cutoff)
  {
    var gs := Groups(Listing(pages));
    ListingKeepsEntries(pages);
    GroupsAreKeyed(Listing(pages));
    AllGroupsAreAnalysed(pages);
    hide Listing, Groups, Doomed, IsDeleted, Flat, All, Selected, Analysed, NoEmptyKey, AllKeyed;
    assert ToDelete(pages, cutoff) == Selected(gs, cutoff);
    if GroupsJudgeRight(pages, cutoff) {
      forall e
        ensures Selected(gs, cutoff)[e] == if Doomed(All(pages), cutoff, e.key) then multiset(All(pages))[e] else 0
      {
        RightIsExact(gs, All(pages), cutoff, e);
      }
    }
    if Exact(pages, cutoff) {
      forall g | g in gs ensures IsDeleted(g.versions, cutoff) <==> Doomed(All(pages), cutoff, g.key) {
        ExactIsRight(gs, All(pages), cutoff, g);
      }
    }
  }

  lemma RightIsExact(gs: seq<Group>, all: seq<Entry>, cutoff: Option<Time>, e: Entry)
    requires AllKeyed(gs) && multiset(Flat(gs)) == multiset(all)
    requires forall g :: g in gs ==> (IsDeleted(g.versions, cutoff) <==> Doomed(all, cutoff, g.key))
    ensures Selected(gs, cutoff)[e] == if Doomed(all, cutoff, e.key) then multiset(all)[e] else 0
  {
    hide Doomed, IsDeleted, Keyed, Flat, Selected;
    SelectedOfRightGroups(gs, all, cutoff, e);
  }

  lemma ExactIsRight(gs: seq<Group>, all: seq<Entry>, cutoff: Option<Time>, g: Group)
    requires AllKeyed(gs) && multiset(Flat(gs)) == multiset(all) && g in gs
    requires forall e :: Selected(gs, cutoff)[e] == if Doomed(all, cutoff, e.key) then multiset(all)[e] else 0
    ensures IsDeleted(g.versions, cutoff) <==> Doomed(all, cutoff, g.key)
  {
    var i :| 0 <= i < |gs| && gs[i] == g;
    assert Keyed(g);
    var e := g.versions[0];
    assert e in g.versions;
    hide Doomed, IsDeleted, Keyed, Flat, Selected;
    WrongGroupShows(gs, cutoff, i);
  }

  /** The first entry of a group shows how the group was judged. */
  lemma WrongGroupShows(gs: seq<Group>, cutoff: Option<Time>, i: nat)
    requires i < |gs| && Keyed(gs[i])
    ensures var e := gs[i].versions[0];
      && (IsDeleted(gs[i].versions, cutoff) ==> Selected(gs, cutoff)[e] > 0)
      && (!IsDeleted(gs[i].versions, cutoff) ==> Selected(gs, cutoff)[e] < multiset(Flat(gs))[e])
  {
    var e := gs[i].versions[0];
    assert multiset(gs[i].versions)[e] > 0 by { assert e in gs[i].versions; }
    GroupCounts(gs, cutoff, i, e);
  }

  // ---- page by page ----

  /** No page begins, once sorted, with the key with which the pages before it end. */
  ghost predicate NeverJoined(pages: seq<Page>) {
    pages != [] ==>
      && NeverJoined(pages[1..])
      && var s, t := Sorted(EntriesOf(pages[0])), Listing(pages[1..]);
         (s != [] && t != [] ==> s[|s| - 1].key != t[0].key)
  }

  lemma GroupedApart(gs: seq<Group>, hs: seq<Group>, e: Entry)
    requires hs == [] && gs != [] ==> gs[|gs| - 1].key != e.key
    ensures Grouped(gs + hs, e) == gs + Grouped(hs, e)
  {
    if hs == [] {
      assert gs + hs == gs;
    } else {
      assert (gs + hs)[|gs + hs| - 1] == hs[|hs| - 1];
      assert (gs + hs)[..|gs + hs| - 1] == gs + hs[..|hs| - 1];
    }
  }

  lemma NoGroups(s: seq<Entry>)
    ensures Groups(s) == [] <==> s == []
  {
    if s != [] {
      LastKey(s);
    }
  }

  lemma {:induction false} GroupsApart(s: seq<Entry>, t: seq<Entry>)
    requires s != [] && t != [] ==> s[|s| - 1].key != t[0].key
    ensures Groups(s + t) == Groups(s) + Groups(t)
    decreases |t|
  {
    NoGroups(s);
    NoGroups([]);
    if t == [] {
      assert s + t == s;
    } else {
      var init, e := t[..|t| - 1], t[|t| - 1];
      assert t == init + [e] && s + t == (s + init) + [e];
      GroupsApart(s, init);
      GroupsNext(s + init, e);
      GroupsNext(init, e);
      NoGroups(init);
      if s != [] {
        LastKey(s);
      }
      hide Groups;
      GroupedApart(Groups(s), Groups(init), e);
    }
  }

  lemma PageJudges(p: Page, cutoff: Option<Time>, g: Group)
    requires WellFormedPage(p) && g in Groups(Sorted(EntriesOf(p)))
    ensures IsDeleted(g.versions, cutoff) <==> Doomed(EntriesOf(p), cutoff, g.key)
    ensures exists e :: e in EntriesOf(p) && e.key == g.key
  {
    var s := Sorted(EntriesOf(p));
    SortedIsInOrder(EntriesOf(p));
    InOrderIsArranged(s);
    GroupsAreHistories(s);
    var i :| 0 <= i < |Groups(s)| && Groups(s)[i] == g;
    hide Groups, Arranged, InOrder, Sorted;
    assert IsHistory(g, s);
    HistoryIsDeletedIff(g, s, cutoff);
    SameDoom(s, EntriesOf(p), cutoff, g.key);
    var e := g.versions[0];
    assert e in g.versions && e in multiset(s) && e in multiset(EntriesOf(p));
  }

  lemma PageHasGroup(p: Page, e: Entry)
    requires WellFormedPage(p) && e in EntriesOf(p)
    ensures exists g :: g in Groups(Sorted(EntriesOf(p))) && g.key == e.key
  {
    var s := Sorted(EntriesOf(p));
    SortedIsInOrder(EntriesOf(p));
    InOrderIsArranged(s);
    GroupsAreHistories(s);
    assert e in multiset(EntriesOf(p)) && e in s;
    InFlat(Groups(s), e);
    var i :| 0 <= i < |Groups(s)| && e in Groups(s)[i].versions;
    assert IsHistory(Groups(s)[i], s) && Groups(s)[i] in Groups(s);
  }

  lemma {:induction false} GroupsOfPages(pages: seq<Page>, g: Group)
    requires NeverJoined(pages)
    ensures g in Groups(Listing(pages)) <==> exists i :: 0 <= i < |pages| && g in Groups(Sorted(EntriesOf(pages[i])))
  {
    if pages != [] {
      var rest := pages[1..];
      var first := Groups(Sorted(EntriesOf(pages[0])));
      GroupsOfPages(rest, g);
      GroupsApart(Sorted(EntriesOf(pages[0])), Listing(rest));
      assert Groups(Listing(pages)) == first + Groups(Listing(rest));
      hide Groups, Sorted, Listing, EntriesOf;
      if g in Groups(Listing(rest)) {
        var i :| 0 <= i < |rest| && g in Groups(Sorted(EntriesOf(rest[i])));
        assert g in Groups(Sorted(EntriesOf(pages[i + 1])));
      }
      if i :| 1 <= i < |pages| && g in Groups(Sorted(EntriesOf(pages[i]))) {
        assert g in Groups(Sorted(EntriesOf(rest[i - 1])));
      }
    }
  }

  /** On every page, a key is judged by its newest entry there as by its newest entry overall. */
  ghost predicate PagesJudgeRight(pages: seq<Page>, cutoff: Option<Time>) {
    forall p, e :: p in pages && e in EntriesOf(p) ==>
      (Doomed(EntriesOf(p), cutoff, e.key) <==> Doomed(All(pages), cutoff, e.key))
  }

  /** Unless one key alone fills the border of two pages, the selection is exact if and only if, on
      every page, the newest entry of a key there decides as its newest entry overall does. */
  lemma SelectionIsExactByPagesIff(pages: seq<Page>, cutoff: Option<Time>)
    requires NoEmptyKey(pages) && NeverJoined(pages) && forall p :: p in pages ==> WellFormedPage(p)
    ensures Exact(pages, cutoff) <==> PagesJudgeRight(pages, cutoff)
  {
    SelectionIsExactIff(pages, cutoff);
    hide Exact, Groups, Sorted, Listing, EntriesOf, All, Doomed, IsDeleted, NeverJoined, WellFormedPage, NoEmptyKey;
    if PagesJudgeRight(pages, cutoff) {
      forall g | g in Groups(Listing(pages))
        ensures IsDeleted(g.versions, cutoff) <==> Doomed(All(pages), cutoff, g.key)
      {
        GroupsOfPages(pages, g);
        var i :| 0 <= i < |pages| && g in Groups(Sorted(EntriesOf(pages[i])));
        assert pages[i] in pages;
        PageJudges(pages[i], cutoff, g);
      }
    }
    if GroupsJudgeRight(pages, cutoff) {
      forall p, e | p in pages && e in EntriesOf(p)
        ensures Doomed(EntriesOf(p), cutoff, e.key) <==> Doomed(All(pages), cutoff, e.key)
      {
        PageHasGroup(p, e);
        var g :| g in Groups(Sorted(EntriesOf(p))) && g.key == e.key;
        var i :| 0 <= i < |pages| && pages[i] == p;
        GroupsOfPages(pages, g);
        PageJudges(p, cutoff, g);
      }
    }
  }

  /** If no key crosses a page, no pages are joined and every page judges right. */
  lemma {:induction false} NoCrossingNeverJoins(pages: seq<Page>)
    requires NoCrossing(pages)
    ensures NeverJoined(pages)
  {
    if pages != [] {
      var rest := pages[1..];
      forall i, j, e, f | 0 <= i < j < |rest| && e in EntriesOf(rest[i]) && f in EntriesOf(rest[j])
        ensures e.key != f.key
      {
        assert e in EntriesOf(pages[i + 1]) && f in EntriesOf(pages[j + 1]);
      }
      NoCrossingNeverJoins(rest);
      var s, t := Sorted(EntriesOf(pages[0])), Listing(rest);
      SortedKeepsEntries(EntriesOf(pages[0]));
      ListingKeepsEntries(rest);
      if s != [] && t != [] {
        var e, f := s[|s| - 1], t[0];
        assert e in multiset(s) && f in multiset(t);
        assert f in All(rest) by { assert f in multiset(All(rest)); }
        InAll(rest, f);
        var i :| 0 <= i < |rest| && f in EntriesOf(rest[i]);
        assert e in EntriesOf(pages[0]) by { assert e in multiset(EntriesOf(pages[0])); }
        assert f in EntriesOf(pages[i + 1]);
      }
    }
  }

  // ---- what happens to one entry ----

  lemma {:induction false} WholeCount(gs: seq<Group>, s: seq<Entry>, i: nat, e: Entry)
    requires AreHistories(gs, s) && i < |gs| && gs[i].key == e.key
    ensures multiset(gs[i].versions)[e] == multiset(Flat(gs))[e]
  {
    var before, g := gs[..|gs| - 1], gs[|gs| - 1];
    assert gs == before + [g];
    NotElsewhere(before, g, s, e);
    FlatNext(before, g);
    if i < |before| {
      assert gs[i].key != g.key;
      WholeCount(before, s, i, e);
    }
    hide IsHistory, Flat;
  }

  /** The group of a page that has all its entries of one key. */
  lemma PageGroup(p: Page, e: Entry) returns (g: Group)
    requires WellFormedPage(p) && e in EntriesOf(p)
    ensures g in Groups(Sorted(EntriesOf(p))) && g.key == e.key
    ensures multiset(g.versions)[e] == multiset(EntriesOf(p))[e]
  {
    var s := Sorted(EntriesOf(p));
    SortedIsInOrder(EntriesOf(p));
    InOrderIsArranged(s);
    GroupsAreHistories(s);
    PageHasGroup(p, e);
    g :| g in Groups(s) && g.key == e.key;
    var i :| 0 <= i < |Groups(s)| && Groups(s)[i] == g;
    WholeCount(Groups(s), s, i, e);
  }

  /** Unless pages are joined, an entry that is listed once is deleted exactly if the newest entry of
      its key on its own page is a delete marker not after the cutoff.  So a doomed key keeps what is
      on its older pages, and a live key loses what is on a page that begins with an old marker. */
  lemma EntryIsJudgedByItsPage(pages: seq<Page>, cutoff: Option<Time>, p: Page, e: Entry)
    requires NoEmptyKey(pages) && NeverJoined(pages) && forall p :: p in pages ==> WellFormedPage(p)
    requires p in pages && e in EntriesOf(p) && multiset(All(pages))[e] == 1
    ensures ToDelete(pages, cutoff)[e] == if Doomed(EntriesOf(p), cutoff, e.key) then 1 else 0
  {
    var gs := Groups(Listing(pages));
    var g := PageGroup(p, e);
    assert multiset(EntriesOf(p))[e] >= 1;
    AllGroupsAreAnalysed(pages);
    hide Groups, Listing, Sorted, Doomed, IsDeleted, Flat, EntriesOf, All, Selected, NeverJoined, WellFormedPage,
      Analysed;
    PageJudges(p, cutoff, g);
    GroupsOfPages(pages, g);
    var n :| 0 <= n < |pages| && pages[n] == p;
    assert g in gs;
    var i :| 0 <= i < |gs| && gs[i] == g;
    GroupCounts(gs, cutoff, i, e);
    GroupsAreKeyed(Listing(pages));
    ListingKeepsEntries(pages);
  }

  const K4 := Entry("k", "4", 4, false, 5)

  /** The newest entry of `k` is a version, but its older page begins with a delete marker. */
  function LivePages(): seq<Page> {
    [Page([K4], []), Page([K1, L1], [K3])]
  }

  lemma LivePagesAreApart()
    ensures All(LivePages()) == [K4, K1, L1, K3] && NeverJoined(LivePages())
    ensures EntriesOf(LivePages()[1]) == [K1, L1, K3]
    ensures NoEmptyKey(LivePages()) && forall p :: p in LivePages() ==> WellFormedPage(p)
  {
    var p, q := LivePages()[0], LivePages()[1];
    TwoPages(p, q);
    assert [p, q][1..] == [q] && [q][1..] == [];
    assert EntriesOf(p) == [K4] && EntriesOf(q) == [K1, L1, K3];
    assert Greater("l", "k") && !Greater("k", "l") && !Greater("k", "k");
    SortTwo(L1, K3);
    assert [K1, L1, K3][1..] == [L1, K3] && [K4][1..] == [];
    assert Sorted([K4]) == Insert(K4, []) == [K4];
    assert Sorted([K1, L1, K3]) == Insert(K1, [L1, K3]);
    assert Insert(K1, [L1, K3])[0] == L1;
    assert Listing([q]) == Sorted(EntriesOf(q)) && Listing([]) == [];
    hide Insert, Sorted, Greater;
    assert NeverJoined([]) && NeverJoined([q]);
  }

  lemma LiveKeyIsLive(cutoff: Option<Time>)
    requires cutoff.Some? ==> cutoff.value >= 3
    ensures !Doomed([K4, K1, L1, K3], cutoff, "k") && Doomed([K1, L1, K3], cutoff, "k")
    ensures multiset([K4, K1, L1, K3])[K1] == 1 && K1 in [K1, L1, K3] && K1 in [K4, K1, L1, K3]
  {
    var all, older := [K4, K1, L1, K3], [K1, L1, K3];
    assert all[0] in all && older[2] in older && older[0] in older && all[1] in all;
    forall e | e in older && e.key == "k" ensures e.at < K3.at || (e.at == K3.at && e.marker) {
    }
  }

  /** A live key that loses a version: it is on a page whose newest entry of the key is a marker. */
  lemma LiveKeyLosesHistory(cutoff: Option<Time>)
    requires cutoff.Some? ==> cutoff.value >= 3
    ensures !Doomed(All(LivePages()), cutoff, "k") && K1 in All(LivePages())
    ensures ToDelete(LivePages(), cutoff)[K1] == 1
  {
    LivePagesAreApart();
    LiveKeyIsLive(cutoff);
    assert LivePages()[1] in LivePages() && K1.key == "k";
    hide ToDelete, EntriesOf, All, NeverJoined, NoEmptyKey, Doomed, WellFormedPage, LivePages, K1, K3, K4, L1;
    EntryIsJudgedByItsPage(LivePages(), cutoff, LivePages()[1], K1);
  }
}
