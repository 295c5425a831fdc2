/** The filtered view of the list that the page renders, derived from the active tab
    (`updateFilteredList` in app.js). */
module Views {
  import opened Records
  import opened Filtering

  /** The keys of the three tabs; the first one is the tab selected at startup. */
  const AllTab: string := "all"
  const ActiveTab: string := "active"
  const InactiveTab: string := "inactive"

  predicate KnownTab(tab: string)
  {
    tab == AllTab || tab == ActiveTab || tab == InactiveTab
  }

  /** The filter callback of the "active" (`want` true) and "inactive" (`want` false) tabs. */
  function FlagIs(store: Store, want: bool): Ref -> bool
  {
    (r: Ref) => r < |store| && store[r].isActive == want
  }

  /** Whether record `r` belongs to the view of the known tab `tab`. */
  predicate Shows(store: Store, tab: string, r: Ref)
  {
    && r < |store|
    && (|| tab == AllTab
        || (tab == ActiveTab && store[r].isActive)
        || (tab == InactiveTab && !store[r].isActive))
  }

  /** The view after the tab or the list changed. The if/else chain has no final branch, so
      a tab that is none of the three keeps the previous view `view`. */
  function UpdateView(store: Store, list: seq<Ref>, tab: string, view: seq<Ref>): (v: seq<Ref>)
    requires InStore(store, list)
    ensures !KnownTab(tab) ==> v == view
    ensures KnownTab(tab) || InStore(store, view) ==> InStore(store, v)
  {
    if tab == AllTab then list
    else if tab == ActiveTab then Filter(list, FlagIs(store, true))
    else if tab == InactiveTab then Filter(list, FlagIs(store, false))
    else view
  }

  /** Under a known tab the view holds exactly the records of the list that the tab shows,
      in list order; under "all" it is the list itself. */
  lemma ViewIsExact(store: Store, list: seq<Ref>, tab: string, view: seq<Ref>)
    requires InStore(store, list)
    requires KnownTab(tab)
    ensures tab == AllTab ==> UpdateView(store, list, tab, view) == list
    ensures forall r :: r in UpdateView(store, list, tab, view) <==> r in list && Shows(store, tab, r)
    ensures IsSubseq(UpdateView(store, list, tab, view), list)
  {
    if tab == AllTab {
      SubseqOfItself(list);
    } else {
      var want := tab == ActiveTab;
      FilterMembers(list, FlagIs(store, want));
      FilterIsSubseq(list, FlagIs(store, want));
    }
  }

  /** No order-preserving selection of records the tab shows is longer than the view:
      nothing the tab shows is missing from it. */
  lemma ViewIsLongest(store: Store, list: seq<Ref>, tab: string, view: seq<Ref>, ys: seq<Ref>)
    requires InStore(store, list)
    requires KnownTab(tab)
    requires IsSubseq(ys, list)
    requires forall i :: 0 <= i < |ys| ==> Shows(store, tab, ys[i])
    ensures |ys| <= |UpdateView(store, list, tab, view)|
  {
    if tab == AllTab {
      SubseqNoLonger(ys, list);
    } else {
      var want := tab == ActiveTab;
      assert forall i :: 0 <= i < |ys| ==> FlagIs(store, want)(ys[i]);
      FilterIsLongest(ys, list, FlagIs(store, want));
    }
  }

  /** An order-preserving selection of records the tab shows that is as long as the view is
      the view. */
  lemma ViewIsUnique(store: Store, list: seq<Ref>, tab: string, view: seq<Ref>, ys: seq<Ref>)
    requires InStore(store, list)
    requires KnownTab(tab)
    requires IsSubseq(ys, list)
    requires forall i :: 0 <= i < |ys| ==> Shows(store, tab, ys[i])
    requires |ys| == |UpdateView(store, list, tab, view)|
    ensures ys == UpdateView(store, list, tab, view)
  {
    if tab == AllTab {
      FilterKeepsAll(list, (r: Ref) => true);
      FilterIsUnique(ys, list, (r: Ref) => true);
    } else {
      var want := tab == ActiveTab;
      assert forall i :: 0 <= i < |ys| ==> FlagIs(store, want)(ys[i]);
      FilterIsUnique(ys, list, FlagIs(store, want));
    }
  }

  /** The "active" and "inactive" views partition the list: every record reference of the
      list is in exactly one of them, as often as in the list. */
  lemma ActiveInactivePartition(store: Store, list: seq<Ref>, view: seq<Ref>)
    requires InStore(store, list)
    ensures var act := UpdateView(store, list, ActiveTab, view);
            var inact := UpdateView(store, list, InactiveTab, view);
            && |act| + |inact| == |list|
            && multiset(act) + multiset(inact) == multiset(list)
            && forall r :: !(r in act && r in inact)
  {
    forall i | 0 <= i < |list|
      ensures FlagIs(store, true)(list[i]) <==> !FlagIs(store, false)(list[i])
    {
      assert list[i] in list;
    }
    FilterSplit(list, FlagIs(store, true), FlagIs(store, false));
    FilterMembers(list, FlagIs(store, true));
    FilterMembers(list, FlagIs(store, false));
  }
}
