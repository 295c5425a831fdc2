/** The page's state and its event handlers (app.js), each as a pure transition. */
module App {
  import opened Wrappers
  import opened Records
  import opened Filtering
  import opened Views
  import Theme

  /** The page's module-level variables, plus the visible parts of the page they drive.
      - `store`: every loaded record object, by identity; `list` and `view` refer into it
      - `list`: the full record array; `view`: `filteredList`, the rendered one
      - `activeTab`: the tab key; `selected`: the name on the card of `selectedExtension`
      - `modalVisible`: the confirmation dialog lacks the "hide" class
      - `theme`: the root marker and the stored theme entry */
  datatype State = State(
    store: Store,
    list: seq<Ref>,
    view: seq<Ref>,
    activeTab: string,
    selected: Option<string>,
    modalVisible: bool,
    theme: Theme.Appearance)

  /** The TypeError a handler throws when it dereferences `null`. Nothing is assigned before
      the throw, so the state stays as it was. */
  datatype Crash =
    | NoTabButton   // a click in the tab bar outside every tab button
    | NoSelection   // confirm while no card was ever chosen for removal

  /** Both arrays refer to loaded records only. */
  predicate Valid(s: State)
  {
    InStore(s.store, s.list) && InStore(s.store, s.view)
  }

  /** The state once the script has run and before the data file arrives. */
  function Startup(saved: Option<string>): (s: State)
    ensures Valid(s) && s.list == [] && s.view == []
    ensures s.activeTab == AllTab && s.selected == None && !s.modalVisible
    ensures s.theme.dark <==> saved == Some(Theme.Dark)
    ensures s.theme == Theme.Startup(saved)
  {
    State([], [], [], AllTab, None, false, Theme.Startup(saved))
  }

  /** The data file arrived: the list and the view become the loaded array, whatever tab
      was selected in the meantime. */
  function Loaded(s: State, records: seq<Extension>): (t: State)
    ensures Valid(t) && Distinct(t.list)
    ensures |t.list| == |records| && t.view == t.list
    ensures t.store == records && forall i :: 0 <= i < |t.list| ==> t.list[i] == i
    ensures t.activeTab == s.activeTab && t.selected == s.selected
    ensures t.modalVisible == s.modalVisible && t.theme == s.theme
  {
    var refs := Identities(|records|);
    assert forall i :: 0 <= i < |records| ==> refs[i] == i;
    s.(store := records, list := refs, view := refs)
  }

  /** ASCII part of `String.prototype.toLowerCase`. */
  function LowerChar(c: char): char
  {
    if 'A' <= c <= 'Z' then (c as int - 'A' as int + 'a' as int) as char else c
  }

  function Lower(text: string): (r: string)
    ensures |r| == |text|
    ensures forall i :: 0 <= i < |r| ==> !('A' <= r[i] <= 'Z')
    ensures forall i :: 0 <= i < |text| && !('A' <= text[i] <= 'Z') ==> r[i] == text[i]
    ensures forall i :: 0 <= i < |text| && 'A' <= text[i] <= 'Z' ==>
      r[i] as int - 'a' as int == text[i] as int - 'A' as int
  {
    seq(|text|, i requires 0 <= i < |text| => LowerChar(text[i]))
  }

  /** A click in the tab bar. `button` is the text of the tab button under the click, `None`
      when there is none: the handler dereferences the button before its null test. */
  function SelectTab(s: State, button: Option<string>): (res: Result<State, Crash>)
    requires Valid(s)
    ensures res.Failure? <==> button == None
    ensures res.Success? ==> Valid(res.value)
    ensures res.Success? ==>
      var tab := Lower(button.value);
      && res.value.activeTab == tab
      && res.value.view == UpdateView(s.store, s.list, tab, s.view)
      && res.value.store == s.store && res.value.list == s.list
      && res.value.selected == s.selected && res.value.modalVisible == s.modalVisible
      && res.value.theme == s.theme
  {
    match button
    case None => Failure(NoTabButton)
    case Some(text) =>
      var tab := Lower(text);
      Success(s.(activeTab := tab, view := UpdateView(s.store, s.list, tab, s.view)))
  }

  /** The switch loop: walks `view` in order and sets `isActive := !rendered` on every
      record reached whose name is `name`. Records outside `view` are never reached. */
  function FlipNamed(store: Store, view: seq<Ref>, name: string, rendered: bool): (out: Store)
    requires InStore(store, view)
    ensures |out| == |store|
    ensures forall r :: 0 <= r < |store| ==>
      out[r] == if r in view && store[r].name == name then store[r].(isActive := !rendered) else store[r]
    decreases |view|
  {
    if view == [] then store
    else
      var r := view[0];
      assert r in view;
      var next := if store[r].name == name then store[r := store[r].(isActive := !rendered)] else store;
      assert forall x :: x in view[1..] ==> x in view;
      FlipNamed(next, view[1..], name, rendered)
  }

  /** A click on the switch of the card named `name`, which shows the flag `rendered`. */
  function ToggleSwitch(s: State, name: string, rendered: bool): (t: State)
    requires Valid(s)
    ensures Valid(t)
    ensures t.list == s.list && |t.store| == |s.store|
    ensures forall r :: 0 <= r < |s.store| ==>
      && t.store[r].name == s.store[r].name
      && t.store[r].description == s.store[r].description
      && t.store[r].logo == s.store[r].logo
      && t.store[r].isActive == if r in s.view && s.store[r].name == name then !rendered else s.store[r].isActive
    ensures t.view == UpdateView(t.store, s.list, s.activeTab, s.view)
    ensures t.activeTab == s.activeTab && t.selected == s.selected
    ensures t.modalVisible == s.modalVisible && t.theme == s.theme
  {
    var store := FlipNamed(s.store, s.view, name, rendered);
    s.(store := store, view := UpdateView(store, s.list, s.activeTab, s.view))
  }

  /** A click on the Remove button of the card named `name`: show the dialog, remember the card. */
  function RequestRemove(s: State, name: string): (t: State)
    ensures t.modalVisible && t.selected == Some(name)
    ensures t.store == s.store && t.list == s.list && t.view == s.view
    ensures t.activeTab == s.activeTab && t.theme == s.theme
  {
    s.(modalVisible := true, selected := Some(name))
  }

  /** A click on one of the dialog's close buttons. */
  function CloseModal(s: State): (t: State)
    ensures !t.modalVisible
    ensures t.store == s.store && t.list == s.list && t.view == s.view
    ensures t.selected == s.selected && t.activeTab == s.activeTab && t.theme == s.theme
  {
    s.(modalVisible := false)
  }

  /** A click inside the dialog element; `onOverlay` when it landed on the overlay itself
      rather than on the dialog's content. */
  function ModalClick(s: State, onOverlay: bool): (t: State)
    ensures t.modalVisible == (s.modalVisible && !onOverlay)
    ensures t.store == s.store && t.list == s.list && t.view == s.view
    ensures t.selected == s.selected && t.activeTab == s.activeTab && t.theme == s.theme
  {
    if onOverlay then s.(modalVisible := false) else s
  }

  /** The filter callback of the confirm handler: records not named `name`. */
  function NameIsNot(store: Store, name: string): Ref -> bool
  {
    (r: Ref) => r < |store| && store[r].name != name
  }

  /** A click on the dialog's confirm button: drops every record named like the remembered
      card, hides the dialog and recomputes the view. The remembered card is kept. */
  function ConfirmRemove(s: State): (res: Result<State, Crash>)
    requires Valid(s)
    ensures res.Failure? <==> s.selected == None
    ensures res.Success? ==> Valid(res.value)
    ensures res.Success? ==>
      var list := Filter(s.list, NameIsNot(s.store, s.selected.value));
      && res.value.list == list
      && !res.value.modalVisible
      && res.value.view == UpdateView(s.store, list, s.activeTab, s.view)
      && res.value.store == s.store && res.value.activeTab == s.activeTab
      && res.value.selected == s.selected && res.value.theme == s.theme
  {
    match s.selected
    case None => Failure(NoSelection)
    case Some(name) =>
      var list := Filter(s.list, NameIsNot(s.store, name));
      Success(s.(list := list, modalVisible := false,
                 view := UpdateView(s.store, list, s.activeTab, s.view)))
  }

  /** A click on the theme button. */
  function ThemeClick(s: State): (t: State)
    ensures t.theme.dark == !s.theme.dark && Theme.InStep(t.theme)
    ensures t.store == s.store && t.list == s.list && t.view == s.view
    ensures t.selected == s.selected && t.modalVisible == s.modalVisible
    ensures t.activeTab == s.activeTab
  {
    s.(theme := Theme.Toggle(s.theme))
  }

  /** What the page keeps true between events:
      - both arrays refer to loaded records, and the list holds each record once;
      - under a known tab every shown record is in the list, and under "all" the view is the list;
      - the dialog is only visible once a card has been chosen for removal. */
  predicate Inv(s: State)
  {
    && Valid(s)
    && Distinct(s.list)
    && (KnownTab(s.activeTab) ==> forall r :: r in s.view ==> r in s.list)
    && (s.activeTab == AllTab ==> s.view == s.list)
    && (s.modalVisible ==> s.selected.Some?)
  }

  /** Under "all", when every shown record named `name` has the flag its switch shows, a second
      click on the re-rendered switch undoes the first one completely. */
  lemma ToggleTwiceRestores(s: State, name: string, rendered: bool)
    requires Valid(s)
    requires s.activeTab == AllTab && s.view == s.list
    requires forall r :: r in s.view && s.store[r].name == name ==> s.store[r].isActive == rendered
    ensures ToggleSwitch(ToggleSwitch(s, name, rendered), name, !rendered) == s
  {
  }

  /** Confirming removes exactly the records named like the remembered card and keeps the
      others in order; afterwards no known tab's view shows that name. */
  lemma ConfirmRemovesExactly(s: State)
    requires Valid(s)
    requires s.selected.Some?
    ensures ConfirmRemove(s).Success?
    ensures var t := ConfirmRemove(s).value;
            var name := s.selected.value;
            && (forall r :: r in t.list <==> r in s.list && s.store[r].name != name)
            && IsSubseq(t.list, s.list)
            && (Distinct(s.list) ==> Distinct(t.list))
            && (forall tab, v, r :: KnownTab(tab) && r in UpdateView(t.store, t.list, tab, v) ==>
                  t.store[r].name != name)
            && (KnownTab(t.activeTab) ==> forall r :: r in t.view ==> t.store[r].name != name)
  {
    var name := s.selected.value;
    var keep := NameIsNot(s.store, name);
    var t := ConfirmRemove(s).value;
    FilterMembers(s.list, keep);
    FilterIsSubseq(s.list, keep);
    if Distinct(s.list) {
      FilterDistinct(s.list, keep);
    }
    forall tab, v, r | KnownTab(tab) && r in UpdateView(t.store, t.list, tab, v)
      ensures t.store[r].name != name
    {
      ViewIsExact(t.store, t.list, tab, v);
    }
  }
}
