/** The page as a sequence of user events: which handler each event runs, and what stays true
    over a whole session. */
module Session {
  import opened Wrappers
  import opened Records
  import opened Filtering
  import opened Views
  import opened App

  /** What a click in the record list landed on. */
  datatype ListTarget =
    | SwitchOf(name: string, rendered: bool)  // a card's switch, showing `data-active`
    | RemoveOf(name: string)                  // a card's Remove button
    | OtherTarget                             // anything else in the list

  /** The events the page reacts to. A failed data fetch delivers no event at all. */
  datatype Event =
    | Load(records: seq<Extension>)
    | TabClick(button: Option<string>)
    | ListClick(target: ListTarget)
    | CloseClick
    | DialogClick(onOverlay: bool)
    | ConfirmClick
    | ThemeButtonClick

  /** Runs the handler of one event. */
  function Step(s: State, e: Event): (res: Result<State, Crash>)
    requires Valid(s)
    ensures res.Failure? <==> e == TabClick(None) || (e == ConfirmClick && s.selected == None)
    ensures res.Success? ==> Valid(res.value)
  {
    match e
    case Load(records) => Success(Loaded(s, records))
    case TabClick(button) => SelectTab(s, button)
    case ListClick(target) =>
      (match target
       case SwitchOf(name, rendered) => Success(ToggleSwitch(s, name, rendered))
       case RemoveOf(name) => Success(RequestRemove(s, name))
       case OtherTarget => Success(s))
    case CloseClick => Success(CloseModal(s))
    case DialogClick(onOverlay) => Success(ModalClick(s, onOverlay))
    case ConfirmClick => ConfirmRemove(s)
    case ThemeButtonClick => Success(ThemeClick(s))
  }

  /** Runs a session. A handler that throws leaves the state as it was and the page carries on. */
  function Run(s: State, events: seq<Event>): (t: State)
    requires Valid(s)
    ensures Valid(t)
    decreases |events|
  {
    if events == [] then s
    else
      var next := match Step(s, events[0]) case Success(u) => u case Failure(_) => s;
      Run(next, events[1..])
  }

  /** Every handler keeps the page invariant. */
  lemma StepPreservesInv(s: State, e: Event)
    requires Inv(s)
    ensures Step(s, e).Success? ==> Inv(Step(s, e).value)
  {
    match e
    case Load(records) =>
    case TabClick(button) =>
      if button.Some? {
        var tab := Lower(button.value);
        if KnownTab(tab) {
          ViewIsExact(s.store, s.list, tab, s.view);
        }
      }
    case ListClick(target) =>
      if target.SwitchOf? {
        var t := ToggleSwitch(s, target.name, target.rendered);
        if KnownTab(s.activeTab) {
          ViewIsExact(t.store, s.list, s.activeTab, s.view);
        }
      }
    case CloseClick =>
    case DialogClick(onOverlay) =>
    case ConfirmClick =>
      if s.selected.Some? {
        var t := ConfirmRemove(s).value;
        ConfirmRemovesExactly(s);
        if KnownTab(s.activeTab) {
          ViewIsExact(t.store, t.list, s.activeTab, s.view);
        }
      }
    case ThemeButtonClick =>
  }

  /** The invariant holds after any sequence of events. */
  lemma {:induction false} RunPreservesInv(s: State, events: seq<Event>)
    requires Inv(s)
    ensures Inv(Run(s, events))
    decreases |events|
  {
    if events != [] {
      StepPreservesInv(s, events[0]);
      var next := match Step(s, events[0]) case Success(u) => u case Failure(_) => s;
      RunPreservesInv(next, events[1..]);
    }
  }

  /** In every state a session can reach, the dialog is only visible with a card remembered,
      so the confirm button never meets a null selection while it can be clicked. */
  lemma ConfirmSafeWhileShown(saved: Option<string>, events: seq<Event>)
    ensures var t := Run(Startup(saved), events);
            && Inv(t)
            && (t.modalVisible ==> Step(t, ConfirmClick).Success?)
  {
    RunPreservesInv(Startup(saved), events);
  }

  /** Only loading and confirming change the list; only loading and the switches change the
      records; only a tab click changes the tab; only the theme button changes the theme. */
  lemma StepFrames(s: State, e: Event)
    requires Valid(s)
    ensures var res := Step(s, e);
            res.Success? ==>
              && (res.value.list != s.list ==> e.Load? || e == ConfirmClick)
              && (res.value.store != s.store ==> e.Load? || (e.ListClick? && e.target.SwitchOf?))
              && (res.value.activeTab != s.activeTab ==> e.TabClick?)
              && (res.value.theme != s.theme ==> e == ThemeButtonClick)
  {
  }

  /** The dialog's visibility and the remembered card follow the removal flow: Remove shows
      it and remembers the card; close, an overlay click and confirm hide it; nothing else
      touches either. */
  lemma DialogFollowsEvents(s: State, e: Event)
    requires Valid(s)
    ensures var res := Step(s, e);
            res.Success? ==>
              && res.value.modalVisible == (match e
                  case ListClick(RemoveOf(_)) => true
                  case CloseClick => false
                  case DialogClick(onOverlay) => s.modalVisible && !onOverlay
                  case ConfirmClick => false
                  case _ => s.modalVisible)
              && res.value.selected == (match e
                  case ListClick(RemoveOf(name)) => Some(name)
                  case _ => s.selected)
  {
  }

  /** Loading [A active, B inactive], choosing the Inactive tab shows [B]; switching B off
      its rendered "false" leaves the inactive view empty. */
  lemma InactiveTabScenario(saved: Option<string>)
    ensures var a := Extension("A", "", "", true);
            var b := Extension("B", "", "", false);
            var s0 := Loaded(Startup(saved), [a, b]);
            var s1 := SelectTab(s0, Some("Inactive"));
            && s1.Success?
            && s1.value.view == [1]
            && ToggleSwitch(s1.value, "B", false).view == []
  {
    var a := Extension("A", "", "", true);
    var b := Extension("B", "", "", false);
    var s0 := Loaded(Startup(saved), [a, b]);
    assert Lower("Inactive") == InactiveTab;
    var s1 := SelectTab(s0, Some("Inactive")).value;
    var refs: seq<Ref> := [0, 1];
    assert refs[1..] == [1] && refs[1..][1..] == [];
    assert s0.list == refs;
    assert s1.view == Filter(refs, FlagIs(s1.store, false));
    var s2 := ToggleSwitch(s1, "B", false);
    assert s2.store[0].isActive && s2.store[1].isActive;
    assert s2.view == Filter(refs, FlagIs(s2.store, false));
  }

  /** Loading [A, B]: asking to remove A shows the dialog and keeps the list; closing it
      hides the dialog and still keeps A; asking again and confirming leaves [B]. */
  lemma RemoveScenario(saved: Option<string>)
    ensures var a := Extension("A", "", "", true);
            var b := Extension("B", "", "", false);
            var s0 := Loaded(Startup(saved), [a, b]);
            var asked := RequestRemove(s0, "A");
            var closed := CloseModal(asked);
            var confirmed := ConfirmRemove(RequestRemove(closed, "A"));
            && asked.modalVisible && asked.list == s0.list
            && !closed.modalVisible && closed.list == [0, 1]
            && confirmed.Success?
            && !confirmed.value.modalVisible
            && confirmed.value.list == [1]
            && confirmed.value.view == [1]
  {
    var a := Extension("A", "", "", true);
    var b := Extension("B", "", "", false);
    var s0 := Loaded(Startup(saved), [a, b]);
    var refs: seq<Ref> := [0, 1];
    assert refs[1..] == [1] && refs[1..][1..] == [];
    assert s0.list == refs;
    var asked := RequestRemove(s0, "A");
    var confirmed := ConfirmRemove(RequestRemove(CloseModal(asked), "A")).value;
    assert confirmed.list == Filter(refs, NameIsNot(s0.store, "A"));
  }
}
