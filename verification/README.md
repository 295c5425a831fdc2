# Extensions list: a Dafny model of the page's state machine

The page (app.js) loads a list of browser-extension records and renders them as cards. The
user can filter them by tab ("all", "active", "inactive"), flip a record's active switch, remove
records through a confirmation dialog, and switch between a light and a dark theme. All of this
lives in DOM event handlers over a few module-level variables. This project lifts each handler
out as a pure transition on one state record, then proves what the handlers keep true.

Modules:

- `Wrappers` (wrappers.dfy): `Option` for `null`, and `Result` for a handler that throws.
- `Records` (records.dfy): the `Extension` record and record identity. JavaScript arrays hold
  *references* to record objects. `filteredList` under "active"/"inactive" is a new array of
  the same objects, and the switch handler mutates objects reached through it. So the model
  keeps a `Store` of record objects and represents `list` and `filteredList` as sequences of
  `Ref`s into it. The page never mutates an array in place, it only reassigns the variables,
  so values of type `seq<Ref>` are faithful.
- `Filtering` (filtering.dfy): `Array.prototype.filter` as `Filter`, with lemmas that
  characterise it independently of its body. Its result is the unique longest
  order-preserving subsequence made of kept elements. The module also proves membership,
  partition and distinctness facts.
- `Views` (views.dfy): `updateFilteredList` as `UpdateView`, and the exactness and
  partition properties of the three tabs.
- `Theme` (theme.dfy): the `data-theme` root marker and the stored "theme" entry.
- `App` (app.js handlers, app.dfy): the `State` record. Each handler is a transition on it:
  `Loaded`, `SelectTab`, `ToggleSwitch`, `RequestRemove`, `CloseModal`, `ModalClick`,
  `ConfirmRemove` and `ThemeClick`. The module also holds the page invariant `Inv`.
- `Session` (session.dfy): user events, `Step` (which handler an event runs), `Run` (a whole
  session) and the session-wide properties.

Where app.js behaves surprisingly, the model follows the code:

- The switch handler walks `filteredList`, not the full list. It changes only records that
  are shown and carry the clicked name. It sets them to the negation of the flag the switch
  *renders* (`data-active`), not the negation of the stored flag.
- Neither confirm nor the close/overlay handlers clear `selectedExtension`. The remembered
  card stays until the next Remove click.
- No listener is attached to the cancel button, so there is no cancel transition.
- Confirm with no card ever chosen dereferences `null` and throws (app.js:154). The model returns `Failure(NoSelection)` and leaves the state unchanged.
  `ConfirmSafeWhileShown` proves that this cannot happen while the dialog is visible.
- A click in the tab bar outside every tab button throws at app.js:120. The `if (tab)` test
  at app.js:123 comes too late to help. The model returns `Failure(NoTabButton)` with the
  state unchanged.
- A tab key other than the three known ones (a lower-cased label) keeps the previous
  `filteredList`. After a removal under such a tab, that stale view still holds the removed
  records. This is why the "no view shows the removed name" property is stated for the
  known tabs.
- When the data file arrives, the view becomes the whole list whatever tab was selected
  meanwhile (app.js:25-26).

## Model

| member | source | states |
|---|---|---|
| `Filtering.Filter` | app.js:134-136 | `Array.prototype.filter`, used by both tab filters and by confirm (app.js:157): the result is never longer than the input and every element of it satisfies the callback. Its membership, order and maximality are stated by `FilterMembers`, `FilterIsSubseq`, `FilterIsLongest` and `FilterIsUnique`. |
| `Views.UpdateView` | app.js:130-138 | A tab key outside "all"/"active"/"inactive" leaves the view as it was, since the if/else chain has no final branch. A known tab's view refers only to loaded records. |
| `Views.ViewIsExact` | app.js:130-137 | Under a known tab, a record is in the view exactly when it is in the list and the tab shows it. The view keeps list order. Under "all" the view is the list itself. |
| `Views.ViewIsLongest` | app.js:133-136 | Every order-preserving selection of records the tab shows is at most as long as the view, so no matching record is left out. |
| `Views.ViewIsUnique` | app.js:133-136 | An order-preserving selection of records the tab shows that is as long as the view is the view. With `ViewIsExact` this pins the view down without reference to how it is computed. |
| `Views.ActiveInactivePartition` | app.js:133-136 | The "active" and "inactive" views together have `|list|` elements and the same multiset as the list. No record is in both. |
| `Theme.Startup` | app.js:9-13 | At startup dark is applied exactly when the saved entry is "dark". Storage is only read. Marker and storage agree exactly when the saved entry is absent or "dark". |
| `Theme.Toggle` | app.js:166-176 | The toggle flips the applied theme. Afterwards "dark" is stored exactly when dark is applied, and nothing is stored otherwise. |
| `Theme.ToggleTwice` | app.js:166-176 | Two toggles restore the applied theme. They restore storage too exactly when the marker and storage were in step. |
| `App.Startup` | app.js:9-19 | The state before data arrives: empty list and view, tab "all", nothing selected, dialog hidden, and the startup theme (dark exactly when the saved entry is "dark", the saved entry kept as read). |
| `App.Loaded` | app.js:25-26 | On load, the list holds every loaded record once, in file order. The view is that same list, whatever the tab. Nothing else changes. |
| `App.Lower` | app.js:121 | Lower-casing keeps the length, leaves no ASCII capital, keeps every other character, and maps each ASCII capital to the small letter at the same alphabet position. |
| `App.SelectTab` | app.js:113-127 | A tab click fails exactly when it is not on a tab button. Otherwise the tab becomes the button's lower-cased text and the view is recomputed for that tab from the list. The records, the list, the remembered card, the dialog and the theme are unchanged. |
| `App.FlipNamed` | app.js:93-100 | Walking the view sets `isActive := !rendered` on exactly the records that are in the view and named `name`. Every other record object is unchanged. |
| `App.ToggleSwitch` | app.js:90-104 | A switch click changes only the `isActive` of shown records with the clicked name, to the negation of the rendered flag. Names, descriptions, logos, the list and its order are unchanged. The view is recomputed from the updated records. |
| `App.ToggleTwiceRestores` | app.js:91-103 | Under "all", if the shown records named `name` carry the flag their switch renders, a second click on the re-rendered switch restores the whole state. |
| `App.RequestRemove` | app.js:106-110 | A Remove click shows the dialog and remembers the card's name. Records, list and view are unchanged. |
| `App.CloseModal` | app.js:140-144 | A close button hides the dialog. Records, list, view and the remembered card are unchanged. |
| `App.ModalClick` | app.js:147-151 | A click on the overlay hides the dialog. A click on its content changes nothing. Records, list, view and the remembered card are unchanged. |
| `App.ConfirmRemove` | app.js:153-162 | Confirm throws exactly when no card was ever remembered. Otherwise the list becomes the old list without the records named like the card, the dialog is hidden, and the view is recomputed for the unchanged tab from the new list. The records, the remembered card and the theme are unchanged. |
| `App.ConfirmRemovesExactly` | app.js:153-161 | After confirm, the list holds exactly the records not named like the remembered card, in their old order, still each once. No known tab's view shows that name, now or after any later tab change. |
| `App.ThemeClick` | app.js:164-176 | The theme button flips the applied theme and keeps storage in step with it. The records, list, view, tab, remembered card and dialog are unchanged. |
| `Session.Step` | app.js:86-164 | Only a tab click off every tab button, or confirm with nothing remembered, fails. Every successful event keeps the state well-formed. |
| `Session.Run` | app.js:86-164 | Any session, including one whose handlers throw, keeps every reference pointing into the loaded records. |
| `Session.StepPreservesInv` | app.js:86-162 | Every handler preserves the page invariant. Both arrays refer to loaded records, and the list holds each record once. Under a known tab the view lies within the list. Under "all" the view is the list. The dialog is visible only with a card remembered. |
| `Session.RunPreservesInv` | app.js:86-162 | The page invariant holds after any sequence of events. |
| `Session.ConfirmSafeWhileShown` | app.js:153-156 | In every reachable state the dialog is visible only with a card remembered, so confirm never throws while it can be clicked. |
| `Session.StepFrames` | app.js:86-176 | Only loading and confirm change the list. Only loading and switch clicks change records. Only a tab click changes the tab. Only the theme button changes the theme. |
| `Session.DialogFollowsEvents` | app.js:106-162 | Remove shows the dialog and remembers the card. Close, an overlay click and confirm hide it. No other event changes the dialog or the remembered card. |
| `Session.InactiveTabScenario` | app.js:130-137 | Loading [A active, B inactive] and choosing "Inactive" shows [B]. Switching B then empties the view. |
| `Session.RemoveScenario` | app.js:106-162 | Remove A then close keeps A. Remove A then confirm leaves exactly [B] with the dialog hidden. |

## Left out

- Fetching and parsing the data file (`loadData`, app.js:21-31): asynchronous network I/O.
  The parsed records are the input of the `Load` event. A failed fetch delivers no event, so
  the page stays in its pre-load state.
- Rendering (`renderList`, `renderNoData`, `renderExtensionItem`, app.js:33-84) and the tab
  buttons' highlight classes (app.js:116-120): DOM output. The rendered view is the `view`
  field. The empty-view placeholder is the case `view == []`.
- Event dispatch, `closest` and `querySelector`: replaced by explicit event data (the clicked
  card's name, the rendered switch flag, the tab button's text, overlay or content).
- Card text is assumed to round-trip through the HTML template: a card's rendered name equals
  the record's `name`. Names containing markup are not modelled.
- `App.Lower`: lower-cases ASCII letters only. The rest of Unicode case mapping in
  `toLowerCase` is not modelled.
- The markup of the page is not part of this model. The dialog is taken to start hidden and
  the root to start without a `data-theme` attribute.
- Local storage and the root attribute are modelled as `Appearance(dark, stored)`. Storage
  failures are not modelled.
