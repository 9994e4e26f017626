# Bottom-navigation tab selection, modelled in Dafny

This project models the one piece of logic in the Navigation demo app
(`app/src/main/java/dev/supergooey/navigation/MainActivity.kt`): the
tab-selection state behind its bottom navigation bar. It covers:

- the three destinations `One`, `Two` and `Three`;
- the nav-bar `Item` record, with a label, an icon, a route and a `selected` flag;
- `AppState`, with its derived `selectedNavBarItem`;
- the initial three-item state;
- the tab click handler. It first asks the navigation controller to go to
  the tapped item's route. Then it rebuilds the item list, so that an
  item is selected exactly when it is structurally equal to the tapped item.

Everything is in `navigation.dfy`, in module `Navigation`:

- `Destination`, `Icon` and `Item` are datatypes. Datatype equality is
  structural over all fields, the same as Kotlin `data class` equality.
  The `label` field is called `caption`, because `label` is a Dafny keyword.
- `AppState` is a datatype holding `navBarItems`. `SelectedNavBarItem` is the
  first item whose flag is set. `FirstSelected` is the scan behind it: it
  walks the list and fails with `NoSuchElement` at the end, as Kotlin's
  `first { }` throws. `SelectedNavBarItem` therefore requires that some item
  is selected.
- In Kotlin, `selectedNavBarItem` is a property initialiser. It runs every time
  an `AppState` is built, including by `state.copy(...)` in the click handler.
  So the copy itself throws `NoSuchElementException` when the rebuilt list has
  no selected item. `NewAppState` models this construction as a `Result`.
- `Select` is the `map { oldItem -> ... }` rebuild. `AfterClick` is the full
  `state.copy(navBarItems = ...)`.
- Class `App` holds the remembered `state` and the list of routes handed to
  `navController.navigate` (`intents`). `Click` logs the intent first (line 121)
  and only then builds the new state (line 122). When that build throws, the
  intent is already logged and the state is unchanged. `TapTab(k)` is a tap on
  the tab that `forEach` drew at position `k`. Its handler captured the item
  as it is rendered now.
- The invariant every reachable state keeps is `WellFormed`: routes are unique
  and exactly one position is selected. `CountSelected` is an independent
  counting view of the flags. `CountZeroIff` and `CountOneIff` link it to the
  `HasSelection` and `SingleSelection` predicates.

Two consequences of the code that are worth stating:

- The code has no check that rejects an empty list or duplicate routes.
  Unique routes is part of `WellFormed` and is proved for the initial state
  (`InitialStateWellFormed`), and every click keeps it (`ClickKeepsWellFormed`).
- Items are compared by full structural equality, which includes the
  `selected` flag. Tapping a tab again is idempotent when the tap sees the
  re-rendered item (`SelectTwiceRerendered`, `ReselectIsIdentity`). The same
  value tapped twice, when its tab was not selected before the first tap,
  clears every flag on the second rebuild, and the copy throws
  (`StaleTapTwiceClearsAll`). When the tab was already the selected one, the
  held value still matches, so both rebuilds leave the list unchanged
  (`ReselectIsIdentity`).

The method `ReselectScenario` is a worked client of `App`. It starts from
the initial state, taps "Three", checks that "Three" is selected and is the
start destination, then taps it again. It checks that the state is unchanged
and that the intent log holds two entries for `Three`.

## Model

| member | source | states |
|---|---|---|
| `Navigation.FirstSelected` | app/src/main/java/dev/supergooey/navigation/MainActivity.kt:60 | the scan succeeds exactly when some item is selected, and then returns an item at a selected position with no selected item before it; otherwise it fails with NoSuchElement |
| `Navigation.AppState.SelectedNavBarItem` | app/src/main/java/dev/supergooey/navigation/MainActivity.kt:57-61 | when some item is selected, the result is selected, is in the list, and no earlier item is selected |
| `Navigation.NewAppState` | app/src/main/java/dev/supergooey/navigation/MainActivity.kt:57-61 | building an AppState runs the scan: it succeeds exactly when some item is selected, keeping the list and with the scan's result as selected item; otherwise it fails with NoSuchElement |
| `Navigation.NewAppStateIffCount` | app/src/main/java/dev/supergooey/navigation/MainActivity.kt:57-61 | building an AppState succeeds exactly when the independent count of selected items is positive |
| `Navigation.StartDestination` | app/src/main/java/dev/supergooey/navigation/MainActivity.kt:148 | the start destination is the route of a selected item with no selected item before it |
| `Navigation.InitialState` | app/src/main/java/dev/supergooey/navigation/MainActivity.kt:84-106 | the initial state has three items "One", "Two", "Three" with routes One, Two, Three, and only the first is selected |
| `Navigation.Mark` | app/src/main/java/dev/supergooey/navigation/MainActivity.kt:124-128 | the copied item keeps label, icon and route, and is selected iff the old item equals the tapped value |
| `Navigation.Select` | app/src/main/java/dev/supergooey/navigation/MainActivity.kt:123-129 | the rebuild keeps length and order and every label, icon and route; a position is selected iff its old item equals the tapped value |
| `Navigation.SelectCountsMatches` | app/src/main/java/dev/supergooey/navigation/MainActivity.kt:124-128 | the number of selected items after the rebuild equals the number of occurrences of the tapped value in the list (none clears all, several select all) |
| `Navigation.SelectNoMatch` | app/src/main/java/dev/supergooey/navigation/MainActivity.kt:122-129 | a tapped value equal to no item leaves nothing selected, and the state copy throws NoSuchElement |
| `Navigation.SelectSelectsExactlyTapped` | app/src/main/java/dev/supergooey/navigation/MainActivity.kt:116-129 | with pairwise distinct items, tapping the item at position k leaves exactly position k selected (count one) |
| `Navigation.SelectedAfterSelect` | app/src/main/java/dev/supergooey/navigation/MainActivity.kt:121-130 | when the tapped value is in the list, the new selectedNavBarItem is the tapped item with its flag set, so its route is the tapped route |
| `Navigation.ReselectIsIdentity` | app/src/main/java/dev/supergooey/navigation/MainActivity.kt:121-129 | tapping the only selected item rebuilds a list equal to the old one |
| `Navigation.SelectTwiceRerendered` | app/src/main/java/dev/supergooey/navigation/MainActivity.kt:116-129 | a second tap on the same tab, as re-rendered after the first, changes nothing |
| `Navigation.AfterClick` | app/src/main/java/dev/supergooey/navigation/MainActivity.kt:122-130 | the state copy after a tap succeeds exactly when the tapped value is in the list; then the new list is the `Select` rebuild of the old one, and the selected item is the tapped one with its flag set; otherwise it fails with NoSuchElement |
| `Navigation.StaleTapTwiceClearsAll` | app/src/main/java/dev/supergooey/navigation/MainActivity.kt:120-130 | with unique routes, tapping the same not-yet-selected value twice leaves no item selected and the second state copy throws |
| `Navigation.InitialStateWellFormed` | app/src/main/java/dev/supergooey/navigation/MainActivity.kt:84-106 | the initial state is well formed (unique routes, exactly one item selected) and the start destination is One |
| `Navigation.ClickKeepsWellFormed` | app/src/main/java/dev/supergooey/navigation/MainActivity.kt:120-131 | from a well-formed state, the click's state copy succeeds iff the tapped value is in the list; the new state is well formed, selects exactly the tapped position, and its selected item has the tapped route |
| `Navigation.App.constructor` | app/src/main/java/dev/supergooey/navigation/MainActivity.kt:82-107 | the remembered state starts as the initial state, with no navigation intents yet |
| `Navigation.App.Navigate` | app/src/main/java/dev/supergooey/navigation/MainActivity.kt:121 | a navigation call appends exactly its route to the intent log |
| `Navigation.App.Click` | app/src/main/java/dev/supergooey/navigation/MainActivity.kt:120-131 | the intent log grows by the tapped route on every click, even a failing one; on success the state is the rebuilt one and its selected item is the tapped one; otherwise the click throws NoSuchElement and the state is unchanged; the invariant is kept either way |
| `Navigation.App.TapTab` | app/src/main/java/dev/supergooey/navigation/MainActivity.kt:116-131 | a tap on the tab drawn at position k always returns, selects exactly position k, logs that tab's route and makes it the start destination |

## Left out

- All Compose rendering is left out: `Scaffold`, `NavigationBar`,
  `NavigationBarItem`, `Icon`, `Text`, `Box`, theming and the preview. It is
  declarative UI with no behaviour to state. The only rendering modelled is
  which item a tab's click handler holds (`TapTab`).
- The `NavHost` back stack and its per-destination content are left out.
  They belong to the navigation library, which is not part of this model.
  `navigate` is kept only as a route appended to `intents`. `StartDestination`
  is kept as the selected item's route.
- The enter and exit animations are left out. They are floating-point
  animation specs.
- The Android lifecycle and `remember`/`mutableStateOf` recomposition are
  left out. The remembered state is a plain mutable field of `App`.
  Recomposition after a click is modelled only as `TapTab` reading the
  current item.
- An exception escaping the click handler would crash the app. The model
  stops at the failing outcome (`Threw(NoSuchElement)`) with the state
  unchanged.
- `@Serializable` on the destinations is a library annotation with no
  logic, so the model leaves it out.
- Icons are modelled as `Icon(name)` values that are compared by value. The
  actual `ImageVector` contents are not modelled.
