/**
 * The tab-selection state of the bottom navigation bar in MainActivity.kt:
 * three destinations, the nav-bar items that point at them, the app state
 * whose `selectedNavBarItem` is computed when the state is built, and the
 * click handler that first asks the navigation controller to go to the
 * tapped item's route and then rebuilds the item list so that exactly the
 * items equal to the tapped one are flagged as selected.
 */
module Navigation {

  /** The closed set of screens the navigation host can show. */
  datatype Destination = One | Two | Three

  /** An icon reference (an ImageVector in the app), compared by value. */
  datatype Icon = Icon(name: string)

  /** A nav-bar entry; equality is structural over all four fields, as for a Kotlin data class. */
  datatype Item = Item(caption: string, icon: Icon, route: Destination, selected: bool)

  /** The one exception the core can raise: `first { }` finding no matching element. */
  datatype Failure = NoSuchElement

  datatype Result<T> = Ok(value: T) | Err(error: Failure)

  /** How a click handler ends: it returns normally, or the exception escapes it. */
  datatype Outcome = Returned | Threw(error: Failure)

  // ---------------------------------------------------------------------------
  // Selection queries
  // ---------------------------------------------------------------------------

  predicate HasSelection(items: seq<Item>)
  {
    exists i :: 0 <= i < |items| && items[i].selected
  }

  /** Exactly the item at position k is flagged as selected. */
  predicate SelectedExactlyAt(items: seq<Item>, k: int)
  {
    forall i :: 0 <= i < |items| ==> (items[i].selected <==> i == k)
  }

  /** The single-selection invariant: one position, and only that one, is selected. */
  predicate SingleSelection(items: seq<Item>)
  {
    exists k :: 0 <= k < |items| && SelectedExactlyAt(items, k)
  }

  /** The number of selected items, an independent counting view of the flags. */
  function CountSelected(items: seq<Item>): nat
  {
    if items == [] then 0
    else (if items[0].selected then 1 else 0) + CountSelected(items[1..])
  }

  predicate UniqueRoutes(items: seq<Item>)
  {
    forall i, j :: 0 <= i < j < |items| ==> items[i].route != items[j].route
  }

  predicate Distinct(items: seq<Item>)
  {
    forall i, j :: 0 <= i < j < |items| ==> items[i] != items[j]
  }

  /** Two items that agree on everything except, possibly, the `selected` flag. */
  predicate SameButFlag(a: Item, b: Item)
  {
    a.caption == b.caption && a.icon == b.icon && a.route == b.route
  }

  /**
   * `first { it.selected }`: walk the list and return the first selected
   * item, or fail with NoSuchElement on reaching its end.
   */
  function FirstSelected(items: seq<Item>): (r: Result<Item>)
    ensures r.Ok? <==> HasSelection(items)
    ensures r.Ok? ==> exists k :: 0 <= k < |items| && items[k] == r.value && items[k].selected &&
                                  forall j :: 0 <= j < k ==> !items[j].selected
    ensures r.Err? ==> r.error == NoSuchElement
  {
    if items == [] then Err(NoSuchElement)
    else if items[0].selected then Ok(items[0])
    else
      var rest := items[1..];
      assert HasSelection(rest) <==> HasSelection(items) by {
        if HasSelection(items) {
          var i :| 0 <= i < |items| && items[i].selected;
          assert rest[i - 1].selected;
        }
        if HasSelection(rest) {
          var i :| 0 <= i < |rest| && rest[i].selected;
          assert items[i + 1].selected;
        }
      }
      var r := FirstSelected(rest);
      assert r.Ok? ==> exists k :: 0 <= k < |items| && items[k] == r.value && items[k].selected &&
                                   forall j :: 0 <= j < k ==> !items[j].selected by {
        if r.Ok? {
          var k :| 0 <= k < |rest| && rest[k] == r.value && rest[k].selected &&
                   forall j :: 0 <= j < k ==> !rest[j].selected;
          assert items[k + 1] == rest[k];
          assert forall j :: 0 <= j < k + 1 ==> !items[j].selected by {
            forall j | 0 <= j < k + 1 ensures !items[j].selected {
              if j > 0 { assert items[j] == rest[j - 1]; }
            }
          }
        }
      }
      r
  }

  // ---------------------------------------------------------------------------
  // App state
  // ---------------------------------------------------------------------------

  /** The state remembered by the App composable: the list of nav-bar items. */
  datatype AppState = AppState(navBarItems: seq<Item>)
  {
    /** The first item whose flag is set; undefined (Kotlin throws) when none is. */
    function SelectedNavBarItem(): (r: Item)
      requires HasSelection(navBarItems)
      ensures r.selected
      ensures exists k :: 0 <= k < |navBarItems| && navBarItems[k] == r &&
                          forall j :: 0 <= j < k ==> !navBarItems[j].selected
    {
      FirstSelected(navBarItems).value
    }
  }

  /**
   * Building an AppState runs the initialiser of `selectedNavBarItem`, so
   * construction itself fails when no item is selected.
   */
  function NewAppState(items: seq<Item>): (r: Result<AppState>)
    ensures r.Ok? <==> HasSelection(items)
    ensures r.Ok? ==> r.value.navBarItems == items
    ensures r.Ok? ==> r.value.SelectedNavBarItem() == FirstSelected(items).value
    ensures r.Err? ==> r.error == NoSuchElement
  {
    match FirstSelected(items)
    case Ok(_) => Ok(AppState(items))
    case Err(e) => Err(e)
  }

  /** The route the navigation host starts on: that of the first selected item. */
  function StartDestination(s: AppState): (d: Destination)
    requires HasSelection(s.navBarItems)
    ensures exists k :: 0 <= k < |s.navBarItems| && s.navBarItems[k].selected &&
                        s.navBarItems[k].route == d &&
                        forall j :: 0 <= j < k ==> !s.navBarItems[j].selected
  {
    s.SelectedNavBarItem().route
  }

  /** The invariant every reachable state keeps. */
  predicate WellFormed(s: AppState)
  {
    UniqueRoutes(s.navBarItems) && SingleSelection(s.navBarItems)
  }

  function InitialItems(): seq<Item>
  {
    [ Item("One", Icon("Rounded.Home"), One, true),
      Item("Two", Icon("Rounded.Person"), Two, false),
      Item("Three", Icon("Rounded.DateRange"), Three, false) ]
  }

  /** The remembered state the App composable starts from. */
  function InitialState(): (s: AppState)
    ensures |s.navBarItems| == 3
    ensures forall i :: 0 <= i < 3 ==>
      s.navBarItems[i].caption == ["One", "Two", "Three"][i] &&
      s.navBarItems[i].route == [One, Two, Three][i]
    ensures SelectedExactlyAt(s.navBarItems, 0)
  {
    AppState(InitialItems())
  }

  // ---------------------------------------------------------------------------
  // The selection rebuild of the click handler
  // ---------------------------------------------------------------------------

  /** The lambda given to `map`: copy the item with `selected` set iff it equals the tapped one. */
  function Mark(oldItem: Item, tapped: Item): (r: Item)
    ensures SameButFlag(r, oldItem)
    ensures r.selected <==> oldItem == tapped
  {
    if oldItem == tapped then oldItem.(selected := true) else oldItem.(selected := false)
  }

  /**
   * `navBarItems.map { ... }`: same length and order, every label, icon and
   * route kept, and a position is selected exactly when its old item is
   * structurally equal to the tapped item.
   */
  function Select(items: seq<Item>, tapped: Item): (r: seq<Item>)
    ensures |r| == |items|
    ensures forall i :: 0 <= i < |items| ==> SameButFlag(r[i], items[i])
    ensures forall i :: 0 <= i < |items| ==> (r[i].selected <==> items[i] == tapped)
  {
    if items == [] then [] else [Mark(items[0], tapped)] + Select(items[1..], tapped)
  }

  /**
   * `state.copy(navBarItems = ...)` after a tap on `tapped`: it succeeds
   * exactly when the tapped value is one of the items, and then the new
   * selected item is the tapped one with its flag set.
   */
  function AfterClick(s: AppState, tapped: Item): (r: Result<AppState>)
    ensures r.Ok? <==> tapped in s.navBarItems
    ensures r.Ok? ==> |r.value.navBarItems| == |s.navBarItems| && HasSelection(r.value.navBarItems)
    ensures r.Ok? ==> r.value.SelectedNavBarItem() == tapped.(selected := true)
    ensures r.Ok? ==> r.value.navBarItems == Select(s.navBarItems, tapped)
    ensures r.Err? ==> r.error == NoSuchElement
  {
    NewAppState(Select(s.navBarItems, tapped))
  }

  // ---------------------------------------------------------------------------
  // Lemmas
  // ---------------------------------------------------------------------------

  /** No selected item counts as zero, and the other way round. */
  lemma {:induction false} CountZeroIff(items: seq<Item>)
    ensures CountSelected(items) == 0 <==> !HasSelection(items)
  {
    if items != [] {
      CountZeroIff(items[1..]);
      if HasSelection(items[1..]) {
        var i :| 0 <= i < |items[1..]| && items[1..][i].selected;
        assert items[i + 1].selected;
      }
      if !items[0].selected && HasSelection(items) {
        var i :| 0 <= i < |items| && items[i].selected;
        assert items[1..][i - 1].selected;
      }
    }
  }

  /** A count of one is the same as the single-selection invariant. */
  lemma {:induction false} CountOneIff(items: seq<Item>)
    ensures CountSelected(items) == 1 <==> SingleSelection(items)
  {
    if items != [] {
      var rest := items[1..];
      CountOneIff(rest);
      CountZeroIff(rest);
      if CountSelected(items) == 1 {
        if items[0].selected {
          assert !HasSelection(rest);
          forall i | 0 <= i < |items| ensures items[i].selected <==> i == 0 {
            if i > 0 { assert rest[i - 1] == items[i]; }
          }
          assert SelectedExactlyAt(items, 0);
        } else {
          var k :| 0 <= k < |rest| && SelectedExactlyAt(rest, k);
          forall i | 0 <= i < |items| ensures items[i].selected <==> i == k + 1 {
            if i > 0 { assert rest[i - 1] == items[i]; }
          }
          assert SelectedExactlyAt(items, k + 1);
        }
      }
      if SingleSelection(items) {
        var k :| 0 <= k < |items| && SelectedExactlyAt(items, k);
        if k == 0 {
          assert !HasSelection(rest) by {
            forall i | 0 <= i < |rest| ensures !rest[i].selected {
              assert rest[i] == items[i + 1];
            }
          }
        } else {
          assert SelectedExactlyAt(rest, k - 1) by {
            forall i | 0 <= i < |rest| ensures rest[i].selected <==> i == k - 1 {
              assert rest[i] == items[i + 1];
            }
          }
        }
      }
    }
  }

  /**
   * Matching is by full structural equality: after the rebuild, the number of
   * selected items is the number of occurrences of the tapped value, so no
   * match clears every flag and several matches select all of them.
   */
  lemma {:induction false} SelectCountsMatches(items: seq<Item>, tapped: Item)
    ensures CountSelected(Select(items, tapped)) == multiset(items)[tapped]
  {
    if items != [] {
      var r := Select(items, tapped);
      assert r[1..] == Select(items[1..], tapped);
      assert items == [items[0]] + items[1..];
      assert multiset(items) == multiset{items[0]} + multiset(items[1..]);
      SelectCountsMatches(items[1..], tapped);
    }
  }

  /** A tapped value that equals no item leaves no item selected, and building the state fails. */
  lemma SelectNoMatch(items: seq<Item>, tapped: Item)
    requires tapped !in items
    ensures !HasSelection(Select(items, tapped))
    ensures NewAppState(Select(items, tapped)) == Err(NoSuchElement)
  {
  }

  /** Building the state succeeds exactly when the count of selected items is positive. */
  lemma {:induction false} NewAppStateIffCount(items: seq<Item>)
    ensures NewAppState(items).Ok? <==> CountSelected(items) > 0
  {
    CountZeroIff(items);
  }

  /** Distinct routes make the items pairwise distinct. */
  lemma UniqueRoutesDistinct(items: seq<Item>)
    requires UniqueRoutes(items)
    ensures Distinct(items)
  {
  }

  /**
   * With pairwise distinct items, tapping the item at position k leaves
   * exactly position k selected.
   */
  lemma SelectSelectsExactlyTapped(items: seq<Item>, tapped: Item, k: int)
    requires Distinct(items)
    requires 0 <= k < |items| && items[k] == tapped
    ensures SelectedExactlyAt(Select(items, tapped), k)
    ensures SingleSelection(Select(items, tapped))
    ensures CountSelected(Select(items, tapped)) == 1
  {
    var r := Select(items, tapped);
    forall i | 0 <= i < |items| ensures r[i].selected <==> i == k {
      if i < k { assert items[i] != items[k]; }
      if k < i { assert items[k] != items[i]; }
    }
    assert SelectedExactlyAt(r, k);
    CountOneIff(r);
  }

  /**
   * When the tapped value is one of the items, the first selected item of the
   * rebuilt list is the tapped item with its flag set: in particular its
   * route is the tapped route, whether or not the items are distinct.
   */
  lemma SelectedAfterSelect(items: seq<Item>, tapped: Item)
    requires tapped in items
    ensures HasSelection(Select(items, tapped))
    ensures AppState(Select(items, tapped)).SelectedNavBarItem() == tapped.(selected := true)
    ensures AppState(Select(items, tapped)).SelectedNavBarItem().route == tapped.route
  {
  }

  /**
   * Re-selection: tapping the one selected item rebuilds a list equal to the
   * old one.
   */
  lemma ReselectIsIdentity(items: seq<Item>, k: int)
    requires 0 <= k < |items| && SelectedExactlyAt(items, k)
    ensures Select(items, items[k]) == items
  {
  }

  /**
   * Tapping the same tab twice, where the second tap sees the item as the
   * rebuilt list shows it, changes nothing the second time.
   */
  lemma SelectTwiceRerendered(items: seq<Item>, k: int)
    requires 0 <= k < |items|
    ensures Select(Select(items, items[k]), Select(items, items[k])[k]) == Select(items, items[k])
  {
  }

  /**
   * Tapping the same stale value twice (the item as it was before the first
   * tap, not yet selected) clears every flag on the second rebuild, so
   * building the state fails.
   */
  lemma StaleTapTwiceClearsAll(items: seq<Item>, tapped: Item)
    requires UniqueRoutes(items) && tapped in items && !tapped.selected
    ensures !HasSelection(Select(Select(items, tapped), tapped))
    ensures NewAppState(Select(Select(items, tapped), tapped)) == Err(NoSuchElement)
  {
  }

  /** The initial state keeps the invariant, and the navigation host starts on One. */
  lemma InitialStateWellFormed()
    ensures WellFormed(InitialState())
    ensures HasSelection(InitialState().navBarItems)
    ensures StartDestination(InitialState()) == One
  {
    assert InitialState().navBarItems[0].selected;
    assert SelectedExactlyAt(InitialState().navBarItems, 0);
  }

  /**
   * A click on a well-formed state succeeds exactly when the tapped value is
   * one of its items; the new state is well formed, selects exactly the
   * tapped position and its selected item has the tapped route. Otherwise the
   * state is not rebuilt.
   */
  lemma ClickKeepsWellFormed(s: AppState, tapped: Item)
    requires WellFormed(s)
    ensures AfterClick(s, tapped).Ok? <==> tapped in s.navBarItems
    ensures AfterClick(s, tapped).Ok? ==>
      var t := AfterClick(s, tapped).value;
      && WellFormed(t)
      && (exists k :: 0 <= k < |s.navBarItems| && s.navBarItems[k] == tapped &&
                      SelectedExactlyAt(t.navBarItems, k))
      && t.SelectedNavBarItem() == tapped.(selected := true)
      && StartDestination(t) == tapped.route
  {
    var r := Select(s.navBarItems, tapped);
    if tapped in s.navBarItems {
      var k :| 0 <= k < |s.navBarItems| && s.navBarItems[k] == tapped;
      UniqueRoutesDistinct(s.navBarItems);
      SelectSelectsExactlyTapped(s.navBarItems, tapped, k);
      SelectedAfterSelect(s.navBarItems, tapped);
      assert UniqueRoutes(r) by {
        forall i, j | 0 <= i < j < |r| ensures r[i].route != r[j].route {
          assert s.navBarItems[i].route != s.navBarItems[j].route;
        }
      }
    } else {
      SelectNoMatch(s.navBarItems, tapped);
    }
  }

  // ---------------------------------------------------------------------------
  // The App composable's remembered state and its click handler
  // ---------------------------------------------------------------------------

  class App {
    /** The remembered `state`. */
    var state: AppState
    /** The routes handed to the navigation controller, oldest first. */
    var intents: seq<Destination>

    ghost predicate Valid()
      reads this
    {
      WellFormed(state)
    }

    constructor ()
      ensures Valid()
      ensures state == InitialState() && intents == []
    {
      state := InitialState();
      intents := [];
      InitialStateWellFormed();
    }

    /** `navController.navigate(route)`, kept only as an appended intent. */
    method Navigate(route: Destination)
      modifies this`intents
      ensures intents == old(intents) + [route]
    {
      intents := intents + [route];
    }

    /**
     * `onClick`: navigate to the tapped route, then replace the state by the
     * rebuilt one. The intent is logged even when building the new state
     * throws, in which case the state is left as it was.
     */
    method Click(item: Item) returns (outcome: Outcome)
      requires Valid()
      modifies this
      ensures Valid()
      ensures intents == old(intents) + [item.route]
      ensures outcome == Returned <==> item in old(state.navBarItems)
      ensures outcome == Returned ==> AfterClick(old(state), item) == Ok(state)
      ensures outcome == Returned ==> state.SelectedNavBarItem() == item.(selected := true)
      ensures outcome == Returned ==>
        exists k :: 0 <= k < |state.navBarItems| && old(state.navBarItems)[k] == item &&
                    SelectedExactlyAt(state.navBarItems, k)
      ensures outcome != Returned ==> outcome == Threw(NoSuchElement) && state == old(state)
    {
      Navigate(item.route);
      ClickKeepsWellFormed(state, item);
      var next := AfterClick(state, item);
      match next
      case Ok(s) =>
        state := s;
        outcome := Returned;
      case Err(e) =>
        outcome := Threw(e);
    }

    /**
     * A tap on the tab drawn at position k by `forEach`, whose handler holds
     * the item as currently rendered: it always returns, selects exactly
     * position k and navigates to that tab's route.
     */
    method TapTab(k: nat) returns (outcome: Outcome)
      requires Valid() && k < |state.navBarItems|
      modifies this
      ensures Valid() && outcome == Returned
      ensures intents == old(intents) + [old(state.navBarItems[k].route)]
      ensures state == AppState(Select(old(state.navBarItems), old(state.navBarItems[k])))
      ensures SelectedExactlyAt(state.navBarItems, k)
      ensures StartDestination(state) == old(state.navBarItems[k].route)
    {
      var item := state.navBarItems[k];
      UniqueRoutesDistinct(state.navBarItems);
      SelectSelectsExactlyTapped(state.navBarItems, item, k);
      outcome := Click(item);
    }
  }

  /**
   * Tapping "Three" selects it and navigates there; tapping it again as
   * re-rendered leaves the state unchanged but still navigates.
   */
  method ReselectScenario()
  {
    var app := new App();
    var o1 := app.TapTab(2);
    assert app.state.navBarItems[2].caption == "Three";
    assert StartDestination(app.state) == Three;
    var after := app.state;
    var o2 := app.TapTab(2);
    ReselectIsIdentity(after.navBarItems, 2);
    assert app.state == after;
    assert app.intents == [Three, Three];
  }
}
