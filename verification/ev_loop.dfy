/** The keyboard and window handling of `src/ui/ev_loop.rs`: one call of
    `handle_ui_event` for one event, given what the window reports (the list,
    the selected index, the predictions).  Its effects are returned: the
    index to select, the browser to start, and whether the loop exits, in
    which case the window is hidden and the UI destroyed.

    `overflowChecks` says how `list length - 1` behaves on an empty list:
    with overflow checks (debug builds) it panics; without them (release
    builds) it wraps to `usize::MAX`, which reads as -1 once cast to
    `isize`. */
module EvLoop {
  import opened Wrappers
  import opened OsShared
  import opened WinBrowsers
  import opened WinUi

  /** The virtual key codes the handler tells apart; `Digit(d)` and
      `Numpad(d)` are `Key0`..`Key9` and `Numpad0`..`Numpad9`. */
  datatype Key = Down | Up | Return | NumpadEnter | Space | Back | Escape
               | Digit(d: int) | Numpad(d: int) | OtherKey

  datatype Event =
    | UserEvent                         // `UserEvent::Close`, sent after a click selection
    | CloseRequested(windowId: nat)
    | Resized
    | KeyboardInput(pressed: bool, key: Option<Key>)
    | OtherEvent

  /** What the handler reads from the UI. */
  datatype UiState = UiState(list: seq<ListItem>, selectedIndex: int, predictions: seq<ListItem>)

  /** What the handler does. */
  datatype Outcome = Outcome(select: Option<int>, launch: Option<Launch>, exit: bool, hidden: bool, destroyed: bool)

  /** `list_number_from_vkey`: keys 1 to 9, on the main row or the keypad,
      name list positions 0 to 8. */
  function ListNumberFromVkey(k: Key): (r: Option<int>)
    ensures r.Some? <==> (k.Digit? || k.Numpad?) && 1 <= k.d <= 9
    ensures r.Some? ==> 0 <= r.value <= 8
  {
    match k
    case Digit(d) => if 1 <= d <= 9 then Some(d - 1) else None
    case Numpad(d) => if 1 <= d <= 9 then Some(d - 1) else None
    case _ => None
  }

  /** Both keys labelled `n + 1` name position `n`, and no two digits share a
      position. */
  lemma DigitKeysAgree(n: int, m: int)
    requires 0 <= n <= 8
    ensures ListNumberFromVkey(Digit(n + 1)) == ListNumberFromVkey(Numpad(n + 1)) == Some(n)
    ensures ListNumberFromVkey(Digit(m)) == Some(n) ==> m == n + 1
  {
  }

  /** `v.clamp(lo, hi)`, which panics when `lo > hi`. */
  function Clamp(v: int, lo: int, hi: int): (r: Result<int>)
    ensures r.Ok? <==> lo <= hi
    ensures r.Err? ==> r.error.Panic?
    ensures r.Ok? ==> lo <= r.value <= hi
    ensures r.Ok? && lo <= v <= hi ==> r.value == v
    ensures r.Ok? && v < lo ==> r.value == lo
    ensures r.Ok? && v > hi ==> r.value == hi
  {
    if lo > hi then Err(Panic("assertion failed: min <= max"))
    else if v < lo then Ok(lo)
    else if v > hi then Ok(hi)
    else Ok(v)
  }

  /** `ui.get_list_length()? - 1` on a `usize`, then `as isize`. */
  function LastIndex(len: nat, overflowChecks: bool): (r: Result<int>)
    ensures len > 0 ==> r == Ok(len - 1)
    ensures len == 0 && overflowChecks ==> r.Err? && r.error.Panic?
    ensures len == 0 && !overflowChecks ==> r == Ok(-1)
  {
    if len > 0 then Ok(len - 1)
    else if overflowChecks then Err(Panic("attempt to subtract with overflow"))
    else Ok(-1)
  }

  datatype Action = Action(select: Option<int>, launch: Option<Launch>, exit: bool)

  const NoAction: Action := Action(None, None, false)
  const ExitAction: Action := Action(None, None, true)

  /** The handler's match on a pressed key, with `last` the list's last
      index as computed above. */
  function KeyAction(k: Key, last: int, ui: UiState, url: string): (r: Result<Action>)
    requires last == |ui.list| - 1
    // an index is only selected within the list
    ensures r.Ok? && r.value.select.Some? ==> 0 <= r.value.select.value < |ui.list|
    // a browser is only started on the way out
    ensures r.Ok? && r.value.launch.Some? ==> r.value.exit
    ensures r.Ok? && r.value.select.Some? ==> !r.value.exit
    ensures k == Down && |ui.list| > 0 ==>
      r.Ok? && r.value.select == Some(if ui.selectedIndex + 1 < 0 then 0 else if ui.selectedIndex + 1 > last then last else ui.selectedIndex + 1)
    ensures k == Up && |ui.list| > 0 ==>
      r.Ok? && r.value.select == Some(if ui.selectedIndex - 1 < 0 then 0 else if ui.selectedIndex - 1 > last then last else ui.selectedIndex - 1)
    ensures (k == Down || k == Up || ListNumberFromVkey(k).Some?) && |ui.list| == 0 ==> r.Err?
    ensures k == Escape ==> r == Ok(ExitAction)
    // digits 1 to 9 select their position, clamped to the list
    ensures ListNumberFromVkey(k).Some? && |ui.list| > 0 ==>
      var pos := ListNumberFromVkey(k).value;
      r == Ok(Action(Some(if pos > last then last else pos), None, false))
    // any other key does nothing
    ensures k.OtherKey? || ((k.Digit? || k.Numpad?) && ListNumberFromVkey(k).None?) ==> r == Ok(NoAction)
    // Enter starts the selected browser; with nothing selected it panics
    ensures (k == Return || k == NumpadEnter) ==>
      (r.Ok? <==> 0 <= ui.selectedIndex < |ui.list|)
      && (r.Ok? ==> r.value == Action(None, Some(LaunchItem(ui.list[ui.selectedIndex], url)), true))
    // Space starts the first prediction, Backspace the second (the first if alone)
    ensures k == Space ==> r == Ok(if |ui.predictions| == 0 then NoAction
                                   else Action(None, Some(LaunchItem(ui.predictions[0], url)), true))
    ensures k == Back ==> r == Ok(if |ui.predictions| == 0 then NoAction
                                  else Action(None, Some(LaunchItem(ui.predictions[if |ui.predictions| >= 2 then 1 else 0], url)), true))
  {
    match k
    case Down =>
      var i :- Clamp(ui.selectedIndex + 1, 0, last);
      Ok(Action(Some(i), None, false))
    case Up =>
      var i :- Clamp(ui.selectedIndex - 1, 0, last);
      Ok(Action(Some(i), None, false))
    case Return => EnterAction(ui, url)
    case NumpadEnter => EnterAction(ui, url)
    case Space =>
      var first := ui.predictions[..if |ui.predictions| < 1 then |ui.predictions| else 1];
      if |first| > 0 then Ok(Action(None, Some(LaunchItem(first[|first| - 1], url)), true)) else Ok(NoAction)
    case Back =>
      var firstTwo := ui.predictions[..if |ui.predictions| < 2 then |ui.predictions| else 2];
      if |firstTwo| > 0 then Ok(Action(None, Some(LaunchItem(firstTwo[|firstTwo| - 1], url)), true)) else Ok(NoAction)
    case Escape => Ok(ExitAction)
    case _ =>
      match ListNumberFromVkey(k)
      case None => Ok(NoAction)
      case Some(pos) =>
        var i :- Clamp(pos, 0, last);
        Ok(Action(Some(i), None, false))
  }

  /** `get_selected_list_item().ok().unwrap().unwrap()`, then start it. */
  function EnterAction(ui: UiState, url: string): (r: Result<Action>)
    ensures r.Ok? <==> 0 <= ui.selectedIndex < |ui.list|
    ensures r.Err? ==> r.error.Panic?
    ensures r.Ok? ==> r.value == Action(None, Some(LaunchItem(ui.list[ui.selectedIndex], url)), true)
  {
    match SelectedListItem(ui.list, ui.selectedIndex)
    case Err(e) => Err(e)
    case Ok(None) => Err(Panic("called `Option::unwrap()` on a `None` value"))
    case Ok(Some(item)) => Ok(Action(None, Some(LaunchItem(item, url)), true))
  }

  /** `handle_ui_event` for the window `windowId`. */
  function HandleEvent(e: Event, windowId: nat, ui: UiState, url: string, overflowChecks: bool): (r: Result<Outcome>)
    // leaving the loop always hides the window and destroys the UI, and nothing else does
    ensures r.Ok? ==> r.value.hidden == r.value.exit && r.value.destroyed == r.value.exit
    ensures e == UserEvent ==> r.Ok? && r.value.exit
    ensures e.CloseRequested? ==> r.Ok? && (r.value.exit <==> e.windowId == windowId)
    ensures e == Resized || e == OtherEvent || (e.KeyboardInput? && !e.pressed) ==>
      r == Ok(Outcome(None, None, false, false, false))
    ensures e.KeyboardInput? && e.pressed && e.key.None? ==> r.Err?
    ensures r.Ok? && r.value.select.Some? ==> 0 <= r.value.select.value < |ui.list|
    ensures r.Ok? && r.value.launch.Some? ==> r.value.exit
    // with overflow checks any key press on an empty list panics
    ensures e.KeyboardInput? && e.pressed && |ui.list| == 0 && overflowChecks ==> r.Err?
    ensures e == KeyboardInput(true, Some(Escape)) && (|ui.list| > 0 || !overflowChecks) ==> r.Ok? && r.value.exit
    // an identified key press does what `KeyAction` says for that key
    ensures e.KeyboardInput? && e.pressed && e.key.Some? && (|ui.list| > 0 || !overflowChecks) ==>
      var a := KeyAction(e.key.value, |ui.list| - 1, ui, url);
      r == if a.Ok? then Ok(Shown(a.value)) else Err(a.error)
  {
    var act :- Dispatch(e, windowId, ui, url, overflowChecks);
    Ok(Shown(act))
  }

  /** The loop's outcome for an action: leaving the loop hides the window
      and destroys the UI. */
  function Shown(a: Action): Outcome
  {
    Outcome(a.select, a.launch, a.exit, a.exit, a.exit)
  }

  function Dispatch(e: Event, windowId: nat, ui: UiState, url: string, overflowChecks: bool): (r: Result<Action>)
    ensures r.Ok? && r.value.select.Some? ==> 0 <= r.value.select.value < |ui.list|
    ensures r.Ok? && r.value.launch.Some? ==> r.value.exit
  {
    match e
    case UserEvent => Ok(ExitAction)
    case CloseRequested(id) => Ok(if id == windowId then ExitAction else NoAction)
    case Resized => Ok(NoAction)
    case OtherEvent => Ok(NoAction)
    case KeyboardInput(pressed, key) =>
      if !pressed then Ok(NoAction)
      else if key.None? then Err(Panic("Couldn't identify pressed key."))
      else
        var last :- LastIndex(|ui.list|, overflowChecks);
        KeyAction(key.value, last, ui, url)
  }

  // ---------------------------------------------------------------------
  // Labels against keys

  /** The titles the prediction list shows. */
  function Titles(items: seq<ListItem>): (ts: seq<string>)
    ensures |ts| == |items| && forall i :: 0 <= i < |items| ==> ts[i] == items[i].title
  {
    seq(|items|, i requires 0 <= i < |items| => items[i].title)
  }

  /** The first two labels name the key that starts their browser. */
  lemma LabelledKeyLaunches(ui: UiState, url: string, windowId: nat, overflowChecks: bool)
    requires |ui.list| > 0 && |ui.predictions| >= 2
    ensures PredictionLabels(Titles(ui.predictions))[0] == ui.predictions[0].title + " (space)"
    ensures HandleEvent(KeyboardInput(true, Some(Space)), windowId, ui, url, overflowChecks)
            == Ok(Outcome(None, Some(LaunchItem(ui.predictions[0], url)), true, true, true))
    ensures PredictionLabels(Titles(ui.predictions))[1] == ui.predictions[1].title + " (backspace)"
    ensures HandleEvent(KeyboardInput(true, Some(Back)), windowId, ui, url, overflowChecks)
            == Ok(Outcome(None, Some(LaunchItem(ui.predictions[1], url)), true, true, true))
  {
  }

  /** From the third prediction on the label also says backspace, but
      backspace starts the second. */
  lemma ThirdLabelMisleads(ui: UiState, url: string, windowId: nat, overflowChecks: bool)
    requires |ui.list| > 0 && |ui.predictions| >= 3
    ensures PredictionLabels(Titles(ui.predictions))[2] == ui.predictions[2].title + " (backspace)"
    ensures HandleEvent(KeyboardInput(true, Some(Back)), windowId, ui, url, overflowChecks).value.launch
            == Some(LaunchItem(ui.predictions[1], url))
  {
  }
}
