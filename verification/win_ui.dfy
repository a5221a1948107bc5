/** The pure helpers of the WinUI window in `src/ui/win.rs`: the colour test
    behind the theme, the monitor under the cursor and where the window is
    centred on it, the shortcut labels of the prediction list, the search
    for a tagged element in the XAML tree, and reading the selected list
    item.  The XAML objects themselves are data here: an element is its tag
    and its children. */
module WinUi {
  import opened Wrappers

  // ---------------------------------------------------------------------
  // Colours and theme

  type U8 = x: int | 0 <= x < 0x100

  /** `Windows.UI.Color`. */
  datatype Color = Color(a: U8, r: U8, g: U8, b: U8)

  /** `is_light_color`: weighted luminance `5g + 2r + b` above `8 * 128`. */
  predicate IsLightColor(c: Color)
  {
    5 * c.g + 2 * c.r + c.b > 8 * 128
  }

  /** More of every channel is at least as light; transparency plays no part. */
  lemma LightMonotone(c: Color, d: Color)
    requires c.r <= d.r && c.g <= d.g && c.b <= d.b
    ensures IsLightColor(c) ==> IsLightColor(d)
    ensures IsLightColor(c) == IsLightColor(c.(a := d.a))
  {
  }

  /** Opaque white is light, opaque black is not, and mid grey (128 on
      every channel) sits exactly on the boundary and counts as dark. */
  lemma LightExamples()
    ensures IsLightColor(Color(255, 255, 255, 255))
    ensures !IsLightColor(Color(255, 0, 0, 0))
    ensures !IsLightColor(Color(255, 128, 128, 128)) && IsLightColor(Color(255, 128, 129, 128))
  {
  }

  datatype Theme = Theme(white: Color, black: Color, lightGray: Color, darkGray: Color, accent: Color)

  /** `create_theme` from the system's foreground, background and accent:
      both greys are the foreground with a new alpha, and the dark grey is
      more opaque when the foreground is light (the system is in dark mode). */
  function CreateTheme(fg: Color, bg: Color, accent: Color): (t: Theme)
    ensures t.white == bg && t.black == fg && t.accent == accent
    ensures t.lightGray.(a := fg.a) == fg && t.darkGray.(a := fg.a) == fg
    ensures t.lightGray.a == 20
    ensures t.darkGray.a == 140 <==> IsLightColor(fg)
    ensures t.darkGray.a == 200 <==> !IsLightColor(fg)
  {
    var dark := if IsLightColor(fg) then 140 else 200;
    Theme(bg, fg, fg.(a := 20), fg.(a := dark), accent)
  }

  /** The light grey is always the more transparent of the two. */
  lemma GraysOrdered(fg: Color, bg: Color, accent: Color)
    ensures CreateTheme(fg, bg, accent).lightGray.a < CreateTheme(fg, bg, accent).darkGray.a
  {
  }

  // ---------------------------------------------------------------------
  // Centring the window on the cursor's monitor

  datatype Point = Point(x: int, y: int)
  datatype Monitor = Monitor(x: int, y: int, width: nat, height: nat)

  /** Borders included on all four sides. */
  predicate MonitorContains(m: Monitor, p: Point)
  {
    m.x <= p.x <= m.x + m.width && m.y <= p.y <= m.y + m.height
  }

  /** `available_monitors().find(..)`: the first monitor holding the cursor. */
  function CursorMonitor(monitors: seq<Monitor>, cursor: Point): (r: Result<Monitor>)
    ensures r.Err? <==> forall i :: 0 <= i < |monitors| ==> !MonitorContains(monitors[i], cursor)
    ensures r.Err? ==> r.error == Failure("Could not determine monitor from the current cursor")
    ensures r.Ok? ==> exists i :: (0 <= i < |monitors| && monitors[i] == r.value
                                   && MonitorContains(r.value, cursor)
                                   && forall j :: 0 <= j < i ==> !MonitorContains(monitors[j], cursor))
    decreases |monitors|
  {
    if |monitors| == 0 then Err(Failure("Could not determine monitor from the current cursor"))
    else if MonitorContains(monitors[0], cursor) then Ok(monitors[0])
    else
      var r := CursorMonitor(monitors[1..], cursor);
      if r.Ok? then
        var i :| 0 <= i < |monitors[1..]| && monitors[1..][i] == r.value && MonitorContains(r.value, cursor)
                 && forall j :: 0 <= j < i ==> !MonitorContains(monitors[1..][j], cursor);
        assert monitors[i + 1] == r.value;
        assert forall j :: 1 <= j < i + 1 ==> monitors[j] == monitors[1..][j - 1];
        r
      else
        assert forall j :: 1 <= j < |monitors| ==> monitors[j] == monitors[1..][j - 1];
        r
  }

  /** A cursor on the edge two side-by-side monitors share picks the one
      listed first. */
  lemma SharedEdgePicksFirst()
    ensures CursorMonitor([Monitor(0, 0, 1920, 1080), Monitor(1920, 0, 1920, 1080)], Point(1920, 500))
            == Ok(Monitor(0, 0, 1920, 1080))
  {
  }

  /** Rust's `a / 2` on `i32`, which rounds toward zero. */
  function HalfTowardZero(a: int): (q: int)
    ensures -2 < a - 2 * q < 2
    ensures a >= 0 ==> a - 2 * q >= 0
    ensures a < 0 ==> a - 2 * q <= 0
  {
    if a >= 0 then a / 2 else -((-a) / 2)
  }

  /** `center_window_on_cursor_monitor` as written: the monitor's centre is
      taken as `(position + size) / 2`. */
  function CenterAsWritten(m: Monitor, width: nat, height: nat): (p: Point)
    // per axis: half of position plus size, less half the window, exactly
    // when the sum is not negative and within rounding otherwise
    ensures m.x + m.width >= 0 ==> p.x == (m.x + m.width) / 2 - width / 2
    ensures m.y + m.height >= 0 ==> p.y == (m.y + m.height) / 2 - height / 2
    ensures -2 < (m.x + m.width) - 2 * (p.x + width / 2) < 2
    ensures -2 < (m.y + m.height) - 2 * (p.y + height / 2) < 2
  {
    Point(HalfTowardZero(m.x + m.width) - width / 2, HalfTowardZero(m.y + m.height) - height / 2)
  }

  /** On a monitor at the origin the formula is right; on the second of two
      side-by-side monitors the window is placed at the shared edge and
      starts on the first monitor. */
  lemma CenterAsWrittenOffMonitor()
    ensures CenterAsWritten(Monitor(0, 0, 1920, 1080), 400, 400) == Point(760, 340)
    ensures var m := Monitor(1920, 0, 1920, 1080);
      CenterAsWritten(m, 400, 400) == Point(1720, 340) && CenterAsWritten(m, 400, 400).x < m.x
  {
  }

  /** The evidently intended origin: `position + size / 2 - window / 2`. */
  function Center(m: Monitor, width: nat, height: nat): (p: Point)
    ensures width <= m.width ==> m.x <= p.x && p.x + width <= m.x + m.width
    ensures height <= m.height ==> m.y <= p.y && p.y + height <= m.y + m.height
    // the margins left and right (top and bottom) differ by at most one pixel
    ensures -1 <= (m.x + m.width - (p.x + width)) - (p.x - m.x) <= 1
    ensures -1 <= (m.y + m.height - (p.y + height)) - (p.y - m.y) <= 1
  {
    Point(m.x + m.width / 2 - width / 2, m.y + m.height / 2 - height / 2)
  }

  /** Both formulas agree for the monitor at the origin. */
  lemma CenterAgreesAtOrigin(m: Monitor, width: nat, height: nat)
    requires m.x == 0 && m.y == 0
    ensures CenterAsWritten(m, width, height) == Center(m, width, height)
  {
  }

  // ---------------------------------------------------------------------
  // Prediction labels

  const ShortcutKeys: seq<string> := ["space", "backspace"]

  /** `key_shortcuts.iter().take(index + 1).last()`. */
  function ShortcutKey(index: nat): (key: string)
    ensures key == ShortcutKeys[if index < |ShortcutKeys| then index else |ShortcutKeys| - 1]
  {
    ShortcutKeys[..if index + 1 < |ShortcutKeys| then index + 1 else |ShortcutKeys|][
      (if index + 1 < |ShortcutKeys| then index + 1 else |ShortcutKeys|) - 1]
  }

  /** `prediction_set_state`'s text for each prediction: its title and, in
      parentheses, the key said to launch it. */
  function PredictionLabels(titles: seq<string>): (labels: seq<string>)
    ensures |labels| == |titles|
    ensures |titles| > 0 ==> labels[0] == titles[0] + " (space)"
    ensures forall i :: 1 <= i < |titles| ==> labels[i] == titles[i] + " (backspace)"
  {
    seq(|titles|, i requires 0 <= i < |titles| => titles[i] + " (" + ShortcutKey(i) + ")")
  }

  // ---------------------------------------------------------------------
  // recursive_find_child_by_tag

  /** A `FrameworkElement`'s tag: unset, a string, or some other value. */
  datatype Tag = NoTag | StringTag(s: string) | OtherTag

  /** An element: its tag, whether it is a `Panel`, and its children. */
  datatype Element = Element(tag: Tag, isPanel: bool, children: seq<Element>)

  /** The tag as the search compares it: anything but a string tag reads as
      the empty text. */
  function TagText(t: Tag): (s: string)
    ensures t.StringTag? ==> s == t.s
    ensures !t.StringTag? ==> s == ""
  {
    if t.StringTag? then t.s else ""
  }

  /** The search below the children `cs`: for each child in turn, first its
      own subtree (when it is a panel), then the child itself. */
  function FindIn(cs: seq<Element>, needle: string): (r: Option<Element>)
    ensures r.Some? ==> TagText(r.value.tag) == needle
    decreases cs
  {
    if |cs| == 0 then None
    else
      var below := if cs[0].isPanel then FindIn(cs[0].children, needle) else None;
      if below.Some? then below
      else if TagText(cs[0].tag) == needle then Some(cs[0])
      else FindIn(cs[1..], needle)
  }

  /** `recursive_find_child_by_tag` on a root: a root that is not a panel is
      an error; the root's own tag is never looked at. */
  function FindByTag(root: Element, needle: string): (r: Result<Option<Element>>)
    ensures r.Err? <==> !root.isPanel
    ensures r.Ok? ==> r.value.Some? ==> TagText(r.value.value.tag) == needle
  {
    if !root.isPanel then
      Err(Failure("Parent given could not be cast to WinUI Panel. Check the given control inherits from Panel."))
    else Ok(FindIn(root.children, needle))
  }

  /** The root's tag does not matter. */
  lemma RootTagIgnored(root: Element, t: Tag, needle: string)
    ensures FindByTag(root.(tag := t), needle) == FindByTag(root, needle)
  {
  }

  /** The proper descendants below `cs`, each subtree before its root. */
  function PostOrder(cs: seq<Element>): seq<Element>
    decreases cs
  {
    if |cs| == 0 then []
    else (if cs[0].isPanel then PostOrder(cs[0].children) else []) + [cs[0]] + PostOrder(cs[1..])
  }

  /** The first element of a list whose tag text is `needle`. */
  function FirstTagged(es: seq<Element>, needle: string): (r: Option<Element>)
    ensures r.Some? ==> r.value in es && TagText(r.value.tag) == needle
    ensures r.None? ==> forall i :: 0 <= i < |es| ==> TagText(es[i].tag) != needle
  {
    if |es| == 0 then None
    else if TagText(es[0].tag) == needle then Some(es[0])
    else FirstTagged(es[1..], needle)
  }

  lemma {:induction false} FirstTaggedAppend(a: seq<Element>, b: seq<Element>, needle: string)
    ensures FirstTagged(a + b, needle) == if FirstTagged(a, needle).Some? then FirstTagged(a, needle)
                                           else FirstTagged(b, needle)
    decreases |a|
  {
    if |a| == 0 {
      assert a + b == b;
    } else {
      assert (a + b)[1..] == a[1..] + b;
      FirstTaggedAppend(a[1..], b, needle);
    }
  }

  /** The search returns the first match of the post-order walk. */
  lemma {:induction false} FindInIsFirstPostOrder(cs: seq<Element>, needle: string)
    ensures FindIn(cs, needle) == FirstTagged(PostOrder(cs), needle)
    decreases cs
  {
    if |cs| > 0 {
      var sub := if cs[0].isPanel then PostOrder(cs[0].children) else [];
      if cs[0].isPanel {
        FindInIsFirstPostOrder(cs[0].children, needle);
      }
      FindInIsFirstPostOrder(cs[1..], needle);
      FirstTaggedAppend(sub + [cs[0]], PostOrder(cs[1..]), needle);
      FirstTaggedAppend(sub, [cs[0]], needle);
    }
  }

  /** An element without a string tag matches the empty needle. */
  lemma UntaggedMatchesEmpty(e: Element)
    requires !e.isPanel && !e.tag.StringTag?
    ensures FindByTag(Element(StringTag("root"), true, [e]), "") == Ok(Some(e))
  {
  }

  // ---------------------------------------------------------------------
  // The predictions list panel

  const ListPanelLookupTag: string := "predictions_list_panel"

  /** One `prediction_set_state` on the predictions panel's children: when no
      list panel is found, a new one tagged `created` is appended.  The
      program searches the whole window container; the two searches agree
      as long as the lookup tag occurs nowhere outside the predictions panel,
      and `src/ui/win.rs` never gives that tag to any element. */
  function EnsureListPanel(children: seq<Element>, created: string): (r: seq<Element>)
    ensures FindIn(children, ListPanelLookupTag).Some? ==> r == children
    ensures FindIn(children, ListPanelLookupTag).None? ==>
      r == children + [Element(StringTag(created), true, [])]
  {
    if FindIn(children, ListPanelLookupTag).Some? then children
    else children + [Element(StringTag(created), true, [])]
  }

  /** As written the panel is created with the tag `prediction_list_panel`,
      which the lookup for `predictions_list_panel` never finds: every call
      appends one more panel. */
  lemma ListPanelAsWrittenGrows()
    ensures var once := EnsureListPanel([], "prediction_list_panel");
      |EnsureListPanel(once, "prediction_list_panel")| == 2
  {
    var once := EnsureListPanel([], "prediction_list_panel");
    assert FindIn(once[0].children, ListPanelLookupTag) == None;
    assert FindIn(once[1..], ListPanelLookupTag) == None;
  }

  /** With the lookup tag used for the new panel, the step is idempotent:
      the second call finds the panel the first one created. */
  lemma {:induction false} ListPanelCorrectedStable(children: seq<Element>)
    ensures var once := EnsureListPanel(children, ListPanelLookupTag);
      EnsureListPanel(once, ListPanelLookupTag) == once
  {
    var once := EnsureListPanel(children, ListPanelLookupTag);
    if FindIn(children, ListPanelLookupTag).None? {
      var panel := Element(StringTag(ListPanelLookupTag), true, []);
      FindInIsFirstPostOrder(children, ListPanelLookupTag);
      FindInIsFirstPostOrder(once, ListPanelLookupTag);
      PostOrderAppend(children, [panel]);
      FirstTaggedAppend(PostOrder(children), PostOrder([panel]), ListPanelLookupTag);
      assert PostOrder([panel]) == [panel];
    }
  }

  lemma {:induction false} PostOrderAppend(a: seq<Element>, b: seq<Element>)
    ensures PostOrder(a + b) == PostOrder(a) + PostOrder(b)
    decreases |a|
  {
    if |a| == 0 {
      assert a + b == b;
    } else {
      assert (a + b)[1..] == a[1..] + b;
      assert (a + b)[0] == a[0];
      PostOrderAppend(a[1..], b);
    }
  }

  // ---------------------------------------------------------------------
  // get_selected_list_item

  /** A negative selected index means no selection; an index past the list
      panics on the slice access. */
  function SelectedListItem<T>(list: seq<T>, index: int): (r: Result<Option<T>>)
    ensures index < 0 <==> r == Ok(None)
    ensures r.Err? <==> index >= |list|
    ensures r.Err? ==> r.error.Panic?
    ensures 0 <= index < |list| ==> r == Ok(Some(list[index]))
  {
    if index < 0 then Ok(None)
    else if index >= |list| then Err(Panic("index out of bounds"))
    else Ok(Some(list[index]))
  }
}
