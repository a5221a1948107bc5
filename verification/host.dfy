/** The decisions `src/main.rs` takes between reading the configuration and
    running the event loop: which URL to open, which browsers to hide, and
    which browser a selected list item launches. */
module Host {
  import opened Wrappers
  import opened Strings
  import opened OsShared
  import opened WinBrowsers
  import opened Conf

  /** `std::env::args().nth(1).unwrap_or(config.default_url)`: `args[0]` is
      the program itself. */
  function TargetUrl(args: seq<string>, config: Config): (url: string)
    ensures |args| >= 2 ==> url == args[1]
    ensures |args| < 2 ==> url == config.defaultUrl
  {
    if |args| >= 2 then args[1] else config.defaultUrl
  }

  /** Started without a URL and without a config file, the program opens
      `about:home`; with a config file that names no URL, the empty text. */
  lemma UrlFallback(program: string, v: int)
    requires I16Min <= v <= I16Max
    ensures TargetUrl([program], EffectiveConfig(None)) == "about:home"
    ensures TargetUrl([program], EffectiveConfig(Deserialize(RawConfig(Some(v), None, None)))) == ""
  {
    MissingUrlIsEmpty(v);
  }

  // ---------------------------------------------------------------------
  // Hiding browsers

  /** One hide entry against one browser: a non-empty path matches by
      substring of the executable path, a non-empty name by substring of
      the name; empty fields never match. */
  predicate RuleMatches(rule: HideRule, b: Browser)
  {
    || (rule.path != "" && Contains(b.exePath, rule.path))
    || (rule.name != "" && Contains(b.name, rule.name))
  }

  /** The entry with both fields empty hides nothing. */
  lemma EmptyRuleMatchesNothing(b: Browser)
    ensures !RuleMatches(HideRule("", ""), b)
  {
  }

  /** The fold as the program writes it: each step replaces the accumulator
      by the current entry's verdict. */
  function HiddenAsWritten(rules: seq<HideRule>, b: Browser, acc: bool): (hidden: bool)
    ensures hidden == if |rules| == 0 then acc else RuleMatches(rules[|rules| - 1], b)
    decreases |rules|
  {
    if |rules| == 0 then acc else HiddenAsWritten(rules[1..], b, RuleMatches(rules[0], b))
  }

  /** A browser matched only by the first of two entries stays visible. */
  lemma {:induction false} OnlyLastRuleCounts()
    ensures var b := Browser("edge.exe", [], "Edge", "", DefaultVersionInfo());
      var rules := [HideRule("", "Edge"), HideRule("firefox.exe", "")];
      RuleMatches(rules[0], b) && !HiddenAsWritten(rules, b, false)
  {
    var b := Browser("edge.exe", [], "Edge", "", DefaultVersionInfo());
    assert OccursAt(b.name, "Edge", 0);
  }

  /** The evidently intended rule: any matching entry hides the browser. */
  function Hidden(rules: seq<HideRule>, b: Browser): (hidden: bool)
    ensures hidden <==> exists i :: 0 <= i < |rules| && RuleMatches(rules[i], b)
    decreases |rules|
  {
    if |rules| == 0 then false
    else if RuleMatches(rules[0], b) then true
    else
      var rest := Hidden(rules[1..], b);
      assert rest <==> exists i :: 1 <= i < |rules| && RuleMatches(rules[i], b) by {
        if rest {
          var i :| 0 <= i < |rules[1..]| && RuleMatches(rules[1..][i], b);
          assert rules[i + 1] == rules[1..][i];
        }
      }
      rest
  }

  /** The program hides a subset of what the rules name: whatever it hides
      the intended rule hides too, and both agree for at most one entry. */
  lemma AsWrittenHidesLess(rules: seq<HideRule>, b: Browser)
    ensures HiddenAsWritten(rules, b, false) ==> Hidden(rules, b)
    ensures |rules| <= 1 ==> HiddenAsWritten(rules, b, false) == Hidden(rules, b)
  {
  }

  /** The hide verdict for one browser: the program's fold, or with
      `corrected` the intended any-entry rule. */
  predicate IsHidden(rules: seq<HideRule>, b: Browser, corrected: bool)
  {
    if corrected then Hidden(rules, b) else HiddenAsWritten(rules, b, false)
  }

  /** The `filter` over the browser list: the browsers that stay, in their
      original order.  The program's list is `Visible(browsers, rules, false)`. */
  function Visible(browsers: seq<Browser>, rules: seq<HideRule>, corrected: bool): (r: seq<Browser>)
    ensures |r| <= |browsers|
    ensures forall b :: b in r <==> b in browsers && !IsHidden(rules, b, corrected)
    decreases |browsers|
  {
    if |browsers| == 0 then []
    else
      var rest := Visible(browsers[1..], rules, corrected);
      assert forall b :: b in browsers <==> b == browsers[0] || b in browsers[1..];
      if IsHidden(rules, browsers[0], corrected) then rest else [browsers[0]] + rest
  }

  /** Filtering keeps order: filtering a concatenation concatenates the
      filtered parts. */
  lemma {:induction false} VisibleAppend(a: seq<Browser>, c: seq<Browser>, rules: seq<HideRule>, corrected: bool)
    ensures Visible(a + c, rules, corrected) == Visible(a, rules, corrected) + Visible(c, rules, corrected)
    decreases |a|
  {
    if |a| == 0 {
      assert a + c == c;
    } else {
      assert (a + c)[1..] == a[1..] + c;
      VisibleAppend(a[1..], c, rules, corrected);
    }
  }

  /** An empty hide list keeps every browser. */
  lemma {:induction false} NoRulesKeepAll(browsers: seq<Browser>, corrected: bool)
    ensures Visible(browsers, [], corrected) == browsers
    decreases |browsers|
  {
    if |browsers| > 0 {
      NoRulesKeepAll(browsers[1..], corrected);
    }
  }

  /** The program keeps every browser the intended rule keeps, and possibly
      more. */
  lemma AsWrittenKeepsMore(browsers: seq<Browser>, rules: seq<HideRule>)
    ensures forall b :: b in Visible(browsers, rules, true) ==> b in Visible(browsers, rules, false)
  {
    forall b | b in Visible(browsers, rules, true) ensures b in Visible(browsers, rules, false) {
      AsWrittenHidesLess(rules, b);
    }
  }

  /** The Edge example in the list: the program keeps Edge, which the
      intended rule hides. */
  lemma {:induction false} EdgeStaysListed()
    ensures var b := Browser("edge.exe", [], "Edge", "", DefaultVersionInfo());
      var rules := [HideRule("", "Edge"), HideRule("firefox.exe", "")];
      Visible([b], rules, false) == [b] && Visible([b], rules, true) == []
  {
    var b := Browser("edge.exe", [], "Edge", "", DefaultVersionInfo());
    var rules := [HideRule("", "Edge"), HideRule("firefox.exe", "")];
    OnlyLastRuleCounts();
    assert Hidden(rules, b) by {
      assert RuleMatches(rules[0], b);
    }
    assert [b][1..] == [];
  }

  /** The list items the program shows: every browser its filter keeps,
      converted; the conversion of a Windows browser never fails, so nothing
      else is dropped. */
  function ListItems(browsers: seq<Browser>, rules: seq<HideRule>, hash: string -> string): (items: seq<ListItem>)
    ensures var v := Visible(browsers, rules, false);
      |items| == |v| && forall i :: 0 <= i < |v| ==> items[i].state == v[i] && items[i].uuid == hash(v[i].exePath)
    // each item is the kept browser's `try_into`: its title and subtitle as well
    ensures var v := Visible(browsers, rules, false);
      forall i :: 0 <= i < |items| ==> items[i] == ToListItem(v[i], hash)
  {
    var v := Visible(browsers, rules, false);
    seq(|v|, i requires 0 <= i < |v| => ToListItem(v[i], hash))
  }

  // ---------------------------------------------------------------------
  // Selecting a list item

  /** The position of the first item with the given uuid. */
  function FindUuid(items: seq<ListItem>, uuid: string): (r: Option<nat>)
    ensures r.Some? ==> r.value < |items| && items[r.value].uuid == uuid
                        && forall j :: 0 <= j < r.value ==> items[j].uuid != uuid
    ensures r.None? ==> forall j :: 0 <= j < |items| ==> items[j].uuid != uuid
    decreases |items|
  {
    if |items| == 0 then None
    else if items[0].uuid == uuid then Some(0)
    else
      match FindUuid(items[1..], uuid)
      case None => None
      case Some(k) => Some(k + 1)
  }

  /** The selection handler: launch the first item with the uuid, passing its
      arguments and then the URL; an unknown uuid launches nothing.  The
      `UserEvent::Close` the handler then sends is the `UserEvent` case of
      `EvLoop.HandleEvent`. */
  function OnSelected(items: seq<ListItem>, uuid: string, url: string): (launch: Option<Launch>)
    ensures launch.None? <==> forall j :: 0 <= j < |items| ==> items[j].uuid != uuid
    ensures launch.Some? ==> exists i :: (
      && 0 <= i < |items| && items[i].uuid == uuid
      && (forall j :: 0 <= j < i ==> items[j].uuid != uuid)
      && launch.value == LaunchItem(items[i], url))
  {
    match FindUuid(items, uuid)
    case None => None
    case Some(i) => Some(LaunchItem(items[i], url))
  }
}
