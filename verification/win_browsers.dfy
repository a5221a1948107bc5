/** The browser-list normalisation of `src/os/win/sys_browsers.rs`: the
    registry's `shell\open\command` values are sorted and de-duplicated, each
    is split into an executable path and its arguments, and each browser's
    version record is turned into the list item the window shows.

    The registry, the file-version API and `GetBinaryTypeW` are inputs: what
    they return is a parameter of the functions below. */
module WinBrowsers {
  import opened Wrappers
  import opened Strings
  import opened OsShared

  /** What one registry key under `StartMenuInternet` yields. */
  datatype RegBrowser = RegBrowser(name: string, exePath: string, icon: string)

  /** `Browser` once its command line is split and its version read. */
  datatype Browser = Browser(exePath: string, arguments: seq<string>, name: string, icon: string,
                             version: VersionInfo)

  // ---------------------------------------------------------------------
  // WinExePath::from

  datatype ExePath = ExePath(path: string, args: seq<string>)

  /** A command line such as `"C:\Path\To\Exe" --arg1 --arg2`: with at least
      three pieces between double quotes, the second piece is the path and
      the third, trimmed and split on single spaces, the arguments. */
  function ParseExePath(s: string): (r: ExePath)
    ensures Count(s, '"') < 2 ==> r == ExePath(s, [])
    ensures Count(s, '"') >= 2 ==> '"' !in r.path
    ensures forall i :: 0 <= i < |r.args| ==> ' ' !in r.args[i]
  {
    SplitCount(s, '"');
    var parts := Split(s, '"');
    if |parts| >= 3 then
      var argsPart := parts[2];
      var args := if |argsPart| > 0 then Split(Trim(argsPart), ' ') else [];
      ExePath(parts[1], args)
    else ExePath(s, [])
  }

  lemma JoinHead(parts: seq<string>, sep: string)
    requires |parts| >= 2
    ensures Join(parts, sep) == parts[0] + sep + Join(parts[1..], sep)
  {
  }

  /** `s` is `pre"path"mid` followed by `post`, where neither `pre` nor `mid`
      holds a double quote and `post` is empty or starts with one; the
      arguments are `mid`, trimmed and split on spaces. */
  predicate QuotedShape(s: string, r: ExePath, pre: string, mid: string, post: string)
  {
    && s == pre + "\"" + r.path + "\"" + mid + post
    && '"' !in pre && '"' !in mid && (post == "" || post[0] == '"')
    && r.args == (if |mid| > 0 then Split(Trim(mid), ' ') else [])
  }

  /** The shape of a quoted command line: the path is the text between the
      first and second double quote; the arguments come from the text between
      the second and the third (or the end); whatever follows a third quote
      is dropped.  Re-joining the arguments with spaces gives the trimmed
      argument text back. */
  lemma {:induction false} ExePathShape(s: string)
    requires Count(s, '"') >= 2
    ensures exists pre, mid, post :: (QuotedShape(s, ParseExePath(s), pre, mid, post)
                                      && (|mid| > 0 ==> Join(ParseExePath(s).args, " ") == Trim(mid)))
  {
    SplitCount(s, '"');
    var parts := Split(s, '"');
    var r := ParseExePath(s);
    var pre, mid := parts[0], parts[2];
    var post := if |parts| == 3 then "" else "\"" + Join(parts[3..], "\"");
    QuotedPieces(s, parts, post);
    assert QuotedShape(s, r, pre, mid, post);
    if |mid| > 0 {
      JoinSplit(Trim(mid), ' ');
    }
  }

  /** A text split at double quotes into three or more pieces is the first
      piece, a quote, the second, a quote, the third, and the rest. */
  lemma QuotedPieces(s: string, parts: seq<string>, post: string)
    requires parts == Split(s, '"') && |parts| >= 3
    requires post == if |parts| == 3 then "" else "\"" + Join(parts[3..], "\"")
    ensures s == parts[0] + "\"" + parts[1] + "\"" + parts[2] + post
  {
    var q := "\"";
    JoinSplit(s, '"');
    JoinHead(parts, q);
    JoinHead(parts[1..], q);
    assert parts[1..][1..] == parts[2..];
    if |parts| > 3 {
      JoinHead(parts[2..], q);
      assert parts[2..][1..] == parts[3..];
    }
    assert Join(parts[2..], q) == parts[2] + post;
  }

  // ---------------------------------------------------------------------
  // sort_unstable_by_key(exe_path) followed by dedup_by(exe_path)

  /** Non-strict order of registry paths: `a` does not come after `b`. */
  predicate AtMost(a: string, b: string)
  {
    !Less(b, a)
  }

  lemma AtMostTransitive(a: string, b: string, c: string)
    requires AtMost(a, b) && AtMost(b, c)
    ensures AtMost(a, c)
  {
    LessTotal(a, b);
    LessTotal(b, c);
    if Less(c, a) {
      if a == b {
      } else if b == c {
      } else {
        LessTransitive(a, b, c);
        LessTransitive(c, a, b);
        LessIrreflexive(c);
      }
    }
  }

  lemma LessAsymmetric(a: string, b: string)
    requires Less(a, b)
    ensures AtMost(a, b)
  {
    if Less(b, a) {
      LessTransitive(a, b, a);
      LessIrreflexive(a);
    }
  }

  lemma LessAtMost(a: string, b: string, c: string)
    requires Less(a, b) && AtMost(b, c)
    ensures Less(a, c)
  {
    LessTotal(b, c);
    if b != c {
      LessTransitive(a, b, c);
    }
  }

  predicate Nondecreasing(s: seq<RegBrowser>)
  {
    forall i, j :: 0 <= i < j < |s| ==> AtMost(s[i].exePath, s[j].exePath)
  }

  predicate Ascending(s: seq<RegBrowser>)
  {
    forall i, j :: 0 <= i < j < |s| ==> Less(s[i].exePath, s[j].exePath)
  }

  function InsertByPath(x: RegBrowser, s: seq<RegBrowser>): (r: seq<RegBrowser>)
    requires Nondecreasing(s)
    ensures Nondecreasing(r)
    ensures multiset(r) == multiset(s) + multiset{x}
    decreases |s|
  {
    if |s| == 0 then [x]
    else if AtMost(x.exePath, s[0].exePath) then
      InsertFront(x, s);
      [x] + s
    else
      var r := InsertByPath(x, s[1..]);
      InsertLater(x, s, r);
      [s[0]] + r
  }

  /** An entry no larger than the first goes in front. */
  lemma InsertFront(x: RegBrowser, s: seq<RegBrowser>)
    requires Nondecreasing(s) && |s| > 0 && AtMost(x.exePath, s[0].exePath)
    ensures Nondecreasing([x] + s)
    ensures multiset([x] + s) == multiset(s) + multiset{x}
  {
    forall j | 0 <= j < |s| ensures AtMost(x.exePath, s[j].exePath) {
      if j > 0 {
        AtMostTransitive(x.exePath, s[0].exePath, s[j].exePath);
      }
    }
  }

  /** An entry larger than the first goes into the rest, behind the first. */
  lemma InsertLater(x: RegBrowser, s: seq<RegBrowser>, r: seq<RegBrowser>)
    requires Nondecreasing(s) && |s| > 0 && !AtMost(x.exePath, s[0].exePath)
    requires Nondecreasing(r) && multiset(r) == multiset(s[1..]) + multiset{x}
    ensures Nondecreasing([s[0]] + r)
    ensures multiset([s[0]] + r) == multiset(s) + multiset{x}
  {
    LessTotal(x.exePath, s[0].exePath);
    LessAsymmetric(s[0].exePath, x.exePath);
    forall y | y in r ensures AtMost(s[0].exePath, y.exePath) {
      assert y in multiset(r);
      if y != x {
        var j :| 0 <= j < |s[1..]| && s[1..][j] == y;
        assert s[j + 1] == y;
      }
    }
    assert s == [s[0]] + s[1..];
  }

  function SortByPath(s: seq<RegBrowser>): (r: seq<RegBrowser>)
    ensures Nondecreasing(r)
    ensures multiset(r) == multiset(s)
    decreases |s|
  {
    if |s| == 0 then []
    else
      assert s == [s[0]] + s[1..];
      InsertByPath(s[0], SortByPath(s[1..]))
  }

  /** The command lines a list holds. */
  function Paths(s: seq<RegBrowser>): set<string>
  {
    set x | x in s :: x.exePath
  }

  lemma PathsCons(x: RegBrowser, t: seq<RegBrowser>)
    ensures Paths([x] + t) == {x.exePath} + Paths(t)
  {
    assert forall y :: y in [x] + t <==> y == x || y in t;
  }

  /** Keeps the first of each run of entries with equal paths. */
  function Dedup(s: seq<RegBrowser>): (r: seq<RegBrowser>)
    requires Nondecreasing(s)
    ensures Ascending(r)
    ensures forall y :: y in r ==> y in s
    ensures Paths(r) == Paths(s)
    ensures |s| > 0 ==> |r| > 0 && r[0] == s[0]
    decreases |s|
  {
    if |s| <= 1 then s
    else if s[0].exePath == s[1].exePath then
      var t := [s[0]] + s[2..];
      assert s == [s[0]] + ([s[1]] + s[2..]);
      PathsCons(s[0], [s[1]] + s[2..]);
      PathsCons(s[1], s[2..]);
      PathsCons(s[0], s[2..]);
      Dedup(t)
    else
      var d := Dedup(s[1..]);
      DedupCons(s, d);
      [s[0]] + d
  }

  /** The first entry stays in front of the de-duplicated rest when the
      second has another path. */
  lemma DedupCons(s: seq<RegBrowser>, d: seq<RegBrowser>)
    requires Nondecreasing(s) && |s| > 1 && s[0].exePath != s[1].exePath
    requires Ascending(d) && (forall y :: y in d ==> y in s[1..]) && Paths(d) == Paths(s[1..])
    requires |d| > 0 && d[0] == s[1]
    ensures Ascending([s[0]] + d)
    ensures forall y :: y in [s[0]] + d ==> y in s
    ensures Paths([s[0]] + d) == Paths(s)
  {
    LessTotal(s[0].exePath, s[1].exePath);
    forall y | y in d ensures Less(s[0].exePath, y.exePath) {
      var j :| 0 <= j < |s[1..]| && s[1..][j] == y;
      assert s[j + 1] == y;
      if j > 0 {
        LessAtMost(s[0].exePath, s[1].exePath, y.exePath);
      }
    }
    assert s == [s[0]] + s[1..];
    PathsCons(s[0], s[1..]);
    PathsCons(s[0], d);
  }

  /** The browser list after sorting and de-duplicating: ascending, pairwise
      distinct paths; nothing invented; every registered path still present. */
  function SortDedup(list: seq<RegBrowser>): (r: seq<RegBrowser>)
    ensures Ascending(r)
    ensures forall y :: y in r ==> y in list
    ensures Paths(r) == Paths(list)
  {
    var sorted := SortByPath(list);
    assert forall x :: x in list <==> x in sorted by {
      forall x ensures x in list <==> x in sorted {
        assert x in list <==> x in multiset(list);
        assert x in sorted <==> x in multiset(sorted);
      }
    }
    Dedup(sorted)
  }

  /** Ascending paths are pairwise distinct. */
  lemma AscendingDistinct(s: seq<RegBrowser>, i: nat, j: nat)
    requires Ascending(s) && i < j < |s|
    ensures s[i].exePath != s[j].exePath
  {
    LessIrreflexive(s[i].exePath);
  }

  /** `read_system_browsers_sync` after the registry reads: sort, de-duplicate,
      then split each command line; `info` stands for the version lookup,
      which leaves the default record when it fails. */
  function Normalise(list: seq<RegBrowser>, info: string -> Option<VersionInfo>): (r: seq<Browser>)
    ensures var d := SortDedup(list);
      && |r| == |d|
      && forall i :: 0 <= i < |r| ==>
           r[i].exePath == ParseExePath(d[i].exePath).path && r[i].arguments == ParseExePath(d[i].exePath).args
           && r[i].name == d[i].name && r[i].icon == d[i].icon
           // the version read from the split path, or the default record when the read fails
           && r[i].version == info(r[i].exePath).GetOr(DefaultVersionInfo())
  {
    var d := SortDedup(list);
    seq(|d|, i requires 0 <= i < |d| =>
      var p := ParseExePath(d[i].exePath);
      Browser(p.path, p.args, d[i].name, d[i].icon, info(p.path).GetOr(DefaultVersionInfo())))
  }

  lemma SplitCons(ch: char, t: string, c: char)
    ensures Split([ch] + t, c) == if ch == c then [""] + Split(t, c)
                                  else [[ch] + Split(t, c)[0]] + Split(t, c)[1..]
  {
    assert ([ch] + t)[1..] == t;
  }

  /** De-duplication compares whole command lines, before they are split:
      two registrations of the same executable with different arguments
      both survive. */
  lemma DedupBeforeSplit(info: string -> Option<VersionInfo>)
    ensures var r := Normalise([RegBrowser("A", "\"a\"", ""), RegBrowser("B", "\"a\" -x", "")], info);
      |r| == 2 && r[0].exePath == r[1].exePath == "a" && r[0].arguments == [] && r[1].arguments == ["-x"]
  {
    var a := RegBrowser("A", "\"a\"", "");
    var b := RegBrowser("B", "\"a\" -x", "");
    KeptBoth(a, b);
    ParseBare();
    ParseWithArgument();
  }

  /** A proper prefix comes first. */
  lemma {:induction false} PrefixLess(a: string, b: string)
    requires |a| < |b| && b[..|a|] == a
    ensures Less(a, b)
    decreases |a|
  {
    if |a| > 0 {
      assert b[1..][..|a| - 1] == a[1..];
      PrefixLess(a[1..], b[1..]);
    }
  }

  lemma KeptBoth(a: RegBrowser, b: RegBrowser)
    requires a.exePath == "\"a\"" && b.exePath == "\"a\" -x"
    ensures SortDedup([a, b]) == [a, b]
  {
    assert b.exePath[..|a.exePath|] == a.exePath;
    PrefixLess(a.exePath, b.exePath);
    LessAsymmetric(a.exePath, b.exePath);
    assert [a, b][1..] == [b];
    assert SortByPath([b]) == [b];
    assert SortByPath([a, b]) == [a, b];
    assert Dedup([b]) == [b];
    assert Dedup([a, b]) == [a, b];
  }

  lemma ParseBare()
    ensures ParseExePath("\"a\"") == ExePath("a", [])
  {
    SplitCons('"', "", '"');
    SplitCons('a', "\"", '"');
    SplitCons('"', "a\"", '"');
  }

  lemma TrimDash()
    ensures Trim(" -x") == "-x"
  {
    assert IsWhitespace(' ') && !IsWhitespace('-') && !IsWhitespace('x');
    assert " -x"[1..] == "-x";
    assert TrimStart("-x") == "-x";
    assert TrimStart(" -x") == "-x";
    assert TrimEnd("-x") == "-x";
  }

  lemma ParseWithArgument()
    ensures ParseExePath("\"a\" -x") == ExePath("a", ["-x"])
  {
    var parts := ["", "a", " -x"];
    assert parts[1..] == ["a", " -x"] && parts[1..][1..] == [" -x"];
    assert Join(parts, "\"") == "\"a\" -x";
    SplitJoin(parts, '"');
    TrimDash();
    SplitJoin(["-x"], ' ');
  }



  // ---------------------------------------------------------------------
  // The list item: title and subtitle

  /** The fields that are not empty, in order. */
  function NonEmpty(fields: seq<string>): (r: seq<string>)
    ensures forall i :: 0 <= i < |r| ==> |r[i]| > 0
    ensures |r| == 0 <==> forall i :: 0 <= i < |fields| ==> fields[i] == ""
    decreases |fields|
  {
    if |fields| == 0 then []
    else if |fields[0]| > 0 then [fields[0]] + NonEmpty(fields[1..])
    else
      assert forall i :: 1 <= i < |fields| ==> fields[i] == fields[1..][i - 1];
      NonEmpty(fields[1..])
  }

  /** The filter keeps exactly the non-empty fields. */
  lemma {:induction false} NonEmptyMembers(fields: seq<string>)
    ensures forall x :: x in NonEmpty(fields) <==> x in fields && x != ""
    decreases |fields|
  {
    if |fields| > 0 {
      NonEmptyMembers(fields[1..]);
      assert forall x :: x in fields <==> x == fields[0] || x in fields[1..];
    }
  }

  /** A field as it contributes to the subtitle: itself, or nothing when empty. */
  function Kept(x: string): seq<string>
  {
    if x == "" then [] else [x]
  }

  /** Filtering keeps the order of the fields: filtering a concatenation
      concatenates the filtered parts. */
  lemma {:induction false} NonEmptyAppend(a: seq<string>, b: seq<string>)
    ensures NonEmpty(a + b) == NonEmpty(a) + NonEmpty(b)
    decreases |a|
  {
    if |a| == 0 {
      assert a + b == b;
    } else {
      assert (a + b)[1..] == a[1..] + b;
      NonEmptyAppend(a[1..], b);
    }
  }

  /** Filtering peels off the first field. */
  lemma NonEmptyHead(fields: seq<string>)
    requires |fields| > 0
    ensures NonEmpty(fields) == Kept(fields[0]) + NonEmpty(fields[1..])
  {
  }

  /** Four fields filtered: each present field, in order, and nothing else. */
  lemma NonEmptyFour(f: seq<string>)
    requires |f| == 4
    ensures NonEmpty(f) == Kept(f[0]) + (Kept(f[1]) + (Kept(f[2]) + Kept(f[3])))
  {
    var t3 := NonEmpty(f[3..]);
    NonEmptyHead(f[3..]);
    assert f[3..][1..] == [];
    assert t3 == Kept(f[3]);
    NonEmptyHead(f[2..]);
    assert f[2..][1..] == f[3..];
    var t2 := NonEmpty(f[2..]);
    assert t2 == Kept(f[2]) + t3;
    NonEmptyHead(f[1..]);
    assert f[1..][1..] == f[2..];
    var t1 := NonEmpty(f[1..]);
    assert t1 == Kept(f[1]) + t2;
    NonEmptyHead(f);
    assert NonEmpty(f) == Kept(f[0]) + t1;
  }

  /** The subtitle under a browser's name: version, bitness, company and
      description, the empty ones left out, separated by `" | "`. */
  function Subtitle(v: VersionInfo): (s: string)
    ensures s == "" <==> v.productVersion == "" && v.binaryType == NoBinaryType
                         && v.companyName == "" && v.fileDescription == ""
    // exactly the present fields appear, in source order, between separators
    ensures s == Join(Kept(v.productVersion) + (Kept(Display(v.binaryType)) + (Kept(v.companyName)
                        + Kept(v.fileDescription))), " | ")
  {
    var fields := [v.productVersion, Display(v.binaryType), v.companyName, v.fileDescription];
    var parts := NonEmpty(fields);
    assert (forall i :: 0 <= i < |fields| ==> fields[i] == "")
       <==> fields[0] == "" && fields[1] == "" && fields[2] == "" && fields[3] == "";
    JoinEmpty(parts, " | ");
    NonEmptyFour(fields);
    Join(parts, " | ")
  }

  /** Joining non-empty pieces gives the empty text only for no pieces. */
  lemma JoinEmpty(parts: seq<string>, sep: string)
    requires forall i :: 0 <= i < |parts| ==> |parts[i]| > 0
    ensures Join(parts, sep) == "" <==> |parts| == 0
  {
    if |parts| >= 2 {
      JoinHead(parts, sep);
    }
  }

  /** With every field present the subtitle lists all four. */
  lemma SubtitleAllFields(v: VersionInfo)
    requires v.productVersion != "" && v.binaryType != NoBinaryType
    requires v.companyName != "" && v.fileDescription != ""
    ensures Subtitle(v) == v.productVersion + " | " + Display(v.binaryType) + " | " + v.companyName
                           + " | " + v.fileDescription
  {
    var fields := [v.productVersion, Display(v.binaryType), v.companyName, v.fileDescription];
    NonEmptyKeepsAll(fields);
    JoinFour(fields, " | ");
  }

  /** With no empty field, nothing is filtered out. */
  lemma {:induction false} NonEmptyKeepsAll(fields: seq<string>)
    requires forall i :: 0 <= i < |fields| ==> |fields[i]| > 0
    ensures NonEmpty(fields) == fields
    decreases |fields|
  {
    if |fields| > 0 {
      NonEmptyKeepsAll(fields[1..]);
      assert fields == [fields[0]] + fields[1..];
    }
  }

  lemma JoinFour(f: seq<string>, sep: string)
    requires |f| == 4
    ensures Join(f, sep) == f[0] + sep + f[1] + sep + f[2] + sep + f[3]
  {
    assert f[1..][1..] == f[2..];
    assert f[2..][1..] == f[3..];
    assert Join(f[2..], sep) == f[2] + sep + f[3];
  }

  /** A single present field is the whole subtitle, without separators. */
  lemma SubtitleVersionOnly(v: VersionInfo)
    requires v.binaryType == NoBinaryType && v.companyName == "" && v.fileDescription == ""
    ensures Subtitle(v) == v.productVersion
  {
    var fields := [v.productVersion, Display(v.binaryType), v.companyName, v.fileDescription];
    assert NonEmpty(fields[3..]) == [];
    assert NonEmpty(fields[2..]) == [];
    assert NonEmpty(fields[1..]) == [];
  }

  /** `ListItem<Browser>`: title, subtitle, the path's hash as uuid, the browser. */
  datatype ListItem = ListItem(title: string, subtitle: string, uuid: string, state: Browser)

  /** `TryInto<ListItem<Browser>>`, which never fails; `hash` stands for
      `DefaultHasher` over the path. */
  function ToListItem(b: Browser, hash: string -> string): (item: ListItem)
    ensures item.title == b.version.productName && item.uuid == hash(b.exePath) && item.state == b
    ensures item.subtitle == Subtitle(b.version)
  {
    ListItem(b.version.productName, Subtitle(b.version), hash(b.exePath), b)
  }

  /** `spawn_browser_process` for a list item's browser and the URL. */
  function LaunchItem(item: ListItem, url: string): Launch
  {
    Launch(item.state.exePath, LaunchArgs(item.state.arguments, url))
  }

  // ---------------------------------------------------------------------
  // read_exe_arch

  /** The `GetBinaryTypeW` codes: `SCS_32BIT_BINARY` is 0, `SCS_64BIT_BINARY` is 6. */
  function BinaryTypeFromCode(code: int): (b: BinaryType)
    ensures b == Bits32 <==> code == 0
    ensures b == Bits64 <==> code == 6
  {
    if code == 0 then Bits32 else if code == 6 then Bits64 else NoBinaryType
  }

  /** `read_exe_arch`: a failed call (a result below 1) is an error naming the file. */
  function ReadExeArch(path: string, callResult: int, code: int): (r: Result<BinaryType>)
    ensures r.Err? <==> callResult < 1
    ensures r.Err? ==> r.error.Failure? && Contains(r.error.message, path)
    ensures r.Ok? ==> r.value == BinaryTypeFromCode(code)
  {
    if callResult < 1 then
      var prefix := "Cannot read binary type with GetBinaryTypeW for file ";
      assert OccursAt(prefix + path, path, |prefix|);
      Err(Failure(prefix + path))
    else Ok(BinaryTypeFromCode(code))
  }

  /** What the subtitle shows for each code. */
  lemma CodeDisplay(code: int)
    ensures Display(BinaryTypeFromCode(code)) == (if code == 0 then "32 bits" else if code == 6 then "64 bits" else "")
  {
  }

  // ---------------------------------------------------------------------
  // read_exe_version_info: translation choice and block names

  type U16 = x: int | 0 <= x < 0x1_0000

  datatype Translation = Translation(language: U16, codePage: U16)

  /** The position of the first translation for `language`, if any. */
  function FirstWithLanguage(ts: seq<Translation>, language: int): (r: Option<nat>)
    ensures r.Some? ==> r.value < |ts| && ts[r.value].language == language
                        && forall j :: 0 <= j < r.value ==> ts[j].language != language
    ensures r.None? ==> forall j :: 0 <= j < |ts| ==> ts[j].language != language
    decreases |ts|
  {
    if |ts| == 0 then None
    else if ts[0].language == language then Some(0)
    else
      match FirstWithLanguage(ts[1..], language)
      case None => None
      case Some(k) => Some(k + 1)
  }

  /** The translation whose strings are read: the first in the user's UI
      language, else the first language-neutral one (0), else the first of
      all; with no translation at all, `translations[0]` panics. */
  function ChooseTranslation(ts: seq<Translation>, userLanguage: U16): (r: Result<Translation>)
    ensures r.Ok? <==> |ts| > 0
    ensures r.Err? ==> r.error.Panic?
    ensures r.Ok? ==> r.value in ts
    ensures r.Ok? && (exists i :: 0 <= i < |ts| && ts[i].language == userLanguage) ==>
      r.value.language == userLanguage
    ensures r.Ok? && (forall i :: 0 <= i < |ts| ==> ts[i].language != userLanguage)
                  && (exists i :: 0 <= i < |ts| && ts[i].language == 0) ==>
      r.value.language == 0
    ensures r.Ok? && (forall i :: 0 <= i < |ts| ==> ts[i].language != userLanguage && ts[i].language != 0) ==>
      r.value == ts[0]
    // whichever language wins, the entry chosen is the first with that language
    ensures r.Ok? ==> exists i :: 0 <= i < |ts| && r.value == ts[i]
                                  && forall j :: 0 <= j < i ==> ts[j].language != r.value.language
  {
    match FirstWithLanguage(ts, userLanguage)
    case Some(i) => Ok(ts[i])
    case None =>
      match FirstWithLanguage(ts, 0)
      case Some(i) => Ok(ts[i])
      case None =>
        if |ts| == 0 then Err(Panic("index out of bounds: the len is 0 but the index is 0"))
        else Ok(ts[0])
  }

  /** Among several entries in the user's language, the first one is chosen. */
  lemma ChooseFirstOfLanguage(ts: seq<Translation>, userLanguage: U16, i: nat)
    requires i < |ts| && ts[i].language == userLanguage
    requires forall j :: 0 <= j < i ==> ts[j].language != userLanguage
    ensures ChooseTranslation(ts, userLanguage) == Ok(ts[i])
  {
    var f := FirstWithLanguage(ts, userLanguage);
    assert f.Some?;
    assert f.value == i;
  }

  /** With no entry in the user's language, the first language-neutral
      entry is chosen; its code page names the blocks that are read. */
  lemma ChooseFirstNeutral(ts: seq<Translation>, userLanguage: U16, i: nat)
    requires forall j :: 0 <= j < |ts| ==> ts[j].language != userLanguage
    requires i < |ts| && ts[i].language == 0
    requires forall j :: 0 <= j < i ==> ts[j].language != 0
    ensures ChooseTranslation(ts, userLanguage) == Ok(ts[i])
  {
    assert FirstWithLanguage(ts, userLanguage).None?;
    var f := FirstWithLanguage(ts, 0);
    assert f.Some?;
    assert f.value == i;
  }

  const StringFileInfo: string := "\\StringFileInfo\\"

  /** `format!("\\StringFileInfo\\{:04x}{:04x}", language, code page)`. */
  function BaseBlock(t: Translation): (b: string)
    ensures |b| == |StringFileInfo| + 8 && b[..|StringFileInfo|] == StringFileInfo
  {
    StringFileInfo + Hex4(t.language) + Hex4(t.codePage)
  }

  /** The block name keeps the language and code page: reading its two
      four-digit groups back gives them. */
  lemma BaseBlockRoundTrip(t: Translation)
    ensures var b := BaseBlock(t);
      && ParseHex4(b[|StringFileInfo|..|StringFileInfo| + 4]) == t.language
      && ParseHex4(b[|StringFileInfo| + 4..]) == t.codePage
  {
    var b := BaseBlock(t);
    assert b[|StringFileInfo|..|StringFileInfo| + 4] == Hex4(t.language);
    assert b[|StringFileInfo| + 4..] == Hex4(t.codePage);
    Hex4RoundTrip(t.language);
    Hex4RoundTrip(t.codePage);
  }

  /** The three string blocks read: product name, company name, product version. */
  function FieldBlocks(t: Translation): (bs: seq<string>)
    ensures |bs| == 3 && forall i :: 0 <= i < 3 ==> |bs[i]| > |BaseBlock(t)| && bs[i][..|BaseBlock(t)|] == BaseBlock(t)
  {
    var base := BaseBlock(t);
    var names := ["\\ProductName", "\\CompanyName", "\\ProductVersion"];
    assert forall i :: 0 <= i < 3 ==> (base + names[i])[..|base|] == base;
    [base + names[0], base + names[1], base + names[2]]
  }
}
