/** The selection repository of `src/data/statistics_repository.rs`, with the
    SQLite store reduced to two in-memory tables: the `selections` rows in
    table (rowid) order and the `selections_history` rows in insertion order. */
module Repository {
  import opened Wrappers
  import opened Strings
  import Tld

  /** One `selections` row: a known browser executable. */
  datatype Selection = Selection(id: nat, pathHash: Option<string>, path: string)

  /** One entry handed to `update_selections` (its `id` field is never read). */
  datatype SelectionInput = SelectionInput(pathHash: Option<string>, path: Option<string>)

  /** One `selections_history` row: a recorded browser choice. */
  datatype Event = Event(url: string, src: string, tld: string, weekday: int, hour: int, selectionId: nat)

  datatype Store = Store(selections: seq<Selection>, history: seq<Event>)

  /** The local clock reading (`Local::now()`), an input of the model. */
  datatype Weekday = Mon | Tue | Wed | Thu | Fri | Sat | Sun
  type SecondOfDay = s: nat | s < 86400
  datatype LocalTime = LocalTime(day: Weekday, second: SecondOfDay)

  /** chrono's `weekday().number_from_monday()`. */
  function NumberFromMonday(d: Weekday): (n: int)
    ensures 1 <= n <= 7
    ensures n == 1 <==> d == Mon
    ensures n == 7 <==> d == Sun
  {
    match d
    case Mon => 1 case Tue => 2 case Wed => 3 case Thu => 4
    case Fri => 5 case Sat => 6 case Sun => 7
  }

  /** Distinct days get distinct numbers. */
  lemma NumberFromMondayInjective(a: Weekday, b: Weekday)
    requires NumberFromMonday(a) == NumberFromMonday(b)
    ensures a == b
  {
  }

  /** chrono's `hour()`: the hour of the day the reading falls in. */
  function Hour(t: LocalTime): (h: int)
    ensures 0 <= h <= 23
    ensures h * 3600 <= t.second < (h + 1) * 3600
  {
    t.second / 3600
  }

  // ---------------------------------------------------------------------
  // Table invariants

  /** The `UNIQUE` constraint on `selections.path`. */
  predicate UniquePaths(sels: seq<Selection>)
  {
    forall i, j :: 0 <= i < j < |sels| ==> sels[i].path != sels[j].path
  }

  /** Rows are appended with ever larger `INTEGER PRIMARY KEY` ids. */
  predicate AscendingIds(sels: seq<Selection>)
  {
    forall i, j :: 0 <= i < j < |sels| ==> sels[i].id < sels[j].id
  }

  predicate WellFormed(sels: seq<Selection>)
  {
    UniquePaths(sels) && AscendingIds(sels)
  }

  predicate HasPath(sels: seq<Selection>, p: string)
  {
    exists i :: 0 <= i < |sels| && sels[i].path == p
  }

  /** SQLite's id for a new row of a table without deletions: one more than the largest. */
  function NextId(sels: seq<Selection>): (id: nat)
    ensures id >= 1
    ensures forall i :: 0 <= i < |sels| ==> sels[i].id < id
  {
    if |sels| == 0 then 1
    else
      var rest := NextId(sels[1..]);
      assert forall i :: 1 <= i < |sels| ==> sels[i] == sels[1..][i - 1];
      if sels[0].id < rest then rest else sels[0].id + 1
  }

  /** The position of the row with path `p`, if there is one. */
  function PathIndex(sels: seq<Selection>, p: string): (r: Option<nat>)
    ensures r.Some? ==> r.value < |sels| && sels[r.value].path == p
    ensures r.Some? ==> forall j :: 0 <= j < r.value ==> sels[j].path != p
    ensures r.None? <==> !HasPath(sels, p)
  {
    if |sels| == 0 then None
    else if sels[0].path == p then Some(0)
    else
      var r := PathIndex(sels[1..], p);
      assert HasPath(sels, p) <==> HasPath(sels[1..], p) by {
        if HasPath(sels, p) {
          var i :| 0 <= i < |sels| && sels[i].path == p;
          assert sels[1..][i - 1].path == p;
        }
      }
      if r.Some? then Some(r.value + 1) else None
  }

  // ---------------------------------------------------------------------
  // update_selections

  /** `list` names path `p`. */
  predicate Mentions(list: seq<SelectionInput>, p: string)
  {
    exists i :: 0 <= i < |list| && list[i].path == Some(p)
  }

  /** The hash given with the last entry of `list` that names path `p`. */
  function LastHashFor(list: seq<SelectionInput>, p: string): Option<string>
    requires Mentions(list, p)
    decreases |list|
  {
    var last := list[|list| - 1];
    if last.path == Some(p) then last.pathHash
    else
      assert Mentions(list[..|list| - 1], p) by {
        var i :| 0 <= i < |list| && list[i].path == Some(p);
        assert list[..|list| - 1][i].path == Some(p);
      }
      LastHashFor(list[..|list| - 1], p)
  }

  /** One execution of `INSERT ... ON CONFLICT(path) DO UPDATE SET path_hash=?1`.
      An entry without a path violates `NOT NULL`; its error is dropped. */
  function UpsertOne(sels: seq<Selection>, e: SelectionInput): seq<Selection>
  {
    match e.path
    case None => sels
    case Some(p) =>
      match PathIndex(sels, p)
      case Some(i) => sels[i := sels[i].(pathHash := e.pathHash)]
      case None => sels + [Selection(NextId(sels), e.pathHash, p)]
  }

  /** `update_selections`: every entry upserted in list order.  The call
      reports success whatever happens to the individual rows, so the model
      returns the new table directly. */
  function UpdateSelections(sels: seq<Selection>, list: seq<SelectionInput>): (r: seq<Selection>)
    requires WellFormed(sels)
    ensures WellFormed(r)
    // no row is removed, and existing rows keep their id and path
    ensures |r| >= |sels|
    ensures forall i :: 0 <= i < |sels| ==> r[i].id == sels[i].id && r[i].path == sels[i].path
    // a row whose path the list names takes the hash of the last such entry
    ensures forall i :: 0 <= i < |r| && Mentions(list, r[i].path) ==> r[i].pathHash == LastHashFor(list, r[i].path)
    // any other row is untouched
    ensures forall i :: 0 <= i < |sels| && !Mentions(list, sels[i].path) ==> r[i] == sels[i]
    // new rows are exactly for paths the list names that were not yet present
    ensures forall i :: |sels| <= i < |r| ==> Mentions(list, r[i].path) && !HasPath(sels, r[i].path)
    ensures forall p :: Mentions(list, p) ==> HasPath(r, p)
    decreases |list|
  {
    if |list| == 0 then sels
    else
      var init, e := list[..|list| - 1], list[|list| - 1];
      var front := UpdateSelections(sels, init);
      var r := UpsertOne(front, e);
      UpsertStep(sels, list, init, e, front, r);
      r
  }

  /** The promises of `UpdateSelections` about the result `r` of upserting
      `list` into `sels`. */
  ghost predicate UpsertedAll(sels: seq<Selection>, list: seq<SelectionInput>, r: seq<Selection>)
  {
    && WellFormed(r)
    && |r| >= |sels|
    && (forall i :: 0 <= i < |sels| ==> r[i].id == sels[i].id && r[i].path == sels[i].path)
    && (forall i :: 0 <= i < |r| && Mentions(list, r[i].path) ==> r[i].pathHash == LastHashFor(list, r[i].path))
    && (forall i :: 0 <= i < |sels| && !Mentions(list, sels[i].path) ==> r[i] == sels[i])
    && (forall i :: |sels| <= i < |r| ==> Mentions(list, r[i].path) && !HasPath(sels, r[i].path))
    && (forall p :: Mentions(list, p) ==> HasPath(r, p))
  }

  /** How `Mentions` and `LastHashFor` see one more entry at the end of a list. */
  lemma MentionsSnoc(init: seq<SelectionInput>, e: SelectionInput, p: string)
    ensures Mentions(init + [e], p) <==> Mentions(init, p) || e.path == Some(p)
    ensures e.path == Some(p) ==> LastHashFor(init + [e], p) == e.pathHash
    ensures e.path != Some(p) && Mentions(init, p) ==> LastHashFor(init + [e], p) == LastHashFor(init, p)
  {
    var list := init + [e];
    assert list[..|list| - 1] == init;
    if Mentions(list, p) && e.path != Some(p) {
      var i :| 0 <= i < |list| && list[i].path == Some(p);
      assert init[i].path == Some(p);
    }
    if Mentions(init, p) {
      var i :| 0 <= i < |init| && init[i].path == Some(p);
      assert list[i].path == Some(p);
    }
    if e.path == Some(p) {
      assert list[|list| - 1].path == Some(p);
    }
  }

  /** The inductive step of `UpdateSelections`: upserting the last entry
      after the others keeps every promise. */
  lemma UpsertStep(sels: seq<Selection>, list: seq<SelectionInput>, init: seq<SelectionInput>, e: SelectionInput,
                    front: seq<Selection>, r: seq<Selection>)
    requires WellFormed(sels) && |list| > 0 && init == list[..|list| - 1] && e == list[|list| - 1]
    requires UpsertedAll(sels, init, front) && r == UpsertOne(front, e)
    ensures UpsertedAll(sels, list, r)
  {
    assert init + [e] == list;
    forall q
      ensures Mentions(init + [e], q) <==> Mentions(init, q) || e.path == Some(q)
      ensures e.path == Some(q) ==> LastHashFor(init + [e], q) == e.pathHash
      ensures e.path != Some(q) && Mentions(init, q) ==> LastHashFor(init + [e], q) == LastHashFor(init, q)
    {
      MentionsSnoc(init, e, q);
    }
    match e.path {
      case None =>
      case Some(p) =>
        match PathIndex(front, p) {
          case Some(k) => UpsertUpdates(sels, init, e, front, p, k);
          case None => UpsertInserts(sels, init, e, front, p);
        }
    }
  }

  lemma UpsertUpdates(sels: seq<Selection>, init: seq<SelectionInput>, e: SelectionInput,
                      front: seq<Selection>, p: string, k: nat)
    requires WellFormed(sels) && UpsertedAll(sels, init, front)
    requires e.path == Some(p) && PathIndex(front, p) == Some(k)
    requires forall q :: Mentions(init + [e], q) <==> Mentions(init, q) || e.path == Some(q)
    requires LastHashFor(init + [e], p) == e.pathHash
    requires forall q :: q != p && Mentions(init, q) ==> LastHashFor(init + [e], q) == LastHashFor(init, q)
    ensures UpsertedAll(sels, init + [e], UpsertOne(front, e))
  {
    var r := UpsertOne(front, e);
    assert r == front[k := front[k].(pathHash := e.pathHash)];
    UpdatedShape(sels, init, init + [e], front, p, k, e.pathHash, r);
    UpdatedHashes(init, init + [e], front, p, k, e.pathHash, r);
  }

  /** Updating the hash of the row with path `p` keeps the table's shape. */
  lemma UpdatedShape(sels: seq<Selection>, init: seq<SelectionInput>, list: seq<SelectionInput>,
                     front: seq<Selection>, p: string, k: nat, h: Option<string>, r: seq<Selection>)
    requires UpsertedAll(sels, init, front)
    requires k < |front| && front[k].path == p && Mentions(list, p)
    requires forall q :: Mentions(list, q) <==> Mentions(init, q) || q == p
    requires r == front[k := front[k].(pathHash := h)]
    ensures WellFormed(r) && |r| >= |sels|
    ensures forall i :: 0 <= i < |sels| ==> r[i].id == sels[i].id && r[i].path == sels[i].path
    ensures forall i :: 0 <= i < |sels| && !Mentions(list, sels[i].path) ==> r[i] == sels[i]
    ensures forall i :: |sels| <= i < |r| ==> Mentions(list, r[i].path) && !HasPath(sels, r[i].path)
  {
    assert forall i :: 0 <= i < |r| ==> r[i].path == front[i].path && r[i].id == front[i].id;
    forall i | 0 <= i < |sels| && !Mentions(list, sels[i].path) ensures r[i] == sels[i] {
      assert i != k;
    }
  }

  /** Updating the hash of the row with path `p` to the list's last hash for
      `p` gives every named row its last hash. */
  lemma UpdatedHashes(init: seq<SelectionInput>, list: seq<SelectionInput>,
                      front: seq<Selection>, p: string, k: nat, h: Option<string>, r: seq<Selection>)
    requires UniquePaths(front)
    requires forall i :: 0 <= i < |front| && Mentions(init, front[i].path) ==> front[i].pathHash == LastHashFor(init, front[i].path)
    requires forall q :: Mentions(init, q) ==> HasPath(front, q)
    requires k < |front| && front[k].path == p
    requires forall q :: Mentions(list, q) <==> Mentions(init, q) || q == p
    requires Mentions(list, p) && LastHashFor(list, p) == h
    requires forall q :: q != p && Mentions(init, q) ==> LastHashFor(list, q) == LastHashFor(init, q)
    requires r == front[k := front[k].(pathHash := h)]
    ensures forall i :: 0 <= i < |r| && Mentions(list, r[i].path) ==> r[i].pathHash == LastHashFor(list, r[i].path)
    ensures forall q :: Mentions(list, q) ==> HasPath(r, q)
  {
    forall i | 0 <= i < |r| && Mentions(list, r[i].path)
      ensures r[i].pathHash == LastHashFor(list, r[i].path)
    {
      if i != k {
        assert r[i] == front[i];
      }
    }
    forall q | Mentions(list, q) ensures HasPath(r, q) {
      if q == p {
        assert r[k].path == p;
      } else {
        var i :| 0 <= i < |front| && front[i].path == q;
        assert r[i].path == q;
      }
    }
  }

  lemma UpsertInserts(sels: seq<Selection>, init: seq<SelectionInput>, e: SelectionInput,
                      front: seq<Selection>, p: string)
    requires WellFormed(sels) && UpsertedAll(sels, init, front)
    requires e.path == Some(p) && PathIndex(front, p).None?
    requires forall q :: Mentions(init + [e], q) <==> Mentions(init, q) || e.path == Some(q)
    requires LastHashFor(init + [e], p) == e.pathHash
    requires forall q :: q != p && Mentions(init, q) ==> LastHashFor(init + [e], q) == LastHashFor(init, q)
    ensures UpsertedAll(sels, init + [e], UpsertOne(front, e))
  {
    var r := UpsertOne(front, e);
    assert r == front + [Selection(NextId(front), e.pathHash, p)];
    InsertedShape(sels, init, init + [e], front, p, e.pathHash, r);
    InsertedHashes(init, init + [e], front, p, e.pathHash, r);
  }

  /** Appending a row for a new path `p` keeps the table's shape. */
  lemma InsertedShape(sels: seq<Selection>, init: seq<SelectionInput>, list: seq<SelectionInput>,
                      front: seq<Selection>, p: string, h: Option<string>, r: seq<Selection>)
    requires UpsertedAll(sels, init, front)
    requires !HasPath(front, p) && Mentions(list, p)
    requires forall q :: Mentions(list, q) <==> Mentions(init, q) || q == p
    requires r == front + [Selection(NextId(front), h, p)]
    ensures WellFormed(r) && |r| >= |sels|
    ensures forall i :: 0 <= i < |sels| ==> r[i].id == sels[i].id && r[i].path == sels[i].path
    ensures forall i :: 0 <= i < |sels| && !Mentions(list, sels[i].path) ==> r[i] == sels[i]
    ensures forall i :: |sels| <= i < |r| ==> Mentions(list, r[i].path) && !HasPath(sels, r[i].path)
  {
    assert forall i :: 0 <= i < |front| ==> r[i] == front[i];
  }

  /** Appending a row for a new path `p` with the list's last hash for `p`
      gives every named row its last hash. */
  lemma InsertedHashes(init: seq<SelectionInput>, list: seq<SelectionInput>,
                       front: seq<Selection>, p: string, h: Option<string>, r: seq<Selection>)
    requires forall i :: 0 <= i < |front| && Mentions(init, front[i].path) ==> front[i].pathHash == LastHashFor(init, front[i].path)
    requires forall q :: Mentions(init, q) ==> HasPath(front, q)
    requires !HasPath(front, p)
    requires forall q :: Mentions(list, q) <==> Mentions(init, q) || q == p
    requires Mentions(list, p) && LastHashFor(list, p) == h
    requires forall q :: q != p && Mentions(init, q) ==> LastHashFor(list, q) == LastHashFor(init, q)
    requires exists id :: r == front + [Selection(id, h, p)]
    ensures forall i :: 0 <= i < |r| && Mentions(list, r[i].path) ==> r[i].pathHash == LastHashFor(list, r[i].path)
    ensures forall q :: Mentions(list, q) ==> HasPath(r, q)
  {
    assert forall i :: 0 <= i < |front| ==> r[i] == front[i];
    forall q | Mentions(list, q) ensures HasPath(r, q) {
      if q == p {
        assert r[|front|].path == p;
      } else {
        var i :| 0 <= i < |front| && front[i].path == q;
        assert r[i].path == q;
      }
    }
  }

  /** Running `update_selections` twice with the same list changes nothing
      the second time: no duplicate rows, the same hashes. */
  lemma UpdateSelectionsIdempotent(sels: seq<Selection>, list: seq<SelectionInput>)
    requires WellFormed(sels)
    ensures UpdateSelections(UpdateSelections(sels, list), list) == UpdateSelections(sels, list)
  {
    var once := UpdateSelections(sels, list);
    var twice := UpdateSelections(once, list);
    if |twice| > |once| {
      var p := twice[|once|].path;
      assert false;
    }
    forall i | 0 <= i < |once| ensures twice[i] == once[i] {
      if Mentions(list, once[i].path) {
        assert twice[i].pathHash == once[i].pathHash;
      }
    }
  }

  // ---------------------------------------------------------------------
  // get_selection_from_browser and the WHERE-clause builder

  /** `get_selection_from_browser`: the first row whose hash equals `hash`
      (a NULL hash equals nothing). */
  function GetSelectionFromHash(sels: seq<Selection>, hash: string): (r: Option<Selection>)
    ensures r.Some? ==> r.value.pathHash == Some(hash)
    ensures r.Some? ==> exists i :: (0 <= i < |sels| && sels[i] == r.value
      && forall j :: 0 <= j < i ==> sels[j].pathHash != Some(hash))
    ensures r.None? <==> forall i :: 0 <= i < |sels| ==> sels[i].pathHash != Some(hash)
  {
    if |sels| == 0 then None
    else if sels[0].pathHash == Some(hash) then Some(sels[0])
    else
      var r := GetSelectionFromHash(sels[1..], hash);
      assert forall i :: 1 <= i < |sels| ==> sels[i] == sels[1..][i - 1];
      if r.Some? then
        var i :| 0 <= i < |sels[1..]| && sels[1..][i] == r.value && r.value.pathHash == Some(hash)
          && forall j :: 0 <= j < i ==> sels[1..][j].pathHash != Some(hash);
        assert sels[i + 1] == r.value;
        r
      else r
  }

  /** One field of the serialised parameter entity: its name and whether it is null. */
  datatype Param = Param(key: string, isNull: bool)

  /** The serialised `SelectionEntity` used for a hash lookup.  serde_json's
      default object keeps its keys in sorted order. */
  function HashLookupParams(): seq<Param>
  {
    [Param("id", true), Param("path", true), Param("path_hash", false)]
  }

  function Condition(key: string): string
  {
    key + " = :" + key
  }

  /** The conditions for the non-null fields, in field order. */
  function Conditions(params: seq<Param>): (cs: seq<string>)
    ensures |cs| <= |params|
  {
    if |params| == 0 then []
    else (if params[0].isNull then [] else [Condition(params[0].key)]) + Conditions(params[1..])
  }

  /** The query text `select_by_params` builds: one `key = :key` condition per
      non-null field, joined by a comma. */
  function SelectByParamsQuery(table: string, params: seq<Param>): (q: string)
    ensures var prefix := "SELECT * FROM " + table + " WHERE ";
      |q| >= |prefix| && q[..|prefix|] == prefix
  {
    "SELECT * FROM " + table + " WHERE " + Join(Conditions(params), ",")
  }

  /** The WHERE clause of a query read back: splitting it at the commas gives
      one condition per non-null field, in field order, when no key has a comma. */
  lemma WhereClauseConditions(table: string, params: seq<Param>)
    requires forall i :: 0 <= i < |params| ==> ',' !in params[i].key
    requires Conditions(params) != []
    ensures var prefix := "SELECT * FROM " + table + " WHERE ";
      Split(SelectByParamsQuery(table, params)[|prefix|..], ',') == Conditions(params)
  {
    var cs := Conditions(params);
    NoCommaInConditions(params);
    SplitJoin(cs, ',');
    var prefix := "SELECT * FROM " + table + " WHERE ";
    assert SelectByParamsQuery(table, params)[|prefix|..] == Join(cs, [',']);
  }

  lemma {:induction false} NoCommaInConditions(params: seq<Param>)
    requires forall i :: 0 <= i < |params| ==> ',' !in params[i].key
    ensures forall i :: 0 <= i < |Conditions(params)| ==> ',' !in Conditions(params)[i]
    decreases |params|
  {
    if |params| > 0 {
      NoCommaInConditions(params[1..]);
      var head := if params[0].isNull then [] else [Condition(params[0].key)];
      assert Conditions(params) == head + Conditions(params[1..]);
      if !params[0].isNull {
        var k := params[0].key;
        assert Condition(k) == k + " = :" + k;
        assert ',' !in " = :";
      }
    }
  }

  /** The hash lookup queries with the single condition on `path_hash`. */
  lemma HashLookupQuery()
    ensures Conditions(HashLookupParams()) == ["path_hash = :path_hash"]
    ensures SelectByParamsQuery("selections", HashLookupParams())
      == "SELECT * FROM " + "selections" + " WHERE " + "path_hash = :path_hash"
  {
    var ps := HashLookupParams();
    var c := "path_hash = :path_hash";
    assert Condition("path_hash") == c;
    assert ps[2..] == [Param("path_hash", false)];
    assert ps[1..] == [Param("path", true)] + ps[2..];
    assert Conditions(ps[2..][1..]) == [];
    assert Conditions(ps[2..]) == [c];
    assert Conditions(ps[1..]) == [c];
    assert Conditions(ps) == [c];
  }

  // ---------------------------------------------------------------------
  // save_choice

  function NotFoundMessage(hash: string): string
  {
    "Couldn't find selection by path_hash " + hash + " to save the choice."
  }

  /** `save_choice`: records one history row for the browser with the given
      hash, at the given local time. */
  function SaveChoice(store: Store, source: Option<string>, url: string, parsed: Tld.ParsedUrl,
                      hash: string, now: LocalTime, data: string): (r: Result<Store>)
    // an unknown hash is an error naming the hash, and nothing is written
    ensures GetSelectionFromHash(store.selections, hash).None? ==>
      r == Err(Failure(NotFoundMessage(hash))) && Contains(r.error.message, hash)
    // a URL whose TLD cannot be extracted writes nothing
    ensures Tld.FindTld(parsed, data).Err? ==> r.Err?
    ensures r.Ok? <==> GetSelectionFromHash(store.selections, hash).Some? && Tld.FindTld(parsed, data).Ok?
    // otherwise exactly one event is appended and nothing else changes
    ensures r.Ok? ==>
      var sel := GetSelectionFromHash(store.selections, hash).value;
      && r.value.selections == store.selections
      && |r.value.history| == |store.history| + 1
      && r.value.history[..|store.history|] == store.history
      && var e := r.value.history[|store.history|];
         && e.selectionId == sel.id && sel in store.selections
         && e.weekday == NumberFromMonday(now.day) && 1 <= e.weekday <= 7
         && e.hour == Hour(now) && 0 <= e.hour <= 23
         && e.url == url && e.src == source.GetOr("")
         && Tld.FindTld(parsed, data) == Ok(e.tld)
  {
    match GetSelectionFromHash(store.selections, hash)
    case None =>
      var msg := NotFoundMessage(hash);
      assert OccursAt(msg, hash, |"Couldn't find selection by path_hash "|);
      Err(Failure(msg))
    case Some(sel) =>
      var tld :- Tld.FindTld(parsed, data);
      var e := Event(url, source.GetOr(""), tld, NumberFromMonday(now.day), Hour(now), sel.id);
      Ok(store.(history := store.history + [e]))
  }
}
