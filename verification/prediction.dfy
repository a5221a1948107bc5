/** The prediction of `predict` in `src/data/statistics_repository.rs`: each
    known browser is scored against the recent choice history and the browsers
    are ranked by score through a map keyed by the (truncated) score.

    The program accumulates `f64` points; every contribution is a multiple of
    a tenth, so the model counts in exact tenths of a point. */
module Prediction {
  import opened Wrappers
  import SortedMap
  import Tld
  import opened Repository

  /** What each recorded event is compared with. */
  datatype Context = Context(url: string, src: string, weekday: int, hour: int, tld: string)

  /** Factor weights in tenths of a point: url 0.5, src 3.0, weekday 2.0, hour 2.0, tld 3.0. */
  const UrlWeight: nat := 5
  const SrcWeight: nat := 30
  const WeekdayWeight: nat := 20
  const HourWeight: nat := 20
  const TldWeight: nat := 30

  function Points(matches: bool, weight: nat): nat
  {
    if matches then weight else 0
  }

  /** One event's contribution to its browser's score, in tenths: the weights
      of the exactly matching fields, divided by the fixed factor count 5. */
  function EntryTenths(e: Event, ctx: Context): (p: nat)
    ensures p <= 21
    ensures p == 21 <==> e.url == ctx.url && e.src == ctx.src && e.weekday == ctx.weekday
                         && e.hour == ctx.hour && e.tld == ctx.tld
    ensures p == 0 <==> e.url != ctx.url && e.src != ctx.src && e.weekday != ctx.weekday
                        && e.hour != ctx.hour && e.tld != ctx.tld
  {
    (Points(e.url == ctx.url, UrlWeight) + Points(e.src == ctx.src, SrcWeight)
      + Points(e.weekday == ctx.weekday, WeekdayWeight) + Points(e.hour == ctx.hour, HourWeight)
      + Points(e.tld == ctx.tld, TldWeight)) / 5
  }

  /** The number of events recorded for browser `id`. */
  function Count(events: seq<Event>, id: int): nat
  {
    if |events| == 0 then 0
    else (if events[0].selectionId == id then 1 else 0) + Count(events[1..], id)
  }

  /** The summed contributions of the events recorded for browser `id`, in tenths. */
  function ScoreTenths(events: seq<Event>, id: int, ctx: Context): nat
  {
    if |events| == 0 then 0
    else
      (if events[0].selectionId == id then EntryTenths(events[0], ctx) else 0)
        + ScoreTenths(events[1..], id, ctx)
  }

  /** `(score * 10) + count` for browser `id`, computed exactly. */
  function FinalScore(events: seq<Event>, id: int, ctx: Context): nat
  {
    ScoreTenths(events, id, ctx) + Count(events, id)
  }

  /** A browser without recent events scores zero. */
  lemma {:induction false} NoEventsNoScore(events: seq<Event>, id: int, ctx: Context)
    requires forall i :: 0 <= i < |events| ==> events[i].selectionId != id
    ensures FinalScore(events, id, ctx) == 0
    decreases |events|
  {
    if |events| > 0 {
      NoEventsNoScore(events[1..], id, ctx);
    }
  }

  /** Each event adds at least one (its count) and at most 22 to its browser's score. */
  lemma {:induction false} FinalScoreBounds(events: seq<Event>, id: int, ctx: Context)
    ensures Count(events, id) <= FinalScore(events, id, ctx) <= 22 * Count(events, id)
    decreases |events|
  {
    if |events| > 0 {
      FinalScoreBounds(events[1..], id, ctx);
    }
  }

  // ---------------------------------------------------------------------
  // The per-browser tallies: a BTreeMap from selection id to (count, score)

  datatype Tally = Tally(count: nat, score: nat)

  /** Some selection has id `k`. */
  predicate IsId(sels: seq<Selection>, k: int)
    decreases |sels|
  {
    |sels| > 0 && (sels[0].id == k || IsId(sels[1..], k))
  }

  lemma {:induction false} IsIdAt(sels: seq<Selection>, i: nat)
    requires i < |sels|
    ensures IsId(sels, sels[i].id)
    decreases i
  {
    if i > 0 {
      IsIdAt(sels[1..], i - 1);
      assert sels[1..][i - 1] == sels[i];
    }
  }

  lemma {:induction false} IdIndex(sels: seq<Selection>, k: int) returns (i: nat)
    requires IsId(sels, k)
    ensures i < |sels| && sels[i].id == k
    decreases |sels|
  {
    if sels[0].id == k {
      i := 0;
    } else {
      var i' := IdIndex(sels[1..], k);
      i := i' + 1;
    }
  }

  /** The starting map: every known browser with a zero tally. */
  function InitialTallies(sels: seq<Selection>): (m: SortedMap.Map<Tally>)
    ensures SortedMap.Sorted(m)
    ensures forall k :: SortedMap.Get(m, k) == if IsId(sels, k) then Some(Tally(0, 0)) else None
    decreases |sels|
  {
    if |sels| == 0 then []
    else SortedMap.Insert(InitialTallies(sels[1..]), sels[0].id, Tally(0, 0))
  }

  /** The tally of `t` with the events for browser `k` added. */
  function Added(t: Option<Tally>, events: seq<Event>, k: int, ctx: Context): Option<Tally>
  {
    match t
    case None => None
    case Some(t) => Some(Tally(t.count + Count(events, k), t.score + ScoreTenths(events, k, ctx)))
  }

  /** Every event names a browser that has a tally. */
  predicate AllKnown(m: SortedMap.Map<Tally>, events: seq<Event>)
  {
    forall i :: 0 <= i < |events| ==> SortedMap.HasKey(m, events[i].selectionId)
  }

  /** After the first event is counted into a map with the same keys, the
      rest are known iff all were. */
  lemma AllKnownStep(m: SortedMap.Map<Tally>, m': SortedMap.Map<Tally>, events: seq<Event>)
    requires |events| > 0 && SortedMap.HasKey(m, events[0].selectionId)
    requires forall k :: SortedMap.HasKey(m', k) <==> SortedMap.HasKey(m, k)
    ensures AllKnown(m, events) <==> AllKnown(m', events[1..])
  {
    if AllKnown(m', events[1..]) {
      forall i | 0 < i < |events| ensures SortedMap.HasKey(m, events[i].selectionId) {
        assert events[i] == events[1..][i - 1];
      }
    }
  }

  /** The loop over the history rows.  A row whose browser has no tally makes
      `choice_map.get(..).unwrap()` panic. */
  function Accumulate(m: SortedMap.Map<Tally>, events: seq<Event>, ctx: Context): (r: Result<SortedMap.Map<Tally>>)
    requires SortedMap.Sorted(m)
    ensures r.Ok? <==> AllKnown(m, events)
    ensures r.Err? ==> r.error.Panic?
    ensures r.Ok? ==> SortedMap.Sorted(r.value)
    ensures r.Ok? ==> forall k :: SortedMap.Get(r.value, k) == Added(SortedMap.Get(m, k), events, k, ctx)
    decreases |events|
  {
    if |events| == 0 then Ok(m)
    else
      var e := events[0];
      match SortedMap.Get(m, e.selectionId)
      case None => Err(Panic("called `Option::unwrap()` on a `None` value"))
      case Some(t) =>
        var t' := Tally(t.count + 1, t.score + EntryTenths(e, ctx));
        var m' := SortedMap.Insert(m, e.selectionId, t');
        assert AllKnown(m, events) <==> AllKnown(m', events[1..]) by {
          SameKeys(m, m', e.selectionId);
          AllKnownStep(m, m', events);
        }
        var r := Accumulate(m', events[1..], ctx);
        if r.Ok? then
          AccumulateStep(m, events, ctx, t, r.value);
          r
        else r
  }

  /** Overwriting a present key keeps the set of keys. */
  lemma SameKeys<V>(m: SortedMap.Map<V>, m': SortedMap.Map<V>, key: int)
    requires SortedMap.HasKey(m, key)
    requires forall k :: k != key ==> SortedMap.Get(m', k) == SortedMap.Get(m, k)
    requires SortedMap.HasKey(m', key)
    ensures forall k :: SortedMap.HasKey(m', k) <==> SortedMap.HasKey(m, k)
  {
    forall k ensures SortedMap.HasKey(m', k) <==> SortedMap.HasKey(m, k) {
      if k != key {
        assert SortedMap.Get(m', k) == SortedMap.Get(m, k);
      }
    }
  }

  /** Counting the first event into its tally, then the rest, counts them all. */
  lemma AccumulateStep(m: SortedMap.Map<Tally>, events: seq<Event>, ctx: Context, t: Tally, r: SortedMap.Map<Tally>)
    requires SortedMap.Sorted(m)
    requires |events| > 0 && SortedMap.Get(m, events[0].selectionId) == Some(t)
    requires var t' := Tally(t.count + 1, t.score + EntryTenths(events[0], ctx));
      forall k :: SortedMap.Get(r, k) == Added(SortedMap.Get(SortedMap.Insert(m, events[0].selectionId, t'), k), events[1..], k, ctx)
    ensures forall k :: SortedMap.Get(r, k) == Added(SortedMap.Get(m, k), events, k, ctx)
  {
    var t' := Tally(t.count + 1, t.score + EntryTenths(events[0], ctx));
    AddedStep(m, SortedMap.Insert(m, events[0].selectionId, t'), events, ctx, t, r);
  }

  lemma AddedStep(m: SortedMap.Map<Tally>, m': SortedMap.Map<Tally>, events: seq<Event>, ctx: Context,
                  t: Tally, r: SortedMap.Map<Tally>)
    requires |events| > 0 && SortedMap.Get(m, events[0].selectionId) == Some(t)
    requires SortedMap.Get(m', events[0].selectionId) == Some(Tally(t.count + 1, t.score + EntryTenths(events[0], ctx)))
    requires forall k :: k != events[0].selectionId ==> SortedMap.Get(m', k) == SortedMap.Get(m, k)
    requires forall k :: SortedMap.Get(r, k) == Added(SortedMap.Get(m', k), events[1..], k, ctx)
    ensures forall k :: SortedMap.Get(r, k) == Added(SortedMap.Get(m, k), events, k, ctx)
  {
  }

  // ---------------------------------------------------------------------
  // The ranking: a BTreeMap from final score to selection id

  function Final(e: SortedMap.Entry<Tally>): nat
  {
    e.value.score + e.value.count
  }

  /** `id` is the largest key among the tallies whose final score is `s`. */
  ghost predicate Winner(m: SortedMap.Map<Tally>, s: int, id: int)
  {
    && (exists j :: 0 <= j < |m| && m[j].key == id && Final(m[j]) == s)
    && (forall j :: 0 <= j < |m| && Final(m[j]) == s ==> m[j].key <= id)
  }

  /** The fold of the tallies (in ascending id order) into a map keyed by
      final score: a later id overwrites an earlier one with the same score. */
  function ByScore(m: SortedMap.Map<Tally>): (r: SortedMap.Map<int>)
    requires SortedMap.Sorted(m)
    ensures SortedMap.Sorted(r)
    ensures forall s :: SortedMap.HasKey(r, s) <==> exists j :: 0 <= j < |m| && Final(m[j]) == s
    ensures forall i :: 0 <= i < |r| ==> Winner(m, r[i].key, r[i].value)
    decreases |m|
  {
    if |m| == 0 then []
    else
      var init := m[..|m| - 1];
      var last := m[|m| - 1];
      var r0 := ByScore(init);
      var r := SortedMap.Insert(r0, Final(last), last.key);
      ByScoreStep(m, init, last, r0, r);
      r
  }

  lemma ByScoreStep(m: SortedMap.Map<Tally>, init: SortedMap.Map<Tally>, last: SortedMap.Entry<Tally>,
                    r0: SortedMap.Map<int>, r: SortedMap.Map<int>)
    requires SortedMap.Sorted(m) && |m| > 0 && init == m[..|m| - 1] && last == m[|m| - 1]
    requires SortedMap.Sorted(r0)
    requires forall s :: SortedMap.HasKey(r0, s) <==> exists j :: 0 <= j < |init| && Final(init[j]) == s
    requires forall i :: 0 <= i < |r0| ==> Winner(init, r0[i].key, r0[i].value)
    requires r == SortedMap.Insert(r0, Final(last), last.key)
    ensures forall s :: SortedMap.HasKey(r, s) <==> exists j :: 0 <= j < |m| && Final(m[j]) == s
    ensures forall i :: 0 <= i < |r| ==> Winner(m, r[i].key, r[i].value)
  {
    forall s ensures SortedMap.HasKey(r, s) <==> exists j :: 0 <= j < |m| && Final(m[j]) == s {
      assert SortedMap.Get(r, Final(last)).Some?;
      if s != Final(last) {
        assert SortedMap.Get(r, s) == SortedMap.Get(r0, s);
      }
      ByScoreKey(m, init, last, r0, r, s);
    }
    forall i | 0 <= i < |r| ensures Winner(m, r[i].key, r[i].value) {
      ByScoreWinner(m, init, last, r0, r, i);
    }
  }

  lemma ByScoreKey(m: SortedMap.Map<Tally>, init: SortedMap.Map<Tally>, last: SortedMap.Entry<Tally>,
                   r0: SortedMap.Map<int>, r: SortedMap.Map<int>, s: int)
    requires SortedMap.Sorted(m) && |m| > 0 && init == m[..|m| - 1] && last == m[|m| - 1]
    requires SortedMap.Sorted(r0)
    requires SortedMap.HasKey(r0, s) <==> exists j :: 0 <= j < |init| && Final(init[j]) == s
    requires SortedMap.HasKey(r, Final(last))
    requires s != Final(last) ==> (SortedMap.HasKey(r, s) <==> SortedMap.HasKey(r0, s))
    ensures SortedMap.HasKey(r, s) <==> exists j :: 0 <= j < |m| && Final(m[j]) == s
  {
    if s == Final(last) {
      assert Final(m[|m| - 1]) == s;
    } else {
      if exists j :: 0 <= j < |m| && Final(m[j]) == s {
        var j :| 0 <= j < |m| && Final(m[j]) == s;
        assert init[j] == m[j];
      }
      if exists j :: 0 <= j < |init| && Final(init[j]) == s {
        var j :| 0 <= j < |init| && Final(init[j]) == s;
        assert m[j] == init[j];
      }
    }
  }

  lemma ByScoreWinner(m: SortedMap.Map<Tally>, init: SortedMap.Map<Tally>, last: SortedMap.Entry<Tally>,
                      r0: SortedMap.Map<int>, r: SortedMap.Map<int>, i: nat)
    requires SortedMap.Sorted(m) && |m| > 0 && init == m[..|m| - 1] && last == m[|m| - 1]
    requires SortedMap.Sorted(r0)
    requires forall i :: 0 <= i < |r0| ==> Winner(init, r0[i].key, r0[i].value)
    requires r == SortedMap.Insert(r0, Final(last), last.key)
    requires i < |r|
    ensures Winner(m, r[i].key, r[i].value)
  {
    var s, id := r[i].key, r[i].value;
    SortedMap.GetEntry(r, i);
    if s == Final(last) {
      LastIsWinner(m, s, id);
    } else {
      assert SortedMap.Get(r0, s) == Some(id);
      SortedMap.GetFound(r0, s);
      var i0 :| 0 <= i0 < |r0| && r0[i0] == SortedMap.Entry(s, id);
      assert Winner(init, s, id);
      EarlierWinner(m, init, s, id);
    }
  }

  /** The last tally (the largest id) wins its score. */
  lemma LastIsWinner(m: SortedMap.Map<Tally>, s: int, id: int)
    requires SortedMap.Sorted(m) && |m| > 0
    requires Final(m[|m| - 1]) == s && m[|m| - 1].key == id
    ensures Winner(m, s, id)
  {
    forall j | 0 <= j < |m| && Final(m[j]) == s ensures m[j].key <= id {
    }
  }

  /** A winner among the earlier tallies still wins when the last one has another score. */
  lemma EarlierWinner(m: SortedMap.Map<Tally>, init: SortedMap.Map<Tally>, s: int, id: int)
    requires |m| > 0 && init == m[..|m| - 1] && Final(m[|m| - 1]) != s
    requires Winner(init, s, id)
    ensures Winner(m, s, id)
  {
    var j :| 0 <= j < |init| && init[j].key == id && Final(init[j]) == s;
    assert m[j] == init[j];
    forall j' | 0 <= j' < |m| && Final(m[j']) == s ensures m[j'].key <= id {
      assert m[j'] == init[j'];
    }
  }

  /** The selection with id `id` (`choices.iter().find(..)`), which exists. */
  function FindById(sels: seq<Selection>, id: int): (s: Selection)
    requires IsId(sels, id)
    ensures s in sels && s.id == id
  {
    if sels[0].id == id then sels[0]
    else FindById(sels[1..], id)
  }

  /** The score map's selections from the highest score down (`collect` then `reverse`). */
  function Descending(byScore: SortedMap.Map<int>, sels: seq<Selection>): (r: seq<Selection>)
    requires forall i :: 0 <= i < |byScore| ==> IsId(sels, byScore[i].value)
    ensures |r| == |byScore|
    ensures forall i :: 0 <= i < |r| ==> r[i] in sels && r[i].id == byScore[|byScore| - 1 - i].value
  {
    if |byScore| == 0 then []
    else [FindById(sels, byScore[|byScore| - 1].value)] + Descending(byScore[..|byScore| - 1], sels)
  }

  /** The context of a prediction: the source application, the local time
      and the TLD of the URL. */
  function MakeContext(source: Option<string>, url: string, tld: string, now: LocalTime): Context
  {
    Context(url, source.GetOr(""), NumberFromMonday(now.day), Hour(now), tld)
  }

  /** `predict`.  `recent` holds the history rows of the last month. */
  function Predict(sels: seq<Selection>, recent: seq<Event>, source: Option<string>, url: string,
                   parsed: Tld.ParsedUrl, now: LocalTime, data: string): (r: Result<seq<Selection>>)
    // an empty selections table is an error, never an empty ranking
    ensures |sels| == 0 ==> r == Err(Failure("Selections table is empty."))
    ensures |sels| > 0 && Tld.FindTld(parsed, data).Err? ==> r == Err(Tld.FindTld(parsed, data).error)
    // a history row naming an unknown browser aborts the prediction
    ensures r.Ok? <==> |sels| > 0 && Tld.FindTld(parsed, data).Ok?
                       && forall i :: 0 <= i < |recent| ==> IsId(sels, recent[i].selectionId)
    ensures r.Ok? ==>
      Ranked(r.value, sels, recent, MakeContext(source, url, Tld.FindTld(parsed, data).value, now))
  {
    if |sels| == 0 then Err(Failure("Selections table is empty."))
    else
      var tld :- Tld.FindTld(parsed, data);
      var ctx := MakeContext(source, url, tld, now);
      var tallies := InitialTallies(sels);
      assert forall k :: SortedMap.HasKey(tallies, k) <==> IsId(sels, k);
      var acc :- Accumulate(tallies, recent, ctx);
      var byScore := ByScore(acc);
      RankingFacts(sels, recent, ctx, tallies, acc, byScore);
      DescendingRanked(sels, recent, ctx, byScore);
      Ok(Descending(byScore, sels))
  }

  /** What a successful prediction promises about its list, scored by the
      final scores under `recent` and `ctx`. */
  ghost predicate Ranked(r: seq<Selection>, sels: seq<Selection>, recent: seq<Event>, ctx: Context)
  {
    Descends(r, recent, ctx) && (forall i :: 0 <= i < |r| ==> r[i] in sels) && Represents(r, sels, recent, ctx)
  }

  /** Strictly descending scores: at most one browser per score. */
  ghost predicate Descends(r: seq<Selection>, recent: seq<Event>, ctx: Context)
  {
    forall i, j :: 0 <= i < j < |r| ==> FinalScore(recent, r[i].id, ctx) > FinalScore(recent, r[j].id, ctx)
  }

  /** Every score that occurs among `sels` is represented in `r`, by an id at
      least as large as any with that score. */
  ghost predicate Represents(r: seq<Selection>, sels: seq<Selection>, recent: seq<Event>, ctx: Context)
  {
    forall k :: 0 <= k < |sels| ==> RepresentedIn(r, recent, ctx, sels[k].id)
  }

  /** Some entry of `r` has the score of `id` and an id at least as large. */
  ghost predicate RepresentedIn(r: seq<Selection>, recent: seq<Event>, ctx: Context, id: int)
  {
    exists i :: 0 <= i < |r| && FinalScore(recent, r[i].id, ctx) == FinalScore(recent, id, ctx) && id <= r[i].id
  }

  /** The score map holds the final score of `id` under an id at least as large. */
  ghost predicate Covered(byScore: SortedMap.Map<int>, recent: seq<Event>, ctx: Context, id: int)
  {
    exists i :: 0 <= i < |byScore| && byScore[i].key == FinalScore(recent, id, ctx) && id <= byScore[i].value
  }

  /** Two browsers with the same final score collide in the score map: the
      one with the smaller id is missing from the prediction. */
  lemma TieDropsSmallerId(r: seq<Selection>, sels: seq<Selection>, recent: seq<Event>, ctx: Context, a: nat, b: nat)
    requires Ranked(r, sels, recent, ctx)
    requires a < |sels| && b < |sels|
    requires FinalScore(recent, sels[a].id, ctx) == FinalScore(recent, sels[b].id, ctx) && sels[a].id < sels[b].id
    ensures forall i :: 0 <= i < |r| ==> r[i].id != sels[a].id
  {
    var w := Representative(r, sels, recent, ctx, b);
    OnlyRepresentative(r, recent, ctx, w, sels[a].id);
  }

  /** The position that represents the score of `sels[b]`. */
  lemma Representative(r: seq<Selection>, sels: seq<Selection>, recent: seq<Event>, ctx: Context, b: nat) returns (w: nat)
    requires Represents(r, sels, recent, ctx) && b < |sels|
    ensures w < |r| && FinalScore(recent, r[w].id, ctx) == FinalScore(recent, sels[b].id, ctx) && sels[b].id <= r[w].id
  {
    assert RepresentedIn(r, recent, ctx, sels[b].id);
    var i :| 0 <= i < |r| && FinalScore(recent, r[i].id, ctx) == FinalScore(recent, sels[b].id, ctx) && sels[b].id <= r[i].id;
    w := i;
  }

  /** An id scoring like the entry at `w` but smaller than its id is nowhere
      in a strictly descending list. */
  lemma OnlyRepresentative(r: seq<Selection>, recent: seq<Event>, ctx: Context, w: nat, x: int)
    requires Descends(r, recent, ctx) && w < |r| && FinalScore(recent, x, ctx) == FinalScore(recent, r[w].id, ctx) && x < r[w].id
    ensures forall i :: 0 <= i < |r| ==> r[i].id != x
  {
    forall i | 0 <= i < |r| ensures r[i].id != x {
      if i != w {
        DistinctScores(r, recent, ctx, i, w);
      }
    }
  }

  /** Two positions of a strictly descending list have different scores. */
  lemma DistinctScores(r: seq<Selection>, recent: seq<Event>, ctx: Context, i: nat, w: nat)
    requires Descends(r, recent, ctx) && i < |r| && w < |r| && i != w
    ensures FinalScore(recent, r[i].id, ctx) != FinalScore(recent, r[w].id, ctx)
  {
    if i < w {
      assert FinalScore(recent, r[i].id, ctx) > FinalScore(recent, r[w].id, ctx);
    } else {
      assert FinalScore(recent, r[w].id, ctx) > FinalScore(recent, r[i].id, ctx);
    }
  }

  /** Reading the score map from the top gives a ranked list. */
  lemma DescendingRanked(sels: seq<Selection>, recent: seq<Event>, ctx: Context, byScore: SortedMap.Map<int>)
    requires SortedMap.Sorted(byScore)
    requires forall i :: 0 <= i < |byScore| ==> IsId(sels, byScore[i].value)
    requires forall i :: 0 <= i < |byScore| ==> FinalScore(recent, byScore[i].value, ctx) == byScore[i].key
    requires forall k :: 0 <= k < |sels| ==> Covered(byScore, recent, ctx, sels[k].id)
    ensures Ranked(Descending(byScore, sels), sels, recent, ctx)
  {
    DescendingOrder(sels, recent, ctx, byScore);
    DescendingRepresents(sels, recent, ctx, byScore);
  }

  lemma DescendingOrder(sels: seq<Selection>, recent: seq<Event>, ctx: Context, byScore: SortedMap.Map<int>)
    requires SortedMap.Sorted(byScore)
    requires forall i :: 0 <= i < |byScore| ==> IsId(sels, byScore[i].value)
    requires forall i :: 0 <= i < |byScore| ==> FinalScore(recent, byScore[i].value, ctx) == byScore[i].key
    ensures Descends(Descending(byScore, sels), recent, ctx)
  {
    var r := Descending(byScore, sels);
    forall i, j | 0 <= i < j < |r| ensures FinalScore(recent, r[i].id, ctx) > FinalScore(recent, r[j].id, ctx) {
      DescendingAt(byScore, sels, i);
      DescendingAt(byScore, sels, j);
    }
  }

  lemma DescendingRepresents(sels: seq<Selection>, recent: seq<Event>, ctx: Context, byScore: SortedMap.Map<int>)
    requires forall i :: 0 <= i < |byScore| ==> IsId(sels, byScore[i].value)
    requires forall k :: 0 <= k < |sels| ==> Covered(byScore, recent, ctx, sels[k].id)
    requires forall i :: 0 <= i < |byScore| ==> FinalScore(recent, byScore[i].value, ctx) == byScore[i].key
    ensures Represents(Descending(byScore, sels), sels, recent, ctx)
  {
    forall k | 0 <= k < |sels| ensures RepresentedIn(Descending(byScore, sels), recent, ctx, sels[k].id) {
      CoveredRepresented(sels, recent, ctx, byScore, sels[k].id);
    }
  }

  /** An id covered by the score map is represented in the list read from it. */
  lemma CoveredRepresented(sels: seq<Selection>, recent: seq<Event>, ctx: Context, byScore: SortedMap.Map<int>, id: int)
    requires forall i :: 0 <= i < |byScore| ==> IsId(sels, byScore[i].value)
    requires forall i :: 0 <= i < |byScore| ==> FinalScore(recent, byScore[i].value, ctx) == byScore[i].key
    requires Covered(byScore, recent, ctx, id)
    ensures RepresentedIn(Descending(byScore, sels), recent, ctx, id)
  {
    var r := Descending(byScore, sels);
    var i :| 0 <= i < |byScore| && byScore[i].key == FinalScore(recent, id, ctx) && id <= byScore[i].value;
    var j := |byScore| - 1 - i;
    DescendingAt(byScore, sels, j);
    assert 0 <= j < |r| && FinalScore(recent, r[j].id, ctx) == FinalScore(recent, id, ctx) && id <= r[j].id;
  }

  lemma DescendingAt(byScore: SortedMap.Map<int>, sels: seq<Selection>, i: nat)
    requires forall i :: 0 <= i < |byScore| ==> IsId(sels, byScore[i].value)
    requires i < |byScore|
    ensures Descending(byScore, sels)[i].id == byScore[|byScore| - 1 - i].value
  {
  }

  /** What the tallies, once accumulated, say about the score map. */
  lemma RankingFacts(sels: seq<Selection>, recent: seq<Event>, ctx: Context, tallies: SortedMap.Map<Tally>,
                     acc: SortedMap.Map<Tally>, byScore: SortedMap.Map<int>)
    requires SortedMap.Sorted(tallies) && SortedMap.Sorted(acc)
    requires forall k :: SortedMap.Get(tallies, k) == if IsId(sels, k) then Some(Tally(0, 0)) else None
    requires forall k :: SortedMap.Get(acc, k) == Added(SortedMap.Get(tallies, k), recent, k, ctx)
    requires byScore == ByScore(acc)
    ensures forall i :: 0 <= i < |byScore| ==> IsId(sels, byScore[i].value)
    ensures forall i :: 0 <= i < |byScore| ==> FinalScore(recent, byScore[i].value, ctx) == byScore[i].key
    ensures forall k :: 0 <= k < |sels| ==> Covered(byScore, recent, ctx, sels[k].id)
  {
    forall i: nat | i < |byScore| {
      ScoreEntry(sels, recent, ctx, tallies, acc, byScore, i);
    }
    forall k | 0 <= k < |sels| ensures Covered(byScore, recent, ctx, sels[k].id)
    {
      ScoreRepresented(sels, recent, ctx, tallies, acc, byScore, k);
    }
  }

  /** Each entry of the score map names a known browser with that final score. */
  lemma ScoreEntry(sels: seq<Selection>, recent: seq<Event>, ctx: Context, tallies: SortedMap.Map<Tally>,
                   acc: SortedMap.Map<Tally>, byScore: SortedMap.Map<int>, i: nat)
    requires SortedMap.Sorted(acc)
    requires forall k :: SortedMap.Get(tallies, k) == if IsId(sels, k) then Some(Tally(0, 0)) else None
    requires forall k :: SortedMap.Get(acc, k) == Added(SortedMap.Get(tallies, k), recent, k, ctx)
    requires byScore == ByScore(acc)
    requires i < |byScore|
    ensures IsId(sels, byScore[i].value) && FinalScore(recent, byScore[i].value, ctx) == byScore[i].key
  {
    assert Winner(acc, byScore[i].key, byScore[i].value);
    var j :| 0 <= j < |acc| && acc[j].key == byScore[i].value && Final(acc[j]) == byScore[i].key;
    AccEntry(sels, recent, ctx, tallies, acc, j);
  }

  /** Each accumulated tally belongs to a known browser and holds its final score. */
  lemma AccEntry(sels: seq<Selection>, recent: seq<Event>, ctx: Context, tallies: SortedMap.Map<Tally>,
                 acc: SortedMap.Map<Tally>, j: nat)
    requires SortedMap.Sorted(acc)
    requires forall k :: SortedMap.Get(tallies, k) == if IsId(sels, k) then Some(Tally(0, 0)) else None
    requires forall k :: SortedMap.Get(acc, k) == Added(SortedMap.Get(tallies, k), recent, k, ctx)
    requires j < |acc|
    ensures IsId(sels, acc[j].key) && Final(acc[j]) == FinalScore(recent, acc[j].key, ctx)
  {
    SortedMap.GetEntry(acc, j);
    assert SortedMap.Get(tallies, acc[j].key).Some?;
  }

  lemma ScoreRepresented(sels: seq<Selection>, recent: seq<Event>, ctx: Context, tallies: SortedMap.Map<Tally>,
                         acc: SortedMap.Map<Tally>, byScore: SortedMap.Map<int>, k: nat)
    requires SortedMap.Sorted(tallies) && SortedMap.Sorted(acc)
    requires forall k :: SortedMap.Get(tallies, k) == if IsId(sels, k) then Some(Tally(0, 0)) else None
    requires forall k :: SortedMap.Get(acc, k) == Added(SortedMap.Get(tallies, k), recent, k, ctx)
    requires byScore == ByScore(acc)
    requires k < |sels|
    ensures Covered(byScore, recent, ctx, sels[k].id)
  {
    var id := sels[k].id;
    IsIdAt(sels, k);
    assert SortedMap.Get(acc, id).Some?;
    SortedMap.GetFound(acc, id);
    var j :| 0 <= j < |acc| && acc[j] == SortedMap.Entry(id, SortedMap.Get(acc, id).value);
    AccEntry(sels, recent, ctx, tallies, acc, j);
    var s := Final(acc[j]);
    assert SortedMap.HasKey(byScore, s);
    var i :| 0 <= i < |byScore| && byScore[i].key == s;
    assert Winner(acc, s, byScore[i].value);
  }
}
