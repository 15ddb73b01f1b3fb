/** The trackers between readings, and whole runs of them against a server. */
module StatementTracker {
  import opened ByteText
  import opened Activity
  import opened TopStatements

  const SECOND: int := 1_000_000_000
  const MIN_GAP: int := 30 * SECOND
  const MAX_GAP: int := 65 * 60 * SECOND
  const MAX_ROWS: nat := 20000

  /** The previous reading. */
  datatype Tracker<K> = Tracker(at: int, epoch: string, prev: Option<map<K, Counters>>, truncated: bool)

  /** One reading: when, in which epoch, the entries, and whether it was cut short. */
  datatype Reading<K> = Reading(epoch: string, now: int, entries: map<K, Counters>, truncated: bool)

  /** A reading can be compared with the previous one. */
  predicate Usable<K>(t: Tracker<K>, r: Reading<K>) {
    t.prev.Some? && t.epoch == r.epoch && MIN_GAP <= r.now - t.at <= MAX_GAP
  }

  /** The tracker after a reading: it always keeps the new one. */
  function Keep<K>(r: Reading<K>): Tracker<K> {
    Tracker(r.now, r.epoch, Some(r.entries), r.truncated)
  }

  /** The activity a reading is reported with. */
  function Report<K>(t: Tracker<K>, r: Reading<K>): (d: map<K, Counters>) {
    if Usable(t, r) then Deltas(t.prev.value, r.entries, t.truncated || r.truncated) else map[]
  }

  // ---- The code ----

  method MergeRows<K(==)>(rows: seq<(K, Counters)>) returns (m: map<K, Counters>)
    ensures m == Merge(rows)
  {
    m := map[];
    var i := 0;
    assert rows[..0] == [];
    while i < |rows|
      invariant 0 <= i <= |rows| && m == Merge(rows[..i])
    {
      var (k, x) := rows[i];
      assert rows[..i + 1][..i] == rows[..i] && rows[..i + 1][i] == rows[i];
      m := m[k := Add(if k in m then m[k] else ZERO, x)];
      i := i + 1;
    }
    assert rows[..i] == rows;
  }

  /** stmtState: the previous reading of pg_stat_statements. */
  class StmtState {
    var at: int
    var epoch: string
    var counters: Option<map<Key, Counters>>
    var truncated: bool

    ghost function State(): Tracker<Key>
      reads this
    {
      Tracker(at, epoch, counters, truncated)
    }

    constructor ()
      ensures State() == Tracker(0, "", None, false)
    {
      at, epoch, counters, truncated := 0, "", None, false;
    }

    /** Takes a reading of at most one row more than the limit. The state becomes the reading whatever is
        reported; the report sums, picks and totals exactly the activity since the previous one. */
    method Read(now: int, newEpoch: string, rows: seq<(Key, Counters)>) returns (qs: Option<QueryStats>)
      requires |rows| <= MAX_ROWS + 1
      modifies this
      ensures
        var r := Reading(newEpoch, now, Merge(rows[..if |rows| > MAX_ROWS then MAX_ROWS else |rows|]), |rows| > MAX_ROWS);
        && State() == Keep(r)
        && (qs.Some? <==> Usable(old(State()), r))
        && (qs.Some? ==>
              var d := Report(old(State()), r);
              && qs.value.gap == now - old(at)
              && qs.value.calls == Sum(d.Keys, d).calls && qs.value.ms == Sum(d.Keys, d).ms
              && exists ds :: IsReport(ds, d) && qs.value.statements == Pick(ds) && qs.value.leftOut == |Dropped(ds)|)
    {
      hide IsReport, Sum, Merge, Pick, Dropped, TotalOf;
      var cur := MergeRows(rows[..if |rows| > MAX_ROWS then MAX_ROWS else |rows|]);
      var prev, prevAt, prevEpoch, prevTruncated := counters, at, epoch, truncated;
      at, epoch, counters, truncated := now, newEpoch, Some(cur), |rows| > MAX_ROWS;
      if prev.None? || prevEpoch != newEpoch {
        return None;
      }
      var gap := now - prevAt;
      if gap < MIN_GAP || gap > MAX_GAP {
        return None;
      }
      var ds := StatementDeltas(prev.value, cur, prevTruncated || truncated);
      ReportTotal(ds, Deltas(prev.value, cur, prevTruncated || truncated));
      var stats := Summarize(gap, ds);
      return Some(stats);
    }
  }

  /** StmtTracker: the other engines, whose statements have one ID each. */
  class StmtTracker {
    var at: int
    var epoch: string
    var prev: Option<map<int, Counters>>
    var truncated: bool

    ghost function State(): Tracker<int>
      reads this
    {
      Tracker(at, epoch, prev, truncated)
    }

    constructor ()
      ensures State() == Tracker(0, "", None, false)
    {
      at, epoch, prev, truncated := 0, "", None, false;
    }

    /** Records a reading; the report has one entry per statement with activity, busiest first. */
    method Observe(newEpoch: string, now: int, cur: seq<(int, Counters)>, cut: bool) returns (qs: Option<QueryStats>)
      modifies this
      ensures
        var r := Reading(newEpoch, now, Merge(cur), cut);
        && State() == Keep(r)
        && (qs.Some? <==> Usable(old(State()), r))
        && (qs.Some? ==>
              var d := Report(old(State()), r);
              && qs.value.gap == now - old(at)
              && qs.value.calls == Sum(d.Keys, d).calls && qs.value.ms == Sum(d.Keys, d).ms
              && exists ds :: && ListsExactly(ds, d) && InOrder(ds)
                              && qs.value.statements == Pick(ds) && qs.value.leftOut == |Dropped(ds)|)
    {
      hide ListsExactly, Merge, Pick, Dropped, TotalOf, InOrder, Sum, Sort, BusiestFirst;
      var m := MergeRows(cur);
      var was, prevAt, prevEpoch, prevTruncated := prev, at, epoch, truncated;
      prev, at, epoch, truncated := Some(m), now, newEpoch, cut;
      if was.None? || prevEpoch != newEpoch {
        return None;
      }
      var gap := now - prevAt;
      if gap < MIN_GAP || gap > MAX_GAP {
        return None;
      }
      var list := ListDeltas(was.value, m, cut || prevTruncated);
      SortLists(list, Deltas(was.value, m, prevTruncated || cut));
      ListTotal(list, Deltas(was.value, m, prevTruncated || cut));
      var stats := BuildStats(gap, list);
      return Some(stats);
    }
  }

  /** Each entry of `d` once, with its counters. */
  ghost predicate ListsExactly(ds: seq<Delta>, d: map<int, Counters>) {
    && Distinct(ds)
    && (forall i :: 0 <= i < |ds| ==> ds[i].id in d && ds[i].totals == d[ds[i].id])
    && forall k :: k in d ==> Lists(ds, k)
  }

  method ListDeltas(prev: map<int, Counters>, cur: map<int, Counters>, truncated: bool) returns (ds: seq<Delta>)
    ensures ListsExactly(ds, Deltas(prev, cur, truncated))
  {
    hide KeyDelta;
    ghost var d := Deltas(prev, cur, truncated);
    var rest := cur.Keys;
    ds := [];
    while rest != {}
      invariant rest <= cur.Keys && Distinct(ds)
      invariant forall i :: 0 <= i < |ds| ==> ds[i].id in d.Keys - rest && ds[i].totals == d[ds[i].id]
      invariant forall k :: k in d.Keys - rest ==> Lists(ds, k)
      decreases |rest|
    {
      var k := AnyOf(rest);
      rest := rest - {k};
      var x := KeyDelta(prev, cur, truncated, k);
      if x.Some? {
        ghost var was := ds;
        ds := ds + [Delta(k, x.value, 0, 0, 0.0)];
        assert ds[|ds| - 1].id == k && forall i :: 0 <= i < |was| ==> ds[i] == was[i];
        forall l | l in d.Keys - rest ensures Lists(ds, l) {
          if l != k { ListsMore(was, ds, l); }
        }
      }
    }
  }

  lemma ListsMore(a: seq<Delta>, b: seq<Delta>, k: int)
    requires Lists(a, k) && a <= b
    ensures Lists(b, k)
  {
    var i :| 0 <= i < |a| && a[i].id == k;
    assert b[i] == a[i];
  }

  ghost function IdsOf(ds: seq<Delta>): set<int> {
    set i | 0 <= i < |ds| :: ds[i].id
  }

  lemma {:induction false} ListedTotal(ds: seq<Delta>, d: map<int, Counters>)
    requires Distinct(ds) && forall i :: 0 <= i < |ds| ==> ds[i].id in d && ds[i].totals == d[ds[i].id]
    ensures TotalOf(ds) == Sum(IdsOf(ds), d)
  {
    if ds != [] {
      var n := |ds| - 1;
      var init, last := ds[..n], ds[n];
      assert forall i :: 0 <= i < n ==> init[i] == ds[i];
      ListedTotal(init, d);
      assert IdsOf(ds) - {last.id} == IdsOf(init) && last.id in IdsOf(ds);
      SumRemove(IdsOf(ds), d, last.id);
    }
  }

  /** The total of the list is the sum over the entries. */
  lemma ListTotal(ds: seq<Delta>, d: map<int, Counters>)
    requires ListsExactly(ds, d)
    ensures TotalOf(ds) == Sum(d.Keys, d)
  {
    ListedTotal(ds, d);
    forall k | k in d ensures k in IdsOf(ds) { assert Lists(ds, k); }
    assert IdsOf(ds) == d.Keys;
  }

  lemma SortLists(list: seq<Delta>, d: map<int, Counters>)
    requires ListsExactly(list, d)
    ensures ListsExactly(Sort(list), d) && InOrder(Sort(list))
  {
    hide Sort;
    var out := Sort(list);
    SortInOrder(list);
    SameElements(out, list);
    forall i | 0 <= i < |out| ensures out[i].id in d && out[i].totals == d[out[i].id] { assert out[i] in list; }
    forall i, j | 0 <= i < j < |out| ensures out[i].id != out[j].id {
      assert Before(CoreOf(out[i]), CoreOf(out[j]));
      assert out[i].id in d && out[j].id in d;
    }
    forall k | k in d ensures Lists(out, k) {
      var i :| 0 <= i < |list| && list[i].id == k;
      assert list[i] in out;
    }
  }

  // ---- Runs ----

  /** One round: what happens on the server, then a reading of it. */
  datatype Round<K> = Round(events: seq<Event<K>>, reading: Reading<K>)

  /** Every reading is one of the server at that moment. */
  ghost predicate FaithfulRun<K(!new)>(s: map<K, Counters>, rs: seq<Round<K>>)
    decreases |rs|
  {
    rs == [] ||
    (&& ValidEvents(rs[0].events)
     && ReadingOf(rs[0].reading.entries, After(s, rs[0].events), !rs[0].reading.truncated)
     && FaithfulRun(After(s, rs[0].events), rs[1..]))
  }

  /** Everything a run reports. */
  ghost function Reported<K(!new)>(t: Tracker<K>, rs: seq<Round<K>>): (x: Counters)
    decreases |rs|
  {
    if rs == [] then ZERO
    else
      var d := Report(t, rs[0].reading);
      Add(Sum(d.Keys, d), Reported(Keep(rs[0].reading), rs[1..]))
  }

  /** Everything that ran. */
  ghost function Happened<K(!new)>(rs: seq<Round<K>>): (x: Counters)
    decreases |rs|
  {
    if rs == [] then ZERO else Add(ActualAll(rs[0].events), Happened(rs[1..]))
  }

  /** The tracker's previous reading is of the server as it was. */
  ghost predicate Follows<K(!new)>(t: Tracker<K>, s: map<K, Counters>) {
    t.prev.Some? ==> ReadingOf(t.prev.value, s, !t.truncated)
  }

  lemma RoundNeverOverCounts<K(!new)>(t: Tracker<K>, s: map<K, Counters>, r: Round<K>)
    requires ValidServer(s) && Follows(t, s) && ValidEvents(r.events)
    requires ReadingOf(r.reading.entries, After(s, r.events), !r.reading.truncated)
    ensures var d := Report(t, r.reading); AtMost(Sum(d.Keys, d), ActualAll(r.events))
  {
    if Usable(t, r.reading) {
      TotalNeverOverCounted(s, r.events, t.prev.value, r.reading.entries, t.truncated || r.reading.truncated);
    } else {
      var d := Report(t, r.reading);
      assert d.Keys == {};
      AllPositive(r.events);
    }
  }

  lemma {:induction false} AllPositive<K>(es: seq<Event<K>>)
    requires ValidEvents(es)
    ensures AtMost(ZERO, ActualAll(es))
    decreases |es|
  {
    if es != [] {
      AllPositive(es[..|es| - 1]);
      assert es[|es| - 1].Ran? ==> Growth(es[|es| - 1].grew);
    }
  }

  lemma {:induction false} ServerStaysValid<K(!new)>(s: map<K, Counters>, es: seq<Event<K>>)
    requires ValidServer(s) && ValidEvents(es)
    ensures ValidServer(After(s, es))
    decreases |es|
  {
    if es != [] {
      ServerStaysValid(s, es[..|es| - 1]);
      assert es[|es| - 1].Ran? ==> Growth(es[|es| - 1].grew);
    }
  }

  /** Over any run, with any evictions, resets, epochs, gaps and truncated readings, what is reported is at
      most what ran. */
  lemma {:induction false} RunNeverOverCounts<K(!new)>(t: Tracker<K>, s: map<K, Counters>, rs: seq<Round<K>>)
    requires ValidServer(s) && Follows(t, s) && FaithfulRun(s, rs)
    ensures AtMost(Reported(t, rs), Happened(rs))
    decreases |rs|
  {
    hide Sum, ActualAll, Report;
    if rs != [] {
      RoundNeverOverCounts(t, s, rs[0]);
      ServerStaysValid(s, rs[0].events);
      RunNeverOverCounts(Keep(rs[0].reading), After(s, rs[0].events), rs[1..]);
    }
  }

  /** A quiet run: one epoch, whole readings, gaps in range, no evictions. */
  ghost predicate QuietRun<K(!new)>(t: Tracker<K>, s: map<K, Counters>, rs: seq<Round<K>>)
    decreases |rs|
  {
    rs == [] ||
    (&& ValidEvents(rs[0].events) && (forall i :: 0 <= i < |rs[0].events| ==> rs[0].events[i].Ran?)
     && Usable(t, rs[0].reading) && !rs[0].reading.truncated
     && rs[0].reading.entries == After(s, rs[0].events)
     && QuietRun(Keep(rs[0].reading), After(s, rs[0].events), rs[1..]))
  }

  ghost function Final<K(!new)>(s: map<K, Counters>, rs: seq<Round<K>>): map<K, Counters>
    decreases |rs|
  {
    if rs == [] then s else Final(After(s, rs[0].events), rs[1..])
  }

  lemma AddAssoc(x: Counters, y: Counters, z: Counters)
    ensures Add(Add(x, y), z) == Add(x, Add(y, z)) && Add(x, y) == Add(y, x)
  {
  }

  /** One more run of `k` grows the server's total by what it ran. */
  lemma TotalGrows<K(!new)>(m: map<K, Counters>, k: K, grew: Counters)
    ensures
      var n := m[k := Add(if k in m then m[k] else ZERO, grew)];
      Sum(n.Keys, n) == Add(Sum(m.Keys, m), grew)
  {
    hide Sum;
    var old_ := if k in m then m[k] else ZERO;
    var n := m[k := Add(old_, grew)];
    SumRemove(n.Keys, n, k);
    var rest := n.Keys - {k};
    SumSame(rest, n, m);
    if k in m {
      SumRemove(m.Keys, m, k);
      assert n.Keys == m.Keys;
    } else {
      assert rest == m.Keys;
    }
    AddAssoc(old_, grew, Sum(rest, m));
    AddAssoc(grew, old_, Sum(rest, m));
    AddAssoc(old_, Sum(rest, m), grew);
    AddZero(grew);
    AddAssoc(ZERO, grew, grew);
  }

  lemma {:induction false} ServerTotal<K(!new)>(s: map<K, Counters>, es: seq<Event<K>>)
    requires forall i :: 0 <= i < |es| ==> es[i].Ran?
    ensures Sum(After(s, es).Keys, After(s, es)) == Add(Sum(s.Keys, s), ActualAll(es))
    decreases |es|
  {
    hide Sum;
    if es == [] {
      AddZero(Sum(s.Keys, s));
    } else {
      var before, e := es[..|es| - 1], es[|es| - 1];
      ServerTotal(s, before);
      TotalGrows(After(s, before), e.k, e.grew);
      AddAssoc(Sum(s.Keys, s), ActualAll(before), e.grew);
    }
  }

  /** Over a quiet run everything that ran is reported. */
  lemma {:induction false} QuietRunExact<K(!new)>(t: Tracker<K>, s: map<K, Counters>, rs: seq<Round<K>>)
    requires ValidServer(s) && t.prev == Some(s) && !t.truncated && QuietRun(t, s, rs)
    ensures Reported(t, rs) == Happened(rs)
    decreases |rs|
  {
    hide Sum, ActualAll, Deltas, After, ValidEvents, ValidServer;
    if rs != [] {
      var es := rs[0].events;
      TotalExact(s, es);
      ServerStaysValid(s, es);
      QuietRunExact(Keep(rs[0].reading), After(s, es), rs[1..]);
    }
  }

  lemma {:induction false} FinalTotal<K(!new)>(t: Tracker<K>, s: map<K, Counters>, rs: seq<Round<K>>)
    requires QuietRun(t, s, rs)
    ensures var z := Final(s, rs); Sum(z.Keys, z) == Add(Sum(s.Keys, s), Happened(rs))
    decreases |rs|
  {
    hide Sum, ActualAll, After, ValidEvents, Usable;
    if rs == [] {
      AddZero(Sum(s.Keys, s));
    } else {
      var es := rs[0].events;
      ServerTotal(s, es);
      FinalTotal(Keep(rs[0].reading), After(s, es), rs[1..]);
      AddAssoc(Sum(s.Keys, s), ActualAll(es), Happened(rs[1..]));
    }
  }

  /** The reports of a quiet run sum to the server's final totals minus its first. */
  lemma QuietRunTelescopes<K(!new)>(t: Tracker<K>, s: map<K, Counters>, rs: seq<Round<K>>)
    requires ValidServer(s) && t.prev == Some(s) && !t.truncated && QuietRun(t, s, rs)
    ensures var z := Final(s, rs); Reported(t, rs).calls == Sum(z.Keys, z).calls - Sum(s.Keys, s).calls
    ensures var z := Final(s, rs); Reported(t, rs).ms == Sum(z.Keys, z).ms - Sum(s.Keys, s).ms
  {
    hide Sum, QuietRun, Final, Reported, Happened;
    QuietRunExact(t, s, rs);
    FinalTotal(t, s, rs);
  }
}
