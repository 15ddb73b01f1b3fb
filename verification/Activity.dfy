/** Cumulative statement counters turned into the activity of one interval, and what a server that
    evicts, forgets and re-adds entries can make of it. */
module Activity {
  import opened ByteText

  /** One entry's counters. `a`, `b` and `c` are the buffer and temporary file blocks PostgreSQL counts, or
      the rows examined, full scans and temporary tables other engines count. */
  datatype Counters = Counters(calls: int, ms: real, rows: int, a: int, b: int, c: int)

  const ZERO := Counters(0, 0.0, 0, 0, 0, 0)

  function Add(x: Counters, y: Counters): Counters {
    Counters(x.calls + y.calls, x.ms + y.ms, x.rows + y.rows, x.a + y.a, x.b + y.b, x.c + y.c)
  }

  function NotNegative(n: int): int { if n < 0 then 0 else n }

  /** The growth from `y` to `x`; rows and blocks are never negative. */
  function Minus(x: Counters, y: Counters): Counters {
    Counters(x.calls - y.calls, x.ms - y.ms, NotNegative(x.rows - y.rows),
             NotNegative(x.a - y.a), NotNegative(x.b - y.b), NotNegative(x.c - y.c))
  }

  predicate AtMost(x: Counters, y: Counters) {
    x.calls <= y.calls && x.ms <= y.ms && x.rows <= y.rows && x.a <= y.a && x.b <= y.b && x.c <= y.c
  }

  /** The next key of a map walked in no particular order. */
  method AnyOf<K>(ks: set<K>) returns (k: K)
    requires ks != {}
    ensures k in ks
  {
    k :| k in ks;
  }

  /** The same entry listed twice is summed. */
  function Merge<K(==)>(rows: seq<(K, Counters)>): (m: map<K, Counters>)
    ensures m.Keys == set r | r in rows :: r.0
  {
    if rows == [] then map[]
    else
      var (k, x) := rows[|rows| - 1];
      var m := Merge(rows[..|rows| - 1]);
      assert rows == rows[..|rows| - 1] + [rows[|rows| - 1]];
      m[k := Add(if k in m then m[k] else ZERO, x)]
  }

  /** What entry `k` did since the previous reading. A new entry, or one whose counters went backwards,
      counts whole; with a reading cut short, only entries in both count. */
  function KeyDelta<K>(prev: map<K, Counters>, cur: map<K, Counters>, truncated: bool, k: K): (d: Option<Counters>)
    requires k in cur
  {
    var x := cur[k];
    if k !in prev && truncated then None
    else
      var d := if k !in prev || x.calls < prev[k].calls || x.ms < prev[k].ms then x else Minus(x, prev[k]);
      if d.calls <= 0 then None else Some(d)
  }

  /** The entries with activity, and how much. */
  function Deltas<K>(prev: map<K, Counters>, cur: map<K, Counters>, truncated: bool): (m: map<K, Counters>) {
    map k | k in cur && KeyDelta(prev, cur, truncated, k).Some? :: KeyDelta(prev, cur, truncated, k).value
  }

  // ---- Sums over entries ----

  ghost function Sum<K>(ks: set<K>, m: map<K, Counters>): (s: Counters)
    requires ks <= m.Keys
    decreases |ks|
  {
    if ks == {} then ZERO
    else
      var k :| k in ks;
      Add(m[k], Sum(ks - {k}, m))
  }

  lemma AddSwap(x: Counters, y: Counters, z: Counters)
    ensures Add(x, Add(y, z)) == Add(y, Add(x, z))
  {
  }

  /** Any entry can be taken out first: the sum does not depend on the order. */
  lemma {:induction false} SumRemove<K>(ks: set<K>, m: map<K, Counters>, k: K)
    requires ks <= m.Keys && k in ks
    ensures Sum(ks, m) == Add(m[k], Sum(ks - {k}, m))
    decreases |ks|
  {
    var x :| x in ks && Sum(ks, m) == Add(m[x], Sum(ks - {x}, m));
    if x != k {
      var rest := ks - {x} - {k};
      assert rest == ks - {k} - {x};
      SumRemove(ks - {x}, m, k);
      SumRemove(ks - {k}, m, x);
      assert Sum(ks - {x}, m) == Add(m[k], Sum(rest, m)) && Sum(ks - {k}, m) == Add(m[x], Sum(rest, m));
      AddSwap(m[x], m[k], Sum(rest, m));
    }
  }

  lemma {:induction false} SumAtMost<K>(ks: set<K>, m: map<K, Counters>, n: map<K, Counters>)
    requires ks <= m.Keys && ks <= n.Keys && forall k :: k in ks ==> AtMost(m[k], n[k])
    ensures AtMost(Sum(ks, m), Sum(ks, n))
    decreases |ks|
  {
    if ks != {} {
      var k :| k in ks;
      SumRemove(ks, m, k);
      SumRemove(ks, n, k);
      SumAtMost(ks - {k}, m, n);
    }
  }

  // ---- The server ----

  /** What happens on the server between two readings. */
  datatype Event<K> = Ran(k: K, grew: Counters) | Evicted(k: K)

  predicate Growth(x: Counters) {
    x.calls >= 1 && x.ms >= 0.0 && x.rows >= 0 && x.a >= 0 && x.b >= 0 && x.c >= 0
  }

  predicate Cumulative(x: Counters) {
    x.calls >= 0 && x.ms >= 0.0 && x.rows >= 0 && x.a >= 0 && x.b >= 0 && x.c >= 0
  }

  predicate ValidEvents<K>(es: seq<Event<K>>) {
    forall i :: 0 <= i < |es| && es[i].Ran? ==> Growth(es[i].grew)
  }

  predicate ValidServer<K>(s: map<K, Counters>) {
    forall k :: k in s ==> Cumulative(s[k])
  }

  function After<K>(s: map<K, Counters>, es: seq<Event<K>>): (r: map<K, Counters>)
    decreases |es|
  {
    if es == [] then s
    else
      var t := After(s, es[..|es| - 1]);
      match es[|es| - 1]
      case Ran(k, grew) => t[k := Add(if k in t then t[k] else ZERO, grew)]
      case Evicted(k) => t - {k}
  }

  /** What really ran of `k`. */
  function Actual<K(==)>(es: seq<Event<K>>, k: K): (x: Counters)
    decreases |es|
  {
    if es == [] then ZERO
    else
      var x := Actual(es[..|es| - 1], k);
      var e := es[|es| - 1];
      if e.Ran? && e.k == k then Add(x, e.grew) else x
  }

  /** What really ran, of everything. */
  function ActualAll<K>(es: seq<Event<K>>): (x: Counters)
    decreases |es|
  {
    if es == [] then ZERO
    else
      var x := ActualAll(es[..|es| - 1]);
      if es[|es| - 1].Ran? then Add(x, es[|es| - 1].grew) else x
  }

  /** An entry's counters are what it had plus what ran, or, once evicted, at most what ran. */
  lemma {:induction false} EntryHistory<K>(s: map<K, Counters>, es: seq<Event<K>>, k: K)
    requires ValidServer(s) && ValidEvents(es)
    ensures ValidServer(After(s, es)) && Cumulative(Actual(es, k))
    ensures k in After(s, es) ==>
              || AtMost(After(s, es)[k], Actual(es, k))
              || (k in s && After(s, es)[k] == Add(s[k], Actual(es, k)))
    decreases |es|
  {
    if es != [] {
      EntryHistory(s, es[..|es| - 1], k);
      assert es[|es| - 1].Ran? ==> Growth(es[|es| - 1].grew);
    }
  }

  // ---- No activity is counted twice ----

  /** A reading lists entries of the server as they are; a whole one lists them all. */
  predicate ReadingOf<K(!new)>(m: map<K, Counters>, s: map<K, Counters>, whole: bool) {
    m.Keys <= s.Keys && (forall k :: k in m ==> m[k] == s[k]) && (whole ==> m == s)
  }

  /** Whatever the server evicts and re-adds between two readings, and whatever they leave out, no entry is
      reported with more calls, time, rows or blocks than really ran in between. */
  lemma NeverOverCounted<K(!new)>(s: map<K, Counters>, es: seq<Event<K>>,
                            prev: map<K, Counters>, cur: map<K, Counters>, truncated: bool, k: K)
    requires ValidServer(s) && ValidEvents(es)
    requires ReadingOf(prev, s, !truncated) && ReadingOf(cur, After(s, es), !truncated)
    requires k in Deltas(prev, cur, truncated)
    ensures AtMost(Deltas(prev, cur, truncated)[k], Actual(es, k))
  {
    EntryHistory(s, es, k);
  }

  /** Without evictions, every entry has what it had and what ran. */
  lemma {:induction false} NoEvictions<K>(s: map<K, Counters>, es: seq<Event<K>>, k: K)
    requires forall i :: 0 <= i < |es| ==> es[i].Ran?
    ensures k in s ==> k in After(s, es)
    ensures k in After(s, es) ==> After(s, es)[k] == Add(if k in s then s[k] else ZERO, Actual(es, k))
    ensures k !in After(s, es) ==> Actual(es, k) == ZERO
    decreases |es|
  {
    if es != [] { NoEvictions(s, es[..|es| - 1], k); }
  }

  /** What ran at all ran at least once. */
  lemma {:induction false} NoCallsNoTime<K>(es: seq<Event<K>>, k: K)
    requires ValidEvents(es)
    ensures Actual(es, k).calls >= 0 && (Actual(es, k).calls == 0 ==> Actual(es, k) == ZERO)
    decreases |es|
  {
    if es != [] {
      NoCallsNoTime(es[..|es| - 1], k);
      assert es[|es| - 1].Ran? ==> Growth(es[|es| - 1].grew);
    }
  }

  /** A map of what ran of each entry. */
  ghost function RanOf<K(!new)>(es: seq<Event<K>>, ks: set<K>): (m: map<K, Counters>) {
    map k | k in ks :: Actual(es, k)
  }

  /** What ran of several entries is at most what ran. */
  lemma {:induction false} PartsOfAll<K(!new)>(es: seq<Event<K>>, ks: set<K>)
    requires ValidEvents(es)
    ensures AtMost(Sum(ks, RanOf(es, ks)), ActualAll(es))
    decreases |es|
  {
    if es == [] {
      SumOfZeros(ks, RanOf(es, ks));
    } else {
      var before, e := es[..|es| - 1], es[|es| - 1];
      PartsOfAll(before, ks);
      if e.Ran? && e.k in ks {
        var k := e.k;
        assert Growth(e.grew);
        SumRemove(ks, RanOf(es, ks), k);
        SumRemove(ks, RanOf(before, ks), k);
        SumSame(ks - {k}, RanOf(es, ks), RanOf(before, ks));
      } else {
        assert e.Ran? ==> Growth(e.grew);
        SumSame(ks, RanOf(es, ks), RanOf(before, ks));
      }
    }
  }

  lemma {:induction false} SumOfZeros<K>(ks: set<K>, m: map<K, Counters>)
    requires ks <= m.Keys && forall k :: k in ks ==> m[k] == ZERO
    ensures Sum(ks, m) == ZERO
    decreases |ks|
  {
    if ks != {} {
      var k :| k in ks;
      SumRemove(ks, m, k);
      SumOfZeros(ks - {k}, m);
    }
  }

  lemma {:induction false} SumSame<K>(ks: set<K>, m: map<K, Counters>, n: map<K, Counters>)
    requires ks <= m.Keys && ks <= n.Keys && forall k :: k in ks ==> m[k] == n[k]
    ensures Sum(ks, m) == Sum(ks, n)
    decreases |ks|
  {
    if ks != {} {
      var k :| k in ks;
      SumRemove(ks, m, k);
      SumRemove(ks, n, k);
      SumSame(ks - {k}, m, n);
    }
  }

  /** An interval's reported total is at most what ran in it. */
  lemma TotalNeverOverCounted<K(!new)>(s: map<K, Counters>, es: seq<Event<K>>,
                                 prev: map<K, Counters>, cur: map<K, Counters>, truncated: bool)
    requires ValidServer(s) && ValidEvents(es)
    requires ReadingOf(prev, s, !truncated) && ReadingOf(cur, After(s, es), !truncated)
    ensures var d := Deltas(prev, cur, truncated); AtMost(Sum(d.Keys, d), ActualAll(es))
  {
    var d := Deltas(prev, cur, truncated);
    forall k | k in d.Keys ensures AtMost(d[k], RanOf(es, d.Keys)[k]) {
      NeverOverCounted(s, es, prev, cur, truncated, k);
    }
    SumAtMost(d.Keys, d, RanOf(es, d.Keys));
    PartsOfAll(es, d.Keys);
  }

  /** Every key that ran: outside them nothing did. */
  lemma {:induction false} AllOfAll<K(!new)>(es: seq<Event<K>>, ks: set<K>)
    requires forall i :: 0 <= i < |es| && es[i].Ran? ==> es[i].k in ks
    ensures Sum(ks, RanOf(es, ks)) == ActualAll(es)
    decreases |es|
  {
    if es == [] {
      SumOfZeros(ks, RanOf(es, ks));
    } else {
      var before, e := es[..|es| - 1], es[|es| - 1];
      AllOfAll(before, ks);
      if e.Ran? {
        SumRemove(ks, RanOf(es, ks), e.k);
        SumRemove(ks, RanOf(before, ks), e.k);
        SumSame(ks - {e.k}, RanOf(es, ks), RanOf(before, ks));
      } else {
        SumSame(ks, RanOf(es, ks), RanOf(before, ks));
      }
    }
  }

  lemma {:induction false} SumSplit<K>(ks: set<K>, sub: set<K>, m: map<K, Counters>)
    requires sub <= ks <= m.Keys && forall k :: k in ks - sub ==> m[k] == ZERO
    ensures Sum(ks, m) == Sum(sub, m)
    decreases |ks|
  {
    if ks != sub {
      assert exists k :: k in ks && k !in sub;
      var k :| k in ks && k !in sub;
      SumRemove(ks, m, k);
      SumSplit(ks - {k}, sub, m);
    }
  }

  /** Without evictions and with whole readings, an interval's total is exactly what ran in it. */
  lemma TotalExact<K(!new)>(s: map<K, Counters>, es: seq<Event<K>>)
    requires ValidServer(s) && ValidEvents(es) && forall i :: 0 <= i < |es| ==> es[i].Ran?
    ensures var d := Deltas(s, After(s, es), false); Sum(d.Keys, d) == ActualAll(es)
  {
    var t := After(s, es);
    var d := Deltas(s, t, false);
    forall k | k in t
      ensures (k in d ==> d[k] == Actual(es, k)) && (k !in d ==> Actual(es, k) == ZERO)
    {
      NoEvictions(s, es, k);
      NoCallsNoTime(es, k);
      EntryHistory(s, es, k);
    }
    RanAreKept(s, es);
    AllOfAll(es, t.Keys);
    SumSplit(t.Keys, d.Keys, RanOf(es, t.Keys));
    SumSame(d.Keys, d, RanOf(es, t.Keys));
  }

  lemma {:induction false} RanAreKept<K>(s: map<K, Counters>, es: seq<Event<K>>)
    requires forall i :: 0 <= i < |es| ==> es[i].Ran?
    ensures forall i :: 0 <= i < |es| ==> es[i].k in After(s, es)
    decreases |es|
  {
    if es != [] { RanAreKept(s, es[..|es| - 1]); }
  }

  // ---- Entries summed under one ID ----

  ghost function IdsOf<K(!new), I(!new)>(s: map<K, Counters>, id: K -> I): set<I> {
    set k | k in s :: id(k)
  }

  ghost function KeysOf<K(!new), I(!new)>(s: map<K, Counters>, id: K -> I, i: I): set<K> {
    set k | k in s && id(k) == i
  }

  /** A reading in which entries are listed under `id` and the ones with the same ID are summed. */
  ghost function Merged<K(!new), I(!new)>(s: map<K, Counters>, id: K -> I): (m: map<I, Counters>) {
    map i | i in IdsOf(s, id) :: Sum(KeysOf(s, id, i), s)
  }

  ghost function ActualOf<K(!new), I(!new)>(es: seq<Event<K>>, id: K -> I, i: I): (x: Counters)
    decreases |es|
  {
    if es == [] then ZERO
    else
      var x := ActualOf(es[..|es| - 1], id, i);
      var e := es[|es| - 1];
      if e.Ran? && id(e.k) == i then Add(x, e.grew) else x
  }

  /** Never over-counted, whatever the server does. */
  ghost predicate Safe<K(!new), I(!new)>(id: K -> I) {
    forall s: map<K, Counters>, es: seq<Event<K>>, i: I ::
      ValidServer(s) && ValidEvents(es) && i in Deltas(Merged(s, id), Merged(After(s, es), id), false) ==>
        AtMost(Deltas(Merged(s, id), Merged(After(s, es), id), false)[i], ActualOf(es, id, i))
  }

  ghost predicate OneEntryEach<K(!new), I(!new)>(id: K -> I) {
    forall k, l :: id(k) == id(l) ==> k == l
  }

  lemma MergedAlone<K(!new), I(!new)>(s: map<K, Counters>, id: K -> I, k: K)
    requires OneEntryEach(id)
    ensures id(k) in Merged(s, id) <==> k in s
    ensures k in s ==> Merged(s, id)[id(k)] == s[k]
  {
    if k in s {
      var ks := KeysOf(s, id, id(k));
      assert ks == {k} && id(k) in IdsOf(s, id);
      SumRemove(ks, s, k);
      assert ks - {k} == {};
    }
  }

  lemma {:induction false} ActualAlone<K(!new), I(!new)>(es: seq<Event<K>>, id: K -> I, k: K)
    requires OneEntryEach(id)
    ensures ActualOf(es, id, id(k)) == Actual(es, k)
    decreases |es|
  {
    if es != [] { ActualAlone(es[..|es| - 1], id, k); }
  }

  /** The sum of one entry, and of two. */
  lemma SumFew<K>(m: map<K, Counters>, k: K, l: K)
    requires k in m && l in m && k != l
    ensures Sum({k}, m) == m[k] && Sum({k, l}, m) == Add(m[k], m[l])
  {
    SumRemove({k}, m, k);
    SumRemove({l}, m, l);
    SumRemove({k, l}, m, k);
    assert {k} - {k} == {} && {l} - {l} == {} && {k, l} - {k} == {l};
  }

  /** Two entries under one ID: when one is evicted the sum goes backwards, and the other's old calls are
      reported as new. */
  lemma SharedIdOverCounts<K(!new), I(!new)>(id: K -> I, k: K, l: K)
    requires k != l && id(k) == id(l)
    ensures !Safe(id)
  {
    hide Sum;
    var one := Counters(1, 0.0, 0, 0, 0, 0);
    var s: map<K, Counters>, t: map<K, Counters> := map[k := one, l := one], map[k := one];
    var es: seq<Event<K>>, i := [Evicted(l)], id(k);
    assert es[..0] == [];
    assert After(s, es) == s - {l} == t;
    assert KeysOf(s, id, i) == {k, l} && i in IdsOf(s, id) by { assert k in s; }
    SumFew(s, k, l);
    assert Merged(s, id)[i].calls == 2;
    assert KeysOf(t, id, i) == {k} && i in IdsOf(t, id) by { assert k in t; }
    assert Sum({k}, t) == one by { SumRemove({k}, t, k); assert {k} - {k} == {}; SumOfZeros({}, t); }
    assert Merged(t, id)[i] == one;
    assert ActualOf(es, id, i) == ActualOf(es[..0], id, i) == ZERO;
    assert Deltas(Merged(s, id), Merged(t, id), false)[i] == one;
  }

  /** Summing the entries of one ID is safe exactly when no ID has two. */
  lemma SafeIffOneEntry<K(!new), I(!new)>(id: K -> I)
    ensures Safe(id) <==> OneEntryEach(id)
  {
    if OneEntryEach(id) {
      forall s: map<K, Counters>, es: seq<Event<K>>, i: I |
        ValidServer(s) && ValidEvents(es) && i in Deltas(Merged(s, id), Merged(After(s, es), id), false)
        ensures AtMost(Deltas(Merged(s, id), Merged(After(s, es), id), false)[i], ActualOf(es, id, i))
      {
        var k :| k in After(s, es) && id(k) == i;
        MergedAlone(s, id, k);
        MergedAlone(After(s, es), id, k);
        ActualAlone(es, id, k);
        NeverOverCounted(s, es, s, After(s, es), false, k);
      }
    } else {
      var k, l :| id(k) == id(l) && k != l;
      SharedIdOverCounts(id, k, l);
    }
  }
}
