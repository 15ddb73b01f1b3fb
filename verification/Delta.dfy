/** Counter readings turned into increases per interval. Times are nanoseconds. */
module Delta {
  import opened ByteText

  const Second: int := 1_000_000_000

  datatype Sample = Sample(at: int, epoch: string, values: map<string, real>)

  /** What a reading reports: nothing, or how much each counter grew and in how many seconds. */
  datatype Growth = Nothing | Growth(inc: map<string, real>, seconds: real)

  /** Two readings can be compared: one epoch, at least a second apart. */
  predicate Comparable(prev: Sample, next: Sample) {
    prev.epoch == next.epoch && next.at - prev.at >= Second
  }

  /** The counters in both readings that did not go down, with the differences. */
  function Increases(prev: map<string, real>, next: map<string, real>): map<string, real> {
    map name | name in next && name in prev && next[name] >= prev[name] :: next[name] - prev[name]
  }

  function GrowthOf(prev: Option<Sample>, next: Sample): Growth {
    if prev.Some? && Comparable(prev.value, next) then
      Growth(Increases(prev.value.values, next.values), (next.at - prev.value.at) as real / Second as real)
    else Nothing
  }

  function Lookup(m: map<string, Sample>, key: string): Option<Sample> {
    if key in m then Some(m[key]) else None
  }

  /** A key's database: the text before its first slash. */
  function DatabaseOf(key: string): string {
    if key == [] || key[0] == '/' then [] else [key[0]] + DatabaseOf(key[1..])
  }

  /** Of a key <database id>/<kind> it is the database id; a key without a slash is one. */
  lemma {:induction false} DatabaseIs(id: string, kind: string)
    requires '/' !in id
    ensures DatabaseOf(id + "/" + kind) == id && DatabaseOf(id) == id
    decreases |id|
  {
    if id == "" {
      assert (id + "/" + kind)[0] == '/';
    } else {
      assert id[0] in id && forall c :: c in id[1..] ==> c in id;
      DatabaseIs(id[1..], kind);
      assert (id + "/" + kind)[1..] == id[1..] + "/" + kind;
    }
  }

  class DeltaTracker {
    var prev: map<string, Sample>

    constructor ()
      ensures prev == map[]
    {
      prev := map[];
    }

    method Observe(key: string, next: Sample) returns (g: Growth)
      modifies this
      ensures prev == old(prev)[key := next]
      ensures g == GrowthOf(Lookup(old(prev), key), next)
    {
      var p := Lookup(prev, key);
      prev := prev[key := next];
      if p.None? || p.value.epoch != next.epoch {
        return Nothing;
      }
      var seconds := (next.at - p.value.at) as real / Second as real;
      if seconds < 1.0 {
        return Nothing;
      }
      var inc: map<string, real> := map[];
      var left := next.values;
      while left != map[]
        invariant left.Keys <= next.values.Keys && forall name :: name in left ==> left[name] == next.values[name]
        invariant forall name :: name in inc <==> name in next.values && name !in left && name in Increases(p.value.values, next.values)
        invariant forall name :: name in inc ==> inc[name] == Increases(p.value.values, next.values)[name]
        decreases |left|
      {
        var name :| name in left;
        var v := left[name];
        assert |left - {name}| < |left| by { DropShrinks(left, name); }
        left := left - {name};
        if name in p.value.values && v >= p.value.values[name] {
          inc := inc[name := v - p.value.values[name]];
        }
      }
      assert inc == Increases(p.value.values, next.values);
      return Growth(inc, seconds);
    }

    method Forget(keep: set<string>)
      modifies this
      ensures prev == Kept(old(prev), keep)
    {
      var left := prev.Keys;
      while left != {}
        invariant left <= old(prev).Keys && prev.Keys <= old(prev).Keys
        invariant forall k :: k in old(prev) ==> (k in prev <==> k in left || DatabaseOf(k) in keep)
        invariant forall k :: k in prev ==> prev[k] == old(prev)[k]
        decreases |left|
      {
        var k :| k in left;
        left := left - {k};
        if DatabaseOf(k) !in keep {
          prev := prev - {k};
        }
      }
      assert prev == Kept(old(prev), keep);
    }
  }

  lemma DropShrinks(m: map<string, real>, name: string)
    requires name in m
    ensures |m - {name}| < |m|
  {
    assert (m - {name}).Keys == m.Keys - {name};
    assert |(m - {name}).Keys| == |m - {name}| && |m.Keys| == |m|;
  }

  function Kept(m: map<string, Sample>, keep: set<string>): map<string, Sample> {
    map k | k in m && DatabaseOf(k) in keep :: m[k]
  }

  // ---- Whole runs ----

  /** A call of the tracker. */
  datatype Call = Observe(key: string, next: Sample) | Forget(keep: set<string>)

  /** The tracker's samples after a run. */
  function After(calls: seq<Call>): map<string, Sample> {
    if calls == [] then map[]
    else
      var before := After(calls[..|calls| - 1]);
      match calls[|calls| - 1]
      case Observe(key, next) => before[key := next]
      case Forget(keep) => Kept(before, keep)
  }

  predicate Touches(c: Call, key: string) {
    if c.Observe? then c.key == key else DatabaseOf(key) !in c.keep
  }

  /** The calls of a run that concern a key: its readings, and the forgets that drop it. */
  function Of(calls: seq<Call>, key: string): seq<Call> {
    if calls == [] then []
    else
      var rest := Of(calls[..|calls| - 1], key);
      if Touches(calls[|calls| - 1], key) then rest + [calls[|calls| - 1]] else rest
  }

  /** Keys never affect each other: what is known of a key, and so what its next reading reports, follows from
      the calls that concern it. */
  lemma {:induction false} KeysIndependent(calls: seq<Call>, key: string)
    ensures Lookup(After(calls), key) == Lookup(After(Of(calls, key)), key)
    ensures Lookup(After(calls), key) == if Of(calls, key) != [] && Of(calls, key)[|Of(calls, key)| - 1].Observe?
                                         then Some(Of(calls, key)[|Of(calls, key)| - 1].next) else None
  {
    if calls != [] {
      var init, last := calls[..|calls| - 1], calls[|calls| - 1];
      KeysIndependent(init, key);
      if Touches(last, key) {
        assert Of(calls, key)[..|Of(calls, key)| - 1] == Of(init, key);
      }
    }
  }

  /** No reported increase is negative, whatever the readings. */
  lemma IncreasesNotNegative(prev: Option<Sample>, next: Sample, name: string)
    requires GrowthOf(prev, next).Growth? && name in GrowthOf(prev, next).inc
    ensures GrowthOf(prev, next).inc[name] >= 0.0 && GrowthOf(prev, next).seconds >= 1.0
  {
    assert (next.at - prev.value.at) as real >= Second as real;
  }

  /** A counter is reported exactly when the readings are comparable, both have it and it did not fall, even when it
      did not grow; and then with the difference. */
  lemma ReportedIff(prev: Sample, next: Sample, name: string)
    ensures
      var g := GrowthOf(Some(prev), next);
      && (g.Growth? && name in g.inc <==>
            && prev.epoch == next.epoch && next.at >= prev.at + Second
            && name in prev.values && name in next.values && prev.values[name] <= next.values[name])
      && (g.Growth? && name in g.inc ==> prev.values[name] + g.inc[name] == next.values[name])
  {
  }

  /** What one call reports of a counter. */
  function ReportedBy(before: map<string, Sample>, c: Call, key: string, name: string): real {
    if c.Observe? && c.key == key && GrowthOf(Lookup(before, key), c.next).Growth?
       && name in GrowthOf(Lookup(before, key), c.next).inc
    then GrowthOf(Lookup(before, key), c.next).inc[name]
    else 0.0
  }

  /** What a run reports of a counter in all. */
  function Reported(calls: seq<Call>, key: string, name: string): real {
    if calls == [] then 0.0
    else
      Reported(calls[..|calls| - 1], key, name)
      + ReportedBy(After(calls[..|calls| - 1]), calls[|calls| - 1], key, name)
  }

  /** A counter of which `truth` has happened by each call, and `base` by its last restart before that: a
      restart, of everything or of this counter alone, comes after all that had happened. */
  ghost predicate Counts(truth: int -> real, base: int -> real) {
    && (forall i :: base(i) <= truth(i))
    && forall i, j :: i <= j ==> truth(i) <= truth(j) && (base(j) == base(i) || base(j) >= truth(i))
  }

  /** Every reading of the counter is what has happened since its last restart. */
  ghost predicate Reads(calls: seq<Call>, key: string, name: string, truth: int -> real, base: int -> real) {
    forall i :: 0 <= i < |calls| && calls[i].Observe? && calls[i].key == key && name in calls[i].next.values ==>
      calls[i].next.values[name] == truth(i) - base(i)
  }

  /** What a reading reports is at most what happened since the one it is compared with, restarted or not. */
  lemma StepNeverOver(before: map<string, Sample>, c: Call, key: string, name: string,
                      m: int, n: int, truth: int -> real, base: int -> real)
    requires Counts(truth, base) && m <= n
    requires key in before && name in before[key].values ==> before[key].values[name] == truth(m) - base(m)
    requires c.Observe? && c.key == key && name in c.next.values ==> c.next.values[name] == truth(n) - base(n)
    ensures ReportedBy(before, c, key, name) <= truth(n) - truth(m)
  {
    assert truth(m) <= truth(n) && (base(n) == base(m) || base(n) >= truth(m)) && base(m) <= truth(m);
  }

  /** What is known of a key was read at some call, and no more has been reported than had happened by then. */
  lemma {:induction false} ReportedByReading(calls: seq<Call>, key: string, name: string,
                                             truth: int -> real, base: int -> real) returns (m: nat)
    requires Reads(calls, key, name, truth, base) && Counts(truth, base)
    ensures m <= |calls| && Reported(calls, key, name) <= truth(m) - truth(0)
    ensures key in After(calls) ==> m < |calls| && calls[m] == Observe(key, After(calls)[key])
  {
    m := 0;
    if calls != [] {
      var n := |calls| - 1;
      var init, last := calls[..n], calls[n];
      assert forall i :: 0 <= i < n ==> init[i] == calls[i];
      m := ReportedByReading(init, key, name, truth, base);
      if last.Observe? && last.key == key {
        StepNeverOver(After(init), last, key, name, m, n, truth, base);
        m := n;
      }
    }
  }

  /** A run never reports more of a counter than happened, however often it restarts, with its epoch or alone,
      and whatever is forgotten or left out of a reading. */
  lemma NeverOverReported(calls: seq<Call>, key: string, name: string, truth: int -> real, base: int -> real)
    requires Reads(calls, key, name, truth, base) && Counts(truth, base)
    ensures Reported(calls, key, name) <= truth(|calls|) - truth(0)
  {
    var m := ReportedByReading(calls, key, name, truth, base);
    assert truth(m) <= truth(|calls|);
  }

  /** The latest reading of a key, forgotten or not. */
  function Prior(calls: seq<Call>, key: string): Option<Sample> {
    if calls == [] then None
    else
      var last := calls[|calls| - 1];
      if last.Observe? && last.key == key then Some(last.next) else Prior(calls[..|calls| - 1], key)
  }

  function First(calls: seq<Call>, key: string): Option<Sample> {
    if calls == [] then None
    else
      var last, before := calls[|calls| - 1], First(calls[..|calls| - 1], key);
      if before.None? && last.Observe? && last.key == key then Some(last.next) else before
  }

  lemma {:induction false} KnownIsPrior(calls: seq<Call>, key: string)
    ensures Lookup(After(calls), key).Some? ==> Lookup(After(calls), key) == Prior(calls, key)
    ensures Prior(calls, key).Some? <==> First(calls, key).Some?
  {
    if calls != [] {
      KnownIsPrior(calls[..|calls| - 1], key);
    }
  }

  /** All readings of the key carry the counter, which never falls from one to the next. */
  predicate Climbs(calls: seq<Call>, key: string, name: string) {
    calls == [] ||
      var last, init := calls[|calls| - 1], calls[..|calls| - 1];
      Climbs(init, key, name) &&
      (last.Observe? && last.key == key ==>
        name in last.next.values
        && (Prior(init, key).Some? && name in Prior(init, key).value.values ==>
              Prior(init, key).value.values[name] <= last.next.values[name]))
  }

  /** A reading that found the counter higher than the one before it was comparable with it, and the key had
      not been forgotten in between. */
  predicate Counted(before: seq<Call>, c: Call, key: string, name: string) {
    var p := Prior(before, key);
    c.Observe? && c.key == key && p.Some? && name in p.value.values && name in c.next.values
    && p.value.values[name] < c.next.values[name] ==>
      Lookup(After(before), key).Some? && Comparable(p.value, c.next)
  }

  ghost predicate AllCounted(calls: seq<Call>, key: string, name: string) {
    forall i :: 0 <= i < |calls| ==> Counted(calls[..i], calls[i], key, name)
  }

  lemma AllCountedLast(calls: seq<Call>, key: string, name: string)
    requires calls != []
    ensures
      var n := |calls| - 1;
      AllCounted(calls, key, name) <==> AllCounted(calls[..n], key, name) && Counted(calls[..n], calls[n], key, name)
  {
    hide Counted;
    var init := calls[..|calls| - 1];
    assert forall i :: 0 <= i < |init| ==> init[i] == calls[i] && init[..i] == calls[..i];
  }

  /** How much the counter grew from the key's first reading to its latest. */
  function Span(calls: seq<Call>, key: string, name: string): real {
    var p, f := Prior(calls, key), First(calls, key);
    if p.Some? && f.Some? && name in p.value.values && name in f.value.values then
      p.value.values[name] - f.value.values[name]
    else 0.0
  }

  /** Every reading of the key so far carries the counter. */
  lemma {:induction false} ClimbsCarries(calls: seq<Call>, key: string, name: string)
    requires Climbs(calls, key, name)
    ensures Prior(calls, key).Some? ==> name in Prior(calls, key).value.values
    ensures First(calls, key).Some? ==> name in First(calls, key).value.values
  {
    if calls != [] {
      ClimbsCarries(calls[..|calls| - 1], key, name);
    }
  }

  /** One reading adds the growth it found to the report when it is counted, and less otherwise. */
  lemma StepReport(init: seq<Call>, last: Call, key: string, name: string)
    requires Climbs(init + [last], key, name)
    ensures
      var grown := Span(init + [last], key, name) - Span(init, key, name);
      var told := ReportedBy(After(init), last, key, name);
      told <= grown && (told == grown <==> Counted(init, last, key, name))
  {
    var calls := init + [last];
    assert calls[..|calls| - 1] == init && calls[|calls| - 1] == last;
    KnownIsPrior(init, key);
    ClimbsCarries(init, key, name);
    hide After;
  }

  /** For a counter that never falls, the reported increases add up to last minus first when and only when
      every reading that found growth could be compared; they never exceed it. */
  lemma {:induction false} ExactIffCounted(calls: seq<Call>, key: string, name: string)
    requires Climbs(calls, key, name)
    ensures Reported(calls, key, name) <= Span(calls, key, name)
    ensures Reported(calls, key, name) == Span(calls, key, name) <==> AllCounted(calls, key, name)
  {
    if calls != [] {
      var init, last := calls[..|calls| - 1], calls[|calls| - 1];
      assert calls == init + [last];
      assert Reported(calls, key, name) == Reported(init, key, name) + ReportedBy(After(init), last, key, name);
      ExactIffCounted(init, key, name);
      hide Counted, Span, ReportedBy, After, Reported, AllCounted;
      AllCountedLast(calls, key, name);
      StepReport(init, last, key, name);
    }
  }

  /** A key kept throughout, in one epoch, read at least a second apart: nothing is lost. */
  lemma SteadyExact(calls: seq<Call>, key: string, name: string)
    requires Climbs(calls, key, name)
    requires forall i :: 0 <= i < |calls| && calls[i].Forget? ==> DatabaseOf(key) in calls[i].keep
    requires forall i :: 0 <= i < |calls| && calls[i].Observe? && calls[i].key == key && Prior(calls[..i], key).Some? ==>
      Comparable(Prior(calls[..i], key).value, calls[i].next)
    ensures Reported(calls, key, name) == Span(calls, key, name)
  {
    ExactIffCounted(calls, key, name);
    forall i | 0 <= i < |calls| ensures Counted(calls[..i], calls[i], key, name) {
      KeptIsKnown(calls[..i], key);
    }
  }

  lemma {:induction false} KeptIsKnown(calls: seq<Call>, key: string)
    requires forall i :: 0 <= i < |calls| && calls[i].Forget? ==> DatabaseOf(key) in calls[i].keep
    ensures Prior(calls, key).Some? ==> Lookup(After(calls), key).Some?
  {
    if calls != [] {
      KeptIsKnown(calls[..|calls| - 1], key);
    }
  }
}
