/** Deterministic masking: the keyed byte stream, same-format replacement, and the column masker that keeps
    unique columns unique. */
module Masking {
  import opened ByteText

  type byte = x: int | 0 <= x < 256

  /** An HMAC-SHA-256 result. */
  type Digest = s: seq<byte> | |s| == 32 witness seq(32, _ => 0)

  const WRAP: int := 0x1_0000_0000

  /** binary.BigEndian.PutUint32. */
  function BigEndian(n: nat): (s: seq<byte>)
    requires n < WRAP
    ensures |s| == 4
  {
    [n / 0x100_0000, n / 0x1_0000 % 0x100, n / 0x100 % 0x100, n % 0x100]
  }

  /** The four bytes are the number's digits of base 256, highest first. */
  lemma BigEndianMeans(n: nat)
    requires n < WRAP
    ensures var s := BigEndian(n); var a: int, b: int, c: int, d: int := s[0], s[1], s[2], s[3]; n == ((a * 256 + b) * 256 + c) * 256 + d
  {
  }

  /** A value's stream as a pure function of position: block after block of 32 keyed bytes, the first being
      the seed itself; the block number is a 32-bit counter. */
  datatype Source = Source(hmac: (seq<byte>, seq<byte>) -> Digest, key: seq<byte>, seed: Digest) {
    function Block(n: nat): Digest {
      var m := n % WRAP;
      if m == 0 then seed else hmac(key, seed + BigEndian(m))
    }

    function ByteAt(k: nat): byte {
      Block(k / 32)[k % 32]
    }

    /** What is left of the last block read starts with the byte at the position reached. */
    lemma BufferIsStream(k: nat, blocks: nat, buf: seq<byte>)
      requires 1 <= |buf| <= 32 && k + |buf| == 32 * blocks && buf == Block(blocks - 1)[32 - |buf|..]
      ensures buf[0] == ByteAt(k)
    {
      hide Block;
      Position(k, blocks, |buf|);
    }

    /** The number made of three bytes from `k`, below `n`. */
    function NumberAt(k: nat, n: int): (r: int)
      requires n > 0
      ensures 0 <= r < n
    {
      (ByteAt(k) * 0x1_0000 + ByteAt(k + 1) * 0x100 + ByteAt(k + 2)) % n
    }
  }

  lemma Position(k: nat, blocks: nat, left: nat)
    requires 1 <= left <= 32 && k + left == 32 * blocks
    ensures k / 32 == blocks - 1 && k % 32 == 32 - left
  {
    assert k == 32 * (blocks - 1) + (32 - left);
  }

  lemma CounterSteps(n: nat)
    ensures (n + 1) % WRAP == if n % WRAP + 1 == WRAP then 0 else n % WRAP + 1
  {
    var q, r := n / WRAP, n % WRAP;
    assert n == q * WRAP + r;
    if r + 1 == WRAP {
      assert n + 1 == (q + 1) * WRAP;
    }
  }

  class Stream {
    const source: Source
    var buf: seq<byte>
    var block: int
    ghost var read: nat
    ghost var blocks: nat

    ghost predicate Valid()
      reads this
    {
      && |buf| <= 32 && read + |buf| == 32 * blocks && block == blocks % WRAP
      && (blocks == 0 ==> buf == [])
      && (blocks > 0 ==> buf == source.Block(blocks - 1)[32 - |buf|..])
    }

    constructor (s: Source)
      ensures Valid() && source == s && read == 0
    {
      source, buf, block, read, blocks := s, [], 0, 0, 0;
    }

    /** The next block, when all of the last has been read. */
    method Refill()
      requires Valid() && buf == []
      modifies this`buf, this`block, this`blocks
      ensures Valid() && blocks == old(blocks) + 1 && buf == source.Block(old(blocks))
    {
      if block == 0 {
        buf := source.seed;
      } else {
        buf := source.hmac(source.key, source.seed + BigEndian(block));
      }
      hide Source.Block;
      CounterSteps(blocks);
      block := if block + 1 == WRAP then 0 else block + 1;
      blocks := blocks + 1;
    }

    /** The k-th byte is byte k mod 32 of block k div 32. */
    method Byte() returns (b: byte)
      requires Valid()
      modifies this
      ensures Valid() && read == old(read) + 1
      ensures b == source.ByteAt(old(read))
    {
      hide Source.ByteAt, Source.Block;
      if |buf| == 0 {
        Refill();
      }
      source.BufferIsStream(read, blocks, buf);
      b := buf[0];
      buf := buf[1..];
      read := read + 1;
    }

    method Intn(n: int) returns (r: int)
      requires Valid() && n > 0
      modifies this
      ensures Valid() && read == old(read) + 3
      ensures r == source.NumberAt(old(read), n)
    {
      hide Source.ByteAt, Source.Block;
      var a := Byte();
      var b := Byte();
      var c := Byte();
      r := (a * 0x1_0000 + b * 0x100 + c) % n;
    }
  }

  // ---- sameFormat ----

  /** What unicode says of runes outside ASCII. */
  datatype Unicode = Unicode(isLetter: char -> bool, isUpper: char -> bool, isDigit: char -> bool)

  datatype Class = Digit | Lower | Upper | OtherDigit | Neither

  function ClassOf(u: Unicode, r: char): Class {
    if '0' <= r <= '9' then Digit
    else if 'a' <= r <= 'z' then Lower
    else if 'A' <= r <= 'Z' then Upper
    else if u.isLetter(r) then if u.isUpper(r) then Upper else Lower
    else if u.isDigit(r) then OtherDigit
    else Neither
  }

  /** The replacement of one rune, from the stream at `k`, and how many bytes it takes. */
  function MaskRune(src: Source, u: Unicode, k: nat, r: char, first: bool): (o: (char, nat)) {
    match ClassOf(u, r)
    case Digit =>
      if first && r != '0' then ((('1' as int) + src.NumberAt(k + 3, 9)) as char, 6)
      else ((('0' as int) + src.NumberAt(k, 10)) as char, 3)
    case Lower => ((('a' as int) + src.NumberAt(k, 26)) as char, 3)
    case Upper => ((('A' as int) + src.NumberAt(k, 26)) as char, 3)
    case OtherDigit => ((('0' as int) + src.NumberAt(k, 10)) as char, 3)
    case Neither => (r, 0)
  }

  function Formatted(src: Source, u: Unicode, k: nat, s: string, first: bool): (r: string)
    decreases |s|
  {
    if s == "" then ""
    else
      var (c, n) := MaskRune(src, u, k, s[0], first);
      [c] + Formatted(src, u, k + n, s[1..], first && ClassOf(u, s[0]) == Neither)
  }

  /** Digits stay digits, letters letters of their case, and everything else itself. */
  predicate SameClass(u: Unicode, r: char, o: char) {
    match ClassOf(u, r)
    case Digit => '0' <= o <= '9'
    case OtherDigit => '0' <= o <= '9'
    case Lower => 'a' <= o <= 'z'
    case Upper => 'A' <= o <= 'Z'
    case Neither => o == r
  }

  /** The format is kept: the length, each rune's class and case, and a first digit other than zero. */
  lemma {:induction false} FormatKept(src: Source, u: Unicode, k: nat, s: string, first: bool)
    ensures |Formatted(src, u, k, s, first)| == |s|
    ensures forall i :: 0 <= i < |s| ==> SameClass(u, s[i], Formatted(src, u, k, s, first)[i])
    ensures first ==> forall i :: 0 <= i < |s| && ClassOf(u, s[i]) == Digit && s[i] != '0'
                                  && (forall j :: 0 <= j < i ==> ClassOf(u, s[j]) == Neither) ==>
                                  Formatted(src, u, k, s, first)[i] != '0'
    decreases |s|
  {
    hide Source.NumberAt;
    if s != "" {
      var (c, n) := MaskRune(src, u, k, s[0], first);
      assert SameClass(u, s[0], c) && (first && ClassOf(u, s[0]) == Digit && s[0] != '0' ==> c != '0');
      hide MaskRune, SameClass, ClassOf;
      var still := first && ClassOf(u, s[0]) == Neither;
      FormatKept(src, u, k + n, s[1..], still);
      var rest := Formatted(src, u, k + n, s[1..], still);
      assert Formatted(src, u, k, s, first) == [c] + rest;
      assert forall i :: 1 <= i < |s| ==> s[i] == s[1..][i - 1] && ([c] + rest)[i] == rest[i - 1];
      forall i | 0 <= i < |s| && first && ClassOf(u, s[i]) == Digit && s[i] != '0'
                 && (forall j :: 0 <= j < i ==> ClassOf(u, s[j]) == Neither)
        ensures ([c] + rest)[i] != '0'
      {
        if i > 0 {
          assert ClassOf(u, s[0]) == Neither;
          assert forall j :: 0 <= j < i - 1 ==> s[1..][j] == s[j + 1] && ClassOf(u, s[1..][j]) == Neither;
        }
      }
    }
  }

  method MaskNext(stream: Stream, u: Unicode, r: char, first: bool) returns (o: char)
    requires stream.Valid()
    modifies stream
    ensures stream.Valid()
    ensures (o, stream.read - old(stream.read)) == MaskRune(stream.source, u, old(stream.read), r, first)
  {
    hide Source.NumberAt;
    match ClassOf(u, r)
    case Digit =>
      var d := stream.Intn(10);
      if first && r != '0' {
        d := stream.Intn(9);
        d := d + 1;
      }
      o := (('0' as int) + d) as char;
    case Lower =>
      var d := stream.Intn(26);
      o := (('a' as int) + d) as char;
    case Upper =>
      var d := stream.Intn(26);
      o := (('A' as int) + d) as char;
    case OtherDigit =>
      var d := stream.Intn(10);
      o := (('0' as int) + d) as char;
    case Neither =>
      o := r;
  }

  /** sameFormat over the stream. */
  method SameFormat(stream: Stream, u: Unicode, s: string) returns (out: string)
    requires stream.Valid()
    modifies stream
    ensures stream.Valid()
    ensures out == Formatted(stream.source, u, old(stream.read), s, true)
  {
    hide MaskRune, Formatted, ClassOf, Stream.Valid;
    out := "";
    var first, i := true, 0;
    ghost var src, start := stream.source, stream.read;
    assert s[0..] == s;
    while i < |s|
      invariant 0 <= i <= |s| && stream.Valid()
      invariant out + Formatted(src, u, stream.read, s[i..], first) == Formatted(src, u, start, s, true)
    {
      ghost var rest, was := s[i..], out;
      FormatStep(src, u, stream.read, rest, first);
      var c := MaskNext(stream, u, s[i], first);
      out, first := out + [c], first && ClassOf(u, s[i]) == Neither;
      assert rest[0] == s[i] && rest[1..] == s[i + 1..];
      ghost var tail := Formatted(src, u, stream.read, s[i + 1..], first);
      assert was + ([c] + tail) == out + tail;
      i := i + 1;
    }
    assert s[i..] == "";
    FormatEnd(src, u, stream.read, first);
  }

  lemma FormatStep(src: Source, u: Unicode, k: nat, s: string, first: bool)
    requires s != ""
    ensures
      var (c, n) := MaskRune(src, u, k, s[0], first);
      Formatted(src, u, k, s, first) == [c] + Formatted(src, u, k + n, s[1..], first && ClassOf(u, s[0]) == Neither)
  {
  }

  lemma FormatEnd(src: Source, u: Unicode, k: nat, first: bool)
    ensures Formatted(src, u, k, "", first) == ""
  {
  }

  // ---- ColumnMasker ----

  const ATTEMPTS: nat := 20

  /** The fake value for the a-th attempt at `v`, or none when the strategy leaves `v` alone. */
  type Candidates = (string, nat) -> Option<string>

  /** The first candidate that is not taken, from attempt `a` on. */
  function FirstFree(c: Candidates, v: string, taken: set<string>, a: nat): (r: Option<string>)
    requires a <= ATTEMPTS
    ensures r.Some? ==> r.value !in taken
    decreases ATTEMPTS - a
  {
    if a == ATTEMPTS then None
    else
      var nv := c(v, a);
      if nv.Some? && nv.value in taken then FirstFree(c, v, taken, a + 1) else nv
  }

  /** What the masker remembers. */
  datatype Memory = Memory(taken: set<string>, seen: map<string, string>)

  /** One call: what it returns and what is remembered after it. */
  function MaskOnce(c: Candidates, unique: bool, m: Memory, v: string): (r: (Option<string>, Memory)) {
    if v in m.seen then (Some(m.seen[v]), m)
    else if !unique then (c(v, 0), m)
    else
      var nv := FirstFree(c, v, m.taken, 0);
      if nv.None? then (None, m)
      else (nv, Memory(m.taken + {nv.value}, m.seen[v := nv.value]))
  }

  class ColumnMasker {
    const candidates: Candidates
    const unique: bool
    var taken: set<string>
    var seen: map<string, string>

    ghost function State(): Memory
      reads this
    {
      Memory(taken, seen)
    }

    constructor (c: Candidates, u: bool)
      ensures candidates == c && unique == u && State() == Memory({}, map[])
    {
      candidates, unique, taken, seen := c, u, {}, map[];
    }

    method Mask(v: string) returns (r: Option<string>)
      modifies this
      ensures (r, State()) == MaskOnce(candidates, unique, old(State()), v)
    {
      if v in seen {
        return Some(seen[v]);
      }
      var attempt := 0;
      while attempt < ATTEMPTS
        invariant 0 <= attempt <= ATTEMPTS && State() == old(State())
        invariant unique ==> FirstFree(candidates, v, taken, attempt) == FirstFree(candidates, v, taken, 0)
        invariant !unique ==> attempt == 0
      {
        var nv := candidates(v, attempt);
        if nv.None? {
          return None;
        }
        if unique {
          if nv.value in taken {
            attempt := attempt + 1;
            continue;
          }
          taken := taken + {nv.value};
          seen := seen[v := nv.value];
        }
        return nv;
      }
      return None;
    }
  }

  // ---- Histories ----

  /** What is remembered after masking `vs` in turn. */
  function After(c: Candidates, unique: bool, vs: seq<string>): (m: Memory) {
    if vs == [] then Memory({}, map[])
    else MaskOnce(c, unique, After(c, unique, vs[..|vs| - 1]), vs[|vs| - 1]).1
  }

  /** What the i-th call returns. */
  function Answer(c: Candidates, unique: bool, vs: seq<string>, i: nat): (r: Option<string>)
    requires i < |vs|
  {
    MaskOnce(c, unique, After(c, unique, vs[..i]), vs[i]).0
  }

  predicate Injective(m: map<string, string>) {
    forall v, w :: v in m && w in m && m[v] == m[w] ==> v == w
  }

  /** `taken` is exactly the values of `seen`, and no two inputs share one. */
  predicate Consistent(m: Memory) {
    m.taken == m.seen.Values && Injective(m.seen)
  }

  /** More remembered, nothing forgotten or changed. */
  predicate Extends(m: Memory, n: Memory) {
    m.taken <= n.taken && forall v :: v in m.seen ==> v in n.seen && n.seen[v] == m.seen[v]
  }

  lemma StepKeeps(c: Candidates, unique: bool, m: Memory, v: string)
    requires Consistent(m)
    ensures Consistent(MaskOnce(c, unique, m, v).1) && Extends(m, MaskOnce(c, unique, m, v).1)
  {
    var n := MaskOnce(c, unique, m, v).1;
    if n != m {
      var nv := n.seen[v];
      assert n.seen == m.seen[v := nv] && v !in m.seen;
      forall x ensures x in n.seen.Values <==> x in m.taken + {nv} {
        if x in n.seen.Values {
          var w :| w in n.seen && n.seen[w] == x;
          if w != v { assert m.seen[w] == x; }
        }
        if x in m.taken {
          var w :| w in m.seen && m.seen[w] == x;
          assert n.seen[w] == x;
        }
        if x == nv { assert n.seen[v] == x; }
      }
      forall w, z | w in n.seen && z in n.seen && n.seen[w] == n.seen[z] ensures w == z {
        if w in m.seen { assert m.seen[w] in m.taken; }
        if z in m.seen { assert m.seen[z] in m.taken; }
      }
    }
  }

  lemma {:induction false} HistoryKeeps(c: Candidates, unique: bool, vs: seq<string>, i: nat)
    requires i <= |vs|
    ensures Consistent(After(c, unique, vs[..i])) && Consistent(After(c, unique, vs))
    ensures Extends(After(c, unique, vs[..i]), After(c, unique, vs))
    decreases |vs|
  {
    if vs == [] {
      assert vs[..i] == vs;
    } else {
      var before := vs[..|vs| - 1];
      if i == |vs| {
        assert vs[..i] == vs;
        HistoryKeeps(c, unique, before, 0);
      } else {
        HistoryKeeps(c, unique, before, i);
        assert before[..i] == vs[..i];
      }
      StepKeeps(c, unique, After(c, unique, before), vs[|vs| - 1]);
    }
  }

  /** A free candidate search that ends without one ends so with more taken. */
  lemma {:induction false} StillNone(c: Candidates, v: string, few: set<string>, more: set<string>, a: nat)
    requires a <= ATTEMPTS && few <= more && FirstFree(c, v, few, a).None?
    ensures FirstFree(c, v, more, a).None?
    decreases ATTEMPTS - a
  {
    if a < ATTEMPTS && c(v, a).Some? { StillNone(c, v, few, more, a + 1); }
  }

  /** Over a whole history the same value always gets the same answer. */
  lemma SameAnswer(c: Candidates, unique: bool, vs: seq<string>, i: nat, j: nat)
    requires i < j < |vs| && vs[i] == vs[j]
    ensures Answer(c, unique, vs, i) == Answer(c, unique, vs, j)
  {
    hide FirstFree;
    var m, n := After(c, unique, vs[..i]), After(c, unique, vs[..j]);
    var after := After(c, unique, vs[..i + 1]);
    assert vs[..i + 1][..i] == vs[..i] && vs[..i + 1][i] == vs[i];
    HistoryKeeps(c, unique, vs[..j], i + 1);
    assert vs[..j][..i + 1] == vs[..i + 1];
    HistoryKeeps(c, unique, vs[..i + 1], i);
    if !unique {
      NothingSeen(c, vs[..i]);
      NothingSeen(c, vs[..j]);
    } else if Answer(c, unique, vs, i).None? {
      StaysUnseen(c, vs, vs[i], i, j);
    }
  }

  /** A value no candidate is free for is never remembered. */
  lemma {:induction false} StaysUnseen(c: Candidates, vs: seq<string>, v: string, i: nat, j: nat)
    requires i <= j <= |vs|
    requires v !in After(c, true, vs[..i]).seen && FirstFree(c, v, After(c, true, vs[..i]).taken, 0).None?
    ensures v !in After(c, true, vs[..j]).seen && FirstFree(c, v, After(c, true, vs[..j]).taken, 0).None?
    decreases j
  {
    hide FirstFree;
    if i < j {
      StaysUnseen(c, vs, v, i, j - 1);
      var m := After(c, true, vs[..j - 1]);
      assert vs[..j][..j - 1] == vs[..j - 1] && vs[..j][j - 1] == vs[j - 1];
      HistoryKeeps(c, true, vs[..j - 1], 0);
      StepKeeps(c, true, m, vs[j - 1]);
      StillNone(c, v, m.taken, After(c, true, vs[..j]).taken, 0);
    }
  }

  /** Over a whole history of a unique column no two values get the same fake. */
  lemma DistinctAnswers(c: Candidates, vs: seq<string>, i: nat, j: nat)
    requires i < |vs| && j < |vs|
    requires Answer(c, true, vs, i).Some? && Answer(c, true, vs, i) == Answer(c, true, vs, j)
    ensures vs[i] == vs[j]
  {
    Remembered(c, vs, i);
    Remembered(c, vs, j);
    HistoryKeeps(c, true, vs, 0);
  }

  /** A successful answer is remembered to the end. */
  lemma Remembered(c: Candidates, vs: seq<string>, i: nat)
    requires i < |vs| && Answer(c, true, vs, i).Some?
    ensures vs[i] in After(c, true, vs).seen && Some(After(c, true, vs).seen[vs[i]]) == Answer(c, true, vs, i)
  {
    hide FirstFree;
    assert vs[..i + 1][..i] == vs[..i] && vs[..i + 1][i] == vs[i];
    HistoryKeeps(c, true, vs, i + 1);
  }

  /** Uniqueness costs a value something exactly when its first candidate is taken: otherwise a unique column
      gives it what any other column would. */
  lemma FirstCandidateIffFree(c: Candidates, m: Memory, v: string)
    requires v !in m.seen
    ensures MaskOnce(c, true, m, v).0 == MaskOnce(c, false, Memory({}, map[]), v).0
       <==> (c(v, 0).None? || c(v, 0).value !in m.taken)
  {
    assert FirstFree(c, v, m.taken, 0).Some? ==> FirstFree(c, v, m.taken, 0).value !in m.taken;
  }

  /** A value is left alone exactly when its candidates up to some attempt are taken and then there is none,
      or all twenty are taken. */
  lemma {:induction false} NoneIff(c: Candidates, v: string, taken: set<string>, a: nat)
    requires a <= ATTEMPTS
    ensures FirstFree(c, v, taken, a).None? <==> GivesUp(c, v, taken, a)
    decreases ATTEMPTS - a
  {
    if a == ATTEMPTS {
      assert GivesUpAt(c, v, taken, a, a);
    } else {
      var next := a + 1;
      NoneIff(c, v, taken, next);
      if c(v, a).None? {
        assert GivesUpAt(c, v, taken, a, a);
      } else {
        assert !GivesUpAt(c, v, taken, a, a);
        forall n: nat | next <= n <= ATTEMPTS
          ensures GivesUpAt(c, v, taken, a, n) <==> TakenAt(c, v, taken, a) && GivesUpAt(c, v, taken, next, n)
        {
        }
      }
    }
  }

  ghost predicate GivesUp(c: Candidates, v: string, taken: set<string>, a: nat) {
    exists n: nat :: a <= n <= ATTEMPTS && GivesUpAt(c, v, taken, a, n)
  }

  predicate TakenAt(c: Candidates, v: string, taken: set<string>, k: nat) {
    c(v, k).Some? && c(v, k).value in taken
  }

  predicate GivesUpAt(c: Candidates, v: string, taken: set<string>, a: nat, n: nat) {
    && (forall k :: a <= k < n ==> TakenAt(c, v, taken, k))
    && (n < ATTEMPTS ==> c(v, n).None?)
  }

  lemma {:induction false} NothingSeen(c: Candidates, vs: seq<string>)
    ensures After(c, false, vs) == Memory({}, map[])
    decreases |vs|
  {
    if vs != [] { NothingSeen(c, vs[..|vs| - 1]); }
  }
}
