/** SHA-256-crypt (Drepper, "Unix crypt using SHA-256 and SHA-512") over an arbitrary hash with 32-byte
    results: the bytes fed to the hash, the rounds, and the 43-character encoding of the result. */
module Crypt {
  type Byte = x: int | 0 <= x < 256
  type Bytes = seq<Byte>
  type Digest = d: Bytes | |d| == 32 witness seq(32, _ => 0)

  // ---- What the hash is fed ----

  /** The first n bytes of d written over and over. */
  function Cyclic(d: Bytes, n: nat): (r: Bytes)
    requires d != []
    ensures |r| == n
  {
    seq(n, i requires 0 <= i => d[i % |d|])
  }

  /** After q whole copies, the first m bytes of the next. */
  lemma CyclicStep(d: Bytes, q: nat, m: nat)
    requires d != [] && m <= |d|
    ensures q * |d| >= 0 && Cyclic(d, q * |d|) + d[..m] == Cyclic(d, q * |d| + m)
  {
    var k := q * |d|;
    assert k >= 0;
    forall j | 0 <= j < k + m ensures (Cyclic(d, k) + d[..m])[j] == Cyclic(d, k + m)[j] {
      if j >= k {
        ModOf(q, j - k, |d|);
      }
    }
  }

  lemma ModOf(q: int, r: nat, n: nat)
    requires r < n
    ensures (q * n + r) % n == r
  {
    var x := q * n + r;
    assert x / n * n + x % n == x;
    OneRemainder(q, x / n, n, r, x % n);
  }

  lemma OneRemainder(q: int, u: int, n: nat, r: nat, s: nat)
    requires r < n && s < n && q * n + r == u * n + s
    ensures r == s
  {
    if q > u {
      assert (q - u) * n == s - r;
      MultipleGap(q - u, n);
    } else {
      assert (u - q) * n == r - s;
      MultipleGap(u - q, n);
    }
  }

  lemma {:induction false} MultipleGap(d: nat, n: nat)
    ensures d > 0 ==> d * n >= n
  {
    if d > 0 {
      MultipleGap(d - 1, n);
      assert d * n == (d - 1) * n + n;
    }
  }

  /** repeatTo. */
  method RepeatTo(d: Bytes, n: nat) returns (out: Bytes)
    requires d != []
    ensures out == Cyclic(d, n)
  {
    hide Cyclic;
    out := [];
    ghost var q := 0;
    assert Cyclic(d, 0) == [];
    while |out| < n
      invariant |out| <= n && out == Cyclic(d, |out|)
      invariant |out| == n || |out| == q * |d|
    {
      var m := if |d| < n - |out| then |d| else n - |out|;
      CyclicStep(d, q, m);
      assert (q + 1) * |d| == q * |d| + |d|;
      out := out + d[..m];
      q := q + 1;
    }
  }

  /** The 32-byte blocks and the remainder fed for a password of n bytes. */
  method FeedBlocks(db: Digest, n: nat) returns (fed: Bytes)
    ensures fed == Cyclic(db, n)
  {
    fed := [];
    var left: nat := n;
    ghost var q := 0;
    while left > 32
      invariant q * 32 + left == n && fed == Cyclic(db, q * 32)
    {
      CyclicStep(db, q, 32);
      assert db[..32] == db;
      fed := fed + db;
      left := left - 32;
      q := q + 1;
    }
    CyclicStep(db, q, left);
    fed := fed + db[..left];
  }

  /** s written k times. */
  function Times(s: Bytes, k: nat): Bytes {
    if k == 0 then [] else Times(s, k - 1) + s
  }

  method WriteTimes(s: Bytes, k: nat) returns (fed: Bytes)
    ensures fed == Times(s, k)
  {
    fed := [];
    for i := 0 to k
      invariant fed == Times(s, i)
    {
      fed := fed + s;
    }
  }

  /** Writing s k times is the first k * |s| bytes of s repeated. */
  lemma {:induction false} TimesIsCyclic(s: Bytes, k: nat)
    requires s != []
    ensures Times(s, k) == Cyclic(s, k * |s|)
  {
    if k > 0 {
      TimesIsCyclic(s, k - 1);
      assert (k - 1) * |s| + |s| == k * |s| && s[..|s|] == s;
      CyclicStep(s, k - 1, |s|);
    }
  }

  /** A number's binary digits, lowest first. */
  function FromBits(bits: seq<bool>): nat {
    if bits == [] then 0 else (if bits[0] then 1 else 0) + 2 * FromBits(bits[1..])
  }

  /** The digest for each 1 and the password for each 0. */
  function Blocks(bits: seq<bool>, db: Bytes, p: Bytes): Bytes {
    if bits == [] then [] else (if bits[0] then db else p) + Blocks(bits[1..], db, p)
  }

  /** The digits of n without leading zeros. */
  ghost predicate BitsOf(bits: seq<bool>, n: nat) {
    FromBits(bits) == n && (bits != [] ==> bits[|bits| - 1])
  }

  lemma {:induction false} BitsAreUnique(a: seq<bool>, b: seq<bool>, n: nat)
    requires BitsOf(a, n) && BitsOf(b, n)
    ensures a == b
    decreases |a|
  {
    if a != [] && b != [] {
      if |a| > 1 || |b| > 1 {
        NoLeadingZero(a[1..]);
        NoLeadingZero(b[1..]);
      }
      BitsAreUnique(a[1..], b[1..], FromBits(a[1..]));
      assert a == [a[0]] + a[1..] && b == [b[0]] + b[1..];
    } else {
      NoLeadingZero(a);
      NoLeadingZero(b);
    }
  }

  lemma {:induction false} NoLeadingZero(a: seq<bool>)
    ensures a != [] && a[|a| - 1] ==> FromBits(a) > 0
    decreases |a|
  {
    if |a| > 1 {
      NoLeadingZero(a[1..]);
    }
  }

  lemma {:induction false} SnocBit(bits: seq<bool>, b: bool)
    ensures FromBits(bits + [b]) == FromBits(bits) + (if b then Power2(|bits|) else 0)
    decreases |bits|
  {
    if bits == [] {
      assert [b][1..] == [] && bits + [b] == [b];
    } else {
      assert (bits + [b])[1..] == bits[1..] + [b];
      SnocBit(bits[1..], b);
    }
  }

  lemma {:induction false} SnocBlock(bits: seq<bool>, b: bool, db: Bytes, p: Bytes)
    ensures Blocks(bits + [b], db, p) == Blocks(bits, db, p) + (if b then db else p)
    decreases |bits|
  {
    if bits == [] {
      assert [b][1..] == [] && bits + [b] == [b];
    } else {
      assert (bits + [b])[1..] == bits[1..] + [b];
      SnocBlock(bits[1..], b, db, p);
    }
  }

  function Power2(k: nat): nat {
    if k == 0 then 1 else 2 * Power2(k - 1)
  }

  /** The loop that halves the password's length, writing the digest or the password for each bit. */
  method FeedBits(p: Bytes, db: Bytes) returns (fed: Bytes)
    ensures exists bits :: BitsOf(bits, |p|) && fed == Blocks(bits, db, p)
  {
    fed := [];
    ghost var bits: seq<bool> := [];
    var i: nat := |p|;
    while i > 0
      invariant FromBits(bits) + i * Power2(|bits|) == |p| && fed == Blocks(bits, db, p)
      invariant i == 0 && bits != [] ==> bits[|bits| - 1]
    {
      hide FromBits, Blocks;
      SnocBit(bits, i % 2 != 0);
      SnocBlock(bits, i % 2 != 0, db, p);
      HalfStep(i, Power2(|bits|));
      fed := fed + if i % 2 != 0 then db else p;
      bits := bits + [i % 2 != 0];
      i := i / 2;
    }
    assert i * Power2(|bits|) == 0;
    assert BitsOf(bits, |p|);
  }

  lemma HalfStep(i: nat, w: nat)
    ensures i * w == (if i % 2 != 0 then w else 0) + i / 2 * (2 * w)
  {
    assert i == 2 * (i / 2) + i % 2;
    assert i * w == 2 * (i / 2) * w + i % 2 * w;
    assert 2 * (i / 2) * w == i / 2 * (2 * w);
  }

  // ---- The rounds ----

  /** What round r hashes, from the result so far and the password's and salt's sequences. */
  function RoundInput(r: nat, c: Bytes, ps: Bytes, ss: Bytes): Bytes {
    (if r % 2 == 1 then ps else c) + (if r % 3 != 0 then ss else []) + (if r % 7 != 0 then ps else [])
    + (if r % 2 == 1 then c else ps)
  }

  /** What a round hashes is made of: the result so far, the password's sequence and the salt's. */
  datatype Ingredient = Result | Password | Salt

  function Pour(parts: seq<Ingredient>, c: Bytes, ps: Bytes, ss: Bytes): Bytes {
    if parts == [] then []
    else (match parts[0] case Result => c case Password => ps case Salt => ss) + Pour(parts[1..], c, ps, ss)
  }

  function Middle(r: nat): seq<Ingredient> {
    if r % 21 == 0 then [] else if r % 3 == 0 then [Password] else if r % 7 == 0 then [Salt] else [Salt, Password]
  }

  lemma PourTwo(x: Ingredient, y: Ingredient, m: seq<Ingredient>, c: Bytes, ps: Bytes, ss: Bytes)
    ensures Pour([x] + m + [y], c, ps, ss) == Pour([x], c, ps, ss) + Pour(m, c, ps, ss) + Pour([y], c, ps, ss)
  {
    PourJoins([x] + m, [y], c, ps, ss);
    PourJoins([x], m, c, ps, ss);
  }

  lemma {:induction false} PourJoins(a: seq<Ingredient>, b: seq<Ingredient>, c: Bytes, ps: Bytes, ss: Bytes)
    ensures Pour(a + b, c, ps, ss) == Pour(a, c, ps, ss) + Pour(b, c, ps, ss)
    decreases |a|
  {
    if a == [] {
      assert a + b == b;
    } else {
      assert (a + b)[1..] == a[1..] + b;
      PourJoins(a[1..], b, c, ps, ss);
    }
  }

  lemma PourOne(x: Ingredient, c: Bytes, ps: Bytes, ss: Bytes)
    ensures Pour([x], c, ps, ss) == match x case Result => c case Password => ps case Salt => ss
  {
    assert [x][1..] == [];
  }

  lemma PourMiddle(r: nat, c: Bytes, ps: Bytes, ss: Bytes)
    ensures Pour(Middle(r), c, ps, ss) == (if r % 3 != 0 then ss else []) + (if r % 7 != 0 then ps else [])
    ensures (Salt in Middle(r) <==> r % 3 != 0) && (Password in Middle(r) <==> r % 7 != 0)
  {
    PourOne(Password, c, ps, ss);
    PourOne(Salt, c, ps, ss);
    PourJoins([Salt], [Password], c, ps, ss);
    assert [Salt] + [Password] == [Salt, Password];
    assert r % 21 == 0 <==> r % 3 == 0 && r % 7 == 0;
  }

  /** A round hashes the result so far once, first in even rounds and last in odd ones; the password's sequence at the
      other end, and once more in between unless the round is a multiple of 7; and the salt's in between
      unless it is a multiple of 3. */
  lemma RoundInputIs(r: nat, c: Bytes, ps: Bytes, ss: Bytes)
    ensures RoundInput(r, c, ps, ss)
         == Pour(if r % 2 == 0 then [Result] + Middle(r) + [Password] else [Password] + Middle(r) + [Result], c, ps, ss)
    ensures (Salt in Middle(r) <==> r % 3 != 0) && (Password in Middle(r) <==> r % 7 != 0)
  {
    hide Pour, Middle;
    PourMiddle(r, c, ps, ss);
    PourOne(Result, c, ps, ss);
    PourOne(Password, c, ps, ss);
    PourTwo(Result, Password, Middle(r), c, ps, ss);
    PourTwo(Password, Result, Middle(r), c, ps, ss);
  }

  function Rounds(sha: Bytes -> Digest, c: Digest, ps: Bytes, ss: Bytes, rounds: nat): Digest {
    if rounds == 0 then c else sha(RoundInput(rounds - 1, Rounds(sha, c, ps, ss, rounds - 1), ps, ss))
  }

  function SaltCopies(da: Digest): nat {
    var first: int := da[0];
    16 + first
  }

  /** Every digest of the algorithm, step by step as Drepper numbers them: B is step 8's, A step 12's, P and
      S the sequences of steps 16 and 20, and the result is step 21's. */
  ghost predicate IsCrypt(sha: Bytes -> Digest, p: Bytes, s: Bytes, rounds: nat, result: Digest) {
    exists bits ::
      && BitsOf(bits, |p|)
      && var db := sha(p + s + p);
         var da := sha(p + s + Cyclic(db, |p|) + Blocks(bits, db, p));
         var ps := Cyclic(sha(Times(p, |p|)), |p|);
         var ss := Cyclic(sha(Times(s, SaltCopies(da))), |s|);
         result == Rounds(sha, da, ps, ss, rounds)
  }

  /** The definition determines the result. */
  lemma CryptIsUnique(sha: Bytes -> Digest, p: Bytes, s: Bytes, rounds: nat, a: Digest, b: Digest)
    requires IsCrypt(sha, p, s, rounds, a) && IsCrypt(sha, p, s, rounds, b)
    ensures a == b
  {
    hide Rounds, Cyclic, Times, Blocks, FromBits;
    forall x, y | BitsOf(x, |p|) && BitsOf(y, |p|) ensures x == y {
      BitsAreUnique(x, y, |p|);
    }
  }

  /** sha256Crypt up to the encoding. */
  method HashRounds(sha: Bytes -> Digest, p: Bytes, s: Bytes, rounds: nat) returns (c: Digest)
    ensures IsCrypt(sha, p, s, rounds, c)
  {
    hide Cyclic, Blocks, BitsOf, Times, RoundInput;
    var db := sha(p + s + p);
    var fed := FeedBlocks(db, |p|);
    var tail := FeedBits(p, db);
    var da := sha(p + s + fed + tail);
    var copies := WriteTimes(p, |p|);
    var ps := RepeatTo(sha(copies), |p|);
    copies := WriteTimes(s, SaltCopies(da));
    var ss := RepeatTo(sha(copies), |s|);
    c := da;
    for r := 0 to rounds
      invariant c == Rounds(sha, da, ps, ss, r)
    {
      var h := RoundBytes(r, c, ps, ss);
      c := sha(h);
    }
  }

  method RoundBytes(r: nat, c: Bytes, ps: Bytes, ss: Bytes) returns (h: Bytes)
    ensures h == RoundInput(r, c, ps, ss)
  {
    h := if r % 2 != 0 then ps else c;
    if r % 3 != 0 {
      h := h + ss;
    }
    if r % 7 != 0 {
      h := h + ps;
    }
    h := h + if r % 2 != 0 then c else ps;
  }

  // ---- The encoding ----

  const Signs: string := "./0123456789"
  const Upper: string := "ABCDEFGHIJKLMNOPQRSTUVWXYZ"
  const Lower: string := "abcdefghijklmnopqrstuvwxyz"
  const Alphabet: string := Signs + Upper + Lower

  /** What a character of the alphabet stands for; -1 for any other. */
  function Digit(c: char): int {
    if c == '.' then 0
    else if c == '/' then 1
    else if '0' <= c <= '9' then c as int - '0' as int + 2
    else if 'A' <= c <= 'Z' then c as int - 'A' as int + 12
    else if 'a' <= c <= 'z' then c as int - 'a' as int + 38
    else -1
  }

  lemma SignAt(k: nat)
    requires k < 12
    ensures |Signs| == 12 && Digit(Signs[k]) == k
  {
  }

  lemma UpperAt(k: nat)
    requires k < 26
    ensures |Upper| == 26 && Digit(Upper[k]) == k + 12
  {
    assert Upper[k] as int == 'A' as int + k;
  }

  lemma LowerAt(k: nat)
    requires k < 26
    ensures |Lower| == 26 && Digit(Lower[k]) == k + 38
  {
    assert Lower[k] as int == 'a' as int + k;
  }

  lemma AlphabetDigit(k: nat)
    requires k < 64
    ensures |Alphabet| == 64 && Digit(Alphabet[k]) == k
  {
    hide Signs, Upper, Lower, Digit;
    SignAt(if k < 12 then k else 0);
    UpperAt(if 12 <= k < 38 then k - 12 else 0);
    LowerAt(if 38 <= k then k - 38 else 0);
  }

  lemma DigitInjective(a: char, b: char)
    requires Digit(a) == Digit(b) >= 0
    ensures a == b
  {
  }

  lemma DigitBound(c: char)
    ensures Digit(c) < 64
  {
  }

  predicate InAlphabet(t: string) {
    forall i :: 0 <= i < |t| ==> Digit(t[i]) >= 0
  }

  /** A text as a number of base 64, lowest digit first. */
  function Number(t: string): int {
    if t == [] then 0 else Digit(t[0]) + 64 * Number(t[1..])
  }

  function Power64(k: nat): nat {
    if k == 0 then 1 else 64 * Power64(k - 1)
  }

  lemma {:induction false} NumberBound(t: string)
    requires InAlphabet(t)
    ensures 0 <= Number(t) < Power64(|t|)
    decreases |t|
  {
    if t != [] {
      NumberBound(t[1..]);
    }
  }

  lemma {:induction false} NumberInjective(t: string, u: string)
    requires InAlphabet(t) && InAlphabet(u) && |t| == |u| && Number(t) == Number(u)
    ensures t == u
    decreases |t|
  {
    if t != [] {
      DigitBound(t[0]);
      DigitBound(u[0]);
      hide Digit, Power64;
      OneDigit(Digit(t[0]), Number(t[1..]), Digit(u[0]), Number(u[1..]));
      DigitInjective(t[0], u[0]);
      NumberInjective(t[1..], u[1..]);
      assert t == [t[0]] + t[1..] && u == [u[0]] + u[1..];
    }
  }

  lemma OneDigit(a: nat, x: int, b: nat, y: int)
    requires a < 64 && b < 64 && a + 64 * x == b + 64 * y
    ensures a == b && x == y
  {
  }

  lemma {:induction false} NumberSnoc(t: string, c: char)
    ensures Number(t + [c]) == Number(t) + Power64(|t|) * Digit(c)
    decreases |t|
  {
    hide Digit;
    if t == [] {
      assert t + [c] == [c] && [c][1..] == [];
    } else {
      NumberSnoc(t[1..], c);
      assert (t + [c])[1..] == t[1..] + [c];
      assert Power64(|t|) * Digit(c) == 64 * (Power64(|t| - 1) * Digit(c));
    }
  }

  /** Three bytes as one number. */
  function Word(b2: Byte, b1: Byte, b0: Byte): (w: nat)
    ensures w < Power64(4) && (b2 == 0 ==> w < Power64(3))
  {
    assert Power64(4) == 16777216 && Power64(3) == 262144;
    b2 as int * 65536 + b1 as int * 256 + b0 as int
  }

  /** b64: the lowest n digits of base 64 of a word, lowest first. */
  method B64(b2: Byte, b1: Byte, b0: Byte, n: nat) returns (t: string)
    requires Word(b2, b1, b0) < Power64(n)
    ensures |t| == n && InAlphabet(t) && Number(t) == Word(b2, b1, b0)
  {
    assert Number("") == 0;
    hide Digit, Word, Number;
    ghost var whole := Word(b2, b1, b0);
    var w: nat := Word(b2, b1, b0);
    t := [];
    for i := 0 to n
      invariant |t| == i && InAlphabet(t) && Number(t) + Power64(i) * w == whole
      invariant w < Power64(n - i)
    {
      var c := Letter(w % 64);
      NumberSnoc(t, c);
      Shift(Power64(i), w);
      t := t + [c];
      w := w / 64;
    }
    assert w == 0;
  }

  function Letter(k: nat): (c: char)
    requires k < 64
    ensures Digit(c) == k
  {
    AlphabetDigit(k);
    Alphabet[k]
  }

  lemma Shift(k: nat, w: nat)
    ensures k * w == k * (w % 64) + 64 * k * (w / 64)
  {
    var q, r := w / 64, w % 64;
    assert k * (r + 64 * q) == k * r + 64 * k * q;
  }

  /** Which digest bytes each group of four characters holds. */
  function Group(g: nat): seq<nat> {
    if g == 0 then [0, 10, 20] else if g == 1 then [21, 1, 11] else if g == 2 then [12, 22, 2]
    else if g == 3 then [3, 13, 23] else if g == 4 then [24, 4, 14] else if g == 5 then [15, 25, 5]
    else if g == 6 then [6, 16, 26] else if g == 7 then [27, 7, 17] else if g == 8 then [18, 28, 8]
    else [9, 19, 29]
  }

  /** Where a byte stands: in the group of its last decimal digit, at a place that rotates from group to
      group. Every byte below 30 has exactly one place. */
  function Place(i: nat): (q: nat)
    ensures q < 3
  {
    (i / 10 + i % 10) % 3
  }

  lemma GroupAt(g: nat, q: nat)
    requires g < 10 && q < 3
    ensures |Group(g)| == 3 && Group(g)[q] < 30 && Group(g)[q] % 10 == g && Place(Group(g)[q]) == q
  {
    var i := Group(g)[q];
    assert i == g || i == g + 10 || i == g + 20;
    assert i % 10 == g && i / 10 == (if i == g then 0 else if i == g + 10 then 1 else 2);
  }

  lemma PlaceAt(i: nat)
    requires i < 30
    ensures |Group(i % 10)| == 3 && Group(i % 10)[Place(i)] == i
  {
    GroupAt(i % 10, Place(i));
  }

  /** Byte q of a word. */
  function Part(w: nat, q: nat): (b: Byte)
    requires w < 16777216
  {
    if q == 0 then w / 65536 else if q == 1 then w / 256 % 256 else w % 256
  }

  lemma WordParts(w: nat)
    requires w < 16777216
    ensures Word(Part(w, 0), Part(w, 1), Part(w, 2)) == w
  {
  }

  lemma PartsOfWord(b2: Byte, b1: Byte, b0: Byte)
    ensures Word(b2, b1, b0) < 16777216
    ensures Part(Word(b2, b1, b0), 0) == b2 && Part(Word(b2, b1, b0), 1) == b1 && Part(Word(b2, b1, b0), 2) == b0
  {
    var high := b2 as int * 256 + b1 as int;
    assert Word(b2, b1, b0) == high * 256 + b0 as int;
  }

  function Chunk(t: string, g: nat): string
    requires |t| == 43 && g < 11
  {
    if g == 10 then t[40..] else t[4 * g..4 * g + 4]
  }

  /** The word group g of a digest holds; the last is the two bytes left over. */
  function GroupWord(d: Digest, g: nat): nat
    requires g < 11
  {
    if g == 10 then Word(0, d[31], d[30])
    else
      GroupAt(g, 0); GroupAt(g, 1); GroupAt(g, 2);
      Word(d[Group(g)[0]], d[Group(g)[1]], d[Group(g)[2]])
  }

  /** t encodes d: 43 characters of the alphabet, each group of them a group's word. */
  predicate Encodes(t: string, d: Digest) {
    |t| == 43 && InAlphabet(t) && forall g :: 0 <= g < 11 ==> Number(Chunk(t, g)) == GroupWord(d, g)
  }

  method EncodeGroup(c: Digest, g: nat) returns (t: string)
    requires g < 11
    ensures |t| == (if g < 10 then 4 else 3) && InAlphabet(t) && Number(t) == GroupWord(c, g)
  {
    if g < 10 {
      hide Word, Number, InAlphabet, Power64;
      GroupAt(g, 0);
      GroupAt(g, 1);
      GroupAt(g, 2);
      t := B64(c[Group(g)[0]], c[Group(g)[1]], c[Group(g)[2]], 4);
    } else {
      t := B64(0, c[31], c[30], 3);
    }
  }

  /** The encoding of a digest, group by group. */
  method Encode(c: Digest) returns (t: string)
    ensures Encodes(t, c)
  {
    t := "";
    assert InAlphabet(t);
    hide GroupWord, Number, InAlphabet;
    for g := 0 to 10
      invariant |t| == 4 * g && InAlphabet(t)
      invariant forall j :: 0 <= j < g ==> Number(t[4 * j..4 * j + 4]) == GroupWord(c, j)
    {
      var next := EncodeGroup(c, g);
      AppendChunk(t, next);
      forall j | 0 <= j < g ensures (t + next)[4 * j..4 * j + 4] == t[4 * j..4 * j + 4] {}
      t := t + next;
    }
    var last := EncodeGroup(c, 10);
    AppendChunk(t, last);
    ghost var was := t;
    t := t + last;
    forall g | 0 <= g < 11 ensures Number(Chunk(t, g)) == GroupWord(c, g) {
      if g < 10 {
        assert Chunk(t, g) == was[4 * g..4 * g + 4];
      } else {
        assert Chunk(t, g) == last;
      }
    }
  }

  lemma AppendChunk(t: string, u: string)
    requires InAlphabet(t) && InAlphabet(u)
    ensures InAlphabet(t + u) && (t + u)[|t|..] == u && (t + u)[|t|..|t| + |u|] == u
  {
  }

  /** What sha256Crypt's encoding can produce: 43 characters of the alphabet, the last one of the first 16. */
  predicate IsCode(t: string) {
    |t| == 43 && InAlphabet(t) && Digit(t[42]) < 16
  }

  lemma ChunkBound(t: string, g: nat)
    requires |t| == 43 && InAlphabet(t) && g < 11
    ensures InAlphabet(Chunk(t, g)) && |Chunk(t, g)| == (if g < 10 then 4 else 3)
    ensures 0 <= Number(Chunk(t, g)) < 16777216
  {
    NumberBound(Chunk(t, g));
    assert Power64(4) == 16777216 && Power64(3) == 262144;
  }

  function DecodeByte(t: string, i: nat): Byte
    requires |t| == 43 && InAlphabet(t) && i < 32
  {
    var g := if i < 30 then i % 10 else 10;
    ChunkBound(t, g);
    Part(Number(Chunk(t, g)), if i < 30 then Place(i) else 32 - i)
  }

  function Decode(t: string): Digest
    requires |t| == 43 && InAlphabet(t)
  {
    seq(32, i requires 0 <= i < 32 => DecodeByte(t, i))
  }

  /** Every digest byte can be read back from the text. */
  lemma DecodeInvertsEncode(t: string, d: Digest)
    requires Encodes(t, d)
    ensures Decode(t) == d
  {
    hide Word, Part, Number, Chunk, InAlphabet, Group;
    forall i | 0 <= i < 32 ensures DecodeByte(t, i) == d[i] {
      if i < 30 {
        var g := i % 10;
        GroupAt(g, 0);
        GroupAt(g, 1);
        GroupAt(g, 2);
        assert Number(Chunk(t, g)) == GroupWord(d, g);
        PartsOfWord(d[Group(g)[0]], d[Group(g)[1]], d[Group(g)[2]]);
        PlaceAt(i);
      } else {
        assert Number(Chunk(t, 10)) == GroupWord(d, 10);
        PartsOfWord(0, d[31], d[30]);
      }
    }
  }

  /** Different digests have different texts, and one digest has one text. */
  lemma EncodingInjective(t: string, u: string, d: Digest, e: Digest)
    requires Encodes(t, d) && Encodes(u, e)
    ensures t == u <==> d == e
  {
    DecodeInvertsEncode(t, d);
    DecodeInvertsEncode(u, e);
    if d == e {
      hide Number, GroupWord, Decode, Chunk, InAlphabet;
      forall g | 0 <= g < 11 ensures Chunk(t, g) == Chunk(u, g) {
        assert Number(Chunk(t, g)) == GroupWord(d, g) == Number(Chunk(u, g));
        ChunkBound(t, g);
        ChunkBound(u, g);
        NumberInjective(Chunk(t, g), Chunk(u, g));
      }
      SameChunks(t, u);
    }
  }

  lemma SameChunks(t: string, u: string)
    requires |t| == |u| == 43 && forall g :: 0 <= g < 11 ==> Chunk(t, g) == Chunk(u, g)
    ensures t == u
  {
    forall k | 0 <= k < 43 ensures t[k] == u[k] {
      var g := if k < 40 then k / 4 else 10;
      assert t[k] == Chunk(t, g)[k - 4 * g] && u[k] == Chunk(u, g)[k - 4 * g];
    }
  }

  /** Exactly the codes are encodings. */
  lemma CodesAreEncodings(t: string)
    ensures IsCode(t) <==> exists d: Digest :: Encodes(t, d)
  {
    if IsCode(t) {
      EncodeInvertsDecode(t);
    }
    forall d: Digest | Encodes(t, d) ensures IsCode(t) {
      assert Number(Chunk(t, 10)) == GroupWord(d, 10);
      LastDigit(t);
    }
  }

  /** The last chunk is below 65536 exactly when its last digit is below 16. */
  lemma LastDigit(t: string)
    requires |t| == 43 && InAlphabet(t)
    ensures Number(Chunk(t, 10)) < 65536 <==> Digit(t[42]) < 16
  {
    DigitBound(t[40]);
    DigitBound(t[41]);
    DigitBound(t[42]);
    assert t[40..][1..] == t[41..] && t[41..][1..] == t[42..] && t[42..][1..] == [];
    assert Chunk(t, 10)[0] == t[40];
    hide Digit;
    assert Number(t[42..]) == Digit(t[42]);
    assert Number(t[41..]) == Digit(t[41]) + 64 * Digit(t[42]);
    assert Number(t[40..]) == Digit(t[40]) + 64 * Number(t[41..]);
  }

  lemma EncodeInvertsDecode(t: string)
    requires IsCode(t)
    ensures Encodes(t, Decode(t))
  {
    LastDigit(t);
    hide Decode, Number, Chunk, InAlphabet, Digit, GroupWord;
    forall g | 0 <= g < 11 ensures Number(Chunk(t, g)) == GroupWord(Decode(t), g) {
      if g < 10 {
        GroupDecodes(t, g);
      } else {
        LastDecodes(t);
      }
    }
  }

  lemma GroupDecodes(t: string, g: nat)
    requires |t| == 43 && InAlphabet(t) && g < 10
    ensures Number(Chunk(t, g)) == GroupWord(Decode(t), g)
  {
    hide Word, Part, Number, Chunk, InAlphabet, Group, Place;
    ChunkBound(t, g);
    WordParts(Number(Chunk(t, g)));
    GroupAt(g, 0);
    GroupAt(g, 1);
    GroupAt(g, 2);
  }

  lemma LastDecodes(t: string)
    requires |t| == 43 && InAlphabet(t) && Number(Chunk(t, 10)) < 65536
    ensures Number(Chunk(t, 10)) == GroupWord(Decode(t), 10)
  {
    hide Word, Part, Number, Chunk, InAlphabet, Group;
    ChunkBound(t, 10);
    WordParts(Number(Chunk(t, 10)));
    LowParts(Number(Chunk(t, 10)));
  }

  lemma LowParts(w: nat)
    requires w < 65536
    ensures Part(w, 0) == 0
  {
  }

  /** sha256Crypt. */
  method Sha256Crypt(sha: Bytes -> Digest, p: Bytes, s: Bytes, rounds: nat) returns (t: string)
    ensures |t| == 43 && InAlphabet(t) && Encodes(t, Decode(t)) && IsCrypt(sha, p, s, rounds, Decode(t))
  {
    hide IsCrypt, Decode;
    var c := HashRounds(sha, p, s, rounds);
    t := Encode(c);
    DecodeInvertsEncode(t, c);
  }
}
