/** Same-format replacement, rune by rune: what each rune becomes follows from the stream and from the rune's
    class, and from nothing else of the text. */
module MaskingFormat {
  import opened ByteText
  import opened Masking

  // ---- What is replaced, and by what ----

  predicate AsciiDigit(r: char) { '0' <= r <= '9' }
  predicate AsciiLower(r: char) { 'a' <= r <= 'z' }
  predicate AsciiUpper(r: char) { 'A' <= r <= 'Z' }

  /** A letter or a digit. */
  predicate Hidden(u: Unicode, r: char) {
    AsciiDigit(r) || AsciiLower(r) || AsciiUpper(r) || u.isLetter(r) || u.isDigit(r)
  }

  predicate LetterRune(u: Unicode, r: char) {
    !AsciiDigit(r) && (AsciiLower(r) || AsciiUpper(r) || u.isLetter(r))
  }

  predicate UpperRune(u: Unicode, r: char) {
    AsciiUpper(r) || (!AsciiLower(r) && u.isUpper(r))
  }

  /** The first character of a rune's class, and how many there are. */
  function Base(u: Unicode, r: char): char {
    if LetterRune(u, r) then if UpperRune(u, r) then 'A' else 'a' else '0'
  }

  function Width(u: Unicode, r: char): nat {
    if LetterRune(u, r) then 26 else 10
  }

  /** Letters and digits before position i. */
  function HiddenBefore(u: Unicode, s: string, i: nat): nat
    requires i <= |s|
  {
    if i == 0 then 0 else (if Hidden(u, s[0]) then 1 else 0) + HiddenBefore(u, s[1..], i - 1)
  }

  /** The first letter or digit of the text stands at i and is a digit from 1 to 9. */
  predicate Leads(u: Unicode, s: string, i: nat) {
    i < |s| && '1' <= s[i] <= '9' && forall j :: 0 <= j < i ==> !Hidden(u, s[j])
  }

  predicate LedBefore(u: Unicode, s: string, i: nat) {
    exists j :: 0 <= j < i && Leads(u, s, j)
  }

  /** The number made of the three stream bytes from k. */
  function Draw(src: Source, k: nat): nat {
    var a, b, c: int := src.ByteAt(k), src.ByteAt(k + 1), src.ByteAt(k + 2);
    a * 65536 + b * 256 + c
  }

  /** Where the stream stands at position i: three bytes on for each letter or digit, and three more after a
      leading digit other than zero. */
  function Offset(u: Unicode, s: string, first: bool, i: nat): nat
    requires i <= |s|
  {
    3 * HiddenBefore(u, s, i) + (if first && LedBefore(u, s, i) then 3 else 0)
  }

  /** What a letter or digit becomes, from the stream at `at`; a leading digit other than zero skips one draw. */
  function Replaced(src: Source, u: Unicode, r: char, at: nat, lead: bool): char {
    if !Hidden(u, r) then r
    else if lead then ('1' as int + Draw(src, at + 3) % 9) as char
    else (Base(u, r) as int + Draw(src, at) % Width(u, r)) as char
  }

  /** What the rune at i becomes, the stream being read from k. */
  function Becomes(src: Source, u: Unicode, k: nat, s: string, first: bool, i: nat): char
    requires i < |s|
  {
    Replaced(src, u, s[i], k + Offset(u, s, first, i), first && Leads(u, s, i))
  }

  // ---- The replacement is that ----

  lemma LeadsLater(u: Unicode, s: string, i: nat)
    requires 0 < i <= |s|
    ensures Leads(u, s, i) <==> !Hidden(u, s[0]) && Leads(u, s[1..], i - 1)
    ensures LedBefore(u, s, i) <==> Leads(u, s, 0) || (!Hidden(u, s[0]) && LedBefore(u, s[1..], i - 1))
  {
    hide Hidden;
    forall j: nat | 0 < j <= i ensures Leads(u, s, j) <==> !Hidden(u, s[0]) && Leads(u, s[1..], j - 1) {
      assert forall m :: 0 <= m < j - 1 ==> s[1..][m] == s[m + 1];
      assert forall m :: 0 < m < j ==> s[m] == s[1..][m - 1];
    }
    if LedBefore(u, s, i) {
      var j :| 0 <= j < i && Leads(u, s, j);
      assert j > 0 ==> Leads(u, s[1..], j - 1);
    }
    if !Hidden(u, s[0]) && LedBefore(u, s[1..], i - 1) {
      var j :| 0 <= j < i - 1 && Leads(u, s[1..], j);
      assert Leads(u, s, j + 1);
    }
  }

  lemma FirstRune(src: Source, u: Unicode, k: nat, r: char, first: bool)
    ensures MaskRune(src, u, k, r, first) == (Replaced(src, u, r, k, first && '1' <= r <= '9'), Bytes(u, r, first))
    ensures ClassOf(u, r) == Neither <==> !Hidden(u, r)
  {
    hide Source.ByteAt;
  }

  /** How many stream bytes a rune takes when it comes first. */
  function Bytes(u: Unicode, r: char, first: bool): nat {
    if !Hidden(u, r) then 0 else if first && '1' <= r <= '9' then 6 else 3
  }

  lemma AtStart(u: Unicode, s: string, first: bool)
    requires s != ""
    ensures Offset(u, s, first, 0) == 0 && (Leads(u, s, 0) <==> '1' <= s[0] <= '9')
  {
  }

  lemma BecomesLater(src: Source, u: Unicode, k: nat, s: string, first: bool, i: nat)
    requires 0 < i < |s|
    ensures Becomes(src, u, k, s, first, i)
         == Becomes(src, u, k + Bytes(u, s[0], first), s[1..], first && !Hidden(u, s[0]), i - 1)
  {
    OffsetLater(u, s, first, i);
    LeadsLater(u, s, i);
    hide Replaced, Leads, LedBefore, Hidden, Offset, Bytes;
    assert s[1..][i - 1] == s[i];
  }

  lemma OffsetLater(u: Unicode, s: string, first: bool, i: nat)
    requires 0 < i <= |s|
    ensures Offset(u, s, first, i) == Bytes(u, s[0], first) + Offset(u, s[1..], first && !Hidden(u, s[0]), i - 1)
  {
    LeadsLater(u, s, i);
    assert Leads(u, s, 0) <==> '1' <= s[0] <= '9';
    assert '1' <= s[0] <= '9' ==> Hidden(u, s[0]);
    hide Leads, LedBefore, Hidden;
  }

  lemma FormatLength(src: Source, u: Unicode, k: nat, s: string, first: bool)
    ensures |Formatted(src, u, k, s, first)| == |s|
  {
    FormatKept(src, u, k, s, first);
  }

  /** Each rune of the replacement is what its class and the stream make of it. */
  lemma {:induction false} RuneBecomes(src: Source, u: Unicode, k: nat, s: string, first: bool, i: nat)
    requires i < |s|
    ensures |Formatted(src, u, k, s, first)| == |s|
    ensures Formatted(src, u, k, s, first)[i] == Becomes(src, u, k, s, first, i)
    decreases |s|
  {
    hide Formatted, MaskRune, ClassOf, Hidden, Leads, Offset, Replaced, Bytes;
    FormatLength(src, u, k, s, first);
    FormatStep(src, u, k, s, first);
    FirstRune(src, u, k, s[0], first);
    if i == 0 {
      AtStart(u, s, first);
    } else {
      RuneBecomes(src, u, k + Bytes(u, s[0], first), s[1..], first && !Hidden(u, s[0]), i - 1);
      BecomesLater(src, u, k, s, first, i);
    }
  }

  // ---- What follows ----

  /** The same classes rune by rune, the same runes outside them, and the same leading digit test. */
  ghost predicate SameShape(u: Unicode, s: string, t: string) {
    && |s| == |t|
    && forall i :: 0 <= i < |s| ==>
         && (Hidden(u, s[i]) <==> Hidden(u, t[i])) && (Leads(u, s, i) <==> Leads(u, t, i))
         && (if Hidden(u, s[i]) then Base(u, s[i]) == Base(u, t[i]) && Width(u, s[i]) == Width(u, t[i]) else s[i] == t[i])
  }

  lemma {:induction false} SameHidden(u: Unicode, s: string, t: string, i: nat)
    requires |s| == |t| && i <= |s| && forall j :: 0 <= j < |s| ==> (Hidden(u, s[j]) <==> Hidden(u, t[j]))
    ensures HiddenBefore(u, s, i) == HiddenBefore(u, t, i)
    decreases i
  {
    hide Hidden;
    if i > 0 {
      forall j | 0 <= j < |s[1..]| ensures Hidden(u, s[1..][j]) <==> Hidden(u, t[1..][j]) {
        assert s[1..][j] == s[j + 1] && t[1..][j] == t[j + 1];
      }
      SameHidden(u, s[1..], t[1..], i - 1);
    }
  }

  /** Nothing of a text shows through but its shape: two texts of one shape get one replacement from one
      stream. */
  lemma NothingShows(src: Source, u: Unicode, k: nat, s: string, t: string)
    requires SameShape(u, s, t)
    ensures Formatted(src, u, k, s, true) == Formatted(src, u, k, t, true)
  {
    hide Formatted, Hidden, Base, Width, Draw, Leads;
    FormatLength(src, u, k, s, true);
    FormatLength(src, u, k, t, true);
    forall i | 0 <= i < |s| ensures Formatted(src, u, k, s, true)[i] == Formatted(src, u, k, t, true)[i] {
      RuneBecomes(src, u, k, s, true, i);
      RuneBecomes(src, u, k, t, true, i);
      SameHidden(u, s, t, i);
      assert LedBefore(u, s, i) <==> LedBefore(u, t, i) by { SameLed(u, s, t, i); }
    }
  }

  lemma SameLed(u: Unicode, s: string, t: string, i: nat)
    requires |s| == |t| && i <= |s| && forall j :: 0 <= j < |s| ==> (Leads(u, s, j) <==> Leads(u, t, j))
    ensures LedBefore(u, s, i) <==> LedBefore(u, t, i)
  {
    hide Leads;
    if LedBefore(u, s, i) {
      var j :| 0 <= j < i && Leads(u, s, j);
      assert Leads(u, t, j);
    }
    if LedBefore(u, t, i) {
      var j :| 0 <= j < i && Leads(u, t, j);
      assert Leads(u, s, j);
    }
  }

  /** A source with v at one place of every block. */
  function Blocks(at: nat, v: byte): Source
    requires at < 32
  {
    var d: Digest := seq(32, j requires 0 <= j < 32 => if j == at then v else 0);
    Source((_, _) => d, [], d)
  }

  lemma SourceFor(k: nat, v: byte) returns (src: Source)
    ensures Draw(src, k) == v
  {
    src := Blocks((k + 2) % 32, v);
    forall n: nat ensures src.Block(n) == src.seed {}
    assert k % 32 != (k + 2) % 32 && (k + 1) % 32 != (k + 2) % 32;
  }

  /** Every letter or digit can become each character of its class, a leading digit other than zero each other
      than zero: it depends on the stream. */
  lemma EveryCharacter(u: Unicode, s: string, i: nat, v: nat) returns (src: Source)
    requires i < |s| && Hidden(u, s[i]) && v < (if Leads(u, s, i) then 9 else Width(u, s[i]))
    ensures |Formatted(src, u, 0, s, true)| == |s|
    ensures Formatted(src, u, 0, s, true)[i] as int == (if Leads(u, s, i) then '1' else Base(u, s[i])) as int + v
  {
    assert Width(u, s[i]) <= 26;
    hide Formatted, Hidden, Leads, Offset, Draw, Base, Width, Replaced;
    var lead := Leads(u, s, i);
    var at := Offset(u, s, true, i);
    src := SourceFor(if lead then at + 3 else at, v);
    RuneBecomes(src, u, 0, s, true, i);
    ReplacedBy(src, u, s[i], at, lead, v);
  }

  lemma ReplacedBy(src: Source, u: Unicode, r: char, at: nat, lead: bool, v: nat)
    requires Hidden(u, r) && v < (if lead then 9 else Width(u, r)) && Draw(src, if lead then at + 3 else at) == v
    ensures Replaced(src, u, r, at, lead) as int == (if lead then '1' else Base(u, r)) as int + v
  {
    hide Draw, Hidden;
    assert v % (if lead then 9 else Width(u, r)) == v;
  }
}
