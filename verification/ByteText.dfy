/** Go strings as the byte-level readers see them: a byte is the `char` of the same code, and the
    bytes of a multi-byte UTF-8 character are the chars 0x80 and up. */
module ByteText {

  datatype Option<+T> = None | Some(value: T)

  predicate StartsWith(s: string, p: string) {
    |p| <= |s| && s[..|p|] == p
  }

  /** `p` stands at position `i` of `s`. */
  predicate At(s: string, i: nat, p: string) {
    i + |p| <= |s| && s[i..i + |p|] == p
  }

  /** The two bytes `a` and `b` stand at position `i` of `s`. */
  predicate Pair(s: string, i: nat, a: char, b: char) {
    i + 1 < |s| && s[i] == a && s[i + 1] == b
  }

  predicate IsDigit(c: char) {
    '0' <= c <= '9'
  }

  /** isIdentByte: letters, digits, underscore and every byte of a non-ASCII character. */
  predicate IsIdentByte(c: char) {
    c == '_' || '0' <= c <= '9' || 'a' <= c <= 'z' || 'A' <= c <= 'Z' || c as int >= 0x80
  }

  predicate IsAsciiSpace(c: char) {
    c == ' ' || 9 <= c as int <= 13
  }

  /** unicode.IsSpace(rune(c)) for one byte c: the ASCII blanks and, read as Latin-1, 0x85 and 0xA0. */
  predicate IsByteSpace(c: char) {
    IsAsciiSpace(c) || c as int == 0x85 || c as int == 0xA0
  }

  /** The two-byte encodings of white space: U+0085 and U+00A0. */
  predicate IsSpace2(a: char, b: char) {
    a as int == 0xC2 && (b as int == 0x85 || b as int == 0xA0)
  }

  /** The three-byte encodings of white space: U+1680, U+2000-200A, U+2028, U+2029, U+202F, U+205F, U+3000. */
  predicate IsSpace3(a: char, b: char, c: char) {
    var (x, y, z) := (a as int, b as int, c as int);
    || (x == 0xE1 && y == 0x9A && z == 0x80)
    || (x == 0xE2 && y == 0x80 && (0x80 <= z <= 0x8A || z == 0xA8 || z == 0xA9 || z == 0xAF))
    || (x == 0xE2 && y == 0x81 && z == 0x9F)
    || (x == 0xE3 && y == 0x80 && z == 0x80)
  }

  /** A byte that can be part of a white space character. */
  predicate IsSpaceByte(c: char) {
    IsAsciiSpace(c) || c as int >= 0x80
  }

  /** Bytes of the white space character at position `i`; 0 when anything else stands there. */
  function SpaceAt(s: string, i: nat): (n: nat)
    ensures i <= |s| ==> i + n <= |s|
  {
    if i < |s| && IsAsciiSpace(s[i]) then 1
    else if i + 1 < |s| && IsSpace2(s[i], s[i + 1]) then 2
    else if i + 2 < |s| && IsSpace3(s[i], s[i + 1], s[i + 2]) then 3
    else 0
  }

  /** Bytes of the white space character that ends at `j` and starts no earlier than `lo`. */
  function SpaceBefore(s: string, lo: nat, j: nat): (n: nat)
    requires lo <= j <= |s|
    ensures lo + n <= j
    ensures forall i :: j - n <= i < j ==> IsSpaceByte(s[i])
  {
    if lo + 1 <= j && IsAsciiSpace(s[j - 1]) then 1
    else if lo + 2 <= j && IsSpace2(s[j - 2], s[j - 1]) then 2
    else if lo + 3 <= j && IsSpace3(s[j - 3], s[j - 2], s[j - 1]) then 3
    else 0
  }

  /** Where the text starts after the white space at `i`. */
  function LeftEdge(s: string, i: nat): (e: nat)
    requires i <= |s|
    ensures i <= e <= |s| && SpaceAt(s, e) == 0
    decreases |s| - i
  {
    if SpaceAt(s, i) == 0 then i else LeftEdge(s, i + SpaceAt(s, i))
  }

  /** Where the text that starts at `lo` ends before the white space that ends at `j`. */
  function RightEdge(s: string, lo: nat, j: nat): (e: nat)
    requires lo <= j <= |s|
    ensures lo <= e <= j && SpaceBefore(s, lo, e) == 0
    ensures forall i :: e <= i < j ==> IsSpaceByte(s[i])
    decreases j - lo
  {
    if SpaceBefore(s, lo, j) == 0 then j else RightEdge(s, lo, j - SpaceBefore(s, lo, j))
  }

  /** strings.TrimSpace: white space off the left end, then off the right end of what is left. */
  function TrimSpace(s: string): (r: string)
    ensures |r| <= |s|
  {
    var a := LeftEdge(s, 0);
    s[a..RightEdge(s, a, |s|)]
  }

  /** Neither end is white space. */
  predicate Trimmed(s: string) {
    SpaceAt(s, 0) == 0 && SpaceBefore(s, 0, |s|) == 0
  }

  lemma TrimmedStays(s: string)
    requires Trimmed(s)
    ensures TrimSpace(s) == s
  {
  }

  lemma TrimSpaceTrims(s: string)
    ensures Trimmed(TrimSpace(s))
  {
    var a := LeftEdge(s, 0);
    var b := RightEdge(s, a, |s|);
    var r := s[a..b];
    assert SpaceAt(r, 0) == 0;
    assert SpaceBefore(r, 0, |r|) == 0;
  }

  /** One white space character. */
  predicate WhiteChar(t: string) {
    || (|t| == 1 && IsAsciiSpace(t[0]))
    || (|t| == 2 && IsSpace2(t[0], t[1]))
    || (|t| == 3 && IsSpace3(t[0], t[1], t[2]))
  }

  function Concat(ts: seq<string>): string {
    if ts == [] then "" else ts[0] + Concat(ts[1..])
  }

  lemma {:induction false} ConcatLast(ts: seq<string>, t: string)
    ensures Concat(ts + [t]) == Concat(ts) + t
    decreases |ts|
  {
    if ts == [] {
      assert ts + [t] == [t] && [t][1..] == [];
    } else {
      assert (ts + [t])[1..] == ts[1..] + [t];
      ConcatLast(ts[1..], t);
    }
  }

  lemma SpaceIsWhite(s: string, i: nat)
    requires SpaceAt(s, i) > 0
    ensures i + SpaceAt(s, i) <= |s| && WhiteChar(s[i..i + SpaceAt(s, i)])
  {
  }

  lemma {:induction false} LeftIsWhite(s: string, i: nat) returns (ts: seq<string>)
    requires i <= |s|
    ensures s[i..LeftEdge(s, i)] == Concat(ts) && forall k :: 0 <= k < |ts| ==> WhiteChar(ts[k])
    decreases |s| - i
  {
    var n, e := SpaceAt(s, i), LeftEdge(s, i);
    if n == 0 {
      ts := [];
    } else {
      SpaceIsWhite(s, i);
      var rest := LeftIsWhite(s, i + n);
      ts := [s[i..i + n]] + rest;
      assert ts[1..] == rest && s[i..e] == s[i..i + n] + s[i + n..e];
    }
  }

  lemma {:induction false} RightIsWhite(s: string, lo: nat, j: nat) returns (ts: seq<string>)
    requires lo <= j <= |s|
    ensures s[RightEdge(s, lo, j)..j] == Concat(ts) && forall k :: 0 <= k < |ts| ==> WhiteChar(ts[k])
    decreases j - lo
  {
    var n, e := SpaceBefore(s, lo, j), RightEdge(s, lo, j);
    if n == 0 {
      ts := [];
    } else {
      assert WhiteChar(s[j - n..j]);
      hide SpaceBefore, WhiteChar;
      var rest := RightIsWhite(s, lo, j - n);
      ts := rest + [s[j - n..j]];
      ConcatLast(rest, s[j - n..j]);
      assert s[e..j] == s[e..j - n] + s[j - n..j];
    }
  }

  /** TrimSpace cuts off white space characters at both ends, and nothing else. */
  lemma TrimSpaceCuts(s: string) returns (left: seq<string>, right: seq<string>)
    ensures s == Concat(left) + TrimSpace(s) + Concat(right)
    ensures forall k :: 0 <= k < |left| ==> WhiteChar(left[k])
    ensures forall k :: 0 <= k < |right| ==> WhiteChar(right[k])
  {
    hide LeftEdge, RightEdge, Concat, WhiteChar;
    var a := LeftEdge(s, 0);
    var b := RightEdge(s, a, |s|);
    left := LeftIsWhite(s, 0);
    right := RightIsWhite(s, a, |s|);
    InThree(s, a, b);
  }

  lemma InThree(s: string, a: nat, b: nat)
    requires a <= b <= |s|
    ensures s == s[0..a] + s[a..b] + s[b..|s|]
  {
  }

  /** Of a prefix of a trimmed text, only the right end is trimmed, and only blanks are cut off. */
  lemma TrimOfPrefix(s: string, e: nat) returns (n: nat)
    requires SpaceAt(s, 0) == 0 && e <= |s|
    ensures n <= e && TrimSpace(s[..e]) == s[..n] && Trimmed(s[..n])
    ensures forall j :: n <= j < e ==> IsSpaceByte(s[j])
  {
    var p := s[..e];
    assert SpaceAt(p, 0) == 0;
    n := RightEdge(p, 0, e);
    assert p[0..n] == s[..n];
    assert forall j :: n <= j < e ==> s[j] == p[j];
    assert SpaceAt(s[..n], 0) == 0;
    assert SpaceBefore(s[..n], 0, n) == 0;
  }

  /** A text whose first and last bytes are no part of white space is trimmed. */
  lemma SolidIsTrimmed(s: string)
    requires |s| > 0 && !IsSpaceByte(s[0]) && !IsSpaceByte(s[|s| - 1])
    ensures Trimmed(s)
  {
  }

  /** The first position at or after `i` where `p` stands (strings.Index). */
  function IndexFrom(s: string, p: string, i: nat): (r: Option<nat>)
    requires i <= |s|
    ensures r.Some? ==> i <= r.value && At(s, r.value, p) && forall j :: i <= j < r.value ==> !At(s, j, p)
    ensures r.None? ==> forall j: nat :: i <= j ==> !At(s, j, p)
    decreases |s| - i
  {
    if At(s, i, p) then Some(i)
    else if i == |s| then None
    else IndexFrom(s, p, i + 1)
  }

  /** The first position at or after `i` where the bytes `a` and `b` stand (strings.Index of a two-byte mark). */
  function PairFrom(s: string, i: nat, a: char, b: char): (r: Option<nat>)
    ensures r.Some? ==> i <= r.value && Pair(s, r.value, a, b) && forall j :: i <= j < r.value ==> !Pair(s, j, a, b)
    ensures r.None? ==> forall j: nat :: i <= j ==> !Pair(s, j, a, b)
    decreases |s| - i
  {
    if Pair(s, i, a, b) then Some(i)
    else if i >= |s| then None
    else PairFrom(s, i + 1, a, b)
  }

  lemma {:induction false} IndexOfPrefix(s: string, p: string, mark: string, i: nat)
    requires p <= s && i <= |p|
    requires IndexFrom(s, mark, i).Some? && IndexFrom(s, mark, i).value + |mark| <= |p|
    ensures IndexFrom(p, mark, i) == IndexFrom(s, mark, i)
    decreases |p| - i
  {
    if i + |mark| <= |p| { assert p[i..i + |mark|] == s[i..i + |mark|]; }
    if !At(s, i, mark) { IndexOfPrefix(s, p, mark, i + 1); }
  }

  /** The two ways of stating where `p` stands agree. */
  lemma AtSlice(s: string, i: nat, p: string)
    requires i <= |s|
    ensures StartsWith(s[i..], p) <==> At(s, i, p)
  {
    if i + |p| <= |s| {
      assert s[i..][..|p|] == s[i..i + |p|];
    }
  }
}
