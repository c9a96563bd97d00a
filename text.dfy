/** The few Go `strings`/`unicode` helpers the core relies on, on strings of characters. */
module Text {

  /** unicode.IsSpace: the ASCII white space characters and the Unicode White_Space set. */
  predicate IsSpace(c: char) {
    c == '\t' || c == '\n' || c == 11 as char || c == 12 as char || c == '\r' || c == ' ' ||
    c == 0x85 as char || c == 0xA0 as char || c == 0x1680 as char ||
    (0x2000 as char <= c <= 0x200A as char) ||
    c == 0x2028 as char || c == 0x2029 as char || c == 0x202F as char ||
    c == 0x205F as char || c == 0x3000 as char
  }

  /** Drops the leading characters that satisfy `cut`. */
  function TrimLeft(s: string, cut: char -> bool): (r: string)
    ensures |r| <= |s| && r == s[|s| - |r|..]
    ensures r != [] ==> !cut(r[0])
    ensures forall i :: 0 <= i < |s| - |r| ==> cut(s[i])
  {
    if s != [] && cut(s[0]) then
      var t := TrimLeft(s[1..], cut);
      SuffixOfTail(s, t);
      t
    else s
  }

  lemma SuffixOfTail<T>(s: seq<T>, t: seq<T>)
    requires s != [] && |t| <= |s| - 1 && t == s[1..][|s| - 1 - |t|..]
    ensures t == s[|s| - |t|..]
    ensures forall i :: 1 <= i < |s| - |t| ==> s[i] == s[1..][i - 1]
  {
  }

  /** Drops the trailing characters that satisfy `cut`. */
  function TrimRight(s: string, cut: char -> bool): (r: string)
    ensures |r| <= |s| && r == s[..|r|]
    ensures r != [] ==> !cut(r[|r| - 1])
    ensures forall i :: |r| <= i < |s| ==> cut(s[i])
  {
    if s != [] && cut(s[|s| - 1]) then
      var t := TrimRight(s[..|s| - 1], cut);
      PrefixOfInit(s, t);
      t
    else s
  }

  lemma PrefixOfInit<T>(s: seq<T>, t: seq<T>)
    requires s != [] && |t| <= |s| - 1 && t == s[..|s| - 1][..|t|]
    ensures t == s[..|t|]
    ensures forall i :: |t| <= i < |s| - 1 ==> s[i] == s[..|s| - 1][i]
  {
  }

  /** `r` is `s` with its leading and trailing `cut` characters removed, and no more:
      a slice of `s` whose ends are not cut characters, and everything around it is. */
  ghost predicate IsTrimOf(r: string, s: string, cut: char -> bool) {
    && (r != [] ==> !cut(r[0]) && !cut(r[|r| - 1]))
    && exists i :: TrimmedAt(r, s, cut, i)
  }

  /** `r` is the slice of `s` from `i`, with only cut characters around it. */
  predicate TrimmedAt(r: string, s: string, cut: char -> bool, i: nat) {
    && i + |r| <= |s| && r == s[i..i + |r|]
    && (forall k :: 0 <= k < i ==> cut(s[k]))
    && (forall k :: i + |r| <= k < |s| ==> cut(s[k]))
  }

  /** Both ends trimmed: strings.Trim with a cut set, strings.TrimFunc. */
  function Trim(s: string, cut: char -> bool): (r: string)
    ensures IsTrimOf(r, s, cut)
  {
    var l := TrimLeft(s, cut);
    var r := TrimRight(l, cut);
    PrefixOfSuffix(s, l, r);
    assert TrimmedAt(r, s, cut, |s| - |l|);
    r
  }

  /** A prefix of a suffix is a slice, and the rest of the suffix is the tail of the whole. */
  lemma PrefixOfSuffix<T>(s: seq<T>, l: seq<T>, r: seq<T>)
    requires |l| <= |s| && l == s[|s| - |l|..]
    requires |r| <= |l| && r == l[..|r|]
    ensures r == s[|s| - |l|..|s| - |l| + |r|]
    ensures forall k :: |s| - |l| + |r| <= k < |s| ==> s[k] == l[k - (|s| - |l|)]
  {
  }

  /** The trimmed form of a string is unique: the contract of Trim determines it. */
  lemma TrimUnique(s: string, r1: string, r2: string, cut: char -> bool)
    requires IsTrimOf(r1, s, cut) && IsTrimOf(r2, s, cut)
    ensures r1 == r2
  {
    var i1: nat :| TrimmedAt(r1, s, cut, i1);
    var i2: nat :| TrimmedAt(r2, s, cut, i2);
    EmptyIffAllCut(r1, s, cut);
    EmptyIffAllCut(r2, s, cut);
    if r1 != [] && r2 != [] {
      SliceHead(r1, s, i1);
      SliceHead(r2, s, i2);
      assert i1 == i2;
      var e1, e2 := i1 + |r1| - 1, i2 + |r2| - 1;
      SliceLast(r1, s, i1);
      SliceLast(r2, s, i2);
      assert e1 == e2;
    }
  }

  /** The trimmed form is empty exactly when every character is a cut character. */
  lemma EmptyIffAllCut(r: string, s: string, cut: char -> bool)
    requires IsTrimOf(r, s, cut)
    ensures r == [] <==> forall k :: 0 <= k < |s| ==> cut(s[k])
  {
    var i: nat :| TrimmedAt(r, s, cut, i);
    if r != [] {
      SliceHead(r, s, i);
    }
  }

  lemma SliceHead(r: string, s: string, i: nat)
    requires r != [] && i + |r| <= |s| && r == s[i..i + |r|]
    ensures s[i] == r[0]
  {
  }

  lemma SliceLast(r: string, s: string, i: nat)
    requires r != [] && i + |r| <= |s| && r == s[i..i + |r|]
    ensures s[i + |r| - 1] == r[|r| - 1]
  {
  }

  /** A trimmed string trims to itself. */
  lemma TrimTrimmed(r: string, cut: char -> bool)
    requires r == [] || (!cut(r[0]) && !cut(r[|r| - 1]))
    ensures Trim(r, cut) == r
  {
    assert TrimmedAt(r, r, cut, 0);
    TrimUnique(r, Trim(r, cut), r, cut);
  }

  /** Trimming twice trims once. */
  lemma TrimIdempotent(s: string, cut: char -> bool)
    ensures Trim(Trim(s, cut), cut) == Trim(s, cut)
  {
    TrimTrimmed(Trim(s, cut), cut);
  }

  /** strings.TrimSpace. */
  function TrimSpace(s: string): (r: string)
    ensures IsTrimOf(r, s, IsSpace)
  {
    Trim(s, IsSpace)
  }

  /** The cut set " \r\n" that BookmarkLine trims with strings.Trim. */
  predicate IsLineCut(c: char) {
    c == ' ' || c == '\r' || c == '\n'
  }

  /** strings.Trim(s, " \r\n"). */
  function TrimLine(s: string): (r: string)
    ensures IsTrimOf(r, s, IsLineCut)
  {
    Trim(s, IsLineCut)
  }

  /** TrimSpace leaves a trimmed string alone, so trimming twice trims once. */
  lemma TrimSpaceIdempotent(s: string)
    ensures TrimSpace(TrimSpace(s)) == TrimSpace(s)
  {
    TrimIdempotent(s, IsSpace);
  }

  /** unicode.ToLower restricted to ASCII letters. */
  function LowerAscii(c: char): (r: char)
    ensures 'A' <= c <= 'Z' ==> r as int == c as int + 32
    ensures !('A' <= c <= 'Z') ==> r == c
  {
    if 'A' <= c <= 'Z' then (c as int + 32) as char else c
  }

  /** strings.ToLower with ASCII case mapping. */
  function ToLower(s: string): (r: string)
    ensures |r| == |s|
    ensures forall i :: 0 <= i < |s| ==> r[i] == LowerAscii(s[i])
  {
    if s == [] then [] else [LowerAscii(s[0])] + ToLower(s[1..])
  }

  /** strings.Join(parts, sep). */
  function Join(parts: seq<string>, sep: string): (r: string)
    ensures |parts| == 1 ==> r == parts[0]
  {
    if parts == [] then ""
    else if |parts| == 1 then parts[0]
    else parts[0] + sep + Join(parts[1..], sep)
  }
}
