/** The 16-byte identifier of github.com/google/uuid as far as the core uses it:
    its canonical text form (UUID.String) and uuid.Parse on that form. */
module Uuids {
  import opened Errors

  newtype Byte = x: int | 0 <= x < 256

  type Uuid = s: seq<Byte> | |s| == 16 witness [0, 0, 0, 0, 0, 0, 0, 0, 0, 0, 0, 0, 0, 0, 0, 0]

  /** The zero UUID, which is what a failed parse leaves behind. */
  const Nil: Uuid := [0, 0, 0, 0, 0, 0, 0, 0, 0, 0, 0, 0, 0, 0, 0, 0]

  /** Lower-case hexadecimal digit of a nibble. */
  function HexDigit(n: int): (c: char)
    requires 0 <= n < 16
    ensures ('0' <= c <= '9') || ('a' <= c <= 'f')
  {
    if n < 10 then (48 + n) as char else (87 + n) as char
  }

  /** Value of a hexadecimal digit of either case (the library's `xvalues` table). */
  function HexValue(c: char): (r: Option<int>)
    ensures r.Some? ==> 0 <= r.value < 16
    ensures r.Some? <==> ('0' <= c <= '9') || ('a' <= c <= 'f') || ('A' <= c <= 'F')
  {
    if '0' <= c <= '9' then Some(c as int - 48)
    else if 'a' <= c <= 'f' then Some(c as int - 87)
    else if 'A' <= c <= 'F' then Some(c as int - 55)
    else None
  }

  /** Two lower-case hex digits per byte. */
  function Hex(bs: seq<Byte>): (s: string)
    ensures |s| == 2 * |bs|
    ensures forall i :: 0 <= i < |s| ==> ('0' <= s[i] <= '9') || ('a' <= s[i] <= 'f')
  {
    if bs == [] then "" else [HexDigit(bs[0] as int / 16), HexDigit(bs[0] as int % 16)] + Hex(bs[1..])
  }

  /** Decodes pairs of hex digits, failing on an odd length or a non-hex character. */
  function Unhex(s: string): (r: Option<seq<Byte>>)
    ensures r.Some? ==> 2 * |r.value| == |s|
  {
    if s == [] then Some([])
    else if |s| == 1 then None
    else match (HexValue(s[0]), HexValue(s[1]), Unhex(s[2..]))
      case (Some(hi), Some(lo), Some(rest)) => Some([(hi * 16 + lo) as Byte] + rest)
      case _ => None
  }

  /** UUID.String: xxxxxxxx-xxxx-xxxx-xxxx-xxxxxxxxxxxx in lower case. */
  function ToString(u: Uuid): (s: string)
    ensures |s| == 36
    ensures s[8] == '-' && s[13] == '-' && s[18] == '-' && s[23] == '-'
    ensures forall i :: 0 <= i < 36 && i != 8 && i != 13 && i != 18 && i != 23 ==>
      ('0' <= s[i] <= '9') || ('a' <= s[i] <= 'f')
  {
    Hex(u[..4]) + "-" + Hex(u[4..6]) + "-" + Hex(u[6..8]) + "-" + Hex(u[8..10]) + "-" + Hex(u[10..])
  }

  /** uuid.Parse on the 36-character form: dashes at 8, 13, 18 and 23, hex pairs elsewhere. */
  function Parse(s: string): (r: Option<Uuid>)
    ensures r.Some? ==> |s| == 36 && s[8] == '-' && s[13] == '-' && s[18] == '-' && s[23] == '-'
  {
    if |s| == 36 && s[8] == '-' && s[13] == '-' && s[18] == '-' && s[23] == '-' then
      match Unhex(s[..8] + s[9..13] + s[14..18] + s[19..23] + s[24..])
      case Some(bs) => var u: Uuid := bs; Some(u)
      case None => None
    else None
  }

  /** `b.id, _ = uuid.Parse(id)`: the parsed value, or the zero UUID on failure. */
  function ParseOrNil(s: string): (u: Uuid)
    ensures Parse(s).Some? ==> u == Parse(s).value
    ensures Parse(s).None? ==> u == Nil
  {
    match Parse(s)
    case Some(v) => v
    case None => Nil
  }

  lemma HexValueOfDigit(n: int)
    requires 0 <= n < 16
    ensures HexValue(HexDigit(n)) == Some(n)
  {
  }

  lemma {:induction false} UnhexHex(bs: seq<Byte>)
    ensures Unhex(Hex(bs)) == Some(bs)
  {
    if bs != [] {
      var h := Hex(bs);
      var b := bs[0] as int;
      assert h == [HexDigit(b / 16), HexDigit(b % 16)] + Hex(bs[1..]);
      assert h[2..] == Hex(bs[1..]);
      UnhexHex(bs[1..]);
      HexValueOfDigit(b / 16);
      HexValueOfDigit(b % 16);
      assert (b / 16 * 16 + b % 16) as Byte == bs[0];
      assert [bs[0]] + bs[1..] == bs;
    }
  }

  lemma {:induction false} HexAppend(a: seq<Byte>, b: seq<Byte>)
    ensures Hex(a + b) == Hex(a) + Hex(b)
  {
    if a == [] {
      assert a + b == b;
    } else {
      assert (a + b)[1..] == a[1..] + b;
      HexAppend(a[1..], b);
    }
  }

  /** The five dash-separated groups of the canonical form, without the dashes. */
  lemma GroupsOfToString(u: Uuid)
    ensures var s := ToString(u); s[..8] + s[9..13] + s[14..18] + s[19..23] + s[24..] == Hex(u)
  {
    var g0, g1, g2, g3, g4 := Hex(u[..4]), Hex(u[4..6]), Hex(u[6..8]), Hex(u[8..10]), Hex(u[10..]);
    var s := g0 + "-" + g1 + "-" + g2 + "-" + g3 + "-" + g4;
    assert s[..8] == g0;
    assert s[9..13] == g1;
    assert s[14..18] == g2;
    assert s[19..23] == g3;
    assert s[24..] == g4;
    assert u == u[..4] + u[4..6] + u[6..8] + u[8..10] + u[10..];
    HexAppend(u[..4], u[4..6]);
    HexAppend(u[..4] + u[4..6], u[6..8]);
    HexAppend(u[..4] + u[4..6] + u[6..8], u[8..10]);
    HexAppend(u[..4] + u[4..6] + u[6..8] + u[8..10], u[10..]);
  }

  /** The canonical text form parses back to the same identifier. */
  lemma ParseToString(u: Uuid)
    ensures Parse(ToString(u)) == Some(u)
  {
    GroupsOfToString(u);
    UnhexHex(u);
  }

  /** A canonical identifier survives the id option unchanged. */
  lemma ParseOrNilToString(u: Uuid)
    ensures ParseOrNil(ToString(u)) == u
  {
    ParseToString(u);
  }
}
