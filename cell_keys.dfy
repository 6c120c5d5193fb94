/** The "r,c" string keys by which the game's TypeScript implementation identifies cells. */
module CellKeys {
  import opened Types

  predicate IsDigit(ch: char) {
    '0' <= ch <= '9'
  }

  predicate AllDigits(s: string) {
    forall i :: 0 <= i < |s| ==> IsDigit(s[i])
  }

  function DigitChar(d: nat): (ch: char)
    requires d < 10
    ensures IsDigit(ch) && ch as int - '0' as int == d
  {
    ('0' as int + d) as char
  }

  /** Decimal rendering of a natural number, as a template literal prints it. */
  function NatToString(n: nat): (s: string)
    ensures |s| > 0 && AllDigits(s)
  {
    if n < 10 then [DigitChar(n)] else NatToString(n / 10) + [DigitChar(n % 10)]
  }

  /** The value of a string of decimal digits, most significant first. */
  function DigitsValue(s: string): nat
    requires AllDigits(s)
  {
    if |s| == 0 then 0
    else DigitsValue(s[..|s| - 1]) * 10 + (s[|s| - 1] as int - '0' as int)
  }

  lemma {:induction false} DigitsValueOfNatToString(n: nat)
    ensures DigitsValue(NatToString(n)) == n
  {
    if n >= 10 {
      var s := NatToString(n / 10);
      var t := s + [DigitChar(n % 10)];
      assert t[..|t| - 1] == s;
      DigitsValueOfNatToString(n / 10);
    }
  }

  /** A non-empty string of decimal digits read as a number; None otherwise. */
  function ParseNat(s: string): (v: Option<nat>)
    ensures v.Some? <==> |s| > 0 && AllDigits(s)
  {
    if |s| > 0 && AllDigits(s) then Some(DigitsValue(s)) else None
  }

  /** Index of the first ',' in `s`, or |s| when there is none. */
  function CommaIndex(s: string): (k: nat)
    ensures k <= |s|
    ensures k < |s| ==> s[k] == ','
    ensures forall i :: 0 <= i < k ==> s[i] != ','
  {
    if |s| == 0 then 0
    else if s[0] == ',' then 0
    else 1 + CommaIndex(s[1..])
  }

  /** The key of cell (r, c): both coordinates in decimal, joined by ','. */
  function CellKey(r: nat, c: nat): string {
    NatToString(r) + "," + NatToString(c)
  }

  /** Reads a key back into a coordinate. Only the form "digits,digits" is
      accepted; anything else yields None. */
  function ParseCellKey(key: string): (p: Option<Coord>)
    ensures p.Some? ==> p.value.r >= 0 && p.value.c >= 0
  {
    var k := CommaIndex(key);
    if k == |key| then None
    else
      match (ParseNat(key[..k]), ParseNat(key[k + 1..]))
      case (Some(r), Some(c)) => Some(Coord(r, c))
      case _ => None
  }

  lemma {:induction false} CommaIndexAfterDigits(a: string, b: string)
    requires AllDigits(a)
    ensures CommaIndex(a + "," + b) == |a|
  {
    if |a| > 0 {
      assert (a + "," + b)[1..] == a[1..] + "," + b;
      CommaIndexAfterDigits(a[1..], b);
    }
  }

  /** `key` is two non-empty runs of decimal digits joined by ','. */
  ghost predicate KeyForm(key: string) {
    exists a, b | |a| > 0 && |b| > 0 && AllDigits(a) && AllDigits(b) :: key == a + "," + b
  }

  /** Two digit runs joined by ',' parse as the cell of their values. */
  lemma ParseCellKeyDigits(a: string, b: string)
    requires |a| > 0 && |b| > 0 && AllDigits(a) && AllDigits(b)
    ensures ParseCellKey(a + "," + b) == Some(Coord(DigitsValue(a), DigitsValue(b)))
  {
    var key := a + "," + b;
    CommaIndexAfterDigits(a, b);
    assert key[..|a|] == a;
    assert key[|a| + 1..] == b;
  }

  /** A string parses exactly when it has the form digits,digits. */
  lemma ParseCellKeyForm(key: string)
    ensures ParseCellKey(key).Some? <==> KeyForm(key)
  {
    if ParseCellKey(key).Some? {
      var k := CommaIndex(key);
      var a, b := key[..k], key[k + 1..];
      assert key == a + "," + b;
    }
    if KeyForm(key) {
      var a, b :| |a| > 0 && |b| > 0 && AllDigits(a) && AllDigits(b) && key == a + "," + b;
      ParseCellKeyDigits(a, b);
    }
  }

  /** Parsing a key gives back the coordinates it was made from. */
  lemma CellKeyRoundTrip(r: nat, c: nat)
    ensures ParseCellKey(CellKey(r, c)) == Some(Coord(r, c))
  {
    ParseCellKeyDigits(NatToString(r), NatToString(c));
    DigitsValueOfNatToString(r);
    DigitsValueOfNatToString(c);
  }

  /** Distinct coordinates have distinct keys. */
  lemma CellKeyInjective(r1: nat, c1: nat, r2: nat, c2: nat)
    ensures CellKey(r1, c1) == CellKey(r2, c2) <==> r1 == r2 && c1 == c2
  {
    CellKeyRoundTrip(r1, c1);
    CellKeyRoundTrip(r2, c2);
  }
}
