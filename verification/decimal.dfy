/** Decimal printing (`%d`, `%lu`) and scanning (`strtol`, `sscanf("%d%n")`) of the C library. */
module Decimal {

  predicate IsDigit(c: char) {
    '0' <= c <= '9'
  }

  predicate IsSpace(c: char) {
    c == ' ' || 9 <= c as int <= 13
  }

  predicate AllDigits(s: string) {
    forall i | 0 <= i < |s| :: IsDigit(s[i])
  }

  function DigitChar(d: nat): (c: char)
    requires d < 10
    ensures IsDigit(c) && c as int - '0' as int == d
  {
    ('0' as int + d) as char
  }

  /** The decimal digits of `n`, without leading zeros. */
  function Print(n: nat): (s: string)
    ensures |s| > 0 && AllDigits(s)
  {
    if n < 10 then [DigitChar(n)] else Print(n / 10) + [DigitChar(n % 10)]
  }

  /** The number a run of digits stands for. */
  function Value(s: string): nat
    requires AllDigits(s)
  {
    if s == "" then 0 else Value(s[..|s| - 1]) * 10 + (s[|s| - 1] as int - '0' as int)
  }

  lemma {:induction false} ValueOfPrint(n: nat)
    ensures Value(Print(n)) == n
  {
    if n >= 10 {
      ValueOfPrint(n / 10);
      assert Print(n)[..|Print(n)| - 1] == Print(n / 10);
    } else {
      assert Print(n)[..0] == "";
    }
  }

  /** A number below 10^k prints with at most k digits; used to bound lines. */
  lemma {:induction false} PrintLength(n: nat, k: nat, bound: nat)
    requires k >= 1 && n < bound && bound == Pow10(k)
    ensures |Print(n)| <= k
  {
    if n >= 10 {
      assert k >= 2;
      PrintLength(n / 10, k - 1, Pow10(k - 1));
    }
  }

  function Pow10(k: nat): nat {
    if k == 0 then 1 else 10 * Pow10(k - 1)
  }

  /** Length of the longest prefix of white space. */
  function Spaces(s: string): (k: nat)
    ensures k <= |s| && (k < |s| ==> !IsSpace(s[k]))
  {
    if s != "" && IsSpace(s[0]) then 1 + Spaces(s[1..]) else 0
  }

  /** Length of the longest prefix of digits. */
  function DigitRun(s: string): (k: nat)
    ensures k <= |s| && AllDigits(s[..k]) && (k < |s| ==> !IsDigit(s[k]))
  {
    if s != "" && IsDigit(s[0]) then
      var k := 1 + DigitRun(s[1..]);
      assert forall i | 1 <= i < k :: s[i] == s[1..][i - 1];
      k
    else 0
  }

  /** The three answers of a `%d` conversion: nothing but white space left, no number there,
      or a number and how many characters it took. */
  datatype Scanned = EndOfInput | NoNumber | Number(value: int, used: nat)

  function Scan(s: string): (r: Scanned)
    ensures r.Number? ==> 0 < r.used <= |s|
  {
    var k := Spaces(s);
    if k == |s| then EndOfInput
    else
      var t := s[k..];
      var sign: nat := if t[0] == '-' || t[0] == '+' then 1 else 0;
      var d := DigitRun(t[sign..]);
      if d == 0 then NoNumber
      else
        var v: int := Value(t[sign..][..d]);
        Number(if t[0] == '-' then -v else v, k + sign + d)
  }

  /** `strtol(s, NULL, 10)` for values that fit a long. */
  function StrToL(s: string): int {
    match Scan(s)
    case Number(v, _) => v
    case _ => 0
  }

  lemma {:induction false} DigitRunExact(d: string, rest: string)
    requires AllDigits(d)
    requires rest == "" || !IsDigit(rest[0])
    ensures DigitRun(d + rest) == |d|
  {
    if d == "" {
      assert d + rest == rest;
    } else {
      assert (d + rest)[1..] == d[1..] + rest;
      DigitRunExact(d[1..], rest);
    }
  }

  /** Scanning reads back a printed number and stops right behind it. */
  lemma ScanPrinted(n: nat, rest: string)
    requires rest == "" || !IsDigit(rest[0])
    ensures Scan(Print(n) + rest) == Number(n, |Print(n)|)
    ensures Scan(" " + Print(n) + rest) == Number(n, 1 + |Print(n)|)
  {
    hide Print, Value, DigitRun;
    var p := Print(n);
    assert IsDigit(p[0]);
    DigitRunExact(p, rest);
    ValueOfPrint(n);
    var t := p + rest;
    assert t[0] == p[0] && t[0..] == t && t[..|p|] == p;
    ScanDigits(t, |p|);
    assert " " + p + rest == " " + t;
    ScanBlank(t, |p|);
  }

  lemma ScanDigits(t: string, d: nat)
    requires t != "" && IsDigit(t[0]) && DigitRun(t) == d > 0
    ensures Scan(t) == Number(Value(t[..d]), d)
  {
    assert Spaces(t) == 0 && t[0..] == t;
    hide Value, DigitRun, Spaces;
  }

  lemma ScanBlank(t: string, d: nat)
    requires t != "" && IsDigit(t[0]) && DigitRun(t) == d > 0
    ensures Scan(" " + t) == Number(Value(t[..d]), d + 1)
  {
    var u := " " + t;
    assert u[1..] == t && t[0..] == t;
    assert Spaces(u) == 1;
    hide Value, DigitRun, Spaces;
  }

  lemma StrToLPrinted(n: nat)
    ensures StrToL(Print(n)) == n
  {
    ScanPrinted(n, "");
    assert Print(n) + "" == Print(n);
  }
}
