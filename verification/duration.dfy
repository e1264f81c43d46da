/** Durations such as "1y 2M 3s": helpmod_strtime and helpmod_read_strtime of helpmod2/hgen.c. */
module Duration {
  import opened Decimal

  // The HDEF_ constants of helpmod2/hdef.h, in seconds: m 60, h 3600, d 86400, w 604800, M 2592000, y 31536000.
  const LIMIT := 315360000  // ten years

  const INT_MAX := 0x7fff_ffff
  const INT_MIN := -0x8000_0000

  predicate IsInt(n: int) {
    INT_MIN <= n <= INT_MAX
  }

  predicate IsUnit(c: char) {
    c == 's' || c == 'm' || c == 'h' || c == 'd' || c == 'w' || c == 'M' || c == 'y'
  }

  /** `n` units of the kind named by the letter, in seconds. */
  function Seconds(n: int, unit: char): int {
    match unit
    case 'm' => n * 60
    case 'h' => n * 3600
    case 'd' => n * 86400
    case 'w' => n * 604800
    case 'M' => n * 2592000
    case 'y' => n * 31536000
    case _ => n
  }

  datatype Field = Field(count: nat, unit: char)

  /** One TIME_PRINT per field: a zero field prints nothing. */
  function PrintFields(fs: seq<Field>): string {
    if fs == [] then ""
    else
      (if fs[0].count == 0 then "" else " " + Print(fs[0].count) + [fs[0].unit]) + PrintFields(fs[1..])
  }

  /** The mixed-radix split of helpmod_strtime. */
  function Split(n: nat): seq<Field> {
    var n1 := n % 31536000;
    var n2 := n1 % 2592000;
    var n3 := n2 % 86400;
    var n4 := n3 % 3600;
    [Field(n / 31536000, 'y'), Field(n1 / 2592000, 'M'), Field(n2 / 86400, 'd'),
     Field(n3 / 3600, 'h'), Field(n4 / 60, 'm'), Field(n4 % 60, 's')]
  }

  /** helpmod_strtime. The smallest int is left out: C cannot negate it. */
  function StrTime(n: int): string
    requires INT_MIN < n <= INT_MAX
  {
    if n == 0 then "0s"
    else if n < 0 then "-" + PrintFields(Split(-n))
    else
      var s := PrintFields(Split(n));
      if s == "" then "" else s[1..]
  }

  /** What reading gives: an int, or nothing the C standard defines (an uninitialised count, or an int overflow). */
  datatype ReadResult = Int(n: int) | Undefined

  /** One turn of the reading loop from `s` with `sum` so far. */
  datatype Turn = Stop(r: ReadResult) | Next(sum: int, used: nat)

  /** The account of one field that was scanned as `v` units. */
  function Account(v: int, unit: char, sum: int, used: nat): Turn {
    var product := Seconds(v, unit);
    if !IsInt(product) then Stop(Undefined)
    else if product > LIMIT then Stop(Int(-1))
    else if !IsInt(sum + product) then Stop(Undefined)
    else if sum + product > LIMIT then Stop(Int(-1))
    else Next(sum + product, used + 1)
  }

  function ReadTurn(s: string, sum: int): (t: Turn)
    ensures t.Next? ==> 0 < t.used <= |s|
  {
    match Scan(s)
    case EndOfInput => Stop(Undefined)
    case NoNumber => Stop(Int(-1))
    case Number(v, used) =>
      if !IsInt(v) then Stop(Undefined)
      else if used == |s| || !IsUnit(s[used]) then Stop(Int(-1))
      else Account(v, s[used], sum, used)
  }

  function ReadFrom(s: string, sum: int): ReadResult
    decreases |s|
  {
    if s == "" then Int(sum)
    else
      match ReadTurn(s, sum)
      case Stop(r) => r
      case Next(sum', used) => ReadFrom(s[used..], sum')
  }

  /** helpmod_read_strtime, as its loop over the string. */
  method ReadStrTime(str: string) returns (r: ReadResult)
    ensures r == ReadFrom(str, 0)
  {
    hide ReadTurn;
    var sum := 0;
    var at := 0;
    while at < |str|
      invariant 0 <= at <= |str|
      invariant ReadFrom(str, 0) == ReadFrom(str[at..], sum)
    {
      match ReadTurn(str[at..], sum)
      case Stop(result) =>
        return result;
      case Next(sum', used) =>
        assert str[at..][used..] == str[at + used..];
        sum, at := sum', at + used;
    }
    assert str[at..] == "";
    return Int(sum);
  }

  function Total(fs: seq<Field>): nat {
    if fs == [] then 0 else Seconds(fs[0].count, fs[0].unit) + Total(fs[1..])
  }

  lemma TurnOnField(f: Field, rest: string, sum: int)
    requires IsUnit(f.unit) && f.count <= INT_MAX
    ensures ReadTurn(" " + Print(f.count) + [f.unit] + rest, sum)
         == Account(f.count, f.unit, sum, 1 + |Print(f.count)|)
  {
    hide Scan;
    var s := " " + Print(f.count) + [f.unit] + rest;
    assert s == " " + Print(f.count) + ([f.unit] + rest);
    ScanPrinted(f.count, [f.unit] + rest);
    assert s[1 + |Print(f.count)|] == f.unit;
  }

  /** Reading printed fields adds them up, and refuses exactly the totals above ten years. */
  lemma {:induction false} ReadPrintedFields(fs: seq<Field>, sum: nat)
    requires forall f | f in fs :: IsUnit(f.unit)
    requires sum <= LIMIT && sum + Total(fs) <= INT_MAX
    ensures ReadFrom(PrintFields(fs), sum) == Int(if sum + Total(fs) <= LIMIT then sum + Total(fs) else -1)
  {
    hide ReadTurn, PrintFields;
    if fs == [] {
      NoFields();
    } else {
      var f, rest := fs[0], PrintFields(fs[1..]);
      FieldThenRest(fs);
      if f.count == 0 {
        ReadPrintedFields(fs[1..], sum);
      } else {
        FieldRead(f, rest, sum);
        if sum + Seconds(f.count, f.unit) <= LIMIT {
          ReadPrintedFields(fs[1..], sum + Seconds(f.count, f.unit));
        }
      }
    }
  }

  lemma NoFields()
    ensures PrintFields([]) == ""
  {
  }

  lemma FieldThenRest(fs: seq<Field>)
    requires fs != []
    ensures PrintFields(fs) == if fs[0].count == 0 then PrintFields(fs[1..])
                               else " " + Print(fs[0].count) + [fs[0].unit] + PrintFields(fs[1..])
  {
    hide Print;
  }

  lemma AfterField(digits: string, unit: char, rest: string)
    ensures (" " + digits + [unit] + rest)[2 + |digits|..] == rest
  {
  }

  /** One printed field is read and accounted for. */
  lemma FieldRead(f: Field, rest: string, sum: nat)
    requires IsUnit(f.unit) && sum <= LIMIT && sum + Seconds(f.count, f.unit) <= INT_MAX
    ensures ReadFrom(" " + Print(f.count) + [f.unit] + rest, sum)
         == if sum + Seconds(f.count, f.unit) <= LIMIT then ReadFrom(rest, sum + Seconds(f.count, f.unit)) else Int(-1)
  {
    hide ReadTurn, Print, Scan;
    var s := " " + Print(f.count) + [f.unit] + rest;
    TurnOnField(f, rest, sum);
    AfterField(Print(f.count), f.unit, rest);
  }

  lemma SplitTotal(n: nat)
    ensures Total(Split(n)) == n
  {
    var fs := Split(n);
    var n1 := n % 31536000;
    var n2 := n1 % 2592000;
    var n3 := n2 % 86400;
    var n4 := n3 % 3600;
    assert fs[1..][1..] == fs[2..] && fs[2..][1..] == fs[3..] && fs[3..][1..] == fs[4..] && fs[4..][1..] == fs[5..];
    assert fs[5..] == [Field(n4 % 60, 's')] && fs[5..][1..] == [];
    assert Total(fs[5..]) == n4 % 60;
    assert Total(fs[4..]) == n4 / 60 * 60 + n4 % 60 == n4;
    assert Total(fs[3..]) == n3 / 3600 * 3600 + n4 == n3;
    assert Total(fs[2..]) == n2 / 86400 * 86400 + n3 == n2;
    assert Total(fs[1..]) == n1 / 2592000 * 2592000 + n2 == n1;
    assert Total(fs) == n / 31536000 * 31536000 + n1 == n;
  }

  /** The printed fields of a positive total start with a blank, and the reader skips it. */
  lemma {:induction false} LeadingBlank(fs: seq<Field>, sum: int)
    requires Total(fs) > 0
    ensures |PrintFields(fs)| > 1 && PrintFields(fs)[0] == ' '
    ensures ReadFrom(PrintFields(fs)[1..], sum) == ReadFrom(PrintFields(fs), sum)
  {
    if fs[0].count == 0 {
      assert PrintFields(fs) == PrintFields(fs[1..]);
      LeadingBlank(fs[1..], sum);
    } else {
      var f := fs[0];
      var s := PrintFields(fs);
      assert s == " " + (Print(f.count) + [f.unit] + PrintFields(fs[1..]));
      BlankSkipped(s[1..], sum);
      assert s == " " + s[1..];
      assert s[1] == Print(f.count)[0];
    }
  }

  lemma ScanPastBlank(t: string)
    requires t != "" && IsDigit(t[0])
    ensures Scan(" " + t) == match Scan(t) case Number(v, used) => Number(v, used + 1) case r => r
  {
    assert (" " + t)[1..] == t && t[0..] == t;
    assert Spaces(t) == 0 && Spaces(" " + t) == 1;
  }

  lemma TurnPastBlank(t: string, sum: int)
    requires t != "" && IsDigit(t[0])
    ensures ReadTurn(" " + t, sum) == match ReadTurn(t, sum) case Next(n, used) => Next(n, used + 1) case r => r
  {
    hide Scan;
    ScanPastBlank(t);
    hide Spaces, Print, Seconds;
  }

  lemma BlankSkipped(t: string, sum: int)
    requires t != "" && IsDigit(t[0])
    ensures ReadFrom(" " + t, sum) == ReadFrom(t, sum)
  {
    var s := " " + t;
    TurnPastBlank(t, sum);
    hide ReadTurn;
    match ReadTurn(t, sum)
    case Next(_, used) => assert s[used + 1..] == t[used..];
    case Stop(_) =>
  }

  /** For every C int but the smallest, reading what was printed gives the number back exactly when it
      lies between 0 and ten years, or is -1, the error code itself; everything else reads as -1. */
  lemma RoundTrip(n: int)
    requires INT_MIN < n <= INT_MAX
    ensures ReadFrom(StrTime(n), 0) == Int(if 0 <= n <= LIMIT then n else -1)
    ensures ReadFrom(StrTime(n), 0) == Int(n) <==> 0 <= n <= LIMIT || n == -1
  {
    hide ReadFrom, StrTime;
    if n > 0 {
      PositiveRoundTrip(n);
    } else if n == 0 {
      ZeroRoundTrip();
    } else {
      NegativeRoundTrip(n);
    }
  }

  lemma PositiveRoundTrip(n: int)
    requires 0 < n <= INT_MAX
    ensures ReadFrom(StrTime(n), 0) == Int(if n <= LIMIT then n else -1)
  {
    hide ReadFrom, Split, PrintFields, Total, IsUnit;
    SplitTotal(n);
    LeadingBlank(Split(n), 0);
    SplitUnits(n);
    ReadPrintedFields(Split(n), 0);
  }

  lemma ZeroRoundTrip()
    ensures ReadFrom(StrTime(0), 0) == Int(0)
  {
    var s := "0s";
    ScanPrinted(0, "s");
    assert Print(0) + "s" == s;
    hide Scan;
    assert s[2..] == "";
  }

  lemma NegativeRoundTrip(n: int)
    requires INT_MIN < n < 0
    ensures ReadFrom(StrTime(n), 0) == Int(-1)
  {
    hide ReadFrom, Split, PrintFields, Total;
    SplitTotal(-n);
    LeadingBlank(Split(-n), 0);
    MinusThenBlank(PrintFields(Split(-n)));
  }

  lemma SplitUnits(n: nat)
    ensures forall f | f in Split(n) :: IsUnit(f.unit)
  {
  }

  lemma MinusThenBlank(t: string)
    requires t != "" && t[0] == ' '
    ensures ReadFrom("-" + t, 0) == Int(-1)
  {
    var s := "-" + t;
    assert Spaces(s) == 0 && s[0..] == s;
    assert s[1..] == t && DigitRun(s[1..]) == 0;
    assert Scan(s) == NoNumber;
    hide Scan;
  }

  // ---------------------------------------------------------------- the units one by one

  lemma ReadOne(n: nat, unit: char)
    requires IsUnit(unit) && Seconds(n, unit) <= LIMIT
    ensures ReadFrom(Print(n) + [unit], 0) == Int(Seconds(n, unit))
  {
    hide ReadFrom, ReadTurn, Print, Seconds;
    var t := Print(n) + [unit];
    assert IsDigit(t[0]);
    BlankSkipped(t, 0);
    assert " " + t == " " + Print(n) + [unit] + "";
    SecondsAtLeast(n, unit);
    FieldRead(Field(n, unit), "", 0);
    NothingToRead(Seconds(n, unit));
  }

  lemma SecondsAtLeast(n: nat, unit: char)
    ensures Seconds(n, unit) >= n
  {
  }

  lemma NothingToRead(sum: int)
    ensures ReadFrom("", sum) == Int(sum)
  {
  }

  /** What a number with each letter behind it reads as. */
  lemma UnitsRead(n: nat)
    ensures n <= LIMIT ==> ReadFrom(Print(n) + "s", 0) == Int(n)
    ensures 60 * n <= LIMIT ==> ReadFrom(Print(n) + "m", 0) == Int(60 * n)
    ensures 60 * 60 * n <= LIMIT ==> ReadFrom(Print(n) + "h", 0) == Int(60 * 60 * n)
    ensures 24 * 60 * 60 * n <= LIMIT ==> ReadFrom(Print(n) + "d", 0) == Int(24 * 60 * 60 * n)
    ensures 7 * 24 * 60 * 60 * n <= LIMIT ==> ReadFrom(Print(n) + "w", 0) == Int(7 * 24 * 60 * 60 * n)
    ensures 30 * 24 * 60 * 60 * n <= LIMIT ==> ReadFrom(Print(n) + "M", 0) == Int(30 * 24 * 60 * 60 * n)
    ensures 365 * 24 * 60 * 60 * n <= LIMIT ==> ReadFrom(Print(n) + "y", 0) == Int(365 * 24 * 60 * 60 * n)
  {
    hide ReadFrom, Print;
    if n <= LIMIT { ReadOne(n, 's'); }
    if 60 * n <= LIMIT { ReadOne(n, 'm'); }
    if 60 * 60 * n <= LIMIT { ReadOne(n, 'h'); }
    if 24 * 60 * 60 * n <= LIMIT { ReadOne(n, 'd'); }
    if 7 * 24 * 60 * 60 * n <= LIMIT { ReadOne(n, 'w'); }
    if 30 * 24 * 60 * 60 * n <= LIMIT { ReadOne(n, 'M'); }
    if 365 * 24 * 60 * 60 * n <= LIMIT { ReadOne(n, 'y'); }
  }

  lemma {:induction false} OnlyField(fs: seq<Field>, i: nat)
    requires i < |fs| && fs[i].count > 0 && forall j | 0 <= j < |fs| && j != i :: fs[j].count == 0
    ensures PrintFields(fs) == " " + Print(fs[i].count) + [fs[i].unit]
    decreases i
  {
    hide Print;
    if i == 0 {
      NoneToPrint(fs[1..]);
    } else {
      OnlyField(fs[1..], i - 1);
    }
  }

  lemma {:induction false} NoneToPrint(fs: seq<Field>)
    requires forall j | 0 <= j < |fs| :: fs[j].count == 0
    ensures PrintFields(fs) == ""
  {
    if fs != [] {
      NoneToPrint(fs[1..]);
    }
  }

  lemma PrintOne(n: nat, i: nat)
    requires 0 < n <= INT_MAX && i < 6 && Split(n)[i].count > 0
    requires forall j | 0 <= j < 6 && j != i :: Split(n)[j].count == 0
    ensures StrTime(n) == Print(Split(n)[i].count) + [Split(n)[i].unit]
  {
    hide Print, PrintFields;
    OnlyField(Split(n), i);
    hide Split;
  }

  lemma AtLeastOne(x: nat, k: nat)
    requires x >= 1
    ensures x * k >= k
  {
    assert x * k == (x - 1) * k + k;
  }

  lemma SameQuotient(k: nat, a: nat, b: nat, q: nat, r: nat)
    requires b < k && r < k && a * k + b == q * k + r
    ensures a == q && b == r
  {
    if a < q {
      assert (q - a) * k == q * k - a * k;
      AtLeastOne(q - a, k);
    } else if a > q {
      assert (a - q) * k == a * k - q * k;
      AtLeastOne(a - q, k);
    }
  }

  lemma Quotient(n: nat, k: nat, q: nat, r: nat)
    requires r < k && n == q * k + r
    ensures n / k == q && n % k == r
  {
    SameQuotient(k, n / k, n % k, q, r);
  }

  /** A time put together from its parts is split into them: a year of 365 days, months of 30, days of 24 hours, hours of 60
      minutes, minutes of 60 seconds. */
  lemma SplitParts(years: nat, months: nat, days: nat, hours: nat, minutes: nat, seconds: nat)
    requires months * 30 + days < 365 && days < 30 && hours < 24 && minutes < 60 && seconds < 60
    ensures var n := ((((years * 365 + (months * 30 + days)) * 24 + hours) * 60 + minutes) * 60) + seconds;
            Split(n) == [Field(years, 'y'), Field(months, 'M'), Field(days, 'd'), Field(hours, 'h'), Field(minutes, 'm'),
                         Field(seconds, 's')]
  {
    var n4 := minutes * 60 + seconds;
    var n3 := hours * 3600 + n4;
    var n2 := days * 86400 + n3;
    var n1 := months * 2592000 + n2;
    Quotient(n4, 60, minutes, seconds);
    Quotient(n3, 3600, hours, n4);
    Quotient(n2, 86400, days, n3);
    Quotient(n1, 2592000, months, n2);
    Quotient(years * 31536000 + n1, 31536000, years, n1);
  }

  lemma PrintAlone(years: nat, months: nat, days: nat, hours: nat, minutes: nat, seconds: nat, i: nat)
    requires months <= 12 && days < 30 && hours < 24 && minutes < 60 && seconds < 60 && i < 6
    requires var c := [years, months, days, hours, minutes, seconds]; c[i] > 0 && forall j | 0 <= j < 6 && j != i :: c[j] == 0
    ensures var n := ((((years * 365 + (months * 30 + days)) * 24 + hours) * 60 + minutes) * 60) + seconds;
            n <= INT_MAX ==>
              StrTime(n) == Print([years, months, days, hours, minutes, seconds][i]) + ["yMdhms"[i]]
  {
    var n := ((((years * 365 + (months * 30 + days)) * 24 + hours) * 60 + minutes) * 60) + seconds;
    var c := [years, months, days, hours, minutes, seconds];
    assert c[0] == years && c[1] == months && c[2] == days && c[3] == hours && c[4] == minutes && c[5] == seconds;
    SplitParts(years, months, days, hours, minutes, seconds);
    hide Print, StrTime, Split;
    if n <= INT_MAX {
      PrintOne(n, i);
    }
  }

  /** What a whole number of each unit prints as. */
  lemma UnitsPrint(n: nat)
    requires n > 0
    ensures n < 60 ==> StrTime(n) == Print(n) + "s" && StrTime(n * 60) == Print(n) + "m"
    ensures n < 24 ==> StrTime(n * 3600) == Print(n) + "h"
    ensures n < 30 ==> StrTime(n * 86400) == Print(n) + "d"
    ensures n <= 12 ==> StrTime(n * 2592000) == Print(n) + "M"
    ensures n <= 68 ==> StrTime(n * 31536000) == Print(n) + "y"
  {
    hide Print, StrTime;
    if n < 60 {
      PrintAlone(0, 0, 0, 0, 0, n, 5);
      PrintAlone(0, 0, 0, 0, n, 0, 4);
    }
    if n < 24 { PrintAlone(0, 0, 0, n, 0, 0, 3); }
    if n < 30 { PrintAlone(0, 0, n, 0, 0, 0, 2); }
    if n <= 12 { PrintAlone(0, n, 0, 0, 0, 0, 1); }
    if n <= 68 { PrintAlone(n, 0, 0, 0, 0, 0, 0); }
  }
}
