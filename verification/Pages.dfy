/** Page identifiers: a flag letter and a decimal timestamp. */
module Pages {
  import opened Prelude

  const MIN_INT64 := -0x8000_0000_0000_0000
  const MAX_INT64 := 0x7FFF_FFFF_FFFF_FFFF

  newtype int64 = x: int | MIN_INT64 <= x <= MAX_INT64

  datatype Page = Page(timestamp: int64, finished: bool)

  function DigitChar(d: int): char
    requires 0 <= d < 10
  {
    "0123456789"[d]
  }

  /** Decimal digits, most significant first, at least one. */
  function Decimal(n: nat): (s: string)
    ensures s != ""
  {
    if n < 10 then [DigitChar(n)] else Decimal(n / 10) + [DigitChar(n % 10)]
  }

  /** The shortest decimal form with a sign for negative values. */
  function FormatInt(x: int64): string {
    if x < 0 then "-" + Decimal(-(x as int)) else Decimal(x as int)
  }

  predicate IsDigit(c: char) {
    '0' <= c <= '9'
  }

  /** The value of a string of digits. */
  function Value(s: string): Option<int> {
    if s == "" then Some(0)
    else
      var init := Value(s[..|s| - 1]);
      var c := s[|s| - 1];
      if init.None? || !IsDigit(c) then None else Some(10 * init.value + (c as int - '0' as int))
  }

  /** An optional sign, then digits only, within the 64-bit range. */
  function ParseInt(s: string): Option<int64> {
    var negative := s != "" && s[0] == '-';
    var digits := if s != "" && (s[0] == '-' || s[0] == '+') then s[1..] else s;
    if digits == "" || Value(digits).None? then None
    else
      var v: int := if negative then -Value(digits).value else Value(digits).value;
      if MIN_INT64 <= v <= MAX_INT64 then Some(v as int64) else None
  }

  /** Writes the flag letter, then the timestamp. */
  method ID(p: Page) returns (id: string)
    ensures id == IDOf(p)
  {
    id := "";
    if p.finished {
      id := id + "t";
    } else {
      id := id + "f";
    }
    id := id + FormatInt(p.timestamp);
  }

  function IDOf(p: Page): string {
    [if p.finished then 't' else 'f'] + FormatInt(p.timestamp)
  }

  /** The empty identifier is the first page; otherwise a flag letter and a number, or an error. */
  function PageFromIDString(id: string): Option<Page> {
    if id == "" then Some(Page(0, false))
    else if id[0] != 'f' && id[0] != 't' then None
    else
      var ts := ParseInt(id[1..]);
      if ts.None? then None else Some(Page(ts.value, id[0] == 't'))
  }

  lemma {:induction false} ValueOfDecimal(n: nat)
    ensures Value(Decimal(n)) == Some(n)
    ensures IsDigit(Decimal(n)[0])
  {
    var s := Decimal(n);
    if n >= 10 {
      ValueOfDecimal(n / 10);
      assert s[..|s| - 1] == Decimal(n / 10);
    } else {
      assert s[..|s| - 1] == "";
    }
  }

  ghost function Pow10(k: nat): (p: nat)
    ensures p > 0
  {
    if k == 0 then 1 else 10 * Pow10(k - 1)
  }

  /** The decimal digit of weight 10 to the power of `k`. */
  ghost function DecimalDigit(n: nat, k: nat): int {
    n / Pow10(k) % 10
  }

  lemma DigitOfQuotient(n: nat, k: nat)
    ensures DecimalDigit(n, k + 1) == DecimalDigit(n / 10, k)
  {
    DivideTwice(n, 10, Pow10(k));
  }

  lemma DigitCharIs(d: int)
    requires 0 <= d < 10
    ensures DigitChar(d) as int == '0' as int + d
  {
  }

  lemma LastDigit(n: nat)
    ensures Decimal(n)[|Decimal(n)| - 1] as int == '0' as int + DecimalDigit(n, 0)
  {
    DigitCharIs(n % 10);
    assert DecimalDigit(n, 0) == n % 10;
  }

  lemma EarlierDigit(n: nat, k: nat)
    requires 0 < k < |Decimal(n)|
    ensures |Decimal(n)| == |Decimal(n / 10)| + 1
    ensures Decimal(n)[|Decimal(n)| - 1 - k] == Decimal(n / 10)[|Decimal(n / 10)| - k]
  {
  }

  /** The last character is the ones digit, the one before it the tens, and so on. */
  lemma {:induction false} DecimalDigits(n: nat, k: nat)
    requires k < |Decimal(n)|
    ensures Decimal(n)[|Decimal(n)| - 1 - k] as int == '0' as int + DecimalDigit(n, k)
  {
    if k == 0 {
      LastDigit(n);
    } else {
      EarlierDigit(n, k);
      DecimalDigits(n / 10, k - 1);
      DigitOfQuotient(n, k - 1);
    }
  }

  lemma {:induction false} NoLeadingZero(n: nat)
    ensures n > 0 ==> Decimal(n)[0] != '0'
  {
    if n >= 10 {
      NoLeadingZero(n / 10);
    }
  }

  lemma ParseOfFormat(x: int64)
    ensures ParseInt(FormatInt(x)) == Some(x)
  {
    var s := FormatInt(x);
    if x < 0 {
      ValueOfDecimal(-(x as int));
      assert s[1..] == Decimal(-(x as int));
    } else {
      ValueOfDecimal(x as int);
    }
  }

  /** Reading an identifier back gives the page, over the whole 64-bit range. */
  lemma PageRoundTrip(p: Page)
    ensures PageFromIDString(IDOf(p)) == Some(p)
  {
    ParseOfFormat(p.timestamp);
    assert IDOf(p)[1..] == FormatInt(p.timestamp);
  }

  /** Identifiers that name one page are not unique: the number may carry a plus sign, and the empty
      identifier stands for the first page. */
  lemma OtherSpellings(p: Page)
    requires p.timestamp >= 0
    ensures PageFromIDString([if p.finished then 't' else 'f'] + "+" + FormatInt(p.timestamp)) == Some(p)
    ensures PageFromIDString("") == PageFromIDString(IDOf(Page(0, false)))
  {
    var id := [if p.finished then 't' else 'f'] + "+" + FormatInt(p.timestamp);
    ValueOfDecimal(p.timestamp as int);
    assert id[1..] == "+" + FormatInt(p.timestamp);
    assert id[1..][1..] == FormatInt(p.timestamp);
    PageRoundTrip(Page(0, false));
  }
}
