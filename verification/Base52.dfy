/** Invite paths: team link numbers in base 52, least significant digit first. */
module Base52 {
  import opened Prelude

  const MIN_LENGTH := 6

  /** Letter `d` of the alphabet: a to z, then A to Z. */
  function Letter(d: nat): char
    requires d < 52
  {
    if d < 26 then ('a' as int + d) as char else ('A' as int + d - 26) as char
  }

  ghost function Pow52(k: nat): nat {
    if k == 0 then 1 else 52 * Pow52(k - 1)
  }

  /** The offset added to every link number, with the source's integer divisions. */
  function StartConst(): (c: int)
    ensures c == 11055975780
  {
    var power := 52 * 52 * 52 * 52;
    (power * (52 * 5 / 6) + power * 52 / 9) * 31
  }

  /** The path of a number: its digits, least significant first. */
  ghost function Digits(n: nat): string {
    if n == 0 then "" else [Letter(n % 52)] + Digits(n / 52)
  }

  lemma OneDigit(path: string, n: nat)
    requires n > 0
    ensures path + Digits(n) == path + [Letter(n % 52)] + Digits(n / 52)
  {
  }

  method LinkIDToPath(id: int) returns (path: string)
    requires id >= 0
    ensures path == Digits(id + StartConst())
  {
    path := "";
    var n := id + StartConst();
    ghost var whole := Digits(n);
    while n > 0
      invariant n >= 0 && path + Digits(n) == whole
    {
      OneDigit(path, n);
      path := path + [Letter(n % 52)];
      n := n / 52;
    }
  }

  /** The digit a letter stands for. */
  function Digit(c: char): int {
    if 'a' <= c <= 'z' then c as int - 'a' as int
    else if 'A' <= c <= 'Z' then c as int - 'A' as int + 26
    else 0
  }

  function Number(path: string): int {
    if path == "" then 0 else Digit(path[0]) + 52 * Number(path[1..])
  }

  /** The link number a path stands for. */
  function PathToLinkID(path: string): int {
    Number(path) - StartConst()
  }

  lemma {:induction false} NumberOfDigits(n: nat)
    ensures Number(Digits(n)) == n
  {
    if n > 0 {
      NumberOfDigits(n / 52);
      assert Digits(n)[1..] == Digits(n / 52);
    }
  }

  /** Letter `k` of a path stands for the number's digit `k` in base 52, lowest first: a to z for 0 to 25, then
      A to Z. */
  lemma {:induction false} LettersAreDigits(n: nat, k: nat)
    requires k < |Digits(n)|
    ensures Pow52(k) > 0
    ensures var d := n / Pow52(k) % 52;
            Digits(n)[k] as int == if d < 26 then 'a' as int + d else 'A' as int + (d - 26)
  {
    PowIsPositive(k);
    if k > 0 {
      LettersAreDigits(n / 52, k - 1);
      DivideTwice(n, 52, Pow52(k - 1));
    }
  }

  /** Decoding gives the link number back, so no two teams share a path. */
  lemma PathsAreInjective(a: nat, b: nat)
    ensures PathToLinkID(Digits(a + StartConst())) == a
    ensures Digits(a + StartConst()) == Digits(b + StartConst()) ==> a == b
  {
    NumberOfDigits(a + StartConst());
    NumberOfDigits(b + StartConst());
  }

  /** A number has `k` digits exactly when it lies between consecutive powers. */
  lemma {:induction false} DigitCount(n: nat, k: nat)
    requires k > 0
    ensures |Digits(n)| == k <==> Pow52(k - 1) <= n < Pow52(k)
    decreases k
  {
    if k == 1 {
      if n >= 52 {
        assert n / 52 > 0;
        assert |Digits(n / 52)| > 0;
      }
    } else if n > 0 {
      DigitCount(n / 52, k - 1);
      Bracket(n, Pow52(k - 2), Pow52(k - 1));
      PowIsPositive(k - 2);
    } else {
      PowIsPositive(k - 1);
    }
  }

  lemma Bracket(n: nat, lo: nat, hi: nat)
    ensures lo <= n / 52 < hi <==> 52 * lo <= n < 52 * hi
  {
  }

  lemma {:induction false} PowIsPositive(k: nat)
    ensures Pow52(k) > 0
  {
    if k > 0 {
      PowIsPositive(k - 1);
    }
  }

  lemma {:induction false} LongerFromPower(n: nat, k: nat)
    requires Pow52(k) <= n
    ensures |Digits(n)| > k
  {
    if k == 0 {
      PowIsPositive(0);
    } else {
      PowIsPositive(k);
      LongerFromPower(n / 52, k - 1);
    }
  }

  lemma Powers()
    ensures Pow52(5) == 380204032 && Pow52(6) == 19770609664
  {
    assert Pow52(1) == 52;
    assert Pow52(2) == 2704;
    assert Pow52(3) == 140608;
    assert Pow52(4) == 7311616;
  }

  /** Every path has at least six letters, and exactly six below link number 8714633884. */
  lemma PathLength(id: nat)
    ensures |Digits(id + StartConst())| >= MIN_LENGTH
    ensures |Digits(id + StartConst())| == MIN_LENGTH <==> id < 8714633884
  {
    Powers();
    LongerFromPower(id + StartConst(), 5);
    DigitCount(id + StartConst(), 6);
  }
}
