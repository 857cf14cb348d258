/** Decimal numerals, and how they are read. */
module Numerals {

  function Digit(n: nat): char
    requires n < 10
  {
    '0' + n as char
  }

  predicate IsDigit(c: char) {
    '0' <= c <= '9'
  }

  function Decimal(n: nat): string {
    if n < 10 then [Digit(n)] else Decimal(n / 10) + [Digit(n % 10)]
  }

  function Zeros(n: nat): string {
    seq(n, _ => '0')
  }

  /** Reads a decimal number; characters other than digits count as zero. */
  function ReadNat(s: string): nat {
    if s == [] then 0
    else 10 * ReadNat(s[..|s| - 1]) + (var c := s[|s| - 1]; if IsDigit(c) then (c - '0') as nat else 0)
  }

  lemma {:induction false} DecimalReads(n: nat)
    ensures ReadNat(Decimal(n)) == n
    ensures |Decimal(n)| >= 1 && forall c | c in Decimal(n) :: IsDigit(c)
    ensures forall w: nat | n < Power10(w) :: |Decimal(n)| <= w || w == 0
    ensures forall w: nat | n >= Power10(w) :: |Decimal(n)| > w
  {
    if n >= 10 {
      DecimalReads(n / 10);
      assert Decimal(n)[..|Decimal(n)| - 1] == Decimal(n / 10);
      forall w: nat | n < Power10(w) ensures |Decimal(n)| <= w || w == 0 {
        if w > 0 { assert n / 10 < Power10(w - 1); }
      }
      forall w: nat | n >= Power10(w) ensures |Decimal(n)| > w {
        if w > 0 { assert n / 10 >= Power10(w - 1); }
      }
    } else {
      assert Decimal(n)[..0] == [];
      assert forall w: nat | w > 0 :: Power10(w) == 10 * Power10(w - 1);
    }
  }

  function Power10(w: nat): (p: nat)
    ensures p >= 1
  {
    if w == 0 then 1 else 10 * Power10(w - 1)
  }

  lemma {:induction false} ZerosRead(n: nat, s: string)
    ensures ReadNat(Zeros(n) + s) == ReadNat(s)
    decreases |s|, n
  {
    var t := Zeros(n) + s;
    if s != [] {
      assert t[..|t| - 1] == Zeros(n) + s[..|s| - 1];
      ZerosRead(n, s[..|s| - 1]);
    } else if n > 0 {
      assert t[..|t| - 1] == Zeros(n - 1) + s;
      ZerosRead(n - 1, s);
    } else {
      assert t == s;
    }
  }

  /** `s` is the numeral of `n`, with any number of leading zeros. */
  ghost predicate Writes(s: string, n: nat) {
    exists z: nat :: s == Zeros(z) + Decimal(n)
  }

  predicate AllDigits(s: string) {
    forall i | 0 <= i < |s| :: IsDigit(s[i])
  }

  /** Exactly the non-empty strings of digits are numerals, each of the one number it reads as. */
  lemma WritesIff(s: string, n: nat)
    ensures Writes(s, n) <==> s != [] && AllDigits(s) && ReadNat(s) == n
  {
    hide ReadNat, Decimal, AllDigits, Zeros;
    if Writes(s, n) {
      var z: nat :| s == Zeros(z) + Decimal(n);
      NumeralReads(z, n);
    }
    if s != [] && AllDigits(s) && ReadNat(s) == n {
      DigitsWrite(s);
    }
  }

  lemma NumeralReads(z: nat, n: nat)
    ensures
      var s := Zeros(z) + Decimal(n);
      s != [] && AllDigits(s) && ReadNat(s) == n
  {
    hide ReadNat, Decimal;
    var s := Zeros(z) + Decimal(n);
    DecimalReads(n);
    ZerosRead(z, Decimal(n));
    forall i | 0 <= i < |s| ensures IsDigit(s[i]) {
      if i >= z {
        assert s[i] == Decimal(n)[i - z];
        assert s[i] in Decimal(n);
      }
    }
  }

  /** One more digit at the end of a numeral. */
  lemma AppendDigit(z: nat, m: nat, d: nat)
    requires d < 10
    ensures Zeros(z) + Decimal(m) + [Digit(d)] ==
      if m == 0 then Zeros(z + 1) + Decimal(d) else Zeros(z) + Decimal(10 * m + d)
  {
    if m != 0 {
      assert (10 * m + d) / 10 == m && (10 * m + d) % 10 == d;
    }
  }

  lemma ReadStep(rest: string, d: nat)
    requires d < 10
    ensures ReadNat(rest + [Digit(d)]) == 10 * ReadNat(rest) + d
  {
    assert (rest + [Digit(d)])[..|rest|] == rest;
  }

  lemma {:induction false} DigitsWrite(s: string)
    requires s != [] && AllDigits(s)
    ensures Writes(s, ReadNat(s))
  {
    hide Decimal, ReadNat, Zeros, Writes;
    var rest, d := s[..|s| - 1], LastDigit(s);
    assert s == rest + [Digit(d)];
    ReadStep(rest, d);
    if rest == [] {
      OneDigitWrites(d);
    } else {
      DigitsWrite(rest);
      NextWrites(rest, ReadNat(rest), d);
    }
  }

  function LastDigit(s: string): nat
    requires s != [] && AllDigits(s)
    ensures LastDigit(s) < 10 && Digit(LastDigit(s)) == s[|s| - 1]
  {
    assert IsDigit(s[|s| - 1]);
    (s[|s| - 1] - '0') as nat
  }

  lemma OneDigitWrites(d: nat)
    requires d < 10
    ensures ReadNat([]) == 0 && Writes([] + [Digit(d)], d)
  {
    assert [] + [Digit(d)] == Zeros(0) + Decimal(d);
  }

  lemma NextWrites(rest: string, m: nat, d: nat)
    requires Writes(rest, m) && d < 10
    ensures Writes(rest + [Digit(d)], 10 * m + d)
  {
    hide Decimal, Zeros;
    var z: nat :| rest == Zeros(z) + Decimal(m);
    AppendDigit(z, m, d);
  }
}
