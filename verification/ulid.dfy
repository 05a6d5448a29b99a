/** Identifiers of the memory tool (lib.py): the timestamp half of a ULID in
    Crockford's base 32, and the validity test. The random half is an input. */
module Ulid {
  import opened PyStr
  import opened Order

  /** Crockford's base-32 alphabet: digits, then upper-case letters without I, L, O, U. */
  const Encoding: string := "0123456789ABCDEFGHJKMNPQRSTVWXYZ"
  const UlidLength := 26
  const TimestampDigits := 10
  const RandomDigits := 16

  predicate IsSymbol(c: char) {
    ('0' <= c <= '9') || ('A' <= c <= 'H') || c == 'J' || c == 'K' || c == 'M' || c == 'N'
    || ('P' <= c <= 'T') || ('V' <= c <= 'Z')
  }

  predicate Symbols(s: string) {
    forall i | 0 <= i < |s| :: IsSymbol(s[i])
  }

  /** The position of a symbol in the alphabet. */
  function DigitValue(c: char): (d: nat)
    requires IsSymbol(c)
    ensures d < 32
  {
    if c <= '9' then c as int - '0' as int
    else if c <= 'H' then c as int - 'A' as int + 10
    else if c <= 'K' then c as int - 'J' as int + 18
    else if c <= 'N' then c as int - 'M' as int + 20
    else if c <= 'T' then c as int - 'P' as int + 22
    else c as int - 'V' as int + 27
  }

  /** The alphabet lists exactly the symbols, in order of their values. */
  lemma EncodingDigits()
    ensures |Encoding| == 32
    ensures forall i | 0 <= i < 32 :: IsSymbol(Encoding[i]) && DigitValue(Encoding[i]) == i
  {
  }

  lemma InEncoding(c: char)
    ensures c in Encoding <==> IsSymbol(c)
  {
    EncodingDigits();
    if IsSymbol(c) {
      assert Encoding[DigitValue(c)] == c;
    }
  }

  /** The alphabet is ascending, so character order is value order. */
  lemma DigitMonotone(x: char, y: char)
    requires IsSymbol(x) && IsSymbol(y)
    ensures x < y <==> DigitValue(x) < DigitValue(y)
  {
  }

  // ---------------------------------------------------------------------------
  // Base-32 numerals
  // ---------------------------------------------------------------------------

  function Pow32(n: nat): (r: nat)
    ensures r >= 1
  {
    if n == 0 then 1 else 32 * Pow32(n - 1)
  }

  /** The number a numeral spells, most significant symbol first. */
  function Value(s: string): (v: nat)
    requires Symbols(s)
    ensures v < Pow32(|s|)
  {
    if |s| == 0 then 0
    else
      assert Symbols(s[1..]);
      Place(DigitValue(s[0]), |s| - 1, Value(s[1..]))
  }

  /** A digit `d` in front of a numeral of `n` digits worth `rest`. */
  function Place(d: nat, n: nat, rest: nat): (v: nat)
    requires d < 32 && rest < Pow32(n)
    ensures v < Pow32(n + 1)
  {
    DigitDominates(d, 32, rest, 0, Pow32(n));
    d * Pow32(n) + rest
  }

  lemma MulLeft(a: int, b: int, p: int)
    requires a <= b && p >= 0
    ensures a * p <= b * p
  {
  }

  /** A higher leading digit outweighs whatever follows it. */
  lemma DigitDominates(d1: int, d2: int, r1: int, r2: int, p: int)
    requires 0 <= d1 < d2 && 0 <= r1 < p && 0 <= r2
    ensures d1 * p + r1 < d2 * p + r2
  {
    MulLeft(d1 + 1, d2, p);
  }

  /** Euclidean division has one quotient and remainder. */
  lemma DivModUnique(t: int, d: int, q: int, m: int)
    requires d > 0 && 0 <= m < d && t == d * q + m
    ensures q == t / d && m == t % d
  {
    var q', m' := t / d, t % d;
    assert d * (q - q') == m' - m;
    if q > q' {
      MulLeft(1, q - q', d);
    } else if q < q' {
      MulLeft(1, q' - q, d);
    }
  }

  /** One more base-32 digit: dividing by `p` then by 32 is dividing by `32 * p`,
      and the new remainder adds the next digit on top of the old one. */
  lemma NextDigit(t: int, p: int)
    requires p > 0
    ensures (t / p) / 32 == t / (32 * p)
    ensures t % (32 * p) == ((t / p) % 32) * p + t % p
  {
    var q, r := t / p, t % p;
    var q2, d := q / 32, q % 32;
    assert t == (32 * p) * q2 + (d * p + r);
    MulLeft(d, 31, p);
    DivModUnique(t, 32 * p, q2, d * p + r);
  }

  /** The timestamp half of generate_ulid: ten digits of `t`, least significant
      first, then reversed. Python's `%` and `//` by 32 agree with Dafny's here,
      since the divisor is positive. */
  method TimestampPart(t: int) returns (r: string)
    ensures |r| == TimestampDigits
    ensures Symbols(r)
    ensures Value(r) == t % Pow32(TimestampDigits)
  {
    EncodingDigits();
    r := "";
    var ts := t;
    var k := 0;
    while k < TimestampDigits
      invariant 0 <= k <= TimestampDigits
      invariant |r| == k && Symbols(r)
      invariant ts == t / Pow32(k)
      invariant Value(r) == t % Pow32(k)
    {
      var d := ts % 32;
      NextDigit(t, Pow32(k));
      var r' := [Encoding[d]] + r;
      assert r'[1..] == r;
      r := r';
      ts := ts / 32;
      k := k + 1;
    }
  }

  /** generate_ulid; `random` stands for the sixteen `random.choice(ENCODING)` draws. */
  method Generate(t: int, random: string) returns (u: string)
    requires |random| == RandomDigits && Symbols(random)
    ensures |u| == UlidLength
    ensures Symbols(u[..TimestampDigits]) && Value(u[..TimestampDigits]) == t % Pow32(TimestampDigits)
    ensures u[TimestampDigits..] == random
    ensures IsValid(u) && IsValidAsWritten(u)
  {
    var ts := TimestampPart(t);
    u := ts + random;
    assert u[..TimestampDigits] == ts;
    assert u[TimestampDigits..] == random;
    assert Symbols(u);
    SymbolsValid(u);
  }

  /** Numerals of one length sort as strings exactly as their values sort. */
  lemma {:induction false} NumeralOrder(a: string, b: string)
    requires |a| == |b| && Symbols(a) && Symbols(b)
    ensures Less(a, b) <==> Value(a) < Value(b)
    decreases |a|
  {
    if |a| > 0 {
      if a[0] == b[0] {
        SameLead(a, b);
        NumeralOrder(a[1..], b[1..]);
      } else if a[0] < b[0] {
        LowerLead(a, b);
      } else {
        LowerLead(b, a);
      }
    }
  }

  lemma SameLead(a: string, b: string)
    requires |a| == |b| > 0 && Symbols(a) && Symbols(b) && a[0] == b[0]
    ensures Symbols(a[1..]) && Symbols(b[1..])
    ensures Less(a, b) <==> Less(a[1..], b[1..])
    ensures Value(a) < Value(b) <==> Value(a[1..]) < Value(b[1..])
  {
    assert Symbols(a[1..]) && Symbols(b[1..]);
  }

  /** The numeral with the lower leading symbol is both the lesser string and the
      lesser number. */
  lemma LowerLead(a: string, b: string)
    requires |a| == |b| > 0 && Symbols(a) && Symbols(b) && a[0] < b[0]
    ensures Less(a, b) && !Less(b, a) && Value(a) < Value(b)
  {
    assert Symbols(a[1..]) && Symbols(b[1..]);
    DigitMonotone(a[0], b[0]);
    DigitDominates(DigitValue(a[0]), DigitValue(b[0]), Value(a[1..]), Value(b[1..]), Pow32(|a| - 1));
  }

  /** ULIDs made at two times sort by their timestamps, as long as both times fit
      in ten base-32 digits. */
  lemma TimestampsSort(a: string, b: string, t1: int, t2: int)
    requires |a| == |b| == TimestampDigits && Symbols(a) && Symbols(b)
    requires Value(a) == t1 % Pow32(TimestampDigits) && Value(b) == t2 % Pow32(TimestampDigits)
    requires 0 <= t1 < Pow32(TimestampDigits) && 0 <= t2 < Pow32(TimestampDigits)
    ensures Less(a, b) <==> t1 < t2
  {
    var p := Pow32(TimestampDigits);
    DivModUnique(t1, p, 0, t1);
    DivModUnique(t2, p, 0, t2);
    NumeralOrder(a, b);
  }

  // ---------------------------------------------------------------------------
  // Validity
  // ---------------------------------------------------------------------------

  /** `c.upper()` as far as it decides membership in the alphabet: ASCII letters,
      and the code points whose upper case is spelt in ASCII letters, are mapped;
      the upper case of any other code point contains a character outside ASCII,
      so the code point stands for it. */
  function Upper(c: char): (r: string)
    ensures |r| >= 1
  {
    if 'a' <= c <= 'z' then [(c as int - 32) as char]
    else if c == '\U{0131}' then "I"
    else if c == '\U{017F}' then "S"
    else if c == '\U{00DF}' then "SS"
    else if c == '\U{FB00}' then "FF"
    else if c == '\U{FB01}' then "FI"
    else if c == '\U{FB02}' then "FL"
    else if c == '\U{FB03}' then "FFI"
    else if c == '\U{FB04}' then "FFL"
    else if c == '\U{FB05}' || c == '\U{FB06}' then "ST"
    else [c]
  }

  /** is_valid_ulid as written: the upper case of each character must occur in the
      alphabet as a substring. */
  predicate IsValidAsWritten(u: string) {
    |u| == UlidLength && forall i | 0 <= i < |u| :: Contains(Encoding, Upper(u[i]))
  }

  function UpperAscii(c: char): char {
    if 'a' <= c <= 'z' then (c as int - 32) as char else c
  }

  /** is_valid_ulid as intended: 26 characters, each a symbol of the alphabet
      in either case. */
  predicate IsValid(u: string) {
    |u| == UlidLength && forall i | 0 <= i < |u| :: IsSymbol(UpperAscii(u[i]))
  }

  /** A one-character string occurs in `s` exactly when the character does. */
  lemma ContainsChar(s: string, c: char)
    ensures Contains(s, [c]) <==> c in s
  {
    if Contains(s, [c]) {
      var k := FindFrom(s, [c], 0).value;
      assert s[k..k + 1][0] == s[k];
    }
    if c in s {
      var k :| 0 <= k < |s| && s[k] == c;
      assert Occurs(s, [c], k);
    }
  }

  lemma OccursContains(s: string, pat: string, k: nat)
    requires Occurs(s, pat, k)
    ensures Contains(s, pat)
  {
  }

  /** A symbol passes both tests, in the case it is written. */
  lemma SymbolAccepted(x: char)
    requires IsSymbol(x)
    ensures Contains(Encoding, Upper(x)) && IsSymbol(UpperAscii(x))
  {
    assert Upper(x) == [x] && UpperAscii(x) == x;
    ContainsChar(Encoding, x);
    InEncoding(x);
  }

  lemma SymbolsValid(u: string)
    requires |u| == UlidLength && Symbols(u)
    ensures IsValid(u) && IsValidAsWritten(u)
  {
    forall i | 0 <= i < |u| ensures Contains(Encoding, Upper(u[i])) && IsSymbol(UpperAscii(u[i])) {
      SymbolAccepted(u[i]);
    }
  }

  /** A valid ULID is ASCII. */
  lemma ValidIsAscii(u: string)
    requires IsValid(u)
    ensures forall i | 0 <= i < |u| :: u[i] < 128 as char
  {
    forall i | 0 <= i < |u| ensures u[i] < 128 as char {
      assert IsSymbol(UpperAscii(u[i]));
    }
  }

  /** On an ASCII character the two tests agree. */
  lemma AsciiCharAgrees(x: char)
    requires x < 128 as char
    ensures Contains(Encoding, Upper(x)) <==> IsSymbol(UpperAscii(x))
  {
    assert Upper(x) == [UpperAscii(x)];
    ContainsChar(Encoding, UpperAscii(x));
    InEncoding(UpperAscii(x));
  }

  /** On ASCII text the test as written and the intended test agree. */
  lemma AsciiAgree(u: string)
    requires forall i | 0 <= i < |u| :: u[i] < 128 as char
    ensures IsValidAsWritten(u) <==> IsValid(u)
  {
    forall i | 0 <= i < |u| ensures Contains(Encoding, Upper(u[i])) <==> IsSymbol(UpperAscii(u[i])) {
      AsciiCharAgrees(u[i]);
    }
  }

  /** The long s and the ligature U+FB06 pass the test as written: their upper
      cases "S" and "ST" occur in the alphabet. */
  lemma LeadAccepted(c: char)
    requires c == '\U{017F}' || c == '\U{FB06}'
    ensures Contains(Encoding, Upper(c)) && !IsSymbol(UpperAscii(c))
  {
    assert Encoding[25] == 'S' && Encoding[26] == 'T';
    assert Occurs(Encoding, Upper(c), 25);
    OccursContains(Encoding, Upper(c), 25);
  }

  /** The test as written accepts a long s (U+017F), whose upper case is "S", and
      the ligature U+FB06, whose upper case "ST" happens to occur in the alphabet,
      in front of any 25 symbols; the intended test refuses both. */
  lemma AsWrittenAcceptsNonAscii(c: char, rest: string)
    requires c == '\U{017F}' || c == '\U{FB06}'
    requires |rest| == UlidLength - 1 && Symbols(rest)
    ensures IsValidAsWritten([c] + rest) && !IsValid([c] + rest)
  {
    var u := [c] + rest;
    LeadAccepted(c);
    assert u[0] == c && !IsSymbol(UpperAscii(u[0]));
    forall i | 0 <= i < |u| ensures Contains(Encoding, Upper(u[i])) {
      if i > 0 {
        assert u[i] == rest[i - 1];
        SymbolAccepted(u[i]);
      }
    }
  }
}
