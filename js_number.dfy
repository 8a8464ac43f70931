/** The part of JavaScript's `Number(string)` conversion the core depends on
    (ECMAScript, section 7.1.4.1.1 StringToNumber), over exact reals: the
    text is trimmed, empty text is 0, and a decimal literal with an optional
    sign and an optional fraction is its value. `None` stands for every
    result that `Number.isFinite` rejects (NaN and the infinities). */
module JsNumber {
  import opened Results
  import opened Text

  predicate IsDigit(c: char)
  {
    '0' <= c <= '9'
  }

  predicate AllDigits(s: string)
  {
    forall i :: 0 <= i < |s| ==> IsDigit(s[i])
  }

  /** The value of a run of decimal digits, most significant first. */
  function DigitsValue(d: string): nat
    requires AllDigits(d)
  {
    if d == [] then 0 else DigitsValue(d[..|d| - 1]) * 10 + (d[|d| - 1] as int - '0' as int)
  }

  /** The value of the digits after a decimal point: the first is tenths,
      the next hundredths, and so on. */
  function FractionValue(d: string): (v: real)
    requires AllDigits(d)
    ensures 0.0 <= v < 1.0
  {
    if d == [] then 0.0 else ((d[0] as int - '0' as int) as real + FractionValue(d[1..])) / 10.0
  }

  /** DecimalDigits, optionally with a '.' and more DecimalDigits, at least
      one digit in all ("5", "5.", ".5", "5.25"). */
  function UnsignedDecimal(u: string): (r: Option<real>)
    ensures r.Some? ==> r.value >= 0.0
  {
    var parts := Split(u, '.');
    if |parts| > 2 then None
    else
      var whole := parts[0];
      var frac := if |parts| == 2 then parts[1] else "";
      if AllDigits(whole) && AllDigits(frac) && |whole| + |frac| >= 1
      then Some(DigitsValue(whole) as real + FractionValue(frac))
      else None
  }

  /** 2^1024 - 2^970: halfway between `Number.MAX_VALUE` (2^1024 - 2^971) and
      2^1024. Under round-to-nearest, ties-to-even, a decimal value of this
      magnitude or more becomes an infinity (section 6.1.6.1 of ECMA-262). */
  const InfinityThreshold: real := 179769313486231580793728971405303415079934132710037826936173778980444968292764750946649017977587207096330286416692887910946555547851940402630657488671505820681908902000708383676273854845817711531764475730270069855571366959622842914819860834936475292719074168444365510704342711559699508093042880177904174497792.0

  /** The value of a non-blank StrDecimalLiteral: an optional sign and an
      unsigned decimal. */
  function SignedDecimal(t: string): Option<real>
    requires t != []
  {
    if t[0] == '-' then
      match UnsignedDecimal(t[1..])
      case Some(v) => Some(-v)
      case None => None
    else if t[0] == '+' then UnsignedDecimal(t[1..])
    else UnsignedDecimal(t)
  }

  /** `Number(s)`, restricted to finite results: blank text is 0, a decimal
      literal is its value unless it rounds to an infinity, and anything
      else is NaN. The sign of the result is the sign written. */
  function ParseNumber(s: string): (r: Option<real>)
    ensures Trim(s) == [] ==> r == Some(0.0)
    ensures r.Some? ==> -InfinityThreshold < r.value < InfinityThreshold
    ensures r.Some? && Trim(s) != [] && Trim(s)[0] == '-' ==> r.value <= 0.0
    ensures r.Some? && Trim(s) != [] && Trim(s)[0] != '-' ==> r.value >= 0.0
  {
    var t := Trim(s);
    if t == [] then Some(0.0)
    else
      match SignedDecimal(t)
      case Some(v) => if -InfinityThreshold < v < InfinityThreshold then Some(v) else None
      case None => None
  }

  /** Empty or white-space-only text converts to 0 (so `Number("")` is
      finite). */
  lemma BlankIsZero(s: string)
    requires IsBlank(s)
    ensures ParseNumber(s) == Some(0.0)
  {
    TrimDropsBlank(s);
  }

  predicate IsNumberChar(c: char)
  {
    IsDigit(c) || c == '.' || c == '+' || c == '-'
  }

  /** Text holding anything but digits, signs and points is not a finite
      number: "n/a", "abc", "12kg". */
  lemma NonNumericRejected(s: string, k: nat)
    requires k < |Trim(s)| && !IsNumberChar(Trim(s)[k])
    ensures ParseNumber(s) == None
  {
    var t := Trim(s);
    if t[0] == '-' || t[0] == '+' {
      assert t[1..][k - 1] == t[k];
      UnsignedRejects(t[1..], k - 1);
    } else {
      UnsignedRejects(t, k);
    }
  }

  lemma UnsignedRejects(u: string, j: nat)
    requires j < |u| && !IsDigit(u[j]) && u[j] != '.'
    ensures UnsignedDecimal(u) == None
  {
    var parts := Split(u, '.');
    var p := PartHolding(parts, '.', j);
    assert parts[p.0][p.1] == u[j];
  }

  /** Locates character `j` of a joined text inside one of its parts, when
      that character is not the separator. */
  lemma {:induction false} PartHolding(parts: seq<string>, sep: char, j: nat) returns (loc: (nat, nat))
    requires |parts| >= 1 && j < |Join(parts, sep)| && Join(parts, sep)[j] != sep
    ensures loc.0 < |parts| && loc.1 < |parts[loc.0]|
    ensures parts[loc.0][loc.1] == Join(parts, sep)[j]
  {
    if |parts| == 1 {
      loc := (0, j);
    } else if j < |parts[0]| {
      loc := (0, j);
    } else {
      var rest := Join(parts[1..], sep);
      assert Join(parts, sep) == parts[0] + [sep] + rest;
      assert j != |parts[0]|;
      assert Join(parts, sep)[j] == rest[j - |parts[0]| - 1];
      var l := PartHolding(parts[1..], sep, j - |parts[0]| - 1);
      loc := (l.0 + 1, l.1);
    }
  }

  /** The decimal numeral of a natural number, as `String(n)` writes it. */
  function DecimalText(n: nat): (t: string)
    ensures t != [] && AllDigits(t)
  {
    if n < 10 then [('0' as int + n) as char]
    else DecimalText(n / 10) + [('0' as int + n % 10) as char]
  }

  lemma {:induction false} DecimalTextValue(n: nat)
    ensures DigitsValue(DecimalText(n)) == n
  {
    var t := DecimalText(n);
    if n >= 10 {
      assert t[..|t| - 1] == DecimalText(n / 10);
      DecimalTextValue(n / 10);
    } else {
      assert t[..0] == [];
    }
  }

  /** A plain run of digits is read as the whole number it denotes. */
  lemma DigitRunValue(t: string)
    requires t != [] && AllDigits(t)
    ensures UnsignedDecimal(t) == Some(DigitsValue(t) as real)
  {
    assert '.' !in t by {
      forall i | 0 <= i < |t| ensures t[i] != '.' { assert IsDigit(t[i]); }
    }
    SplitNoSep(t, '.');
  }

  /** Writing a whole number in decimal and converting it back gives the
      number. */
  lemma NaturalRoundTrip(n: nat)
    requires (n as real) < InfinityThreshold
    ensures ParseNumber(DecimalText(n)) == Some(n as real)
  {
    var t := DecimalText(n);
    TrimOfUnpadded(t);
    DigitRunValue(t);
    DecimalTextValue(n);
    assert IsDigit(t[0]);
  }

  /** The same with a leading minus sign. */
  lemma NegativeRoundTrip(n: nat)
    requires (n as real) < InfinityThreshold
    ensures ParseNumber("-" + DecimalText(n)) == Some(-(n as real))
  {
    var t := DecimalText(n);
    var s := "-" + t;
    TrimOfUnpadded(s);
    assert s[1..] == t;
    DigitRunValue(t);
    DecimalTextValue(n);
  }

  /** A whole number too large for a double, written in decimal ("1"
      followed by 309 zeros, say), is rejected: `Number` gives Infinity,
      which is not finite. So is its negation. */
  lemma HugeNaturalRejected(n: nat)
    requires (n as real) >= InfinityThreshold
    ensures ParseNumber(DecimalText(n)) == None
    ensures ParseNumber("-" + DecimalText(n)) == None
  {
    var t := DecimalText(n);
    var s := "-" + t;
    TrimOfUnpadded(t);
    TrimOfUnpadded(s);
    assert s[1..] == t;
    DigitRunValue(t);
    DecimalTextValue(n);
    assert IsDigit(t[0]);
  }
}
