/**
 * `strtoul(token, NULL, 0)` as the console uses it (ISO C99 section 7.20.1.4),
 * with the target's 32-bit `unsigned long`.  Leading white space is skipped,
 * an optional sign is read, base 0 picks hexadecimal after `0x`/`0X`, octal
 * after a leading `0` and decimal otherwise, the longest run of digits of
 * that base is converted and anything after it is ignored.  A subject with
 * no digits converts to 0 without an error.  The only error the caller can
 * see is ERANGE, when the magnitude does not fit; a leading `-` negates the
 * result in unsigned arithmetic.
 */
module StrToUL {
  import opened Wrappers
  import opened CSemantics

  /** Value of a character read as a digit of a base up to 36, or -1. */
  function DigitValue(c: char): (v: int)
    ensures -1 <= v < 36
    ensures '0' <= c <= '9' <==> 0 <= v < 10
  {
    if '0' <= c <= '9' then c as int - '0' as int
    else if 'a' <= c <= 'z' then c as int - 'a' as int + 10
    else if 'A' <= c <= 'Z' then c as int - 'A' as int + 10
    else -1
  }

  predicate IsDigit(c: char, base: nat)
  {
    0 <= DigitValue(c) < base
  }

  predicate AllDigits(ds: string, base: nat)
  {
    forall i :: 0 <= i < |ds| ==> IsDigit(ds[i], base)
  }

  /** The longest prefix of `s` made of digits of `base`. */
  function DigitRun(s: string, base: nat): (run: string)
    ensures |run| <= |s| && run == s[..|run|]
    ensures AllDigits(run, base)
    ensures |run| < |s| ==> !IsDigit(s[|run|], base)
  {
    if s == [] || !IsDigit(s[0], base) then [] else [s[0]] + DigitRun(s[1..], base)
  }

  /** A run of zero digits, possibly empty. */
  predicate Zeros(zs: string)
  {
    forall i :: 0 <= i < |zs| ==> zs[i] == '0'
  }

  /** The number a digit string denotes, most significant digit first; zeros alone denote 0. */
  function Magnitude(ds: string, base: nat): (m: nat)
    requires AllDigits(ds, base)
    ensures Zeros(ds) ==> m == 0
  {
    if ds == [] then 0 else Magnitude(ds[..|ds| - 1], base) * base + DigitValue(ds[|ds| - 1])
  }

  /** `s` without its leading `isspace` characters. */
  function SkipSpace(s: string): (t: string)
    ensures |t| <= |s|
    ensures t == [] || !IsSpace(t[0])
  {
    if s != [] && IsSpace(s[0]) then SkipSpace(s[1..]) else s
  }

  /** How base 0 reads the text after the white space: sign, base, digits. */
  datatype Subject = Subject(negative: bool, base: nat, digits: string)

  function SubjectOf(s: string): (sub: Subject)
    ensures sub.base in {8, 10, 16}
  {
    var t := SkipSpace(s);
    if t != [] && (t[0] == '-' || t[0] == '+') then Based(t[0] == '-', t[1..]) else Based(false, t)
  }

  /** The base the text after the sign selects, and the digits that follow the prefix. */
  function Based(negative: bool, u: string): (sub: Subject)
    ensures sub.base in {8, 10, 16} && sub.negative == negative
  {
    if |u| >= 2 && u[0] == '0' && (u[1] == 'x' || u[1] == 'X') then Subject(negative, 16, u[2..])
    else if u != [] && u[0] == '0' then Subject(negative, 8, u)
    else Subject(negative, 10, u)
  }

  /** The value of a subject: its digit run converted, ERANGE when too large. */
  function Convert(sub: Subject): (r: Option<nat>)
    ensures r.Some? ==> r.value <= ULONG_MAX
  {
    var m := Magnitude(DigitRun(sub.digits, sub.base), sub.base);
    if m > ULONG_MAX then None
    else Some(if sub.negative then Wrap32(-(m as int)) else m)
  }

  /**
   * `strtoul(s, NULL, 0)` on a 32-bit target: `None` when errno becomes
   * ERANGE, otherwise the value returned.
   */
  function ParseUL(s: string): (r: Option<nat>)
    ensures r.Some? ==> r.value <= ULONG_MAX
  {
    Convert(SubjectOf(s))
  }

  // ----- canonical numerals, the inverse direction -----

  function DigitChar(d: nat): (c: char)
    requires d < 16
    ensures DigitValue(c) == d
  {
    "0123456789abcdef"[d]
  }

  /** The canonical numeral of `n` in `base`, without prefix or leading zeros. */
  function Numeral(n: nat, base: nat): (ds: string)
    requires 2 <= base <= 16
    ensures ds != [] && AllDigits(ds, base)
    ensures 0 < n ==> ds[0] != '0'
  {
    if n < base then [DigitChar(n)]
    else
      DivMod(n, base);
      var front := Numeral(n / base, base);
      front + [DigitChar(n % base)]
  }

  lemma {:induction false} MagnitudeOfNumeral(n: nat, base: nat)
    requires 2 <= base <= 16
    ensures Magnitude(Numeral(n, base), base) == n
  {
    var ds := Numeral(n, base);
    if n < base {
      assert ds[..0] == [];
    } else {
      var q, d := n / base, n % base;
      DivMod(n, base);
      assert ds == Numeral(q, base) + [DigitChar(d)];
      assert ds[..|ds| - 1] == Numeral(q, base);
      assert DigitValue(ds[|ds| - 1]) == d;
      MagnitudeOfNumeral(q, base);
      assert Magnitude(ds, base) == Magnitude(Numeral(q, base), base) * base + d;
      DivMod(n, base);
    }
  }

  lemma DivMod(n: nat, base: nat)
    requires 2 <= base
    ensures (n / base) * base + n % base == n
    ensures 0 <= n % base < base
    ensures n >= base ==> 0 < n / base < n
  {
  }

  /** A digit run stops exactly where the digits stop. */
  lemma {:induction false} DigitRunOfDigits(ds: string, rest: string, base: nat)
    requires AllDigits(ds, base)
    requires rest == [] || !IsDigit(rest[0], base)
    ensures DigitRun(ds + rest, base) == ds
  {
    if ds != [] {
      assert (ds + rest)[1..] == ds[1..] + rest;
      DigitRunOfDigits(ds[1..], rest, base);
    } else {
      assert ds + rest == rest;
    }
  }

  /** Text that starts with a digit is its own subject text, without a sign. */
  lemma SubjectOfUnsigned(s: string)
    requires s != [] && '0' <= s[0] <= '9'
    ensures SubjectOf(s) == Based(false, s)
  {
    assert SkipSpace(s) == s;
  }

  /** Leading zero digits do not change the number a digit string denotes. */
  lemma {:induction false} LeadingZeros(zs: string, ds: string, base: nat)
    requires Zeros(zs) && AllDigits(zs, base) && AllDigits(ds, base)
    ensures AllDigits(zs + ds, base) && Magnitude(zs + ds, base) == Magnitude(ds, base)
    decreases |ds|
  {
    var s := zs + ds;
    if ds == [] {
      assert s == zs;
    } else {
      var n := |ds| - 1;
      LeadingZeros(zs, ds[..n], base);
      assert s[..|s| - 1] == zs + ds[..n];
      assert s[|s| - 1] == ds[n];
    }
  }

  /**
   * Converting a subject whose digits are a numeral, after any number of
   * zeros, followed by a non-digit.
   */
  lemma ConvertNumeral(neg: bool, zs: string, n: nat, base: nat, rest: string)
    requires base in {8, 10, 16} && Zeros(zs)
    requires rest == [] || !IsDigit(rest[0], base)
    ensures Convert(Subject(neg, base, zs + Numeral(n, base) + rest))
            == if n > ULONG_MAX then None else Some(if neg then Wrap32(-(n as int)) else n)
  {
    MagnitudeOfNumeral(n, base);
    ConvertDigits(neg, zs, Numeral(n, base), n, base, rest);
  }

  /** Converting zeros, then digits of value `m`, then a non-digit gives `m`. */
  lemma ConvertDigits(neg: bool, zs: string, ds: string, m: nat, base: nat, rest: string)
    requires base in {8, 10, 16} && Zeros(zs) && AllDigits(ds, base) && Magnitude(ds, base) == m
    requires rest == [] || !IsDigit(rest[0], base)
    ensures Convert(Subject(neg, base, zs + ds + rest))
            == if m > ULONG_MAX then None else Some(if neg then Wrap32(-(m as int)) else m)
  {
    assert AllDigits(zs, base) by {
      assert DigitValue('0') == 0;
    }
    LeadingZeros(zs, ds, base);
    DigitRunOfDigits(zs + ds, rest, base);
  }

  /**
   * A decimal numeral followed by anything that does not continue it (the
   * trailing newline `fgets` leaves on the last token, say) converts to its
   * value, or to ERANGE when the value does not fit in 32 bits.
   */
  lemma DecimalRoundTrip(n: nat, rest: string)
    requires rest == [] || (!IsDigit(rest[0], 10) && rest[0] != 'x' && rest[0] != 'X')
    ensures ParseUL(Numeral(n, 10) + rest) == if n <= ULONG_MAX then Some(n) else None
  {
    var ds := Numeral(n, 10);
    var s := ds + rest;
    SubjectOfUnsigned(s);
    assert s == [] + ds + rest;
    if n == 0 {
      assert ds == Numeral(0, 8);
      assert SubjectOf(s) == Subject(false, 8, s);
      ConvertNumeral(false, [], 0, 8, rest);
    } else {
      assert SubjectOf(s) == Subject(false, 10, s);
      ConvertNumeral(false, [], n, 10, rest);
    }
  }

  /**
   * `0x`, any number of zeros and the hexadecimal numeral of `n` convert
   * back to `n`.
   */
  lemma HexRoundTrip(zs: string, n: nat, rest: string)
    requires Zeros(zs)
    requires rest == [] || !IsDigit(rest[0], 16)
    ensures ParseUL("0x" + zs + Numeral(n, 16) + rest) == if n <= ULONG_MAX then Some(n) else None
  {
    var u := zs + Numeral(n, 16) + rest;
    var s := "0x" + zs + Numeral(n, 16) + rest;
    assert s == "0x" + u;
    assert s[0] == '0' && s[1] == 'x' && s[2..] == u;
    SubjectOfUnsigned(s);
    ConvertNumeral(false, zs, n, 16, rest);
  }

  /** `s` with its lower-case letters in upper case. */
  function Upper(s: string): (t: string)
    ensures |t| == |s|
  {
    if s == [] then []
    else [if 'a' <= s[0] <= 'z' then (s[0] as int - 32) as char else s[0]] + Upper(s[1..])
  }

  /** Upper case leaves no lower-case letter and every digit value as it was. */
  lemma {:induction false} UpperDigits(s: string)
    ensures forall i :: 0 <= i < |s| ==> DigitValue(Upper(s)[i]) == DigitValue(s[i]) && !('a' <= Upper(s)[i] <= 'z')
    decreases |s|
  {
    if s != [] {
      UpperDigits(s[1..]);
      assert forall i :: 0 < i < |s| ==> Upper(s)[i] == Upper(s[1..])[i - 1] && s[i] == s[1..][i - 1];
    }
  }

  /** The upper-case hexadecimal numeral of `n` still denotes `n`. */
  lemma UpperNumeral(n: nat)
    ensures AllDigits(Upper(Numeral(n, 16)), 16) && Magnitude(Upper(Numeral(n, 16)), 16) == n
  {
    var ds := Numeral(n, 16);
    UpperDigits(ds);
    SameDigits(ds, Upper(ds), 16);
    MagnitudeOfNumeral(n, 16);
  }

  /** Digit strings with the same digit values denote the same number. */
  lemma {:induction false} SameDigits(ds: string, es: string, base: nat)
    requires |ds| == |es| && AllDigits(ds, base)
    requires forall i :: 0 <= i < |ds| ==> DigitValue(es[i]) == DigitValue(ds[i])
    ensures AllDigits(es, base) && Magnitude(es, base) == Magnitude(ds, base)
    decreases |ds|
  {
    if ds != [] {
      var n := |ds| - 1;
      SameDigits(ds[..n], es[..n], base);
    }
  }

  /**
   * `0X`, any number of zeros and the hexadecimal numeral of `n` written in
   * upper case convert back to `n` just as the lower-case form does.
   */
  lemma UpperHexRoundTrip(zs: string, n: nat, rest: string)
    requires Zeros(zs)
    requires rest == [] || !IsDigit(rest[0], 16)
    ensures ParseUL("0X" + zs + Upper(Numeral(n, 16)) + rest) == if n <= ULONG_MAX then Some(n) else None
  {
    var ds := Numeral(n, 16);
    var us := Upper(ds);
    var u := zs + us + rest;
    assert "0X" + zs + us + rest == "0" + ['X'] + u;
    HexPrefix('X', u);
    UpperNumeral(n);
    ConvertDigits(false, zs, us, n, 16, rest);
    assert ParseUL("0X" + zs + us + rest) == Convert(Subject(false, 16, u));
  }

  /** `0x` or `0X` selects base 16 for the text after it. */
  lemma HexPrefix(x: char, u: string)
    requires x == 'x' || x == 'X'
    ensures SubjectOf("0" + [x] + u) == Subject(false, 16, u)
  {
    var s := "0" + [x] + u;
    assert s[0] == '0' && s[1] == x && s[2..] == u;
    SubjectOfUnsigned(s);
  }

  /**
   * A leading `0`, any number of further zeros and the octal numeral of `n`
   * convert back to `n`: base 0 reads them as octal.
   */
  lemma OctalRoundTrip(zs: string, n: nat, rest: string)
    requires Zeros(zs)
    requires rest == [] || !IsDigit(rest[0], 8)
    ensures ParseUL("0" + zs + Numeral(n, 8) + rest) == if n <= ULONG_MAX then Some(n) else None
  {
    var ds := Numeral(n, 8);
    var z := "0" + zs;
    var s := z + ds + rest;
    assert s == "0" + zs + ds + rest;
    assert Zeros(z);
    assert s[1] != 'x' && s[1] != 'X' by {
      if zs == [] {
        assert s[1] == ds[0] && IsDigit(ds[0], 8);
      } else {
        assert s[1] == zs[0];
      }
    }
    SubjectOfUnsigned(s);
    assert SubjectOf(s) == Subject(false, 8, s);
    ConvertNumeral(false, z, n, 8, rest);
  }

  /** A minus sign is read before the base is chosen. */
  lemma MinusSubject(u: string)
    ensures SubjectOf("-" + u) == Based(true, u)
  {
    var s := "-" + u;
    assert SkipSpace(s) == s;
    assert s[0] == '-' && s[1..] == u;
  }

  /** A minus sign negates modulo 2^32 instead of failing. */
  lemma NegatedDecimal(n: nat)
    requires 0 < n <= ULONG_MAX
    ensures ParseUL("-" + Numeral(n, 10)) == Some(WORD - n)
  {
    var ds := Numeral(n, 10);
    MinusSubject(ds);
    assert ds[0] != '0';
    assert [] + ds + [] == ds;
    ConvertNumeral(true, [], n, 10, []);
    Wrap32Negate(n);
  }

  /** Leading white space does not change the conversion. */
  lemma LeadingSpace(c: char, s: string)
    requires IsSpace(c)
    ensures ParseUL([c] + s) == ParseUL(s)
  {
    assert ([c] + s)[1..] == s;
    assert SkipSpace([c] + s) == SkipSpace(s);
  }

  /** Text that does not start a number converts to 0, and no error is raised. */
  lemma NoDigitsIsZero(s: string)
    requires s == [] || (!IsSpace(s[0]) && s[0] != '+' && s[0] != '-' && !IsDigit(s[0], 10))
    ensures ParseUL(s) == Some(0)
  {
    assert SkipSpace(s) == s;
    assert SubjectOf(s) == Subject(false, 10, s);
    assert DigitRun(s, 10) == [];
  }
}
