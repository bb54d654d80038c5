/** The decimal text that fmt.Sprintf("%d") writes and fmt.Sscanf("%d") reads. */
module Decimal {
  import opened Prelude

  predicate IsDigit(c: char) {
    '0' <= c <= '9'
  }

  function Digit(d: nat): char
    requires d < 10
  {
    '0' + d as char
  }

  function PrintNat(n: nat): (s: string)
    ensures s != [] && forall c | c in s :: IsDigit(c)
  {
    if n < 10 then [Digit(n)] else PrintNat(n / 10) + [Digit(n % 10)]
  }

  function Print(n: int): string {
    if n < 0 then "-" + PrintNat(-n) else PrintNat(n)
  }

  /** The longest prefix of s made of digits. */
  function LeadingDigits(s: string): (p: string)
    ensures p <= s && forall c | c in p :: IsDigit(c)
  {
    if s == [] || !IsDigit(s[0]) then [] else [s[0]] + LeadingDigits(s[1..])
  }

  function DigitsValue(s: string): nat
    requires forall c | c in s :: IsDigit(c)
  {
    if s == [] then 0 else
      var last := s[|s| - 1];
      assert last in s && IsDigit(last);
      10 * DigitsValue(s[..|s| - 1]) + (last as int - '0' as int)
  }

  function SkipBlanks(s: string): string {
    if s != [] && s[0] in {' ', '\t'} then SkipBlanks(s[1..]) else s
  }

  /** Sscanf("%d") into an int64: blanks, an optional sign, at least one digit, a value that fits;
      whatever follows the digits is ignored. None is the error return. */
  function Scan(s: string): (scanned: Option<int>)
    ensures scanned.Some? ==> IsInt64(scanned.value)
  {
    ScanSigned(SkipBlanks(s))
  }

  function ScanSigned(t: string): Option<int> {
    var sign := if t != [] && t[0] in {'-', '+'} then [t[0]] else [];
    var digits := LeadingDigits(t[|sign|..]);
    var value := Signed(sign, DigitsValue(digits));
    if digits == [] || !IsInt64(value) then None else Some(value)
  }

  function Signed(sign: string, magnitude: int): int {
    if sign == "-" then -magnitude else magnitude
  }

  /** Reading back what was written gives the same number, for every int64. */
  lemma ScanPrint(n: int)
    requires IsInt64(n)
    ensures Scan(Print(n)) == Some(n)
  {
    var m, sign := if n < 0 then -n else n, if n < 0 then "-" else "";
    ValuePrintNat(m);
    SignScans(sign, PrintNat(m));
    assert n >= 0 ==> "" + PrintNat(m) == PrintNat(m);
  }

  lemma SignScans(sign: string, digits: string)
    requires digits != [] && (forall c | c in digits :: IsDigit(c)) && sign in {"", "-"}
    ensures
      var value := Signed(sign, DigitsValue(digits));
      Scan(sign + digits) == if IsInt64(value) then Some(value) else None
  {
    SignedReads(sign, digits, "");
    assert digits + "" == digits;
    StartsAtOnce(sign, digits);
  }

  lemma {:induction false} ValuePrintNat(n: nat)
    ensures DigitsValue(PrintNat(n)) == n
  {
    var s := PrintNat(n);
    if n < 10 {
      assert s[..|s| - 1] == [];
    } else {
      ValuePrintNat(n / 10);
      assert s[..|s| - 1] == PrintNat(n / 10);
    }
  }

  /** A nonempty string of digits without a leading zero, or a single zero. */
  predicate IsNumeral(s: string) {
    s != [] && (forall c | c in s :: IsDigit(c)) && (s[0] == '0' ==> s == "0")
  }

  predicate IsSignedNumeral(n: int, s: string) {
    if n < 0 then s != [] && s[0] == '-' && IsNumeral(s[1..]) else IsNumeral(s)
  }

  /** The printed form of an int64 is the only numeral, with a minus in front if it is negative, that scans to it. */
  lemma PrintIsCanonical(n: int, s: string)
    requires IsInt64(n)
    ensures s == Print(n) <==> Scan(s) == Some(n) && IsSignedNumeral(n, s)
  {
    if s == Print(n) {
      ScanPrint(n);
      NumeralPrintNat(if n < 0 then -n else n);
    } else if IsSignedNumeral(n, s) {
      var digits := if n < 0 then s[1..] else s;
      assert s == (if n < 0 then "-" else "") + digits;
      NumeralReads(n, if n < 0 then "-" else "", digits);
    }
  }

  lemma NumeralReads(n: int, sign: string, digits: string)
    requires IsNumeral(digits) && sign == if n < 0 then "-" else ""
    ensures Scan(sign + digits) == Some(n) ==> sign + digits == Print(n)
  {
    var value := DigitsValue(digits);
    SignScans(sign, digits);
    assert PrintNat(value) == digits by {
      PrintNatValue(digits);
    }
    if Signed(sign, value) == n {
      assert value == if n < 0 then -n else n;
      assert n >= 0 ==> "" + digits == digits;
    }
  }

  lemma {:induction false} NumeralPrintNat(n: nat)
    ensures IsNumeral(PrintNat(n)) && (PrintNat(n) == "0" <==> n == 0)
  {
    if n >= 10 {
      NumeralPrintNat(n / 10);
    }
  }

  lemma {:induction false} PrintNatValue(s: string)
    requires IsNumeral(s)
    ensures PrintNat(DigitsValue(s)) == s
  {
    var init, last := s[..|s| - 1], s[|s| - 1];
    assert last in s;
    if |s| > 1 {
      assert s[0] == init[0];
      PrintNatValue(init);
      NumeralPrintNat(DigitsValue(init));
      assert s == init + [last];
    } else {
      assert init == [];
    }
  }

  lemma StartsAtOnce(sign: string, s: string)
    requires sign in {"", "-", "+"} && s != [] && forall c | c in s :: IsDigit(c)
    ensures SkipBlanks(sign + s) == sign + s
  {
    assert s[0] in s;
    assert (sign + s)[0] == if sign == "" then s[0] else sign[0];
  }

  /** Blanks, then at most one sign, then digits are read as the number they denote if it fits, whatever follows. */
  lemma ScanReads(blanks: string, sign: string, digits: string, tail: string)
    requires (forall c | c in blanks :: c in {' ', '\t'}) && sign in {"", "-", "+"}
    requires digits != [] && (forall c | c in digits :: IsDigit(c)) && (tail != [] ==> !IsDigit(tail[0]))
    ensures
      var value := Signed(sign, DigitsValue(digits));
      Scan(blanks + (sign + (digits + tail))) == if IsInt64(value) then Some(value) else None
  {
    var t := sign + (digits + tail);
    assert digits[0] in digits;
    SignedReads(sign, digits, tail);
    assert t[0] !in {' ', '\t'} by {
      assert t[0] == if sign == "" then digits[0] else sign[0];
    }
    BlanksAreSkipped(blanks, t);
  }

  lemma SignedReads(sign: string, digits: string, tail: string)
    requires sign in {"", "-", "+"}
    requires digits != [] && (forall c | c in digits :: IsDigit(c)) && (tail != [] ==> !IsDigit(tail[0]))
    ensures
      var value := Signed(sign, DigitsValue(digits));
      ScanSigned(sign + (digits + tail)) == if IsInt64(value) then Some(value) else None
  {
    var t, rest := sign + (digits + tail), digits + tail;
    DigitsLead(digits, tail);
    assert t[|sign|..] == rest;
    assert digits[0] in digits;
    assert t[0] == if sign == "" then digits[0] else sign[0];
    assert sign != "" ==> [sign[0]] == sign;
  }

  lemma {:induction false} BlanksAreSkipped(blanks: string, t: string)
    requires (forall c | c in blanks :: c in {' ', '\t'}) && (t != [] ==> t[0] !in {' ', '\t'})
    ensures SkipBlanks(blanks + t) == t
  {
    if blanks == [] {
      assert blanks + t == t;
    } else {
      assert blanks[0] in blanks && (blanks + t)[1..] == blanks[1..] + t;
      assert forall c | c in blanks[1..] :: c in blanks;
      BlanksAreSkipped(blanks[1..], t);
    }
  }

  lemma {:induction false} DigitsLead(digits: string, tail: string)
    requires (forall c | c in digits :: IsDigit(c)) && (tail != [] ==> !IsDigit(tail[0]))
    ensures LeadingDigits(digits + tail) == digits
  {
    if digits == [] {
      assert digits + tail == tail;
    } else {
      assert digits[0] in digits && (digits + tail)[1..] == digits[1..] + tail;
      DigitsLead(digits[1..], tail);
    }
  }

  /** Nothing else is read. */
  lemma ScannedHasForm(s: string) returns (blanks: string, sign: string, digits: string, tail: string)
    requires Scan(s).Some?
    ensures s == blanks + (sign + (digits + tail))
    ensures (forall c | c in blanks :: c in {' ', '\t'}) && sign in {"", "-", "+"}
    ensures digits != [] && (forall c | c in digits :: IsDigit(c)) && (tail != [] ==> !IsDigit(tail[0]))
  {
    blanks := BlanksBefore(s);
    sign, digits, tail := SignedHasForm(SkipBlanks(s));
  }

  lemma SignedHasForm(t: string) returns (sign: string, digits: string, tail: string)
    requires ScanSigned(t).Some?
    ensures t == sign + (digits + tail) && sign in {"", "-", "+"}
    ensures digits != [] && (forall c | c in digits :: IsDigit(c)) && (tail != [] ==> !IsDigit(tail[0]))
  {
    sign := if t != [] && t[0] in {'-', '+'} then [t[0]] else [];
    var rest := t[|sign|..];
    digits := LeadingDigits(rest);
    tail := rest[|digits|..];
    NoDigitFollows(rest);
    assert rest[..|digits|] == digits;
    assert t[..|sign|] == sign;
  }

  lemma {:induction false} BlanksBefore(s: string) returns (blanks: string)
    ensures s == blanks + SkipBlanks(s) && forall c | c in blanks :: c in {' ', '\t'}
  {
    if s != [] && s[0] in {' ', '\t'} {
      blanks := BlanksBefore(s[1..]);
      blanks := [s[0]] + blanks;
    } else {
      blanks := [];
    }
  }

  lemma {:induction false} NoDigitFollows(s: string)
    ensures var n := |LeadingDigits(s)|; n < |s| ==> !IsDigit(s[n])
  {
    if s != [] && IsDigit(s[0]) {
      NoDigitFollows(s[1..]);
    }
  }
}
