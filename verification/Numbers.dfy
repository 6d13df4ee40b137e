/** Bytes, and decimal numbers as Python prints and reads them. */
module Numbers {
  import opened Ordering

  type Byte = b: nat | b < 256
  type Bytes = seq<Byte>

  const CR: Byte := 13
  const LF: Byte := 10
  const PLUS: Byte := 43
  const MINUS: Byte := 45
  const UNDERSCORE: Byte := 95

  predicate IsDigit(b: Byte) {
    48 <= b <= 57
  }

  predicate IsSpace(b: Byte) {
    b == 32 || 9 <= b <= 13
  }

  function DigitByte(d: nat): Byte
    requires d < 10
  {
    48 + d
  }

  /** `str(n)` for a natural number. */
  function PrintNat(n: nat): (s: Bytes)
    ensures |s| > 0 && forall i :: 0 <= i < |s| ==> IsDigit(s[i])
  {
    if n < 10 then [DigitByte(n)] else PrintNat(n / 10) + [DigitByte(n % 10)]
  }

  /** `str(n)`. */
  function PrintInt(n: int): Bytes {
    if n < 0 then [MINUS] + PrintNat(-n) else PrintNat(n)
  }

  function StripLeft(s: Bytes): Bytes {
    if s != [] && IsSpace(s[0]) then StripLeft(s[1..]) else s
  }

  function StripRight(s: Bytes): Bytes {
    if s != [] && IsSpace(s[|s| - 1]) then StripRight(s[..|s| - 1]) else s
  }

  /** `bytes.strip()`. */
  function Strip(s: Bytes): Bytes {
    StripRight(StripLeft(s))
  }

  /** Digits, with single underscores allowed between them. */
  function ReadDigits(s: Bytes): Option<nat> {
    if s == [] || !IsDigit(s[|s| - 1]) then None
    else
      var last, init := s[|s| - 1] - 48, s[..|s| - 1];
      if init == [] then Some(last)
      else
        var before := ReadDigits(if init[|init| - 1] == UNDERSCORE then init[..|init| - 1] else init);
        if before.None? then None else Some(10 * before.value + last)
  }

  /** `int(s)`, with None for the ValueError: surrounding whitespace and a sign are allowed. */
  function ReadInt(s: Bytes): Option<int> {
    var t := Strip(s);
    if t == [] then None
    else
      var digits := ReadDigits(if t[0] == PLUS || t[0] == MINUS then t[1..] else t);
      if digits.None? then None
      else
        var n: int := digits.value;
        Some(if t[0] == MINUS then -n else n)
  }

  lemma {:induction false} ReadPrintedDigits(n: nat)
    ensures ReadDigits(PrintNat(n)) == Some(n)
  {
    if n >= 10 {
      ReadPrintedDigits(n / 10);
      assert PrintNat(n)[..|PrintNat(n)| - 1] == PrintNat(n / 10);
    }
  }

  /** Printing and reading back is the identity on all integers. */
  lemma ReadPrintedInt(n: int)
    ensures ReadInt(PrintInt(n)) == Some(n)
  {
    var s := PrintInt(n);
    ReadPrintedDigits(if n < 0 then -n else n);
    assert !IsSpace(s[0]) && !IsSpace(s[|s| - 1]);
    assert Strip(s) == s;
    if n < 0 {
      assert s[1..] == PrintNat(-n);
    }
  }

  // ----- decimal notation, said of digits and powers of ten -----

  function TenTo(k: nat): nat {
    if k == 0 then 1 else 10 * TenTo(k - 1)
  }

  /** Every byte is worth its distance from '0', times ten for every byte after it. */
  function Worth(s: Bytes): int {
    if s == [] then 0 else (s[0] - '0' as int) * TenTo(|s| - 1) + Worth(s[1..])
  }

  /** A byte string of ASCII digits that is worth `n`. */
  predicate Numeral(s: Bytes, n: int) {
    s != [] && (forall i :: 0 <= i < |s| ==> '0' as int <= s[i] <= '9' as int) && Worth(s) == n
  }

  /** The usual way to write an integer: a minus sign if it is negative, no needless zero. */
  predicate Decimal(s: Bytes, n: int) {
    if n < 0 then s != [] && s[0] == '-' as int && Numeral(s[1..], -n) && s[1] != '0' as int
    else Numeral(s, n) && (s[0] == '0' as int ==> |s| == 1)
  }

  lemma {:induction false} WorthSnoc(s: Bytes, b: Byte)
    ensures Worth(s + [b]) == 10 * Worth(s) + (b - '0' as int)
    decreases |s|
  {
    if s == [] {
      assert [b][1..] == [] && TenTo(0) == 1;
    } else {
      var t := s + [b];
      assert t[1..] == s[1..] + [b];
      WorthSnoc(s[1..], b);
      assert TenTo(|t| - 1) == 10 * TenTo(|s| - 1);
      TenTimes(s[0] - '0' as int, TenTo(|s| - 1));
    }
  }

  lemma TenTimes(x: int, y: int)
    ensures x * (10 * y) == 10 * (x * y)
  {
  }

  lemma {:induction false} PrintNatNumeral(n: nat)
    ensures Numeral(PrintNat(n), n) && (n > 0 ==> PrintNat(n)[0] != '0' as int) && (n < 10 ==> |PrintNat(n)| == 1)
  {
    if n < 10 {
      WorthSnoc([], DigitByte(n));
      assert [] + [DigitByte(n)] == [DigitByte(n)];
    } else {
      PrintNatNumeral(n / 10);
      WorthSnoc(PrintNat(n / 10), DigitByte(n % 10));
    }
  }

  lemma PrintIntDecimal(n: int)
    ensures Decimal(PrintInt(n), n)
  {
    hide PrintNat, Numeral;
    PrintNatNumeral(if n < 0 then -n else n);
    if n < 0 {
      assert PrintInt(n)[1..] == PrintNat(-n);
    }
  }

  lemma {:induction false} ReadDigitsWorth(s: Bytes, n: int)
    requires Numeral(s, n)
    ensures n >= 0 && ReadDigits(s) == Some(n)
    decreases |s|
  {
    var init, last := s[..|s| - 1], s[|s| - 1];
    assert s == init + [last];
    WorthSnoc(init, last);
    if init != [] {
      ReadDigitsWorth(init, Worth(init));
    }
  }

  /** Any digits are read as what they are worth, with or without a sign. */
  lemma ReadNumeral(s: Bytes, n: int)
    requires Numeral(s, n)
    ensures ReadInt(s) == Some(n) && ReadInt(['+' as int] + s) == Some(n) && ReadInt(['-' as int] + s) == Some(-n)
  {
    hide ReadDigits, Worth;
    ReadDigitsWorth(s, n);
    NothingToStrip(s);
    NothingToStrip(['+' as int] + s);
    NothingToStrip(['-' as int] + s);
    assert (['+' as int] + s)[1..] == s && (['-' as int] + s)[1..] == s;
  }

  lemma NothingToStrip(s: Bytes)
    requires s != [] && !IsSpace(s[0]) && !IsSpace(s[|s| - 1])
    ensures Strip(s) == s
  {
  }

  // ----- all that is read as an integer -----

  predicate Blank(s: Bytes) {
    forall i :: 0 <= i < |s| ==> s[i] in {9, 10, 11, 12, 13, ' ' as int}
  }

  predicate DigitAt(s: Bytes, i: int) {
    0 <= i < |s| && '0' as int <= s[i] <= '9' as int
  }

  predicate GroupedAt(s: Bytes, i: nat) {
    DigitAt(s, i) || (i < |s| && s[i] == '_' as int && DigitAt(s, i - 1) && DigitAt(s, i + 1))
  }

  /** Digits, with single underscores between some of them. */
  predicate Grouped(s: Bytes) {
    s != [] && forall i :: 0 <= i < |s| ==> GroupedAt(s, i)
  }

  function Ungrouped(s: Bytes): Bytes {
    if s == [] then []
    else
      var init := Ungrouped(s[..|s| - 1]);
      if s[|s| - 1] == '_' as int then init else init + [s[|s| - 1]]
  }

  predicate IsSign(s: Bytes) {
    s == [] || s == ['+' as int] || s == ['-' as int]
  }

  /** An integer between blanks, with or without a sign. */
  ghost predicate ReadsAs(s: Bytes, n: int) {
    exists a, sign, digits, b ::
      && s == a + (sign + digits) + b && Blank(a) && Blank(b) && Grouped(digits)
      && IsSign(sign)
      && n == if sign == ['-' as int] then -Worth(Ungrouped(digits)) else Worth(Ungrouped(digits))
  }

  lemma GroupedSnoc(s: Bytes)
    requires |s| > 1
    ensures var init := s[..|s| - 1];
      var before := if init[|init| - 1] == '_' as int then init[..|init| - 1] else init;
      && (Grouped(s) <==> DigitAt(s, |s| - 1) && Grouped(before))
      && (Grouped(s) ==> Ungrouped(s) == Ungrouped(before) + [s[|s| - 1]])
  {
    var init := s[..|s| - 1];
    var before := if init[|init| - 1] == '_' as int then init[..|init| - 1] else init;
    var n, k := |s| - 1, |before|;
    assert forall i :: i < k ==> DigitAt(before, i) == DigitAt(s, i);
    if Grouped(s) {
      assert GroupedAt(s, n) && GroupedAt(s, n - 1) && DigitAt(s, k - 1);
      forall i | 0 <= i < k ensures GroupedAt(before, i) {
        assert GroupedAt(s, i);
      }
      assert init != before ==> init[..n - 1] == before;
    } else if DigitAt(s, n) && Grouped(before) {
      assert GroupedAt(before, k - 1);
      forall i | 0 <= i < |s| ensures GroupedAt(s, i) {
        if i < k {
          assert GroupedAt(before, i);
        }
      }
    }
  }

  lemma {:induction false} ReadDigitsIff(s: Bytes)
    ensures ReadDigits(s).Some? <==> Grouped(s)
    ensures Grouped(s) ==> Worth(Ungrouped(s)) == ReadDigits(s).value
    decreases |s|
  {
    if s == [] {
    } else if |s| == 1 {
      assert GroupedAt(s, 0) <==> DigitAt(s, 0);
      if Grouped(s) {
        assert Ungrouped(s) == [] + [s[0]];
        WorthSnoc([], s[0]);
      }
    } else {
      var init := s[..|s| - 1];
      var before := if init[|init| - 1] == '_' as int then init[..|init| - 1] else init;
      GroupedSnoc(s);
      ReadDigitsIff(before);
      if Grouped(s) {
        WorthSnoc(Ungrouped(before), s[|s| - 1]);
      }
    }
  }

  lemma {:induction false} StripLeftOf(a: Bytes, m: Bytes)
    requires Blank(a) && m != [] && !IsSpace(m[0])
    ensures StripLeft(a + m) == m
    decreases |a|
  {
    if a == [] {
      assert a + m == m;
    } else {
      assert (a + m)[1..] == a[1..] + m;
      StripLeftOf(a[1..], m);
    }
  }

  lemma {:induction false} StripRightOf(m: Bytes, b: Bytes)
    requires Blank(b) && m != [] && !IsSpace(m[|m| - 1])
    ensures StripRight(m + b) == m
    decreases |b|
  {
    if b == [] {
      assert m + b == m;
    } else {
      var init := b[..|b| - 1];
      assert (m + b)[..|m + b| - 1] == m + init;
      StripRightOf(m, init);
    }
  }

  lemma StripOf(a: Bytes, m: Bytes, b: Bytes)
    requires Blank(a) && Blank(b) && m != [] && !IsSpace(m[0]) && !IsSpace(m[|m| - 1])
    ensures Strip(a + m + b) == m
  {
    hide IsSpace;
    assert a + m + b == a + (m + b);
    StripLeftOf(a, m + b);
    StripRightOf(m, b);
  }

  lemma {:induction false} StripLeftParts(s: Bytes) returns (a: Bytes)
    ensures Blank(a) && s == a + StripLeft(s)
    decreases |s|
  {
    a := [];
    if s != [] && IsSpace(s[0]) {
      var rest := StripLeftParts(s[1..]);
      a := [s[0]] + rest;
    }
  }

  lemma {:induction false} StripRightParts(s: Bytes) returns (b: Bytes)
    ensures Blank(b) && s == StripRight(s) + b
    decreases |s|
  {
    b := [];
    if s != [] && IsSpace(s[|s| - 1]) {
      var rest := StripRightParts(s[..|s| - 1]);
      b := rest + [s[|s| - 1]];
    }
  }

  lemma SignedEnds(sign: Bytes, digits: Bytes)
    requires Grouped(digits) && IsSign(sign)
    ensures var m := sign + digits;
      && m != [] && !IsSpace(m[0]) && !IsSpace(m[|m| - 1])
      && (m[0] == PLUS || m[0] == MINUS <==> sign != []) && (m[0] == MINUS <==> sign == ['-' as int])
      && digits == (if m[0] == PLUS || m[0] == MINUS then m[1..] else m)
  {
    var m := sign + digits;
    assert GroupedAt(digits, 0) && GroupedAt(digits, |digits| - 1);
    assert DigitAt(digits, 0) && DigitAt(digits, |digits| - 1);
    assert m[|sign|..] == digits && m[|m| - 1] == digits[|digits| - 1];
    assert m[0] == if sign == [] then digits[0] else sign[0];
  }

  lemma ReadIsSpelled(s: Bytes, n: int)
    requires ReadInt(s) == Some(n)
    ensures ReadsAs(s, n)
  {
    hide IsSpace, ReadDigits, Worth, Grouped, Ungrouped, Blank, StripLeft, StripRight;
    var a := StripLeftParts(s);
    var b := StripRightParts(StripLeft(s));
    var m := Strip(s);
    var sign: Bytes := if m[0] == PLUS || m[0] == MINUS then [m[0]] else [];
    var digits := m[|sign|..];
    ReadDigitsIff(digits);
    assert m == sign + digits;
    assert s == a + (sign + digits) + b;
  }

  lemma SpelledIsRead(a: Bytes, sign: Bytes, digits: Bytes, b: Bytes)
    requires Blank(a) && Blank(b) && Grouped(digits) && IsSign(sign)
    ensures ReadInt(a + (sign + digits) + b) ==
      Some(if sign == ['-' as int] then -Worth(Ungrouped(digits)) else Worth(Ungrouped(digits)))
  {
    hide IsSpace, ReadDigits, Worth, Grouped, Ungrouped, Blank, Strip, IsSign;
    SignedEnds(sign, digits);
    StripOf(a, sign + digits, b);
    ReadDigitsIff(digits);
  }

  lemma ReadsAsIsRead(s: Bytes, n: int)
    requires ReadsAs(s, n)
    ensures ReadInt(s) == Some(n)
  {
    hide ReadInt, Worth, Grouped, Ungrouped, Blank, IsSign;
    var a, sign, digits, b :|
      && s == a + (sign + digits) + b && Blank(a) && Blank(b) && Grouped(digits)
      && IsSign(sign)
      && n == if sign == ['-' as int] then -Worth(Ungrouped(digits)) else Worth(Ungrouped(digits));
    SpelledIsRead(a, sign, digits, b);
  }

  /** Just this is read as an integer. */
  lemma ReadIntIff(s: Bytes, n: int)
    ensures ReadInt(s) == Some(n) <==> ReadsAs(s, n)
  {
    hide ReadInt, ReadsAs;
    if ReadInt(s) == Some(n) {
      ReadIsSpelled(s, n);
    }
    if ReadsAs(s, n) {
      ReadsAsIsRead(s, n);
    }
  }

  // ----- sequences -----

  lemma Halves<T>(s: seq<T>, k: nat)
    requires k <= |s|
    ensures s[..k] + s[k..] == s
  {
  }

  lemma AppendTwice<T>(a: seq<T>, b: seq<T>, c: seq<T>)
    ensures (a + b) + c == a + (b + c)
  {
  }

  lemma HeadTail<T>(s: seq<T>)
    requires s != []
    ensures [s[0]] + s[1..] == s
  {
  }
}
