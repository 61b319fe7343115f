/**
 Numbers as text: what DecLongToASCII and HexLongToASCII (lib32/debug.c) print, what simple_strtoul
 (lib32/strtol.c) reads, and the proof that reading undoes printing.
 */
module NumberSpec {
  import opened Arithmetic

  const ULONG_MAX := 0xFFFF_FFFF

  /** The digit a character stands for, or 36. */
  function DigitOf(c: char): (d: nat)
    ensures d <= 36
  {
    if '0' <= c <= '9' then c as int - '0' as int
    else if 'A' <= c <= 'Z' then c as int - 'A' as int + 10
    else if 'a' <= c <= 'z' then c as int - 'a' as int + 10
    else 36
  }

  /** Digits count on from '0', letters go on from 9 in either case, and nothing else is a digit. */
  lemma DigitsAre(c: char, d: char)
    ensures DigitOf('0') == 0 && DigitOf('A') == DigitOf('9') + 1 && DigitOf('Z') == 35
    ensures d as int == c as int + 1 && (('0' <= c && d <= '9') || ('A' <= c && d <= 'Z')) ==> DigitOf(d) == DigitOf(c) + 1
    ensures 'A' <= c <= 'Z' && d as int == c as int + 32 ==> DigitOf(d) == DigitOf(c)
    ensures DigitOf(c) == 36 <==> !('0' <= c <= '9' || 'A' <= c <= 'Z' || 'a' <= c <= 'z')
  {
  }

  function DigitChar(d: nat): (c: char)
    requires d < 16
    ensures DigitOf(c) == d && Plain(c)
  {
    ['0', '1', '2', '3', '4', '5', '6', '7', '8', '9', 'A', 'B', 'C', 'D', 'E', 'F'][d]
  }

  /** The number a string of digits stands for. */
  function Value(s: string, radix: nat): nat {
    if s == "" then 0 else Value(s[..|s| - 1], radix) * radix + DigitOf(s[|s| - 1])
  }

  predicate AllDigits(s: string, radix: nat) {
    forall i :: 0 <= i < |s| ==> DigitOf(s[i]) < radix
  }

  // ---------------------------------------------------------------- printing

  /**
   The digits of v printed from weight b^k down; leading zeroes are left out unless `lead` is set or a
   digit has been printed before.
   */
  function Digits(v: nat, b: nat, k: nat, started: bool, lead: bool): string
    requires 2 <= b <= 16 && v < Pow(b, k + 1)
    decreases k, v
  {
    DigitBound(v, b, k);
    var d, rest := Quot(v, Pow(b, k)), Rem(v, Pow(b, k));
    var head := if d != 0 || started || lead || k == 0 then [DigitChar(d)] else "";
    if k == 0 then head else head + Digits(rest, b, k - 1, started || d != 0, lead)
  }

  lemma DigitBound(v: nat, b: nat, k: nat)
    requires 2 <= b && v < Pow(b, k + 1)
    ensures Pow(b, k) > 0 && Quot(v, Pow(b, k)) < b
    ensures k > 0 ==> Rem(v, Pow(b, k)) < Pow(b, k)
  {
    PowPositive(b, k);
    QuotBelow(v, b, Pow(b, k));
  }

  /** What DecLongToASCII prints: top-bit values as negative numbers. */
  function Dec(v: nat, lead: bool): string
    requires v < WORD
  {
    TenDigits(v);
    TenDigits(WORD - v);
    if v >= 0x8000_0000 then "-" + Digits(WORD - v, 10, 9, false, lead) else Digits(v, 10, 9, false, lead)
  }

  /** Ten decimal digits, or eight hexadecimal ones, are enough for 32 bits. */
  lemma TenDigits(n: nat)
    requires n <= WORD
    ensures n < Pow(10, 9 + 1)
  {
    PowTen();
  }

  lemma EightDigits(n: nat)
    requires n < WORD
    ensures n < Pow(16, 7 + 1)
  {
    PowSixteen();
  }

  lemma PowTen()
    ensures Pow(10, 10) == 10000000000 && Pow(10, 9) == 1000000000 && Pow(10, 8) == 100000000 && Pow(10, 7) == 10000000
    ensures Pow(10, 6) == 1000000 && Pow(10, 5) == 100000 && Pow(10, 4) == 10000 && Pow(10, 3) == 1000
    ensures Pow(10, 2) == 100 && Pow(10, 1) == 10 && Pow(10, 0) == 1
  {
  }

  lemma PowSixteen()
    ensures Pow(16, 8) == WORD && Pow(16, 7) == 0x1000_0000 && Pow(16, 6) == 0x100_0000 && Pow(16, 5) == 0x10_0000
    ensures Pow(16, 4) == 0x1_0000 && Pow(16, 3) == 0x1000 && Pow(16, 2) == 0x100 && Pow(16, 1) == 0x10 && Pow(16, 0) == 1
  {
  }

  /** What HexLongToASCII prints. */
  function Hex(v: nat, lead: bool): string
    requires v < WORD
  {
    EightDigits(v);
    Digits(v, 16, 7, false, lead)
  }

  // ---------------------------------------------------------------- printed digits stand for the number

  lemma {:induction false} ValueConcat(s: string, t: string, radix: nat)
    ensures Value(s + t, radix) == Value(s, radix) * Pow(radix, |t|) + Value(t, radix)
    decreases |t|
  {
    if t == "" {
      assert s + t == s;
    } else {
      var u := t[..|t| - 1];
      assert (s + t)[..|s + t| - 1] == s + u;
      ValueConcat(s, u, radix);
      Horner(Value(s, radix), Pow(radix, |u|), Value(u, radix), radix, DigitOf(t[|t| - 1]));
    }
  }

  lemma Horner(a: int, p: int, x: int, r: int, d: int)
    ensures (a * p + x) * r + d == a * (r * p) + (x * r + d)
  {
  }

  /** A digit as the printers write it: letters are capitals. */
  predicate Plain(c: char) {
    '0' <= c <= '9' || 'A' <= c <= 'F'
  }

  /** The printed digits are digits, at most k + 1 of them, with leading zeroes only where they are wanted. */
  lemma {:induction false} DigitsShape(v: nat, b: nat, k: nat, started: bool, lead: bool)
    requires 2 <= b <= 16 && v < Pow(b, k + 1)
    ensures var s := Digits(v, b, k, started, lead);
            && AllDigits(s, b) && (forall i :: 0 <= i < |s| ==> Plain(s[i]))
            && 1 <= |s| <= k + 1 && (started || lead ==> |s| == k + 1)
            && (!started && !lead ==> DigitOf(s[0]) != 0 || s == "0")
    decreases k
  {
    DigitBound(v, b, k);
    if k > 0 {
      var d, rest := Quot(v, Pow(b, k)), Rem(v, Pow(b, k));
      DigitsShape(rest, b, k - 1, started || d != 0, lead);
    }
  }

  lemma OneDigit(d: nat, b: nat)
    requires d < 16
    ensures Value([DigitChar(d)], b) == d
  {
    assert [DigitChar(d)][..0] == "";
  }

  /** The printed digits stand for v. */
  lemma {:induction false} DigitsValue(v: nat, b: nat, k: nat, started: bool, lead: bool)
    requires 2 <= b <= 16 && v < Pow(b, k + 1)
    ensures Value(Digits(v, b, k, started, lead), b) == v
    decreases k
  {
    DigitBound(v, b, k);
    var d, rest := Quot(v, Pow(b, k)), Rem(v, Pow(b, k));
    var p := Pow(b, k);
    assert v == d * p + rest;
    if k == 0 {
      QuotUnique(v, 1, v, 0);
      OneDigit(v, b);
      assert Digits(v, b, k, started, lead) == [DigitChar(v)];
    } else {
      var t := Digits(rest, b, k - 1, started || d != 0, lead);
      DigitsValue(rest, b, k - 1, started || d != 0, lead);
      if d != 0 || started || lead {
        DigitsShape(rest, b, k - 1, started || d != 0, lead);
        ValueOfRest(d, rest, b, t);
        assert |t| == k && Digits(v, b, k, started, lead) == [DigitChar(d)] + t;
      } else {
        assert "" + t == t && rest == v && Digits(v, b, k, started, lead) == t;
      }
    }
  }

  lemma ValueOfRest(d: nat, rest: nat, b: nat, t: string)
    requires d < 16 && Value(t, b) == rest
    ensures Value([DigitChar(d)] + t, b) == d * Pow(b, |t|) + rest
  {
    OneDigit(d, b);
    ValueConcat([DigitChar(d)], t, b);
  }

  // ---------------------------------------------------------------- reading

  /** The character at i; strings end with a NUL. */
  function At(s: string, i: nat): char {
    if i < |s| then s[i] else '\0'
  }

  function SkipSpaces(s: string, i: nat): (j: nat)
    requires i <= |s|
    ensures i <= j <= |s| && At(s, j) != ' ' && forall k :: i <= k < j ==> s[k] == ' '
    decreases |s| - i
  {
    if At(s, i) == ' ' then SkipSpaces(s, i + 1) else i
  }

  /** End of the maximal run of digits from i on. */
  function RunEnd(s: string, i: nat, radix: nat): (j: nat)
    requires i <= |s| && radix <= 36
    ensures i <= j <= |s| && DigitOf(At(s, j)) >= radix && AllDigits(s[i..j], radix)
    decreases |s| - i
  {
    if DigitOf(At(s, i)) < radix then RunEnd(s, i + 1, radix) else i
  }

  /** Where the digits start: past spaces, a sign, and for radix 0 or 16 a prefix 0x. */
  function AfterSign(s: string): (i: nat)
    ensures i <= |s|
  {
    var i := SkipSpaces(s, 0);
    if At(s, i) == '-' || At(s, i) == '+' then i + 1 else i
  }

  predicate Negative(s: string) {
    At(s, SkipSpaces(s, 0)) == '-'
  }

  predicate HasPrefix(s: string, radix: int) {
    var i := AfterSign(s);
    (radix == 0 || radix == 16) && At(s, i) == '0' && (At(s, i + 1) == 'x' || At(s, i + 1) == 'X')
  }

  function DigitsStart(s: string, radix: int): (i: nat)
    ensures i <= |s|
  {
    if HasPrefix(s, radix) then AfterSign(s) + 2 else AfterSign(s)
  }

  function RealRadix(s: string, radix: int): int {
    if HasPrefix(s, radix) then 16
    else if radix != 0 then radix
    else if At(s, AfterSign(s)) == '0' then 8 else 10
  }

  /** n, or -n, as an unsigned 32-bit value. */
  function Signed(n: nat, neg: bool): nat
    requires n < WORD
  {
    if neg && n != 0 then WORD - n else n
  }

  /** What simple_strtoul returns and the position it leaves in end_ptr. */
  function Parse(s: string, radix: int): (nat, nat) {
    var i, r := DigitsStart(s, radix), RealRadix(s, radix);
    if !(2 <= r <= 36) then (0, i) else
    var e := RunEnd(s, i, r);
    if e == i then (0, 0) else
    var v := Value(s[i..e], r);
    (if v > ULONG_MAX then ULONG_MAX else Signed(v, Negative(s)), e)
  }

  // ---------------------------------------------------------------- reading undoes printing

  /** What follows the number does not continue it: no further digit, and no prefix 0x in radix 16. */
  predicate Stops(number: string, tail: string, radix: nat) {
    tail == "" || (DigitOf(tail[0]) >= radix && !(radix == 16 && number == "0" && (tail[0] == 'x' || tail[0] == 'X')))
  }

  lemma {:induction false} RunIs(s: string, i: nat, e: nat, radix: nat)
    requires i <= e <= |s| && radix <= 36 && DigitOf(At(s, e)) >= radix && AllDigits(s[i..e], radix)
    ensures RunEnd(s, i, radix) == e
    decreases e - i
  {
    if i < e {
      assert s[i..e][0] == s[i];
      assert s[i + 1..e] == s[i..e][1..];
      RunIs(s, i + 1, e, radix);
    }
  }

  /** A run of digits that goes on past e. */
  lemma {:induction false} RunBeyond(s: string, i: nat, e: nat, radix: nat)
    requires i <= e < |s| && radix <= 36 && DigitOf(s[e]) < radix && AllDigits(s[i..e], radix)
    ensures RunEnd(s, i, radix) > e
    decreases e - i
  {
    if i < e {
      assert s[i..e][0] == s[i];
      assert s[i + 1..e] == s[i..e][1..];
      RunBeyond(s, i + 1, e, radix);
    }
  }

  /** Where the reading of a sign and plain digits starts. */
  lemma StartsAt(neg: bool, digits: string, tail: string, radix: nat)
    requires radix == 10 || radix == 16
    requires digits != "" && forall i :: 0 <= i < |digits| ==> Plain(digits[i])
    ensures var s, i := (if neg then "-" else "") + digits + tail, if neg then 1 else 0;
            && AfterSign(s) == i && Negative(s) == neg && s[i..i + |digits|] == digits
            && At(s, i + |digits|) == (if tail == "" then '\0' else tail[0])
            && (HasPrefix(s, radix) <==> radix == 16 && digits == "0" && tail != "" && (tail[0] == 'x' || tail[0] == 'X'))
  {
    var s, i := (if neg then "-" else "") + digits + tail, if neg then 1 else 0;
    assert s[i] == digits[0] && Plain(digits[0]) && (|digits| > 1 ==> Plain(digits[1]));
    assert SkipSpaces(s, 0) == 0;
    assert At(s, i + 1) == if |digits| > 1 then digits[1] else if tail == "" then '\0' else tail[0];
    assert s[i..i + |digits|] == digits;
    assert |digits| == 1 && digits[0] == '0' <==> digits == "0";
  }

  /** Where the reading ends, and what it gives. */
  lemma ParseAt(s: string, radix: int)
    requires 2 <= RealRadix(s, radix) <= 36
    ensures var i, r := DigitsStart(s, radix), RealRadix(s, radix);
            var e := RunEnd(s, i, r);
            && Parse(s, radix).1 == (if e == i then 0 else e)
            && (e > i && Value(s[i..e], r) < WORD ==> Parse(s, radix).0 == Signed(Value(s[i..e], r), Negative(s)))
  {
  }

  lemma ParseAny(s: string, radix: int)
    requires 2 <= RealRadix(s, radix) <= 36
    ensures var i, r := DigitsStart(s, radix), RealRadix(s, radix);
            var e := RunEnd(s, i, r);
            var v := Value(s[i..e], r);
            Parse(s, radix) == if e == i then (0, 0) else (if v > ULONG_MAX then ULONG_MAX else Signed(v, Negative(s)), e)
  {
  }

  /** A sign and digits are read back exactly if what follows does not continue the number. */
  lemma ParseDigits(neg: bool, digits: string, tail: string, radix: nat)
    requires radix == 10 || radix == 16
    requires digits != "" && AllDigits(digits, radix) && Value(digits, radix) < WORD
    requires forall i :: 0 <= i < |digits| ==> Plain(digits[i])
    ensures var text := (if neg then "-" else "") + digits;
            Parse(text + tail, radix) == (Signed(Value(digits, radix), neg), |text|) <==> Stops(digits, tail, radix)
  {
    var text := (if neg then "-" else "") + digits;
    var s, i := text + tail, if neg then 1 else 0;
    StartsAt(neg, digits, tail, radix);
    ParseAt(s, radix);
    if Stops(digits, tail, radix) {
      RunIs(s, i, |text|, radix);
    } else if DigitOf(tail[0]) < radix {
      RunBeyond(s, i, |text|, radix);
    }
  }

  /**
   Main result: reading in radix 10 undoes DecLongToASCII on every 32-bit value, with or without leading
   zeroes, exactly if what follows is not a further digit.
   */
  lemma DecRoundTrip(v: nat, lead: bool, tail: string)
    requires v < WORD
    ensures Parse(Dec(v, lead) + tail, 10) == (v, |Dec(v, lead)|) <==> Stops(Dec(v, lead), tail, 10)
  {
    if v >= 0x8000_0000 {
      DecDigits(WORD - v, true, lead, tail);
    } else {
      DecDigits(v, false, lead, tail);
      assert "" + Dec(v, lead) == Dec(v, lead);
    }
  }

  lemma DecDigits(n: nat, neg: bool, lead: bool, tail: string)
    requires n < WORD
    ensures n < Pow(10, 9 + 1)
    ensures var text := (if neg then "-" else "") + Digits(n, 10, 9, false, lead);
            Parse(text + tail, 10) == (Signed(n, neg), |text|) <==> Stops(text, tail, 10)
  {
    TenDigits(n);
    DigitsValue(n, 10, 9, false, lead);
    DigitsShape(n, 10, 9, false, lead);
    ParseDigits(neg, Digits(n, 10, 9, false, lead), tail, 10);
  }

  /** Main result: reading in radix 16 undoes HexLongToASCII, exactly if what follows does not continue the number. */
  lemma HexRoundTrip(v: nat, lead: bool, tail: string)
    requires v < WORD
    ensures Parse(Hex(v, lead) + tail, 16) == (v, |Hex(v, lead)|) <==> Stops(Hex(v, lead), tail, 16)
  {
    EightDigits(v);
    DigitsValue(v, 16, 7, false, lead);
    DigitsShape(v, 16, 7, false, lead);
    var digits := Digits(v, 16, 7, false, lead);
    ParseDigits(false, digits, tail, 16);
    assert "" + digits == digits;
  }

  /** With LEADING_ZEROES the width is fixed; without it there is no superfluous zero. */
  lemma PrintedLength(v: nat, lead: bool)
    requires v < WORD
    ensures lead ==> |Hex(v, lead)| == 8 && |Dec(v, lead)| == if v >= 0x8000_0000 then 11 else 10
    ensures Hex(v, lead) != "" && Dec(v, lead) != "" && (v >= 0x8000_0000 <==> Dec(v, lead)[0] == '-')
    ensures forall i :: 0 <= i < |Hex(v, lead)| ==> Plain(Hex(v, lead)[i])
    ensures !lead ==> (Hex(v, lead)[0] != '0' || Hex(v, lead) == "0")
    ensures !lead && v < 0x8000_0000 ==> (Dec(v, lead)[0] != '0' || Dec(v, lead) == "0")
    ensures !lead && v >= 0x8000_0000 ==> |Dec(v, lead)| > 1 && Dec(v, lead)[1] != '0'
  {
    var n := if v >= 0x8000_0000 then WORD - v else v;
    TenDigits(n);
    EightDigits(v);
    DigitsShape(n, 10, 9, false, lead);
    DigitsShape(v, 16, 7, false, lead);
    DigitsValue(n, 10, 9, false, lead);
    OneDigit(0, 10);
  }

  // ---------------------------------------------------------------- everything that can be read

  function Blanks(n: nat): (s: string)
    ensures |s| == n && forall i :: 0 <= i < n ==> s[i] == ' '
  {
    seq(n, i => ' ')
  }

  lemma {:induction false} SkipsBlanks(s: string, i: nat, n: nat)
    requires i <= n <= |s| && At(s, n) != ' ' && forall k :: i <= k < n ==> s[k] == ' '
    ensures SkipSpaces(s, i) == n
    decreases n - i
  {
    if i < n {
      SkipsBlanks(s, i + 1, n);
    }
  }

  /** The radix that a numeral with this prefix and these digits is read in. */
  function RadixOf(prefix: string, digits: string, radix: int): int {
    if prefix != "" then 16
    else if radix != 0 then radix
    else if digits != "" && digits[0] == '0' then 8 else 10
  }

  predicate IsX(s: string) {
    s != "" && (s[0] == 'x' || s[0] == 'X')
  }

  /** A text made of blanks, a sign, a prefix, digits and a tail that does not continue it. */
  ghost predicate Numeral(sign: string, prefix: string, digits: string, tail: string, radix: int) {
    var r := RadixOf(prefix, digits, radix);
    && sign in {"", "-", "+"} && prefix in {"", "0x", "0X"} && (prefix != "" ==> radix == 0 || radix == 16)
    && 2 <= r <= 36 && AllDigits(digits, r) && (tail != "" ==> DigitOf(tail[0]) >= r)
    && !(prefix == "" && (radix == 0 || radix == 16) && digits == "0" && IsX(tail))
    && (sign + prefix + digits == "" && tail != "" ==> tail[0] != ' ' && tail[0] != '-' && tail[0] != '+')
  }

  lemma AtConcat(x: string, y: string, k: nat)
    ensures At(x + y, |x| + k) == At(y, k)
  {
  }

  lemma AfterBlanksAndSign(blanks: nat, sign: string, rest: string)
    requires sign in {"", "-", "+"} && (sign == "" ==> At(rest, 0) != ' ' && At(rest, 0) != '-' && At(rest, 0) != '+')
    ensures var s := Blanks(blanks) + sign + rest; AfterSign(s) == blanks + |sign| && Negative(s) == (sign == "-")
  {
    var s, b := Blanks(blanks) + sign + rest, Blanks(blanks);
    assert s == b + (sign + rest);
    AtConcat(b, sign + rest, 0);
    AtConcat(sign, rest, 0);
    SkipsBlanks(s, 0, blanks);
  }

  lemma AfterPrefix(front: string, prefix: string, digits: string, tail: string, radix: int)
    requires Numeral("", prefix, digits, tail, radix) || (prefix == digits == "" && Numeral("+", prefix, digits, tail, radix))
    requires AfterSign(front + prefix + digits + tail) == |front|
    ensures var s := front + prefix + digits + tail;
            DigitsStart(s, radix) == |front| + |prefix| && RealRadix(s, radix) == RadixOf(prefix, digits, radix)
  {
    var s, rest := front + prefix + digits + tail, prefix + digits + tail;
    assert s == front + rest;
    AtConcat(front, rest, 0);
    AtConcat(front, rest, 1);
    if prefix == "" {
      assert rest == digits + tail;
      if digits == "" {
        assert rest == tail;
      } else {
        assert At(rest, 0) == digits[0];
        AtConcat(digits, tail, 0);
        assert At(rest, 1) == if |digits| > 1 then digits[1] else At(tail, 0);
        assert digits == "0" <==> |digits| == 1 && digits[0] == '0';
      }
    } else {
      assert At(rest, 0) == prefix[0] && At(rest, 1) == prefix[1];
    }
  }

  /** Where the digits of such a text are found. */
  lemma NumeralParts(blanks: nat, sign: string, prefix: string, digits: string, tail: string, radix: int)
    requires Numeral(sign, prefix, digits, tail, radix)
    ensures var s, i := Blanks(blanks) + sign + prefix + digits + tail, blanks + |sign| + |prefix|;
            && DigitsStart(s, radix) == i && RealRadix(s, radix) == RadixOf(prefix, digits, radix)
            && Negative(s) == (sign == "-") && RunEnd(s, i, RadixOf(prefix, digits, radix)) == i + |digits| && s[i..i + |digits|] == digits
  {
    var front := Blanks(blanks) + sign;
    FoundSign(blanks, sign, prefix, digits, tail, radix);
    AfterPrefix(front, prefix, digits, tail, radix);
    DigitsAt(front + prefix, digits, tail, RadixOf(prefix, digits, radix));
    assert |front + prefix| == blanks + |sign| + |prefix|;
  }

  lemma FoundSign(blanks: nat, sign: string, prefix: string, digits: string, tail: string, radix: int)
    requires Numeral(sign, prefix, digits, tail, radix)
    ensures var s := Blanks(blanks) + sign + prefix + digits + tail; AfterSign(s) == blanks + |sign| && Negative(s) == (sign == "-")
  {
    var front, rest := Blanks(blanks) + sign, prefix + digits + tail;
    assert At(rest, 0) == if prefix != "" then prefix[0] else if digits != "" then digits[0] else At(tail, 0);
    assert front + prefix + digits + tail == front + rest;
    AfterBlanksAndSign(blanks, sign, rest);
  }

  lemma DigitsAt(front: string, digits: string, tail: string, r: nat)
    requires 2 <= r <= 36 && AllDigits(digits, r) && (tail != "" ==> DigitOf(tail[0]) >= r)
    ensures var s, i := front + digits + tail, |front|; RunEnd(s, i, r) == i + |digits| && s[i..i + |digits|] == digits
  {
    var s, i := front + digits + tail, |front|;
    AtConcat(front + digits, tail, 0);
    assert s[i..i + |digits|] == digits;
    RunIs(s, i, i + |digits|, r);
  }

  /**
   Main result on reading: any blanks, any sign, a prefix 0x if the radix is 0 or 16, and any number of
   digits of the radix, which for radix 0 is 16 behind the prefix, 8 if the digits begin with 0 and 10
   otherwise, are read to their end; the value is saturated, or negated modulo 2^32 behind a minus.
   Without digits the result is 0 and nothing is taken as read.
   */
  lemma ReadsNumeral(blanks: nat, sign: string, prefix: string, digits: string, tail: string, radix: int)
    requires Numeral(sign, prefix, digits, tail, radix)
    ensures var text := Blanks(blanks) + sign + prefix + digits;
            var v := Value(digits, RadixOf(prefix, digits, radix));
            Parse(text + tail, radix) ==
              if digits == "" then (0, 0)
              else (if v > ULONG_MAX then ULONG_MAX else if sign == "-" && v != 0 then WORD - v else v, |text|)
  {
    var s := Blanks(blanks) + sign + prefix + digits + tail;
    NumeralParts(blanks, sign, prefix, digits, tail, radix);
    ParseAny(s, radix);
  }

  /** A radix outside 2..36 gives 0, with the end behind blanks and sign. */
  lemma BadRadix(blanks: nat, sign: string, tail: string, radix: int)
    requires sign in {"", "-", "+"} && (radix < 0 || radix == 1 || radix > 36)
    requires sign == "" && tail != "" ==> tail[0] != ' ' && tail[0] != '-' && tail[0] != '+'
    ensures Parse(Blanks(blanks) + sign + tail, radix) == (0, blanks + |sign|)
  {
    AfterBlanksAndSign(blanks, sign, tail);
  }

  // ---------------------------------------------------------------- the saturation test

  /** The test with max1 and max2 says exactly whether one more digit overflows 32 bits. */
  lemma OverflowTest(n: nat, radix: nat, c: nat)
    requires 2 <= radix <= 36 && c < radix
    ensures var max1 := ULONG_MAX / radix;
            var max2 := ULONG_MAX - max1 * radix;
            n >= max1 && (n > max1 || c > max2) <==> n * radix + c > ULONG_MAX
  {
    var max1 := ULONG_MAX / radix;
    assert max1 * radix <= ULONG_MAX < max1 * radix + radix;
    if n > max1 {
      assert n * radix >= (max1 + 1) * radix;
    } else if n < max1 {
      assert (n + 1) * radix <= max1 * radix;
    }
  }
}
