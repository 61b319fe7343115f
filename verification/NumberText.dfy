/**
 DecLongToASCII and HexLongToASCII (lib32/debug.c) and simple_strtoul (lib32/strtol.c) as they run:
 loops over a buffer and over a string. Each is proved to print or read what NumberSpec says.
 */
module NumberText {
  import opened Arithmetic
  import opened NumberSpec

  /** The buffer with `text` written at pos. */
  function Written(buf: seq<char>, pos: nat, text: string): seq<char>
    requires pos + |text| <= |buf|
  {
    buf[..pos] + text + buf[pos + |text|..]
  }

  lemma WrittenOneMore(buf: seq<char>, pos: nat, text: string, c: char)
    requires pos + |text| < |buf|
    ensures Written(buf, pos, text)[pos + |text| := c] == Written(buf, pos, text + [c])
  {
  }

  /** *StrPtr = c; StrPtr++; after `done` has been written from pos on. */
  method Put(buf: array<char>, ghost was: seq<char>, ghost pos: nat, ghost done: string, at: nat, c: char) returns (next: nat)
    requires at == pos + |done| < buf.Length == |was| && buf[..] == Written(was, pos, done)
    modifies buf
    ensures next == at + 1 && buf[..] == Written(was, pos, done + [c])
  {
    WrittenOneMore(was, pos, done, c);
    buf[at] := c;
    assert buf[..] == Written(was, pos, done)[at := c];
    next := at + 1;
  }

  /** *StrPtr++ = c, if the digit is to be shown. */
  method PutIf(shown: bool, buf: array<char>, ghost was: seq<char>, ghost pos: nat, ghost done: string, at: nat, c: char) returns (next: nat)
    requires at == pos + |done| <= buf.Length == |was| && buf[..] == Written(was, pos, done) && (shown ==> at < buf.Length)
    modifies buf
    ensures var s := done + (if shown then [c] else ""); next == pos + |s| <= buf.Length && buf[..] == Written(was, pos, s)
  {
    next := at;
    assert done + "" == done;
    if shown {
      next := Put(buf, was, pos, done, at, c);
    }
  }

  /** The inner loop of DecLongToASCII: division by repeated subtraction. */
  method Subtract(v: nat, power: nat) returns (digit: nat, rest: nat)
    requires 0 < power
    ensures digit == Quot(v, power) && rest == Rem(v, power)
  {
    digit, rest := 0, v;
    while rest >= power
      invariant v == digit * power + rest
      decreases rest
    {
      assert (digit + 1) * power == digit * power + power;
      digit, rest := digit + 1, rest - power;
    }
    QuotUnique(v, power, digit, rest);
  }

  /** The chain of tests that steps Power down. */
  function NextPower(p: nat): nat {
    if p == 1000000000 then 100000000
    else if p == 100000000 then 10000000
    else if p == 10000000 then 1000000
    else if p == 1000000 then 100000
    else if p == 100000 then 10000
    else if p == 10000 then 1000
    else if p == 1000 then 100
    else if p == 100 then 10
    else if p == 10 then 1
    else 0
  }

  function PowerAt(k: int): nat {
    if k < 0 then 0 else Pow(10, k)
  }

  lemma NextPowerIs(k: nat)
    requires k <= 9
    ensures NextPower(Pow(10, k)) == PowerAt(k - 1) && Pow(10, k) > 0 && (Pow(10, k) == 1 <==> k == 0)
  {
    PowTen();
    assert k == 0 || k == 1 || k == 2 || k == 3 || k == 4 || k == 5 || k == 6 || k == 7 || k == 8 || k == 9;
  }

  /** What is still to be printed when the digit of weight b^k comes next. */
  ghost function ToGo(v: nat, b: nat, k: int, started: bool, lead: bool): string
    requires 2 <= b <= 16 && (k >= 0 ==> v < Pow(b, k + 1))
  {
    if k < 0 then "" else Digits(v, b, k, started, lead)
  }

  method DecLongToASCII(buf: array<char>, pos: nat, lDecVal: nat, lead: bool) returns (end: nat)
    requires lDecVal < WORD && pos + |Dec(lDecVal, lead)| <= buf.Length
    modifies buf
    ensures end == pos + |Dec(lDecVal, lead)| && buf[..] == Written(old(buf[..]), pos, Dec(lDecVal, lead))
  {
    ghost var was, sign := buf[..], "";
    var at, val := pos, lDecVal;
    assert buf[..] == Written(was, pos, "");
    TenDigits(lDecVal);
    TenDigits(WORD - lDecVal);
    if lDecVal >= 0x8000_0000 {
      at := Put(buf, was, pos, "", at, '-');
      val := WORD - lDecVal;
      sign := "-";
      assert "" + ['-'] == sign;
    }
    assert Dec(lDecVal, lead) == sign + Digits(val, 10, 9, false, lead);
    end := DecDigitLoop(buf, pos, at, val, lead, was, sign);
  }

  method DecDigitLoop(buf: array<char>, ghost pos: nat, start: nat, value: nat, lead: bool, ghost was: seq<char>, ghost sign: string)
    returns (at: nat)
    requires value < Pow(10, 9 + 1) && start == pos + |sign| && start + |Digits(value, 10, 9, false, lead)| <= buf.Length == |was|
    requires buf[..] == Written(was, pos, sign)
    modifies buf
    ensures var text := sign + Digits(value, 10, 9, false, lead);
            at == pos + |text| && buf[..] == Written(was, pos, text)
  {
    at := start;
    var val: nat, fNonZero, power := value, false, 1000000000;
    ghost var k, done, all := 9, sign, sign + Digits(value, 10, 9, false, lead);
    Pow10At9();
    while power != 0
      invariant -1 <= k <= 9 && power == PowerAt(k) && (k >= 0 ==> val < Pow(10, k + 1))
      invariant done + ToGo(val, 10, k, fNonZero, lead) == all
      invariant at == pos + |done| && pos + |all| <= buf.Length == |was| && buf[..] == Written(was, pos, done)
      decreases k
    {
      assert k >= 0;
      NextPowerIs(k);
      NextDigit(val, 10, k, fNonZero, lead, done, all);
      var digit, rest := Subtract(val, power);
      if digit != 0 {
        fNonZero := true;
      }
      var shown := digit != 0 || fNonZero || lead || (power == 1 && !fNonZero);
      DecChar(digit);
      at := PutIf(shown, buf, was, pos, done, at, ('0' as int + digit) as char);
      done := done + if shown then [DigitChar(digit)] else "";
      val, power, k := rest, NextPower(power), k - 1;
    }
  }

  lemma DecChar(d: nat)
    requires d < 10
    ensures ('0' as int + d) as char == DigitChar(d)
  {
  }

  lemma Regrouped(done: string, c: string, next: string)
    ensures done + (c + next) == (done + c) + next
  {
  }

  lemma Pow10At9()
    ensures Pow(10, 9) == 1000000000
  {
    PowTen();
  }

  lemma DigitsUnfold(v: nat, b: nat, k: nat, started: bool, lead: bool)
    requires 2 <= b <= 16 && v < Pow(b, k + 1)
    ensures 0 < Pow(b, k) && Quot(v, Pow(b, k)) < b && (k > 0 ==> Rem(v, Pow(b, k)) < Pow(b, k - 1 + 1))
    ensures var d, rest := Quot(v, Pow(b, k)), Rem(v, Pow(b, k));
            Digits(v, b, k, started, lead)
              == (if d != 0 || started || lead || k == 0 then [DigitChar(d)] else "") + ToGo(rest, b, k - 1, started || d != 0, lead)
  {
    DigitBound(v, b, k);
  }

  /** The digit of weight b^k is printed, or left out, and the rest is still to be printed. */
  lemma NextDigit(v: nat, b: nat, k: nat, started: bool, lead: bool, done: string, all: string)
    requires 2 <= b <= 16 && v < Pow(b, k + 1) && done + ToGo(v, b, k, started, lead) == all
    ensures 0 < Pow(b, k) && Quot(v, Pow(b, k)) < b && (k > 0 ==> Rem(v, Pow(b, k)) < Pow(b, k - 1 + 1))
    ensures var d, rest := Quot(v, Pow(b, k)), Rem(v, Pow(b, k));
            var c := if d != 0 || started || lead || k == 0 then [DigitChar(d)] else "";
            (done + c) + ToGo(rest, b, k - 1, started || d != 0, lead) == all && |done + c| <= |all|
  {
    DigitsUnfold(v, b, k, started, lead);
    var d, rest := Quot(v, Pow(b, k)), Rem(v, Pow(b, k));
    var c := if d != 0 || started || lead || k == 0 then [DigitChar(d)] else "";
    Regrouped(done, c, ToGo(rest, b, k - 1, started || d != 0, lead));
  }

  // ---------------------------------------------------------------- hexadecimal

  /** The chain of tests that steps the mask down. */
  function NextMask(p: nat): nat {
    if p == 0xF0000000 then 0xF000000
    else if p == 0xF000000 then 0xF00000
    else if p == 0xF00000 then 0xF0000
    else if p == 0xF0000 then 0xF000
    else if p == 0xF000 then 0xF00
    else if p == 0xF00 then 0xF0
    else if p == 0xF0 then 0xF
    else 0
  }

  function MaskAt(k: int): nat {
    if k < 0 then 0 else 15 * Pow(16, k)
  }

  lemma NextMaskIs(k: nat)
    requires k <= 7
    ensures NextMask(MaskAt(k)) == MaskAt(k - 1) && MaskAt(k) > 0 && (MaskAt(k) == 0xF <==> k == 0)
  {
    PowSixteen();
    assert k == 0 || k == 1 || k == 2 || k == 3 || k == 4 || k == 5 || k == 6 || k == 7;
  }

  /** (v & mask) >> shift, where mask covers the four bits from 4 * k on and shift is 4 * k. */
  function Nibble(v: nat, k: nat): (d: nat)
    ensures d < 16
  {
    PowPositive(16, k);
    Quot(v, Pow(16, k)) % 16
  }

  /** Masking the whole value and dividing what is left over by the weight give the same digit. */
  lemma NibbleIs(v: nat, k: nat)
    ensures Pow(16, k) > 0 && Pow(16, k + 1) > 0
    ensures Nibble(v, k) == Quot(Rem(v, Pow(16, k + 1)), Pow(16, k))
    ensures Rem(Rem(v, Pow(16, k + 1)), Pow(16, k)) == Rem(v, Pow(16, k))
  {
    PowPositive(16, k);
    PowPositive(16, k + 1);
    var p := Pow(16, k);
    var q, r := Quot(v, 16 * p), Rem(v, 16 * p);
    QuotBelow(r, 16, p);
    var d, e := Quot(r, p), Rem(r, p);
    assert v == (q * 16 + d) * p + e by {
      Regroup(q, d, p);
    }
    QuotUnique(v, p, q * 16 + d, e);
  }

  lemma Regroup(q: nat, d: nat, p: nat)
    ensures (q * 16 + d) * p == q * (16 * p) + d * p
  {
  }

  method HexLongToASCII(buf: array<char>, pos: nat, wHexVal: nat, lead: bool) returns (at: nat)
    requires wHexVal < WORD && pos + |Hex(wHexVal, lead)| <= buf.Length
    modifies buf
    ensures at == pos + |Hex(wHexVal, lead)| && buf[..] == Written(old(buf[..]), pos, Hex(wHexVal, lead))
  {
    at := pos;
    var fNonZero, power := false, 0xF0000000;
    ghost var was, done, all := buf[..], "", Hex(wHexVal, lead);
    var k := 7;    // ShiftVal / 4
    EightDigits(wHexVal);
    StartHex(wHexVal);
    assert "" + all == all && buf[..] == Written(was, pos, "");
    while power != 0
      invariant -1 <= k <= 7 && power == MaskAt(k)
      invariant k >= 0 ==> 0 < Pow(16, k + 1) && Rem(wHexVal, Pow(16, k + 1)) < Pow(16, k + 1)
      invariant done + (if k < 0 then "" else ToGo(Rem(wHexVal, Pow(16, k + 1)), 16, k, fNonZero, lead)) == all
      invariant at == pos + |done| && pos + |all| <= buf.Length == |was| && buf[..] == Written(was, pos, done)
      decreases k
    {
      assert k >= 0;
      NextMaskIs(k);
      NibbleIs(wHexVal, k);
      var digit := Nibble(wHexVal, k);
      NextDigit(Rem(wHexVal, Pow(16, k + 1)), 16, k, fNonZero, lead, done, all);
      if digit != 0 {
        fNonZero := true;
      }
      var shown := digit != 0 || fNonZero || lead || (power == 0xF && !fNonZero);
      at := PutIf(shown, buf, was, pos, done, at, DigitChar(digit));
      done := done + if shown then [DigitChar(digit)] else "";
      power, k := NextMask(power), k - 1;
    }
  }

  lemma StartHex(v: nat)
    requires v < WORD
    ensures MaskAt(7) == 0xF0000000 && Pow(16, 7 + 1) > 0 && Rem(v, Pow(16, 7 + 1)) == v
  {
    PowSixteen();
    QuotUnique(v, Pow(16, 8), 0, v);
  }

  // ---------------------------------------------------------------- strtoul

  datatype State = NoNumber | Ok | Overflow

  method SimpleStrtoul(str: string, radix: int) returns (result: nat, end: nat)
    ensures (result, end) == Parse(str, radix)
  {
    var s := 0;
    while At(str, s) == ' '
      invariant s <= |str| && SkipSpaces(str, s) == SkipSpaces(str, 0)
      decreases |str| - s
    {
      s := s + 1;
    }
    assert s == SkipSpaces(str, 0);
    var neg, r := false, radix;
    if At(str, s) == '-' {
      neg, s := true, s + 1;
    } else if At(str, s) == '+' {
      s := s + 1;
    }
    assert s == AfterSign(str) && neg == Negative(str);
    if (r == 0 || r == 16) && At(str, s) == '0' && (At(str, s + 1) == 'x' || At(str, s + 1) == 'X') {
      r, s := 16, s + 2;
    }
    if r == 0 {
      r := if At(str, s) == '0' then 8 else 10;
    }
    assert s == DigitsStart(str, radix) && r == RealRadix(str, radix);
    result, end := Digitize(str, s, r, neg);
  }

  /** What simple_strtoul() does once sign and radix are known. */
  method Digitize(str: string, s: nat, radix: int, neg: bool) returns (result: nat, end: nat)
    requires s <= |str|
    ensures !(2 <= radix <= 36) ==> result == 0 && end == s
    ensures 2 <= radix <= 36 ==>
              var e := RunEnd(str, s, radix);
              if e == s then result == 0 && end == 0
              else end == e && result == if Value(str[s..e], radix) > ULONG_MAX then ULONG_MAX else Signed(Value(str[s..e], radix), neg)
  {
    result, end := 0, s;
    if 2 <= radix <= 36 {
      var n, state;
      n, state, end := DigitLoop(str, s, radix);
      match state
      case NoNumber => result, end := 0, 0;
      case Ok => result := Signed(n, neg);
      case Overflow => result := ULONG_MAX;
    }
  }

  lemma OneMoreDigit(str: string, start: nat, s: nat, radix: nat)
    requires start <= s < |str| && 2 <= radix
    ensures Value(str[start..s + 1], radix) == Value(str[start..s], radix) * radix + DigitOf(str[s])
    ensures Value(str[start..s + 1], radix) >= Value(str[start..s], radix)
  {
    var t := str[start..s + 1];
    assert t[..|t| - 1] == str[start..s];
    Grows(Value(str[start..s], radix), radix);
  }

  lemma Grows(v: nat, radix: nat)
    requires 1 <= radix
    ensures v * radix >= v
  {
  }

  /** The scanning loop, with its saturation test. */
  method DigitLoop(str: string, start: nat, radix: nat) returns (n: nat, state: State, s: nat)
    requires start <= |str| && 2 <= radix <= 36
    ensures s == RunEnd(str, start, radix)
    ensures state == NoNumber <==> s == start
    ensures state == Overflow <==> Value(str[start..s], radix) > ULONG_MAX
    ensures state == Ok ==> n == Value(str[start..s], radix)
  {
    var max1 := ULONG_MAX / radix;
    var max2 := ULONG_MAX - max1 * radix;
    n, state, s := 0, NoNumber, start;
    while DigitOf(At(str, s)) < radix
      invariant start <= s <= |str| && RunEnd(str, s, radix) == RunEnd(str, start, radix)
      invariant state == NoNumber <==> s == start
      invariant state == Overflow <==> Value(str[start..s], radix) > ULONG_MAX
      invariant state != Overflow ==> n == Value(str[start..s], radix)
      decreases |str| - s
    {
      var c := DigitOf(At(str, s));
      OverflowTest(n, radix, c);
      OneMoreDigit(str, start, s, radix);
      if n >= max1 && (n > max1 || c > max2) {
        state := Overflow;
      }
      if state != Overflow {
        n, state := n * radix + c, Ok;
      }
      s := s + 1;
    }
  }
}
