/** Formatting a number into a padded field, and reading it back. */
module PrintNum {
  function DigitChar(d: nat, upcase: bool): char
    requires d < 16
  {
    if d <= 9 then '0' + d as char else if upcase then 'A' + (d - 10) as char else 'a' + (d - 10) as char
  }

  function DigitValue(c: char): nat {
    if '0' <= c <= '9' then (c - '0') as nat
    else if 'A' <= c <= 'F' then (c - 'A') as nat + 10
    else if 'a' <= c <= 'f' then (c - 'a') as nat + 10
    else 16
  }

  lemma DigitRoundTrip(d: nat, upcase: bool)
    requires d < 16
    ensures DigitValue(DigitChar(d, upcase)) == d && DigitChar(d, upcase) != ' ' && DigitChar(d, upcase) != '-'
  {
  }

  /** The digits of a number from the lowest up, at least one. */
  function LowFirst(u: nat, base: nat, upcase: bool): string
    requires 2 <= base <= 16
    decreases u
  {
    [DigitChar(u % base, upcase)] + if u < base then "" else LowFirst(u / base, base, upcase)
  }

  function Reverse(s: string): (r: string)
    ensures |r| == |s|
  {
    if s == "" then "" else Reverse(s[1..]) + [s[0]]
  }

  /** The digits as they are read. */
  function Digits(u: nat, base: nat, upcase: bool): string
    requires 2 <= base <= 16
  {
    Reverse(LowFirst(u, base, upcase))
  }

  predicate AllDigits(s: string, base: nat) { forall i :: 0 <= i < |s| ==> DigitValue(s[i]) < base }

  /** Value of a string of digits, highest first. */
  function Value(s: string, base: nat): nat {
    if s == "" then 0 else Value(s[..|s| - 1], base) * base + DigitValue(s[|s| - 1])
  }

  lemma ValueSnoc(s: string, c: char, base: nat)
    ensures Value(s + [c], base) == Value(s, base) * base + DigitValue(c)
  {
    assert (s + [c])[..|s|] == s;
  }

  lemma DigitsSnoc(u: nat, base: nat, upcase: bool)
    requires 2 <= base <= 16
    ensures Digits(u, base, upcase) == (if u < base then "" else Digits(u / base, base, upcase))
      + [DigitChar(u % base, upcase)]
  {
    hide DigitChar;
    var low, c := LowFirst(u, base, upcase), DigitChar(u % base, upcase);
    assert low[0] == c && low[1..] == if u < base then "" else LowFirst(u / base, base, upcase);
  }

  /** Printing a number's digits and reading them gives the number. */
  lemma {:induction false} DigitsValue(u: nat, base: nat, upcase: bool)
    requires 2 <= base <= 16
    ensures Value(Digits(u, base, upcase), base) == u && AllDigits(Digits(u, base, upcase), base)
    ensures Digits(u, base, upcase) != ""
    decreases u
  {
    hide DigitChar, DigitValue, Digits, Value, AllDigits;
    DigitRoundTrip(u % base, upcase);
    DigitsSnoc(u, base, upcase);
    Split(u, base);
    if u < base {
      EmptyValue(base);
      DigitAdded("", DigitChar(u % base, upcase), base, u);
    } else {
      DigitsValue(u / base, base, upcase);
      DigitAdded(Digits(u / base, base, upcase), DigitChar(u % base, upcase), base, u);
    }
  }

  lemma DigitAdded(s: string, c: char, base: nat, u: nat)
    requires base > 0 && AllDigits(s, base) && Value(s, base) == u / base && DigitValue(c) == u % base
    ensures Value(s + [c], base) == u && AllDigits(s + [c], base)
  {
    hide DigitValue, Value;
    ValueSnoc(s, c, base);
    AllSnoc(s, c, base);
  }

  lemma Split(u: nat, base: nat)
    requires base > 0
    ensures u % base < base && (u < base ==> u / base == 0) && (u >= base > 1 ==> u / base < u)
  {
    if base > 1 {
      Quotients(u, base);
    }
  }

  lemma AllSnoc(s: string, c: char, base: nat)
    requires AllDigits(s, base) && DigitValue(c) < base
    ensures AllDigits(s + [c], base)
  {
    hide DigitValue;
  }

  lemma EmptyValue(base: nat)
    ensures Value("", base) == 0 && AllDigits("", base)
  {
  }

  function Pow2(k: nat): nat { if k == 0 then 1 else 2 * Pow2(k - 1) }

  /** A number below 2^k has at most k digits in any base. */
  lemma {:induction false} DigitCount(u: nat, base: nat, upcase: bool, k: nat)
    requires 2 <= base <= 16 && k >= 1 && u < Pow2(k)
    ensures |LowFirst(u, base, upcase)| <= k
    decreases u
  {
    if u >= base {
      assert u / base <= u / 2 by { Quotients(u, base); }
      assert k >= 2;
      DigitCount(u / base, base, upcase, k - 1);
    }
  }

  lemma Quotients(u: nat, base: nat)
    requires 2 <= base
    ensures u / base <= u / 2
  {
    Divided(u, base);
    Scaled(u / base, base);
  }

  lemma Divided(u: nat, base: nat)
    requires base > 0
    ensures u / base * base <= u
  {
  }

  lemma Scaled(q: nat, base: nat)
    requires 2 <= base
    ensures q * base >= q * 2
  {
    assert q * base == q * 2 + q * (base - 2);
  }

  function Repeat(c: char, n: nat): (s: string)
    ensures |s| == n && forall i :: 0 <= i < n ==> s[i] == c
  {
    seq(n, _ => c)
  }

  function Sign(neg: bool): string { if neg then "-" else "" }

  /** Padding needed for a text of `n` characters. */
  function Padding(width: nat, n: nat): nat { if width > n then width - n else 0 }

  /** The field: left-adjusted with trailing blanks, or padded in front, zeros going between the sign and the digits. */
  function Field(neg: bool, digits: string, width: nat, left: bool, padc: char): string {
    var pad := Padding(width, |Sign(neg)| + |digits|);
    if left then Sign(neg) + digits + Repeat(' ', pad)
    else if padc == '0' then Sign(neg) + Repeat('0', pad) + digits
    else Repeat(padc, pad) + Sign(neg) + digits
  }

  function Formatted(u: nat, base: nat, neg: bool, width: nat, left: bool, padc: char, upcase: bool): string
    requires 2 <= base <= 16
  {
    Field(neg, Digits(u, base, upcase), width, left, padc)
  }

  function SkipBlanks(s: string): string { if s != "" && s[0] == ' ' then SkipBlanks(s[1..]) else s }

  function DigitPrefix(s: string, base: nat): string {
    if s != "" && DigitValue(s[0]) < base then [s[0]] + DigitPrefix(s[1..], base) else ""
  }

  /** Reads a number: blanks, an optional sign, digits. */
  function Parse(s: string, base: nat): (bool, nat) {
    var t := SkipBlanks(s);
    if t != "" && t[0] == '-' then (true, Value(DigitPrefix(t[1..], base), base))
      else (false, Value(DigitPrefix(t, base), base))
  }

  lemma {:induction false} SkipRepeat(n: nat, s: string)
    requires s == "" || s[0] != ' '
    ensures SkipBlanks(Repeat(' ', n) + s) == s
  {
    if n == 0 {
      assert Repeat(' ', 0) + s == s;
    } else {
      SkipRepeat(n - 1, s);
      assert (Repeat(' ', n) + s)[1..] == Repeat(' ', n - 1) + s;
    }
  }

  lemma {:induction false} PrefixOf(s: string, t: string, base: nat)
    requires AllDigits(s, base) && (t == "" || DigitValue(t[0]) >= base)
    ensures DigitPrefix(s + t, base) == s
    decreases |s|
  {
    if s == "" {
      assert s + t == t;
    } else {
      assert (s + t)[1..] == s[1..] + t;
      PrefixOf(s[1..], t, base);
    }
  }

  lemma {:induction false} LeadingZeros(n: nat, s: string, base: nat)
    requires base >= 2
    ensures Value(Repeat('0', n) + s, base) == Value(s, base)
    decreases |s|, n
  {
    var t := Repeat('0', n) + s;
    if s != "" {
      LeadingZeros(n, s[..|s| - 1], base);
      assert t[..|t| - 1] == Repeat('0', n) + s[..|s| - 1];
    } else if n > 0 {
      LeadingZeros(n - 1, s, base);
      assert t[..|t| - 1] == Repeat('0', n - 1) + s;
      assert t[|t| - 1] == '0';
    }
  }

  /** A text that starts with its sign and digits. */
  lemma ReadFront(neg: bool, digits: string, rest: string, base: nat)
    requires 2 <= base <= 16 && digits != "" && AllDigits(digits, base) && (rest == "" || DigitValue(rest[0]) >= base)
    ensures Parse(Sign(neg) + digits + rest, base) == (neg, Value(digits, base))
  {
    Marks();
    hide Value, DigitValue;
    var s := Sign(neg) + digits + rest;
    PrefixOf(digits, rest, base);
    assert digits[0] != ' ' && digits[0] != '-';
    assert s[0] != ' ' && (s[0] == '-' <==> neg);
    assert neg ==> s[1..] == digits + rest;
    assert !neg ==> s == digits + rest;
  }

  lemma ReadZeros(neg: bool, pad: nat, digits: string, base: nat)
    requires 2 <= base <= 16 && digits != "" && AllDigits(digits, base)
    ensures Parse(Sign(neg) + Repeat('0', pad) + digits, base) == (neg, Value(digits, base))
  {
    Marks();
    hide Value, DigitValue, Parse;
    LeadingZeros(pad, digits, base);
    ReadFront(neg, Repeat('0', pad) + digits, "", base);
    assert Sign(neg) + (Repeat('0', pad) + digits) + "" == Sign(neg) + Repeat('0', pad) + digits;
  }

  lemma ParseSkips(n: nat, t: string, base: nat)
    requires t != "" && t[0] != ' '
    ensures Parse(Repeat(' ', n) + t, base) == Parse(t, base)
  {
    hide Value, DigitPrefix;
    SkipRepeat(n, t);
  }

  lemma ReadBlanks(neg: bool, pad: nat, digits: string, base: nat)
    requires 2 <= base <= 16 && digits != "" && AllDigits(digits, base)
    ensures Parse(Repeat(' ', pad) + Sign(neg) + digits, base) == (neg, Value(digits, base))
  {
    Marks();
    hide Value, DigitValue, Parse;
    ReadFront(neg, digits, "", base);
    var t := Sign(neg) + digits;
    assert t + "" == t && digits[0] != ' ';
    ParseSkips(pad, t, base);
    assert Repeat(' ', pad) + t == Repeat(' ', pad) + Sign(neg) + digits;
  }

  /** For every value, base, width, sign and alignment the field is as long as asked for, or as the text needs, and it
      reads back as the value. */
  lemma FormattedReadsBack(u: nat, base: nat, neg: bool, width: nat, left: bool, padc: char, upcase: bool)
    requires 2 <= base <= 16 && (padc == ' ' || padc == '0')
    ensures var s, n := Formatted(u, base, neg, width, left, padc, upcase), |Sign(neg)| + |Digits(u, base, upcase)|;
      |s| == (if width > n then width else n) && Parse(s, base) == (neg, u)
  {
    DigitsValue(u, base, upcase);
    Marks();
    hide Digits, Value, DigitValue, Parse, AllDigits;
    var digits := Digits(u, base, upcase);
    var pad := Padding(width, |Sign(neg)| + |digits|);
    if left {
      ReadFront(neg, digits, Repeat(' ', pad), base);
    } else if padc == '0' {
      ReadZeros(neg, pad, digits, base);
    } else {
      ReadBlanks(neg, pad, digits, base);
    }
  }

  lemma Marks()
    ensures DigitValue('0') == 0 && DigitValue(' ') == 16 && DigitValue('-') == 16
  {
  }

  /** In-place reversal of the first `n` characters. */
  method ReverseFront(buf: array<char>, n: nat)
    requires n <= buf.Length
    modifies buf
    ensures buf[..n] == Reverse(old(buf[..n])) && buf[n..] == old(buf[n..])
  {
    ghost var s := buf[..n];
    var begin, end := 0, n - 1;
    while end > begin
      invariant 0 <= begin <= end + 2 && begin + end == n - 1
      invariant forall k :: 0 <= k < begin ==> buf[k] == s[n - 1 - k] && buf[n - 1 - k] == s[k]
      invariant forall k :: begin <= k <= end ==> buf[k] == s[k]
      invariant buf[n..] == old(buf[n..])
    {
      buf[begin], buf[end] := buf[end], buf[begin];
      begin, end := begin + 1, end - 1;
    }
    forall k | 0 <= k < n ensures buf[k] == Reverse(s)[k] {
      ReverseAt(s, k);
    }
  }

  lemma {:induction false} ReverseAt(s: string, k: nat)
    requires k < |s|
    ensures Reverse(s)[k] == s[|s| - 1 - k]
  {
    if k < |s| - 1 {
      ReverseAt(s[1..], k);
    }
  }

  lemma {:induction false} ReverseConcat(a: string, b: string)
    ensures Reverse(a + b) == Reverse(b) + Reverse(a)
  {
    if a == "" {
      assert a + b == b;
    } else {
      ReverseConcat(a[1..], b);
      assert (a + b)[1..] == a[1..] + b;
    }
  }

  lemma {:induction false} ReverseRepeat(c: char, n: nat)
    ensures Reverse(Repeat(c, n)) == Repeat(c, n)
  {
    forall k | 0 <= k < n ensures Reverse(Repeat(c, n))[k] == c {
      ReverseAt(Repeat(c, n), k);
    }
  }

  lemma LowStep(u: nat, base: nat, upcase: bool)
    requires 2 <= base <= 16
    ensures u % base < base && (u / base == 0 <==> u < base) && (u / base != 0 ==> u / base < u)
    ensures LowFirst(u, base, upcase)
      == [DigitChar(u % base, upcase)] + if u / base == 0 then "" else LowFirst(u / base, base, upcase)
  {
    hide DigitChar;
    Quotients(u, base);
  }

  /** The digit loop: lowest digit first. */
  method PutDigits(buf: array<char>, value: nat, base: nat, upcase: bool) returns (n: nat)
    requires 2 <= base <= 16 && |LowFirst(value, base, upcase)| <= buf.Length
    modifies buf
    ensures n == |LowFirst(value, base, upcase)| && buf[..n] == LowFirst(value, base, upcase)
  {
    hide DigitChar, LowFirst;
    ghost var all := LowFirst(value, base, upcase);
    var u: nat := value;
    n := 0;
    while true
      invariant n + |LowFirst(u, base, upcase)| == |all| <= buf.Length && buf[..n] + LowFirst(u, base, upcase) == all
      decreases u
    {
      LowStep(u, base, upcase);
      ghost var was := buf[..n];
      var digit, rest := u % base, u / base;
      buf[n] := DigitChar(digit, upcase);
      n := n + 1;
      assert buf[..n] == was + [DigitChar(digit, upcase)];
      if rest == 0 {
        break;
      }
      u := rest;
    }
  }

  /** Fills buf[from..to] with one character. */
  method Fill(buf: array<char>, from: nat, to: nat, c: char)
    requires to <= buf.Length
    modifies buf
    ensures forall k :: 0 <= k < buf.Length ==> buf[k] == if from <= k < to then c else old(buf[k])
  {
    var i := from;
    while i < to
      invariant from <= i && (i <= to || i == from)
      invariant forall k :: 0 <= k < buf.Length ==> buf[k] == if from <= k < i then c else old(buf[k])
    {
      buf[i] := c;
      i := i + 1;
    }
  }

  lemma EightBits(k: nat)
    ensures Pow2(k + 8) == 256 * Pow2(k)
  {
    assert Pow2(k + 2) == 4 * Pow2(k);
    assert Pow2(k + 4) == 4 * Pow2(k + 2);
    assert Pow2(k + 6) == 4 * Pow2(k + 4);
  }

  lemma PowerBound()
    ensures Pow2(64) == 0x1_0000_0000_0000_0000
  {
    hide Pow2;
    EightBits(0); EightBits(8); EightBits(16); EightBits(24);
    EightBits(32); EightBits(40); EightBits(48); EightBits(56);
    NoBits();
  }

  lemma NoBits()
    ensures Pow2(0) == 1
  {
  }

  /** Left-adjusted: blanks behind, and only the text is turned round. */
  method LeftField(buf: array<char>, ghost low: string, neg: bool, n: nat, length: nat, ghost width: nat)
    requires n == |low| + |Sign(neg)| && length == (if width < n then n else width) <= buf.Length
      && buf[..n] == low + Sign(neg)
    modifies buf
    ensures buf[..length] == Field(neg, Reverse(low), width, true, ' ')
  {
    hide Reverse;
    Fill(buf, n, length, ' ');
    assert buf[..n] == low + Sign(neg) && buf[n..length] == Repeat(' ', length - n);
    ReverseFront(buf, n);
    assert buf[..length] == buf[..n] + buf[n..][..length - n];
    SignedReverse(low, neg);
  }

  lemma SignedReverse(low: string, neg: bool)
    ensures Reverse(low + Sign(neg)) == Sign(neg) + Reverse(low)
  {
    ReverseThree(low, Sign(neg), "");
    assert low + Sign(neg) + "" == low + Sign(neg);
    ReverseSign(neg);
  }

  /** Zeros of a negative number go over the sign, which is put behind them before everything is turned round. */
  method ZeroField(buf: array<char>, ghost low: string, n: nat, length: nat, ghost width: nat)
    requires n == |low| + 1 && length == (if width < n then n else width) <= buf.Length && buf[..n] == low + "-"
    modifies buf
    ensures buf[..length] == Field(true, Reverse(low), width, false, '0')
  {
    hide Reverse;
    Fill(buf, n - 1, length - 1, '0');
    buf[length - 1] := '-';
    assert buf[..length] == low + Repeat('0', length - n) + "-";
    ReverseFront(buf, length);
    ReverseThree(low, Repeat('0', length - n), "-");
    ReverseRepeat('0', length - n);
    ReverseSign(true);
  }

  /** Padding behind, then everything is turned round. */
  method RightField(buf: array<char>, ghost low: string, neg: bool, n: nat, length: nat, ghost width: nat, padc: char)
    requires n == |low| + |Sign(neg)| && length == (if width < n then n else width) <= buf.Length
      && buf[..n] == low + Sign(neg)
    requires !(neg && padc == '0')
    modifies buf
    ensures buf[..length] == Field(neg, Reverse(low), width, false, padc)
  {
    hide Reverse;
    Fill(buf, n, length, padc);
    assert buf[..length] == low + Sign(neg) + Repeat(padc, length - n);
    ReverseFront(buf, length);
    ReverseThree(low, Sign(neg), Repeat(padc, length - n));
    ReverseRepeat(padc, length - n);
    ReverseSign(neg);
  }

  /** print_num: the characters handed to the output callback. Every write stays inside the buffer of `width` + 70. */
  method Print(u: nat, base: nat, neg: bool, width: nat, left: bool, padc: char, upcase: bool) returns (text: string)
    requires u < 0x1_0000_0000_0000_0000 && base in {2, 8, 10, 16}
    ensures text == Formatted(u, base, neg, width, left, padc, upcase)
  {
    hide LowFirst, Reverse, Pow2;
    PowerBound();
    DigitCount(u, base, upcase, 64);
    var buf := new char[width + 70];
    ghost var low := LowFirst(u, base, upcase);
    var n := PutDigits(buf, u, base, upcase);
    if neg {
      buf[n] := '-';
      n := n + 1;
    }
    assert buf[..n] == low + Sign(neg);
    var length := if width < n then n else width;
    if left {
      LeftField(buf, low, neg, n, length, width);
    } else if neg && padc == '0' {
      ZeroField(buf, low, n, length, width);
    } else {
      RightField(buf, low, neg, n, length, width, padc);
    }
    text := buf[..length];
  }

  lemma ReverseThree(a: string, b: string, c: string)
    ensures Reverse(a + b + c) == Reverse(c) + Reverse(b) + Reverse(a)
  {
    ReverseConcat(a + b, c);
    ReverseConcat(a, b);
  }

  lemma ReverseSign(neg: bool)
    ensures Reverse(Sign(neg)) == Sign(neg) && Reverse("") == "" && Reverse("-") == "-"
  {
  }
}
