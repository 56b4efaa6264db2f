/** Numbers and memory sizes as text: simple_strtoul with base detection,
    memsize_parse and memsize_format. */
module MtdText {
  import opened Machine

  const KB: nat := 1024
  const MB: nat := 1024 * KB
  const GB: nat := 1024 * MB

  function Head(s: string): char { At(s, 0) }

  predicate IsDigit(c: char) { '0' <= c <= '9' }

  predicate IsXDigit(c: char) { IsDigit(c) || 'a' <= c <= 'f' || 'A' <= c <= 'F' }

  function DigitValue(c: char): nat
    requires IsXDigit(c)
  {
    if IsDigit(c) then c as int - '0' as int
    else if 'a' <= c <= 'f' then c as int - 'a' as int + 10
    else c as int - 'A' as int + 10
  }

  datatype Radix = Octal | Decimal | Hex

  function RadixSize(r: Radix): nat {
    match r case Octal => 8 case Decimal => 10 case Hex => 16
  }

  /** One more digit. */
  function Shifted(acc: nat, r: Radix, digit: nat): nat {
    match r
    case Octal => Wrap(acc * 8 + digit)
    case Decimal => Wrap(acc * 10 + digit)
    case Hex => Wrap(acc * 16 + digit)
  }

  predicate IsDigitOf(c: char, r: Radix) { IsXDigit(c) && DigitValue(c) < RadixSize(r) }

  /** The digits at the front of `s` in the given base, after the value `acc`. */
  function Digits(s: string, r: Radix, acc: nat): (v: (nat, string))
    ensures |v.1| <= |s| && (acc < WORD ==> v.0 < WORD)
  {
    if s == [] || !IsDigitOf(s[0], r) then (acc, s)
    else Digits(s[1..], r, Shifted(acc, r, DigitValue(s[0])))
  }

  /** The base a number's prefix asks for, and the length of the prefix. */
  function Prefix(s: string): (r: (Radix, nat))
    ensures r.1 <= |s|
  {
    if Head(s) != '0' then (Decimal, 0)
    else if At(s, 1) == 'x' && IsXDigit(At(s, 2)) then (Hex, 2)
    else (Octal, 1)
  }

  function StrToUl(s: string): (r: (nat, string))
    ensures |r.1| <= |s| && r.0 < WORD
  {
    Digits(s[Prefix(s).1..], Prefix(s).0, 0)
  }

  /** How many times a size letter multiplies by 1024. */
  function Power(c: char): nat {
    if c == 'G' || c == 'g' then 3
    else if c == 'M' || c == 'm' then 2
    else if c == 'K' || c == 'k' then 1
    else 0
  }

  function Shift10(n: nat): nat { Wrap(n * 1024) }

  function Scale(n: nat, power: nat): nat {
    if power == 3 then Shift10(Shift10(Shift10(n)))
    else if power == 2 then Shift10(Shift10(n))
    else if power == 1 then Shift10(n)
    else n
  }

  function MemsizeParse(s: string): (r: (nat, string))
    ensures |r.1| <= |s| && r.0 < WORD
  {
    var (n, rest) := StrToUl(s);
    var power := Power(Head(rest));
    (Scale(n, power), if power == 0 then rest else rest[1..])
  }

  function DigitChar(d: nat): char
    requires d < 10
  {
    ('0' as int + d) as char
  }

  /** A number in decimal, as "%u" prints it. */
  function Number(n: nat): string {
    if n < 10 then [DigitChar(n)] else Number(n / 10) + [DigitChar(n % 10)]
  }

  function Memsize(size: nat): string {
    if size % GB == 0 then Number(size / GB) + "g"
    else if size % MB == 0 then Number(size / MB) + "m"
    else if size % KB == 0 then Number(size / KB) + "k"
    else Number(size)
  }

  // ------------------------------------------------------------ round trips

  /** Text that ends a number: no digit and no size letter. */
  predicate EndsNumber(s: string) {
    !IsDigit(Head(s)) && Power(Head(s)) == 0
  }

  lemma DigitCharIs(d: nat)
    requires d < 10
    ensures IsDigitOf(DigitChar(d), Decimal) && DigitValue(DigitChar(d)) == d
    ensures IsDigit(DigitChar(d)) && (DigitChar(d) == '0' <==> d == 0)
  {
  }

  lemma {:induction false} NumberIsDigits(n: nat)
    ensures forall i | 0 <= i < |Number(n)| :: IsDigit(Number(n)[i])
    ensures Number(n) != [] && (Number(n)[0] == '0' <==> n == 0)
  {
    DigitCharIs(n % 10);
    if n >= 10 { NumberIsDigits(n / 10); }
  }

  lemma DigitStays(c: char)
    requires IsDigit(c)
    ensures IsDigitOf(c, Decimal)
  {
  }

  lemma {:induction false} DigitsAppend(d: string, t: string, acc: nat)
    requires forall i | 0 <= i < |d| :: IsDigit(d[i])
    ensures Digits(d + t, Decimal, acc) == Digits(t, Decimal, Digits(d, Decimal, acc).0)
  {
    if d == [] {
      assert d + t == t;
    } else {
      assert (d + t)[0] == d[0] && (d + t)[1..] == d[1..] + t;
      DigitStays(d[0]);
      DigitsAppend(d[1..], t, Shifted(acc, Decimal, DigitValue(d[0])));
    }
  }

  lemma {:induction false} OneDigit(d: nat, acc: nat)
    requires d < 10
    ensures Digits([DigitChar(d)], Decimal, acc) == (Shifted(acc, Decimal, d), [])
  {
  }

  lemma {:induction false} NumberValue(n: nat)
    requires n < WORD
    ensures Digits(Number(n), Decimal, 0).0 == n
  {
    if n < 10 {
      OneDigit(n, 0);
    } else {
      NumberValue(n / 10);
      NumberIsDigits(n / 10);
      DigitsAppend(Number(n / 10), [DigitChar(n % 10)], 0);
      OneDigit(n % 10, n / 10);
    }
  }

  lemma {:induction false} NumberParses(n: nat, t: string)
    requires 0 < n < WORD && !IsDigit(Head(t))
    ensures StrToUl(Number(n) + t) == (n, t)
  {
    NumberIsDigits(n);
    NumberValue(n);
    DigitsAppend(Number(n), t, 0);
    var s := Number(n) + t;
    assert s[0] == Number(n)[0] && s[0..] == s;
    NoDecimalDigit(t);
  }

  lemma {:induction false} NoDecimalDigit(t: string)
    requires !IsDigit(Head(t))
    ensures forall acc: nat :: Digits(t, Decimal, acc) == (acc, t)
  {
  }

  lemma ZeroParses(c: char, t: string)
    requires c in ['g', 'm', 'k']
    ensures StrToUl("0" + ([c] + t)) == (0, [c] + t)
  {
  }

  /** A printed number with its size letter. */
  lemma {:induction false} UnitParses(n: nat, c: char, t: string)
    requires n < WORD && c in ['g', 'm', 'k']
    ensures MemsizeParse(Number(n) + [c] + t) == (Scale(n, Power(c)), t)
  {
    assert Number(n) + [c] + t == Number(n) + ([c] + t);
    if n == 0 {
      ZeroParses(c, t);
    } else {
      NumberParses(n, [c] + t);
    }
    assert ([c] + t)[1..] == t;
  }

  lemma ScaleBack(size: nat)
    requires size < WORD
    ensures size % KB == 0 ==> Scale(size / KB, 1) == size
    ensures size % MB == 0 ==> Scale(size / MB, 2) == size
    ensures size % GB == 0 ==> Scale(size / GB, 3) == size
  {
  }

  /** memsize_parse takes back every size that memsize_format prints. */
  lemma MemsizeRoundTrip(size: nat, t: string)
    requires size < WORD && EndsNumber(t)
    ensures MemsizeParse(Memsize(size) + t) == (size, t)
  {
    ScaleBack(size);
    if size % GB == 0 {
      UnitParses(size / GB, 'g', t);
    } else if size % MB == 0 {
      UnitParses(size / MB, 'm', t);
    } else if size % KB == 0 {
      UnitParses(size / KB, 'k', t);
    } else {
      NumberParses(size, t);
    }
  }

  // --------------------------------------------------------------- as it runs

  method SimpleStrtoul(s: string, from: nat) returns (value: nat, end: nat)
    requires from <= |s|
    ensures from <= end <= |s| && (value, s[end..]) == StrToUl(s[from..])
  {
    var radix := Decimal;
    end := from;
    if At(s, end) == '0' {
      radix := Octal;
      end := end + 1;
      if At(s, end) == 'x' && IsXDigit(At(s, end + 1)) {
        radix := Hex;
        end := end + 1;
      }
    }
    value := 0;
    assert (radix, end - from) == Prefix(s[from..]);
    assert s[from..][end - from..] == s[end..];
    while end < |s| && IsDigitOf(s[end], radix)
      invariant from <= end <= |s|
      invariant Digits(s[end..], radix, value) == StrToUl(s[from..])
    {
      assert s[end..][1..] == s[end + 1..] && s[end..][0] == s[end];
      value := Shifted(value, radix, DigitValue(s[end]));
      end := end + 1;
    }
  }

  method ParseMemsize(s: string, from: nat) returns (size: nat, end: nat)
    requires from <= |s|
    ensures from <= end <= |s| && (size, s[end..]) == MemsizeParse(s[from..])
  {
    size, end := SimpleStrtoul(s, from);
    ghost var n := size;
    var c := At(s, end);
    assert Head(s[end..]) == c;
    if c == 'G' || c == 'g' { size := Shift10(size); }
    if c == 'G' || c == 'g' || c == 'M' || c == 'm' { size := Shift10(size); }
    if c == 'G' || c == 'g' || c == 'M' || c == 'm' || c == 'K' || c == 'k' {
      size := Shift10(size);
      assert s[end..][1..] == s[end + 1..];
      end := end + 1;
    }
  }
}
