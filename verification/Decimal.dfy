/**
 Decimal text: `QString::arg(int)` / `%d` printing, and the three readers the program uses,
 `QString::toInt`, `QString::toUShort` and C `atoi`.  All characters are ASCII.
 */
module Decimal {

  const INT_MIN := -0x8000_0000
  const INT_MAX := 0x7FFF_FFFF
  const LONG_MIN := -0x8000_0000_0000_0000
  const LONG_MAX := 0x7FFF_FFFF_FFFF_FFFF
  const USHORT_MAX := 0xFFFF

  /** `int`. */
  type Int32 = n: int | INT_MIN <= n <= INT_MAX

  /** `quint16`. */
  type UShort = n: int | 0 <= n <= USHORT_MAX

  predicate IsInt32(n: int) { INT_MIN <= n <= INT_MAX }

  predicate IsDigit(c: char) { '0' <= c <= '9' }

  predicate IsSpace(c: char)
  {
    c == ' ' || c == '\t' || c == '\n' || c == '\r' || c == '\U{0B}' || c == '\U{0C}'
  }

  predicate AllDigits(s: string)
  {
    forall i :: 0 <= i < |s| ==> IsDigit(s[i])
  }

  function DigitValue(c: char): (d: nat)
    requires IsDigit(c)
    ensures d < 10
  {
    c as int - '0' as int
  }

  function DigitChar(d: nat): (c: char)
    requires d < 10
    ensures IsDigit(c) && DigitValue(c) == d
  {
    ('0' as int + d) as char
  }

  /** The number a digit string denotes. */
  function Value(s: string): nat
    requires AllDigits(s)
  {
    if s == "" then 0 else Value(s[..|s| - 1]) * 10 + DigitValue(s[|s| - 1])
  }

  function PrintNat(n: nat): (s: string)
    ensures s != "" && AllDigits(s)
  {
    if n < 10 then [DigitChar(n)] else PrintNat(n / 10) + [DigitChar(n % 10)]
  }

  function Print(n: int): string
  {
    if n < 0 then "-" + PrintNat(-n) else PrintNat(n)
  }

  lemma {:induction false} ValueOfPrint(n: nat)
    ensures Value(PrintNat(n)) == n
    decreases n
  {
    var s := PrintNat(n);
    if n < 10 {
      assert s[..|s| - 1] == "";
    } else {
      ValueOfPrint(n / 10);
      assert s[..|s| - 1] == PrintNat(n / 10);
    }
  }

  /* ---------- white space ---------- */

  function TrimLeft(s: string): string
  {
    if s != "" && IsSpace(s[0]) then TrimLeft(s[1..]) else s
  }

  function TrimRight(s: string): string
  {
    if s != "" && IsSpace(s[|s| - 1]) then TrimRight(s[..|s| - 1]) else s
  }

  function Trim(s: string): string
  {
    TrimRight(TrimLeft(s))
  }

  /* ---------- readers ---------- */

  datatype Signed = Bad | Num(negative: bool, magnitude: nat)

  /** An optional sign and one or more digits, nothing else. */
  function ReadSigned(t: string): Signed
  {
    var negative := t != "" && t[0] == '-';
    var ds := if t != "" && (t[0] == '-' || t[0] == '+') then t[1..] else t;
    if ds != "" && AllDigits(ds) then Num(negative, Value(ds)) else Bad
  }

  /** `QString::toInt()`: surrounding space allowed, 0 on any malformed or out-of-range text. */
  function ToInt(s: string): Int32
  {
    match ReadSigned(Trim(s))
    case Bad => 0
    case Num(neg, m) =>
      var k: int := m;
      var v := if neg then -k else k;
      if IsInt32(v) then v else 0
  }

  /** `QString::toUShort()`: as `toInt`, but any minus sign is refused. */
  function ToUShort(s: string): UShort
  {
    match ReadSigned(Trim(s))
    case Bad => 0
    case Num(neg, m) => if !neg && m <= USHORT_MAX then m else 0
  }

  lemma ValueSnoc(ds: string, c: char)
    requires AllDigits(ds) && IsDigit(c)
    ensures AllDigits(ds + [c]) && Value(ds + [c]) == Value(ds) * 10 + DigitValue(c)
  {
    assert (ds + [c])[..|ds|] == ds;
  }

  function DigitPrefix(s: string): (p: string)
    ensures AllDigits(p) && p <= s
    ensures p == s || !IsDigit(s[|p|])
  {
    if s != "" && IsDigit(s[0]) then [s[0]] + DigitPrefix(s[1..]) else ""
  }

  function Clamp64(v: int): int
  {
    if v < LONG_MIN then LONG_MIN else if v > LONG_MAX then LONG_MAX else v
  }

  function Wrap32(v: int): (n: int)
    ensures IsInt32(n)
  {
    var u := v % 0x1_0000_0000;
    if u > INT_MAX then u - 0x1_0000_0000 else u
  }

  /** The number at the start of the text, after white space; 0 if there is none. */
  function LeadingNumber(s: string): int
  {
    var t := TrimLeft(s);
    var negative := t != "" && t[0] == '-';
    var ds := DigitPrefix(if t != "" && (t[0] == '-' || t[0] == '+') then t[1..] else t);
    var m: int := Value(ds);
    if negative then -m else m
  }

  /** C `atoi` on a 64-bit platform: `(int) strtol(s, 0, 10)`. */
  function Atoi(s: string): (n: int)
    ensures IsInt32(n)
  {
    Wrap32(Clamp64(LeadingNumber(s)))
  }

  /* ---------- the loops of the readers ---------- */

  /** How many characters to skip. */
  method SkipSpace(s: string) returns (k: nat)
    ensures k <= |s| && s[k..] == TrimLeft(s)
  {
    k := 0;
    while k < |s| && IsSpace(s[k])
      invariant k <= |s| && TrimLeft(s[k..]) == TrimLeft(s)
    {
      assert s[k..][1..] == s[k + 1..];
      k := k + 1;
    }
  }

  method TrimLoop(s: string) returns (t: string)
    ensures t == Trim(s)
  {
    var k := SkipSpace(s);
    t := s[k..];
    while t != "" && IsSpace(t[|t| - 1])
      invariant TrimRight(t) == Trim(s)
      decreases |t|
    {
      t := t[..|t| - 1];
    }
  }

  lemma DigitPrefixEnds(s: string, k: nat)
    requires k <= |s| && AllDigits(s[..k]) && (k == |s| || !IsDigit(s[k]))
    ensures DigitPrefix(s) == s[..k]
  {
    assert s == s[..k] + s[k..];
    DigitPrefixOfDigits(s[..k], s[k..]);
  }

  /** The digit loop: the leading digits of the text and their value. */
  method ScanDigits(s: string) returns (k: nat, m: nat)
    ensures k <= |s| && s[..k] == DigitPrefix(s) && m == Value(DigitPrefix(s))
  {
    k, m := 0, 0;
    while k < |s| && IsDigit(s[k])
      invariant k <= |s| && AllDigits(s[..k]) && m == Value(s[..k])
    {
      assert s[..k + 1] == s[..k] + [s[k]];
      ValueSnoc(s[..k], s[k]);
      m := m * 10 + DigitValue(s[k]);
      k := k + 1;
    }
    DigitPrefixEnds(s, k);
  }

  method ScanSigned(t: string) returns (r: Signed)
    ensures r == ReadSigned(t)
  {
    var negative := t != "" && t[0] == '-';
    var ds := if t != "" && (t[0] == '-' || t[0] == '+') then t[1..] else t;
    var k, m := ScanDigits(ds);
    assert k == |ds| ==> ds[..k] == ds;
    r := if ds != "" && k == |ds| then Num(negative, m) else Bad;
  }

  /** `toInt` as it runs. */
  method ReadInt(s: string) returns (n: Int32)
    ensures n == ToInt(s)
  {
    var t := TrimLoop(s);
    var r := ScanSigned(t);
    n := 0;
    if r.Num? {
      var m: int := r.magnitude;
      var v := if r.negative then -m else m;
      if IsInt32(v) { n := v; }
    }
  }

  /** `toUShort` as it runs. */
  method ReadUShort(s: string) returns (n: UShort)
    ensures n == ToUShort(s)
  {
    var t := TrimLoop(s);
    var r := ScanSigned(t);
    n := if r.Num? && !r.negative && r.magnitude <= USHORT_MAX then r.magnitude else 0;
  }

  method ScanNumber(s: string) returns (v: int)
    ensures v == LeadingNumber(s)
  {
    var i := SkipSpace(s);
    var t := s[i..];
    var negative := t != "" && t[0] == '-';
    var _, m := ScanDigits(if t != "" && (t[0] == '-' || t[0] == '+') then t[1..] else t);
    v := m;
    if negative { v := -v; }
  }

  /** `atoi` as it runs. */
  method ReadAtoi(s: string) returns (n: int)
    ensures n == Atoi(s)
  {
    var v := ScanNumber(s);
    n := Wrap32(Clamp64(v));
  }

  /* ---------- round trips ---------- */

  lemma PrintedChars(n: int)
    ensures forall c :: c in Print(n) ==> IsDigit(c) || c == '-'
    ensures Print(n) != "" && IsDigit(Print(n)[|Print(n)| - 1])
  {
    var s, p := Print(n), PrintNat(if n < 0 then -n else n);
    assert s[|s| - 1] == p[|p| - 1];
    assert forall c :: c in p ==> IsDigit(c);
  }

  lemma TrimPrinted(n: int)
    ensures Trim(Print(n)) == Print(n) && TrimLeft(Print(n)) == Print(n)
  {
    PrintedChars(n);
    assert Print(n)[0] in Print(n);
  }

  lemma ReadSignedOfPrint(n: int)
    ensures ReadSigned(Trim(Print(n))) == Num(n < 0, if n < 0 then -n else n)
  {
    TrimPrinted(n);
    if n < 0 {
      ValueOfPrint(-n);
      assert Print(n)[1..] == PrintNat(-n);
    } else {
      ValueOfPrint(n);
      assert IsDigit(PrintNat(n)[0]);
    }
  }

  /** Printing then reading an `int` gives it back; anything wider reads as 0. */
  lemma ToIntOfPrint(n: int)
    ensures ToInt(Print(n)) == if IsInt32(n) then n else 0
  {
    ReadSignedOfPrint(n);
  }

  predicate AllSpaces(s: string)
  {
    forall i :: 0 <= i < |s| ==> IsSpace(s[i])
  }

  lemma {:induction false} TrimLeftSpaces(a: string, s: string)
    requires AllSpaces(a)
    ensures TrimLeft(a + s) == TrimLeft(s)
    decreases |a|
  {
    if a == "" {
      assert a + s == s;
    } else {
      assert (a + s)[1..] == a[1..] + s;
      TrimLeftSpaces(a[1..], s);
    }
  }

  lemma {:induction false} TrimRightSpaces(s: string, b: string)
    requires AllSpaces(b)
    ensures TrimRight(s + b) == TrimRight(s)
    decreases |b|
  {
    if b == "" {
      assert s + b == s;
    } else {
      assert (s + b)[..|s + b| - 1] == s + b[..|b| - 1];
      TrimRightSpaces(s, b[..|b| - 1]);
    }
  }

  /** White space around a number, such as the CR before a line feed, does not matter. */
  lemma {:induction false} ToIntPadded(a: string, n: int, b: string)
    requires AllSpaces(a) && AllSpaces(b)
    ensures ToInt(a + (Print(n) + b)) == if IsInt32(n) then n else 0
  {
    PrintedChars(n);
    TrimLeftSpaces(a, Print(n) + b);
    assert (Print(n) + b)[0] == Print(n)[0] && Print(n)[0] in Print(n);
    assert TrimLeft(Print(n) + b) == Print(n) + b;
    TrimRightSpaces(Print(n), b);
    TrimPrinted(n);
    ReadSignedOfPrint(n);
  }

  lemma {:induction false} DigitPrefixOfDigits(s: string, t: string)
    requires AllDigits(s) && (t == "" || !IsDigit(t[0]))
    ensures DigitPrefix(s + t) == s
    decreases |s|
  {
    if s == "" {
      assert s + t == t;
    } else {
      assert (s + t)[1..] == s[1..] + t;
      DigitPrefixOfDigits(s[1..], t);
    }
  }

  lemma WrapInRange(n: int)
    requires IsInt32(n)
    ensures Wrap32(Clamp64(n)) == n
  {
  }

  lemma {:induction false} LeadingNumberOfPrint(n: int)
    ensures LeadingNumber(Print(n)) == n
  {
    TrimPrinted(n);
    var p := PrintNat(if n < 0 then -n else n);
    DigitPrefixOfDigits(p, "");
    assert p + "" == p;
    ValueOfPrint(if n < 0 then -n else n);
    if n < 0 {
      assert Print(n)[1..] == p;
    } else {
      assert IsDigit(Print(n)[0]);
    }
  }

  /** Printing then `atoi` is the identity on `int`; a wider value is clamped to `long`, then cut. */
  lemma {:induction false} AtoiOfPrint(n: int)
    ensures Atoi(Print(n)) == Wrap32(Clamp64(n))
    ensures IsInt32(n) ==> Atoi(Print(n)) == n
  {
    LeadingNumberOfPrint(n);
    if IsInt32(n) { WrapInRange(n); }
  }

  /** A port accepted by `toUShort` is exactly what its decimal form prints. */
  lemma ToUShortOfPrint(n: nat)
    ensures ToUShort(Print(n)) == if n <= USHORT_MAX then n else 0
  {
    ReadSignedOfPrint(n);
  }

  /** `atoi` of text that starts with neither space, sign nor digit is 0. */
  lemma AtoiOfJunk(s: string)
    requires s != "" && !IsSpace(s[0]) && !IsDigit(s[0]) && s[0] != '-' && s[0] != '+'
    ensures Atoi(s) == 0
  {
    assert DigitPrefix(s) == "";
  }
}
