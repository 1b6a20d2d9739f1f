/**
 What the number readers make of any text, said over its characters: white space, an optional sign,
 digits, white space.  Nothing here refers to how the readers work.
 */
module NumberText {
  import opened Decimal
  import opened Text

  /** White space, spelled out. */
  ghost predicate Blank(s: string)
  {
    forall i :: 0 <= i < |s| ==> s[i] in " \t\n\r\U{0B}\U{0C}"
  }

  predicate Sign(sign: string)
  {
    sign == "" || sign == "-" || sign == "+"
  }

  /** `s` is a number in white space. */
  ghost predicate NumberIn(s: string, a: string, sign: string, ds: string, b: string)
  {
    s == a + (sign + (ds + b)) && Blank(a) && Blank(b) && Sign(sign) && ds != "" && AllDigits(ds)
  }

  function SignedValue(sign: string, ds: string): int
    requires AllDigits(ds)
  {
    var m: int := Value(ds);
    if sign == "-" then -m else m
  }

  /* ---------- decimal digits ---------- */

  function Pow10(k: nat): nat
  {
    if k == 0 then 1 else 10 * Pow10(k - 1)
  }

  lemma ValueDigit(c: char)
    requires IsDigit(c)
    ensures '0' <= c <= '9' && Value([c]) == c as int - '0' as int
  {
    assert [c][..0] == "";
  }

  /** Digits are positional, the first ones the most significant. */
  lemma {:induction false} ValueAppend(ds: string, es: string)
    requires AllDigits(ds) && AllDigits(es)
    ensures AllDigits(ds + es) && Value(ds + es) == Value(ds) * Pow10(|es|) + Value(es)
    decreases |es|
  {
    if es == "" {
      assert ds + es == ds;
    } else {
      var es', c := es[..|es| - 1], es[|es| - 1];
      ValueAppend(ds, es');
      ValueSnoc(ds + es', c);
      assert ds + es == ds + es' + [c];
      assert es == es' + [c];
      TimesTen(Value(ds), Pow10(|es'|), Value(es'), DigitValue(c));
    }
  }

  lemma TimesTen(v: int, p: int, u: int, d: int)
    ensures (v * p + u) * 10 + d == v * (10 * p) + (u * 10 + d)
  {
  }

  /** Digits as a number is written: no zero in front of others. */
  predicate Canonical(ds: string)
  {
    ds != "" && AllDigits(ds) && (ds == "0" || ds[0] != '0')
  }

  lemma DigitBack(c: char)
    requires IsDigit(c)
    ensures DigitChar(DigitValue(c)) == c
  {
  }

  /** Printing gives back the digits a number was read from, so nothing but those is printed. */
  lemma {:induction false} PrintOfValue(ds: string)
    requires Canonical(ds)
    ensures Print(Value(ds)) == ds
    decreases |ds|
  {
    var n, c := |ds| - 1, ds[|ds| - 1];
    DigitBack(c);
    assert ds == ds[..n] + [c];
    if n > 0 {
      PrintOfValue(ds[..n]);
      ValueSnoc(ds[..n], c);
      assert Print(0) == "0" && ds[..n][0] == ds[0];
      PrintStep(Value(ds[..n]), DigitValue(c));
    }
  }

  lemma PrintStep(m: nat, d: nat)
    requires m > 0 && d < 10
    ensures PrintNat(m * 10 + d) == PrintNat(m) + [DigitChar(d)]
  {
    assert (m * 10 + d) / 10 == m && (m * 10 + d) % 10 == d;
  }

  lemma PrintNegative(n: int)
    requires n < 0
    ensures Print(n) == "-" + Print(-n)
  {
  }

  /* ---------- reading a number ---------- */

  lemma BlankIsSpace(s: string)
    ensures Blank(s) <==> AllSpaces(s)
  {
    if AllSpaces(s) {
      forall i | 0 <= i < |s| ensures s[i] in " \t\n\r\U{0B}\U{0C}" { SpaceListed(s[i]); }
    }
    if Blank(s) {
      forall i | 0 <= i < |s| ensures IsSpace(s[i]) { SpaceListed(s[i]); }
    }
  }

  lemma SpaceListed(c: char)
    ensures IsSpace(c) <==> c in " \t\n\r\U{0B}\U{0C}"
  {
    var t := " \t\n\r\U{0B}\U{0C}";
    assert t[0] == ' ' && t[1] == '\t' && t[2] == '\n' && t[3] == '\r' && t[4] == '\U{0B}' && t[5] == '\U{0C}';
  }

  lemma TrimNumber(a: string, t: string, b: string)
    requires AllSpaces(a) && AllSpaces(b) && t != "" && !IsSpace(t[0]) && !IsSpace(t[|t| - 1])
    ensures Trim(a + (t + b)) == t
  {
    TrimLeftSpaces(a, t + b);
    assert (t + b)[0] == t[0];
    TrimRightSpaces(t, b);
  }

  lemma SignedRead(sign: string, ds: string)
    requires Sign(sign) && ds != "" && AllDigits(ds)
    ensures ReadSigned(sign + ds) == Num(sign == "-", Value(ds))
  {
    var t := sign + ds;
    if sign == "" {
      assert t == ds && IsDigit(ds[0]);
    } else {
      assert t[0] == sign[0] && t[1..] == ds;
    }
  }

  /** A number in range is read as its value, one out of range as 0, and `toUShort` refuses a minus. */
  lemma {:induction false} NumberRead(s: string, a: string, sign: string, ds: string, b: string)
    requires NumberIn(s, a, sign, ds, b)
    ensures var v := SignedValue(sign, ds);
            && ToInt(s) == (if -2147483648 <= v <= 2147483647 then v else 0)
            && ToUShort(s) == (if sign != "-" && v <= 65535 then v else 0)
  {
    var t := sign + ds;
    BlankIsSpace(a);
    BlankIsSpace(b);
    assert IsDigit(ds[0]) && IsDigit(ds[|ds| - 1]) && t[|t| - 1] == ds[|ds| - 1];
    assert t[0] == if sign == "" then ds[0] else sign[0];
    assert s == a + (t + b);
    TrimNumber(a, t, b);
    SignedRead(sign, ds);
  }

  lemma {:induction false} TrimmedLeft(s: string) returns (a: string)
    ensures s == a + TrimLeft(s) && AllSpaces(a)
    decreases |s|
  {
    a := "";
    if s != "" && IsSpace(s[0]) {
      var a' := TrimmedLeft(s[1..]);
      a := [s[0]] + a';
    }
  }

  lemma {:induction false} TrimmedRight(s: string) returns (b: string)
    ensures s == TrimRight(s) + b && AllSpaces(b)
    decreases |s|
  {
    b := "";
    if s != "" && IsSpace(s[|s| - 1]) {
      var b' := TrimmedRight(s[..|s| - 1]);
      b := b' + [s[|s| - 1]];
    }
  }

  lemma SignSplit(t: string) returns (sign: string, ds: string)
    requires ReadSigned(t).Num?
    ensures t == sign + ds && Sign(sign) && ds != "" && AllDigits(ds)
  {
    sign := if t[0] == '-' || t[0] == '+' then [t[0]] else "";
    ds := t[|sign|..];
  }

  /** What is not a number in white space is malformed. */
  lemma {:induction false} NumberFound(s: string) returns (a: string, sign: string, ds: string, b: string)
    requires ReadSigned(Trim(s)).Num?
    ensures NumberIn(s, a, sign, ds, b)
  {
    a := TrimmedLeft(s);
    b := TrimmedRight(TrimLeft(s));
    sign, ds := SignSplit(Trim(s));
    Regroup(sign, ds, b);
    BlankIsSpace(a);
    BlankIsSpace(b);
  }

  /** `toInt` gives a number other than 0 exactly for the texts of that number. */
  lemma ToIntExactly(s: string, n: int)
    requires n != 0
    ensures ToInt(s) == n <==>
            -2147483648 <= n <= 2147483647 &&
            exists a, sign, ds, b :: NumberIn(s, a, sign, ds, b) && SignedValue(sign, ds) == n
  {
    if a, sign, ds, b :| NumberIn(s, a, sign, ds, b) && SignedValue(sign, ds) == n {
      NumberRead(s, a, sign, ds, b);
    }
    if ToInt(s) == n {
      var a, sign, ds, b := NumberFound(s);
      NumberRead(s, a, sign, ds, b);
    }
  }

  /** `toUShort` likewise, for numbers in 1..65535 without a minus sign. */
  lemma ToUShortExactly(s: string, n: int)
    requires n != 0
    ensures ToUShort(s) == n <==>
            1 <= n <= 65535 &&
            exists a, sign, ds, b :: NumberIn(s, a, sign, ds, b) && sign != "-" && SignedValue(sign, ds) == n
  {
    if a, sign, ds, b :| NumberIn(s, a, sign, ds, b) && sign != "-" && SignedValue(sign, ds) == n {
      NumberRead(s, a, sign, ds, b);
    }
    if ToUShort(s) == n {
      var a, sign, ds, b := NumberFound(s);
      NumberRead(s, a, sign, ds, b);
    }
  }

  /** A port a login can go ahead with. */
  ghost predicate PortText(s: string)
  {
    exists a, sign, ds, b :: NumberIn(s, a, sign, ds, b) && sign != "-" && 1 <= SignedValue(sign, ds) <= 65535
  }

  lemma PortRead(s: string)
    ensures ToUShort(s) != 0 <==> PortText(s)
  {
    if a, sign, ds, b :| NumberIn(s, a, sign, ds, b) && sign != "-" && 1 <= SignedValue(sign, ds) <= 65535 {
      NumberRead(s, a, sign, ds, b);
    }
    if ToUShort(s) != 0 {
      ToUShortExactly(s, ToUShort(s));
    }
  }

  lemma NumberChars(s: string, a: string, sign: string, ds: string, b: string, c: char)
    requires NumberIn(s, a, sign, ds, b) && c in s
    ensures c in " \t\n\r\U{0B}\U{0C}" || '0' <= c <= '9' || c == '+' || [c] == sign == "-"
  {
    if c in sign {
      assert c == sign[0];
    } else if c in ds {
      assert IsDigit(c);
    } else {
      assert c in a || c in b;
    }
  }

  lemma NumberNotBlank(s: string, a: string, sign: string, ds: string, b: string)
    requires NumberIn(s, a, sign, ds, b)
    ensures !Blank(s)
  {
    var k := |a| + |sign|;
    assert s[k] == ds[0] && IsDigit(ds[0]);
  }

  /**
   So both readers give 0 for empty or blank text and for any text with a character that is no white
   space, digit or sign, and `toUShort` for any text with a minus sign.
   */
  lemma Malformed(s: string, c: char)
    ensures Blank(s) ==> ToInt(s) == 0 && ToUShort(s) == 0
    ensures c in s && c !in " \t\n\r\U{0B}\U{0C}" && c !in "0123456789+-" ==> ToInt(s) == 0 && ToUShort(s) == 0
    ensures '-' in s ==> ToUShort(s) == 0
  {
    if ReadSigned(Trim(s)).Num? {
      var a, sign, ds, b := NumberFound(s);
      NumberRead(s, a, sign, ds, b);
      NumberNotBlank(s, a, sign, ds, b);
      if c in s { NumberChars(s, a, sign, ds, b, c); DigitListed(c); }
      if '-' in s { NumberChars(s, a, sign, ds, b, '-'); }
    }
  }

  lemma DigitListed(c: char)
    ensures '0' <= c <= '9' || c == '+' || c == '-' ==> c in "0123456789+-"
  {
    var t := "0123456789+-";
    if '0' <= c <= '9' {
      assert t[c as int - '0' as int] == c;
    }
    assert t[10] == '+' && t[11] == '-';
  }

  /* ---------- atoi ---------- */

  lemma DropSpace(a: string, t: string)
    requires AllSpaces(a) && (t == "" || !IsSpace(t[0]))
    ensures TrimLeft(a + t) == t
  {
    TrimLeftSpaces(a, t);
  }

  /** Nothing stands between the white space and the sign or the digits. */
  ghost predicate NumberFirst(sign: string, ds: string, rest: string)
  {
    sign == "" && ds == "" && rest != "" ==> !Blank([rest[0]]) && !Sign([rest[0]])
  }

  lemma UnsignedHead(ds: string, rest: string)
    requires AllDigits(ds) && NumberFirst("", ds, rest)
    ensures var t := ds + rest; t == "" || (!IsSpace(t[0]) && t[0] != '-' && t[0] != '+')
  {
    if ds != "" {
      assert (ds + rest)[0] == ds[0] && IsDigit(ds[0]);
    } else if rest != "" {
      BlankIsSpace([rest[0]]);
      assert (ds + rest)[0] == rest[0];
    }
  }

  lemma LeadingSigned(sign: string, ds: string, rest: string)
    requires Sign(sign) && AllDigits(ds) && (rest == "" || !IsDigit(rest[0])) && NumberFirst(sign, ds, rest)
    ensures var t := sign + (ds + rest);
            && (t == "" || !IsSpace(t[0]))
            && (TrimLeft(t) == t ==> LeadingNumber(t) == SignedValue(sign, ds))
  {
    var t := sign + (ds + rest);
    DigitPrefixOfDigits(ds, rest);
    if sign != "" {
      assert t[0] == sign[0] && t[1..] == ds + rest;
    } else {
      assert t == ds + rest;
      UnsignedHead(ds, rest);
    }
  }

  /**
   `atoi` reads leading white space, a sign and digits, and stops at anything else; without digits it
   gives 0.
   */
  lemma {:induction false} AtoiReads(a: string, sign: string, ds: string, rest: string)
    requires Blank(a) && Sign(sign) && AllDigits(ds) && (rest == "" || !IsDigit(rest[0]))
    requires NumberFirst(sign, ds, rest)
    ensures LeadingNumber(a + (sign + (ds + rest))) == SignedValue(sign, ds)
    ensures -2147483648 <= SignedValue(sign, ds) <= 2147483647 ==>
              Atoi(a + (sign + (ds + rest))) == SignedValue(sign, ds)
  {
    var t := sign + (ds + rest);
    BlankIsSpace(a);
    LeadingSigned(sign, ds, rest);
    DropSpace(a, t);
    WrapInRangeAll(SignedValue(sign, ds));
  }

  lemma WrapInRangeAll(n: int)
    ensures -2147483648 <= n <= 2147483647 ==> Wrap32(Clamp64(n)) == n
  {
    if IsInt32(n) { WrapInRange(n); }
  }
}
