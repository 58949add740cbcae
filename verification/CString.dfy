/** The C library string functions that the request parser relies on.
    A C string is a position in a byte buffer; its value is the bytes up to the first NUL. */
module CString {
  import opened CTypes

  const NUL: char := '\0'
  const CR: char := '\r'
  const LF: char := '\n'

  predicate IsBlank(c: char) { c == ' ' || c == '\t' }

  predicate NoBlank(s: string) { forall i :: 0 <= i < |s| ==> !IsBlank(s[i]) }

  predicate AllBlank(s: string) { forall i :: 0 <= i < |s| ==> IsBlank(s[i]) }

  /** The value of the C string that starts a buffer: everything before the first NUL. */
  function Cut(s: string): (r: string)
    ensures r <= s && NUL !in r
    ensures |r| < |s| ==> s[|r|] == NUL
    ensures NUL !in s ==> r == s
  {
    if s == "" || s[0] == NUL then "" else [s[0]] + Cut(s[1..])
  }

  /** `strpbrk(s, " \t")`: the offset of the first blank, |s| when there is none. */
  function FirstBlank(s: string): (i: nat)
    ensures i <= |s| && forall j :: 0 <= j < i ==> !IsBlank(s[j])
    ensures i < |s| ==> IsBlank(s[i])
  {
    if s == "" || IsBlank(s[0]) then 0 else 1 + FirstBlank(s[1..])
  }

  /** `strspn(s, " \t")`: the length of the leading run of blanks. */
  function LeadingBlanks(s: string): (i: nat)
    ensures i <= |s| && forall j :: 0 <= j < i ==> IsBlank(s[j])
    ensures i < |s| ==> !IsBlank(s[i])
  {
    if s == "" || !IsBlank(s[0]) then 0 else 1 + LeadingBlanks(s[1..])
  }

  function SkipBlanks(s: string): (r: string)
    ensures |r| <= |s| && r == s[|s| - |r|..]
    ensures AllBlank(s[..|s| - |r|]) && (r != "" ==> !IsBlank(r[0]))
  {
    s[LeadingBlanks(s)..]
  }

  /** `strchr(s, '/')`: the offset of the first slash, |s| when there is none. */
  function FirstSlash(s: string): (i: nat)
    ensures i <= |s| && '/' !in s[..i]
    ensures i < |s| ==> s[i] == '/'
  {
    if s == "" || s[0] == '/' then 0 else 1 + FirstSlash(s[1..])
  }

  function ToLower(c: char): char {
    if 'A' <= c <= 'Z' then (c as int + 32) as char else c
  }

  /** `strcasecmp(a, b) == 0` in the C locale. */
  predicate EqNoCase(a: string, b: string) {
    |a| == |b| && forall i :: 0 <= i < |a| ==> ToLower(a[i]) == ToLower(b[i])
  }

  /** `strncasecmp(s, p, |p|) == 0` in the C locale. */
  predicate HasPrefixNoCase(s: string, p: string) {
    |p| <= |s| && EqNoCase(s[..|p|], p)
  }

  /** The same up to letter case: equal, or a letter of A-Z and the one 32 above it. */
  predicate SameLetter(a: char, b: char) {
    a == b || ('A' <= a <= 'Z' && b as int == a as int + 32) || ('A' <= b <= 'Z' && a as int == b as int + 32)
  }

  predicate SameButCase(s: string, t: string) {
    |s| == |t| && forall i :: 0 <= i < |s| ==> SameLetter(s[i], t[i])
  }

  /** `strcasecmp` and `strncasecmp` ignore letter case and nothing else. */
  lemma NoCaseExactly(s: string, t: string)
    ensures EqNoCase(s, t) <==> SameButCase(s, t)
    ensures HasPrefixNoCase(s, t) <==> |t| <= |s| && SameButCase(s[..|t|], t)
  {
  }

  predicate IsSpace(c: char) { c == ' ' || 9 as char <= c <= 13 as char }

  function SkipSpaces(s: string): string {
    if s == "" || !IsSpace(s[0]) then s else SkipSpaces(s[1..])
  }

  predicate IsDigit(c: char) { '0' <= c <= '9' }

  function ReadDigits(acc: nat, s: string): nat
    decreases |s|
  {
    if s == "" || !IsDigit(s[0]) then acc
    else ReadDigits(acc * 10 + (s[0] as int - '0' as int), s[1..])
  }

  /** `atol(s)`, saturating at the bounds of a 64-bit `long`. */
  function Atol(s: string): (r: int)
    ensures -LONG_MAX - 1 <= r <= LONG_MAX
  {
    var t := SkipSpaces(s);
    if t != "" && t[0] == '-' then
      var n: int := ReadDigits(0, t[1..]);
      if n > LONG_MAX then -LONG_MAX - 1 else -n
    else
      var n: int := ReadDigits(0, if t != "" && t[0] == '+' then t[1..] else t);
      if n > LONG_MAX then LONG_MAX else n
  }

  /** The number that a string of digits denotes. */
  function Number(ds: string): (n: int) {
    if ds == "" then 0 else 10 * Number(ds[..|ds| - 1]) + (ds[|ds| - 1] as int - '0' as int)
  }

  predicate WhiteSpace(c: char) {
    c == ' ' || c == '\t' || c == '\n' || c == '\U{0B}' || c == '\U{0C}' || c == '\r'
  }

  /** s is white space, a sign or none, digits, and something that does not go on with them. */
  ghost predicate IsNumeral(s: string, space: string, sign: string, ds: string, rest: string) {
    && s == space + (sign + (ds + rest))
    && (forall i :: 0 <= i < |space| ==> WhiteSpace(space[i]))
    && (forall i :: 0 <= i < |ds| ==> '0' <= ds[i] <= '9')
    && (sign == "+" || sign == "-" || (sign == "" && (ds == "" && rest != "" ==> !WhiteSpace(rest[0]) && rest[0] != '+' && rest[0] != '-')))
    && (rest != "" ==> !('0' <= rest[0] <= '9'))
  }

  /** x is the number that s begins with, or the bound of a 64-bit `long` that it exceeds. */
  ghost predicate ReadsAs(s: string, x: int) {
    exists space, sign, ds, rest :: IsNumeral(s, space, sign, ds, rest) && x == Clamped(sign, Number(ds))
  }

  function Clamped(sign: string, n: int): int {
    if sign == "-" then (if n > 0x7FFF_FFFF_FFFF_FFFF then -0x8000_0000_0000_0000 else -n)
    else if n > 0x7FFF_FFFF_FFFF_FFFF then 0x7FFF_FFFF_FFFF_FFFF
    else n
  }

  lemma SpaceExactly(c: char)
    ensures IsSpace(c) <==> WhiteSpace(c)
  {
  }

  lemma {:induction false} SkipSpacesOf(space: string, t: string)
    requires (forall i :: 0 <= i < |space| ==> IsSpace(space[i])) && (t != "" ==> !IsSpace(t[0]))
    ensures SkipSpaces(space + t) == t
    decreases |space|
  {
    if space == "" {
      assert "" + t == t;
    } else {
      assert (space + t)[1..] == space[1..] + t;
      SkipSpacesOf(space[1..], t);
    }
  }

  lemma {:induction false} SpacesInFront(s: string)
    ensures var t := SkipSpaces(s);
            && |t| <= |s| && s == s[..|s| - |t|] + t && (t != "" ==> !IsSpace(t[0]))
            && forall i :: 0 <= i < |s| - |t| ==> IsSpace(s[i])
    decreases |s|
  {
    if s == "" || !IsSpace(s[0]) {
    } else {
      SpacesInFront(s[1..]);
      var t := SkipSpaces(s);
      assert s[1..][..|s| - 1 - |t|] == s[1..|s| - |t|];
      assert forall i :: 1 <= i < |s| - |t| ==> s[i] == s[1..][i - 1];
    }
  }

  lemma {:induction false} DigitsThen(acc: nat, ds: string, t: string)
    requires forall i :: 0 <= i < |ds| ==> IsDigit(ds[i])
    ensures ReadDigits(acc, ds + t) == ReadDigits(ReadDigits(acc, ds), t)
    decreases |ds|
  {
    if ds == "" {
      assert "" + t == t;
    } else {
      assert (ds + t)[1..] == ds[1..] + t;
      DigitsThen(acc * 10 + (ds[0] as int - '0' as int), ds[1..], t);
    }
  }

  lemma {:induction false} ReadsNumber(ds: string)
    requires forall i :: 0 <= i < |ds| ==> IsDigit(ds[i])
    ensures ReadDigits(0, ds) == Number(ds)
    decreases |ds|
  {
    if ds == "" {
    } else {
      var init, last := ds[..|ds| - 1], [ds[|ds| - 1]];
      assert ds == init + last;
      ReadsNumber(init);
      DigitsThen(0, init, last);
      assert last[1..] == "";
    }
  }

  lemma DigitsAndRest(ds: string, rest: string)
    requires (forall i :: 0 <= i < |ds| ==> IsDigit(ds[i])) && (rest != "" ==> !IsDigit(rest[0]))
    ensures ReadDigits(0, ds + rest) == Number(ds)
  {
    ReadsNumber(ds);
    DigitsThen(0, ds, rest);
  }

  lemma {:induction false} DigitRun(s: string) returns (ds: string, rest: string)
    ensures s == ds + rest && (forall i :: 0 <= i < |ds| ==> IsDigit(ds[i])) && (rest != "" ==> !IsDigit(rest[0]))
    decreases |s|
  {
    if s == "" || !IsDigit(s[0]) {
      ds, rest := "", s;
    } else {
      ds, rest := DigitRun(s[1..]);
      ds := [s[0]] + ds;
    }
  }

  lemma NumeralValue(s: string, space: string, sign: string, ds: string, rest: string)
    requires IsNumeral(s, space, sign, ds, rest)
    ensures Atol(s) == Clamped(sign, Number(ds))
  {
    hide ReadDigits, Number, SkipSpaces;
    var t := sign + (ds + rest);
    if t != "" {
      SpaceExactly(t[0]);
    }
    forall i | 0 <= i < |space| ensures IsSpace(space[i]) {
      SpaceExactly(space[i]);
    }
    SkipSpacesOf(space, t);
    DigitsAndRest(ds, rest);
    if sign == "" {
      assert t == ds + rest;
    } else {
      assert t[1..] == ds + rest;
    }
  }

  lemma SignAndDigits(t: string) returns (sign: string, ds: string, rest: string)
    requires t != "" ==> !IsSpace(t[0])
    ensures IsNumeral(t, "", sign, ds, rest)
  {
    sign := if t != "" && (t[0] == '-' || t[0] == '+') then t[..1] else "";
    ds, rest := DigitRun(t[|sign|..]);
    assert t == sign + (ds + rest) == "" + (sign + (ds + rest));
    if t != "" {
      SpaceExactly(t[0]);
    }
  }

  lemma SpaceInFront(space: string, t: string, sign: string, ds: string, rest: string)
    requires IsNumeral(t, "", sign, ds, rest) && forall i :: 0 <= i < |space| ==> IsSpace(space[i])
    ensures IsNumeral(space + t, space, sign, ds, rest)
  {
    assert "" + (sign + (ds + rest)) == sign + (ds + rest);
    forall i | 0 <= i < |space| ensures WhiteSpace(space[i]) {
      SpaceExactly(space[i]);
    }
  }

  lemma NumeralParts(s: string) returns (space: string, sign: string, ds: string, rest: string)
    ensures IsNumeral(s, space, sign, ds, rest)
  {
    hide IsNumeral, IsSpace, SkipSpaces;
    SpacesInFront(s);
    var t := SkipSpaces(s);
    space := s[..|s| - |t|];
    sign, ds, rest := SignAndDigits(t);
    SpaceInFront(space, t, sign, ds, rest);
  }

  /** `atol` gives exactly the number that its argument begins with. */
  lemma AtolExactly(s: string, x: int)
    ensures Atol(s) == x <==> ReadsAs(s, x)
  {
    hide Atol, IsNumeral, Clamped, Number;
    if Atol(s) == x {
      var space, sign, ds, rest := NumeralParts(s);
      NumeralValue(s, space, sign, ds, rest);
    }
    if ReadsAs(s, x) {
      var space, sign, ds, rest :| IsNumeral(s, space, sign, ds, rest) && x == Clamped(sign, Number(ds));
      NumeralValue(s, space, sign, ds, rest);
    }
  }

  function Digit(d: nat): (c: char)
    requires d < 10
    ensures IsDigit(c) && c as int - '0' as int == d
  {
    (d + '0' as int) as char
  }

  /** The `%d` conversion of a non-negative number. */
  function Decimal(n: nat): (s: string)
    ensures |s| >= 1 && forall i :: 0 <= i < |s| ==> IsDigit(s[i])
  {
    if n < 10 then [Digit(n)] else Decimal(n / 10) + [Digit(n % 10)]
  }

  lemma {:induction false} ReadDigitsOfDecimal(n: nat, t: string)
    ensures ReadDigits(0, Decimal(n) + t) == ReadDigits(n, t)
  {
    if n < 10 {
      assert ([Digit(n)] + t)[1..] == t;
    } else {
      var d := [Digit(n % 10)];
      assert Decimal(n) + t == Decimal(n / 10) + (d + t);
      ReadDigitsOfDecimal(n / 10, d + t);
      assert (d + t)[1..] == t;
    }
  }

  lemma {:induction false} NumberOfDecimal(n: nat)
    ensures Number(Decimal(n)) == n
  {
    var s := Decimal(n);
    if n < 10 {
      assert s[..|s| - 1] == "";
    } else {
      NumberOfDecimal(n / 10);
      assert s[..|s| - 1] == Decimal(n / 10);
    }
  }

  /** Reading back a printed number gives the number. */
  lemma AtolOfDecimal(n: nat)
    requires n <= LONG_MAX
    ensures Atol(Decimal(n)) == n
  {
    ReadDigitsOfDecimal(n, "");
    assert Decimal(n) + "" == Decimal(n);
  }

  function Pow10(k: nat): (r: nat)
    ensures r >= 1
  {
    if k == 0 then 1 else 10 * Pow10(k - 1)
  }

  /** A number below 10^k prints in at most k digits. */
  lemma {:induction false} DecimalLength(n: nat, k: nat)
    requires 1 <= k && n < Pow10(k)
    ensures |Decimal(n)| <= k
  {
    if n < 10 {
    } else {
      assert k > 1;
      DecimalLength(n / 10, k - 1);
    }
  }

  /** Position p of buffer b holds the C string s: its bytes, then a NUL. */
  ghost predicate IsCStr(b: string, p: nat, s: string) {
    p + |s| < |b| && b[p..p + |s|] == s && b[p + |s|] == NUL && NUL !in s
  }

  /** Advancing the pointer drops leading bytes. */
  lemma CStrSuffix(b: string, p: nat, s: string, k: nat)
    requires IsCStr(b, p, s) && k <= |s|
    ensures IsCStr(b, p + k, s[k..])
  {
    assert b[p + k..p + |s|] == b[p..p + |s|][k..];
  }

  /** Writing a NUL inside a C string splits it in two. */
  lemma CStrSplit(b: string, p: nat, s: string, i: nat)
    requires IsCStr(b, p, s) && i < |s|
    ensures IsCStr(b[p + i := NUL], p, s[..i])
    ensures IsCStr(b[p + i := NUL], p + i + 1, s[i + 1..])
  {
    var b' := b[p + i := NUL];
    assert forall j :: 0 <= j < |s| ==> b[p + j] == b[p..p + |s|][j] == s[j];
    assert b'[p..p + i] == s[..i];
    assert b'[p + i + 1..p + |s|] == s[i + 1..];
  }

  /** A C string only depends on its own bytes and its terminator. */
  lemma CStrFrame(b: string, b': string, p: nat, s: string)
    requires IsCStr(b, p, s) && |b| == |b'|
    requires forall i :: p <= i <= p + |s| ==> b'[i] == b[i]
    ensures IsCStr(b', p, s)
  {
    assert b'[p..p + |s|] == b[p..p + |s|];
  }

  /** What the C library reads at p is the string that was put there. */
  lemma {:induction false} CStrValue(b: string, p: nat, s: string)
    requires IsCStr(b, p, s)
    ensures Cut(b[p..]) == s
    decreases |s|
  {
    if s == "" {
    } else {
      assert b[p] == b[p..p + |s|][0] == s[0];
      CStrSuffix(b, p, s, 1);
      CStrValue(b, p + 1, s[1..]);
      assert b[p..][1..] == b[p + 1..];
    }
  }
}
