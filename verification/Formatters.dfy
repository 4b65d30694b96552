/**
 The number formatters: each counts the digits of its argument in one pass and writes
 them backwards into a zeroed 128-byte buffer in another.
 */
module Formatters {
  import opened Bytes
  import opened VideoDriver
  import opened Words
  import opened Wrappers

  const BUFFER := 128
  const ZERO: Byte := 48
  const MINUS: Byte := 45

  // ---------- numerals ----------

  /** The three bases, so that all arithmetic is by constants. */
  datatype Radix = Two | Ten | Sixteen

  function Quotient(x: nat, r: Radix): (q: nat)
    ensures x > 0 ==> q < x
  {
    match r
    case Two => x / 2
    case Ten => x / 10
    case Sixteen => x / 16
  }

  function Remainder(x: nat, r: Radix): (d: nat)
    ensures d < 16
  {
    match r
    case Two => x % 2
    case Ten => x % 10
    case Sixteen => x % 16
  }

  function Times(r: Radix, n: nat): nat {
    match r
    case Two => 2 * n
    case Ten => 10 * n
    case Sixteen => 16 * n
  }

  function DigitChar(d: nat): Byte
    requires d < 16
  {
    if d < 10 then ZERO + d else 55 + d
  }

  function DigitValue(c: Byte): nat {
    if ZERO <= c <= 57 then c - ZERO else if 65 <= c <= 70 then c - 55 else 0
  }

  /** Digits of a positive number, most significant first; zero has none. */
  function Digits(x: nat, r: Radix): (s: seq<Byte>)
    ensures 0 !in s
    decreases x
  {
    if x == 0 then [] else Digits(Quotient(x, r), r) + [DigitChar(Remainder(x, r))]
  }

  function Decode(s: seq<Byte>, r: Radix): nat {
    if s == [] then 0 else Times(r, Decode(s[..|s| - 1], r)) + DigitValue(s[|s| - 1])
  }

  /** Digits of any number: zero is written with one digit. */
  function Numeral(x: nat, r: Radix): (s: seq<Byte>)
    ensures 0 !in s && |s| > 0
  {
    if x == 0 then [ZERO] else Digits(x, r)
  }

  function Zeros(n: int): (s: seq<Byte>)
    ensures 0 !in s
    ensures |s| == if n < 0 then 0 else n
  {
    if n <= 0 then [] else Zeros(n - 1) + [ZERO]
  }

  /** A numeral zero-filled on the left to at least `padding` digits. */
  function Field(x: nat, r: Radix, padding: int): (s: seq<Byte>)
    ensures 0 !in s
  {
    Zeros(padding - |Numeral(x, r)|) + Numeral(x, r)
  }

  function Decimal(a: int): (s: seq<Byte>)
    ensures 0 !in s
  {
    if a < 0 then [MINUS] + Numeral(-a, Ten) else Numeral(a, Ten)
  }

  function DecodeSigned(s: seq<Byte>): int {
    if s != [] && s[0] == MINUS then 0 - Decode(s[1..], Ten) else Decode(s, Ten)
  }

  lemma {:induction false} DecodeDigits(x: nat, r: Radix)
    ensures Decode(Digits(x, r), r) == x
    decreases x
  {
    if x > 0 {
      DecodeDigits(Quotient(x, r), r);
      var s := Digits(x, r);
      assert s[..|s| - 1] == Digits(Quotient(x, r), r);
    }
  }

  lemma {:induction false} NoLeadingZero(x: nat, r: Radix)
    requires x > 0
    ensures |Digits(x, r)| > 0 && Digits(x, r)[0] != ZERO && Digits(x, r)[0] != MINUS
    ensures r == Two ==> Digits(x, r)[0] == ZERO + 1
    decreases x
  {
    if Quotient(x, r) > 0 {
      NoLeadingZero(Quotient(x, r), r);
    }
  }

  lemma {:induction false} DecodeZeros(n: int, s: seq<Byte>, r: Radix)
    ensures Decode(Zeros(n) + s, r) == Decode(s, r)
    decreases |s|, if n < 0 then 0 else n
  {
    var t := Zeros(n) + s;
    if s == [] {
      assert t == Zeros(n);
      if n > 0 {
        assert Zeros(n)[..|Zeros(n)| - 1] == Zeros(n - 1);
        assert Zeros(n - 1) + [] == Zeros(n - 1);
        DecodeZeros(n - 1, [], r);
      }
    } else {
      assert t[..|t| - 1] == Zeros(n) + s[..|s| - 1];
      DecodeZeros(n, s[..|s| - 1], r);
    }
  }

  lemma {:induction false} ZerosAre(n: int, s: seq<Byte>)
    requires |s| == (if n < 0 then 0 else n) && forall k :: 0 <= k < |s| ==> s[k] == ZERO
    ensures s == Zeros(n)
    decreases |s|
  {
    if n > 0 {
      ZerosAre(n - 1, s[..n - 1]);
    }
  }

  /** A field decodes to its number, is as wide as asked or as the numeral, and starts
      with a zero only as padding or as the numeral of zero. */
  lemma FieldMeaning(x: nat, r: Radix, padding: int)
    ensures Decode(Field(x, r, padding), r) == x
    ensures |Field(x, r, padding)| == if padding < |Numeral(x, r)| then |Numeral(x, r)| else padding
    ensures x > 0 && padding <= |Numeral(x, r)| ==> Field(x, r, padding)[0] != ZERO
  {
    DecodeZeros(padding - |Numeral(x, r)|, Numeral(x, r), r);
    if x > 0 {
      DecodeDigits(x, r);
      NoLeadingZero(x, r);
    } else {
      assert [ZERO][..0] == [];
    }
  }

  // ---------- what numerals spell ----------

  function Base(r: Radix): nat {
    match r
    case Two => 2
    case Ten => 10
    case Sixteen => 16
  }

  /** The value of a numeral is positional. */
  lemma PlaceValue(s: seq<Byte>, c: Byte)
    ensures Decode([], Two) == Decode([], Ten) == Decode([], Sixteen) == 0
    ensures Decode(s + [c], Two) == 2 * Decode(s, Two) + DigitValue(c)
    ensures Decode(s + [c], Ten) == 10 * Decode(s, Ten) + DigitValue(c)
    ensures Decode(s + [c], Sixteen) == 16 * Decode(s, Sixteen) + DigitValue(c)
  {
    assert (s + [c])[..|s|] == s;
  }

  /** The digits of the three bases. */
  lemma DigitsOfBases(c: Byte)
    ensures IsDigitIn(c, Base(Two)) <==> c == 48 || c == 49
    ensures IsDigitIn(c, Base(Ten)) <==> 48 <= c <= 57
    ensures IsDigitIn(c, Base(Sixteen)) <==> 48 <= c <= 57 || 65 <= c <= 70
  {
    if 48 <= c <= 57 || 65 <= c <= 70 {
      SixteenDigits(DigitValue(c));
    }
  }

  /** `c` is a digit of the base, written as the source's digit table has it. */
  predicate IsDigitIn(c: Byte, base: nat) {
    DigitValue(c) < base <= 16 && c == "0123456789ABCDEF"[DigitValue(c)] as int
  }

  predicate InBase(s: seq<Byte>, base: nat) {
    forall k :: 0 <= k < |s| ==> IsDigitIn(s[k], base)
  }

  /** The characters are digits of the base, and stand for x. */
  predicate Spells(s: seq<Byte>, r: Radix, x: nat) {
    Decode(s, r) == x && InBase(s, Base(r))
  }

  lemma DigitIs(x: nat, r: Radix)
    ensures IsDigitIn(DigitChar(Remainder(x, r)), Base(r))
  {
    SixteenDigits(Remainder(x, r));
  }

  lemma SixteenDigits(d: nat)
    requires d < 16
    ensures DigitValue(DigitChar(d)) == d && DigitChar(d) == "0123456789ABCDEF"[d] as int
  {
  }

  lemma {:induction false} DigitsInBase(x: nat, r: Radix)
    ensures InBase(Digits(x, r), Base(r))
    decreases x
  {
    if x > 0 {
      DigitsInBase(Quotient(x, r), r);
      DigitIs(x, r);
    }
  }

  lemma DigitsSpell(x: nat, r: Radix)
    ensures Spells(Digits(x, r), r, x)
  {
    DecodeDigits(x, r);
    DigitsInBase(x, r);
  }

  lemma {:induction false} ZerosAreZeros(n: int)
    ensures forall k :: 0 <= k < |Zeros(n)| ==> Zeros(n)[k] == 48
    decreases n
  {
    if n > 0 {
      ZerosAreZeros(n - 1);
    }
  }

  lemma ZerosInBase(n: int, s: seq<Byte>, base: nat)
    requires InBase(s, base) && 0 < base <= 16
    ensures InBase(Zeros(n) + s, base)
  {
    ZerosAreZeros(n);
    assert IsDigitIn(48, base);
  }

  /** A field spells its number in digits of its base, is at least as wide as asked, and is
      wider only if its first digit is needed. */
  predicate IsField(s: seq<Byte>, r: Radix, x: nat, padding: int) {
    && Spells(s, r, x)
    && |s| >= 1 && |s| >= padding
    && (|s| > padding && |s| > 1 ==> s[0] != 48)
  }

  lemma FieldSpells(x: nat, r: Radix, padding: int)
    ensures IsField(Field(x, r, padding), r, x, padding)
  {
    NumeralSpells(x, r);
    DecodeZeros(padding - |Numeral(x, r)|, Numeral(x, r), r);
    ZerosInBase(padding - |Numeral(x, r)|, Numeral(x, r), Base(r));
    if x > 0 {
      NoLeadingZero(x, r);
    }
  }

  lemma NumeralSpells(x: nat, r: Radix)
    ensures Spells(Numeral(x, r), r, x)
  {
    if x == 0 {
      assert [ZERO][..0] == [];
      assert IsDigitIn(ZERO, Base(r));
    } else {
      DigitsSpell(x, r);
    }
  }

  /** Decimal text is the numeral in base ten without leading zeros, after a minus sign for
      negative numbers. */
  lemma DecimalSpells(a: int)
    ensures SaysDecimal(Decimal(a), a)
  {
    var n := if a < 0 then -a else a;
    NumeralSpells(n, Ten);
    if n > 0 {
      NoLeadingZero(n, Ten);
    }
    assert a < 0 ==> Decimal(a)[1..] == Numeral(n, Ten);
  }

  predicate SaysDecimal(s: seq<Byte>, a: int) {
    if a < 0 then s != [] && s[0] == 45 && Minimal(s[1..], Ten, -a) else Minimal(s, Ten, a)
  }

  /** A numeral with no leading zero. */
  predicate Minimal(s: seq<Byte>, r: Radix, x: nat) {
    Spells(s, r, x) && |s| >= 1 && (|s| > 1 ==> s[0] != 48)
  }

  /** Decimal text decodes to the signed number it was made from. */
  lemma DecimalMeaning(a: int)
    ensures DecodeSigned(Decimal(a)) == a
    ensures a != 0 ==> Decimal(a)[if a < 0 then 1 else 0] != ZERO
  {
    if a < 0 {
      assert Decimal(a)[1..] == Digits(-a, Ten);
      DecodeDigits(-a, Ten);
      NoLeadingZero(-a, Ten);
    } else if a > 0 {
      DecodeDigits(a, Ten);
      NoLeadingZero(a, Ten);
    } else {
      var s := [ZERO];
      assert s[..0] == [];
      assert Decode(s, Ten) == 0;
    }
  }

  function Power(r: Radix, n: nat): nat {
    if n == 0 then 1 else Times(r, Power(r, n - 1))
  }

  /** A number has at most n digits exactly when it is below base^n. */
  lemma {:induction false} DigitCount(x: nat, r: Radix, n: nat)
    ensures |Digits(x, r)| <= n <==> x < Power(r, n)
    decreases n
  {
    if n > 0 && x > 0 {
      DigitCount(Quotient(x, r), r, n - 1);
    } else if x == 0 {
      PowerPositive(r, n);
    }
  }

  lemma {:induction false} PowerPositive(r: Radix, n: nat)
    ensures Power(r, n) > 0
  {
    if n > 0 {
      PowerPositive(r, n - 1);
    }
  }

  lemma {:induction false} PowerSum(r: Radix, m: nat, n: nat)
    ensures Power(r, m + n) == Power(r, m) * Power(r, n)
    decreases m
  {
    if m > 0 {
      PowerSum(r, m - 1, n);
      TimesProduct(r, Power(r, m - 1), Power(r, n));
    }
  }

  lemma TimesProduct(r: Radix, a: nat, b: nat)
    ensures Times(r, a * b) == Times(r, a) * b
  {
    match r
    case Two => assert (2 * a) * b == 2 * (a * b);
    case Ten => assert (10 * a) * b == 10 * (a * b);
    case Sixteen => assert (16 * a) * b == 16 * (a * b);
  }

  lemma LargePowers()
    ensures Power(Ten, 20) == 100000000000000000000
    ensures Power(Sixteen, 16) == TWO_64
    ensures Power(Two, 31) == 0x8000_0000 && Power(Two, 64) == TWO_64
  {
    assert Power(Ten, 5) == 100000;
    PowerSum(Ten, 5, 5);
    PowerSum(Ten, 10, 10);
    assert Power(Sixteen, 4) == 0x1_0000;
    PowerSum(Sixteen, 4, 4);
    PowerSum(Sixteen, 8, 8);
    assert Power(Two, 8) == 0x100;
    PowerSum(Two, 8, 8);
    PowerSum(Two, 16, 16);
    assert Power(Two, 32) == 2 * Power(Two, 31);
    PowerSum(Two, 32, 32);
  }

  /** No 64-bit number has more digits than the buffer has room for. */
  lemma WordDigits(x: Word)
    ensures |Digits(x, Ten)| <= 20 && |Digits(x, Sixteen)| <= 16 && |Digits(x, Two)| <= 64
  {
    LargePowers();
    DigitCount(x, Ten, 20);
    DigitCount(x, Sixteen, 16);
    DigitCount(x, Two, 64);
  }

  // ---------- the buffer ----------

  /** The 128-byte buffer holds exactly the text `s`, then NULs if there is room. */
  ghost predicate IsText(data: seq<Byte>, s: seq<Byte>) {
    && |data| == BUFFER
    && |s| <= BUFFER
    && data[..|s|] == s
    && 0 !in s
    && forall k :: |s| <= k < BUFFER ==> data[k] == 0
  }

  /** Read as a C string the buffer gives back the text. */
  lemma TextRead(data: seq<Byte>, s: seq<Byte>)
    requires IsText(data, s) && |s| < BUFFER
    ensures 0 in data && CText(data) == s
  {
    assert forall k :: 0 <= k < |s| ==> data[k] == data[..|s|][k];
    FirstNul(data, |s|);
  }

  /** A buffer holds one text only. */
  lemma OneText(data: seq<Byte>, s: seq<Byte>, t: seq<Byte>)
    requires IsText(data, s)
    ensures IsText(data, t) <==> s == t
  {
    if IsText(data, t) {
      NulsAfter(data, s);
      NulsAfter(data, t);
      assert |s| < BUFFER ==> data[|s|] == 0;
      assert |t| < BUFFER ==> data[|t|] == 0;
    }
  }

  lemma NulsAfter(data: seq<Byte>, s: seq<Byte>)
    requires IsText(data, s)
    ensures forall k :: 0 <= k < BUFFER ==> (data[k] == 0 <==> |s| <= k)
  {
    assert forall k :: 0 <= k < |s| ==> data[k] == data[..|s|][k];
  }

  lemma {:induction false} FirstNul(p: seq<Byte>, n: nat)
    requires n < |p| && p[n] == 0 && forall k :: 0 <= k < n ==> p[k] != 0
    ensures 0 in p && CText(p) == p[..n]
    decreases n
  {
    if n > 0 {
      FirstNul(p[1..], n - 1);
      assert [p[0]] + p[1..][..n - 1] == p[..n];
    }
  }

  /** The counting pass. */
  method CountDigits(x: nat, r: Radix) returns (n: nat)
    ensures n == |Digits(x, r)|
  {
    var b := x;
    n := 0;
    while b > 0
      invariant n + |Digits(b, r)| == |Digits(x, r)|
    {
      n := n + 1;
      b := Quotient(b, r);
    }
  }

  /** `d` written over `was` from index `start` on. */
  function Overlay(was: seq<Byte>, start: nat, d: seq<Byte>): seq<Byte>
    requires start + |d| <= |was|
  {
    was[..start] + d + was[start + |d|..]
  }

  lemma OverlayIs(now: seq<Byte>, was: seq<Byte>, start: nat, d: seq<Byte>)
    requires start + |d| <= |was| == |now|
    requires forall k :: 0 <= k < |now| ==> now[k] == if start <= k < start + |d| then d[k - start] else was[k]
    ensures now == Overlay(was, start, d)
  {
  }

  lemma LastDigit(d: seq<Byte>, a: nat, r: Radix)
    requires a > 0 && |Digits(a, r)| <= |d| && d[..|Digits(a, r)|] == Digits(a, r)
    ensures var m := |Digits(a, r)|;
      && m == |Digits(Quotient(a, r), r)| + 1
      && d[m - 1] == DigitChar(Remainder(a, r))
      && d[..m - 1] == Digits(Quotient(a, r), r)
  {
    var m := |Digits(a, r)|;
    assert d[m - 1] == d[..m][m - 1];
    assert d[..m - 1] == d[..m][..m - 1];
  }

  /** The filling pass, backwards from `end`. It fails if it would write outside the buffer. */
  method FillDigits(res: array<Byte>, end: nat, x: nat, r: Radix) returns (ok: bool)
    requires x > 0
    modifies res
    ensures ok <==> |Digits(x, r)| <= end <= res.Length
    ensures ok ==> res[..] == Overlay(old(res[..]), end - |Digits(x, r)|, Digits(x, r))
  {
    ghost var d := Digits(x, r);
    ghost var start, m := end - |d|, |d|;
    var a, indx := x, end;
    assert d[..m] == d;
    while a > 0
      invariant 0 <= indx <= end && indx == start + m && m <= |d|
      invariant end > res.Length ==> a == x && indx == end
      invariant m == |Digits(a, r)| && d[..m] == Digits(a, r)
      invariant forall k :: 0 <= k < res.Length ==> res[k] == if indx <= k < end then d[k - start] else old(res[k])
      decreases a
    {
      LastDigit(d, a, r);
      if indx == 0 || indx > res.Length {
        return false;
      }
      indx, m := indx - 1, m - 1;
      res[indx] := DigitChar(Remainder(a, r));
      a := Quotient(a, r);
    }
    ok := true;
    OverlayIs(res[..], old(res[..]), start, d);
  }

  // ---------- the formatters ----------

  const INT64_MIN := -0x8000_0000_0000_0000

  /** Signed decimal. Negating the least int64 overflows, so it is excluded. */
  method Itos(n: int) returns (data: seq<Byte>)
    requires INT64_MIN < n < -INT64_MIN
    ensures IsText(data, Decimal(n))
  {
    var res := new Byte[BUFFER](_ => 0);
    if n == 0 {
      res[0] := ZERO;
      ZeroText(res[..]);
      return res[..];
    }
    var a, indx := n, 0;
    ghost var sign: seq<Byte> := [];
    if a < 0 {
      res[indx] := MINUS;
      sign := [MINUS];
      indx := indx + 1;
      a := -a;
    }
    assert Decimal(n) == sign + Digits(a, Ten);
    assert res[..indx] == sign;
    WriteDigits(res, sign, indx, a);
    data := res[..];
  }

  /** Counting pass and filling pass after what has been written already. */
  method WriteDigits(res: array<Byte>, ghost prefix: seq<Byte>, indx: nat, a: Word)
    requires res.Length == BUFFER && a > 0 && indx == |prefix| <= 1 && 0 !in prefix
    requires res[..indx] == prefix && forall k :: indx <= k < BUFFER ==> res[k] == 0
    modifies res
    ensures IsText(res[..], prefix + Digits(a, Ten))
  {
    WordDigits(a);
    var count := CountDigits(a, Ten);
    ghost var was := res[..];
    var ok := FillDigits(res, indx + count, a, Ten);
    OverlaidText(res[..], was, prefix, Digits(a, Ten));
  }

  /** Digits written after a prefix into an otherwise zeroed buffer. */
  lemma OverlaidText(data: seq<Byte>, was: seq<Byte>, prefix: seq<Byte>, d: seq<Byte>)
    requires |was| == BUFFER && |prefix| + |d| < BUFFER && 0 !in prefix && 0 !in d
    requires was[..|prefix|] == prefix && forall k :: |prefix| <= k < BUFFER ==> was[k] == 0
    requires data == Overlay(was, |prefix|, d)
    ensures IsText(data, prefix + d)
  {
    assert data[..|prefix| + |d|] == prefix + d;
  }

  lemma ZeroText(data: seq<Byte>)
    requires |data| == BUFFER && data[0] == ZERO && forall k :: 1 <= k < BUFFER ==> data[k] == 0
    ensures IsText(data, Decimal(0))
  {
    assert data[..1] == [ZERO];
  }

  /** Unsigned decimal. */
  method Utos(a: Word) returns (data: seq<Byte>)
    ensures IsText(data, Decimal(a))
  {
    var res := new Byte[BUFFER](_ => 0);
    if a == 0 {
      res[0] := ZERO;
      ZeroText(res[..]);
      return res[..];
    }
    WriteDigits(res, [], 0, a);
    data := res[..];
    assert [] + Digits(a, Ten) == Digits(a, Ten);
  }

  const HEX_PREFIX: seq<Byte> := [ZERO, 120]
  const BINARY_PREFIX: seq<Byte> := [ZERO, 98]

  /** Zero under a negative padding has no digit at all. */
  function HexText(x: nat, padding: int): (s: seq<Byte>)
    ensures 0 !in s
  {
    HEX_PREFIX + if x == 0 && padding < 0 then [] else Field(x, Sixteen, padding)
  }

  /** After the prefix: the number in base sixteen, at least `padding` digits, wider only if
      needed; zero under a negative padding has no digit. */
  predicate SaysHex(s: seq<Byte>, x: nat, padding: int) {
    && |s| >= 2 && s[0] == 48 && s[1] == 120
    && if x == 0 && padding < 0 then |s| == 2 else IsField(s[2..], Sixteen, x, padding)
  }

  lemma HexMeaning(x: nat, padding: int)
    ensures SaysHex(HexText(x, padding), x, padding)
  {
    var field := if x == 0 && padding < 0 then [] else Field(x, Sixteen, padding);
    FieldSpells(x, Sixteen, padding);
    AfterPrefix(field);
  }

  lemma AfterPrefix(field: seq<Byte>)
    ensures var s := HEX_PREFIX + field; |s| == 2 + |field| && s[0] == 48 && s[1] == 120 && s[2..] == field
  {
  }

  /** Writes `n` zeros from index 2 on, last first. It fails if it would write past the buffer. */
  method FillZeros(res: array<Byte>, n: int) returns (ok: bool)
    requires res.Length >= 2
    modifies res
    ensures ok <==> n <= res.Length - 2
    ensures ok ==> forall k :: 0 <= k < res.Length ==> res[k] == if 2 <= k < 2 + n then ZERO else old(res[k])
  {
    var padding := n;
    while padding > 0
      invariant padding <= n
      invariant padding >= 0 || padding == n
      invariant n > res.Length - 2 ==> padding == n
      invariant forall k :: 0 <= k < res.Length ==>
        res[k] == if 2 + padding <= k < 2 + n && 2 <= k then ZERO else old(res[k])
    {
      if 1 + padding >= res.Length {
        return false;
      }
      res[1 + padding] := ZERO;
      padding := padding - 1;
    }
    ok := true;
  }

  /** Digits that end `width` characters after a two-character prefix: zero-filled if they
      are fewer, over the prefix if they are more. */
  function Laid(prefix: seq<Byte>, width: nat, d: seq<Byte>): (s: seq<Byte>)
    requires |prefix| == 2 && |d| <= 2 + width
    ensures |s| == 2 + width
    ensures 0 !in prefix && 0 !in d ==> 0 !in s
  {
    if |d| <= width then prefix + (Zeros(width - |d|) + d) else prefix[..2 + width - |d|] + d
  }

  function WidthOf(count: nat, padding: int): nat {
    if padding < count then count else padding
  }

  /** Zero fill and digit fill after a two-character prefix, with the digit count that the
      counting pass arrived at. */
  method WriteField(res: array<Byte>, ghost prefix: seq<Byte>, count: nat, padding: int, x: nat, r: Radix)
    returns (ok: bool)
    requires |prefix| == 2 && 0 !in prefix && count <= |Digits(x, r)| <= 64 && x > 0
    requires IsText(res[..], prefix)
    modifies res
    ensures var width := WidthOf(count, padding);
      && (ok <==> |Digits(x, r)| <= 2 + width <= BUFFER)
      && (ok ==> IsText(res[..], Laid(prefix, width, Digits(x, r))))
  {
    var width := WidthOf(count, padding);
    ok := FillZeros(res, padding - count);
    if !ok {
      return;
    }
    ghost var d := Digits(x, r);
    ghost var was := res[..];
    ZeroFilled(old(res[..]), was, prefix, padding - count);
    ok := FillDigits(res, 2 + width, x, r);
    if ok {
      FieldWritten(was, res[..], prefix, width, padding - count, d);
    }
  }

  /** The buffer holds the prefix, then `n` zeros, then NULs. */
  ghost predicate ZeroField(data: seq<Byte>, prefix: seq<Byte>, n: int) {
    && |data| == BUFFER
    && |prefix| == 2
    && data[0] == prefix[0] && data[1] == prefix[1]
    && forall k :: 2 <= k < BUFFER ==> data[k] == if k < 2 + n then ZERO else 0
  }

  lemma ZeroFilled(was: seq<Byte>, now: seq<Byte>, prefix: seq<Byte>, n: int)
    requires |prefix| == 2 && IsText(was, prefix) && |now| == BUFFER
    requires forall k :: 0 <= k < BUFFER ==> now[k] == if 2 <= k < 2 + n then ZERO else was[k]
    ensures ZeroField(now, prefix, n)
  {
    assert was[0] == was[..2][0] && was[1] == was[..2][1];
  }

  /** Where the digits `d` end up, written over the zeros or over the prefix. */
  lemma FieldWritten(was: seq<Byte>, now: seq<Byte>, prefix: seq<Byte>, width: nat, n: int, d: seq<Byte>)
    requires ZeroField(was, prefix, n) && 0 !in prefix && 0 !in d && |d| <= 2 + width <= BUFFER
    requires width - |d| <= n <= width || (n <= 0 && width <= |d|)
    requires now == Overlay(was, 2 + width - |d|, d)
    ensures IsText(now, Laid(prefix, width, d))
  {
    BeforeDigits(was, prefix, width, n, d);
    DigitsWritten(was, now, 2 + width - |d|, d);
  }

  lemma BeforeDigits(was: seq<Byte>, prefix: seq<Byte>, width: nat, n: int, d: seq<Byte>)
    requires ZeroField(was, prefix, n) && |d| <= 2 + width <= BUFFER
    requires width - |d| <= n <= width || (n <= 0 && width <= |d|)
    ensures Laid(prefix, width, d) == was[..2 + width - |d|] + d
    ensures forall k :: 2 + width <= k < BUFFER ==> was[k] == 0
  {
    var start := 2 + width - |d|;
    if |d| <= width {
      PrefixAndZeros(was, prefix, n, width - |d|);
      assert prefix + (Zeros(width - |d|) + d) == (prefix + Zeros(width - |d|)) + d;
    } else {
      assert was[..start] == prefix[..start];
    }
  }

  lemma PrefixAndZeros(was: seq<Byte>, prefix: seq<Byte>, n: int, m: nat)
    requires ZeroField(was, prefix, n) && m <= 126 && (m <= n || m == 0)
    ensures was[..2 + m] == prefix + Zeros(m)
  {
    ZerosAre(m, was[2..2 + m]);
    assert was[..2 + m] == prefix + was[2..2 + m];
  }

  lemma DigitsWritten(was: seq<Byte>, now: seq<Byte>, start: nat, d: seq<Byte>)
    requires |was| == BUFFER && start + |d| <= BUFFER && 0 !in was[..start] + d
    requires now == Overlay(was, start, d) && forall k :: start + |d| <= k < BUFFER ==> was[k] == 0
    ensures IsText(now, was[..start] + d)
  {
  }

  /** The branch of `itox` for zero: `padding` zeros, or one if no padding is asked for. */
  method HexZero(res: array<Byte>, padding: int) returns (ok: bool)
    requires res.Length == BUFFER && IsText(res[..], HEX_PREFIX)
    modifies res
    ensures ok <==> padding <= 126
    ensures ok ==> IsText(res[..], HexText(0, padding))
  {
    var indx := 2;
    ZeroFilled(res[..], res[..], HEX_PREFIX, 0);
    while indx < padding + 2
      invariant 2 <= indx <= BUFFER && (indx <= padding + 2 || indx == 2)
      invariant res.Length == BUFFER && ZeroField(res[..], HEX_PREFIX, indx - 2)
    {
      if indx >= BUFFER {
        return false;
      }
      res[indx] := ZERO;
      indx := indx + 1;
    }
    if padding == 0 {
      res[indx] := ZERO;
      indx := indx + 1;
    }
    ok := true;
    ZeroFieldText(res[..], HEX_PREFIX, indx - 2);
    assert padding >= 0 ==> Field(0, Sixteen, padding) == Zeros(indx - 2);
    assert padding < 0 ==> Zeros(indx - 2) == [];
  }

  lemma ZeroFieldText(data: seq<Byte>, prefix: seq<Byte>, n: nat)
    requires ZeroField(data, prefix, n) && 0 !in prefix && n <= 126
    ensures IsText(data, prefix + Zeros(n))
  {
    ZerosAre(n, data[2..2 + n]);
    assert data[..2 + n] == prefix + data[2..2 + n];
  }

  lemma PrefixText(data: seq<Byte>, prefix: seq<Byte>)
    requires ZeroField(data, prefix, 0) && 0 !in prefix
    ensures IsText(data, prefix)
  {
    assert data[..2] == prefix;
  }

  /** Counting digits decrements the padding, which is an `int` and must not overflow. */
  predicate CountsDown(padding: int) {
    -0x8000_0000 + 64 <= padding
  }

  /** Hexadecimal with a prefix, zero-filled to `padding` digits. `None` stands for a write
      outside the buffer. */
  method Itox(x: Word, padding: int) returns (r: Option<seq<Byte>>)
    requires CountsDown(padding)
    ensures r.Some? <==> padding <= 126
    ensures r.Some? ==> IsText(r.value, HexText(x, padding))
  {
    var res := new Byte[BUFFER](_ => 0);
    res[0], res[1] := ZERO, 120;
    PrefixText(res[..], HEX_PREFIX);
    var ok;
    if x == 0 {
      ok := HexZero(res, padding);
    } else {
      WordDigits(x);
      var count := CountDigits(x, Sixteen);
      ok := WriteField(res, HEX_PREFIX, count, padding, x, Sixteen);
    }
    r := if ok then Some(res[..]) else None;
  }

  /** Conversion to `int`: the low 32 bits read as a signed number. */
  function ToInt32(x: nat): int {
    var low := x % 0x1_0000_0000;
    if low < 0x8000_0000 then low else low - 0x1_0000_0000
  }

  function BinaryText(x: nat, padding: int): (s: seq<Byte>)
    ensures 0 !in s
  {
    BINARY_PREFIX + Field(x, Two, padding)
  }

  /** When `itob` writes the padded binary numeral of its argument. */
  predicate ItobFits(x: Word, padding: int) {
    0 < x && padding <= 126 && (x < 0x8000_0000 || |Digits(x, Two)| <= padding)
  }

  /** The digits that `itob` counts: those of the truncated argument, if it is positive. */
  function ItobCount(x: Word): nat {
    var b := ToInt32(x);
    |Digits(if b > 0 then b else 0, Two)|
  }

  /** When `itob` stays within its buffer. */
  predicate ItobInBuffer(x: Word, padding: int) {
    if x == 0 then padding <= 128
    else |Digits(x, Two)| <= 2 + WidthOf(ItobCount(x), padding) <= 128
  }

  /** The text `itob` leaves there: zero has no digit of its own, and digits that were not
      counted run into the prefix. */
  function ItobText(x: Word, padding: int): (s: seq<Byte>)
    requires ItobInBuffer(x, padding)
    ensures 0 !in s && |s| <= BUFFER
  {
    if x == 0 then BINARY_PREFIX + Zeros(padding - 2)
    else Laid(BINARY_PREFIX, WidthOf(ItobCount(x), padding), Digits(x, Two))
  }

  /** Counting the digits of the truncated argument never counts too many, and counts them
      all exactly when nothing was cut off. */
  lemma TruncatedCount(x: Word)
    requires x > 0
    ensures ItobCount(x) <= |Digits(x, Two)|
    ensures ItobCount(x) == |Digits(x, Two)| <==> x < 0x8000_0000
    ensures ItobCount(x) <= 31
  {
    var b := ToInt32(x);
    var p := if b > 0 then b else 0;
    PositivePart(x, p);
    LargePowers();
    DigitCount(p, Two, 31);
    DigitCount(x, Two, 31);
  }

  lemma PositivePart(x: Word, p: nat)
    requires p == if ToInt32(x) > 0 then ToInt32(x) else 0
    ensures p < 0x8000_0000 && (p == x <==> x < 0x8000_0000)
  {
  }

  /** The text is the padded binary numeral exactly when that fits. */
  lemma ItobExactness(x: Word, padding: int)
    ensures ItobFits(x, padding) <==> ItobInBuffer(x, padding) && ItobText(x, padding) == BinaryText(x, padding)
  {
    if x > 0 {
      TruncatedCount(x);
      WordDigits(x);
      NoLeadingZero(x, Two);
      if ItobInBuffer(x, padding) {
        LaidIsPrefixed(x, WidthOf(ItobCount(x), padding), padding);
      }
    } else {
      assert |Field(0, Two, padding)| > |Zeros(padding - 2)|;
    }
  }

  lemma LaidIsPrefixed(x: Word, width: nat, padding: int)
    requires x > 0 && Digits(x, Two) != [] && Digits(x, Two)[0] == ZERO + 1 && |Digits(x, Two)| <= 2 + width
    requires width == padding || (padding < width <= |Digits(x, Two)|)
    ensures Laid(BINARY_PREFIX, width, Digits(x, Two)) == BinaryText(x, padding) <==> |Digits(x, Two)| <= width
  {
    var d := Digits(x, Two);
    var start := 2 + width - |d|;
    if width < |d| {
      assert Laid(BINARY_PREFIX, width, d)[start] == ZERO + 1;
      assert BinaryText(x, padding)[start] != ZERO + 1;
    } else {
      assert Zeros(width - |d|) == Zeros(padding - |d|);
    }
  }

  /** The number of digits of the positive part of the argument as an `int`. */
  lemma ItobCounts(x: Word, n: nat)
    ensures ItobCount(x) <= n <==> ToInt32(x) < Power(Two, n)
  {
    var b := ToInt32(x);
    DigitCount(if b > 0 then b else 0, Two, n);
    PowerPositive(Two, n);
  }

  /** The text of `itob` ends with the digits of the number in base two, the first of them 1;
      what is left of the field before them is '0', 'b' and zeros. Zero has no digit. */
  ghost predicate SaysBinary(s: seq<Byte>, x: Word, padding: int) {
    if x == 0 then
      |s| == (if padding < 2 then 2 else padding) && BlankField(s, |s|)
    else
      && |s| == 2 + (if padding < ItobCount(x) then ItobCount(x) else padding)
      && exists m :: 0 <= m < |s| && BlankField(s, m) && Spells(s[m..], Two, x) && s[m] == 49
  }

  /** The first m characters are '0', 'b' and zeros. */
  predicate BlankField(s: seq<Byte>, m: nat) {
    m <= |s| && forall k :: 0 <= k < m ==> s[k] == if k == 1 then 98 else 48
  }

  lemma LaidBlanks(width: nat, d: seq<Byte>)
    requires |d| <= 2 + width
    ensures var s := Laid(BINARY_PREFIX, width, d); var m := 2 + width - |d|;
      BlankField(s, m) && s[m..] == d
  {
    ZerosAreZeros(width - |d|);
  }

  lemma ItobMeaning(x: Word, padding: int)
    requires ItobInBuffer(x, padding)
    ensures SaysBinary(ItobText(x, padding), x, padding)
  {
    if x == 0 {
      ZerosAreZeros(padding - 2);
    } else {
      DigitsSpell(x, Two);
      NoLeadingZero(x, Two);
      LaidBlanks(WidthOf(ItobCount(x), padding), Digits(x, Two));
      var s := ItobText(x, padding);
      var m := |s| - |Digits(x, Two)|;
      assert s[m] == s[m..][0];
    }
  }

  /** Conversion to `int` keeps the residue modulo 2^32. */
  lemma Int32Is(x: nat)
    ensures -0x8000_0000 <= ToInt32(x) < 0x8000_0000 && (ToInt32(x) - x) % 0x1_0000_0000 == 0
  {
    var q := x / 0x1_0000_0000;
    assert x == 0x1_0000_0000 * q + x % 0x1_0000_0000;
  }

  /** Binary with a prefix. `None` stands for a write outside the buffer. */
  method Itob(x: Word, padding: int) returns (r: Option<seq<Byte>>)
    requires CountsDown(padding)
    ensures r.Some? <==> ItobInBuffer(x, padding)
    ensures r.Some? ==> IsText(r.value, ItobText(x, padding))
    ensures r.Some? && IsText(r.value, BinaryText(x, padding)) <==> ItobFits(x, padding)
  {
    var res := new Byte[BUFFER](_ => 0);
    res[0], res[1] := ZERO, 98;
    var ok;
    if x == 0 {
      ok := BinaryZero(res, padding);
    } else {
      PrefixText(res[..], BINARY_PREFIX);
      TruncatedCount(x);
      WordDigits(x);
      var b := ToInt32(x);
      var count := CountDigits(if b > 0 then b else 0, Two);
      ok := WriteField(res, BINARY_PREFIX, count, padding, x, Two);
    }
    r := if ok then Some(res[..]) else None;
    ItobExactness(x, padding);
    if ok {
      OneText(res[..], ItobText(x, padding), BinaryText(x, padding));
    }
  }

  /** The branch of `itob` for zero: zeros up to index `padding`, if any. */
  method BinaryZero(res: array<Byte>, padding: int) returns (ok: bool)
    requires res.Length == BUFFER && ZeroField(res[..], BINARY_PREFIX, 0)
    modifies res
    ensures ok <==> padding <= 128
    ensures ok ==> IsText(res[..], BINARY_PREFIX + Zeros(padding - 2))
  {
    var indx := 2;
    while indx < padding
      invariant 2 <= indx <= BUFFER && (indx <= padding || indx == 2)
      invariant ZeroField(res[..], BINARY_PREFIX, indx - 2)
    {
      if indx >= BUFFER {
        return false;
      }
      res[indx] := ZERO;
      indx := indx + 1;
    }
    ok := true;
    ZeroFieldText(res[..], BINARY_PREFIX, indx - 2);
    assert Zeros(indx - 2) == Zeros(padding - 2);
  }
}
