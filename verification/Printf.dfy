/**
 `vprintf`: the tokens a format string stands for, what they print for a list of
 arguments, and the cursor loop that interprets the string directly.
 */
module Printf {
  import opened Bytes
  import opened Formatters
  import opened Terminal
  import opened VideoDriver
  import opened Words
  import opened Wrappers

  const PERCENT: Byte := 37
  const DOT: Byte := 46
  const COLON: Byte := 58

  /** A value stored in a `uint32_t`. */
  function Wrap32(n: nat): (w: nat)
    ensures w < 0x1_0000_0000 && (n < 0x1_0000_0000 ==> w == n)
  {
    n % 0x1_0000_0000
  }

  datatype Token =
    | Lit(c: Byte)
    | Directive(kind: Byte, padding: Option<nat>)
    | Dangling  // a '%' right before the NUL: the source reads past the string

  predicate IsDigit(c: Byte) {
    ZERO <= c <= 57
  }

  function LeadingDigits(s: seq<Byte>): (n: nat)
    ensures n <= |s| && (forall k :: 0 <= k < n ==> IsDigit(s[k])) && (n < |s| ==> !IsDigit(s[n]))
  {
    if s != [] && IsDigit(s[0]) then 1 + LeadingDigits(s[1..]) else 0
  }

  predicate HasSuffixMark(s: seq<Byte>) {
    |s| >= 2 && s[0] == DOT && s[1] == COLON
  }

  /** The tokens of a format string. */
  function Scan(s: seq<Byte>): seq<Token>
    decreases |s|
  {
    if s == [] then []
    else if s[0] != PERCENT then [Lit(s[0])] + Scan(s[1..])
    else if |s| == 1 then [Dangling]
    else if HasSuffixMark(s[2..]) then
      var n := LeadingDigits(s[4..]);
      [Directive(s[1], Some(Wrap32(Decode(s[4..4 + n], Ten))))] + Scan(s[4 + n..])
    else [Directive(s[1], None)] + Scan(s[2..])
  }

  // ---------- round trip ----------

  function Unparse(tokens: seq<Token>): seq<Byte>
    requires Dangling !in tokens
  {
    if tokens == [] then [] else UnparseToken(tokens[0]) + Unparse(tokens[1..])
  }

  function UnparseToken(t: Token): seq<Byte>
    requires t != Dangling
  {
    match t
    case Lit(c) => [c]
    case Directive(k, None) => [PERCENT, k]
    case Directive(k, Some(n)) => [PERCENT, k, DOT, COLON] + Numeral(n, Ten)
  }

  /** No token swallows the beginning of the next ones. */
  predicate Unambiguous(tokens: seq<Token>) {
    tokens == [] ||
    (&& Unambiguous(tokens[1..])
     && match tokens[0]
        case Lit(c) => c != PERCENT
        case Directive(_, None) => !(|tokens| >= 3 && tokens[1] == Lit(DOT) && tokens[2] == Lit(COLON))
        case Directive(_, Some(n)) => n < 0x1_0000_0000 && !(|tokens| >= 2 && tokens[1].Lit? && IsDigit(tokens[1].c))
        case Dangling => false)
  }

  lemma {:induction false} UnambiguousHasNoDangling(tokens: seq<Token>)
    requires Unambiguous(tokens)
    ensures Dangling !in tokens
    decreases |tokens|
  {
    if tokens != [] {
      UnambiguousHasNoDangling(tokens[1..]);
    }
  }

  lemma {:induction false} DigitsAreDigits(x: nat)
    ensures forall k :: 0 <= k < |Digits(x, Ten)| ==> IsDigit(Digits(x, Ten)[k])
    decreases x
  {
    if x > 0 {
      DigitsAreDigits(Quotient(x, Ten));
    }
  }

  lemma {:induction false} LeadingDigitsAre(d: seq<Byte>, rest: seq<Byte>)
    requires forall k :: 0 <= k < |d| ==> IsDigit(d[k])
    requires rest == [] || !IsDigit(rest[0])
    ensures LeadingDigits(d + rest) == |d|
    decreases |d|
  {
    if d == [] {
      assert d + rest == rest;
    } else {
      assert (d + rest)[1..] == d[1..] + rest;
      LeadingDigitsAre(d[1..], rest);
    }
  }

  lemma NumeralDecodes(x: nat)
    ensures Decode(Numeral(x, Ten), Ten) == x
    ensures forall k :: 0 <= k < |Numeral(x, Ten)| ==> IsDigit(Numeral(x, Ten)[k])
  {
    FieldMeaning(x, Ten, 0);
    assert Zeros(0 - |Numeral(x, Ten)|) + Numeral(x, Ten) == Numeral(x, Ten);
    DigitsAreDigits(x);
  }

  lemma ScanBare(k: Byte, rest: seq<Byte>)
    requires !HasSuffixMark(rest)
    ensures Scan([PERCENT, k] + rest) == [Directive(k, None)] + Scan(rest)
  {
    assert ([PERCENT, k] + rest)[2..] == rest;
  }

  lemma ScanPadded(k: Byte, d: seq<Byte>, rest: seq<Byte>)
    requires forall j :: 0 <= j < |d| ==> IsDigit(d[j])
    requires rest == [] || !IsDigit(rest[0])
    ensures Scan([PERCENT, k, DOT, COLON] + d + rest) == [Directive(k, Some(Wrap32(Decode(d, Ten))))] + Scan(rest)
  {
    PaddedSlices(k, d, rest);
    LeadingDigitsAre(d, rest);
  }

  lemma PaddedSlices(k: Byte, d: seq<Byte>, rest: seq<Byte>)
    ensures var s := [PERCENT, k, DOT, COLON] + d + rest;
      && |s| >= 4 && s[0] == PERCENT && s[1] == k && HasSuffixMark(s[2..])
      && s[4..] == d + rest && s[4..4 + |d|] == d && s[4 + |d|..] == rest
  {
  }

  lemma ScanDirective(k: Byte, padding: Option<nat>, rest: seq<Byte>)
    requires padding.None? ==> !HasSuffixMark(rest)
    requires padding.Some? ==> padding.value < 0x1_0000_0000 && (rest == [] || !IsDigit(rest[0]))
    ensures Scan(UnparseToken(Directive(k, padding)) + rest) == [Directive(k, padding)] + Scan(rest)
  {
    if padding.None? {
      assert UnparseToken(Directive(k, padding)) == [PERCENT, k];
      ScanBare(k, rest);
    } else {
      var d := Numeral(padding.value, Ten);
      assert UnparseToken(Directive(k, padding)) == [PERCENT, k, DOT, COLON] + d;
      NumeralDecodes(padding.value);
      ScanPadded(k, d, rest);
    }
  }

  /** How the text of a token list begins tells how the list begins. */
  lemma UnparseStart(tokens: seq<Token>)
    requires Dangling !in tokens
    ensures Unparse(tokens) == [] <==> tokens == []
    ensures tokens != [] ==> Unparse(tokens)[0] == if tokens[0].Lit? then tokens[0].c else PERCENT
    ensures |tokens| >= 1 && tokens[0].Lit? ==> Unparse(tokens)[1..] == Unparse(tokens[1..])
  {
  }

  /** Scanning the text of a token list gives back the list. */
  lemma {:induction false} ScanUnparse(tokens: seq<Token>)
    requires Unambiguous(tokens)
    ensures Dangling !in tokens && Scan(Unparse(tokens)) == tokens
    decreases |tokens|
  {
    UnambiguousHasNoDangling(tokens);
    if tokens != [] {
      ScanUnparse(tokens[1..]);
      ScanUnparseFirst(tokens);
    }
  }

  lemma ScanUnparseFirst(tokens: seq<Token>)
    requires Unambiguous(tokens) && tokens != [] && Dangling !in tokens
    ensures Scan(Unparse(tokens)) == [tokens[0]] + Scan(Unparse(tokens[1..]))
  {
    var rest := tokens[1..];
    if tokens[0].Lit? {
      ScanLiteral(tokens[0].c, Unparse(rest));
    } else {
      NothingSwallowed(rest);
      ScanDirective(tokens[0].kind, tokens[0].padding, Unparse(rest));
    }
  }

  /** The text starts like a padding suffix, or with a digit, only if the tokens do. */
  lemma NothingSwallowed(rest: seq<Token>)
    requires Dangling !in rest
    ensures HasSuffixMark(Unparse(rest)) ==> |rest| >= 2 && rest[0] == Lit(DOT) && rest[1] == Lit(COLON)
    ensures Unparse(rest) == [] || !IsDigit(Unparse(rest)[0]) || (rest != [] && rest[0].Lit? && IsDigit(rest[0].c))
  {
    UnparseStart(rest);
    if rest != [] {
      UnparseStart(rest[1..]);
    }
  }

  /** Scanning any string without a dangling '%' gives an unambiguous token list, so those
      lists are exactly the ones format strings stand for. */
  lemma {:induction false} ScanIsUnambiguous(s: seq<Byte>)
    requires Dangling !in Scan(s)
    ensures Unambiguous(Scan(s))
    decreases |s|
  {
    if s != [] {
      var tokens := Scan(s);
      var rest := ScannedRest(s);
      assert tokens[1..] == Scan(rest);
      ScanIsUnambiguous(rest);
      ScanStart(rest);
      if rest != [] {
        ScanStart(rest[1..]);
      }
    }
  }

  /** What is left of a non-empty format string after its first token. */
  function ScannedRest(s: seq<Byte>): (rest: seq<Byte>)
    requires s != []
    ensures |rest| < |s|
  {
    if s[0] != PERCENT || |s| == 1 then s[1..]
    else if HasSuffixMark(s[2..]) then s[4 + LeadingDigits(s[4..])..]
    else s[2..]
  }

  lemma ScanStart(s: seq<Byte>)
    ensures s == [] <==> Scan(s) == []
    ensures s != [] && Scan(s)[0].Lit? ==> s[0] == Scan(s)[0].c && Scan(s)[1..] == Scan(s[1..])
  {
  }

  // ---------- what tokens print ----------

  datatype Arg = CharArg(w: int) | IntArg(i: int) | WordArg(l: Word) | StrArg(s: seq<Byte>)

  const INVALID: seq<Byte> := [
    73, 110, 118, 97, 108, 105, 100, 32, 112, 114, 105, 110, 116, 102, 32,
    115, 112, 101, 99, 105, 102, 105, 101, 114, 33, 33, 33, 10
  ]

  datatype Conversion = Char | Signed | Unsigned | Hex | Binary | Pointer | Str | Percent | Invalid

  function ConversionOf(kind: Byte): Conversion {
    if kind == 99 then Char
    else if kind == 100 then Signed
    else if kind == 117 then Unsigned
    else if kind == 120 then Hex
    else if kind == 98 then Binary
    else if kind == 112 then Pointer
    else if kind == 115 then Str
    else if kind == PERCENT then Percent
    else Invalid
  }

  predicate TakesArg(c: Conversion) {
    c != Percent && c != Invalid
  }

  /** The argument has the type the conversion reads, and a value the formatter handles. */
  predicate Fits(c: Conversion, padding: nat, a: Arg) {
    match c
    case Char => a.CharArg?
    case Signed => a.IntArg? && INT64_MIN < a.i < -INT64_MIN
    case Unsigned => a.WordArg?
    case Hex => a.WordArg? && CountsDown(ToInt32(padding)) && |HexText(a.l, ToInt32(padding))| < BUFFER
    case Binary =>
      && a.WordArg?
      && CountsDown(ToInt32(padding))
      && ItobInBuffer(a.l, ToInt32(padding))
      && |ItobText(a.l, ToInt32(padding))| < BUFFER
    case Pointer => a.WordArg?
    case Str => a.StrArg? && 0 !in a.s
    case Percent => false
    case Invalid => false
  }

  /** What a conversion prints for its argument. */
  function Converted(c: Conversion, padding: nat, a: Arg): seq<Byte>
    requires TakesArg(c) && Fits(c, padding, a)
  {
    match c
    case Char => [a.w % 256]
    case Signed => Decimal(a.i)
    case Unsigned => Decimal(a.l)
    case Hex => HexText(a.l, ToInt32(padding))
    case Binary => ItobText(a.l, ToInt32(padding))
    case Pointer => HexText(a.l, 16)
    case Str => a.s
  }

  function PaddingOf(t: Token): nat
    requires t.Directive?
  {
    if t.padding.Some? then t.padding.value else 0
  }

  /** Number of arguments a token consumes. */
  function Consumes(t: Token): nat {
    if t.Directive? && TakesArg(ConversionOf(t.kind)) then 1 else 0
  }

  /** The arguments suit the tokens, in order; arguments may be left over. */
  predicate Matches(tokens: seq<Token>, args: seq<Arg>) {
    tokens == [] ||
    (&& tokens[0] != Dangling
     && Consumes(tokens[0]) <= |args|
     && (Consumes(tokens[0]) == 1 ==> Fits(ConversionOf(tokens[0].kind), PaddingOf(tokens[0]), args[0]))
     && Matches(tokens[1..], args[Consumes(tokens[0])..]))
  }

  function Printed(t: Token, args: seq<Arg>): seq<Byte>
    requires Matches([t], args)
  {
    match t
    case Lit(c) => [c]
    case Directive(kind, _) =>
      if ConversionOf(kind) == Percent then [PERCENT]
      else if ConversionOf(kind) == Invalid then INVALID
      else Converted(ConversionOf(kind), PaddingOf(t), args[0])
  }

  /** The concatenated renderings of all tokens. */
  function Rendering(tokens: seq<Token>, args: seq<Arg>): seq<Byte>
    requires Matches(tokens, args)
  {
    if tokens == [] then []
    else Printed(tokens[0], args) + Rendering(tokens[1..], args[Consumes(tokens[0])..])
  }

  function Consumed(tokens: seq<Token>): nat {
    if tokens == [] then 0 else Consumes(tokens[0]) + Consumed(tokens[1..])
  }

  // ---------- what each format character prints ----------

  /** `s` starts with a directive of kind k, bare or with a padding that is p as an `int`, and
      goes on with `rest`. */
  ghost predicate Directs(s: seq<Byte>, k: Byte, p: int, rest: seq<Byte>) {
    || (s == [37, k] + rest && !(|rest| >= 2 && rest[0] == 46 && rest[1] == 58) && p == 0)
    || exists d: seq<Byte> :: PaddedBy(s, k, d, rest) && IsPadding(d, p)
  }

  predicate PaddedBy(s: seq<Byte>, k: Byte, d: seq<Byte>, rest: seq<Byte>) {
    && s == [37, k, 46, 58] + d + rest
    && (forall i :: 0 <= i < |d| ==> 48 <= d[i] <= 57)
    && (rest == [] || !(48 <= rest[0] <= 57))
  }

  predicate IsPadding(d: seq<Byte>, p: int) {
    -0x8000_0000 <= p < 0x8000_0000 && (p - Decode(d, Ten)) % 0x1_0000_0000 == 0
  }

  /** The seven characters that take an argument: c, d, u, x, b, p and s. */
  predicate Takes(k: Byte) {
    k == 99 || k == 100 || k == 117 || k == 120 || k == 98 || k == 112 || k == 115
  }

  predicate Suits(k: Byte, p: int, a: Arg) {
    if k == 99 then a.CharArg?
    else if k == 100 then a.IntArg? && -0x8000_0000_0000_0000 < a.i < 0x8000_0000_0000_0000
    else if k == 117 then a.WordArg?
    else if k == 120 then a.WordArg? && -0x8000_0000 + 64 <= p <= 125
    else if k == 98 then a.WordArg? && CountsDown(p) && ItobInBuffer(a.l, p) && |ItobText(a.l, p)| < 128
    else if k == 112 then a.WordArg?
    else k == 115 && a.StrArg? && 0 !in a.s
  }

  /** `out` is what the format character k prints for the argument. */
  ghost predicate Says(k: Byte, p: int, a: Arg, out: seq<Byte>) {
    if k == 99 then a.CharArg? && out == [a.w % 256]
    else if k == 100 then a.IntArg? && SaysDecimal(out, a.i)
    else if k == 117 then a.WordArg? && SaysDecimal(out, a.l)
    else if k == 120 then a.WordArg? && SaysHex(out, a.l, p)
    else if k == 98 then a.WordArg? && SaysBinary(out, a.l, p)
    else if k == 112 then a.WordArg? && SaysHex(out, a.l, 16)
    else k == 115 && a.StrArg? && out == a.s
  }

  lemma ConversionSuits(k: Byte, padding: nat, a: Arg)
    requires Takes(k)
    ensures TakesArg(ConversionOf(k))
    ensures Fits(ConversionOf(k), padding, a) <==> Suits(k, ToInt32(padding), a)
  {
    if a.WordArg? {
      HexLength(a.l, ToInt32(padding));
    }
  }

  lemma ConversionSays(k: Byte, padding: nat, a: Arg)
    requires Takes(k) && TakesArg(ConversionOf(k)) && Fits(ConversionOf(k), padding, a)
    ensures Says(k, ToInt32(padding), a, Converted(ConversionOf(k), padding, a))
  {
    var p := ToInt32(padding);
    match ConversionOf(k)
    case Char =>
    case Signed =>
      DecimalSpells(a.i);
    case Unsigned =>
      DecimalSpells(a.l);
    case Hex =>
      HexMeaning(a.l, p);
    case Binary =>
      ItobMeaning(a.l, p);
    case Pointer =>
      HexMeaning(a.l, 16);
    case Str =>
  }

  lemma PaddingIs(v: nat, p: int)
    requires -0x8000_0000 <= p < 0x8000_0000 && (p - v) % 0x1_0000_0000 == 0
    ensures ToInt32(Wrap32(v)) == p
  {
    var q := v / 0x1_0000_0000;
    assert v == 0x1_0000_0000 * q + Wrap32(v);
    assert (p - Wrap32(v)) % 0x1_0000_0000 == 0;
  }

  lemma DirectiveScanned(s: seq<Byte>, k: Byte, p: int, rest: seq<Byte>) returns (t: Token)
    requires Directs(s, k, p, rest)
    ensures Scan(s) == [t] + Scan(rest)
    ensures t.Directive? && t.kind == k && ToInt32(PaddingOf(t)) == p
  {
    if s == [37, k] + rest && !(|rest| >= 2 && rest[0] == 46 && rest[1] == 58) && p == 0 {
      ScanBare(k, rest);
      t := Directive(k, None);
    } else {
      var d: seq<Byte> :| PaddedBy(s, k, d, rest) && IsPadding(d, p);
      PaddedScanned(s, k, d, p, rest);
      t := Directive(k, Some(Wrap32(Decode(d, Ten))));
    }
  }

  lemma PaddedScanned(s: seq<Byte>, k: Byte, d: seq<Byte>, p: int, rest: seq<Byte>)
    requires PaddedBy(s, k, d, rest) && IsPadding(d, p)
    ensures Scan(s) == [Directive(k, Some(Wrap32(Decode(d, Ten))))] + Scan(rest)
    ensures ToInt32(Wrap32(Decode(d, Ten))) == p
  {
    ScanPadded(k, d, rest);
    PaddingIs(Decode(d, Ten), p);
  }

  lemma FirstRendered(t: Token, rest: seq<Token>, args: seq<Arg>)
    requires t != Dangling && Consumes(t) <= |args|
    ensures Matches([t] + rest, args) <==> Matches([t], args) && Matches(rest, args[Consumes(t)..])
    ensures Matches([t] + rest, args) ==>
      Rendering([t] + rest, args) == Printed(t, args) + Rendering(rest, args[Consumes(t)..])
    ensures Consumed([t] + rest) == Consumes(t) + Consumed(rest)
  {
    assert ([t] + rest)[1..] == rest && [t][1..] == [];
  }

  /** A directive with an argument: when the arguments suit, and what is then shown first. */
  lemma ArgumentRendered(s: seq<Byte>, k: Byte, p: int, rest: seq<Byte>, args: seq<Arg>)
    requires Directs(s, k, p, rest) && Takes(k)
    ensures Matches(Scan(s), args) <==> args != [] && Suits(k, p, args[0]) && Matches(Scan(rest), args[1..])
    ensures Matches(Scan(s), args) ==> exists out ::
      Says(k, p, args[0], out) && Rendering(Scan(s), args) == out + Rendering(Scan(rest), args[1..])
    ensures Consumed(Scan(s)) == 1 + Consumed(Scan(rest))
  {
    var t := DirectiveScanned(s, k, p, rest);
    NeedsArgument(t, Scan(rest));
    if args != [] {
      FirstRendered(t, Scan(rest), args);
      ConversionSuits(k, PaddingOf(t), args[0]);
      assert [t][1..] == [];
      if Fits(ConversionOf(k), PaddingOf(t), args[0]) {
        ConversionSays(k, PaddingOf(t), args[0]);
      }
    }
  }

  lemma NeedsArgument(t: Token, rest: seq<Token>)
    requires t.Directive? && Takes(t.kind)
    ensures Consumes(t) == 1 && !Matches([t] + rest, [])
    ensures Consumed([t] + rest) == 1 + Consumed(rest)
  {
    assert ([t] + rest)[1..] == rest;
  }

  /** The bytes of a text. */
  function Latin(text: string): (s: seq<Byte>)
    requires forall i :: 0 <= i < |text| ==> text[i] as int < 0x100
  {
    seq(|text|, i requires 0 <= i < |text| => text[i] as int)
  }

  lemma InvalidIs()
    ensures INVALID == Latin("Invalid printf specifier!!!\n")
  {
  }

  /** Any other directive uses no argument: '%' shows itself, the rest an error message. */
  lemma PlainRendered(s: seq<Byte>, k: Byte, p: int, rest: seq<Byte>, args: seq<Arg>)
    requires Directs(s, k, p, rest) && !Takes(k)
    ensures Matches(Scan(s), args) <==> Matches(Scan(rest), args)
    ensures Matches(Scan(s), args) ==>
      Rendering(Scan(s), args)
      == (if k == 37 then [37] else Latin("Invalid printf specifier!!!\n")) + Rendering(Scan(rest), args)
    ensures Consumed(Scan(s)) == Consumed(Scan(rest))
  {
    var t := DirectiveScanned(s, k, p, rest);
    FirstRendered(t, Scan(rest), args);
    InvalidIs();
    assert [t][1..] == [] && args[0..] == args;
  }

  /** Any character but '%' shows itself. */
  lemma CharacterRendered(c: Byte, rest: seq<Byte>, args: seq<Arg>)
    requires c != 37
    ensures Matches(Scan([c] + rest), args) <==> Matches(Scan(rest), args)
    ensures Matches(Scan([c] + rest), args) ==>
      Rendering(Scan([c] + rest), args) == [c] + Rendering(Scan(rest), args)
    ensures Consumed(Scan([c] + rest)) == Consumed(Scan(rest))
  {
    ScanLiteral(c, rest);
    FirstRendered(Lit(c), Scan(rest), args);
    assert [Lit(c)][1..] == [] && args[0..] == args;
  }

  /** "%x" alone shows its argument in hexadecimal. */
  lemma HexAlone(l: Word)
    ensures Matches(Scan([37, 120]), [WordArg(l)])
    ensures SaysHex(Rendering(Scan([37, 120]), [WordArg(l)]), l, 0)
  {
    var s: seq<Byte>, args := [37, 120], [WordArg(l)];
    assert s == [37, 120] + [] && args[1..] == [];
    ArgumentRendered(s, 120, 0, [], args);
    var out :| Says(120, 0, args[0], out) && Rendering(Scan(s), args) == out + Rendering(Scan([]), args[1..]);
    assert out + [] == out;
  }

  // ---------- the interpreter ----------

  /** The switch of `vprintf`; `k` is the position in the argument list. */
  method PrintDirective(printer: Video, kind: Byte, padding: nat, args: seq<Arg>, k: nat) returns (next: nat)
    requires printer.Valid() && k <= |args|
    requires Matches([Directive(kind, Some(padding))], args[k..])
    modifies printer`posHead, printer.videomem, printer.pos
    ensures printer.Valid()
    ensures printer.Lines()
            == Show(old(printer.Lines()), printer.color, Printed(Directive(kind, Some(padding)), args[k..]))
    ensures next == k + Consumes(Directive(kind, Some(padding)))
  {
    next := k;
    match ConversionOf(kind)
    case Char =>
      printer.Putc(args[k].w % 256);
      next := k + 1;
    case Signed =>
      WordDigits(if args[k].i < 0 then -args[k].i else args[k].i);
      var data := Itos(args[k].i);
      PrintBuffer(printer, data, Decimal(args[k].i));
      next := k + 1;
    case Unsigned =>
      WordDigits(args[k].l);
      var data := Utos(args[k].l);
      PrintBuffer(printer, data, Decimal(args[k].l));
      next := k + 1;
    case Hex =>
      HexLength(args[k].l, ToInt32(padding));
      var data := Itox(args[k].l, ToInt32(padding));
      PrintBuffer(printer, data.value, HexText(args[k].l, ToInt32(padding)));
      next := k + 1;
    case Binary =>
      var data := Itob(args[k].l, ToInt32(padding));
      PrintBuffer(printer, data.value, ItobText(args[k].l, ToInt32(padding)));
      next := k + 1;
    case Pointer =>
      HexLength(args[k].l, 16);
      var data := Itox(args[k].l, 16);
      PrintBuffer(printer, data.value, HexText(args[k].l, 16));
      next := k + 1;
    case Str =>
      Terminated(args[k].s);
      printer.WriteStr(args[k].s + [0]);
      next := k + 1;
    case Percent =>
      printer.Putc(PERCENT);
    case Invalid =>
      Terminated(INVALID);
      printer.WriteStr(INVALID + [0]);
  }

  /** Prints the text a formatter has left in its buffer. */
  method PrintBuffer(printer: Video, data: seq<Byte>, ghost text: seq<Byte>)
    requires printer.Valid() && IsText(data, text) && |text| < BUFFER
    modifies printer`posHead, printer.videomem, printer.pos
    ensures printer.Valid() && printer.Lines() == Show(old(printer.Lines()), printer.color, text)
  {
    TextRead(data, text);
    printer.WriteStr(data);
  }

  lemma HexLength(x: Word, padding: int)
    ensures |HexText(x, padding)| < BUFFER <==> padding <= 125
  {
    WordDigits(x);
  }

  lemma Terminated(s: seq<Byte>)
    requires 0 !in s
    ensures 0 in s + [0] && CText(s + [0]) == s
  {
    FirstNul(s + [0], |s|);
  }

  lemma ScanFirst(s: seq<Byte>)
    requires s != []
    ensures Scan(s) != [] && Scan(s)[1..] == Scan(ScannedRest(s))
  {
  }

  /** What has been printed, `done`, and what the tokens to come will print make up `whole`;
      the arguments from `k` on are those to come, up to `total`. */
  ghost predicate Remaining(tokens: seq<Token>, args: seq<Arg>, k: nat, done: seq<Byte>, whole: seq<Byte>, total: nat) {
    && k <= |args|
    && Matches(tokens, args[k..])
    && done + Rendering(tokens, args[k..]) == whole
    && k + Consumed(tokens) == total
  }

  lemma TokenPrinted(tokens: seq<Token>, args: seq<Arg>, k: nat, done: seq<Byte>, whole: seq<Byte>, total: nat)
    requires tokens != [] && Remaining(tokens, args, k, done, whole, total)
    ensures var t := tokens[0];
      && Matches([t], args[k..])
      && Remaining(tokens[1..], args, k + Consumes(t), done + Printed(t, args[k..]), whole, total)
  {
    var t := tokens[0];
    assert [t][1..] == [];
    assert args[k..][Consumes(t)..] == args[k + Consumes(t)..];
    var p, q := Printed(t, args[k..]), Rendering(tokens[1..], args[k + Consumes(t)..]);
    assert done + (p + q) == (done + p) + q;
  }

  lemma ScanLiteral(c: Byte, rest: seq<Byte>)
    requires c != PERCENT
    ensures Scan([c] + rest) == [Lit(c)] + Scan(rest)
  {
    assert ([c] + rest)[1..] == rest;
  }

  lemma LitPrinted(
    c: Byte, rest: seq<Token>, args: seq<Arg>, k: nat, done: seq<Byte>, whole: seq<Byte>, total: nat)
    requires Remaining([Lit(c)] + rest, args, k, done, whole, total)
    ensures Remaining(rest, args, k, done + [c], whole, total)
  {
    TokenPrinted([Lit(c)] + rest, args, k, done, whole, total);
    assert ([Lit(c)] + rest)[1..] == rest;
  }

  lemma ScanLit(s: seq<Byte>)
    requires s != [] && s[0] != PERCENT
    ensures Scan(s) == [Lit(s[0])] + Scan(s[1..])
  {
  }

  lemma NextSlices(s: seq<Byte>, text: seq<Byte>, rest: seq<Byte>, done: seq<Byte>)
    requires text != [] && s == text + rest
    ensures s != [] && s[0] == text[0] && s[1..] == text[1..] + rest
    ensures done + [text[0]] + text[1..] == done + text
  {
  }

  /** A stretch of characters without '%' is printed as it stands. */
  lemma {:induction false} TextPrinted(
    s: seq<Byte>, text: seq<Byte>, rest: seq<Byte>,
    args: seq<Arg>, k: nat, done: seq<Byte>, whole: seq<Byte>, total: nat)
    requires s == text + rest && PERCENT !in text && Remaining(Scan(s), args, k, done, whole, total)
    ensures Remaining(Scan(rest), args, k, done + text, whole, total)
    decreases |text|
  {
    if text == [] {
      assert s == rest && done + text == done;
    } else {
      NextSlices(s, text, rest, done);
      ScanLit(s);
      LitPrinted(s[0], Scan(s[1..]), args, k, done, whole, total);
      TextPrinted(s[1..], text[1..], rest, args, k, done + [text[0]], whole, total);
    }
  }

  /** The padding accumulator: 32-bit, one decimal digit at a time. */
  lemma PaddingStep(d: seq<Byte>, c: Byte)
    requires IsDigit(c)
    ensures Wrap32(Wrap32(Decode(d, Ten)) * 10 + (c - ZERO)) == Wrap32(Decode(d + [c], Ten))
  {
    assert (d + [c])[..|d|] == d;
    WrapStep(Decode(d, Ten), c - ZERO);
  }

  lemma WrapStep(v: nat, d: nat)
    ensures Wrap32(Wrap32(v) * 10 + d) == Wrap32(10 * v + d)
  {
    var q := v / 0x1_0000_0000;
    assert 10 * v + d == Wrap32(v) * 10 + d + 0x1_0000_0000 * (10 * q);
  }

  /** A format directive as the cursor sees it: where it ends and what it says. */
  ghost predicate DirectiveAt(s: seq<Byte>, kind: Byte, padding: nat, len: nat) {
    && 2 <= len <= |s|
    && ScannedRest(s) == s[len..]
    && Scan(s)[0].Directive?
    && Scan(s)[0].kind == kind
    && PaddingOf(Scan(s)[0]) == padding
  }

  lemma BareDirective(s: seq<Byte>)
    requires |s| >= 2 && s[0] == PERCENT && !HasSuffixMark(s[2..])
    ensures DirectiveAt(s, s[1], 0, 2)
  {
  }

  lemma PaddedDirective(s: seq<Byte>, n: nat)
    requires |s| >= 4 && s[0] == PERCENT && s[2] == DOT && s[3] == COLON && n == LeadingDigits(s[4..])
    ensures DirectiveAt(s, s[1], Wrap32(Decode(s[4..4 + n], Ten)), 4 + n)
  {
    assert HasSuffixMark(s[2..]);
  }

  /** A format string as the source has it: characters, then one NUL. */
  predicate Terminates(buf: seq<Byte>) {
    |buf| > 0 && buf[|buf| - 1] == 0 && 0 !in buf[..|buf| - 1]
  }

  lemma AtNul(buf: seq<Byte>, cur: nat)
    requires Terminates(buf) && cur < |buf|
    ensures buf[cur] == 0 <==> cur == |buf| - 1
  {
    if cur < |buf| - 1 {
      assert buf[cur] == buf[..|buf| - 1][cur];
    }
  }

  /** What is left of the format at position `cur`. */
  function Left(buf: seq<Byte>, cur: nat): seq<Byte>
    requires Terminates(buf) && cur < |buf|
  {
    buf[cur..|buf| - 1]
  }

  lemma LeftAfter(buf: seq<Byte>, cur: nat, len: nat)
    requires Terminates(buf) && cur + len < |buf|
    ensures Left(buf, cur + len) == Left(buf, cur)[len..]
  {
  }

  lemma LeftSlice(buf: seq<Byte>, cur: nat, i: nat, j: nat)
    requires Terminates(buf) && i <= j && cur + j < |buf|
    ensures Left(buf, cur)[i..j] == buf[cur + i..cur + j]
  {
    forall x | 0 <= x < j - i
      ensures Left(buf, cur)[i..j][x] == buf[cur + i..cur + j][x]
    {
      assert Left(buf, cur)[i + x] == buf[cur + i + x];
    }
  }

  /** Whether the digits go on is told by the character at hand, the NUL being no digit. */
  lemma DigitsGoOn(buf: seq<Byte>, start: nat, cur: nat)
    requires Terminates(buf) && start < |buf|
    requires start <= cur <= start + LeadingDigits(Left(buf, start))
    ensures cur < |buf| && (IsDigit(buf[cur]) <==> cur < start + LeadingDigits(Left(buf, start)))
  {
    if cur < |buf| - 1 {
      assert Left(buf, start)[cur - start] == buf[cur];
    }
  }

  /** The digits from `start` up to `cur` have been read. */
  ghost predicate PaddingRead(buf: seq<Byte>, start: nat, cur: nat, padding: nat)
    requires Terminates(buf) && start < |buf|
  {
    && start <= cur <= start + LeadingDigits(Left(buf, start))
    && cur < |buf|
    && padding == Wrap32(Decode(buf[start..cur], Ten))
  }

  lemma OneMoreDigit(buf: seq<Byte>, start: nat, cur: nat, padding: nat)
    requires Terminates(buf) && start < |buf| && PaddingRead(buf, start, cur, padding) && IsDigit(buf[cur])
    ensures PaddingRead(buf, start, cur + 1, Wrap32(padding * 10 + (buf[cur] - ZERO)))
  {
    DigitsGoOn(buf, start, cur);
    PaddingStep(buf[start..cur], buf[cur]);
    assert buf[start..cur + 1] == buf[start..cur] + [buf[cur]];
  }

  /** Reads the digits of a padding suffix. */
  method ReadPadding(buf: seq<Byte>, start: nat) returns (padding: nat, end: nat)
    requires Terminates(buf) && start < |buf|
    ensures end == start + LeadingDigits(Left(buf, start)) < |buf|
    ensures padding == Wrap32(Decode(buf[start..end], Ten))
  {
    var cur := start;
    padding := 0;
    while IsDigit(buf[cur])
      invariant cur < |buf| && PaddingRead(buf, start, cur, padding)
      decreases |buf| - cur
    {
      OneMoreDigit(buf, start, cur, padding);
      padding := Wrap32(padding * 10 + (buf[cur] - ZERO));
      cur := cur + 1;
    }
    DigitsGoOn(buf, start, cur);
    end := cur;
  }

  /** Reads one directive, starting at its '%'. No index goes past the NUL. The source's
      test for a NUL after the padding digits cannot succeed: its cursor then rests on ':'
      or on a digit. */
  method ReadDirective(buf: seq<Byte>, start: nat) returns (kind: Byte, padding: nat, end: nat)
    requires Terminates(buf) && start < |buf| - 1 && buf[start] == PERCENT
    requires Dangling !in Scan(Left(buf, start))
    ensures start <= end < |buf| && DirectiveAt(Left(buf, start), kind, padding, end - start)
  {
    ghost var s := Left(buf, start);
    NotDangling(s);
    kind := buf[start + 1];
    if buf[start + 2] == DOT && buf[start + 3] == COLON {
      LeftAfter(buf, start, 4);
      padding, end := ReadPadding(buf, start + 4);
      LeftSlice(buf, start, 4, end - start);
      PaddedDirective(s, end - start - 4);
    } else {
      assert |s| >= 4 ==> s[2] == buf[start + 2] && s[3] == buf[start + 3];
      padding, end := 0, start + 2;
      BareDirective(s);
    }
  }

  lemma NotDangling(s: seq<Byte>)
    requires s != [] && s[0] == PERCENT && Dangling !in Scan(s)
    ensures |s| >= 2
  {
  }

  /** Prints characters up to the next '%' or the NUL. */
  method PrintLiterals(printer: Video, buf: seq<Byte>, start: nat) returns (cur: nat)
    requires printer.Valid() && Terminates(buf) && start < |buf|
    modifies printer`posHead, printer.videomem, printer.pos
    ensures printer.Valid() && start <= cur < |buf| && (buf[cur] == PERCENT || buf[cur] == 0)
    ensures PERCENT !in buf[start..cur]
    ensures printer.Lines() == Show(old(printer.Lines()), printer.color, buf[start..cur])
  {
    ghost var t := printer.Lines();
    cur := start;
    while buf[cur] != PERCENT && buf[cur] != 0
      invariant start <= cur < |buf| && printer.Valid()
      invariant PERCENT !in buf[start..cur]
      invariant printer.Lines() == Show(t, printer.color, buf[start..cur])
      decreases |buf| - cur
    {
      PrintLiteral(printer, buf, start, cur, t);
      cur := cur + 1;
    }
  }

  method PrintLiteral(printer: Video, buf: seq<Byte>, ghost start: nat, cur: nat, ghost t: Screen)
    requires printer.Valid() && start <= cur < |buf|
    requires printer.Lines() == Show(t, printer.color, buf[start..cur])
    modifies printer`posHead, printer.videomem, printer.pos
    ensures printer.Valid() && printer.Lines() == Show(t, printer.color, buf[start..cur + 1])
    ensures buf[start..cur + 1] == buf[start..cur] + [buf[cur]]
  {
    ShowNext(t, printer.color, buf, start, cur);
    printer.Putc(buf[cur]);
  }

  /** Reads and prints the directive at `start`. */
  method PrintOne(printer: Video, buf: seq<Byte>, start: nat, ghost tokens: seq<Token>, args: seq<Arg>, k: nat)
    returns (cur: nat, next: nat)
    requires printer.Valid() && Terminates(buf) && start < |buf| - 1 && buf[start] == PERCENT && k <= |args|
    requires tokens == Scan(Left(buf, start)) && tokens != [] && Dangling !in tokens && Matches([tokens[0]], args[k..])
    modifies printer`posHead, printer.videomem, printer.pos
    ensures printer.Valid() && start < cur < |buf| && tokens[1..] == Scan(Left(buf, cur))
    ensures printer.Lines() == Show(old(printer.Lines()), printer.color, Printed(tokens[0], args[k..]))
    ensures next == k + Consumes(tokens[0])
  {
    var kind, padding, end := ReadDirective(buf, start);
    SamePadding(tokens[0], args[k..]);
    ScanFirst(Left(buf, start));
    LeftAfter(buf, start, end - start);
    next := PrintDirective(printer, kind, padding, args, k);
    cur := end;
  }

  lemma LeftStretch(buf: seq<Byte>, start: nat, cur: nat)
    requires Terminates(buf) && start <= cur < |buf|
    ensures Left(buf, start) == buf[start..cur] + Left(buf, cur)
  {
  }

  /** The literal characters of one round of `vprintf`. */
  method PrintText(
    printer: Video, buf: seq<Byte>, start: nat, ghost args: seq<Arg>, ghost k: nat,
    ghost t: Screen, ghost done: seq<Byte>, ghost whole: seq<Byte>, ghost total: nat)
    returns (cur: nat, ghost done': seq<Byte>)
    requires printer.Valid() && Terminates(buf) && start < |buf|
    requires Remaining(Scan(Left(buf, start)), args, k, done, whole, total)
    requires printer.Lines() == Show(t, printer.color, done)
    modifies printer`posHead, printer.videomem, printer.pos
    ensures printer.Valid() && start <= cur < |buf| && (buf[cur] == PERCENT || buf[cur] == 0)
    ensures Remaining(Scan(Left(buf, cur)), args, k, done', whole, total)
    ensures printer.Lines() == Show(t, printer.color, done')
  {
    cur := PrintLiterals(printer, buf, start);
    ghost var text := buf[start..cur];
    LeftStretch(buf, start, cur);
    TextPrinted(Left(buf, start), text, Left(buf, cur), args, k, done, whole, total);
    ShowConcat(t, printer.color, done, text);
    done' := done + text;
  }

  /** The directive of one round of `vprintf`. */
  method PrintNext(
    printer: Video, buf: seq<Byte>, start: nat, args: seq<Arg>, k: nat,
    ghost t: Screen, ghost done: seq<Byte>, ghost whole: seq<Byte>, ghost total: nat)
    returns (cur: nat, next: nat, ghost done': seq<Byte>)
    requires printer.Valid() && Terminates(buf) && start < |buf| - 1 && buf[start] == PERCENT
    requires Remaining(Scan(Left(buf, start)), args, k, done, whole, total)
    requires printer.Lines() == Show(t, printer.color, done)
    modifies printer`posHead, printer.videomem, printer.pos
    ensures printer.Valid() && start < cur < |buf|
    ensures Remaining(Scan(Left(buf, cur)), args, next, done', whole, total)
    ensures printer.Lines() == Show(t, printer.color, done')
  {
    ghost var tokens := Scan(Left(buf, start));
    ScanFirst(Left(buf, start));
    TokenPrinted(tokens, args, k, done, whole, total);
    MatchesHasNoDangling(tokens, args[k..]);
    ghost var out := Printed(tokens[0], args[k..]);
    cur, next := PrintOne(printer, buf, start, tokens, args, k);
    ShowConcat(t, printer.color, done, out);
    done' := done + out;
  }

  /** One round of `vprintf`: literal characters, then a directive unless the format ends. */
  method PrintRound(
    printer: Video, buf: seq<Byte>, start: nat, args: seq<Arg>, k: nat,
    ghost t: Screen, ghost done: seq<Byte>, ghost whole: seq<Byte>, ghost total: nat)
    returns (cur: nat, next: nat, ghost done': seq<Byte>)
    requires printer.Valid() && Terminates(buf) && start < |buf| && buf[start] != 0
    requires Remaining(Scan(Left(buf, start)), args, k, done, whole, total)
    requires printer.Lines() == Show(t, printer.color, done)
    modifies printer`posHead, printer.videomem, printer.pos
    ensures printer.Valid() && start < cur < |buf|
    ensures Remaining(Scan(Left(buf, cur)), args, next, done', whole, total)
    ensures printer.Lines() == Show(t, printer.color, done')
  {
    cur, done' := PrintText(printer, buf, start, args, k, t, done, whole, total);
    AtNul(buf, cur);
    next := k;
    if buf[cur] != 0 {
      cur, next, done' := PrintNext(printer, buf, cur, args, k, t, done', whole, total);
    }
  }

  /** Interprets a NUL-terminated format: the screen ends up as if the rendering of its
      tokens had been shown, and one argument is used per conversion that takes one. */
  method VPrintf(printer: Video, buf: seq<Byte>, args: seq<Arg>) returns (used: nat)
    requires printer.Valid() && Terminates(buf)
    requires Matches(Scan(Left(buf, 0)), args)
    modifies printer`posHead, printer.videomem, printer.pos
    ensures printer.Valid()
    ensures printer.Lines() == Show(old(printer.Lines()), printer.color, Rendering(Scan(Left(buf, 0)), args))
    ensures used == Consumed(Scan(Left(buf, 0)))
  {
    ghost var t, done := printer.Lines(), [];
    ghost var whole, total := Rendering(Scan(Left(buf, 0)), args), Consumed(Scan(Left(buf, 0)));
    NothingPrinted(Scan(Left(buf, 0)), args);
    var cur := 0;
    used := 0;
    while buf[cur] != 0
      invariant 0 <= cur < |buf| && printer.Valid()
      invariant Remaining(Scan(Left(buf, cur)), args, used, done, whole, total)
      invariant printer.Lines() == Show(t, printer.color, done)
      decreases |buf| - cur
    {
      cur, used, done := PrintRound(printer, buf, cur, args, used, t, done, whole, total);
    }
    AllPrinted(Scan(Left(buf, cur)), args, used, done, whole, total);
  }

  lemma NothingPrinted(tokens: seq<Token>, args: seq<Arg>)
    requires Matches(tokens, args)
    ensures Remaining(tokens, args, 0, [], Rendering(tokens, args), Consumed(tokens))
  {
    assert args[0..] == args;
    assert [] + Rendering(tokens, args) == Rendering(tokens, args);
  }

  lemma AllPrinted(tokens: seq<Token>, args: seq<Arg>, k: nat, done: seq<Byte>, whole: seq<Byte>, total: nat)
    requires Remaining(tokens, args, k, done, whole, total) && tokens == []
    ensures done == whole && k == total
  {
  }

  lemma {:induction false} MatchesHasNoDangling(tokens: seq<Token>, args: seq<Arg>)
    requires Matches(tokens, args)
    ensures Dangling !in tokens
    decreases |tokens|
  {
    if tokens != [] {
      MatchesHasNoDangling(tokens[1..], args[Consumes(tokens[0])..]);
    }
  }

  /** A directive without padding prints as one with padding zero. */
  lemma SamePadding(t: Token, args: seq<Arg>)
    requires t.Directive? && Matches([t], args)
    ensures var u := Directive(t.kind, Some(PaddingOf(t)));
      Matches([u], args) && Printed(u, args) == Printed(t, args) && Consumes(u) == Consumes(t)
  {
    assert [t][1..] == [] && [Directive(t.kind, Some(PaddingOf(t)))][1..] == [];
  }
}
