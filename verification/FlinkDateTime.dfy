/** Parsing of formatted date-times (`flink_unix_timestamp`): the `%`-specifier format and the
    lenient scanner, over bytes and in wrapping machine integers. */
module FlinkDateTime {
  import opened Seqs
  import opened MachineInts
  import opened Calendar

  datatype FieldKind = Year | Month | Day | Hour | Minute | Second

  datatype Token = Field(kind: FieldKind) | Literal(b: byte)

  const PERCENT: byte := 37
  const MINUS: byte := 45

  predicate IsDigit(b: byte) { 48 <= b <= 57 }

  predicate IsBlank(b: byte) { b == 32 || b == 9 }

  /** Window of a field that is directly followed by another field. */
  function Width(kind: FieldKind): nat { if kind == Year then 4 else 2 }

  function Specifier(kind: FieldKind): byte {
    match kind
    case Year => 89
    case Month => 109
    case Day => 100
    case Hour => 72
    case Minute => 77
    case Second => 83
  }

  // ---------------------------------------------------------------------------------------------
  // The format.

  datatype FormatError = DanglingPercent | UnsupportedSpecifier(spec: byte)

  datatype FormatResult = Tokens(tokens: seq<Token>) | Rejected(error: FormatError)

  function RenderToken(t: Token): (r: Bytes)
    ensures r != []
  {
    match t
    case Field(kind) => [PERCENT, Specifier(kind)]
    case Literal(b) => if b == PERCENT then [PERCENT, PERCENT] else [b]
  }

  /** The format that stands for a token list. */
  function Render(tokens: seq<Token>): Bytes {
    if tokens == [] then [] else RenderToken(tokens[0]) + Render(tokens[1..])
  }

  lemma {:induction false} RenderConcat(a: seq<Token>, b: seq<Token>)
    ensures Render(a + b) == Render(a) + Render(b)
  {
    if a == [] {
      assert a + b == b;
    } else {
      assert (a + b)[1..] == a[1..] + b;
      RenderConcat(a[1..], b);
    }
  }

  lemma RenderSnoc(tokens: seq<Token>, t: Token)
    ensures Render(tokens + [t]) == Render(tokens) + RenderToken(t)
  {
    RenderConcat(tokens, [t]);
    assert [t][1..] == [];
  }

  /** No rendered token is a proper prefix of another. */
  lemma RenderTokenPrefix(a: Token, b: Token, x: Bytes, y: Bytes)
    requires RenderToken(a) + x == RenderToken(b) + y
    ensures a == b && x == y
  {
    var l, r := RenderToken(a) + x, RenderToken(b) + y;
    assert l[0] == RenderToken(a)[0] && r[0] == RenderToken(b)[0];
    if l[0] == PERCENT {
      assert l[1] == RenderToken(a)[1] && r[1] == RenderToken(b)[1];
    }
    assert |RenderToken(a)| == |RenderToken(b)|;
    assert x == l[|RenderToken(a)|..] && y == r[|RenderToken(b)|..];
  }

  lemma TokenNotEmpty(t: Token)
    ensures RenderToken(t) != []
  {
  }

  /** A format that starts with the rendering of `a` continues with the rendering of the rest. */
  lemma {:induction false} RenderPrefix(a: seq<Token>, rest: Bytes, ts: seq<Token>)
    requires Render(ts) == Render(a) + rest
    ensures |a| <= |ts| && ts[..|a|] == a && Render(ts[|a|..]) == rest
    decreases |a|
  {
    hide RenderToken;
    if a == [] {
      assert Render(a) + rest == rest;
    } else {
      assert Render(a) + rest == RenderToken(a[0]) + (Render(a[1..]) + rest);
      assert ts != [] by { TokenNotEmpty(a[0]); }
      RenderTokenPrefix(ts[0], a[0], Render(ts[1..]), Render(a[1..]) + rest);
      RenderPrefix(a[1..], rest, ts[1..]);
      assert ts[|a|..] == ts[1..][|a| - 1..];
      assert ts[..|a|] == [ts[0]] + ts[1..][..|a| - 1];
    }
  }

  lemma RenderInjective(a: seq<Token>, b: seq<Token>)
    requires Render(a) == Render(b)
    ensures a == b
  {
    assert Render(b) + [] == Render(b);
    RenderPrefix(b, [], a);
  }

  function SpecifierToken(spec: byte): Option<Token> {
    if spec == 89 then Some(Field(Year))
    else if spec == 109 then Some(Field(Month))
    else if spec == 100 then Some(Field(Day))
    else if spec == 72 then Some(Field(Hour))
    else if spec == 77 then Some(Field(Minute))
    else if spec == 83 then Some(Field(Second))
    else if spec == PERCENT then Some(Literal(PERCENT))
    else None
  }

  lemma StuckAtOnce(rest: Bytes, ts: seq<Token>)
    requires rest != [] && rest[0] == PERCENT
    requires |rest| == 1 || SpecifierToken(rest[1]).None?
    ensures Render(ts) != rest
  {
    if ts != [] {
      assert Render(ts)[0] == RenderToken(ts[0])[0];
      if Render(ts)[0] == PERCENT {
        assert Render(ts)[1] == RenderToken(ts[0])[1];
        assert SpecifierToken(Render(ts)[1]).Some?;
      }
    }
  }

  /** A format the tokenizer stops at is the rendering of no token list. */
  lemma Stuck(tokens: seq<Token>, rest: Bytes, ts: seq<Token>)
    requires rest != [] && rest[0] == PERCENT
    requires |rest| == 1 || SpecifierToken(rest[1]).None?
    ensures Render(ts) != Render(tokens) + rest
  {
    if Render(ts) == Render(tokens) + rest {
      RenderPrefix(tokens, rest, ts);
      StuckAtOnce(rest, ts[|tokens|..]);
    }
  }

  lemma SpecifierRenders(spec: byte)
    requires SpecifierToken(spec).Some?
    ensures RenderToken(SpecifierToken(spec).value) == [PERCENT, spec]
  {
  }

  lemma LiteralRenders(b: byte)
    requires b != PERCENT
    ensures RenderToken(Literal(b)) == [b]
  {
  }

  /** The format begins with the rendering of `ts` and a percent sign. */
  ghost predicate PercentAfter(format: Bytes, ts: seq<Token>) {
    |Render(ts)| < |format| && format[..|Render(ts)|] == Render(ts) && format[|Render(ts)|] == PERCENT
  }

  /** Succeeds exactly on the formats that are renderings, and inverts the rendering. */
  method ParseFormat(format: Bytes) returns (r: FormatResult)
    ensures r.Tokens? ==> Render(r.tokens) == format
    ensures r.Rejected? ==> forall ts :: Render(ts) != format
    ensures r == Rejected(DanglingPercent) ==>
      exists ts :: PercentAfter(format, ts) && |format| == |Render(ts)| + 1
    ensures r.Rejected? && r.error.UnsupportedSpecifier? ==>
      && SpecifierToken(r.error.spec).None?
      && exists ts ::
           PercentAfter(format, ts) && |format| > |Render(ts)| + 1 && format[|Render(ts)| + 1] == r.error.spec
  {
    hide SpecifierToken, RenderToken;
    var tokens := [];
    var i := 0;
    assert format[..0] == [];
    while i < |format|
      invariant 0 <= i <= |format| && Render(tokens) == format[..i]
    {
      assert format == format[..i] + format[i..];
      if format[i] == PERCENT {
        assert PercentAfter(format, tokens);
        if i + 1 >= |format| {
          forall ts ensures Render(ts) != format { Stuck(tokens, format[i..], ts); }
          return Rejected(DanglingPercent);
        }
        var token := SpecifierToken(format[i + 1]);
        if token.None? {
          forall ts ensures Render(ts) != format { Stuck(tokens, format[i..], ts); }
          return Rejected(UnsupportedSpecifier(format[i + 1]));
        }
        RenderSnoc(tokens, token.value);
        SpecifierRenders(format[i + 1]);
        assert RenderToken(token.value) == format[i..i + 2];
        assert format[..i] + format[i..i + 2] == format[..i + 2];
        tokens := tokens + [token.value];
        i := i + 2;
      } else {
        LiteralRenders(format[i]);
        RenderSnoc(tokens, Literal(format[i]));
        SliceSnoc(format, 0, i);
        tokens := tokens + [Literal(format[i])];
        i := i + 1;
      }
    }
    assert format[..i] == format;
    r := Tokens(tokens);
  }

  // ---------------------------------------------------------------------------------------------
  // Wrapping integers.

  lemma WrapI64Shift(x: int, k: int)
    ensures WrapI64(x + k * TWO_64) == WrapI64(x)
  {
    ModShift(x + 0x8000_0000_0000_0000, k, TWO_64);
  }

  /** How far wrapping moved a value. */
  function Turns(x: int): int { -((x + 0x8000_0000_0000_0000) / TWO_64) }

  lemma WrapI64Turns(x: int)
    ensures WrapI64(x) == x + Turns(x) * TWO_64
  {
  }

  lemma WrapStep(m: int, d: int)
    ensures WrapI64(WrapI64(WrapI64(m) * 10) + d) == WrapI64(m * 10 + d)
  {
    WrapI64Turns(m);
    WrapI64Turns(WrapI64(m) * 10);
    var k, j := Turns(m), Turns(WrapI64(m) * 10);
    assert WrapI64(WrapI64(m) * 10) + d == m * 10 + d + (10 * k + j) * TWO_64;
    WrapI64Shift(m * 10 + d, 10 * k + j);
  }

  lemma Narrow(m: int)
    ensures WrapI32(WrapI64(m)) == WrapI32(m)
    ensures WrapI32(WrapI64(-WrapI64(m))) == WrapI32(-m)
  {
    WrapI64Turns(m);
    WrapI64Turns(-WrapI64(m));
    var k, j := Turns(m), Turns(-WrapI64(m));
    assert WrapI64(m) + 0x8000_0000 == m + 0x8000_0000 + (k * TWO_32) * TWO_32;
    ModShift(m + 0x8000_0000, k * TWO_32, TWO_32);
    assert WrapI64(-WrapI64(m)) + 0x8000_0000 == -m + 0x8000_0000 + ((j - k) * TWO_32) * TWO_32;
    ModShift(-m + 0x8000_0000, (j - k) * TWO_32, TWO_32);
  }

  // ---------------------------------------------------------------------------------------------
  // The scanner.

  function Decimal(digits: Bytes): int {
    if digits == [] then 0
    else Decimal(digits[..|digits| - 1]) * 10 + (digits[|digits| - 1] as int - 48)
  }

  lemma DecimalSnoc(input: Bytes, i: nat, j: nat)
    requires i <= j < |input|
    ensures Decimal(input[i..j + 1]) == Decimal(input[i..j]) * 10 + (input[j] as int - 48)
  {
    assert input[i..j + 1][..j - i] == input[i..j];
  }

  function DigitsEnd(input: Bytes, pos: nat, end: nat): (q: nat)
    requires end <= |input|
    ensures pos <= q && (q > pos ==> q <= end)
    ensures forall i :: pos <= i < q ==> IsDigit(input[i])
    ensures q < end ==> q < |input| && !IsDigit(input[q])
    decreases end - pos
  {
    if pos < end && IsDigit(input[pos]) then DigitsEnd(input, pos + 1, end) else pos
  }

  predicate SignAt(input: Bytes, pos: nat) { pos < |input| && input[pos] == MINUS }

  /** An optional sign and the longest run of digits inside the window: its value modulo 2^32 and
      where it ends. */
  function Scan(input: Bytes, start: nat, end: nat): (r: Option<(int, nat)>)
    requires end <= |input|
    ensures r.Some? ==> start < r.value.1 <= end && I32(r.value.0)
  {
    var p := if SignAt(input, start) then start + 1 else start;
    var q := DigitsEnd(input, p, end);
    if q == p then None
    else
      var v := Decimal(input[p..q]);
      Some((WrapI32(if SignAt(input, start) then -v else v), q))
  }

  /** The digits of the window, accumulated in a wrapping 64-bit integer. */
  method ScanDigits(input: Bytes, start: nat, end: nat) returns (magnitude: int, pos: nat)
    requires end <= |input|
    ensures pos == DigitsEnd(input, start, end)
    ensures start < pos ==> magnitude == WrapI64(Decimal(input[start..pos]))
  {
    pos := start;
    magnitude := 0;
    while pos < end && IsDigit(input[pos])
      invariant start <= pos && (start < pos ==> pos <= end)
      invariant DigitsEnd(input, start, end) == DigitsEnd(input, pos, end)
      invariant if start == pos then magnitude == 0 else magnitude == WrapI64(Decimal(input[start..pos]))
    {
      var digit := input[pos] as int - 48;
      DecimalSnoc(input, start, pos);
      WrapStep(Decimal(input[start..pos]), digit);
      magnitude := WrapI64(WrapI64(magnitude * 10) + digit);
      pos := pos + 1;
    }
  }

  method ScanNumber(input: Bytes, start: nat, end: nat) returns (r: Option<(int, nat)>)
    requires end <= |input|
    ensures r == Scan(input, start, end)
  {
    var negative := SignAt(input, start);
    var digitsStart := if negative then start + 1 else start;
    var magnitude, pos := ScanDigits(input, digitsStart, end);
    if pos == digitsStart {
      return None;
    }
    Narrow(Decimal(input[digitsStart..pos]));
    var signed := if negative then WrapI64(-magnitude) else magnitude;
    r := Some((WrapI32(signed), pos));
  }

  // ---------------------------------------------------------------------------------------------
  // Parsing along the tokens.

  function Set(f: Fields, kind: FieldKind, value: int): Fields {
    match kind
    case Year => f.(year := value)
    case Month => f.(month := value)
    case Day => f.(day := value)
    case Hour => f.(hour := value)
    case Minute => f.(minute := value)
    case Second => f.(second := value)
  }

  function Get(f: Fields, kind: FieldKind): int {
    match kind
    case Year => f.year
    case Month => f.month
    case Day => f.day
    case Hour => f.hour
    case Minute => f.minute
    case Second => f.second
  }

  const DEFAULT := Fields(1970, 1, 1, 0, 0, 0)

  function SkipBlanks(input: Bytes, pos: nat): (p: nat)
    requires pos <= |input|
    ensures pos <= p <= |input|
    decreases |input| - pos
  {
    if pos < |input| && IsBlank(input[pos]) then SkipBlanks(input, pos + 1) else pos
  }

  /** One field: blanks are skipped, but they use up the window when another field follows. */
  function ScanField(input: Bytes, kind: FieldKind, pos: nat, obeyCount: bool): (r: Option<(int, nat)>)
    requires pos <= |input|
    ensures r.Some? ==> pos < r.value.1 <= |input| && I32(r.value.0)
  {
    var p := SkipBlanks(input, pos);
    if p >= |input| then None
    else if obeyCount && pos + Width(kind) > |input| then None
    else Scan(input, p, if obeyCount then pos + Width(kind) else |input|)
  }

  predicate StartsWithField(tokens: seq<Token>) { tokens != [] && tokens[0].Field? }

  /** The fields read and the position reached. */
  function ParseTokens(input: Bytes, tokens: seq<Token>, pos: nat, fields: Fields): (r: Option<(Fields, nat)>)
    requires pos <= |input|
    ensures r.Some? ==> pos + |tokens| <= r.value.1 <= |input|
    ensures r.Some? && AllI32(fields) ==> AllI32(r.value.0)
    decreases |tokens|
  {
    if tokens == [] then Some((fields, pos))
    else
      match tokens[0]
      case Literal(b) =>
        if pos < |input| && input[pos] == b then ParseTokens(input, tokens[1..], pos + 1, fields) else None
      case Field(kind) =>
        match ScanField(input, kind, pos, StartsWithField(tokens[1..]))
        case None => None
        case Some((value, next)) => ParseTokens(input, tokens[1..], next, Set(fields, kind, value))
  }

  method ParseField(input: Bytes, kind: FieldKind, start: nat, obeyCount: bool)
    returns (r: Option<(int, nat)>)
    requires start <= |input|
    ensures r == ScanField(input, kind, start, obeyCount)
  {
    hide Scan;
    var pos := start;
    while pos < |input| && IsBlank(input[pos])
      invariant start <= pos <= |input| && SkipBlanks(input, pos) == SkipBlanks(input, start)
    {
      pos := pos + 1;
    }
    if pos >= |input| {
      return None;
    }
    var windowEnd := |input|;
    if obeyCount {
      windowEnd := start + Width(kind);
      if windowEnd > |input| {
        return None;
      }
    }
    r := ScanNumber(input, pos, windowEnd);
  }

  /** Seconds since the epoch, given the zone's offset at a local time. */
  method ParseDatetime(input: Bytes, tokens: seq<Token>, offset: int -> int) returns (r: Option<int>)
    ensures r ==
      if tokens == [] then None
      else
        match ParseTokens(input, tokens, 0, DEFAULT)
        case None => None
        case Some((f, _)) => Some(Normalize(f) - offset(Normalize(f)))
  {
    hide Normalize, ScanField, Set;
    if tokens == [] {
      return None;
    }
    var pos := 0;
    var fields := DEFAULT;
    for idx := 0 to |tokens|
      invariant 0 <= pos <= |input|
      invariant ParseTokens(input, tokens, 0, DEFAULT) == ParseTokens(input, tokens[idx..], pos, fields)
    {
      assert tokens[idx..][0] == tokens[idx] && tokens[idx..][1..] == tokens[idx + 1..];
      match tokens[idx]
      case Literal(b) =>
        if pos >= |input| || input[pos] != b {
          return None;
        }
        pos := pos + 1;
      case Field(kind) =>
        var obeyCount := idx + 1 < |tokens| && tokens[idx + 1].Field?;
        var scanned := ParseField(input, kind, pos, obeyCount);
        if scanned.None? {
          return None;
        }
        fields := Set(fields, kind, scanned.value.0);
        pos := scanned.value.1;
    }
    var local := Normalize(fields);
    r := Some(local - offset(local));
  }

  /** The value of one row. The failure sentinel stands for nothing but a failure. */
  method UnixTimestamp(input: Bytes, tokens: seq<Token>, offset: int -> int) returns (r: int)
    requires forall local :: -86_400 <= offset(local) <= 86_400
    ensures I64(r)
    ensures r == I64_MIN <==> tokens == [] || ParseTokens(input, tokens, 0, DEFAULT).None?
    ensures r != I64_MIN ==>
      var local := Normalize(ParseTokens(input, tokens, 0, DEFAULT).value.0);
      r == local - offset(local)
  {
    var parsed := ParseDatetime(input, tokens, offset);
    if parsed.None? {
      return I64_MIN;
    }
    ghost var f := ParseTokens(input, tokens, 0, DEFAULT).value.0;
    NormalizeFits(f, offset(Normalize(f)));
    r := parsed.value;
  }

  // ---------------------------------------------------------------------------------------------
  // Printing, and reading back what was printed.

  function PrintDigits(v: nat, width: nat): (r: Bytes)
    ensures |r| == width
    ensures forall i :: 0 <= i < width ==> IsDigit(r[i])
  {
    if width == 0 then [] else PrintDigits(v / 10, width - 1) + [(48 + v % 10) as byte]
  }

  lemma {:induction false} ReadDigits(v: nat, width: nat)
    requires v < Pow10(width)
    ensures Decimal(PrintDigits(v, width)) == v
    decreases width
  {
    if width > 0 {
      var r := PrintDigits(v, width);
      assert r[..width - 1] == PrintDigits(v / 10, width - 1);
      ReadDigits(v / 10, width - 1);
    }
  }

  /** Field values that fit their canonical widths. */
  predicate InRange(f: Fields) {
    && 0 <= f.year < 10_000
    && 0 <= f.month < 100 && 0 <= f.day < 100
    && 0 <= f.hour < 100 && 0 <= f.minute < 100 && 0 <= f.second < 100
  }

  function PrintToken(t: Token, f: Fields): Bytes
    requires InRange(f)
  {
    match t
    case Literal(b) => [b]
    case Field(kind) => PrintDigits(Get(f, kind), Width(kind))
  }

  function Print(tokens: seq<Token>, f: Fields): Bytes
    requires InRange(f)
  {
    if tokens == [] then [] else PrintToken(tokens[0], f) + Print(tokens[1..], f)
  }

  predicate IsDigitLiteral(t: Token) { t.Literal? && IsDigit(t.b) }

  predicate Separated(tokens: seq<Token>) {
    forall i :: 0 <= i < |tokens| - 1 && tokens[i].Field? ==> !IsDigitLiteral(tokens[i + 1])
  }

  predicate EndsField(tokens: seq<Token>) { tokens != [] && tokens[|tokens| - 1].Field? }

  /** `start` with the fields that occur in `tokens` taken from `f`. */
  function Taken(tokens: seq<Token>, f: Fields, start: Fields): Fields {
    if tokens == [] then start
    else
      match tokens[0]
      case Literal(_) => Taken(tokens[1..], f, start)
      case Field(kind) => Taken(tokens[1..], f, Set(start, kind, Get(f, kind)))
  }

  lemma {:induction false} TakenFields(tokens: seq<Token>, f: Fields, start: Fields, kind: FieldKind)
    ensures Get(Taken(tokens, f, start), kind) ==
            if Field(kind) in tokens then Get(f, kind) else Get(start, kind)
    decreases |tokens|
  {
    if tokens != [] {
      var next := if tokens[0].Field? then Set(start, tokens[0].kind, Get(f, tokens[0].kind)) else start;
      TakenFields(tokens[1..], f, next, kind);
      assert Field(kind) in tokens <==> tokens[0] == Field(kind) || Field(kind) in tokens[1..];
    }
  }

  lemma {:induction false} DigitsEndAt(input: Bytes, pos: nat, q: nat, end: nat)
    requires pos <= q <= end <= |input|
    requires forall i :: pos <= i < q ==> IsDigit(input[i])
    requires q < end ==> !IsDigit(input[q])
    ensures DigitsEnd(input, pos, end) == q
    decreases q - pos
  {
    if pos < q {
      DigitsEndAt(input, pos + 1, q, end);
    }
  }

  lemma PrintedAreDigits(input: Bytes, kind: FieldKind, v: nat, pos: nat)
    requires pos + Width(kind) <= |input| && input[pos..pos + Width(kind)] == PrintDigits(v, Width(kind))
    ensures Width(kind) >= 1 && IsDigit(input[pos]) && SkipBlanks(input, pos) == pos
    ensures forall i :: pos <= i < pos + Width(kind) ==> IsDigit(input[i])
  {
    hide PrintDigits;
    var q := pos + Width(kind);
    forall i | pos <= i < q ensures IsDigit(input[i]) {
      assert input[i] == input[pos..q][i - pos];
    }
  }

  lemma SmallPowersOfTen()
    ensures Pow10(1) == 10 && Pow10(2) == 100 && Pow10(3) == 1000 && Pow10(4) == 10_000
  {
  }

  lemma SmallValue(v: nat, width: nat)
    requires (width == 2 || width == 4) && v < Pow10(width)
    ensures WrapI32(v) == v
  {
    hide Pow10;
    SmallPowersOfTen();
  }

  /** A printed field, followed by no further digit inside its window. */
  lemma ScanPrinted(input: Bytes, kind: FieldKind, v: nat, pos: nat, obeyCount: bool)
    requires v < Pow10(Width(kind))
    requires pos + Width(kind) <= |input| && input[pos..pos + Width(kind)] == PrintDigits(v, Width(kind))
    requires obeyCount || pos + Width(kind) == |input| || !IsDigit(input[pos + Width(kind)])
    ensures ScanField(input, kind, pos, obeyCount) == Some((v, pos + Width(kind)))
  {
    hide Decimal, Pow10, PrintDigits, WrapI32, DigitsEnd;
    var q := pos + Width(kind);
    PrintedAreDigits(input, kind, v, pos);
    SmallValue(v, Width(kind));
    ReadDigits(v, Width(kind));
    DigitsEndAt(input, pos, q, if obeyCount then q else |input|);
  }

  /** A digit right after a greedy field is swallowed, and the literal is not found behind it. */
  lemma ScanOverrun(input: Bytes, kind: FieldKind, v: nat, pos: nat)
    requires pos + Width(kind) < |input| && input[pos..pos + Width(kind)] == PrintDigits(v, Width(kind))
    requires IsDigit(input[pos + Width(kind)])
    ensures
      var r := ScanField(input, kind, pos, false);
      r.Some? && (r.value.1 < |input| ==> !IsDigit(input[r.value.1]))
  {
    var q := pos + Width(kind);
    assert forall i :: pos <= i < q ==> input[i] == input[pos..q][i - pos];
    assert IsDigit(input[pos]);
    assert SkipBlanks(input, pos) == pos;
  }

  lemma Ranges(f: Fields, kind: FieldKind)
    requires InRange(f)
    ensures 0 <= Get(f, kind) < Pow10(Width(kind))
  {
    assert Pow10(1) == 10 && Pow10(2) == 100 && Pow10(3) == 1000 && Pow10(4) == 10_000;
  }

  lemma SeparatedTail(tokens: seq<Token>)
    requires tokens != []
    ensures Separated(tokens) <==>
      Separated(tokens[1..]) && !(tokens[0].Field? && |tokens| > 1 && IsDigitLiteral(tokens[1]))
  {
    if Separated(tokens[1..]) && !(tokens[0].Field? && |tokens| > 1 && IsDigitLiteral(tokens[1])) {
      forall i | 0 <= i < |tokens| - 1 && tokens[i].Field? ensures !IsDigitLiteral(tokens[i + 1]) {
        if i > 0 { assert tokens[1..][i - 1].Field?; }
      }
    }
    if Separated(tokens) {
      forall i | 0 <= i < |tokens[1..]| - 1 && tokens[1..][i].Field? ensures !IsDigitLiteral(tokens[1..][i + 1]) {
        assert tokens[i + 1].Field?;
      }
    }
  }

  lemma FirstPiece(pre: Bytes, tokens: seq<Token>, f: Fields, suffix: Bytes)
    requires InRange(f) && tokens != []
    ensures
      var text := pre + Print(tokens, f) + suffix;
      var pre' := pre + PrintToken(tokens[0], f);
      && text == pre' + Print(tokens[1..], f) + suffix
      && pre + Print(tokens, f) == pre' + Print(tokens[1..], f)
      && text[|pre|..|pre'|] == PrintToken(tokens[0], f)
  {
    hide InRange, PrintToken;
  }

  /** The printed field inside the text, and what follows it. */
  lemma FieldText(pre: Bytes, kind: FieldKind, rest: seq<Token>, f: Fields, suffix: Bytes)
    requires InRange(f)
    ensures
      var pre' := pre + PrintToken(Field(kind), f);
      var text := pre' + Print(rest, f) + suffix;
      && |pre'| == |pre| + Width(kind)
      && text[|pre|..|pre'|] == PrintDigits(Get(f, kind), Width(kind))
      && (rest == [] ==> text == pre' + suffix)
      && (rest != [] && rest[0].Literal? ==> |text| > |pre'| && text[|pre'|] == rest[0].b)
  {
    hide InRange, PrintDigits;
  }

  lemma OverrunStep(pre: Bytes, kind: FieldKind, rest: seq<Token>, f: Fields, suffix: Bytes)
    requires InRange(f) && rest != [] && IsDigitLiteral(rest[0])
    ensures
      var text := pre + PrintToken(Field(kind), f) + Print(rest, f) + suffix;
      var scanned := ScanField(text, kind, |pre|, StartsWithField(rest));
      scanned.Some? && (scanned.value.1 < |text| ==> text[scanned.value.1] != rest[0].b)
  {
    FieldText(pre, kind, rest, f, suffix);
    Ranges(f, kind);
    hide InRange, ScanField, PrintDigits, Print, PrintToken;
    ScanOverrun(pre + PrintToken(Field(kind), f) + Print(rest, f) + suffix, kind, Get(f, kind), |pre|);
  }

  lemma PrintedStep(pre: Bytes, kind: FieldKind, rest: seq<Token>, f: Fields, suffix: Bytes)
    requires InRange(f) && !(rest != [] && IsDigitLiteral(rest[0]))
    requires rest == [] && suffix != [] ==> !IsDigit(suffix[0])
    ensures
      var pre' := pre + PrintToken(Field(kind), f);
      var text := pre' + Print(rest, f) + suffix;
      ScanField(text, kind, |pre|, StartsWithField(rest)) == Some((Get(f, kind), |pre'|))
  {
    FieldText(pre, kind, rest, f, suffix);
    Ranges(f, kind);
    hide InRange, ScanField, PrintDigits, Print, PrintToken;
    var text := pre + PrintToken(Field(kind), f) + Print(rest, f) + suffix;
    ScanPrinted(text, kind, Get(f, kind), |pre|, StartsWithField(rest));
  }

  lemma FieldStep(pre: Bytes, kind: FieldKind, rest: seq<Token>, f: Fields, suffix: Bytes)
    requires InRange(f)
    requires EndsField([Field(kind)] + rest) && suffix != [] ==> !IsDigit(suffix[0])
    ensures
      var pre' := pre + PrintToken(Field(kind), f);
      var text := pre' + Print(rest, f) + suffix;
      var scanned := ScanField(text, kind, |pre|, StartsWithField(rest));
      if rest != [] && IsDigitLiteral(rest[0]) then
        scanned.Some? && (scanned.value.1 < |text| ==> text[scanned.value.1] != rest[0].b)
      else
        scanned == Some((Get(f, kind), |pre'|))
  {
    hide InRange, ScanField, Print, PrintToken, IsDigit;
    if rest != [] && IsDigitLiteral(rest[0]) {
      OverrunStep(pre, kind, rest, f, suffix);
    } else {
      PrintedStep(pre, kind, rest, f, suffix);
    }
  }

  /** Parsing printed fields gives them back, with the defaults for the kinds that do not occur, and
      stops where the printing stopped; it fails exactly when a digit literal directly follows a field. */
  lemma {:induction false} RoundTrip(pre: Bytes, tokens: seq<Token>, f: Fields, suffix: Bytes, start: Fields)
    requires InRange(f)
    requires EndsField(tokens) && suffix != [] ==> !IsDigit(suffix[0])
    ensures
      var text := pre + Print(tokens, f) + suffix;
      ParseTokens(text, tokens, |pre|, start) ==
      if Separated(tokens) then Some((Taken(tokens, f, start), |pre + Print(tokens, f)|)) else None
    decreases |tokens|
  {
    hide InRange, ScanField, PrintDigits;
    var text := pre + Print(tokens, f) + suffix;
    if tokens != [] {
      var t, rest := tokens[0], tokens[1..];
      var piece := PrintToken(t, f);
      var pre' := pre + piece;
      FirstPiece(pre, tokens, f, suffix);
      SeparatedTail(tokens);
      RoundTrip(pre', rest, f, suffix, if t.Field? then Set(start, t.kind, Get(f, t.kind)) else start);
      match t
      case Literal(b) =>
        assert text[|pre|] == piece[0];
      case Field(kind) => FieldStep(pre, kind, rest, f, suffix);
    }
  }

  /** The year 1970 and a literal zero, printed as 19700, read as the year 19700 without a zero. */
  lemma DigitSwallowed()
    ensures !Separated([Field(Year), Literal(48)])
    ensures ParseTokens(Print([Field(Year), Literal(48)], DEFAULT), [Field(Year), Literal(48)], 0, DEFAULT) == None
  {
    hide ParseTokens, Print;
    var tokens := [Field(Year), Literal(48)];
    assert tokens[0].Field? && IsDigitLiteral(tokens[0 + 1]);
    RoundTrip([], tokens, DEFAULT, [], DEFAULT);
    assert [] + Print(tokens, DEFAULT) + [] == Print(tokens, DEFAULT);
  }

  // ---------------------------------------------------------------------------------------------
  // From a text in ASCII to the seconds it stands for.

  function TwoDigits(v: nat): Bytes
    requires v < 100
  {
    [(48 + v / 10) as byte, (48 + v % 10) as byte]
  }

  function FourDigits(v: nat): Bytes
    requires v < 10_000
  {
    TwoDigits(v / 100) + TwoDigits(v % 100)
  }

  function TimeText(f: Fields): Bytes
    requires InRange(f)
  {
    TwoDigits(f.hour) + ([58] + (TwoDigits(f.minute) + ([58] + TwoDigits(f.second))))
  }

  /** Year, month and day joined by hyphens, a space, and hour, minute and second joined by colons. */
  function DateTimeText(f: Fields): Bytes
    requires InRange(f)
  {
    FourDigits(f.year) + ([45] + (TwoDigits(f.month) + ([45] + (TwoDigits(f.day) + ([32] + TimeText(f))))))
  }

  /** Percent sign and Y, hyphen, percent sign and m, hyphen, percent sign and d, space, percent sign and H,
      colon, percent sign and M, colon, percent sign and S. */
  const DATE_TIME_FORMAT: Bytes := [37, 89, 45, 37, 109, 45, 37, 100, 32, 37, 72, 58, 37, 77, 58, 37, 83]

  const DATE_TIME: seq<Token> :=
    [Field(Year), Literal(45), Field(Month), Literal(45), Field(Day), Literal(32),
     Field(Hour), Literal(58), Field(Minute), Literal(58), Field(Second)]

  lemma RenderCons(t: Token, ts: seq<Token>)
    ensures Render([t] + ts) == RenderToken(t) + Render(ts)
  {
    assert ([t] + ts)[1..] == ts;
  }

  lemma RenderNothing()
    ensures Render([]) == []
  {
  }

  lemma RenderTime()
    ensures Render(DATE_TIME[6..]) == [37, 72, 58, 37, 77, 58, 37, 83]
  {
    hide Render;
    RenderNothing();
    var seconds := [Field(Second)] + [];
    var minutes := [Field(Minute)] + ([Literal(58)] + seconds);
    RenderCons(Field(Second), []);
    RenderCons(Literal(58), seconds);
    RenderCons(Field(Minute), [Literal(58)] + seconds);
    RenderCons(Literal(58), minutes);
    RenderCons(Field(Hour), [Literal(58)] + minutes);
    assert DATE_TIME[6..] == [Field(Hour)] + ([Literal(58)] + minutes);
    assert [37, 72, 58, 37, 77, 58, 37, 83] == [37, 72] + ([58] + ([37, 77] + ([58] + ([37, 83] + []))));
  }

  /** The ASCII format stands for these tokens. */
  lemma FormatBytes()
    ensures Render(DATE_TIME) == DATE_TIME_FORMAT
  {
    hide Render;
    RenderTime();
    var time := DATE_TIME[6..];
    var days := [Field(Day)] + ([Literal(32)] + time);
    var months := [Field(Month)] + ([Literal(45)] + days);
    RenderCons(Literal(32), time);
    RenderCons(Field(Day), [Literal(32)] + time);
    RenderCons(Literal(45), days);
    RenderCons(Field(Month), [Literal(45)] + days);
    RenderCons(Literal(45), months);
    RenderCons(Field(Year), [Literal(45)] + months);
    assert DATE_TIME == [Field(Year)] + ([Literal(45)] + months);
    assert DATE_TIME_FORMAT ==
      [37, 89] + ([45] + ([37, 109] + ([45] + ([37, 100] + ([32] + [37, 72, 58, 37, 77, 58, 37, 83])))));
  }

  lemma PrintedTwo(v: nat)
    requires v < 100
    ensures PrintDigits(v, 2) == TwoDigits(v)
  {
    assert PrintDigits(v / 10, 1) == PrintDigits(v / 10 / 10, 0) + [(48 + v / 10 % 10) as byte];
  }

  lemma PrintedFour(v: nat)
    requires v < 10_000
    ensures PrintDigits(v, 4) == FourDigits(v)
  {
    PrintedTwo(v / 100);
    assert PrintDigits(v, 4) == PrintDigits(v / 10, 3) + [(48 + v % 10) as byte];
    assert PrintDigits(v / 10, 3) == PrintDigits(v / 10 / 10, 2) + [(48 + v / 10 % 10) as byte];
    assert v / 10 / 10 == v / 100 && v % 100 / 10 == v / 10 % 10 && v % 100 % 10 == v % 10;
  }

  lemma PrintCons(t: Token, ts: seq<Token>, f: Fields)
    requires InRange(f)
    ensures Print([t] + ts, f) == PrintToken(t, f) + Print(ts, f)
  {
    assert ([t] + ts)[1..] == ts;
  }

  lemma PrintNothing(f: Fields)
    requires InRange(f)
    ensures Print([], f) == []
  {
  }

  lemma PrintFields(f: Fields)
    requires InRange(f)
    ensures PrintToken(Field(Year), f) == FourDigits(f.year)
    ensures PrintToken(Field(Month), f) == TwoDigits(f.month) && PrintToken(Field(Day), f) == TwoDigits(f.day)
    ensures PrintToken(Field(Hour), f) == TwoDigits(f.hour) && PrintToken(Field(Minute), f) == TwoDigits(f.minute)
    ensures PrintToken(Field(Second), f) == TwoDigits(f.second)
    ensures PrintToken(Literal(45), f) == [45] && PrintToken(Literal(32), f) == [32]
    ensures PrintToken(Literal(58), f) == [58]
  {
    hide PrintDigits, TwoDigits, FourDigits;
    PrintedFour(f.year);
    PrintedTwo(f.month);
    PrintedTwo(f.day);
    PrintedTwo(f.hour);
    PrintedTwo(f.minute);
    PrintedTwo(f.second);
  }

  lemma PrintedTime(f: Fields)
    requires InRange(f)
    ensures Print(DATE_TIME[6..], f) == TimeText(f)
  {
    hide Print, PrintToken, TwoDigits;
    PrintFields(f);
    PrintNothing(f);
    var seconds := [Field(Second)] + [];
    var minutes := [Field(Minute)] + ([Literal(58)] + seconds);
    PrintCons(Field(Second), [], f);
    PrintCons(Literal(58), seconds, f);
    PrintCons(Field(Minute), [Literal(58)] + seconds, f);
    PrintCons(Literal(58), minutes, f);
    PrintCons(Field(Hour), [Literal(58)] + minutes, f);
    assert DATE_TIME[6..] == [Field(Hour)] + ([Literal(58)] + minutes);
    assert TwoDigits(f.second) + [] == TwoDigits(f.second);
  }

  /** Printing these tokens gives the ASCII text. */
  lemma TextBytes(f: Fields)
    requires InRange(f)
    ensures Print(DATE_TIME, f) == DateTimeText(f)
  {
    hide Print, PrintToken, TwoDigits, FourDigits, TimeText, InRange;
    PrintFields(f);
    PrintedTime(f);
    var time := DATE_TIME[6..];
    var days := [Field(Day)] + ([Literal(32)] + time);
    var months := [Field(Month)] + ([Literal(45)] + days);
    PrintCons(Literal(32), time, f);
    PrintCons(Field(Day), [Literal(32)] + time, f);
    PrintCons(Literal(45), days, f);
    PrintCons(Field(Month), [Literal(45)] + days, f);
    PrintCons(Literal(45), months, f);
    PrintCons(Field(Year), [Literal(45)] + months, f);
    assert DATE_TIME == [Field(Year)] + ([Literal(45)] + months);
  }

  lemma AllTaken(f: Fields, start: Fields)
    ensures Taken(DATE_TIME, f, start) == f
  {
    hide Taken;
    TakenFields(DATE_TIME, f, start, Year);
    TakenFields(DATE_TIME, f, start, Month);
    TakenFields(DATE_TIME, f, start, Day);
    TakenFields(DATE_TIME, f, start, Hour);
    TakenFields(DATE_TIME, f, start, Minute);
    TakenFields(DATE_TIME, f, start, Second);
    assert DATE_TIME[0] == Field(Year) && DATE_TIME[2] == Field(Month) && DATE_TIME[4] == Field(Day);
    assert DATE_TIME[6] == Field(Hour) && DATE_TIME[8] == Field(Minute) && DATE_TIME[10] == Field(Second);
  }

  lemma TextParses(f: Fields)
    requires InRange(f)
    ensures ParseTokens(DateTimeText(f), DATE_TIME, 0, DEFAULT) == Some((f, |DateTimeText(f)|))
  {
    hide ParseTokens, Print, Taken, InRange, DateTimeText;
    TextBytes(f);
    RoundTrip([], DATE_TIME, f, [], DEFAULT);
    AllTaken(f, DEFAULT);
    assert [] + Print(DATE_TIME, f) + [] == Print(DATE_TIME, f) && [] + Print(DATE_TIME, f) == Print(DATE_TIME, f);
  }

  lemma DaysOfMonth(d: Date)
    requires Exists(d)
    ensures 1 <= d.month <= 12 && 1 <= d.day <= 31
  {
  }

  /** End to end: the ASCII text of an existing date of a four-digit year, `n` days from the first of January
      1970, and a time of day, read with the ASCII format in UTC, is that many seconds from the epoch. */
  method TimestampOfText(d: Date, n: int, hour: nat, minute: nat, second: nat) returns (r: int)
    requires Exists(d) && DaysFromEpoch(d, n) && 0 <= d.year < 10_000 && hour < 100 && minute < 100 && second < 100
    ensures r == 86_400 * n + 3_600 * hour + 60 * minute + second
  {
    var f := Fields(d.year, d.month, d.day, hour, minute, second);
    assert InRange(f) by { DaysOfMonth(d); }
    NormalizeIs(d, n, hour, minute, second);
    TextParses(f);
    FormatBytes();
    hide InRange, DateTimeText, Normalize, ParseTokens, Render, DaysFromEpoch;
    var format := ParseFormat(DATE_TIME_FORMAT);
    assert format.Tokens?;
    RenderInjective(format.tokens, DATE_TIME);
    r := UnixTimestamp(DateTimeText(f), format.tokens, _ => 0);
  }

  /** The defaults are the first of January 1970, midnight, which is the epoch. */
  lemma DefaultIsEpoch()
    ensures DEFAULT == Fields(1970, 1, 1, 0, 0, 0) && Normalize(DEFAULT) == 0
  {
    hide Exists;
    EpochNumber();
    assert Steps(EPOCH_DATE, 0) == EPOCH_DATE;
    NormalizeIs(EPOCH_DATE, 0, 0, 0, 0);
  }

  lemma ThreeTaken(f: Fields)
    ensures Taken([Field(Year), Field(Month), Field(Day)], f, DEFAULT) ==
            DEFAULT.(year := f.year, month := f.month, day := f.day)
  {
    hide Taken;
    var tokens := [Field(Year), Field(Month), Field(Day)];
    TakenFields(tokens, f, DEFAULT, Year);
    TakenFields(tokens, f, DEFAULT, Month);
    TakenFields(tokens, f, DEFAULT, Day);
    TakenFields(tokens, f, DEFAULT, Hour);
    TakenFields(tokens, f, DEFAULT, Minute);
    TakenFields(tokens, f, DEFAULT, Second);
    assert tokens[0] == Field(Year) && tokens[1] == Field(Month) && tokens[2] == Field(Day);
  }

  /** Fields without separators are cut at four digits for the year and two for the others. */
  lemma AdjacentFields(f: Fields)
    requires InRange(f)
    ensures ParseTokens(FourDigits(f.year) + TwoDigits(f.month) + TwoDigits(f.day),
                        [Field(Year), Field(Month), Field(Day)], 0, DEFAULT) ==
            Some((DEFAULT.(year := f.year, month := f.month, day := f.day), 8))
  {
    hide ParseTokens, PrintToken;
    hide Print, Taken;
    var tokens := [Field(Year), Field(Month), Field(Day)];
    var days := [Field(Day)] + [];
    PrintFields(f);
    PrintNothing(f);
    PrintCons(Field(Day), [], f);
    PrintCons(Field(Month), days, f);
    PrintCons(Field(Year), [Field(Month)] + days, f);
    assert tokens == [Field(Year)] + ([Field(Month)] + days);
    var text := FourDigits(f.year) + TwoDigits(f.month) + TwoDigits(f.day);
    assert Print(tokens, f) == text;
    RoundTrip([], tokens, f, [], DEFAULT);
    assert [] + text + [] == text && [] + text == text;
    ThreeTaken(f);
  }

  lemma DecimalOfTwo(v: nat)
    requires v < 100
    ensures Decimal(TwoDigits(v)) == v
  {
    var d := TwoDigits(v);
    assert d[..1] == [d[0]] && d[..1][..0] == [];
    assert Decimal([d[0]]) == v / 10;
  }

  /** Spaces and tabs before a field are skipped; a hyphen makes the number negative. */
  lemma BlanksAndSign(v: nat)
    requires v < 100
    ensures ScanField([32, 9] + TwoDigits(v), Day, 0, false) == Some((v, 4))
    ensures ScanField([45] + TwoDigits(v), Day, 0, false) == Some((-(v as int), 3))
  {
    hide WrapI32;
    var a, b := [32, 9] + TwoDigits(v), [45] + TwoDigits(v);
    assert SkipBlanks(a, 0) == SkipBlanks(a, 1) == SkipBlanks(a, 2) == 2;
    assert DigitsEnd(a, 2, 4) == DigitsEnd(a, 3, 4) == DigitsEnd(a, 4, 4) == 4;
    assert DigitsEnd(b, 1, 3) == DigitsEnd(b, 2, 3) == DigitsEnd(b, 3, 3) == 3;
    assert a[2..4] == TwoDigits(v) && b[1..3] == TwoDigits(v);
    DecimalOfTwo(v);
  }
}
