/** JSON paths (`get_json_object`): the path parser over a peekable character stream, evaluation of the
    matchers, and the one-shot and two-step ways of using them. */
module JsonPath {
  import opened Seqs

  datatype Matcher = Root | Child(name: string) | Subscript(index: nat) | SubscriptAll

  /** The end of the path, a matcher and the characters left, or an invalid path. */
  datatype Parsed = End | Next(matcher: Matcher, rest: string) | Invalid

  // ---------------------------------------------------------------------------------------------
  // Numbers in brackets.

  const USIZE_LIMIT := 0x1_0000_0000_0000_0000

  predicate IsDigit(c: char) { '0' <= c <= '9' }

  function DigitValue(c: char): nat
    requires IsDigit(c)
  {
    c as int - '0' as int
  }

  function DigitsValue(s: string): Option<nat> {
    if s == [] then Some(0)
    else if !IsDigit(s[|s| - 1]) then None
    else
      match DigitsValue(s[..|s| - 1])
      case None => None
      case Some(v) => Some(10 * v + DigitValue(s[|s| - 1]))
  }

  /** An optional plus sign, one or more digits, and a value that fits 64 bits. */
  function ParseUsize(s: string): Option<nat> {
    var digits := if s != [] && s[0] == '+' then s[1..] else s;
    if digits == [] then None
    else
      match DigitsValue(digits)
      case None => None
      case Some(v) => if v < USIZE_LIMIT then Some(v) else None
  }

  function PrintNat(n: nat): (s: string)
    ensures s != [] && forall i :: 0 <= i < |s| ==> IsDigit(s[i])
  {
    var d := ('0' as int + n % 10) as char;
    if n < 10 then [d] else PrintNat(n / 10) + [d]
  }

  lemma {:induction false} PrintedDigits(n: nat)
    ensures DigitsValue(PrintNat(n)) == Some(n)
  {
    var s := PrintNat(n);
    assert s[|s| - 1] == ('0' as int + n % 10) as char;
    if n < 10 {
      assert s[..|s| - 1] == [];
    } else {
      assert s[..|s| - 1] == PrintNat(n / 10);
      PrintedDigits(n / 10);
    }
  }

  // ---------------------------------------------------------------------------------------------
  // One matcher.

  function SkipSpaces(s: string): (r: string)
    ensures |r| <= |s|
  {
    if s != [] && s[0] == ' ' then SkipSpaces(s[1..]) else s
  }

  /** The characters before the first dot or opening bracket. */
  function NameLength(s: string): (n: nat)
    ensures n <= |s|
    ensures n < |s| ==> s[n] == '.' || s[n] == '['
    ensures forall i :: 0 <= i < n ==> s[i] != '.' && s[i] != '['
  {
    if s == [] || s[0] == '.' || s[0] == '[' then 0 else 1 + NameLength(s[1..])
  }

  /** The position of the first closing bracket, or the length. */
  function BracketLength(s: string): (n: nat)
    ensures n <= |s|
    ensures n < |s| ==> s[n] == ']'
    ensures forall i :: 0 <= i < n ==> s[i] != ']'
  {
    if s == [] || s[0] == ']' then 0 else 1 + BracketLength(s[1..])
  }

  /** What follows an opening bracket. */
  function ParseBracket(s: string): Parsed {
    var n := BracketLength(s);
    if n == |s| then Invalid
    else if s[..n] == "" || s[..n] == "*" then Next(SubscriptAll, s[n + 1..])
    else
      match ParseUsize(s[..n])
      case None => Invalid
      case Some(index) => Next(Subscript(index), s[n + 1..])
  }

  /** What follows a dot: blanks do not count, and a bracket may follow as if the dot were not there. */
  function ParseDotted(s: string): Parsed {
    var t := SkipSpaces(s);
    if t != [] && t[0] == '[' then ParseBracket(t[1..])
    else
      var n := NameLength(t);
      if n == 0 then Invalid else Next(Child(t[..n]), t[n..])
  }

  function ParseOne(s: string): (r: Parsed)
    ensures r.Next? ==> |r.rest| < |s|
    ensures r.End? <==> s == []
  {
    if s == [] then End
    else if s[0] == '$' then Next(Root, s[1..])
    else if s[0] == '.' then ParseDotted(s[1..])
    else if s[0] == '[' then ParseBracket(s[1..])
    else Invalid
  }

  lemma NameStep(s: string, pos: nat)
    requires pos < |s|
    ensures NameLength(s[pos..]) == if s[pos] == '.' || s[pos] == '[' then 0 else 1 + NameLength(s[pos + 1..])
  {
    assert s[pos..][1..] == s[pos + 1..];
  }

  lemma BracketStep(s: string, pos: nat)
    requires pos < |s|
    ensures BracketLength(s[pos..]) == if s[pos] == ']' then 0 else 1 + BracketLength(s[pos + 1..])
  {
    assert s[pos..][1..] == s[pos + 1..];
  }

  lemma SpaceStep(s: string, pos: nat)
    requires pos < |s|
    ensures SkipSpaces(s[pos..]) == if s[pos] == ' ' then SkipSpaces(s[pos + 1..]) else s[pos..]
  {
    assert s[pos..][1..] == s[pos + 1..];
  }

  // The parser's loops, over the characters and a position.

  method ParseName(s: string, from: nat) returns (name: string, pos: nat)
    requires from <= |s|
    ensures pos == from + NameLength(s[from..]) && name == s[from..][..pos - from]
  {
    hide NameLength;
    name, pos := "", from;
    while pos < |s| && s[pos] != '.' && s[pos] != '['
      invariant from <= pos <= |s| && name == s[from..pos]
      invariant NameLength(s[from..]) == (pos - from) + NameLength(s[pos..])
    {
      NameStep(s, pos);
      SliceSnoc(s, from, pos);
      name := name + [s[pos]];
      pos := pos + 1;
    }
    if pos < |s| { NameStep(s, pos); }
    assert s[from..][..pos - from] == s[from..pos];
  }

  method ParseSubscript(s: string, start: nat) returns (r: Parsed)
    requires start < |s| && s[start] == '['
    ensures r == ParseBracket(s[start + 1..])
  {
    hide BracketLength;
    var from := start + 1;
    var pos := from;
    while pos < |s| && s[pos] != ']'
      invariant from <= pos <= |s|
      invariant BracketLength(s[from..]) == (pos - from) + BracketLength(s[pos..])
    {
      BracketStep(s, pos);
      pos := pos + 1;
    }
    if pos < |s| { BracketStep(s, pos); }
    if pos == |s| {
      return Invalid;
    }
    var indexStr := s[from..pos];
    assert s[from..][..pos - from] == indexStr && s[from..][pos - from + 1..] == s[pos + 1..];
    if indexStr == "" || indexStr == "*" {
      return Next(SubscriptAll, s[pos + 1..]);
    }
    var index := ParseUsize(indexStr);
    if index.None? {
      return Invalid;
    }
    r := Next(Subscript(index.value), s[pos + 1..]);
  }

  method ParseDot(s: string, start: nat) returns (r: Parsed)
    requires start < |s| && s[start] == '.'
    ensures r == ParseDotted(s[start + 1..])
  {
    hide ParseBracket, SkipSpaces, NameLength;
    var pos := start + 1;
    while pos < |s| && s[pos] == ' '
      invariant start + 1 <= pos <= |s| && SkipSpaces(s[pos..]) == SkipSpaces(s[start + 1..])
    {
      SpaceStep(s, pos);
      pos := pos + 1;
    }
    assert SkipSpaces(s[start + 1..]) == s[pos..] by {
      if pos < |s| { SpaceStep(s, pos); }
    }
    if pos < |s| && s[pos] == '[' {
      assert s[pos..][1..] == s[pos + 1..];
      r := ParseSubscript(s, pos);
      return;
    }
    var name;
    var from := pos;
    name, pos := ParseName(s, from);
    assert s[from..][pos - from..] == s[pos..];
    if name == "" {
      return Invalid;
    }
    r := Next(Child(name), s[pos..]);
  }

  /** One matcher. */
  method ParseMatcher(s: string, pos: nat) returns (r: Parsed)
    requires pos <= |s|
    ensures r == ParseOne(s[pos..])
  {
    hide ParseDotted, ParseBracket;
    if pos == |s| {
      return End;
    }
    assert s[pos..][1..] == s[pos + 1..];
    if s[pos] == '$' {
      return Next(Root, s[pos + 1..]);
    }
    if s[pos] == '.' {
      r := ParseDot(s, pos);
    } else if s[pos] == '[' {
      r := ParseSubscript(s, pos);
    } else {
      r := Invalid;
    }
  }

  // ---------------------------------------------------------------------------------------------
  // A path.

  function ParseAll(s: string): Option<seq<Matcher>>
    decreases |s|
  {
    match ParseOne(s)
    case End => Some([])
    case Invalid => None
    case Next(m, rest) =>
      match ParseAll(rest)
      case None => None
      case Some(ms) => Some([m] + ms)
  }

  /** A path is a root followed by matchers that are not roots. */
  function ParsePath(s: string): Option<seq<Matcher>> {
    match ParseAll(s)
    case None => None
    case Some(ms) => if ms == [] || ms[0] != Root || Root in ms[1..] then None else Some(ms[1..])
  }

  function Prepend(ms: seq<Matcher>, more: Option<seq<Matcher>>): Option<seq<Matcher>> {
    match more
    case None => None
    case Some(ns) => Some(ms + ns)
  }

  lemma PrependOne(ms: seq<Matcher>, m: Matcher, more: Option<seq<Matcher>>)
    ensures Prepend(ms, Prepend([m], more)) == Prepend(ms + [m], more)
    ensures Prepend([], more) == more
  {
    if more.Some? {
      assert ms + ([m] + more.value) == ms + [m] + more.value;
      assert [] + more.value == more.value;
    }
  }

  predicate Suffix(r: string, s: string) { |r| <= |s| && s[|s| - |r|..] == r }

  lemma {:induction false} SkipIsSuffix(s: string)
    ensures Suffix(SkipSpaces(s), s)
  {
    if s != [] && s[0] == ' ' { SkipIsSuffix(s[1..]); }
  }

  lemma SuffixOfSuffix(r: string, n: nat, s: string)
    requires Suffix(r, s) && n <= |r|
    ensures Suffix(r[n..], s)
  {
    assert s[|s| - |r|..][n..] == s[|s| - |r| + n..];
  }

  lemma BracketSuffix(s: string)
    ensures ParseBracket(s).Next? ==> Suffix(ParseBracket(s).rest, s)
  {
  }

  lemma DottedSuffix(s: string)
    ensures ParseDotted(s).Next? ==> Suffix(ParseDotted(s).rest, s)
  {
    hide SkipSpaces, ParseBracket;
    var t := SkipSpaces(s);
    SkipIsSuffix(s);
    if t != [] && t[0] == '[' {
      BracketSuffix(t[1..]);
      if ParseBracket(t[1..]).Next? {
        var rest := ParseBracket(t[1..]).rest;
        assert rest == t[|t| - |rest|..];
        SuffixOfSuffix(t, |t| - |rest|, s);
      }
    } else {
      SuffixOfSuffix(t, NameLength(t), s);
    }
  }

  /** A parser step leaves a suffix of its input. */
  lemma RestIsSuffix(s: string)
    ensures ParseOne(s).Next? ==> Suffix(ParseOne(s).rest, s)
  {
    hide ParseDotted, ParseBracket;
    if s != [] {
      DottedSuffix(s[1..]);
      BracketSuffix(s[1..]);
    }
  }

  lemma NextStep(path: string, pos: nat, matchers: seq<Matcher>)
    requires pos < |path|
    ensures
      var parsed := ParseOne(path[pos..]);
      match parsed
      case End => false
      case Invalid => Prepend(matchers, ParseAll(path[pos..])) == None
      case Next(m, rest) =>
        && pos < |path| - |rest| && path[|path| - |rest|..] == rest
        && Prepend(matchers, ParseAll(path[pos..])) == Prepend(matchers + [m], ParseAll(rest))
  {
    hide ParseOne;
    var tail := path[pos..];
    var parsed := ParseOne(tail);
    RestIsSuffix(tail);
    if parsed.Next? {
      var n := |tail| - |parsed.rest|;
      assert tail[n..] == path[pos + n..];
      PrependOne(matchers, parsed.matcher, ParseAll(parsed.rest));
    }
  }

  lemma EndStep(matchers: seq<Matcher>)
    ensures Prepend(matchers, ParseAll("")) == Some(matchers)
  {
    assert ParseAll("") == Some([]);
    assert matchers + [] == matchers;
  }

  /** The loop over the matchers of a path. */
  method TryNew(path: string) returns (r: Option<seq<Matcher>>)
    ensures r == ParsePath(path)
  {
    hide ParseOne, Prepend;
    var matchers: seq<Matcher> := [];
    var pos := 0;
    assert path[0..] == path;
    PrependOne([], Root, ParseAll(path));
    while pos < |path|
      invariant pos <= |path|
      invariant ParseAll(path) == Prepend(matchers, ParseAll(path[pos..]))
      decreases |path| - pos
    {
      var parsed := ParseMatcher(path, pos);
      NextStep(path, pos, matchers);
      if parsed.Invalid? {
        return None;
      }
      matchers := matchers + [parsed.matcher];
      pos := |path| - |parsed.rest|;
    }
    EndStep(matchers);
    if matchers == [] || matchers[0] != Root {
      return None;
    }
    matchers := matchers[1..];
    if Root in matchers {
      return None;
    }
    r := Some(matchers);
  }

  // ---------------------------------------------------------------------------------------------
  // Printing a path and reading it back.

  /** Freedom a path leaves: spaces after a dot, a dot before a bracket, a star between brackets, and a plus
      sign and zeros before a number. */
  datatype Style = Style(spaces: nat, dotted: bool, starred: bool, plus: bool, zeros: nat)

  function Spaces(n: nat): (s: string)
    ensures |s| == n
  {
    if n == 0 then "" else " " + Spaces(n - 1)
  }

  function Zeros(n: nat): (s: string)
    ensures |s| == n && forall i :: 0 <= i < n ==> s[i] == '0'
  {
    if n == 0 then "" else "0" + Zeros(n - 1)
  }

  /** What stands between the brackets. */
  function Inner(m: Matcher, st: Style): string {
    if m.Subscript? then (if st.plus then "+" else "") + Zeros(st.zeros) + PrintNat(m.index)
    else if st.starred then "*"
    else ""
  }

  function PrintMatcher(m: Matcher, st: Style): string {
    var dot := "." + Spaces(st.spaces);
    match m
    case Root => "$"
    case Child(name) => dot + name
    case _ => (if st.dotted then dot else "") + "[" + Inner(m, st) + "]"
  }

  function PrintAll(ms: seq<Matcher>, sts: seq<Style>): string
    requires |ms| == |sts|
  {
    if ms == [] then "" else PrintMatcher(ms[0], sts[0]) + PrintAll(ms[1..], sts[1..])
  }

  predicate LegalName(name: string) {
    name != [] && name[0] != ' ' && '.' !in name && '[' !in name
  }

  predicate Legal(m: Matcher) {
    match m
    case Root => false
    case Child(name) => LegalName(name)
    case Subscript(index) => index < USIZE_LIMIT
    case SubscriptAll => true
  }

  predicate Boundary(s: string) { s == [] || s[0] == '.' || s[0] == '[' }

  lemma {:induction false} SkipPrinted(n: nat, s: string)
    requires s == [] || s[0] != ' '
    ensures SkipSpaces(Spaces(n) + s) == s
    decreases n
  {
    if n == 0 {
      assert Spaces(n) + s == s;
    } else {
      assert Spaces(n) + s == " " + (Spaces(n - 1) + s);
      assert (" " + (Spaces(n - 1) + s))[1..] == Spaces(n - 1) + s;
      SkipPrinted(n - 1, s);
    }
  }

  lemma {:induction false} NamePrinted(name: string, rest: string)
    requires '.' !in name && '[' !in name && Boundary(rest)
    ensures NameLength(name + rest) == |name|
    decreases |name|
  {
    if name == [] {
      assert name + rest == rest;
    } else {
      assert (name + rest)[1..] == name[1..] + rest;
      NamePrinted(name[1..], rest);
    }
  }

  lemma {:induction false} BracketPrinted(inner: string, rest: string)
    requires ']' !in inner
    ensures BracketLength(inner + "]" + rest) == |inner|
    decreases |inner|
  {
    if inner == [] {
      assert inner + "]" + rest == "]" + rest;
    } else {
      assert (inner + "]" + rest)[1..] == inner[1..] + "]" + rest;
      BracketPrinted(inner[1..], rest);
    }
  }

  lemma {:induction false} OnlyZeros(n: nat)
    ensures DigitsValue(Zeros(n)) == Some(0)
    decreases n
  {
    if n > 0 {
      assert Zeros(n)[..n - 1] == Zeros(n - 1);
      OnlyZeros(n - 1);
    }
  }

  lemma {:induction false} ZerosAhead(n: nat, s: string)
    requires s != []
    ensures DigitsValue(Zeros(n) + s) == DigitsValue(s)
    decreases |s|, n
  {
    var t := Zeros(n) + s;
    assert t[|t| - 1] == s[|s| - 1] && t[..|t| - 1] == Zeros(n) + s[..|s| - 1];
    if |s| > 1 {
      ZerosAhead(n, s[..|s| - 1]);
    } else {
      assert Zeros(n) + s[..0] == Zeros(n);
      OnlyZeros(n);
    }
  }

  lemma PrintedUsize(n: nat, plus: bool, zeros: nat)
    requires n < USIZE_LIMIT
    ensures ParseUsize((if plus then "+" else "") + Zeros(zeros) + PrintNat(n)) == Some(n)
  {
    hide PrintNat, Zeros, DigitsValue;
    var digits := Zeros(zeros) + PrintNat(n);
    PrintedDigits(n);
    ZerosAhead(zeros, PrintNat(n));
    assert IsDigit(digits[0]);
    var s := (if plus then "+" else "") + Zeros(zeros) + PrintNat(n);
    assert s == (if plus then "+" else "") + digits;
    assert plus ==> s[1..] == digits;
    assert !plus ==> s == digits;
  }

  lemma NotInConcat(a: string, b: string, c: char)
    requires c !in a && c !in b
    ensures c !in a + b
  {
  }

  lemma InnerFacts(m: Matcher, st: Style)
    requires m.Subscript?
    ensures Inner(m, st) != "" && Inner(m, st) != "*" && ']' !in Inner(m, st)
  {
    hide PrintNat, Zeros;
    var inner := Inner(m, st);
    var sign := if st.plus then "+" else "";
    var digits := Zeros(st.zeros) + PrintNat(m.index);
    assert inner == sign + digits;
    NotInConcat(Zeros(st.zeros), PrintNat(m.index), ']');
    NotInConcat(Zeros(st.zeros), PrintNat(m.index), '*');
    NotInConcat(sign, digits, ']');
    NotInConcat(sign, digits, '*');
    assert '*' in "*";
  }

  lemma BracketsPrinted(m: Matcher, st: Style, rest: string)
    requires (m.Subscript? || m.SubscriptAll?) && Legal(m)
    ensures ParseBracket(Inner(m, st) + "]" + rest) == Next(m, rest)
  {
    hide PrintNat, Zeros, ParseUsize, BracketLength;
    var inner := Inner(m, st);
    var s := inner + "]" + rest;
    if m.Subscript? {
      InnerFacts(m, st);
      PrintedUsize(m.index, st.plus, st.zeros);
    }
    BracketPrinted(inner, rest);
    assert s[..|inner|] == inner && s[|inner| + 1..] == rest;
  }

  lemma DottedName(name: string, spaces: nat, rest: string)
    requires LegalName(name) && Boundary(rest)
    ensures ParseDotted(Spaces(spaces) + name + rest) == Next(Child(name), rest)
  {
    hide Spaces, SkipSpaces, NameLength, ParseBracket;
    var t := name + rest;
    assert Spaces(spaces) + name + rest == Spaces(spaces) + t;
    assert t[0] == name[0];
    SkipPrinted(spaces, t);
    NamePrinted(name, rest);
    assert t[..|name|] == name && t[|name|..] == rest;
  }

  lemma DottedBracket(inner: string, spaces: nat, rest: string)
    ensures ParseDotted(Spaces(spaces) + "[" + inner + rest) == ParseBracket(inner + rest)
  {
    hide Spaces, SkipSpaces, NameLength, ParseBracket;
    var t := "[" + inner + rest;
    assert Spaces(spaces) + "[" + inner + rest == Spaces(spaces) + t;
    SkipPrinted(spaces, t);
    assert t[1..] == inner + rest;
  }

  lemma ChildPrinted(name: string, st: Style, rest: string)
    requires LegalName(name) && Boundary(rest)
    ensures ParseOne(PrintMatcher(Child(name), st) + rest) == Next(Child(name), rest)
  {
    hide Spaces, ParseDotted, LegalName;
    var s := PrintMatcher(Child(name), st) + rest;
    assert s[1..] == Spaces(st.spaces) + name + rest;
    DottedName(name, st.spaces, rest);
  }

  /** The text of a bracket, with and without a dot before it. */
  lemma BracketText(inner: string, st: Style, rest: string)
    ensures inner + ("]" + rest) == inner + "]" + rest
    ensures
      var s := "." + Spaces(st.spaces) + "[" + inner + "]" + rest;
      s[0] == '.' && s[1..] == Spaces(st.spaces) + "[" + inner + ("]" + rest)
    ensures
      var s := "" + "[" + inner + "]" + rest;
      s[0] == '[' && s[1..] == inner + "]" + rest
  {
    hide Spaces;
  }

  lemma SubscriptPrinted(m: Matcher, st: Style, rest: string)
    requires (m.Subscript? || m.SubscriptAll?) && Legal(m)
    ensures ParseOne(PrintMatcher(m, st) + rest) == Next(m, rest)
  {
    BracketsPrinted(m, st, rest);
    BracketText(Inner(m, st), st, rest);
    hide Spaces, ParseDotted, ParseBracket, Inner, Legal;
    if st.dotted {
      DottedBracket(Inner(m, st), st.spaces, "]" + rest);
    }
  }

  /** Any way of writing a matcher reads back as that matcher. */
  lemma MatcherPrinted(m: Matcher, st: Style, rest: string)
    requires Legal(m) && Boundary(rest)
    ensures ParseOne(PrintMatcher(m, st) + rest) == Next(m, rest)
    ensures Boundary(PrintMatcher(m, st))
  {
    hide Spaces, ParseOne, Inner, LegalName;
    if m.Child? {
      ChildPrinted(m.name, st, rest);
    } else {
      SubscriptPrinted(m, st, rest);
    }
  }

  lemma {:induction false} PathPrinted(ms: seq<Matcher>, sts: seq<Style>)
    requires |ms| == |sts| && forall i :: 0 <= i < |ms| ==> Legal(ms[i])
    ensures ParseAll(PrintAll(ms, sts)) == Some(ms)
    ensures Boundary(PrintAll(ms, sts))
    decreases |ms|
  {
    hide ParseOne, PrintMatcher;
    if ms == [] {
      assert ParseOne("") == End;
    } else {
      PathPrinted(ms[1..], sts[1..]);
      var rest := PrintAll(ms[1..], sts[1..]);
      MatcherPrinted(ms[0], sts[0], rest);
      assert [ms[0]] + ms[1..] == ms;
      assert PrintMatcher(ms[0], sts[0]) != "";
    }
  }

  /** Printing any list of legal matchers in any style and parsing it gives the list back. */
  lemma RoundTrip(ms: seq<Matcher>, sts: seq<Style>)
    requires |ms| == |sts| && forall i :: 0 <= i < |ms| ==> Legal(ms[i])
    ensures ParsePath("$" + PrintAll(ms, sts)) == Some(ms)
  {
    PathPrinted(ms, sts);
    var s := "$" + PrintAll(ms, sts);
    assert s[1..] == PrintAll(ms, sts);
    assert ParseAll(s) == Some([Root] + ms);
    assert ([Root] + ms)[1..] == ms;
  }

  // Every accepted path is such a printing.

  lemma {:induction false} SkippedHead(s: string)
    ensures SkipSpaces(s) == [] || SkipSpaces(s)[0] != ' '
  {
    if s != [] && s[0] == ' ' { SkippedHead(s[1..]); }
  }

  lemma {:induction false} SkippedSpaces(s: string) returns (n: nat)
    ensures s == Spaces(n) + SkipSpaces(s)
    decreases |s|
  {
    if s != [] && s[0] == ' ' {
      var k := SkippedSpaces(s[1..]);
      n := k + 1;
      assert s == " " + s[1..];
      assert Spaces(n) + SkipSpaces(s) == " " + (Spaces(k) + SkipSpaces(s[1..]));
    } else {
      n := 0;
      assert Spaces(0) + s == s;
    }
  }

  lemma {:induction false} ZerosSnoc(n: nat)
    ensures Zeros(n) + "0" == Zeros(n + 1)
  {
  }

  lemma DigitPrinted(c: char)
    requires IsDigit(c)
    ensures PrintNat(DigitValue(c)) == [c]
  {
  }

  lemma NumberPrinted(v: nat, c: char)
    requires v > 0 && IsDigit(c)
    ensures PrintNat(10 * v + DigitValue(c)) == PrintNat(v) + [c]
  {
    var n := 10 * v + DigitValue(c);
    assert n / 10 == v && n % 10 == DigitValue(c);
  }

  /** Digits are zeros and the number in its shortest form. */
  lemma {:induction false} DigitsPrinted(d: string) returns (zeros: nat)
    requires d != [] && DigitsValue(d).Some?
    ensures d == Zeros(zeros) + PrintNat(DigitsValue(d).value)
    decreases |d|
  {
    hide Zeros;
    var n := |d| - 1;
    var front, last := d[..n], d[n];
    assert d == front + [last];
    DigitPrinted(last);
    if front == [] {
      zeros := 0;
      assert Zeros(0) + [last] == [last];
      assert DigitsValue(front) == Some(0);
    } else {
      var z := DigitsPrinted(front);
      var v := DigitsValue(front).value;
      if v > 0 {
        zeros := z;
        NumberPrinted(v, last);
        assert d == Zeros(z) + (PrintNat(v) + [last]);
      } else {
        zeros := z + 1;
        ZerosSnoc(z);
        assert PrintNat(0) == "0";
      }
    }
  }

  lemma UsizePrinted(s: string) returns (plus: bool, zeros: nat)
    requires ParseUsize(s).Some?
    ensures ParseUsize(s).value < USIZE_LIMIT
    ensures s == (if plus then "+" else "") + Zeros(zeros) + PrintNat(ParseUsize(s).value)
  {
    hide Zeros, PrintNat, DigitsValue;
    plus := s != [] && s[0] == '+';
    var digits := if plus then s[1..] else s;
    zeros := DigitsPrinted(digits);
    assert plus ==> s == "+" + digits;
  }

  lemma BracketIsPrinted(s: string) returns (st: Style)
    requires ParseBracket(s).Next?
    ensures
      var r := ParseBracket(s);
      (r.matcher.Subscript? || r.matcher.SubscriptAll?) && Legal(r.matcher) && s == Inner(r.matcher, st) + "]" + r.rest
  {
    hide ParseUsize, Zeros, PrintNat;
    var n := BracketLength(s);
    var inner := s[..n];
    assert s == inner + "]" + s[n + 1..];
    if inner == "" || inner == "*" {
      st := Style(0, false, inner == "*", false, 0);
    } else {
      var plus, zeros := UsizePrinted(inner);
      st := Style(0, false, false, plus, zeros);
    }
  }

  lemma InnerStyle(m: Matcher, st: Style, spaces: nat, dotted: bool)
    ensures Inner(m, st.(spaces := spaces, dotted := dotted)) == Inner(m, st)
  {
  }

  lemma DottedIsPrinted(s: string) returns (st: Style)
    requires ParseDotted(s).Next?
    ensures
      var r := ParseDotted(s);
      r.matcher != Root && Legal(r.matcher) && "." + s == PrintMatcher(r.matcher, st) + r.rest
  {
    hide SkipSpaces, ParseBracket, Inner, Spaces, NameLength;
    var k := SkippedSpaces(s);
    SkippedHead(s);
    var t := SkipSpaces(s);
    if t != [] && t[0] == '[' {
      var b := BracketIsPrinted(t[1..]);
      st := b.(spaces := k, dotted := true);
      var r := ParseBracket(t[1..]);
      InnerStyle(r.matcher, b, k, true);
      assert t == "[" + t[1..];
      assert "." + s == ("." + Spaces(k)) + "[" + Inner(r.matcher, st) + "]" + r.rest;
    } else {
      st := Style(k, false, false, false, 0);
      var n := NameLength(t);
      assert t == t[..n] + t[n..];
      assert "." + s == ("." + Spaces(k)) + t[..n] + t[n..];
    }
  }

  lemma BracketNoRoot(s: string)
    ensures ParseBracket(s).Next? ==> ParseBracket(s).matcher != Root
  {
  }

  lemma MatcherIsPrinted(s: string) returns (st: Style)
    requires ParseOne(s).Next? && ParseOne(s).matcher != Root
    ensures Legal(ParseOne(s).matcher) && s == PrintMatcher(ParseOne(s).matcher, st) + ParseOne(s).rest
  {
    hide ParseDotted, ParseBracket, Inner, Spaces;
    BracketNoRoot(s[1..]);
    if s[0] == '.' {
      st := DottedIsPrinted(s[1..]);
      assert s == "." + s[1..];
    } else {
      var b := BracketIsPrinted(s[1..]);
      st := b.(dotted := false);
      var r := ParseBracket(s[1..]);
      InnerStyle(r.matcher, b, b.spaces, false);
      assert s == "[" + s[1..];
      assert s == "" + "[" + Inner(r.matcher, st) + "]" + r.rest;
    }
  }

  lemma {:induction false} PathIsPrinted(s: string, ms: seq<Matcher>) returns (sts: seq<Style>)
    requires ParseAll(s) == Some(ms) && Root !in ms
    ensures |sts| == |ms| && (forall i :: 0 <= i < |ms| ==> Legal(ms[i])) && s == PrintAll(ms, sts)
    decreases |s|
  {
    hide ParseOne, PrintMatcher, Legal;
    if s == [] {
      sts := [];
    } else {
      var one := ParseOne(s);
      assert one.Next?;
      assert ms[0] == one.matcher && ms[1..] == ParseAll(one.rest).value;
      var rest := PathIsPrinted(one.rest, ms[1..]);
      var st := MatcherIsPrinted(s);
      sts := [st] + rest;
      assert sts[1..] == rest;
      forall i | 0 <= i < |ms| ensures Legal(ms[i]) {
        if i > 0 { assert ms[i] == ms[1..][i - 1]; }
      }
    }
  }

  ghost predicate Prints(path: string, ms: seq<Matcher>, sts: seq<Style>) {
    && |ms| == |sts| && (forall i :: 0 <= i < |ms| ==> Legal(ms[i]))
    && path == "$" + PrintAll(ms, sts)
  }

  lemma DottedNoRoot(s: string)
    ensures ParseDotted(s).Next? ==> ParseDotted(s).matcher != Root
  {
    hide SkipSpaces, NameLength, ParseBracket;
    var t := SkipSpaces(s);
    if t != [] { BracketNoRoot(t[1..]); }
  }

  lemma RootFirst(path: string)
    requires ParsePath(path).Some?
    ensures path != [] && path[0] == '$' && ParseAll(path[1..]) == Some(ParsePath(path).value)
    ensures Root !in ParsePath(path).value
  {
    hide ParseDotted, ParseBracket;
    assert path != [];
    BracketNoRoot(path[1..]);
    DottedNoRoot(path[1..]);
    var tail := ParseAll(path[1..]);
    assert path[0] == '$';
    assert ParseAll(path) == Some([Root] + tail.value);
    assert ([Root] + tail.value)[1..] == tail.value;
  }

  /** The language of paths: a text is accepted with certain matchers if and only if it is a printing of
      them in some style. */
  lemma PathsExactly(path: string, ms: seq<Matcher>)
    ensures ParsePath(path) == Some(ms) <==> exists sts :: Prints(path, ms, sts)
  {
    hide ParseAll, PrintAll, Legal;
    if sts :| Prints(path, ms, sts) {
      RoundTrip(ms, sts);
    }
    if ParsePath(path) == Some(ms) {
      RootFirst(path);
      var sts := PathIsPrinted(path[1..], ms);
      assert path == "$" + path[1..];
      assert Prints(path, ms, sts);
    }
  }

  predicate ParseBracketKind(t: string) {
    t != [] && ParseBracket(t[1..]).Next? ==> !ParseBracket(t[1..]).matcher.Child?
  }

  lemma BracketKind(t: string)
    ensures ParseBracketKind(t)
  {
  }

  lemma DottedYields(s: string)
    requires ParseDotted(s).Next? && ParseDotted(s).matcher.Child?
    ensures LegalName(ParseDotted(s).matcher.name)
  {
    hide SkipSpaces, ParseBracket;
    SkippedHead(s);
    assert ParseBracketKind(SkipSpaces(s)) by { BracketKind(SkipSpaces(s)); }
  }

  lemma ReadNameLegal(name: string)
    requires ParsePath("$." + name) == Some([Child(name)])
    ensures LegalName(name)
  {
    hide ParseDotted, LegalName;
    var s := "$." + name;
    assert s[1..] == "." + name && ("." + name)[1..] == name;
    assert ParseOne(s) == Next(Root, "." + name);
    assert ParseAll("." + name).value[0] == Child(name);
    assert ParseDotted(name).Next? && ParseDotted(name).matcher == Child(name);
    DottedYields(name);
  }

  lemma LegalNameReads(name: string)
    requires LegalName(name)
    ensures ParsePath("$." + name) == Some([Child(name)])
  {
    hide ParsePath, LegalName;
    var st := [Style(0, false, false, false, 0)];
    RoundTrip([Child(name)], st);
    assert PrintAll([Child(name)], st) == "." + name by {
      assert [Child(name)][1..] == [] && st[1..] == [];
      assert Spaces(0) == "";
    }
    assert "$" + ("." + name) == "$." + name;
  }

  /** A name reads back exactly when it is legal. */
  lemma NameRoundTrip(name: string)
    ensures ParsePath("$." + name) == Some([Child(name)]) <==> LegalName(name)
  {
    hide ParsePath, LegalName;
    if LegalName(name) {
      LegalNameReads(name);
    }
    if ParsePath("$." + name) == Some([Child(name)]) {
      ReadNameLegal(name);
    }
  }

  // ---------------------------------------------------------------------------------------------
  // Evaluation.

  datatype Json =
    | JNull | JBool(b: bool) | JNumber(text: string) | JString(text: string)
    | JArray(items: seq<Json>) | JObject(members: map<string, Json>)

  function Member(v: Json, name: string): Json {
    if v.JObject? && name in v.members then v.members[name] else JNull
  }

  function Opened(v: Json): seq<Json> { if v.JNull? then [] else if v.JArray? then v.items else [v] }

  /** The members of the elements of an array, nulls left out and arrays opened up. */
  function Members(items: seq<Json>, name: string): seq<Json> {
    if items == [] then []
    else
      Members(items[..|items| - 1], name) + Opened(Member(items[|items| - 1], name))
  }

  function EvalOne(m: Matcher, v: Json): Json {
    match m
    case Root => v
    case Child(name) =>
      if v.JObject? then Member(v, name)
      else if v.JArray? then
        var vs := Members(v.items, name);
        if vs == [] then JNull else JArray(vs)
      else JNull
    case Subscript(index) => if v.JArray? && index < |v.items| then v.items[index] else JNull
    case SubscriptAll => if v.JArray? then v else JNull
  }

  function Eval(ms: seq<Matcher>, v: Json): Json {
    if ms == [] then v else EvalOne(ms[|ms| - 1], Eval(ms[..|ms| - 1], v))
  }

  method Evaluate(ms: seq<Matcher>, root: Json) returns (v: Json)
    ensures v == Eval(ms, root)
  {
    v := root;
    for i := 0 to |ms|
      invariant v == Eval(ms[..i], root)
    {
      assert ms[..i + 1][..i] == ms[..i];
      v := EvalOne(ms[i], v);
    }
    assert ms[..|ms|] == ms;
  }

  /** Evaluating a path is evaluating its second part on the result of its first. */
  lemma {:induction false} EvalConcat(p: seq<Matcher>, q: seq<Matcher>, v: Json)
    ensures Eval(p + q, v) == Eval(q, Eval(p, v))
    decreases |q|
  {
    if q == [] {
      assert p + q == p;
    } else {
      assert (p + q)[..|p| + |q| - 1] == p + q[..|q| - 1];
      EvalConcat(p, q[..|q| - 1], v);
    }
  }

  /** Nothing is found in null. */
  lemma {:induction false} NullAbsorbs(ms: seq<Matcher>)
    ensures Eval(ms, JNull) == JNull
    decreases |ms|
  {
    if ms != [] { NullAbsorbs(ms[..|ms| - 1]); }
  }

  function Items(v: Json): seq<Json> { if v.JArray? then v.items else [] }

  /** Taking a member of an array distributes over concatenation. */
  lemma {:induction false} MembersConcat(a: seq<Json>, b: seq<Json>, name: string)
    ensures Members(a + b, name) == Members(a, name) + Members(b, name)
    decreases |b|
  {
    hide Member, Opened;
    if b == [] {
      assert a + b == a;
    } else {
      assert (a + b)[..|a| + |b| - 1] == a + b[..|b| - 1];
      MembersConcat(a, b[..|b| - 1], name);
    }
  }

  lemma ChildDistributes(a: seq<Json>, b: seq<Json>, name: string)
    ensures Items(EvalOne(Child(name), JArray(a + b))) ==
            Items(EvalOne(Child(name), JArray(a))) + Items(EvalOne(Child(name), JArray(b)))
  {
    MembersConcat(a, b, name);
  }

  // ---------------------------------------------------------------------------------------------
  // In one step or in two.

  /** The two JSON libraries, tried in this order: parsing, and serialising an array or an object. With
      `fallback`, texts that neither parses are kept for an evaluator of Spark's own. */
  datatype Codec = Codec(
    sonic: string -> Option<Json>, sonicText: Json -> Option<string>,
    serde: string -> Option<Json>, serdeText: Json -> Option<string>,
    fallback: bool, spark: (string, string) -> Option<string>)

  /** None when serialising fails, Some(None) for null. */
  function ToText(render: Json -> Option<string>, v: Json): Option<Option<string>> {
    match v
    case JNull => Some(None)
    case JString(text) => Some(Some(text))
    case JNumber(text) => Some(Some(text))
    case JBool(b) => Some(Some(if b then "true" else "false"))
    case _ => if render(v).Some? then Some(render(v)) else None
  }

  function SonicResult(codec: Codec, json: string, ms: seq<Matcher>): Option<Option<string>> {
    if codec.sonic(json).None? then None else ToText(codec.sonicText, Eval(ms, codec.sonic(json).value))
  }

  function SerdeResult(codec: Codec, json: string, ms: seq<Matcher>): Option<Option<string>> {
    if codec.serde(json).None? then None else ToText(codec.serdeText, Eval(ms, codec.serde(json).value))
  }

  /** The second library is tried when the first fails to parse, or fails to serialise the result. */
  function GetJsonObject(codec: Codec, json: string, path: string): Option<string> {
    match ParsePath(path)
    case None => None
    case Some(ms) =>
      if SonicResult(codec, json, ms).Some? then SonicResult(codec, json, ms).value
      else if SerdeResult(codec, json, ms).Some? then SerdeResult(codec, json, ms).value
      else None
  }

  datatype ParsedJson = Sonic(v: Json) | Serde(v: Json) | Fallback(text: string)

  function ParseJson(codec: Codec, json: string): Option<ParsedJson> {
    if json == "" then None
    else if codec.sonic(json).Some? then Some(Sonic(codec.sonic(json).value))
    else if codec.serde(json).Some? then Some(Serde(codec.serde(json).value))
    else if codec.fallback then Some(Fallback(json))
    else None
  }

  function GetParsedJsonObject(codec: Codec, parsed: Option<ParsedJson>, path: string): Option<string> {
    match ParsePath(path)
    case None => None
    case Some(ms) =>
      match parsed
      case None => None
      case Some(Sonic(v)) =>
        var text := ToText(codec.sonicText, Eval(ms, v));
        if text.Some? then text.value else None
      case Some(Serde(v)) =>
        var text := ToText(codec.serdeText, Eval(ms, v));
        if text.Some? then text.value else None
      case Some(Fallback(text)) => codec.spark(text, path)
  }

  /** The first library parses the text but cannot serialise what is found, and the second finds something. */
  predicate SecondChance(codec: Codec, json: string, ms: seq<Matcher>) {
    && codec.sonic(json).Some? && SonicResult(codec, json, ms).None?
    && SerdeResult(codec, json, ms).Some? && SerdeResult(codec, json, ms).value.Some?
  }

  /** Neither library parses the text, and the fallback finds something. */
  predicate ThirdChance(codec: Codec, json: string, path: string) {
    && json != "" && codec.sonic(json).None? && codec.serde(json).None?
    && codec.fallback && codec.spark(json, path).Some?
  }

  /** On a legal path the two ways agree if and only if neither chance arises; on an illegal one they
      always do. The empty text is JSON for neither library. */
  lemma TwoStepsAreOne(codec: Codec, json: string, path: string)
    requires codec.sonic("").None? && codec.serde("").None?
    ensures GetJsonObject(codec, json, path) == GetParsedJsonObject(codec, ParseJson(codec, json), path) <==>
      match ParsePath(path)
      case None => true
      case Some(ms) => !SecondChance(codec, json, ms) && !ThirdChance(codec, json, path)
  {
    hide ParsePath, Eval;
  }

  /** In particular they agree whenever serialising cannot fail and the fallback is off. */
  lemma TwoStepsWithoutChances(codec: Codec, json: string, path: string)
    requires codec.sonic("").None? && codec.serde("").None?
    requires (forall v :: codec.sonicText(v).Some?) && !codec.fallback
    ensures GetJsonObject(codec, json, path) == GetParsedJsonObject(codec, ParseJson(codec, json), path)
  {
    hide ParsePath, Eval;
    TwoStepsAreOne(codec, json, path);
  }

  /** A text that neither library parses and the fallback answers for makes them differ: the one-shot way
      never asks the fallback. */
  lemma FallbackDiffers(json: string, answer: string)
    requires json != ""
    ensures
      var codec := Codec((s: string) => None, (v: Json) => Some(""), (s: string) => None, (v: Json) => Some(""), true,
                         (s: string, p: string) => Some(answer));
      && GetJsonObject(codec, json, "$") == None
      && GetParsedJsonObject(codec, ParseJson(codec, json), "$") == Some(answer)
  {
    RoundTrip([], []);
    assert "$" + PrintAll([], []) == "$";
  }

  /** A library that parses and cannot serialise makes them differ. */
  lemma TwoStepsDiffer()
    ensures
      var parse := (s: string) => if s == "" then None else Some(JArray([]));
      var codec := Codec(parse, (v: Json) => None, parse, (v: Json) => Some("[]"), false,
                         (s: string, p: string) => None);
      && GetJsonObject(codec, "[]", "$") == Some("[]")
      && GetParsedJsonObject(codec, ParseJson(codec, "[]"), "$") == None
  {
    RoundTrip([], []);
    assert "$" + PrintAll([], []) == "$";
  }

  // ---------------------------------------------------------------------------------------------
  // Evaluation against documents: what is put at a position is found there.

  /** One step down into a document. */
  datatype Step = Name(name: string) | At(index: nat)

  type Position = seq<Step>

  function MatcherOf(step: Step): Matcher { if step.Name? then Child(step.name) else Subscript(step.index) }

  function PathOf(p: Position): seq<Matcher> { seq(|p|, i requires 0 <= i < |p| => MatcherOf(p[i])) }

  function ItemOr(items: seq<Json>, i: nat): Json { if i < |items| then items[i] else JNull }

  /** The array with an element set, lengthened with nulls as far as needed. */
  function SetItem(items: seq<Json>, i: nat, v: Json): (r: seq<Json>)
    ensures |r| == if i < |items| then |items| else i + 1
    ensures forall j :: 0 <= j < |r| ==> r[j] == if j == i then v else ItemOr(items, j)
  {
    seq(if i < |items| then |items| else i + 1, j requires 0 <= j => if j == i then v else ItemOr(items, j))
  }

  /** What a document holds at a step, null where it holds nothing. */
  function Part(doc: Json, step: Step): Json {
    match step
    case Name(name) => if doc.JObject? && name in doc.members then doc.members[name] else JNull
    case At(i) => if doc.JArray? then ItemOr(doc.items, i) else JNull
  }

  /** The document with `x` at a position; what is not an object or array on the way is replaced by one. */
  function Put(doc: Json, p: Position, x: Json): Json
    decreases |p|
  {
    if p == [] then x
    else
      var part := Put(Part(doc, p[0]), p[1..], x);
      match p[0]
      case Name(name) => JObject((if doc.JObject? then doc.members else map[])[name := part])
      case At(i) => JArray(SetItem(if doc.JArray? then doc.items else [], i, part))
  }

  lemma EvalCons(m: Matcher, ms: seq<Matcher>, v: Json)
    ensures Eval([m] + ms, v) == Eval(ms, EvalOne(m, v))
  {
    EvalConcat([m], ms, v);
    assert [m][..0] == [];
    assert Eval([m], v) == EvalOne(m, Eval([], v));
  }

  lemma NoPath(v: Json)
    ensures PathOf([]) == [] && Eval([], v) == v
  {
  }

  lemma PathCons(p: Position, v: Json)
    requires p != []
    ensures Eval(PathOf(p), v) == Eval(PathOf(p[1..]), EvalOne(MatcherOf(p[0]), v))
  {
    hide Eval, EvalOne;
    EvalCons(MatcherOf(p[0]), PathOf(p[1..]), v);
    assert PathOf(p) == [MatcherOf(p[0])] + PathOf(p[1..]);
  }

  lemma InsideOne(doc: Json, p: Position, x: Json)
    requires p != []
    ensures EvalOne(MatcherOf(p[0]), Put(doc, p, x)) == Put(Part(doc, p[0]), p[1..], x)
  {
  }

  /** What was put at a position is what its path finds. */
  lemma {:induction false} GetPut(doc: Json, p: Position, x: Json)
    ensures Eval(PathOf(p), Put(doc, p, x)) == x
    decreases |p|
  {
    hide Eval, PathOf, EvalOne;
    if p == [] {
      NoPath(x);
    } else {
      PathCons(p, Put(doc, p, x));
      InsideOne(doc, p, x);
      GetPut(Part(doc, p[0]), p[1..], x);
    }
  }

  /** A name does not go into an array, nor an index into an object. */
  predicate Suits(doc: Json, step: Step) { if step.Name? then !doc.JArray? else !doc.JObject? }

  /** No step of the position replaces an object or an array. */
  predicate Fits(doc: Json, p: Position)
    decreases |p|
  {
    p == [] || (Suits(doc, p[0]) && Fits(Part(doc, p[0]), p[1..]))
  }

  lemma FoundAt(doc: Json, step: Step)
    requires Suits(doc, step)
    ensures EvalOne(MatcherOf(step), doc) == Part(doc, step)
  {
  }

  lemma BesideOne(doc: Json, put: Position, b: Step, x: Json)
    requires put != [] && put[0] != b && Suits(doc, put[0]) && (b.Name? ==> put[0].Name?)
    ensures EvalOne(MatcherOf(b), Put(doc, put, x)) == EvalOne(MatcherOf(b), doc)
  {
  }

  /** A path that parts from the position at some step finds what it found before, unless it parts by a name
      where the position has an index: a name is asked of every element of an array. */
  lemma {:induction false} GetPutElsewhere(
      doc: Json, common: Position, a: Step, p: Position, b: Step, q: Position, x: Json)
    requires a != b && Fits(doc, common + [a]) && (b.Name? ==> a.Name?)
    ensures Eval(PathOf(common + [b] + q), Put(doc, common + [a] + p, x)) == Eval(PathOf(common + [b] + q), doc)
    decreases |common|
  {
    hide Eval, PathOf, EvalOne, Put, Part, Suits;
    var put, get := common + [a] + p, common + [b] + q;
    PathCons(get, Put(doc, put, x));
    PathCons(get, doc);
    if common == [] {
      assert put[0] == a && get[0] == b && [] + [a] == [a];
      BesideOne(doc, put, b, x);
    } else {
      var rest := common[1..];
      assert (common + [a])[1..] == rest + [a];
      assert put[1..] == rest + [a] + p && get[1..] == rest + [b] + q;
      InsideOne(doc, put, x);
      FoundAt(doc, common[0]);
      GetPutElsewhere(Part(doc, common[0]), rest, a, p, b, q, x);
    }
  }

  /** A member asked of an array of one element: an object's member in an array of its own, unless it is
      null; the elements of a member that is an array; nothing otherwise. */
  lemma ChildOfOne(item: Json, name: string)
    ensures
      EvalOne(Child(name), JArray([item])) ==
      if !item.JObject? || name !in item.members then JNull
      else
        match item.members[name]
        case JNull => JNull
        case JArray(items) => if items == [] then JNull else JArray(items)
        case v => JArray([v])
  {
    assert [item][..0] == [] && Members([], name) == [];
    assert Members([item], name) == Members([], name) + Opened(Member(item, name));
    assert [] + Opened(Member(item, name)) == Opened(Member(item, name));
  }

  /** Values without parts have no members and no elements, objects no elements; the star keeps arrays. */
  lemma NothingInside(v: Json, name: string, i: nat)
    ensures !v.JObject? && !v.JArray? ==> EvalOne(Child(name), v) == JNull
    ensures !v.JArray? ==> EvalOne(Subscript(i), v) == JNull && EvalOne(SubscriptAll, v) == JNull
    ensures v.JArray? ==> EvalOne(SubscriptAll, v) == v && (i >= |v.items| ==> EvalOne(Subscript(i), v) == JNull)
  {
  }

  /** The text of a whole document that is a string, a number, a truth value or null. */
  lemma ScalarText(codec: Codec, json: string, text: string)
    ensures codec.sonic(json) == Some(JString(text)) ==> GetJsonObject(codec, json, "$") == Some(text)
    ensures codec.sonic(json) == Some(JNumber(text)) ==> GetJsonObject(codec, json, "$") == Some(text)
    ensures codec.sonic(json) == Some(JBool(true)) ==> GetJsonObject(codec, json, "$") == Some("true")
    ensures codec.sonic(json) == Some(JBool(false)) ==> GetJsonObject(codec, json, "$") == Some("false")
    ensures codec.sonic(json) == Some(JNull) ==> GetJsonObject(codec, json, "$") == None
  {
    RoundTrip([], []);
    assert "$" + PrintAll([], []) == "$";
    hide ParsePath;
  }

  lemma PrintedIndex(n: nat, st: Style)
    requires st == Style(0, false, false, false, 0)
    ensures PrintAll([Subscript(n)], [st]) == "[" + PrintNat(n) + "]"
  {
    hide PrintNat;
    assert [Subscript(n)][1..] == [] && [st][1..] == [];
    assert Zeros(0) + PrintNat(n) == PrintNat(n);
    assert Inner(Subscript(n), st) == "" + Zeros(0) + PrintNat(n) == PrintNat(n);
    assert PrintAll([Subscript(n)], [st]) == PrintMatcher(Subscript(n), st) + "";
  }

  lemma TooLarge(path: string, n: nat)
    requires n >= USIZE_LIMIT
    ensures ParsePath(path) != Some([Subscript(n)])
  {
    hide ParsePath, PrintAll;
    PathsExactly(path, [Subscript(n)]);
    assert !Legal([Subscript(n)][0]);
  }

  /** A number between brackets is accepted exactly below 2^64. */
  lemma IndexLimit(n: nat)
    ensures ParsePath("$" + ("[" + PrintNat(n) + "]")) == Some([Subscript(n)]) <==> n < 18_446_744_073_709_551_616
  {
    hide ParsePath, PrintNat, PrintAll;
    var st := Style(0, false, false, false, 0);
    if n < 18_446_744_073_709_551_616 {
      RoundTrip([Subscript(n)], [st]);
      PrintedIndex(n, st);
    } else {
      TooLarge("$" + ("[" + PrintNat(n) + "]"), n);
    }
  }
}
