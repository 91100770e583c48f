/** The reader inverts the printer, and `Load` accepts canonical texts and nothing else. */
module JsonProofs {
  import opened Results
  import opened Order
  import opened Utf8
  import opened Json

  // ------------------------------------------------------- well-formed values

  /** A fractional number's text is one that the reader takes whole. */
  predicate IsReal(lexeme: string) {
    ParseNumber(lexeme) == Read(Real(lexeme), "")
  }

  /** Every object at every depth has distinct member names. */
  ghost predicate WellFormed(v: Json) {
    match v
    case Real(lexeme) => IsReal(lexeme)
    case Arr(items) => forall i | 0 <= i < |items| :: WellFormed(items[i])
    case Obj(fields) => DistinctKeys(fields) && forall i | 0 <= i < |fields| :: WellFormed(fields[i].value)
    case _ => true
  }

  /** Every object at every depth has its members strictly in key order. */
  ghost predicate Ordered(v: Json) {
    match v
    case Real(lexeme) => IsReal(lexeme)
    case Arr(items) => forall i | 0 <= i < |items| :: Ordered(items[i])
    case Obj(fields) => StrictlySorted(fields, FieldKey) && forall i | 0 <= i < |fields| :: Ordered(fields[i].value)
    case _ => true
  }

  /** Ordered, and every float at every depth is spelled as it prints. */
  ghost predicate Canonical(v: Json) {
    match v
    case Real(lexeme) => IsReal(lexeme) && lexeme in FLOAT_TEXTS
    case Arr(items) => forall i | 0 <= i < |items| :: Canonical(items[i])
    case Obj(fields) => StrictlySorted(fields, FieldKey) && forall i | 0 <= i < |fields| :: Canonical(fields[i].value)
    case _ => true
  }

  /** What may follow a printed value. */
  predicate Delimited(rest: string) {
    rest == "" || rest[0] == ',' || rest[0] == ']' || rest[0] == '}'
  }

  lemma Associate(a: string, b: string, c: string)
    ensures a + b + c == a + (b + c)
  {
  }

  lemma JoinLists(head: string, tail: string, close: string, rest: string)
    ensures head + "," + tail + close + rest == head + ("," + (tail + close + rest))
  {
  }

  lemma AppendDrop(s: string, rest: string, i: nat)
    requires i <= |s|
    ensures (s + rest)[i..] == s[i..] + rest
  {
  }

  lemma DropTake(s: string, i: nat, n: nat)
    requires i <= n <= |s|
    ensures s[..n][i..] == s[i..][..n - i]
  {
  }

  // ------------------------------------------------------------------ numbers

  lemma {:induction false} PrintNatDigits(n: nat)
    ensures PrintNat(n) != "" && forall i | 0 <= i < |PrintNat(n)| :: IsDigit(PrintNat(n)[i])
    ensures PrintNat(n)[0] == '0' ==> PrintNat(n) == "0"
    ensures NatValue(PrintNat(n)) == n
  {
    if n >= 10 {
      PrintNatDigits(n / 10);
      var s := PrintNat(n);
      assert s[..|s| - 1] == PrintNat(n / 10);
      assert s[0] == PrintNat(n / 10)[0];
    } else {
      assert [Digit(n)][..0] == "";
    }
  }

  lemma {:induction false} DigitSpanAppend(s: string, rest: string)
    requires rest == "" || !IsDigit(rest[0]) || DigitSpan(s) < |s|
    ensures DigitSpan(s + rest) == DigitSpan(s)
  {
    if s == "" {
      assert s + rest == rest;
    } else {
      assert (s + rest)[1..] == s[1..] + rest;
      if IsDigit(s[0]) {
        DigitSpanAppend(s[1..], rest);
      }
    }
  }

  lemma {:induction false} DigitSpanAll(s: string)
    requires forall i | 0 <= i < |s| :: IsDigit(s[i])
    ensures DigitSpan(s) == |s|
  {
    if s != "" {
      DigitSpanAll(s[1..]);
    }
  }

  lemma {:induction false} DigitSpanIsDigits(s: string)
    ensures forall i | 0 <= i < DigitSpan(s) :: IsDigit(s[i])
    ensures DigitSpan(s) < |s| ==> !IsDigit(s[DigitSpan(s)])
  {
    if s != "" && IsDigit(s[0]) {
      DigitSpanIsDigits(s[1..]);
    }
  }

  /** Taking the span, or anything beyond it that does not start with a digit, keeps it. */
  lemma {:induction false} DigitSpanTake(s: string, n: nat)
    requires DigitSpan(s) <= n <= |s|
    ensures DigitSpan(s[..n]) == DigitSpan(s)
  {
    if s != "" && IsDigit(s[0]) {
      assert s[..n][1..] == s[1..][..n - 1];
      DigitSpanTake(s[1..], n - 1);
    }
  }

  lemma IntegerSpanOf(minus: string, digits: string, rest: string)
    requires minus == "" || minus == "-"
    requires digits != "" && forall i | 0 <= i < |digits| :: IsDigit(digits[i])
    requires digits[0] == '0' ==> |digits| == 1
    requires rest == "" || !IsDigit(rest[0])
    ensures IntegerSpan(minus + digits + rest) == |minus + digits|
  {
    var s := minus + digits + rest;
    assert s[|minus|..] == digits + rest;
    assert s[|minus|] == digits[0];
    DigitSpanAll(digits);
    DigitSpanAppend(digits, rest);
  }

  lemma PrintIntSpan(n: int, rest: string)
    requires Delimited(rest)
    ensures IntegerSpan(PrintInt(n) + rest) == |PrintInt(n)| > 0
    ensures PrintInt(n)[0] == '-' || IsDigit(PrintInt(n)[0])
    ensures IntegerValue(PrintInt(n)) == n
  {
    var minus := if n < 0 then "-" else "";
    var digits := if n < 0 then PrintNat(-n) else PrintNat(n);
    PrintNatDigits(if n < 0 then -n else n);
    assert PrintInt(n) == minus + digits;
    IntegerSpanOf(minus, digits, rest);
    assert PrintInt(n)[|minus|..] == digits;
  }

  lemma PrintIntParses(n: int, rest: string)
    requires Delimited(rest)
    ensures ParseNumber(PrintInt(n) + rest) == Read(Int(n), rest)
  {
    PrintIntSpan(n, rest);
    var p := PrintInt(n);
    assert (p + rest)[|p|..] == rest && (p + rest)[..|p|] == p;
  }

  lemma FractionSpanAppend(s: string, rest: string)
    requires Delimited(rest)
    ensures FractionSpan(s + rest) == FractionSpan(s)
  {
    if |s| >= 1 {
      assert (s + rest)[1..] == s[1..] + rest;
      DigitSpanAppend(s[1..], rest);
    }
  }

  lemma ExponentSpanAppend(s: string, rest: string)
    requires Delimited(rest)
    ensures ExponentSpan(s + rest) == ExponentSpan(s)
  {
    if |s| >= 1 && (s[0] == 'e' || s[0] == 'E') {
      assert (s + rest)[1..] == s[1..] + rest;
      DigitSpanAppend(s[1..], rest);
      if |s| >= 2 {
        assert (s + rest)[1] == s[1];
        assert (s + rest)[2..] == s[2..] + rest;
        DigitSpanAppend(s[2..], rest);
      } else if rest != "" {
        assert (s + rest)[1] == rest[0];
      }
    }
  }

  lemma IntegerSpanAppend(s: string, rest: string)
    requires Delimited(rest)
    ensures IntegerSpan(s + rest) == IntegerSpan(s)
  {
    var sign := if s != "" && s[0] == '-' then 1 else 0;
    assert (s + rest)[sign..] == s[sign..] + rest;
    DigitSpanAppend(s[sign..], rest);
  }

  lemma NumberSpanParts(s: string, i: nat, f: nat)
    requires 0 < i <= |s| && i == IntegerSpan(s) && f == FractionSpan(s[i..])
    ensures NumberSpan(s) == i + f + ExponentSpan(s[i + f..])
  {
  }

  lemma NumberSpanAppend(s: string, rest: string)
    requires IntegerSpan(s) > 0 && Delimited(rest)
    ensures NumberSpan(s + rest) == NumberSpan(s)
  {
    var i := IntegerSpan(s);
    var f := FractionSpan(s[i..]);
    IntegerSpanAppend(s, rest);
    AppendDrop(s, rest, i);
    FractionSpanAppend(s[i..], rest);
    AppendDrop(s, rest, i + f);
    ExponentSpanAppend(s[i + f..], rest);
    NumberSpanParts(s, i, f);
    NumberSpanParts(s + rest, i, f);
  }

  lemma RealParses(lexeme: string, rest: string)
    requires IsReal(lexeme) && Delimited(rest)
    ensures ParseNumber(lexeme + rest) == Read(Real(lexeme), rest)
    ensures lexeme[0] == '-' || IsDigit(lexeme[0])
  {
    NumberSpanAppend(lexeme, rest);
    IntegerSpanAppend(lexeme, rest);
    var n := NumberSpan(lexeme);
    assert lexeme[..n] + lexeme[n..] == lexeme;
    assert (lexeme + rest)[..n] == lexeme && (lexeme + rest)[n..] == rest;
  }

  lemma IntegerSpanTake(s: string, n: nat)
    requires IntegerSpan(s) <= n <= |s|
    requires n > IntegerSpan(s) ==> !IsDigit(s[IntegerSpan(s)])
    ensures IntegerSpan(s[..n]) == IntegerSpan(s)
  {
    var sign := if s != "" && s[0] == '-' then 1 else 0;
    if IntegerSpan(s) > 0 {
      var t := s[sign..];
      DigitSpanIsDigits(t);
      if t[0] == '0' && DigitSpan(t) > 1 {
        assert s[sign + 1] == t[1];
        if n == sign + 1 {
          assert s[..n][sign..] == [t[0]];
          DigitSpanAll([t[0]]);
        }
      } else {
        DigitSpanTake(t, n - sign);
        assert s[..n][sign..] == t[..n - sign];
      }
    }
  }

  lemma FractionSpanTake(s: string, n: nat)
    requires FractionSpan(s) <= n <= |s|
    requires FractionSpan(s) == 0 && n > 0 ==> s[0] != '.'
    ensures FractionSpan(s[..n]) == FractionSpan(s)
  {
    if FractionSpan(s) > 0 {
      DigitSpanTake(s[1..], n - 1);
      assert s[..n][1..] == s[1..][..n - 1];
    }
  }

  lemma ExponentSpanTake(s: string)
    ensures ExponentSpan(s[..ExponentSpan(s)]) == ExponentSpan(s)
  {
    var n := ExponentSpan(s);
    if n > 0 {
      var k := if s[1] == '+' || s[1] == '-' then 2 else 1;
      DigitSpanTake(s[k..], n - k);
      assert s[..n][k..] == s[k..][..n - k];
    }
  }

  lemma AfterInteger(s: string, i: nat)
    requires i <= |s| && FractionSpan(s[i..]) + ExponentSpan(s[i + FractionSpan(s[i..])..]) > 0
    ensures i < |s| && (s[i] == 'e' || s[i] == 'E' || s[i] == '.')
    ensures FractionSpan(s[i..]) == 0 ==> s[i] != '.'
  {
    var u := s[i..];
    var f := FractionSpan(u);
    if f > 0 {
      assert u[0] == '.' && u[0] == s[i];
    } else {
      var w := s[i + f..];
      assert w == u && (w[0] == 'e' || w[0] == 'E') && w[0] == s[i];
    }
  }

  lemma FractionSpanInside(s: string, i: nat, n: nat)
    requires i <= n <= |s| && FractionSpan(s[i..]) <= n - i
    requires FractionSpan(s[i..]) == 0 && i < n ==> s[i] != '.'
    ensures FractionSpan(s[..n][i..]) == FractionSpan(s[i..])
  {
    DropTake(s, i, n);
    if i < |s| {
      assert s[i..][0] == s[i];
    }
    FractionSpanTake(s[i..], n - i);
  }

  lemma ExponentSpanInside(s: string, i: nat)
    requires i <= |s|
    ensures ExponentSpan(s[..i + ExponentSpan(s[i..])][i..]) == ExponentSpan(s[i..])
  {
    DropTake(s, i, i + ExponentSpan(s[i..]));
    ExponentSpanTake(s[i..]);
  }

  lemma SpansTake(s: string, i: nat, f: nat, e: nat, n: nat)
    requires i <= |s| && i == IntegerSpan(s) && f == FractionSpan(s[i..]) && e == ExponentSpan(s[i + f..])
    requires n == i + f + e && f + e > 0
    ensures IntegerSpan(s[..n]) == i && FractionSpan(s[..n][i..]) == f && ExponentSpan(s[..n][i + f..]) == e
  {
    AfterInteger(s, i);
    IntegerSpanTake(s, n);
    FractionSpanInside(s, i, n);
    ExponentSpanInside(s, i + f);
  }

  /** A number with a fraction or an exponent has the same spans when nothing follows it. */
  lemma NumberSpanTake(s: string)
    requires NumberSpan(s) > IntegerSpan(s)
    ensures IntegerSpan(s[..NumberSpan(s)]) == IntegerSpan(s)
    ensures NumberSpan(s[..NumberSpan(s)]) == NumberSpan(s)
  {
    var i := IntegerSpan(s);
    var f := FractionSpan(s[i..]);
    NumberSpanParts(s, i, f);
    SpansTake(s, i, f, ExponentSpan(s[i + f..]), NumberSpan(s));
    NumberSpanParts(s[..NumberSpan(s)], i, f);
  }

  lemma ParsedRealIsReal(s: string)
    requires ParseNumber(s).Read? && ParseNumber(s).value.Real?
    ensures IsReal(ParseNumber(s).value.lexeme)
  {
    NumberSpanTake(s);
    var n := NumberSpan(s);
    assert s[..n][..n] == s[..n] && s[..n][n..] == "";
  }

  // ------------------------------------------------------------------ strings

  lemma PrintCharParses(c: char, rest: string)
    ensures PrintChar(c) != "" && PrintChar(c)[0] != '"'
    ensures ParseChar(PrintChar(c) + rest) == Read(c, rest)
  {
    var p := PrintChar(c);
    var s := p + rest;
    assert s[|p|..] == rest;
    assert s[0] == p[0];
    if |p| == 2 {
      assert s[1..][0] == p[1] && s[1..][1..] == rest;
    } else if |p| == 6 {
      var u := s[1..][1..];
      assert u[0] == '0' && u[1] == '0' && u[2] == p[4] && u[3] == p[5];
      assert u[4..] == rest;
    }
  }

  lemma {:induction false} PrintCharsParse(t: string, rest: string)
    ensures ParseChars(PrintChars(t) + "\"" + rest) == Read(t, rest)
  {
    if t == "" {
      assert (PrintChars(t) + "\"" + rest)[1..] == rest;
    } else {
      var tail := PrintChars(t[1..]) + "\"" + rest;
      PrintCharParses(t[0], tail);
      Associate(PrintChar(t[0]) + PrintChars(t[1..]), "\"", rest);
      Associate(PrintChar(t[0]), PrintChars(t[1..]), "\"" + rest);
      Associate(PrintChars(t[1..]), "\"", rest);
      PrintCharsParse(t[1..], rest);
      assert t == [t[0]] + t[1..];
    }
  }

  lemma PrintStringParses(t: string, rest: string)
    ensures PrintString(t)[0] == '"'
    ensures ParseChars((PrintString(t) + rest)[1..]) == Read(t, rest)
  {
    assert (PrintString(t) + rest)[1..] == PrintChars(t) + "\"" + rest;
    PrintCharsParse(t, rest);
  }

  // ------------------------------------------------- the reader inverts print

  lemma PrintStartsAValue(v: Json)
    requires WellFormed(v)
    ensures Print(v) != "" && !IsSpace(Print(v)[0]) && Print(v)[0] != ']' && Print(v)[0] != '}'
  {
    match v
    case Int(n) => PrintIntSpan(n, "");
    case Real(lexeme) => RealParses(lexeme, "");
    case _ =>
  }

  lemma NothingToSkip(s: string)
    requires s == "" || !IsSpace(s[0])
    ensures SkipSpace(s) == s
  {
  }

  lemma ParsePrintLiteral(v: Json, rest: string)
    requires v.Null? || v.Bool?
    ensures ParseValue(Print(v) + rest) == Read(v, rest)
  {
    var p := Print(v);
    var s := p + rest;
    assert s[..|p|] == p && s[|p|..] == rest;
    assert s[0] == p[0];
  }

  lemma OtherStart(word: string, s: string)
    requires word != "" && s != "" && word[0] != s[0]
    ensures !(word <= s)
  {
  }

  lemma NumberIsScalar(s: string)
    requires s != "" && (s[0] == '-' || IsDigit(s[0]))
    ensures ParseScalar(s) == ParseNumber(s)
  {
    OtherStart("null", s);
    OtherStart("true", s);
    OtherStart("false", s);
  }

  lemma ScalarIsParsed(s: string)
    requires s != "" && s[0] != '"' && s[0] != '{' && s[0] != '['
    ensures ParseValue(s) == ParseScalar(s)
  {
  }

  lemma NumberIsParsed(s: string)
    requires s != "" && (s[0] == '-' || IsDigit(s[0]))
    ensures ParseValue(s) == ParseNumber(s)
  {
    ScalarIsParsed(s);
    NumberIsScalar(s);
  }

  lemma ParsePrintNumber(v: Json, rest: string)
    requires v.Int? || v.Real?
    requires WellFormed(v) && Delimited(rest)
    ensures ParseValue(Print(v) + rest) == Read(v, rest)
  {
    if v.Int? {
      PrintIntParses(v.n, rest);
      PrintIntSpan(v.n, rest);
    } else {
      RealParses(v.lexeme, rest);
    }
    assert (Print(v) + rest)[0] == Print(v)[0];
    NumberIsParsed(Print(v) + rest);
  }

  lemma ArrayIsParsed(body: string, items: seq<Json>, rest: string)
    requires body != "" && !IsSpace(body[0]) && body[0] != ']'
    requires ParseItems(body) == Read(items, rest)
    ensures ParseValue("[" + body) == Read(Arr(items), rest)
  {
    assert ("[" + body)[1..] == body;
    NothingToSkip(body);
  }

  lemma ObjectIsParsed(body: string, fields: seq<Field>, rest: string)
    requires body != "" && body[0] == '"' && DistinctKeys(fields)
    requires ParseMembers(body) == Read(fields, rest)
    ensures ParseValue("{" + body) == Read(Obj(fields), rest)
  {
    assert ("{" + body)[1..] == body;
    NothingToSkip(body);
  }

  lemma EmptyIsParsed(rest: string)
    ensures ParseValue("[]" + rest) == Read(Arr([]), rest)
    ensures ParseValue("{}" + rest) == Read(Obj([]), rest)
  {
    assert ("[]" + rest)[1..] == "]" + rest && ("]" + rest)[1..] == rest;
    assert ("{}" + rest)[1..] == "}" + rest && ("}" + rest)[1..] == rest;
    NothingToSkip("]" + rest);
    NothingToSkip("}" + rest);
  }

  /** Reading a printed value gives the value back, whatever delimiter follows. */
  lemma {:induction false} ParsePrint(v: Json, rest: string)
    requires WellFormed(v) && Delimited(rest)
    ensures ParseValue(Print(v) + rest) == Read(v, rest)
    decreases v, 2
  {
    match v
    case Str(t) =>
      PrintStringParses(t, rest);
      assert (Print(v) + rest)[0] == '"';
    case Arr(items) =>
      if items == [] {
        EmptyIsParsed(rest);
      } else {
        ParsePrintItems(items, v, rest);
        PrintItemsStart(items);
        ArrayIsParsed(PrintItems(items) + "]" + rest, items, rest);
        Associate("[", PrintItems(items) + "]", rest);
        Associate("[", PrintItems(items), "]");
      }
    case Obj(fields) =>
      if fields == [] {
        EmptyIsParsed(rest);
      } else {
        ParsePrintMembers(fields, v, rest);
        PrintMembersStart(fields);
        ObjectIsParsed(PrintMembers(fields) + "}" + rest, fields, rest);
        Associate("{", PrintMembers(fields) + "}", rest);
        Associate("{", PrintMembers(fields), "}");
      }
    case Int(_) => ParsePrintNumber(v, rest);
    case Real(_) => ParsePrintNumber(v, rest);
    case _ => ParsePrintLiteral(v, rest);
  }

  lemma LastItem(p: string, v: Json, rest: string)
    requires ParseValue(p + ("]" + rest)) == Read(v, "]" + rest)
    ensures ParseItems(p + "]" + rest) == Read([v], rest)
  {
    Associate(p, "]", rest);
    NothingToSkip("]" + rest);
    assert ("]" + rest)[1..] == rest;
  }

  lemma ItemsAfterComma(s: string, v: Json, tail: string, items: seq<Json>, rest: string)
    requires ParseValue(s) == Read(v, "," + tail)
    requires tail != "" && !IsSpace(tail[0]) && ParseItems(tail) == Read(items, rest)
    ensures ParseItems(s) == Read([v] + items, rest)
  {
    NothingToSkip("," + tail);
    assert ("," + tail)[1..] == tail;
    NothingToSkip(tail);
  }

  lemma NextItem(p: string, ps: string, v: Json, items: seq<Json>, rest: string)
    requires ParseValue(p + ("," + (ps + "]" + rest))) == Read(v, "," + (ps + "]" + rest))
    requires ps != "" && !IsSpace(ps[0]) && ParseItems(ps + "]" + rest) == Read(items, rest)
    ensures ParseItems(p + "," + ps + "]" + rest) == Read([v] + items, rest)
  {
    JoinLists(p, ps, "]", rest);
    ItemsAfterComma(p + ("," + (ps + "]" + rest)), v, ps + "]" + rest, items, rest);
  }

  lemma PrintItemsStart(items: seq<Json>)
    requires items != [] && WellFormed(items[0])
    ensures PrintItems(items) != "" && !IsSpace(PrintItems(items)[0]) && PrintItems(items)[0] != ']'
  {
    PrintStartsAValue(items[0]);
  }

  lemma {:induction false} ParsePrintItems(items: seq<Json>, v: Json, rest: string)
    requires items != [] && forall i | 0 <= i < |items| :: WellFormed(items[i]) && items[i] < v
    ensures ParseItems(PrintItems(items) + "]" + rest) == Read(items, rest)
    decreases v, 1, |items|
  {
    if |items| == 1 {
      ParsePrint(items[0], "]" + rest);
      LastItem(Print(items[0]), items[0], rest);
      assert items == [items[0]];
    } else {
      var others := items[1..];
      assert ParseValue(Print(items[0]) + ("," + (PrintItems(others) + "]" + rest)))
             == Read(items[0], "," + (PrintItems(others) + "]" + rest)) by {
        ParsePrint(items[0], "," + (PrintItems(others) + "]" + rest));
      }
      assert ParseItems(PrintItems(others) + "]" + rest) == Read(others, rest) by {
        forall i | 0 <= i < |others| ensures WellFormed(others[i]) && others[i] < v {
          assert others[i] == items[i + 1];
        }
        ParsePrintItems(others, v, rest);
      }
      assert others[0] == items[1];
      ItemsJoin(items, others, rest);
    }
  }

  lemma ItemsJoin(items: seq<Json>, others: seq<Json>, rest: string)
    requires |items| > 1 && others == items[1..] && WellFormed(others[0])
    requires ParseValue(Print(items[0]) + ("," + (PrintItems(others) + "]" + rest)))
             == Read(items[0], "," + (PrintItems(others) + "]" + rest))
    requires ParseItems(PrintItems(others) + "]" + rest) == Read(others, rest)
    ensures ParseItems(PrintItems(items) + "]" + rest) == Read(items, rest)
  {
    PrintItemsStart(others);
    NextItem(Print(items[0]), PrintItems(others), items[0], others, rest);
    assert items == [items[0]] + others;
  }

  lemma MemberStep(s: string, f: Field, tail: string, rest: string)
    requires s != "" && s[0] == '"' && ParseChars(s[1..]) == Read(f.key, ":" + tail)
    requires tail == "" || !IsSpace(tail[0])
    requires ParseValue(tail) == Read(f.value, rest)
    ensures ParseMember(s) == Read(f, rest)
  {
    NothingToSkip(":" + tail);
    assert (":" + tail)[1..] == tail;
    NothingToSkip(tail);
  }

  lemma {:induction false} ParsePrintMember(f: Field, v: Json, rest: string)
    requires WellFormed(f.value) && f.value < v && Delimited(rest)
    ensures PrintMember(f)[0] == '"'
    ensures ParseMember(PrintMember(f) + rest) == Read(f, rest)
    decreases v, 0
  {
    var tail := Print(f.value) + rest;
    PrintStringParses(f.key, ":" + tail);
    assert PrintMember(f) + rest == PrintString(f.key) + (":" + tail);
    PrintStartsAValue(f.value);
    ParsePrint(f.value, rest);
    MemberStep(PrintMember(f) + rest, f, tail, rest);
  }

  lemma LastMember(m: string, f: Field, rest: string)
    requires ParseMember(m + ("}" + rest)) == Read(f, "}" + rest)
    ensures ParseMembers(m + "}" + rest) == Read([f], rest)
  {
    Associate(m, "}", rest);
    NothingToSkip("}" + rest);
    assert ("}" + rest)[1..] == rest;
  }

  lemma MembersAfterComma(s: string, f: Field, tail: string, fields: seq<Field>, rest: string)
    requires ParseMember(s) == Read(f, "," + tail)
    requires tail != "" && !IsSpace(tail[0]) && ParseMembers(tail) == Read(fields, rest)
    ensures ParseMembers(s) == Read([f] + fields, rest)
  {
    NothingToSkip("," + tail);
    assert ("," + tail)[1..] == tail;
    NothingToSkip(tail);
  }

  lemma NextMember(m: string, ms: string, f: Field, fields: seq<Field>, rest: string)
    requires ParseMember(m + ("," + (ms + "}" + rest))) == Read(f, "," + (ms + "}" + rest))
    requires ms != "" && !IsSpace(ms[0]) && ParseMembers(ms + "}" + rest) == Read(fields, rest)
    ensures ParseMembers(m + "," + ms + "}" + rest) == Read([f] + fields, rest)
  {
    JoinLists(m, ms, "}", rest);
    MembersAfterComma(m + ("," + (ms + "}" + rest)), f, ms + "}" + rest, fields, rest);
  }

  lemma PrintMembersStart(fields: seq<Field>)
    requires fields != []
    ensures PrintMembers(fields) != "" && PrintMembers(fields)[0] == '"'
  {
    assert PrintMember(fields[0])[0] == '"';
  }

  lemma {:induction false} ParsePrintMembers(fields: seq<Field>, v: Json, rest: string)
    requires fields != [] && forall i | 0 <= i < |fields| :: WellFormed(fields[i].value) && fields[i].value < v
    ensures ParseMembers(PrintMembers(fields) + "}" + rest) == Read(fields, rest)
    decreases v, 1, |fields|
  {
    if |fields| == 1 {
      ParsePrintMember(fields[0], v, "}" + rest);
      LastMember(PrintMember(fields[0]), fields[0], rest);
      assert fields == [fields[0]];
    } else {
      var others := fields[1..];
      assert ParseMember(PrintMember(fields[0]) + ("," + (PrintMembers(others) + "}" + rest)))
             == Read(fields[0], "," + (PrintMembers(others) + "}" + rest)) by {
        ParsePrintMember(fields[0], v, "," + (PrintMembers(others) + "}" + rest));
      }
      assert ParseMembers(PrintMembers(others) + "}" + rest) == Read(others, rest) by {
        forall i | 0 <= i < |others| ensures WellFormed(others[i].value) && others[i].value < v {
          assert others[i] == fields[i + 1];
        }
        ParsePrintMembers(others, v, rest);
      }
      MembersJoin(fields, others, rest);
    }
  }

  lemma MembersJoin(fields: seq<Field>, others: seq<Field>, rest: string)
    requires |fields| > 1 && others == fields[1..]
    requires ParseMember(PrintMember(fields[0]) + ("," + (PrintMembers(others) + "}" + rest)))
             == Read(fields[0], "," + (PrintMembers(others) + "}" + rest))
    requires ParseMembers(PrintMembers(others) + "}" + rest) == Read(others, rest)
    ensures ParseMembers(PrintMembers(fields) + "}" + rest) == Read(fields, rest)
  {
    PrintMembersStart(others);
    NextMember(PrintMember(fields[0]), PrintMembers(others), fields[0], others, rest);
    assert fields == [fields[0]] + others;
  }

  lemma DocumentRoundTrip(v: Json)
    requires WellFormed(v)
    ensures ParseDocument(Print(v)) == Some(v)
  {
    PrintStartsAValue(v);
    ParsePrint(v, "");
    assert Print(v) + "" == Print(v);
  }

  // ------------------------------------ what the reader returns is well formed

  lemma {:induction false} ParsedIsWellFormed(s: string)
    requires ParseValue(s).Read?
    ensures WellFormed(ParseValue(s).value)
    decreases |s|, 0
  {
    if s[0] == '{' {
      var body := SkipSpace(s[1..]);
      if body != "" && body[0] != '}' {
        ParsedMembersAreWellFormed(body);
      }
    } else if s[0] == '[' {
      var body := SkipSpace(s[1..]);
      if body != "" && body[0] != ']' {
        ParsedItemsAreWellFormed(body);
      }
    } else if ParseNumber(s).Read? && ParseNumber(s).value.Real? {
      ParsedRealIsReal(s);
    }
  }

  lemma {:induction false} ParsedItemsAreWellFormed(s: string)
    requires ParseItems(s).Read?
    ensures forall i | 0 <= i < |ParseItems(s).value| :: WellFormed(ParseItems(s).value[i])
    decreases |s|, 1
  {
    ParsedIsWellFormed(s);
    var next := SkipSpace(ParseValue(s).rest);
    if next[0] == ',' {
      ParsedItemsAreWellFormed(SkipSpace(next[1..]));
    }
  }

  lemma {:induction false} ParsedMembersAreWellFormed(s: string)
    requires ParseMembers(s).Read?
    ensures forall i | 0 <= i < |ParseMembers(s).value| :: WellFormed(ParseMembers(s).value[i].value)
    decreases |s|, 2
  {
    var member := ParseMember(s);
    var colon := SkipSpace(ParseChars(s[1..]).rest);
    ParsedIsWellFormed(SkipSpace(colon[1..]));
    var next := SkipSpace(member.rest);
    if next[0] == ',' {
      ParsedMembersAreWellFormed(SkipSpace(next[1..]));
    }
  }

  // ------------------------------------------------------------------ sorting

  lemma {:induction false} InsertFieldKeeps(f: Field, fields: seq<Field>)
    ensures forall x :: x in InsertField(f, fields) <==> x == f || x in fields
    ensures StrictlySorted(fields, FieldKey) && (forall x | x in fields :: x.key != f.key) ==>
              StrictlySorted(InsertField(f, fields), FieldKey)
  {
    if fields == [] || Less(FieldKey(f), FieldKey(fields[0])) {
      if StrictlySorted(fields, FieldKey) {
        forall j | 0 <= j < |fields| ensures Less(FieldKey(f), FieldKey(fields[j])) {
          if j > 0 {
            LessTransitive(FieldKey(f), FieldKey(fields[0]), FieldKey(fields[j]));
          }
        }
      }
    } else {
      var rest := InsertField(f, fields[1..]);
      InsertFieldKeeps(f, fields[1..]);
      assert fields == [fields[0]] + fields[1..];
      if StrictlySorted(fields, FieldKey) && (forall x | x in fields :: x.key != f.key) {
        assert StrictlySorted(rest, FieldKey);
        forall j | 0 <= j < |rest| ensures Less(FieldKey(fields[0]), FieldKey(rest[j])) {
          assert rest[j] in rest;
          if rest[j] == f {
            assert fields[0] in fields;
            LessTotal(FieldKey(fields[0]), FieldKey(f));
            if FieldKey(fields[0]) == FieldKey(f) {
              TextInjective(fields[0].key, f.key);
            }
          }
        }
      }
    }
  }

  /** Sorting keeps the members, and orders them strictly when their names are distinct. */
  lemma {:induction false} SortFieldsKeeps(fields: seq<Field>)
    ensures forall x :: x in SortFields(fields) <==> x in fields
    ensures DistinctKeys(fields) ==> StrictlySorted(SortFields(fields), FieldKey)
  {
    if fields != [] {
      SortFieldsKeeps(fields[1..]);
      InsertFieldKeeps(fields[0], SortFields(fields[1..]));
      assert fields == [fields[0]] + fields[1..];
      assert forall x | x in fields[1..] :: exists i | 0 < i < |fields| :: fields[i] == x;
      if DistinctKeys(fields) {
        assert DistinctKeys(fields[1..]);
      }
    }
  }

  lemma SortedHasDistinctKeys(fields: seq<Field>)
    requires StrictlySorted(fields, FieldKey)
    ensures DistinctKeys(fields)
  {
    forall i, j | 0 <= i < j < |fields| ensures fields[i].key != fields[j].key {
      LessAsymmetric(FieldKey(fields[i]), FieldKey(fields[j]));
    }
  }

  lemma SortSorted(fields: seq<Field>)
    requires StrictlySorted(fields, FieldKey)
    ensures SortFields(fields) == fields
  {
    SortedHasDistinctKeys(fields);
    SortFieldsKeeps(fields);
    SortedIsUnique(SortFields(fields), fields, FieldKey);
  }

  /** The sorted form depends on an object's members as a set. */
  lemma SortDependsOnTheSet(fields: seq<Field>, fields': seq<Field>)
    requires DistinctKeys(fields) && DistinctKeys(fields')
    requires forall x :: x in fields <==> x in fields'
    ensures SortFields(fields) == SortFields(fields')
  {
    SortFieldsKeeps(fields);
    SortFieldsKeeps(fields');
    SortedIsUnique(SortFields(fields), SortFields(fields'), FieldKey);
  }

  lemma {:induction false} NormalizeMembersAt(fields: seq<Field>)
    ensures |NormalizeMembers(fields)| == |fields|
    ensures forall i | 0 <= i < |fields| ::
              NormalizeMembers(fields)[i] == Field(fields[i].key, Normalize(fields[i].value))
  {
    if fields != [] {
      NormalizeMembersAt(fields[1..]);
    }
  }

  lemma {:induction false} NormalizeItemsAt(items: seq<Json>)
    ensures |NormalizeItems(items)| == |items|
    ensures forall i | 0 <= i < |items| :: NormalizeItems(items)[i] == Normalize(items[i])
  {
    if items != [] {
      NormalizeItemsAt(items[1..]);
    }
  }

  lemma {:induction false} NormalizeIsOrdered(v: Json)
    requires WellFormed(v)
    ensures Ordered(Normalize(v))
  {
    match v
    case Arr(items) =>
      NormalizeItemsAt(items);
      forall i | 0 <= i < |items| ensures Ordered(NormalizeItems(items)[i]) {
        NormalizeIsOrdered(items[i]);
      }
    case Obj(fields) =>
      var members := NormalizeMembers(fields);
      NormalizeMembersAt(fields);
      forall i | 0 <= i < |fields| ensures Ordered(members[i].value) {
        NormalizeIsOrdered(fields[i].value);
      }
      assert DistinctKeys(members);
      SortFieldsKeeps(members);
      var sorted := SortFields(members);
      forall i | 0 <= i < |sorted| ensures Ordered(sorted[i].value) {
        assert sorted[i] in sorted && sorted[i] in members;
      }
    case _ =>
  }

  lemma {:induction false} OrderedIsWellFormed(v: Json)
    requires Ordered(v)
    ensures WellFormed(v)
  {
    match v
    case Arr(items) =>
      forall i | 0 <= i < |items| ensures WellFormed(items[i]) {
        OrderedIsWellFormed(items[i]);
      }
    case Obj(fields) =>
      SortedHasDistinctKeys(fields);
      forall i | 0 <= i < |fields| ensures WellFormed(fields[i].value) {
        OrderedIsWellFormed(fields[i].value);
      }
    case _ =>
  }

  lemma {:induction false} NormalizeOrdered(v: Json)
    requires Ordered(v)
    ensures Normalize(v) == v
  {
    match v
    case Arr(items) =>
      NormalizeItemsAt(items);
      forall i | 0 <= i < |items| ensures Normalize(items[i]) == items[i] {
        NormalizeOrdered(items[i]);
      }
      assert NormalizeItems(items) == items;
    case Obj(fields) =>
      NormalizeMembersAt(fields);
      forall i | 0 <= i < |fields| ensures Normalize(fields[i].value) == fields[i].value {
        NormalizeOrdered(fields[i].value);
      }
      assert NormalizeMembers(fields) == fields;
      SortSorted(fields);
    case _ =>
  }

  lemma {:induction false} CanonicalExact(v: Json)
    ensures Canonical(v) <==> Ordered(v) && PrintsFloats(v)
  {
    match v
    case Arr(items) =>
      forall i | 0 <= i < |items| ensures Canonical(items[i]) <==> Ordered(items[i]) && PrintsFloats(items[i]) {
        CanonicalExact(items[i]);
      }
    case Obj(fields) =>
      forall i | 0 <= i < |fields|
        ensures Canonical(fields[i].value) <==> Ordered(fields[i].value) && PrintsFloats(fields[i].value)
      {
        CanonicalExact(fields[i].value);
      }
    case _ =>
  }

  lemma CanonicalIsWellFormed(v: Json)
    requires Canonical(v)
    ensures WellFormed(v)
  {
    CanonicalExact(v);
    OrderedIsWellFormed(v);
  }

  lemma NormalizeCanonical(v: Json)
    requires Canonical(v)
    ensures Normalize(v) == v
  {
    CanonicalExact(v);
    NormalizeOrdered(v);
  }

  lemma SortKeepsFloats(fields: seq<Field>)
    ensures (forall f <- SortFields(fields) :: PrintsFloats(f.value)) <==> (forall f <- fields :: PrintsFloats(f.value))
  {
    SortFieldsKeeps(fields);
  }

  lemma FieldsPrintFloats(fields: seq<Field>)
    ensures PrintsFloats(Obj(fields)) <==> forall f <- fields :: PrintsFloats(f.value)
  {
    forall i | 0 <= i < |fields| ensures fields[i] in fields {
    }
  }

  /** Sorting neither adds nor loses a float. */
  lemma {:induction false} NormalizeKeepsFloats(v: Json)
    ensures PrintsFloats(Normalize(v)) <==> PrintsFloats(v)
  {
    match v
    case Arr(items) =>
      NormalizeItemsAt(items);
      forall i | 0 <= i < |items| ensures PrintsFloats(NormalizeItems(items)[i]) <==> PrintsFloats(items[i]) {
        NormalizeKeepsFloats(items[i]);
      }
    case Obj(fields) =>
      var members := NormalizeMembers(fields);
      NormalizeMembersAt(fields);
      forall i | 0 <= i < |fields| ensures PrintsFloats(members[i].value) <==> PrintsFloats(fields[i].value) {
        NormalizeKeepsFloats(fields[i].value);
      }
      SortKeepsFloats(members);
      FieldsPrintFloats(members);
      FieldsPrintFloats(SortFields(members));
    case _ =>
  }

  /** A value whose floats are as they print is dumped as a canonical value. */
  lemma NormalizeIsCanonical(v: Json)
    requires WellFormed(v)
    ensures Canonical(Normalize(v)) <==> PrintsFloats(v)
  {
    NormalizeIsOrdered(v);
    NormalizeKeepsFloats(v);
    CanonicalExact(Normalize(v));
  }

  // ------------------------------------------------------------ main theorems

  lemma ParseDump(v: Json)
    requires WellFormed(v)
    ensures Decode(Dump(v)) == Some(Print(Normalize(v))) && ParseDocument(Print(Normalize(v))) == Some(Normalize(v))
    ensures Normalize(Normalize(v)) == Normalize(v)
  {
    var c := Normalize(v);
    NormalizeIsOrdered(v);
    OrderedIsWellFormed(c);
    NormalizeOrdered(c);
    DecodeExact(Dump(v), Print(c));
    DocumentRoundTrip(c);
  }

  /** Dumping and loading an object gives its sorted form back, when its floats are spelled as they print. */
  lemma LoadDump(v: Json)
    requires v.Obj? && WellFormed(v)
    ensures Load(Dump(v)) == if PrintsFloats(v) then Some(Normalize(v)) else None
  {
    ParseDump(v);
    NormalizeKeepsFloats(v);
  }

  /**
   `_load` accepts exactly the bytes of the canonical text of a canonical object:
   members out of order, white space, other escapes, other spellings of floats,
   repeated names, a byte order mark or broken UTF-8 all make the bytes something
   else, so they are refused.
   */
  lemma LoadExact(data: Bytes, v: Json)
    ensures Load(data) == Some(v) <==> v.Obj? && Canonical(v) && data == Encode(Print(v))
  {
    if Load(data) == Some(v) {
      var text := Decode(data).value;
      ParsedIsWellFormed(SkipSpace(text));
      LoadDump(v);
      NormalizeIsCanonical(v);
    }
    if v.Obj? && Canonical(v) && data == Encode(Print(v)) {
      CanonicalExact(v);
      CanonicalIsWellFormed(v);
      NormalizeCanonical(v);
      LoadDump(v);
    }
  }

  /** Equal dumps come from values with the same sorted form. */
  lemma DumpInjective(v: Json, w: Json)
    requires WellFormed(v) && WellFormed(w) && Dump(v) == Dump(w)
    ensures Normalize(v) == Normalize(w)
  {
    ParseDump(v);
    ParseDump(w);
  }
}
