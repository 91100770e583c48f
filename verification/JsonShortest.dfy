/** The printer writes the shortest text that the reader accepts, with the escapes that `json.dumps` writes. */
module JsonShortest {
  import opened Results
  import opened Order
  import opened Json
  import opened JsonProofs

  // ------------------------------------------------------------------ escapes

  /** Exactly the quote, the backslash and the control characters are escaped: all other characters are written raw. */
  lemma EscapedExactly(c: char)
    ensures PrintChar(c) == [c] <==> c != '"' && c != '\\' && c as int >= 0x20
  {
  }

  /** Seven characters have an escape of two characters, which names them. */
  lemma ShortEscapes()
    ensures PrintChar('"') == ['\\', '"'] && PrintChar('\\') == ['\\', '\\']
    ensures PrintChar(0x08 as char) == ['\\', 'b'] && PrintChar(0x0C as char) == ['\\', 'f']
    ensures PrintChar(0x0A as char) == ['\\', 'n'] && PrintChar(0x0D as char) == ['\\', 'r']
    ensures PrintChar(0x09 as char) == ['\\', 't']
  {
  }

  const LOWER_HEX := "0123456789abcdef"

  /** Every other control character is written with four hexadecimal digits in lower case. */
  lemma ControlEscapes(c: char)
    requires c as int < 0x20 && c as int !in {0x08, 0x09, 0x0A, 0x0C, 0x0D}
    ensures PrintChar(c) == ['\\', 'u', '0', '0', LOWER_HEX[c as int / 16], LOWER_HEX[c as int % 16]]
  {
    assert forall n | 0 <= n < 16 :: HexDigit(n) == LOWER_HEX[n];
  }

  // ------------------------------------------------------------------- length

  lemma CharCost(t: string)
    requires t != "" && t[0] != '"' && ParseChar(t).Read?
    ensures |PrintChar(ParseChar(t).value)| + |ParseChar(t).rest| <= |t|
  {
  }

  /** No text that is read as the characters of a string is shorter than what is printed for them. */
  lemma {:induction false} CharsCost(t: string)
    requires ParseChars(t).Read?
    ensures |PrintChars(ParseChars(t).value)| + 1 + |ParseChars(t).rest| <= |t|
  {
    if t[0] != '"' {
      CharCost(t);
      var c, afterChar := ParseChar(t).value, ParseChar(t).rest;
      CharsCost(afterChar);
      assert ([c] + ParseChars(afterChar).value)[1..] == ParseChars(afterChar).value;
    }
  }

  /** The string body that is printed is a shortest one that reads as the string. */
  lemma PrintedCharsAreShortest(s: string, t: string)
    requires ParseChars(t) == Read(s, "")
    ensures |PrintChars(s)| + 1 <= |t|
  {
    CharsCost(t);
  }

  lemma {:induction false} PrintNatOfDigits(d: string)
    requires d != "" && forall i | 0 <= i < |d| :: IsDigit(d[i])
    requires d[0] == '0' ==> |d| == 1
    ensures NatValue(d) >= 0 && PrintNat(NatValue(d)) == d
    ensures |d| > 1 ==> NatValue(d) >= 10
  {
    var n := |d| - 1;
    if n == 0 {
      assert d[..0] == "";
    } else {
      PrintNatOfDigits(d[..n]);
      assert d == d[..n] + [d[n]];
    }
  }

  lemma IntegerDigits(s: string)
    requires IntegerSpan(s) > 0
    ensures var sign := if s[0] == '-' then 1 else 0;
            var d := s[sign..IntegerSpan(s)];
            && sign < IntegerSpan(s) && (forall i | 0 <= i < |d| :: IsDigit(d[i])) && (d[0] == '0' ==> |d| == 1)
  {
    var sign := if s[0] == '-' then 1 else 0;
    DigitSpanIsDigits(s[sign..]);
  }

  ghost predicate IsNatText(d: string) {
    d != "" && (forall i | 0 <= i < |d| :: IsDigit(d[i])) && (d[0] == '0' ==> |d| == 1)
  }

  /** A sign is dropped only from minus zero. */
  lemma SignedCost(text: string, sign: nat)
    requires sign == (if text != "" && text[0] == '-' then 1 else 0) && IsNatText(text[sign..])
    ensures |PrintInt(IntegerValue(text))| <= |text|
  {
    PrintNatOfDigits(text[sign..]);
    if sign == 0 {
      assert text[0..] == text;
    }
  }

  lemma IntegerCost(s: string)
    requires IntegerSpan(s) > 0
    ensures |PrintInt(IntegerValue(s[..IntegerSpan(s)]))| <= IntegerSpan(s)
  {
    var i := IntegerSpan(s);
    var sign := if s[0] == '-' then 1 else 0;
    IntegerDigits(s);
    assert s[..i][sign..] == s[sign..i];
    SignedCost(s[..i], sign);
  }

  lemma NumberCost(t: string)
    requires ParseNumber(t).Read?
    ensures |Print(ParseNumber(t).value)| + |ParseNumber(t).rest| <= |t|
  {
    if NumberSpan(t) == IntegerSpan(t) {
      IntegerCost(t);
    }
  }

  lemma ScalarCost(t: string)
    requires ParseScalar(t).Read?
    ensures |Print(ParseScalar(t).value)| + |ParseScalar(t).rest| <= |t|
  {
    if !("null" <= t) && !("true" <= t) && !("false" <= t) {
      NumberCost(t);
    }
  }

  lemma {:induction false} ValueCost(t: string)
    requires ParseValue(t).Read?
    ensures |Print(ParseValue(t).value)| + |ParseValue(t).rest| <= |t|
    decreases |t|, 0
  {
    if t[0] == '"' {
      CharsCost(t[1..]);
    } else if t[0] == '{' {
      var body := SkipSpace(t[1..]);
      if body != "" && body[0] != '}' {
        MembersCost(body);
      }
    } else if t[0] == '[' {
      var body := SkipSpace(t[1..]);
      if body != "" && body[0] != ']' {
        ItemsCost(body);
      }
    } else {
      ScalarCost(t);
    }
  }

  lemma {:induction false} ItemsCost(t: string)
    requires ParseItems(t).Read?
    ensures ParseItems(t).value != []
    ensures |PrintItems(ParseItems(t).value)| + 1 + |ParseItems(t).rest| <= |t|
    decreases |t|, 1
  {
    ValueCost(t);
    var v, next := ParseValue(t).value, SkipSpace(ParseValue(t).rest);
    if next[0] == ',' {
      ItemsCost(SkipSpace(next[1..]));
      var items := ParseItems(SkipSpace(next[1..])).value;
      assert ([v] + items)[1..] == items;
    }
  }

  lemma MemberCost(t: string)
    requires ParseMember(t).Read?
    ensures |PrintMember(ParseMember(t).value)| + |ParseMember(t).rest| <= |t|
    decreases |t|, 1
  {
    CharsCost(t[1..]);
    var colon := SkipSpace(ParseChars(t[1..]).rest);
    ValueCost(SkipSpace(colon[1..]));
  }

  lemma {:induction false} MembersCost(t: string)
    requires ParseMembers(t).Read?
    ensures ParseMembers(t).value != []
    ensures |PrintMembers(ParseMembers(t).value)| + 1 + |ParseMembers(t).rest| <= |t|
    decreases |t|, 2
  {
    MemberCost(t);
    var f, next := ParseMember(t).value, SkipSpace(ParseMember(t).rest);
    if next[0] == ',' {
      MembersCost(SkipSpace(next[1..]));
      var fields := ParseMembers(SkipSpace(next[1..])).value;
      assert ([f] + fields)[1..] == fields;
    }
  }

  // ------------------------------------------------------ sorting keeps length

  function Length(fields: seq<Field>): nat {
    if fields == [] then 0 else |PrintMember(fields[0])| + 1 + Length(fields[1..])
  }

  lemma {:induction false} PrintMembersLength(fields: seq<Field>)
    requires fields != []
    ensures |PrintMembers(fields)| + 1 == Length(fields)
  {
    if |fields| == 1 {
      assert fields[1..] == [];
    } else {
      PrintMembersLength(fields[1..]);
    }
  }

  lemma {:induction false} InsertKeepsLength(f: Field, fields: seq<Field>)
    ensures |InsertField(f, fields)| == |fields| + 1
    ensures Length(InsertField(f, fields)) == |PrintMember(f)| + 1 + Length(fields)
  {
    if !(fields == [] || Less(FieldKey(f), FieldKey(fields[0]))) {
      InsertKeepsLength(f, fields[1..]);
      var rest := InsertField(f, fields[1..]);
      assert ([fields[0]] + rest)[1..] == rest;
    } else {
      assert ([f] + fields)[1..] == fields;
    }
  }

  lemma {:induction false} SortKeepsLength(fields: seq<Field>)
    ensures |SortFields(fields)| == |fields| && Length(SortFields(fields)) == Length(fields)
  {
    if fields != [] {
      SortKeepsLength(fields[1..]);
      InsertKeepsLength(fields[0], SortFields(fields[1..]));
    }
  }

  lemma {:induction false} NormalizeKeepsLength(v: Json)
    ensures |Print(Normalize(v))| == |Print(v)|
    decreases v, 2
  {
    match v
    case Arr(items) =>
      if items != [] {
        ItemsKeepLength(v, items);
      }
    case Obj(fields) =>
      var members := NormalizeMembers(fields);
      NormalizeMembersAt(fields);
      SortKeepsLength(members);
      if fields != [] {
        MembersKeepLength(v, fields);
        PrintMembersLength(SortFields(members));
        PrintMembersLength(fields);
      }
    case _ =>
  }

  lemma {:induction false} ItemsKeepLength(v: Json, items: seq<Json>)
    requires items != [] && forall i | 0 <= i < |items| :: items[i] < v
    ensures NormalizeItems(items) != [] && |PrintItems(NormalizeItems(items))| == |PrintItems(items)|
    decreases v, 1, |items|
  {
    NormalizeItemsAt(items);
    NormalizeKeepsLength(items[0]);
    if |items| > 1 {
      var others := items[1..];
      forall i | 0 <= i < |others| ensures others[i] < v {
        assert others[i] == items[i + 1];
      }
      ItemsKeepLength(v, others);
      assert NormalizeItems(items)[1..] == NormalizeItems(others);
    }
  }

  lemma {:induction false} MembersKeepLength(v: Json, fields: seq<Field>)
    requires forall i | 0 <= i < |fields| :: fields[i].value < v
    ensures Length(NormalizeMembers(fields)) == Length(fields)
    decreases v, 1, |fields|
  {
    if fields != [] {
      NormalizeKeepsLength(fields[0].value);
      var others := fields[1..];
      forall i | 0 <= i < |others| ensures others[i].value < v {
        assert others[i] == fields[i + 1];
      }
      MembersKeepLength(v, others);
      assert NormalizeMembers(fields)[1..] == NormalizeMembers(others);
    }
  }

  /** No text that reads as a value, with its members in any order, is shorter than the canonical one. */
  lemma CanonicalTextIsShortest(t: string, v: Json)
    requires ParseDocument(t) == Some(v)
    ensures |Print(Normalize(v))| <= |t|
  {
    ValueCost(SkipSpace(t));
    NormalizeKeepsLength(v);
  }
}
