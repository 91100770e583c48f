/**
 Canonical JSON: the value tree that `json.dumps` and `json.loads` exchange, the
 compact sorted printer, and the full (lenient) reader of section 2 to 7 of
 RFC 8259. A Python dictionary is its list of members in insertion order.
 */
module Json {
  import opened Results
  import opened Order
  import opened Utf8

  datatype Field = Field(key: string, value: Json)

  /** A number with a fraction or an exponent is kept as the text that denotes it. */
  datatype Json =
    | Null
    | Bool(b: bool)
    | Int(n: int)
    | Real(lexeme: string)
    | Str(s: string)
    | Arr(items: seq<Json>)
    | Obj(fields: seq<Field>)

  // ---------------------------------------------------------------- printing

  function Digit(n: int): char
    requires 0 <= n < 10
  {
    '0' + n as char
  }

  function HexDigit(n: int): char
    requires 0 <= n < 16
  {
    if n < 10 then '0' + n as char else 'a' + (n - 10) as char
  }

  function PrintNat(n: nat): string {
    if n < 10 then [Digit(n)] else PrintNat(n / 10) + [Digit(n % 10)]
  }

  function PrintInt(n: int): string {
    if n < 0 then "-" + PrintNat(-n) else PrintNat(n)
  }

  function PrintChar(c: char): (r: string) {
    if c == '"' then "\\\""
    else if c == '\\' then "\\\\"
    else if c as int == 0x08 then "\\b"
    else if c as int == 0x0C then "\\f"
    else if c == '\n' then "\\n"
    else if c == '\r' then "\\r"
    else if c == '\t' then "\\t"
    else if c < ' ' then "\\u00" + [HexDigit(c as int / 16), HexDigit(c as int % 16)]
    else [c]
  }

  function PrintChars(s: string): string {
    if s == "" then "" else PrintChar(s[0]) + PrintChars(s[1..])
  }

  function PrintString(s: string): string {
    "\"" + PrintChars(s) + "\""
  }

  function Print(v: Json): string {
    match v
    case Null => "null"
    case Bool(b) => if b then "true" else "false"
    case Int(n) => PrintInt(n)
    case Real(lexeme) => lexeme
    case Str(s) => PrintString(s)
    case Arr(items) => if items == [] then "[]" else "[" + PrintItems(items) + "]"
    case Obj(fields) => if fields == [] then "{}" else "{" + PrintMembers(fields) + "}"
  }

  function PrintItems(items: seq<Json>): string
    requires items != []
  {
    if |items| == 1 then Print(items[0]) else Print(items[0]) + "," + PrintItems(items[1..])
  }

  function PrintMember(f: Field): string {
    PrintString(f.key) + ":" + Print(f.value)
  }

  function PrintMembers(fields: seq<Field>): string
    requires fields != []
  {
    if |fields| == 1 then PrintMember(fields[0]) else PrintMember(fields[0]) + "," + PrintMembers(fields[1..])
  }

  // ----------------------------------------------------------------- sorting

  function FieldKey(f: Field): Key { Text(f.key) }

  function InsertField(f: Field, fields: seq<Field>): seq<Field> {
    if fields == [] || Less(FieldKey(f), FieldKey(fields[0])) then [f] + fields
    else [fields[0]] + InsertField(f, fields[1..])
  }

  function SortFields(fields: seq<Field>): seq<Field> {
    if fields == [] then [] else InsertField(fields[0], SortFields(fields[1..]))
  }

  /** `sort_keys=True`: every object, at every depth, with its members in key order. */
  function Normalize(v: Json): Json {
    match v
    case Arr(items) => Arr(NormalizeItems(items))
    case Obj(fields) => Obj(SortFields(NormalizeMembers(fields)))
    case _ => v
  }

  function NormalizeItems(items: seq<Json>): seq<Json> {
    if items == [] then [] else [Normalize(items[0])] + NormalizeItems(items[1..])
  }

  function NormalizeMembers(fields: seq<Field>): seq<Field> {
    if fields == [] then [] else [Field(fields[0].key, Normalize(fields[0].value))] + NormalizeMembers(fields[1..])
  }

  /** `_dump`. */
  function Dump(v: Json): Bytes {
    Encode(Print(Normalize(v)))
  }

  // ----------------------------------------------------------------- reading

  datatype Parsed<+T> = Read(value: T, rest: string) | Bad

  predicate IsSpace(c: char) { c == ' ' || c == '\t' || c == '\n' || c == '\r' }

  function SkipSpace(s: string): (r: string)
    ensures |r| <= |s|
  {
    if s != "" && IsSpace(s[0]) then SkipSpace(s[1..]) else s
  }

  function HexValue(c: char): Option<nat> {
    if '0' <= c <= '9' then Some(c as int - '0' as int)
    else if 'a' <= c <= 'f' then Some(c as int - 'a' as int + 10)
    else if 'A' <= c <= 'F' then Some(c as int - 'A' as int + 10)
    else None
  }

  function Hex4(s: string): (r: Option<nat>)
    ensures r.Some? ==> |s| >= 4 && r.value < 0x1_0000
  {
    if |s| < 4 then None
    else
      match (HexValue(s[0]), HexValue(s[1]), HexValue(s[2]), HexValue(s[3]))
      case (Some(a), Some(b), Some(c), Some(d)) =>
        if a < 16 && b < 16 && c < 16 && d < 16 then Some(a * 0x1000 + b * 0x100 + c * 0x10 + d) else None
      case _ => None
  }

  /** The text after `\u`. A lone surrogate is refused here: no canonical text can hold one. */
  function ParseUnicodeEscape(s: string): (r: Parsed<char>)
    ensures r.Read? ==> |r.rest| < |s|
  {
    match Hex4(s)
    case None => Bad
    case Some(n) =>
      if n < 0xD800 || n >= 0xE000 then Read(n as char, s[4..])
      else if n < 0xDC00 && |s| >= 6 && s[4] == '\\' && s[5] == 'u' then
        match Hex4(s[6..])
        case None => Bad
        case Some(m) =>
          if 0xDC00 <= m < 0xE000 then Read((0x1_0000 + (n - 0xD800) * 0x400 + (m - 0xDC00)) as char, s[10..]) else Bad
      else Bad
  }

  function ParseEscape(s: string): (r: Parsed<char>)
    ensures r.Read? ==> |r.rest| < |s|
  {
    if s == "" then Bad
    else if s[0] == '"' || s[0] == '\\' || s[0] == '/' then Read(s[0], s[1..])
    else if s[0] == 'b' then Read(0x08 as char, s[1..])
    else if s[0] == 'f' then Read(0x0C as char, s[1..])
    else if s[0] == 'n' then Read('\n', s[1..])
    else if s[0] == 'r' then Read('\r', s[1..])
    else if s[0] == 't' then Read('\t', s[1..])
    else if s[0] == 'u' then ParseUnicodeEscape(s[1..])
    else Bad
  }

  /** One character of a string body; control characters must be escaped. */
  function ParseChar(s: string): (r: Parsed<char>)
    requires s != ""
    ensures r.Read? ==> |r.rest| < |s|
  {
    if s[0] == '\\' then ParseEscape(s[1..])
    else if s[0] < ' ' then Bad
    else Read(s[0], s[1..])
  }

  /** The body of a string, up to and including the closing quote. */
  function ParseChars(s: string): (r: Parsed<string>)
    ensures r.Read? ==> |r.rest| < |s|
  {
    if s == "" then Bad
    else if s[0] == '"' then Read("", s[1..])
    else
      match ParseChar(s)
      case Bad => Bad
      case Read(c, afterChar) =>
        match ParseChars(afterChar)
        case Bad => Bad
        case Read(t, rest) => Read([c] + t, rest)
  }

  predicate IsDigit(c: char) { '0' <= c <= '9' }

  function DigitSpan(s: string): (n: nat)
    ensures n <= |s|
  {
    if s != "" && IsDigit(s[0]) then 1 + DigitSpan(s[1..]) else 0
  }

  function NatValue(s: string): int {
    if s == "" then 0 else NatValue(s[..|s| - 1]) * 10 + (s[|s| - 1] as int - '0' as int)
  }

  function FractionSpan(s: string): (n: nat)
    ensures n <= |s|
  {
    if |s| >= 2 && s[0] == '.' && DigitSpan(s[1..]) > 0 then 1 + DigitSpan(s[1..]) else 0
  }

  function ExponentSpan(s: string): (n: nat)
    ensures n <= |s|
  {
    if |s| >= 2 && (s[0] == 'e' || s[0] == 'E') then
      var k := if s[1] == '+' || s[1] == '-' then 2 else 1;
      if DigitSpan(s[k..]) > 0 then k + DigitSpan(s[k..]) else 0
    else 0
  }

  function IntegerSpan(s: string): (n: nat)
    ensures n <= |s|
  {
    var sign := if s != "" && s[0] == '-' then 1 else 0;
    var digits := DigitSpan(s[sign..]);
    if digits == 0 then 0 else if s[sign] == '0' then sign + 1 else sign + digits
  }

  function IntegerValue(s: string): int {
    if s != "" && s[0] == '-' then -NatValue(s[1..]) else NatValue(s)
  }

  /** Digits, then the longest fraction and exponent that can follow them. */
  function NumberSpan(s: string): (n: nat)
    ensures n <= |s|
  {
    var i := IntegerSpan(s);
    if i == 0 then 0
    else
      var f := FractionSpan(s[i..]);
      i + f + ExponentSpan(s[i + f..])
  }

  function ParseNumber(s: string): (r: Parsed<Json>)
    ensures r.Read? ==> |r.rest| < |s| && (r.value.Int? || r.value.Real?)
  {
    var n := NumberSpan(s);
    if n == 0 then Bad
    else Read(if n == IntegerSpan(s) then Int(IntegerValue(s[..n])) else Real(s[..n]), s[n..])
  }

  ghost predicate DistinctKeys(fields: seq<Field>) {
    forall i, j | 0 <= i < j < |fields| :: fields[i].key != fields[j].key
  }

  predicate HasKey(fields: seq<Field>, key: string) {
    exists f <- fields :: f.key == key
  }

  /** What `_duplicate_rejecting_object` decides about the pairs of one object. */
  function RejectDuplicates(fields: seq<Field>): (r: bool)
    ensures r <==> !DistinctKeys(fields)
  {
    if fields == [] then false
    else
      var n := |fields| - 1;
      assert !HasKey(fields[..n], fields[n].key) <==> forall i | 0 <= i < n :: fields[i].key != fields[n].key by {
        assert forall i | 0 <= i < n :: fields[..n][i] in fields[..n];
      }
      RejectDuplicates(fields[..n]) || HasKey(fields[..n], fields[n].key)
  }

  /** A literal name or a number. */
  function ParseScalar(s: string): (r: Parsed<Json>)
    ensures r.Read? ==> |r.rest| < |s|
  {
    if "null" <= s then Read(Null, s[4..])
    else if "true" <= s then Read(Bool(true), s[4..])
    else if "false" <= s then Read(Bool(false), s[5..])
    else ParseNumber(s)
  }

  function ParseValue(s: string): (r: Parsed<Json>)
    ensures r.Read? ==> |r.rest| < |s|
    decreases |s|, 0
  {
    if s == "" then Bad
    else if s[0] == '"' then
      match ParseChars(s[1..])
      case Bad => Bad
      case Read(t, rest) => Read(Str(t), rest)
    else if s[0] == '{' then
      var body := SkipSpace(s[1..]);
      if body != "" && body[0] == '}' then Read(Obj([]), body[1..])
      else
        match ParseMembers(body)
        case Bad => Bad
        case Read(fields, rest) => if RejectDuplicates(fields) then Bad else Read(Obj(fields), rest)
    else if s[0] == '[' then
      var body := SkipSpace(s[1..]);
      if body != "" && body[0] == ']' then Read(Arr([]), body[1..])
      else
        match ParseItems(body)
        case Bad => Bad
        case Read(items, rest) => Read(Arr(items), rest)
    else ParseScalar(s)
  }

  function ParseItems(s: string): (r: Parsed<seq<Json>>)
    ensures r.Read? ==> |r.rest| < |s|
    decreases |s|, 1
  {
    match ParseValue(s)
    case Bad => Bad
    case Read(v, afterValue) =>
      var next := SkipSpace(afterValue);
      if next == "" then Bad
      else if next[0] == ']' then Read([v], next[1..])
      else if next[0] == ',' then
        match ParseItems(SkipSpace(next[1..]))
        case Bad => Bad
        case Read(items, rest) => Read([v] + items, rest)
      else Bad
  }

  function ParseMember(s: string): (r: Parsed<Field>)
    ensures r.Read? ==> |r.rest| < |s|
    decreases |s|, 1
  {
    if s == "" || s[0] != '"' then Bad
    else
      match ParseChars(s[1..])
      case Bad => Bad
      case Read(key, afterKey) =>
        var colon := SkipSpace(afterKey);
        if colon == "" || colon[0] != ':' then Bad
        else
          match ParseValue(SkipSpace(colon[1..]))
          case Bad => Bad
          case Read(v, rest) => Read(Field(key, v), rest)
  }

  function ParseMembers(s: string): (r: Parsed<seq<Field>>)
    ensures r.Read? ==> |r.rest| < |s|
    decreases |s|, 2
  {
    match ParseMember(s)
    case Bad => Bad
    case Read(f, afterMember) =>
      var next := SkipSpace(afterMember);
      if next == "" then Bad
      else if next[0] == '}' then Read([f], next[1..])
      else if next[0] == ',' then
        match ParseMembers(SkipSpace(next[1..]))
        case Bad => Bad
        case Read(fields, rest) => Read([f] + fields, rest)
      else Bad
  }

  /** `json.loads`: one value, with nothing but white space around it. */
  function ParseDocument(s: string): Option<Json> {
    match ParseValue(SkipSpace(s))
    case Bad => None
    case Read(v, rest) => if SkipSpace(rest) == "" then Some(v) else None
  }

  // ----------------------------------------------------------------- floats

  const EXACT_INTEGERS: nat := 0x20_0000_0000_0000

  /** The text that `repr` gives a float with an integral value, while it needs no exponent. */
  function PlainFloat(minus: string, k: nat): string {
    minus + PrintNat(k) + ".0"
  }

  predicate HasPlain(texts: set<string>, k: nat) {
    k < EXACT_INTEGERS ==> PlainFloat("", k) in texts && PlainFloat("-", k) in texts
  }

  /** Sets of texts that hold at least the plain ones. */
  type FloatTexts = texts: set<string> | forall k: nat :: HasPlain(texts, k)
    witness (set k | 0 <= k < EXACT_INTEGERS :: PlainFloat("", k))
        + (set k | 0 <= k < EXACT_INTEGERS :: PlainFloat("-", k))

  /** The texts that floats print as. Nothing else is assumed of them. */
  const FLOAT_TEXTS: FloatTexts

  /** Every float is spelled as it prints. */
  predicate PrintsFloats(v: Json) {
    match v
    case Real(lexeme) => lexeme in FLOAT_TEXTS
    case Arr(items) => forall i | 0 <= i < |items| :: PrintsFloats(items[i])
    case Obj(fields) => forall i | 0 <= i < |fields| :: PrintsFloats(fields[i].value)
    case _ => true
  }

  /**
   `_load`: the document must be an object, and its own dump must be the input again.
   A float is dumped as it prints, so one that is spelled otherwise changes the dump.
   */
  function Load(data: Bytes): Option<Json> {
    match Decode(data)
    case None => None
    case Some(text) =>
      match ParseDocument(text)
      case None => None
      case Some(v) => if v.Obj? && Dump(v) == data && PrintsFloats(v) then Some(v) else None
  }

  /** The loop that fills one dictionary and stops at the first repeated name. */
  method DuplicateRejectingObject(pairs: seq<Field>) returns (r: Option<map<string, Json>>)
    ensures r.None? <==> RejectDuplicates(pairs)
    ensures r.Some? ==> r.value.Keys == set f | f in pairs :: f.key
    ensures r.Some? ==> forall f | f in pairs :: f.key in r.value && r.value[f.key] == f.value
  {
    var result: map<string, Json> := map[];
    var i := 0;
    while i < |pairs|
      invariant 0 <= i <= |pairs|
      invariant DistinctKeys(pairs[..i])
      invariant result.Keys == set f | f in pairs[..i] :: f.key
      invariant forall k | 0 <= k < i :: pairs[k].key in result && result[pairs[k].key] == pairs[k].value
    {
      if pairs[i].key in result {
        assert pairs[i].key in set f | f in pairs[..i] :: f.key;
        return None;
      }
      forall k | 0 <= k < i ensures pairs[k].key != pairs[i].key {
        assert pairs[..i][k] in pairs[..i];
      }
      assert pairs[..i + 1] == pairs[..i] + [pairs[i]];
      result := result[pairs[i].key := pairs[i].value];
      i := i + 1;
    }
    assert pairs[..i] == pairs;
    return Some(result);
  }
}
