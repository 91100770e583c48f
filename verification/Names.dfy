/** The patterns of identifiers and names, letter by letter, against the predicates that check them. */
module Names {
  import opened Identity
  import opened Lifecycle
  import opened Command
  import opened Evidence

  const LOWER := "abcdefghijklmnopqrstuvwxyz"
  const UPPER := "ABCDEFGHIJKLMNOPQRSTUVWXYZ"
  const DIGITS := "0123456789"
  const HEX := "0123456789abcdef"

  predicate Alphanumeric(c: char) { c in LOWER || c in UPPER || c in DIGITS }

  predicate Marked(c: char) { c == '.' || c == '_' || c == '-' }

  /** `[first][rest]{0,most-1}`. */
  predicate Matches(s: string, first: char -> bool, rest: char -> bool, most: nat) {
    1 <= |s| <= most && first(s[0]) && forall i | 1 <= i < |s| :: rest(s[i])
  }

  /** `Is(x, s)` for an x of a type: s is the text of a value of that type. */
  predicate Is(x: string, s: string) { x == s }

  lemma LowerExact(c: char)
    ensures IsLower(c) <==> c in LOWER
  {
    if IsLower(c) {
      var k := c as int - 'a' as int;
      assert LOWER[k] == c;
    }
  }

  lemma DigitExact(c: char)
    ensures '0' <= c <= '9' <==> c in DIGITS
  {
    if '0' <= c <= '9' {
      assert DIGITS[c as int - '0' as int] == c;
    }
  }

  lemma UpperExact(c: char)
    ensures 'A' <= c <= 'Z' <==> c in UPPER
  {
    if 'A' <= c <= 'Z' {
      assert UPPER[c as int - 'A' as int] == c;
    }
  }

  lemma HexExact(c: char)
    ensures IsHex(c) <==> c in HEX
  {
    if IsHex(c) {
      assert HEX[if c <= '9' then c as int - '0' as int else 10 + c as int - 'a' as int] == c;
    }
  }

  lemma ClassesExact(c: char)
    ensures IsLower(c) <==> c in LOWER
    ensures IsAlphanumeric(c) <==> Alphanumeric(c)
    ensures 'A' <= c <= 'Z' <==> c in UPPER
    ensures '0' <= c <= '9' <==> c in DIGITS
    ensures IsHex(c) <==> c in HEX
  {
    LowerExact(c);
    UpperExact(c);
    DigitExact(c);
    HexExact(c);
  }

  /** `[A-Za-z0-9][A-Za-z0-9._-]{0,127}` */
  lemma SafeIdExact(s: string)
    ensures var matches := Matches(s, c => Alphanumeric(c), c => Alphanumeric(c) || Marked(c), 128);
            ((exists x: RunId :: Is(x, s)) <==> matches) && ((exists x: WorkspaceId :: Is(x, s)) <==> matches)
  {
    if IsSafeId(s) {
      var id: RunId := s;
      assert Is(id, s);
      var handle: WorkspaceId := s;
      assert Is(handle, s);
    }
    forall i | 0 <= i < |s|
      ensures IsSafeIdChar(s, i) <==> if i == 0 then Alphanumeric(s[0]) else Alphanumeric(s[i]) || Marked(s[i])
    {
      ClassesExact(s[i]);
    }
  }

  /** `[a-z][a-z0-9._-]{0,63}` */
  lemma ComponentNameExact(s: string)
    ensures var matches := Matches(s, c => c in LOWER, c => c in LOWER || c in DIGITS || Marked(c), 64);
            ((exists x: LifecycleActor :: Is(x, s)) <==> matches) && ((exists x: ExecutableId :: Is(x, s)) <==> matches)
  {
    if IsComponentName(s) {
      var actor: LifecycleActor := s;
      assert Is(actor, s);
      var executable: ExecutableId := s;
      assert Is(executable, s);
    }
    forall i | 0 <= i < |s|
      ensures IsComponentChar(s, i) <==>
          if i == 0 then s[0] in LOWER else s[i] in LOWER || s[i] in DIGITS || Marked(s[i])
    {
      ClassesExact(s[i]);
    }
  }

  /** `[A-Za-z0-9][A-Za-z0-9._:-]{0,127}` */
  lemma ActionNameExact(s: string)
    ensures (exists x: CommandAction :: Is(x, s)) <==>
            Matches(s, c => Alphanumeric(c), c => Alphanumeric(c) || Marked(c) || c == ':', 128)
  {
    if IsActionName(s) {
      var action: CommandAction := s;
      assert Is(action, s);
    }
    forall i | 0 <= i < |s|
      ensures IsActionChar(s, i) <==>
          if i == 0 then Alphanumeric(s[0]) else Alphanumeric(s[i]) || Marked(s[i]) || s[i] == ':'
    {
      ClassesExact(s[i]);
    }
  }

  /** `[A-Za-z_][A-Za-z0-9_]*` */
  lemma VariableNameExact(s: string)
    ensures (exists x: VariableName :: Is(x, s)) <==>
            Matches(s, c => c in LOWER || c in UPPER || c == '_', c => Alphanumeric(c) || c == '_', |s|)
  {
    if IsVariableName(s) {
      var name: VariableName := s;
      assert Is(name, s);
    }
    forall i | 0 <= i < |s|
      ensures IsVariableChar(s, i) <==>
          if i == 0 then s[0] in LOWER || s[0] in UPPER || s[0] == '_' else Alphanumeric(s[i]) || s[i] == '_'
    {
      ClassesExact(s[i]);
    }
  }

  predicate Hexadecimal(s: string) {
    forall i | 0 <= i < |s| :: s[i] in HEX
  }

  lemma HexadecimalExact(s: string)
    ensures (forall c <- s :: IsHex(c)) <==> Hexadecimal(s)
  {
    forall i | 0 <= i < |s| ensures IsHex(s[i]) <==> s[i] in HEX {
      HexExact(s[i]);
    }
  }

  /** `[0-9a-f]{length}` */
  lemma HexTextExact(s: string, length: nat)
    ensures IsHexOf(s, length) <==> |s| == length && Hexadecimal(s)
  {
    HexadecimalExact(s);
  }

  /** Digests have 64 digits and baselines 40 or 64. */
  lemma DigestExact(s: string)
    ensures (exists x: Sha256Hex :: Is(x, s)) <==> |s| == 64 && Hexadecimal(s)
    ensures (exists x: BaselineSha :: Is(x, s)) <==> (|s| == 40 || |s| == 64) && Hexadecimal(s)
  {
    if IsHexOf(s, 40) || IsHexOf(s, 64) {
      var baseline: BaselineSha := s;
      assert Is(baseline, s);
    }
    if IsHexOf(s, 64) {
      var digest: Sha256Hex := s;
      assert Is(digest, s);
    }
    HexadecimalExact(s);
  }

  /** `[0-9a-f]{7,40}` */
  lemma ObjectIdExact(s: string)
    ensures IsObjectId(s) <==> 7 <= |s| && |s| <= 40 && Hexadecimal(s)
  {
    HexadecimalExact(s);
  }

  /** The values that an argument or a variable may hold. */
  lemma ArgumentExact(s: string)
    ensures (exists x: Argument :: Is(x, s)) <==> forall i | 0 <= i < |s| :: s[i] as int > 0
  {
    if HasNoNul(s) {
      var argument: Argument := s;
      assert Is(argument, s);
    }
  }

  ghost predicate Equals(x: int, n: int) { x == n }

  /** A limit is any positive integer. */
  lemma LimitExact(n: int)
    ensures (exists x: pos :: Equals(x, n)) <==> n >= 1
  {
    if n >= 1 {
      var limit: pos := n;
      assert Equals(limit, n);
    }
  }

  /** The white space of Unicode, with the separators 0x1C to 0x1F that Python adds. */
  const WHITE_SPACE: set<int> := {
    0x09, 0x0A, 0x0B, 0x0C, 0x0D, 0x1C, 0x1D, 0x1E, 0x1F, 0x20, 0x85, 0xA0, 0x1680, 0x2000, 0x2001, 0x2002, 0x2003,
    0x2004, 0x2005, 0x2006, 0x2007, 0x2008, 0x2009, 0x200A, 0x2028, 0x2029, 0x202F, 0x205F, 0x3000}

  function StripLeft(s: string): string {
    if s != "" && s[0] as int in WHITE_SPACE then StripLeft(s[1..]) else s
  }

  function StripRight(s: string): string {
    if s != "" && s[|s| - 1] as int in WHITE_SPACE then StripRight(s[..|s| - 1]) else s
  }

  lemma {:induction false} StrippingShortens(s: string)
    ensures |StripLeft(s)| <= |s| && |StripRight(s)| <= |s|
    ensures s != "" && s[0] as int in WHITE_SPACE ==> |StripLeft(s)| < |s|
    ensures s != "" && s[|s| - 1] as int in WHITE_SPACE ==> |StripRight(s)| < |s|
  {
    if s != "" {
      StrippingShortens(s[1..]);
      StrippingShortens(s[..|s| - 1]);
    }
  }

  /** `value and value == value.strip()`. */
  lemma TrimmedTextExact(s: string)
    ensures (exists x: ContractText :: Is(x, s)) <==> s != "" && StripRight(StripLeft(s)) == s
  {
    if IsTrimmedText(s) {
      var text: ContractText := s;
      assert Is(text, s);
    }
    StrippingShortens(s);
    StrippingShortens(StripLeft(s));
    if s != "" {
      assert IsTrimmedAt(s, First) <==> s[0] as int !in WHITE_SPACE;
      assert IsTrimmedAt(s, Last) <==> s[|s| - 1] as int !in WHITE_SPACE;
    }
  }

  ghost predicate AllDigits(s: string, rt: Runtime) {
    s != "" && forall i | 0 <= i < |s| :: rt.isDigit(s[i])
  }

  lemma {:induction false} DigitsAheadExact(a: string, rest: string, rt: Runtime)
    requires forall i | 0 <= i < |a| :: rt.isDigit(a[i])
    requires rest == "" || !rt.isDigit(rest[0])
    ensures DigitsAhead(a + rest, rt) == |a|
  {
    if a == "" {
      assert a + rest == rest;
    } else {
      assert (a + rest)[1..] == a[1..] + rest;
      DigitsAheadExact(a[1..], rest, rt);
    }
  }

  lemma {:induction false} DigitsAheadAreDigits(s: string, rt: Runtime)
    ensures forall i | 0 <= i < DigitsAhead(s, rt) :: rt.isDigit(s[i])
  {
    if s != "" && rt.isDigit(s[0]) {
      DigitsAheadAreDigits(s[1..], rt);
    }
  }

  /** The numbers between the dots. */
  ghost predicate IsNumberList(parts: seq<string>, rt: Runtime) {
    parts != [] && forall i | 0 <= i < |parts| :: AllDigits(parts[i], rt)
  }

  function Dotted(parts: seq<string>): string {
    if parts == [] then "" else if |parts| == 1 then parts[0] else parts[0] + "." + Dotted(parts[1..])
  }

  lemma VersionSplits(version: string, number: string, tail: string, rt: Runtime, dots: nat)
    requires !rt.isDigit('.') && AllDigits(number, rt) && dots > 0 && IsVersionTail(tail, rt, dots - 1)
    requires version == number + "." + tail
    ensures IsVersionTail(version, rt, dots)
  {
    var rest := "." + tail;
    DigitsAheadExact(number, rest, rt);
    assert version == number + rest;
    assert (number + rest)[|number| + 1..] == tail;
  }

  lemma NumberIsVersion(number: string, rt: Runtime)
    requires AllDigits(number, rt)
    ensures IsVersionTail(number, rt, 0)
  {
    DigitsAheadExact(number, "", rt);
    assert number + "" == number;
  }

  lemma OthersAreNumbers(parts: seq<string>, rt: Runtime)
    requires IsNumberList(parts, rt) && |parts| > 1
    ensures AllDigits(parts[0], rt) && IsNumberList(parts[1..], rt)
    ensures Dotted(parts) == parts[0] + "." + Dotted(parts[1..])
  {
    forall i | 0 <= i < |parts| - 1 ensures AllDigits(parts[1..][i], rt) {
      assert parts[1..][i] == parts[i + 1];
    }
  }

  lemma {:induction false} DottedIsVersion(parts: seq<string>, rt: Runtime, dots: nat)
    requires !rt.isDigit('.') && IsNumberList(parts, rt) && |parts| == dots + 1
    ensures IsVersionTail(Dotted(parts), rt, dots)
    decreases dots
  {
    if dots == 0 {
      NumberIsVersion(parts[0], rt);
    } else {
      OthersAreNumbers(parts, rt);
      DottedIsVersion(parts[1..], rt, dots - 1);
      VersionSplits(Dotted(parts), parts[0], Dotted(parts[1..]), rt, dots);
    }
  }

  lemma {:induction false} VersionIsDotted(s: string, rt: Runtime, dots: nat) returns (parts: seq<string>)
    requires IsVersionTail(s, rt, dots)
    ensures |parts| == dots + 1 && IsNumberList(parts, rt) && s == Dotted(parts)
  {
    var n := DigitsAhead(s, rt);
    DigitsAheadAreDigits(s, rt);
    if dots == 0 {
      parts := [s];
    } else {
      var rest := VersionIsDotted(s[n + 1..], rt, dots - 1);
      parts := [s[..n]] + rest;
      assert parts[1..] == rest;
      assert s == s[..n] + [s[n]] + s[n + 1..];
    }
  }

  /** A version is three runs of digits joined by dots, and nothing else. */
  lemma VersionExact(s: string, rt: Runtime)
    requires !rt.isDigit('.')
    ensures IsVersionTail(s, rt, 2) <==> exists parts :: |parts| == 3 && IsNumberList(parts, rt) && s == Dotted(parts)
  {
    if IsVersionTail(s, rt, 2) {
      var parts := VersionIsDotted(s, rt, 2);
    }
    if parts :| |parts| == 3 && IsNumberList(parts, rt) && s == Dotted(parts) {
      DottedIsVersion(parts, rt, 2);
    }
  }
}
