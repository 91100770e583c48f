/** Immutable values that bind one run to its trusted inputs. */
module Identity {
  import opened Timestamp

  predicate IsLower(c: char) { 'a' <= c <= 'z' }

  predicate IsAlphanumeric(c: char) { IsLower(c) || 'A' <= c <= 'Z' || '0' <= c <= '9' }

  predicate IsHex(c: char) { '0' <= c <= '9' || 'a' <= c <= 'f' }

  predicate IsNameTail(c: char) { c == '.' || c == '_' || c == '-' }

  /** The characters that `str.strip` removes. */
  predicate IsWhitespace(c: char) {
    var n := c as int;
    || 0x09 <= n <= 0x0D || 0x1C <= n <= 0x20 || n == 0x85 || n == 0xA0 || n == 0x1680
    || 0x2000 <= n <= 0x200A || n == 0x2028 || n == 0x2029 || n == 0x202F || n == 0x205F || n == 0x3000
  }

  /** `[A-Za-z0-9][A-Za-z0-9._-]{0,127}`: the identifiers that are safe as one path segment. */
  predicate IsSafeId(s: string) {
    1 <= |s| <= 128 && forall i | 0 <= i < |s| :: IsSafeIdChar(s, i)
  }

  predicate IsSafeIdChar(s: string, i: nat)
    requires i < |s|
  {
    IsAlphanumeric(s[i]) || (i > 0 && IsNameTail(s[i]))
  }

  /** `[a-z][a-z0-9._-]{0,63}`: logical component and executable names. */
  predicate IsComponentName(s: string) {
    1 <= |s| <= 64 && forall i | 0 <= i < |s| :: IsComponentChar(s, i)
  }

  predicate IsComponentChar(s: string, i: nat)
    requires i < |s|
  {
    IsLower(s[i]) || (i > 0 && ('0' <= s[i] <= '9' || IsNameTail(s[i])))
  }

  datatype End = First | Last

  /** Non-empty, and equal to itself stripped: no white space at either end. */
  predicate IsTrimmedText(s: string) {
    s != "" && forall e: End :: IsTrimmedAt(s, e)
  }

  predicate IsTrimmedAt(s: string, e: End)
    requires s != ""
  {
    !IsWhitespace(if e.First? then s[0] else s[|s| - 1])
  }

  predicate IsHexOf(s: string, length: nat) {
    |s| == length && forall c <- s :: IsHex(c)
  }

  type RunId = s: string | IsSafeId(s) witness "r"
  type ContractText = s: string | IsTrimmedText(s) witness "c"
  type Sha256Hex = s: string | IsHexOf(s, 64) witness seq(64, _ => '0')
  type BaselineSha = s: string | IsHexOf(s, 40) || IsHexOf(s, 64) witness seq(40, _ => '0')
  type PolicyHash = Sha256Hex

  datatype RunIdentity = RunIdentity(
    runId: RunId,
    contractId: ContractText,
    contractVersion: ContractText,
    contractHash: Sha256Hex,
    baselineSha: BaselineSha,
    policyHash: PolicyHash,
    createdAt: Instant)

  /** A run created at the start of a year, on a baseline of the given number of digits. */
  function SampleIdentity(year: int, digits: nat := 40): RunIdentity
    requires 1 <= year <= 9999 && (digits == 40 || digits == 64)
  {
    RunIdentity("run", "contract", "1", seq(64, _ => '0'), seq(digits, _ => '0'), seq(64, _ => '0'),
                InstantFields(year, 1, 1, 0, 0, 0, 0))
  }
}
