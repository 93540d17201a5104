/**
 The character classes and the label syntax that VM names must satisfy:
 a lower-case form of the host-name label of section 2.3.1 of RFC 1035,
 `[a-z]([-a-z0-9]*[a-z0-9])?`, at most 63 characters, and in addition
 no two hyphens in a row.
 */
module Labels {

  /** Longest label accepted (section 2.3.1 of RFC 1035). */
  const MaxLabelLength: nat := 63

  predicate IsUpper(c: char) { 'A' <= c <= 'Z' }

  predicate IsLower(c: char) { 'a' <= c <= 'z' }

  predicate IsDigit(c: char) { '0' <= c <= '9' }

  /** The class `[a-z0-9]`. */
  predicate IsAlnum(c: char) { IsLower(c) || IsDigit(c) }

  /** The class `[a-z0-9-]`. */
  predicate IsLabelChar(c: char) { IsAlnum(c) || c == '-' }

  predicate AllLabelChars(s: string) {
    forall i :: 0 <= i < |s| ==> IsLabelChar(s[i])
  }

  /** No `--` anywhere in `s`. */
  predicate NoDoubleHyphen(s: string) {
    forall i :: 0 < i < |s| ==> s[i - 1] != '-' || s[i] != '-'
  }

  /** `s` is empty or neither starts nor ends with a hyphen. */
  predicate NoEdgeHyphen(s: string) {
    s == [] || (s[0] != '-' && s[|s| - 1] != '-')
  }

  /** Every character of `s` is a hyphen. */
  predicate AllHyphens(s: string) {
    forall i :: 0 <= i < |s| ==> s[i] == '-'
  }

  predicate AllDigits(s: string) {
    forall i :: 0 <= i < |s| ==> IsDigit(s[i])
  }

  /**
   A valid VM name: one to 63 characters from `[a-z0-9-]`, starting with a
   letter, ending with a letter or digit, with no `--`.
   */
  predicate IsLabel(s: string) {
    && 1 <= |s| <= MaxLabelLength
    && IsLower(s[0])
    && IsAlnum(s[|s| - 1])
    && AllLabelChars(s)
    && NoDoubleHyphen(s)
  }
}
