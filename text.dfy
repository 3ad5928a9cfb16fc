/**
 * Character classes and the string builtins the estimator relies on:
 * `String.prototype.trim` and `Array.prototype.join`.
 */
module Text {

  /**
   * Whitespace as `trim()` and `\s` see it, restricted to ASCII: space, tab,
   * line feed, vertical tab, form feed and carriage return.
   */
  predicate IsSpace(c: char) {
    c == ' ' || c == '\t' || c == '\n' || c == '\U{000B}' || c == '\U{000C}' || c == '\r'
  }

  /** A member of the regular-expression class `\w`: an ASCII letter, digit or underscore. */
  predicate IsWordChar(c: char) {
    ('a' <= c <= 'z') || ('A' <= c <= 'Z') || ('0' <= c <= '9') || c == '_'
  }

  predicate AllSpaces(s: string) {
    forall i :: 0 <= i < |s| ==> IsSpace(s[i])
  }

  predicate NoSpaces(s: string) {
    forall i :: 0 <= i < |s| ==> !IsSpace(s[i])
  }

  /** Neither starts nor ends with whitespace. */
  predicate Trimmed(s: string) {
    s == [] || (!IsSpace(s[0]) && !IsSpace(s[|s| - 1]))
  }

  /** The number of whitespace characters `s` starts with. */
  function LeadingSpaces(s: string): (n: nat)
    ensures n <= |s|
    ensures forall i :: 0 <= i < n ==> IsSpace(s[i])
    ensures n < |s| ==> !IsSpace(s[n])
  {
    if s != [] && IsSpace(s[0]) then 1 + LeadingSpaces(s[1..]) else 0
  }

  /** The number of whitespace characters `s` ends with. */
  function TrailingSpaces(s: string): (n: nat)
    ensures n <= |s|
    ensures forall i :: |s| - n <= i < |s| ==> IsSpace(s[i])
    ensures n < |s| ==> !IsSpace(s[|s| - 1 - n])
  {
    if s != [] && IsSpace(s[|s| - 1]) then 1 + TrailingSpaces(s[..|s| - 1]) else 0
  }

  /** `s` without its leading whitespace. */
  function TrimStart(s: string): string {
    s[LeadingSpaces(s)..]
  }

  /** `s.trim()`: `s` without its leading and trailing whitespace. */
  function Trim(s: string): (r: string)
    ensures Trimmed(r)
    ensures r == [] <==> AllSpaces(s)
  {
    var t := TrimStart(s);
    var r := t[..|t| - TrailingSpaces(t)];
    r
  }

  /** `Trim(s)` sits between a whitespace prefix and a whitespace suffix of `s`. */
  lemma TrimParts(s: string) returns (lead: string, trail: string)
    ensures s == lead + (Trim(s) + trail)
    ensures AllSpaces(lead) && AllSpaces(trail)
  {
    var t := TrimStart(s);
    lead := s[..LeadingSpaces(s)];
    assert s == lead + t;
    trail := TrailingPart(t);
  }

  /** `t` is its own prefix without trailing whitespace followed by that whitespace. */
  lemma TrailingPart(t: string) returns (trail: string)
    ensures t == t[..|t| - TrailingSpaces(t)] + trail
    ensures AllSpaces(trail)
  {
    trail := t[|t| - TrailingSpaces(t)..];
    assert t == t[..|t| - TrailingSpaces(t)] + trail;
  }

  /** `parts.join(sep)`: the parts in order with `sep` between neighbours; no parts give "". */
  function Join(parts: seq<string>, sep: string): string
  {
    if |parts| == 0 then ""
    else if |parts| == 1 then parts[0]
    else parts[0] + sep + Join(parts[1..], sep)
  }
}
