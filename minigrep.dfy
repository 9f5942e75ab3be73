/** The library crate's root (src/lib.rs): the search options record and the
    normalisation of the search pattern. Lower-casing is modelled on ASCII
    letters: `A`..`Z` become `a`..`z` and every other character is kept. */
module MiniGrep {

  /** The three independent search flags. */
  datatype Options = Options(ignoreCase: bool, invert: bool, count: bool)

  predicate IsUpper(c: char) {
    'A' <= c <= 'Z'
  }

  /** The lower-case form of one character. */
  function LowerChar(c: char): (r: char)
    ensures !IsUpper(r)
    ensures IsUpper(c) ==> r as int == c as int + 32 && 'a' <= r <= 'z'
    ensures !IsUpper(c) ==> r == c
  {
    if IsUpper(c) then (c as int + 32) as char else c
  }

  /** `s` lower-cased character by character. */
  function ToLower(s: string): (r: string)
    ensures |r| == |s|
    ensures forall i :: 0 <= i < |s| ==> r[i] == LowerChar(s[i])
  {
    if s == [] then [] else [LowerChar(s[0])] + ToLower(s[1..])
  }

  /** `Query::compile_pattern`: the needle the search looks for. */
  function CompilePattern(pattern: string, ignoreCase: bool): (needle: string)
    ensures |needle| == |pattern|
    ensures !ignoreCase ==> needle == pattern
    ensures ignoreCase ==> forall i :: 0 <= i < |needle| ==> !IsUpper(needle[i])
    ensures ignoreCase ==> EqualIgnoringCase(needle, pattern)
    ensures ignoreCase ==> forall i :: 0 <= i < |pattern| && !IsUpper(pattern[i]) ==>
      needle[i] == pattern[i]
  {
    if ignoreCase then ToLower(pattern) else pattern
  }

  /** Two characters that are equal once case is disregarded. */
  predicate SameLetterIgnoringCase(a: char, b: char) {
    a == b
    || (IsUpper(a) && b as int == a as int + 32)
    || (IsUpper(b) && a as int == b as int + 32)
  }

  /** Two strings that are equal once case is disregarded. */
  predicate EqualIgnoringCase(p: string, q: string) {
    |p| == |q| && forall i :: 0 <= i < |p| ==> SameLetterIgnoringCase(p[i], q[i])
  }

  /** Compiling an already compiled case-insensitive needle changes nothing. */
  lemma CompileIdempotent(pattern: string)
    ensures CompilePattern(CompilePattern(pattern, true), true) == CompilePattern(pattern, true)
  {
  }

  /** Two patterns compile to the same case-insensitive needle exactly when they
      are equal up to the case of their letters. */
  lemma CompileIgnoringCaseExact(p: string, q: string)
    ensures CompilePattern(p, true) == CompilePattern(q, true) <==> EqualIgnoringCase(p, q)
  {
  }
}
