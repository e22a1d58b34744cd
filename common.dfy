/** Values shared by every part of the model: nullable values, the exception
    kinds the services raise, and the two java.lang.String operations the
    services base decisions on (isBlank and toUpperCase). */
module Common {

  /** A nullable Java reference (Long id, String field, Boolean flag). */
  datatype Option<+T> = None | Some(value: T)

  /** One tag per exception class the core throws. `Validation` stands for
      both the project's own ValidationException and
      jakarta.validation.ValidationException; `EntityNotFound` is
      jakarta.persistence.EntityNotFoundException, which some lookups throw
      instead of the project's NotFoundException. */
  datatype Error = Validation | NotFound | EntityNotFound | DuplicatedData | IllegalArgument

  /** The outcome of an operation that either returns a value or throws. */
  datatype Result<+T> = Ok(value: T) | Err(error: Error)

  /** The outcome of a `void` check that may throw. */
  datatype Outcome = Pass | Fail(error: Error)

  /** Character.isWhitespace: the ASCII controls \t \n \u000B \f \r and
      \u001C-\u001F, and the Unicode space, line and paragraph separators
      except the non-breaking ones (U+00A0, U+2007, U+202F). */
  predicate IsWhitespace(c: char) {
    ('\t' <= c <= '\r') || ('\U{1C}' <= c <= ' ')
    || c == '\U{1680}' || ('\U{2000}' <= c <= '\U{2006}') || ('\U{2008}' <= c <= '\U{200A}')
    || c == '\U{2028}' || c == '\U{2029}' || c == '\U{205F}' || c == '\U{3000}'
  }

  /** String.isBlank: empty, or white space only. */
  predicate IsBlank(s: string) {
    forall i | 0 <= i < |s| :: IsWhitespace(s[i])
  }

  /** The test the partial updates apply to a DTO field:
      `value != null && !value.isBlank()`. */
  predicate Present(field: Option<string>) {
    field.Some? && !IsBlank(field.value)
  }

  /** The upper case of one character, as String.toUpperCase gives it in a
      locale other than Turkish or Azeri, for every character whose upper
      case consists of ASCII letters only; every other character is kept.
      Keeping those others never changes whether the result equals a word
      written in ASCII capitals, which is the only use the services make of
      the upper-cased string. */
  function UpperOf(c: char): (u: string)
    ensures |u| >= 1
    ensures 'a' <= c <= 'z' ==> u == [(c as int - 32) as char]
    ensures 'A' <= c <= 'Z' ==> u == [c]
  {
    if 'a' <= c <= 'z' then [(c as int - 32) as char]
    else if c == '\U{131}' then "I"      // dotless i
    else if c == '\U{17F}' then "S"      // long s
    else if c == '\U{DF}' then "SS"      // sharp s
    else if c == '\U{FB00}' then "FF"
    else if c == '\U{FB01}' then "FI"
    else if c == '\U{FB02}' then "FL"
    else if c == '\U{FB03}' then "FFI"
    else if c == '\U{FB04}' then "FFL"
    else if c == '\U{FB05}' || c == '\U{FB06}' then "ST"
    else [c]
  }

  /** String.toUpperCase, character by character (see UpperOf). */
  function UpperCase(s: string): (u: string)
    ensures |u| >= |s|
  {
    if s == [] then [] else UpperOf(s[0]) + UpperCase(s[1..])
  }

  /** Two strings that agree character by character up to case. */
  predicate SameUpToCase(s: string, t: string) {
    |s| == |t| && forall i | 0 <= i < |s| :: UpperOf(s[i]) == UpperOf(t[i])
  }

  /** Upper-casing cannot tell apart two strings that differ only in case;
      so every decision taken on `UpperCase(state)` is case-insensitive. */
  lemma {:induction false} UpperCaseIgnoresCase(s: string, t: string)
    requires SameUpToCase(s, t)
    ensures UpperCase(s) == UpperCase(t)
  {
    if s != [] {
      assert SameUpToCase(s[1..], t[1..]) by {
        forall i | 0 <= i < |s| - 1 ensures UpperOf(s[1..][i]) == UpperOf(t[1..][i]) {
          assert s[1..][i] == s[i + 1] && t[1..][i] == t[i + 1];
        }
      }
      UpperCaseIgnoresCase(s[1..], t[1..]);
    }
  }

  /** Upper-casing leaves a word written in ASCII capitals unchanged. */
  lemma {:induction false} UpperCaseOfCapitals(s: string)
    requires forall i | 0 <= i < |s| :: 'A' <= s[i] <= 'Z'
    ensures UpperCase(s) == s
  {
    if s != [] {
      UpperCaseOfCapitals(s[1..]);
    }
  }
}
