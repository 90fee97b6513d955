/** The gate that decides whether the new-fact form is sent. */
module Submission {
  import opened Categories
  import opened Url

  /** The most UTF-16 code units a fact's text may have. */
  const MAX_TEXT_LENGTH: nat := 200

  /** The length of a string as a browser counts it: in UTF-16 code units, where a
      character outside the Basic Multilingual Plane takes two. It lies between the
      number of characters and twice that, and is zero only for the empty string. */
  function Utf16Length(s: string): (n: nat)
    ensures |s| <= n <= 2 * |s|
    ensures n == 0 <==> s == []
  {
    if s == [] then 0
    else (if s[0] as int > 0xFFFF then 2 else 1) + Utf16Length(s[1..])
  }

  /** For text inside the Basic Multilingual Plane the browser's length is the
      number of characters. */
  lemma {:induction false} Utf16LengthOfBmpText(s: string)
    requires forall i :: 0 <= i < |s| ==> s[i] as int <= 0xFFFF
    ensures Utf16Length(s) == |s|
  {
    if s != [] {
      Utf16LengthOfBmpText(s[1..]);
    }
  }

  /** The submission test: non-empty text, a valid http(s) source, a chosen
      category and text of at most 200 code units. Accepted text therefore has
      1 to 200 characters, and an accepted source parses. */
  predicate Accepted(parse: UrlParser, text: string, source: string, category: string)
    ensures Accepted(parse, text, source, category) ==>
      1 <= |text| <= MAX_TEXT_LENGTH && parse(source).Parsed? && category != NO_CATEGORY
  {
    text != "" && IsValidHttpUrl(parse, source) && category != "" && Utf16Length(text) <= MAX_TEXT_LENGTH
  }

  /** What a submitted fact must satisfy: 1 to 200 code units of text, a source that
      parses with scheme http or https, and a category from the table. */
  predicate WellFormedSubmission(parse: UrlParser, text: string, source: string, category: string)
  {
    1 <= Utf16Length(text) <= MAX_TEXT_LENGTH &&
    parse(source).Parsed? && (parse(source).scheme == "http" || parse(source).scheme == "https") &&
    IsCategoryName(category)
  }

  /** While the category field holds a value the selector offers, the gate accepts
      exactly the well-formed submissions. */
  lemma AcceptedIffWellFormed(parse: UrlParser, text: string, source: string, category: string)
    requires IsFormCategory(category)
    ensures Accepted(parse, text, source, category) <==> WellFormedSubmission(parse, text, source, category)
  {
    CategoryTableWellFormed();
  }
}
