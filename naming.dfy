/** The first-letter capitalisation every generator applies to the page name:
    `name.replace(/^[a-z]/g, L => L.toUpperCase())`. */
module Naming {

  predicate IsAsciiLower(c: char) { 'a' <= c <= 'z' }

  predicate IsAsciiUpper(c: char) { 'A' <= c <= 'Z' }

  /** The ASCII upper-case letter of a lower-case one. */
  function ToAsciiUpper(c: char): (u: char)
    requires IsAsciiLower(c)
    ensures IsAsciiUpper(u)
    ensures u as int - 'A' as int == c as int - 'a' as int
  {
    (c as int - 32) as char
  }

  /** Upper-cases the first character when it is `a`-`z`; any other first
      character, and every later character, is kept. */
  function Capitalize(s: string): (r: string)
    ensures |r| == |s|
    ensures |s| > 0 ==> r[1..] == s[1..]
    ensures |s| > 0 && IsAsciiLower(s[0]) ==> IsAsciiUpper(r[0]) && r[0] as int == s[0] as int - 32
    ensures |s| > 0 && !IsAsciiLower(s[0]) ==> r == s
  {
    if |s| > 0 && IsAsciiLower(s[0]) then [ToAsciiUpper(s[0])] + s[1..] else s
  }

  /** A capitalised name never starts with `a`-`z`, so capitalising twice is capitalising once. */
  lemma CapitalizeIdempotent(s: string)
    ensures |Capitalize(s)| > 0 ==> !IsAsciiLower(Capitalize(s)[0])
    ensures Capitalize(Capitalize(s)) == Capitalize(s)
  {
  }

  /** Capitalisation changes a name exactly when it starts with `a`-`z`. */
  lemma CapitalizeChangesIff(s: string)
    ensures Capitalize(s) != s <==> |s| > 0 && IsAsciiLower(s[0])
  {
    if |s| > 0 && IsAsciiLower(s[0]) {
      assert Capitalize(s)[0] != s[0];
    }
  }

  lemma CapitalizeExamples()
    ensures Capitalize("orderList") == "OrderList"
    ensures Capitalize("Report") == "Report"
    ensures Capitalize("_list") == "_list"
    ensures Capitalize("") == ""
  {
    assert ToAsciiUpper('o') == 'O';
  }
}
