/** NewPage: the `validate` callback of the route-name prompt. It accepts a name that
    matches the pattern `^[a-zA-Z0-9_\u4e00-\u9fff]+$` as a whole and answers any other
    input with a fixed message. */
module NewPage {

  /** What `validate` returns: `true`, or the message the prompt shows. */
  datatype Verdict = Accept | Reject(message: string)

  const RejectionMessage: string := "请输入汉字、数字、字母、下划线，下划线位置不限"

  /** The character class of the pattern, range by range as written. */
  const ClassRanges: seq<(char, char)> :=
    [('a', 'z'), ('A', 'Z'), ('0', '9'), ('_', '_'), ('\U{4E00}', '\U{9FFF}')]

  predicate InClass(c: char) {
    exists i :: 0 <= i < |ClassRanges| && ClassRanges[i].0 <= c <= ClassRanges[i].1
  }

  /** Whole-input match of `^[class]+$`: one class character, then either the end
      of the input or another match. */
  predicate MatchPlus(s: string)
    decreases |s|
  {
    |s| > 0 && InClass(s[0]) && (|s| == 1 || MatchPlus(s[1..]))
  }

  /** The route-name `validate` callback. */
  function Validate(value: string): (v: Verdict)
    ensures v.Accept? || v == Reject(RejectionMessage)
    ensures v.Accept? ==> |value| > 0
  {
    if MatchPlus(value) then Accept else Reject(RejectionMessage)
  }

  /** The allowed characters as the comment above the pattern reads them: Chinese
      characters of the CJK Unified Ideographs block, digits, ASCII letters and the
      underscore. */
  predicate IsRouteNameChar(c: char) {
    ('a' <= c <= 'z') || ('A' <= c <= 'Z') || ('0' <= c <= '9') || c == '_'
    || ('\U{4E00}' <= c <= '\U{9FFF}')
  }

  predicate AllRouteNameChars(s: string) {
    forall i :: 0 <= i < |s| ==> IsRouteNameChar(s[i])
  }

  /** The class in the pattern is exactly that set. */
  lemma InClassIff(c: char)
    ensures InClass(c) <==> IsRouteNameChar(c)
  {
    if 'a' <= c <= 'z' { assert ClassRanges[0].0 <= c <= ClassRanges[0].1; }
    else if 'A' <= c <= 'Z' { assert ClassRanges[1].0 <= c <= ClassRanges[1].1; }
    else if '0' <= c <= '9' { assert ClassRanges[2].0 <= c <= ClassRanges[2].1; }
    else if c == '_' { assert ClassRanges[3].0 <= c <= ClassRanges[3].1; }
    else if '\U{4E00}' <= c <= '\U{9FFF}' { assert ClassRanges[4].0 <= c <= ClassRanges[4].1; }
  }

  /** `+` with the two anchors: the input matches exactly when it is non-empty and
      every one of its characters is in the class. */
  lemma {:induction false} MatchPlusIff(s: string)
    ensures MatchPlus(s) <==> |s| > 0 && AllRouteNameChars(s)
    decreases |s|
  {
    if |s| > 0 {
      InClassIff(s[0]);
      if |s| > 1 {
        MatchPlusIff(s[1..]);
        if AllRouteNameChars(s) {
          forall i | 0 <= i < |s[1..]| ensures IsRouteNameChar(s[1..][i]) { assert s[1..][i] == s[i + 1]; }
        }
        if IsRouteNameChar(s[0]) && AllRouteNameChars(s[1..]) {
          forall i | 0 <= i < |s| ensures IsRouteNameChar(s[i]) {
            if i > 0 { assert s[i] == s[1..][i - 1]; }
          }
        }
      }
    }
  }

  /** `validate` answers `true` exactly for a non-empty name of allowed characters,
      and the fixed message for anything else. */
  lemma ValidateIff(value: string)
    ensures Validate(value) == Accept <==> |value| > 0 && AllRouteNameChars(value)
    ensures Validate(value) != Accept <==> Validate(value) == Reject(RejectionMessage)
  {
    MatchPlusIff(value);
  }

  /** The empty name is refused: the pattern needs at least one character. */
  lemma ValidateRejectsEmpty()
    ensures Validate("") == Reject(RejectionMessage)
  {
  }

  /** One character outside the class, anywhere, refuses the whole name. */
  lemma ValidateRejectsBadChar(a: string, c: char, b: string)
    requires !IsRouteNameChar(c)
    ensures Validate(a + [c] + b) == Reject(RejectionMessage)
  {
    ValidateIff(a + [c] + b);
    assert (a + [c] + b)[|a|] == c;
  }

  /** Accepted names are closed under concatenation, and a concatenation of two
      non-empty parts is accepted only if both parts are. */
  lemma ValidateConcat(a: string, b: string)
    requires |a| > 0 && |b| > 0
    ensures Validate(a + b) == Accept <==> Validate(a) == Accept && Validate(b) == Accept
  {
    ValidateIff(a);
    ValidateIff(b);
    ValidateIff(a + b);
    if AllRouteNameChars(a + b) {
      assert AllRouteNameChars(a) by {
        forall i | 0 <= i < |a| ensures IsRouteNameChar(a[i]) { assert a[i] == (a + b)[i]; }
      }
      assert AllRouteNameChars(b) by {
        forall i | 0 <= i < |b| ensures IsRouteNameChar(b[i]) { assert b[i] == (a + b)[|a| + i]; }
      }
    }
    if AllRouteNameChars(a) && AllRouteNameChars(b) {
      forall i | 0 <= i < |a + b| ensures IsRouteNameChar((a + b)[i]) {
        if i < |a| { assert (a + b)[i] == a[i]; } else { assert (a + b)[i] == b[i - |a|]; }
      }
    }
  }

  /** The underscore is allowed anywhere: in front of, behind, or alone as an accepted name. */
  lemma ValidateUnderscoreAnywhere(s: string)
    ensures Validate("_") == Accept
    ensures Validate(s) == Accept ==> Validate("_" + s) == Accept && Validate(s + "_") == Accept
  {
    ValidateIff("_");
    if Validate(s) == Accept {
      ValidateConcat("_", s);
      ValidateConcat(s, "_");
    }
  }

  lemma ValidateAcceptExamples()
    ensures Validate("报表") == Accept
    ensures Validate("sales_2") == Accept
  {
    var zh := "报表";
    assert IsRouteNameChar(zh[0]) && IsRouteNameChar(zh[1]);
    ValidateIff(zh);
    var en := "sales_2";
    assert forall i | 0 <= i < |en| :: IsRouteNameChar(en[i]);
    ValidateIff(en);
  }

  lemma ValidateRejectExamples()
    ensures Validate("a-b") == Reject(RejectionMessage)
    ensures Validate("a b") == Reject(RejectionMessage)
    ensures Validate("\U{1F600}") == Reject(RejectionMessage)
  {
    ValidateRejectsBadChar("a", '-', "b");
    ValidateRejectsBadChar("a", ' ', "b");
    ValidateRejectsBadChar("", '\U{1F600}', "");
    assert "a" + ['-'] + "b" == "a-b";
    assert "a" + [' '] + "b" == "a b";
    assert "" + ['\U{1F600}'] + "" == "\U{1F600}";
  }
}
