/**
 * Column names used by the assigner: Python's `str.strip()` on rule-table
 * headers, the derived subject list, and the names of the generated columns.
 */
module Names {

  /** Name of the rule-table column holding the assigned values (score_processor.py:90). */
  const AssignedValueColumn: string := "赋分值"

  /** Name of the per-row total column (score_processor.py:107). */
  const TotalColumn: string := "赋分总分"

  /** The generated column `<subject>_赋分` (score_processor.py:86, 92, 97). */
  function GeneratedName(subject: string): string {
    subject + "_赋分"
  }

  /** The characters Python's `str.isspace` accepts, which `str.strip()` removes. */
  predicate IsSpace(c: char) {
    c in {'\t', '\n', '\U{b}', '\U{c}', '\r', '\U{1c}', '\U{1d}', '\U{1e}', '\U{1f}', ' ',
          '\U{85}', '\U{a0}', '\U{1680}', '\U{2028}', '\U{2029}', '\U{202f}', '\U{205f}', '\U{3000}'}
    || ('\U{2000}' <= c <= '\U{200a}')
  }

  /** Drops leading whitespace. */
  function StripLeft(s: string): string {
    if s != [] && IsSpace(s[0]) then StripLeft(s[1..]) else s
  }

  /**
   * `StripLeft` removes exactly the leading run of whitespace: the result is a
   * suffix of `s`, everything cut off is whitespace, and the result does not
   * start with whitespace.
   */
  lemma {:induction false} StripLeftCuts(s: string)
    ensures |StripLeft(s)| <= |s| && StripLeft(s) == s[|s| - |StripLeft(s)|..]
    ensures forall k :: 0 <= k < |s| - |StripLeft(s)| ==> IsSpace(s[k])
    ensures StripLeft(s) != [] ==> !IsSpace(StripLeft(s)[0])
  {
    if s != [] && IsSpace(s[0]) {
      StripLeftCuts(s[1..]);
      var r := StripLeft(s[1..]);
      assert StripLeft(s) == r;
      forall k | 1 <= k < |s| - |r|
        ensures IsSpace(s[k])
      {
        assert s[k] == s[1..][k - 1];
      }
    }
  }

  /** Drops trailing whitespace. */
  function StripRight(s: string): string {
    if s != [] && IsSpace(s[|s| - 1]) then StripRight(s[..|s| - 1]) else s
  }

  /**
   * `StripRight` removes exactly the trailing run of whitespace: the result is
   * a prefix of `s`, everything cut off is whitespace, and the result does not
   * end with whitespace.
   */
  lemma {:induction false} StripRightCuts(s: string)
    ensures |StripRight(s)| <= |s| && StripRight(s) == s[..|StripRight(s)|]
    ensures forall k :: |StripRight(s)| <= k < |s| ==> IsSpace(s[k])
    ensures StripRight(s) != [] ==> !IsSpace(StripRight(s)[|StripRight(s)| - 1])
  {
    if s != [] && IsSpace(s[|s| - 1]) {
      var init := s[..|s| - 1];
      StripRightCuts(init);
      var r := StripRight(init);
      assert StripRight(s) == r;
      forall k | |r| <= k < |s| - 1
        ensures IsSpace(s[k])
      {
        assert s[k] == init[k];
      }
    }
  }

  /** `r` is the part of `s` starting at `i`, with only whitespace cut off around it. */
  predicate IsTrimmedAt(s: string, r: string, i: int) {
    0 <= i <= |s| - |r| && r == s[i..i + |r|] &&
    (forall k :: 0 <= k < i ==> IsSpace(s[k])) &&
    (forall k :: i + |r| <= k < |s| ==> IsSpace(s[k]))
  }

  /** Python's `str.strip()`. */
  function Strip(s: string): string {
    StripRight(StripLeft(s))
  }

  /**
   * `Strip(s)` is the contiguous part of `s` that starts after its leading
   * whitespace, neither starts nor ends with whitespace, and has only
   * whitespace cut off on either side.
   */
  lemma StripTrims(s: string)
    ensures Strip(s) != [] ==> !IsSpace(Strip(s)[0]) && !IsSpace(Strip(s)[|Strip(s)| - 1])
    ensures IsTrimmedAt(s, Strip(s), |s| - |StripLeft(s)|)
  {
    var left := StripLeft(s);
    var r := StripRight(left);
    StripLeftCuts(s);
    StripRightCuts(left);
    var i := |s| - |left|;
    assert r == left[..|r|];
    assert r == s[i..i + |r|];
    if r != [] {
      assert r[0] == left[0];
    }
    forall k | i + |r| <= k < |s|
      ensures IsSpace(s[k])
    {
      assert s[k] == left[k - i];
    }
  }

  /** The non-empty stripped names of `headers`, in order (the comprehension of score_processor.py:67). */
  function StrippedNames(headers: seq<string>): seq<string> {
    if headers == [] then []
    else if Strip(headers[0]) != "" then [Strip(headers[0])] + StrippedNames(headers[1..])
    else StrippedNames(headers[1..])
  }

  /** A name is listed iff it is the non-empty strip of some header; there are no more names than headers. */
  lemma {:induction false} StrippedNamesMembers(headers: seq<string>)
    ensures |StrippedNames(headers)| <= |headers|
    ensures forall s :: s in StrippedNames(headers) <==> s != "" && exists h :: h in headers && Strip(h) == s
  {
    if headers != [] {
      StrippedNamesMembers(headers[1..]);
      assert forall h :: h in headers <==> h == headers[0] || h in headers[1..];
    }
  }

  /**
   * The subject list of score_processor.py:67: every rule-table header after
   * the first, stripped, with the names that strip to "" left out.
   */
  function Subjects(ruleHeaders: seq<string>): seq<string> {
    if ruleHeaders == [] then [] else StrippedNames(ruleHeaders[1..])
  }

  /** A name is a subject iff it is non-empty and is the strip of a rule-table header other than the first. */
  lemma SubjectsMembers(ruleHeaders: seq<string>)
    ensures forall s :: s in Subjects(ruleHeaders) <==> s != "" && exists k :: 1 <= k < |ruleHeaders| && Strip(ruleHeaders[k]) == s
  {
    if ruleHeaders != [] {
      StrippedNamesMembers(ruleHeaders[1..]);
      assert forall h :: h in ruleHeaders[1..] <==> exists k :: 1 <= k < |ruleHeaders| && ruleHeaders[k] == h;
    }
  }

  /** Different subjects get different generated columns. */
  lemma GeneratedNameInjective(s: string, t: string)
    requires GeneratedName(s) == GeneratedName(t)
    ensures s == t
  {
    assert |s| == |t|;
    assert s == GeneratedName(s)[..|s|];
    assert t == GeneratedName(t)[..|t|];
  }

  /** No generated column is the total column. */
  lemma GeneratedNameIsNotTotal(s: string)
    ensures GeneratedName(s) != TotalColumn
  {
    if |s| == 1 {
      assert GeneratedName(s)[1] == '_' && TotalColumn[1] != '_';
    } else {
      assert |GeneratedName(s)| != |TotalColumn|;
    }
  }
}
