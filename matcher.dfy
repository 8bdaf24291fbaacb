/**
 * The threshold matcher of score_processor.py (`calculate_single_score`):
 * given one raw score and one subject's rules (assigned value, minimum raw
 * score), sort the rules by minimum, highest first, and return the assigned
 * value of the first rule whose minimum the score reaches.
 */
module Matcher {
  import opened Wrappers

  /** One row of a subject's rule set after `dropna`: both sides are defined. */
  datatype Rule = Rule(assignedScore: real, min: real)

  /** The rule's minimum is reached by the raw score `x`. */
  predicate Reaches(x: real, rule: Rule) {
    rule.min <= x
  }

  /** `rule` is reached by `x` and no reached rule of `rules` has a higher minimum. */
  predicate IsBestReached(x: real, rule: Rule, rules: seq<Rule>) {
    Reaches(x, rule) && forall other :: other in rules && Reaches(x, other) ==> other.min <= rule.min
  }

  /** Minimums never increase from left to right. */
  predicate SortedByMinDesc(s: seq<Rule>) {
    forall i, j :: 0 <= i < j < |s| ==> s[i].min >= s[j].min
  }

  /** Inserts `r` into a sequence before the first rule whose minimum it reaches. */
  function Insert(r: Rule, s: seq<Rule>): seq<Rule> {
    if s == [] then [r]
    else if r.min >= s[0].min then [r] + s
    else [s[0]] + Insert(r, s[1..])
  }

  /** Inserting adds exactly `r`. */
  lemma {:induction false} InsertPermutes(r: Rule, s: seq<Rule>)
    ensures multiset(Insert(r, s)) == multiset(s) + multiset{r}
  {
    if s != [] && r.min < s[0].min {
      InsertPermutes(r, s[1..]);
      assert s == [s[0]] + s[1..];
    }
  }

  /** Inserting into a descending sequence keeps it descending, and puts `r` or the old head first. */
  lemma {:induction false} InsertSorts(r: Rule, s: seq<Rule>)
    requires SortedByMinDesc(s)
    ensures SortedByMinDesc(Insert(r, s))
    ensures Insert(r, s)[0] == r || Insert(r, s)[0] == s[0]
  {
    if s != [] && r.min < s[0].min {
      var tail := s[1..];
      assert SortedByMinDesc(tail) by {
        forall i, j | 0 <= i < j < |tail|
          ensures tail[i].min >= tail[j].min
        {
          assert tail[i] == s[i + 1] && tail[j] == s[j + 1];
        }
      }
      InsertSorts(r, tail);
      var rest := Insert(r, tail);
      var t := [s[0]] + rest;
      assert rest[0].min <= s[0].min;
      forall i, j | 0 <= i < j < |t|
        ensures t[i].min >= t[j].min
      {
        if i > 0 {
          assert t[i] == rest[i - 1] && t[j] == rest[j - 1];
        } else if j > 1 {
          assert t[j] == rest[j - 1];
          assert rest[0].min >= rest[j - 1].min;
        }
      }
    }
  }

  /**
   * The reordering done by `sort_values(..., ascending=False)`. That sort is
   * not stable, so the model fixes one admissible order: any result that is
   * descending and a permutation of the input is one pandas may produce.
   */
  function SortByMinDesc(rules: seq<Rule>): seq<Rule> {
    if rules == [] then [] else Insert(rules[0], SortByMinDesc(rules[1..]))
  }

  /** The sort yields a descending permutation of the rules. */
  lemma {:induction false} SortByMinDescSorts(rules: seq<Rule>)
    ensures SortedByMinDesc(SortByMinDesc(rules))
    ensures multiset(SortByMinDesc(rules)) == multiset(rules)
  {
    if rules != [] {
      SortByMinDescSorts(rules[1..]);
      InsertSorts(rules[0], SortByMinDesc(rules[1..]));
      InsertPermutes(rules[0], SortByMinDesc(rules[1..]));
      assert rules == [rules[0]] + rules[1..];
    }
  }

  /**
   * The early-return scan over the sorted rules: the assigned value of the
   * first rule whose minimum `x` reaches, or None when `x` reaches none.
   */
  function FirstReached(x: real, sorted: seq<Rule>): (r: Option<real>)
    ensures r.Some? ==> exists k :: 0 <= k < |sorted| && Reaches(x, sorted[k]) && sorted[k].assignedScore == r.value &&
                                   forall j :: 0 <= j < k ==> !Reaches(x, sorted[j])
    ensures r.None? ==> forall j :: 0 <= j < |sorted| ==> !Reaches(x, sorted[j])
  {
    if sorted == [] then None
    else if Reaches(x, sorted[0]) then Some(sorted[0].assignedScore)
    else
      var r := FirstReached(x, sorted[1..]);
      assert forall j :: 1 <= j < |sorted| ==> sorted[j] == sorted[1..][j - 1];
      r
  }

  /**
   * On a descending sequence, the first reached rule is a best reached rule:
   * no rule of the sequence that `x` reaches has a higher minimum.
   */
  lemma FirstReachedIsBest(x: real, sorted: seq<Rule>)
    requires SortedByMinDesc(sorted)
    ensures FirstReached(x, sorted).Some? ==>
              exists rule :: rule in sorted && rule.assignedScore == FirstReached(x, sorted).value && IsBestReached(x, rule, sorted)
  {
    var r := FirstReached(x, sorted);
    if r.Some? {
      var k :| 0 <= k < |sorted| && Reaches(x, sorted[k]) && sorted[k].assignedScore == r.value &&
               forall j :: 0 <= j < k ==> !Reaches(x, sorted[j]);
      forall other | other in sorted && Reaches(x, other)
        ensures other.min <= sorted[k].min
      {
        var m :| 0 <= m < |sorted| && sorted[m] == other;
        assert k <= m;
      }
      assert sorted[k] in sorted;
    }
  }

  /**
   * `calculate_single_score` (score_processor.py:39-56) as a value: absent
   * input gives no assigned value; otherwise the scan over the sorted rules.
   * What it computes is stated by `SingleScoreIsBestMatch`.
   */
  function SingleScore(score: Option<real>, rules: seq<Rule>): Option<real> {
    match score
    case None => None
    case Some(x) => FirstReached(x, SortByMinDesc(rules))
  }

  /**
   * The threshold match: an absent score gets no value; a present score gets
   * a value exactly when it reaches some rule, and that value is the assigned
   * value of a reached rule whose minimum is the highest any reached rule has.
   */
  lemma SingleScoreIsBestMatch(score: Option<real>, rules: seq<Rule>)
    ensures score.None? ==> SingleScore(score, rules).None?
    ensures score.Some? ==> (SingleScore(score, rules).Some? <==> exists rule :: rule in rules && Reaches(score.value, rule))
    ensures SingleScore(score, rules).Some? ==>
              score.Some? &&
              exists rule :: rule in rules && rule.assignedScore == SingleScore(score, rules).value && IsBestReached(score.value, rule, rules)
  {
    if score.Some? {
      var sorted := SortByMinDesc(rules);
      SortByMinDescSorts(rules);
      FirstReachedIsBest(score.value, sorted);
      assert forall rule :: rule in rules <==> rule in multiset(sorted);
      assert forall rule :: rule in rules <==> rule in sorted;
    }
  }

  /**
   * `calculate_single_score` as the source runs it: return early on an absent
   * score, sort, then scan until a rule's minimum is reached.
   */
  method CalculateSingleScore(score: Option<real>, rules: seq<Rule>) returns (r: Option<real>)
    ensures r == SingleScore(score, rules)
    ensures r.Some? <==> score.Some? && exists rule :: rule in rules && Reaches(score.value, rule)
  {
    SingleScoreIsBestMatch(score, rules);
    if score.None? {
      return None;
    }
    var x := score.value;
    var sorted := SortByMinDesc(rules);
    var i := 0;
    while i < |sorted|
      invariant 0 <= i <= |sorted|
      invariant FirstReached(x, sorted[i..]) == FirstReached(x, sorted)
    {
      assert sorted[i..][1..] == sorted[i + 1..];
      if sorted[i].min <= x {
        return Some(sorted[i].assignedScore);
      }
      i := i + 1;
    }
    return None;
  }

  /** Equal minimums in `rules` always carry equal assigned values. */
  predicate TiesAgree(rules: seq<Rule>) {
    forall a, b :: a in rules && b in rules && a.min == b.min ==> a.assignedScore == b.assignedScore
  }

  /**
   * The tie-break of the unstable sort is the only freedom the source leaves:
   * when equal minimums carry equal assigned values, every descending order of
   * the rules gives the value the model computes.
   */
  lemma AnyDescendingOrderAgrees(x: real, rules: seq<Rule>, order: seq<Rule>)
    requires TiesAgree(rules)
    requires SortedByMinDesc(order) && multiset(order) == multiset(rules)
    ensures FirstReached(x, order) == SingleScore(Some(x), rules)
  {
    assert forall rule :: rule in rules <==> rule in multiset(order);
    FirstReachedIsBest(x, order);
    SingleScoreIsBestMatch(Some(x), rules);
    var mine := SingleScore(Some(x), rules);
    var theirs := FirstReached(x, order);
    if theirs.Some? {
      var a :| a in order && a.assignedScore == theirs.value && IsBestReached(x, a, order);
      var b :| b in rules && b.assignedScore == mine.value && IsBestReached(x, b, rules);
      assert a.min == b.min;
    }
  }

  /**
   * Two bands given in ascending order (assigned 80 from 60, assigned 100
   * from 90): 85 gets 80, 95 gets 100, 90 is inclusive, 50 gets nothing.
   */
  lemma BandExample()
    ensures var rules := [Rule(80.0, 60.0), Rule(100.0, 90.0)];
            && SingleScore(Some(85.0), rules) == Some(80.0)
            && SingleScore(Some(95.0), rules) == Some(100.0)
            && SingleScore(Some(90.0), rules) == Some(100.0)
            && SingleScore(Some(50.0), rules) == None
            && SingleScore(None, rules) == None
  {
    var rules := [Rule(80.0, 60.0), Rule(100.0, 90.0)];
    assert SortByMinDesc(rules[1..]) == [Rule(100.0, 90.0)];
    assert SortByMinDesc(rules) == [Rule(100.0, 90.0), Rule(80.0, 60.0)];
  }
}
