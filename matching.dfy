/**
  Best-match selection. Each candidate element is paired with its attribute value set,
  scored by the size of the intersection with the reference set, and the first
  candidate whose score is strictly larger than every earlier score wins; when no
  candidate scores above 0 there is no target element.
 */
module Matching {
  import opened Options
  import opened Attributes

  /** A candidate: an element together with its attribute value set (an immutable pair). */
  datatype ElementWrapper = ElementWrapper(element: Element, attributeSet: set<string>)

  /**
    The wrapper built for a candidate element: the element itself, with a value set that
    holds exactly the attribute values and has no more members than the element has attributes.
   */
  function Wrap(e: Element): (w: ElementWrapper)
    ensures w.element == e
    ensures forall i :: 0 <= i < |e.attributes| ==> e.attributes[i].value in w.attributeSet
    ensures forall v :: v in w.attributeSet <==> exists i :: 0 <= i < |e.attributes| && e.attributes[i].value == v
    ensures |w.attributeSet| <= |e.attributes|
  {
    ValueSetBound(e.attributes);
    ValueSetMembers(e.attributes);
    ElementWrapper(e, ValueSet(e.attributes))
  }

  /** A subset has no more members than its superset. */
  lemma {:induction false} SubsetSize<T>(a: set<T>, b: set<T>)
    requires a <= b
    ensures |a| <= |b|
  {
    if a != {} {
      var x :| x in a;
      SubsetSize(a - {x}, b - {x});
    }
  }

  /** Two sets are disjoint exactly when their intersection is empty. */
  lemma DisjointIntersection<T>(a: set<T>, b: set<T>)
    ensures a !! b <==> a * b == {}
  {
    if !(a !! b) {
      var x :| x in a && x in b;
      assert x in a * b;
    }
  }

  /**
    The score of an attribute value set: how many distinct values it shares with the
    reference set. It is bounded by both sets, and it is 0 exactly when they are disjoint.
   */
  function Score(attributeSet: set<string>, original: set<string>): (n: nat)
    ensures n <= |attributeSet| && n <= |original|
    ensures n == 0 <==> attributeSet !! original
  {
    SubsetSize(attributeSet * original, attributeSet);
    SubsetSize(attributeSet * original, original);
    DisjointIntersection(attributeSet, original);
    |attributeSet * original|
  }

  /**
    The score of a candidate element: at most its number of attributes, and 0 exactly when
    none of its attribute values is in the reference set.
   */
  function ScoreOf(e: Element, original: set<string>): (n: nat)
    ensures n <= |e.attributes|
    ensures n == 0 <==> ValueSet(e.attributes) !! original
  {
    ValueSetBound(e.attributes);
    Score(ValueSet(e.attributes), original)
  }

  /**
    The scores of the candidates, in candidate order. Each is at most the candidate's number
    of attributes, and 0 exactly when the candidate shares no value with the reference set.
   */
  function Scores(es: seq<Element>, original: set<string>): (s: seq<nat>)
    ensures |s| == |es|
    ensures forall i :: 0 <= i < |es| ==> s[i] == ScoreOf(es[i], original)
    ensures forall i :: 0 <= i < |es| ==> s[i] <= |es[i].attributes|
    ensures forall i :: 0 <= i < |es| ==> (s[i] == 0 <==> ValueSet(es[i].attributes) !! original)
  {
    seq(|es|, i requires 0 <= i < |es| => ScoreOf(es[i], original))
  }

  /** The largest of a sequence of scores, and 0 for no scores. */
  function Max(s: seq<nat>): (m: nat)
    ensures forall i :: 0 <= i < |s| ==> s[i] <= m
    ensures m == 0 || m in s
  {
    if s == [] then 0
    else
      var m := Max(s[..|s| - 1]);
      assert forall i :: 0 <= i < |s| - 1 ==> s[i] == s[..|s| - 1][i];
      if m < s[|s| - 1] then s[|s| - 1] else m
  }

  /** The position of the first occurrence of `m`. */
  function FirstIndex(s: seq<nat>, m: nat): (k: nat)
    requires m in s
    ensures k < |s| && s[k] == m
    ensures m !in s[..k]
  {
    if s[0] == m then 0
    else
      var k := FirstIndex(s[1..], m);
      assert s[..k + 1] == [s[0]] + s[1..][..k];
      1 + k
  }

  /**
    Position `i` holds the score the heuristic reports: it is above 0, no score is larger,
    and every earlier score is strictly smaller.
   */
  predicate IsFirstMax(s: seq<nat>, i: int)
  {
    && 0 <= i < |s|
    && s[i] > 0
    && (forall j :: 0 <= j < |s| ==> s[j] <= s[i])
    && (forall j :: 0 <= j < i ==> s[j] < s[i])
  }

  /**
    The specification of the scan on the scores alone: the position of the first maximal
    score when that maximum is above 0, and none when every score is 0.
   */
  function FirstMax(s: seq<nat>): (r: Option<nat>)
    ensures r.None? <==> forall i :: 0 <= i < |s| ==> s[i] == 0
    ensures r.Some? ==> IsFirstMax(s, r.value) && s[r.value] == Max(s)
  {
    var m := Max(s);
    if m == 0 then None
    else
      var k := FirstIndex(s, m);
      assert forall j :: 0 <= j < k ==> s[j] == s[..k][j];
      Some(k)
  }

  /** At most one position satisfies the reporting condition, so it determines the result. */
  lemma FirstMaxUnique(s: seq<nat>, i: int)
    requires IsFirstMax(s, i)
    ensures FirstMax(s) == Some(i)
  {
  }

  /** The maximum after one more score. */
  lemma MaxAppend(s: seq<nat>, x: nat)
    ensures Max(s + [x]) == if Max(s) < x then x else Max(s)
  {
    assert (s + [x])[..|s|] == s;
  }

  /** A score strictly above every earlier one is the first maximum. */
  lemma FirstMaxAppendAbove(s: seq<nat>, x: nat)
    requires Max(s) < x
    ensures FirstMax(s + [x]) == Some(|s|)
  {
    MaxAppend(s, x);
  }

  /** A score no higher than the maximum so far leaves the first maximum where it was. */
  lemma FirstMaxAppendBelow(s: seq<nat>, x: nat)
    requires x <= Max(s)
    ensures FirstMax(s + [x]) == FirstMax(s)
  {
    MaxAppend(s, x);
    if Max(s) > 0 {
      FirstIndexAppend(s, x, Max(s));
    }
  }

  /**
    One step of the scan on the scores: one more score moves the result to the new
    position exactly when it is strictly above the maximum so far.
   */
  lemma FirstMaxStep(s: seq<nat>, x: nat)
    ensures Max(s + [x]) == if Max(s) < x then x else Max(s)
    ensures FirstMax(s + [x]) == if Max(s) < x then Some(|s|) else FirstMax(s)
  {
    MaxAppend(s, x);
    if Max(s) < x {
      FirstMaxAppendAbove(s, x);
    } else {
      FirstMaxAppendBelow(s, x);
    }
  }

  /** The step of the scan in the form the loop uses it: extending the scanned prefix by one score. */
  lemma FirstMaxPrefixStep(s: seq<nat>, i: nat)
    requires i < |s|
    ensures Max(s[..i + 1]) == if Max(s[..i]) < s[i] then s[i] else Max(s[..i])
    ensures FirstMax(s[..i + 1]) == if Max(s[..i]) < s[i] then Some(i) else FirstMax(s[..i])
  {
    assert s[..i + 1] == s[..i] + [s[i]];
    FirstMaxStep(s[..i], s[i]);
  }

  /** Candidate `i` is the one the heuristic must report. */
  predicate IsFirstBest(es: seq<Element>, original: set<string>, i: int)
  {
    IsFirstMax(Scores(es, original), i)
  }

  /**
    The specification of the selection: the wrapper of the first candidate whose score
    equals the maximum, when that maximum is above 0, and no target otherwise.
   */
  function Select(es: seq<Element>, original: set<string>): (r: Option<ElementWrapper>)
    ensures r.None? <==> forall i :: 0 <= i < |es| ==> Scores(es, original)[i] == 0
    ensures r.Some? ==> exists i :: IsFirstBest(es, original, i) && r.value == Wrap(es[i])
  {
    match FirstMax(Scores(es, original))
    case None => None
    case Some(k) => Some(Wrap(es[k]))
  }

  /** The candidate satisfying the reporting condition is the one selected. */
  lemma SelectIsFirstBest(es: seq<Element>, original: set<string>, i: int)
    requires IsFirstBest(es, original, i)
    ensures Select(es, original) == Some(Wrap(es[i]))
  {
    FirstMaxUnique(Scores(es, original), i);
  }

  /**
    A reported candidate is one of the inputs paired with its own value set, has a positive
    score, scores at least as much as every candidate, and no earlier candidate ties with it.
   */
  lemma SelectProperties(es: seq<Element>, original: set<string>)
    ensures Select(es, original).Some? ==>
      var w := Select(es, original).value;
      && (exists i :: 0 <= i < |es| && w.element == es[i])
      && w.attributeSet == ValueSet(w.element.attributes)
      && Score(w.attributeSet, original) > 0
      && (forall j :: 0 <= j < |es| ==> ScoreOf(es[j], original) <= Score(w.attributeSet, original))
      && (forall j :: 0 <= j < |es| && ScoreOf(es[j], original) == Score(w.attributeSet, original)
            ==> exists k :: 0 <= k <= j && es[k] == w.element)
  {
    if Select(es, original).Some? {
      var s := Scores(es, original);
      var w := Select(es, original).value;
      var i :| IsFirstMax(s, i) && w == Wrap(es[i]);
      assert Score(w.attributeSet, original) == s[i];
      forall j | 0 <= j < |es| && ScoreOf(es[j], original) == Score(w.attributeSet, original)
        ensures exists k :: 0 <= k <= j && es[k] == w.element
      {
        assert s[j] == s[i];
        assert i <= j && es[i] == w.element;
      }
    }
  }

  /**
    No target element when there are no candidates, when the reference set is empty, and
    when every candidate's value set is disjoint from the reference set.
   */
  lemma NoMatchCases(es: seq<Element>, original: set<string>)
    ensures Select([], original) == None
    ensures Select(es, {}) == None
    ensures (forall i :: 0 <= i < |es| ==> ValueSet(es[i].attributes) !! original) ==> Select(es, original) == None
  {
  }

  /** When the reference element could not be read, the reference set is empty and nothing matches. */
  lemma MissingReferenceNoMatch(es: seq<Element>)
    ensures Select(es, ReferenceSet(None)) == None
  {
    NoMatchCases(es, ReferenceSet(None));
  }

  /** The scores of one more candidate are the earlier scores followed by its score. */
  lemma ScoresAppend(es: seq<Element>, e: Element, original: set<string>)
    ensures Scores(es + [e], original) == Scores(es, original) + [ScoreOf(e, original)]
  {
    var t := Scores(es + [e], original);
    assert forall i :: 0 <= i < |es| ==> t[i] == Scores(es, original)[i];
  }

  /** The running maximum never decreases as the scan goes on. */
  lemma MaxScoreMonotone(es: seq<Element>, original: set<string>, i: nat, j: nat)
    requires i <= j <= |es|
    ensures Max(Scores(es[..i], original)) <= Max(Scores(es[..j], original))
  {
    var s, t := Scores(es[..i], original), Scores(es[..j], original);
    var m := Max(s);
    if m > 0 {
      var k :| 0 <= k < |s| && s[k] == m;
      assert t[k] == ScoreOf(es[k], original) == m;
    }
  }

  /** Appending a score that already occurs later leaves the first occurrence where it was. */
  lemma {:induction false} FirstIndexAppend(s: seq<nat>, x: nat, m: nat)
    requires m in s
    ensures FirstIndex(s + [x], m) == FirstIndex(s, m)
  {
    if s[0] != m {
      assert (s + [x])[1..] == s[1..] + [x];
      FirstIndexAppend(s[1..], x, m);
    }
  }

  /**
    One step of the scan: the selection over one more candidate is that candidate when it
    scores strictly more than the maximum so far, and the earlier selection otherwise.
   */
  lemma SelectStep(es: seq<Element>, e: Element, original: set<string>)
    ensures Max(Scores(es + [e], original)) ==
      if Max(Scores(es, original)) < ScoreOf(e, original) then ScoreOf(e, original) else Max(Scores(es, original))
    ensures Select(es + [e], original) ==
      if Max(Scores(es, original)) < ScoreOf(e, original) then Some(Wrap(e)) else Select(es, original)
  {
    var s := Scores(es, original);
    ScoresAppend(es, e, original);
    FirstMaxStep(s, ScoreOf(e, original));
    if FirstMax(s).Some? {
      assert (es + [e])[FirstMax(s).value] == es[FirstMax(s).value];
    }
  }

  /** When every candidate of `fs` also occurs in `es`, `fs` scores no more than `es`. */
  lemma MaxScoreSubset(es: seq<Element>, fs: seq<Element>, original: set<string>)
    requires multiset(fs) <= multiset(es)
    ensures Max(Scores(fs, original)) <= Max(Scores(es, original))
  {
    var m := Max(Scores(fs, original));
    if m > 0 {
      var i :| 0 <= i < |fs| && Scores(fs, original)[i] == m;
      assert fs[i] in multiset(es);
      var j :| 0 <= j < |es| && es[j] == fs[i];
      assert Scores(es, original)[j] == m;
    }
  }

  /**
    The order of the candidates does not change the maximum score, so a permutation of the
    candidates reports a target exactly when the original order does.
   */
  lemma SelectPermutation(es: seq<Element>, fs: seq<Element>, original: set<string>)
    requires multiset(es) == multiset(fs)
    ensures Max(Scores(es, original)) == Max(Scores(fs, original))
    ensures Select(es, original).None? <==> Select(fs, original).None?
  {
    MaxScoreSubset(es, fs, original);
    MaxScoreSubset(fs, es, original);
    var s, t := Scores(es, original), Scores(fs, original);
    if Select(es, original).None? {
      assert Max(s) == 0;
      assert forall i :: 0 <= i < |t| ==> t[i] <= Max(t);
    } else {
      assert Max(s) > 0;
      assert Max(t) in t;
    }
  }

  /**
    The order of the candidates decides only ties: a winner that no other candidate ties
    with wins in every order of the candidates.
   */
  lemma SelectPermutationUniqueWinner(es: seq<Element>, fs: seq<Element>, original: set<string>)
    requires multiset(es) == multiset(fs)
    ensures Select(es, original).Some? &&
      (forall j :: 0 <= j < |es| && Scores(es, original)[j] == Max(Scores(es, original)) ==>
        es[j] == Select(es, original).value.element)
      ==> Select(fs, original) == Select(es, original)
  {
    SelectPermutation(es, fs, original);
    var s, t := Scores(es, original), Scores(fs, original);
    if Select(es, original).Some? &&
      (forall j :: 0 <= j < |es| && s[j] == Max(s) ==> es[j] == Select(es, original).value.element)
    {
      var i, k := FirstMax(s).value, FirstMax(t).value;
      assert Select(es, original) == Some(Wrap(es[i]));
      assert Select(fs, original) == Some(Wrap(fs[k]));
      assert fs[k] in multiset(es);
      var j :| 0 <= j < |es| && es[j] == fs[k];
      assert s[j] == t[k];
    }
  }

  /**
    The first half of `getTargetElement`: one wrapper per element, in element order, each
    holding its element and that element's attribute value set.
   */
  method WrapElements(elements: seq<Element>) returns (elementWrappers: seq<ElementWrapper>)
    ensures |elementWrappers| == |elements|
    ensures forall j :: 0 <= j < |elements| ==>
      elementWrappers[j].element == elements[j] && elementWrappers[j].attributeSet == ValueSet(elements[j].attributes)
  {
    elementWrappers := [];
    for k := 0 to |elements|
      invariant |elementWrappers| == k
      invariant forall j :: 0 <= j < k ==> elementWrappers[j] == Wrap(elements[j])
    {
      elementWrappers := elementWrappers + [Wrap(elements[k])];
    }
  }

  /**
    The scan of `getTargetElement`: wrap every element, then keep the first wrapper whose
    intersection with the reference set is strictly larger than the running maximum.
   */
  method GetTargetElement(elements: seq<Element>, originalAttributes: set<string>)
    returns (targetElement: Option<ElementWrapper>)
    ensures targetElement.Some? ==> targetElement.value.attributeSet == ValueSet(targetElement.value.element.attributes)
    ensures targetElement == Select(elements, originalAttributes)
  {
    var elementWrappers := WrapElements(elements);
    ghost var scores := Scores(elements, originalAttributes);
    ghost var best: Option<nat> := None;
    var max := 0;
    targetElement := None;
    for i := 0 to |elementWrappers|
      invariant best == FirstMax(scores[..i])
      invariant max == Max(scores[..i])
      invariant max == if best.None? then 0 else scores[best.value]
      invariant targetElement == if best.None? then None else Some(elementWrappers[best.value])
    {
      var intersection := elementWrappers[i].attributeSet * originalAttributes;
      assert |intersection| == scores[i];
      FirstMaxPrefixStep(scores, i);
      if max < |intersection| {
        max := |intersection|;
        targetElement := Some(elementWrappers[i]);
        best := Some(i);
      }
    }
    assert scores[..|elements|] == scores;
  }
}
