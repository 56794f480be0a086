/**
  Worked examples of the heuristic: a two-way overlap beats a one-way overlap, the earlier of
  two tied candidates wins, and candidates disjoint from the reference give no target.
 */
module Scenarios {
  import opened Options
  import opened Attributes
  import opened Matching

  /** The reference button: its `class` value is one opaque string, not split into tokens. */
  const Reference: Element := Element([
    Attribute("id", "make-everything-ok-button"),
    Attribute("class", "btn btn-success"),
    Attribute("data-role", "submit")], "button#make-everything-ok-button")

  /** Shares "btn btn-success" and "submit" with the reference. */
  const TwoWay: Element := Element([
    Attribute("class", "btn btn-success"),
    Attribute("data-role", "submit"),
    Attribute("title", "Make-Button")], "a.btn.btn-success")

  /** A candidate with the same two-way overlap as `TwoWay` under another attribute order and selector. */
  const TwoWay': Element := Element([
    Attribute("data-role", "submit"),
    Attribute("class", "btn btn-success")], "button.btn.btn-success")

  /** Shares only "btn btn-success" with the reference. */
  const OneWay: Element := Element([
    Attribute("class", "btn btn-success"),
    Attribute("href", "#ok")], "a.btn.btn-success")

  /** Shares nothing with the reference. */
  const Disjoint: Element := Element([
    Attribute("class", "btn btn-danger"),
    Attribute("href", "#cancel")], "a.btn.btn-danger")

  /** The reference value set holds the three attribute values, names dropped. */
  lemma ReferenceValues()
    ensures ReferenceSet(Some(Reference)) == {"make-everything-ok-button", "btn btn-success", "submit"}
  {
    ValueSetCons(Reference.attributes);
    ValueSetCons(Reference.attributes[1..]);
    ValueSetCons(Reference.attributes[2..]);
  }

  lemma TwoWayValues()
    ensures ValueSet(TwoWay.attributes) == {"btn btn-success", "submit", "Make-Button"}
  {
    ValueSetCons(TwoWay.attributes);
    ValueSetCons(TwoWay.attributes[1..]);
    ValueSetCons(TwoWay.attributes[2..]);
  }

  lemma TiedValues()
    ensures ValueSet(TwoWay'.attributes) == {"submit", "btn btn-success"}
  {
    ValueSetCons(TwoWay'.attributes);
    ValueSetCons(TwoWay'.attributes[1..]);
  }

  lemma OneWayValues()
    ensures ValueSet(OneWay.attributes) == {"btn btn-success", "#ok"}
  {
    ValueSetCons(OneWay.attributes);
    ValueSetCons(OneWay.attributes[1..]);
  }

  lemma DisjointValues()
    ensures ValueSet(Disjoint.attributes) == {"btn btn-danger", "#cancel"}
  {
    ValueSetCons(Disjoint.attributes);
    ValueSetCons(Disjoint.attributes[1..]);
  }

  /** The scores of the candidates against the reference set. */
  lemma CandidateScores()
    ensures ScoreOf(TwoWay, ReferenceSet(Some(Reference))) == 2
    ensures ScoreOf(TwoWay', ReferenceSet(Some(Reference))) == 2
    ensures ScoreOf(OneWay, ReferenceSet(Some(Reference))) == 1
    ensures ScoreOf(Disjoint, ReferenceSet(Some(Reference))) == 0
  {
    TwoWayScore();
    TiedScore();
    OneWayScore();
    DisjointScore();
  }

  lemma TwoWayScore()
    ensures ScoreOf(TwoWay, ReferenceSet(Some(Reference))) == 2
  {
    ReferenceValues();
    TwoWayValues();
    var r: set<string> := {"make-everything-ok-button", "btn btn-success", "submit"};
    assert {"btn btn-success", "submit", "Make-Button"} * r == {"btn btn-success", "submit"};
  }

  lemma TiedScore()
    ensures ScoreOf(TwoWay', ReferenceSet(Some(Reference))) == 2
  {
    ReferenceValues();
    TiedValues();
    var r: set<string> := {"make-everything-ok-button", "btn btn-success", "submit"};
    assert {"submit", "btn btn-success"} * r == {"btn btn-success", "submit"};
  }

  lemma OneWayScore()
    ensures ScoreOf(OneWay, ReferenceSet(Some(Reference))) == 1
  {
    ReferenceValues();
    OneWayValues();
    var r: set<string> := {"make-everything-ok-button", "btn btn-success", "submit"};
    assert {"btn btn-success", "#ok"} * r == {"btn btn-success"};
  }

  lemma DisjointScore()
    ensures ScoreOf(Disjoint, ReferenceSet(Some(Reference))) == 0
  {
    ReferenceValues();
    DisjointValues();
    var r: set<string> := {"make-everything-ok-button", "btn btn-success", "submit"};
    assert {"btn btn-danger", "#cancel"} * r == {};
  }

  /** The scores of two candidates. */
  lemma ScoresPair(a: Element, b: Element, r: set<string>)
    ensures Scores([a, b], r) == [ScoreOf(a, r), ScoreOf(b, r)]
  {
  }

  /** With scores 2 and 1, the two-way candidate wins whichever comes first. */
  lemma LargerOverlapWinsAt(a: Element, b: Element, r: set<string>)
    requires ScoreOf(a, r) == 2 && ScoreOf(b, r) == 1
    ensures Select([a, b], r) == Some(Wrap(a))
    ensures Select([b, a], r) == Some(Wrap(a))
  {
    ScoresPair(a, b, r);
    ScoresPair(b, a, r);
    FirstMaxUnique([2, 1], 0);
    FirstMaxUnique([1, 2], 1);
  }

  /** With scores 1, 0, 2, 2, the third candidate wins: the later tie is ignored. */
  lemma EarlierTieWinsAt(a: Element, b: Element, c: Element, d: Element, r: set<string>)
    requires ScoreOf(a, r) == 1 && ScoreOf(b, r) == 0 && ScoreOf(c, r) == 2 && ScoreOf(d, r) == 2
    ensures Select([a, b, c, d], r) == Some(Wrap(c))
  {
    assert Scores([a, b, c, d], r) == [1, 0, 2, 2];
    TieFirstMax();
  }

  /** On the scores 1, 0, 2, 2 the first maximum is the third position. */
  lemma TieFirstMax()
    ensures FirstMax([1, 0, 2, 2]) == Some(2)
  {
    FirstMaxUnique([1, 0, 2, 2], 2);
  }

  /** The two-way overlap is selected over the one-way overlap, in either order. */
  lemma LargerOverlapWins()
    ensures Select([TwoWay, OneWay], ReferenceSet(Some(Reference))) == Some(Wrap(TwoWay))
    ensures Select([OneWay, TwoWay], ReferenceSet(Some(Reference))) == Some(Wrap(TwoWay))
  {
    CandidateScores();
    LargerOverlapWinsAt(TwoWay, OneWay, ReferenceSet(Some(Reference)));
  }

  /** Of two candidates tied for the maximum, the earlier one is selected, whichever of the two it is. */
  lemma EarlierTieWins()
    ensures Select([OneWay, Disjoint, TwoWay, TwoWay'], ReferenceSet(Some(Reference))) == Some(Wrap(TwoWay))
    ensures Select([OneWay, Disjoint, TwoWay', TwoWay], ReferenceSet(Some(Reference))) == Some(Wrap(TwoWay'))
  {
    CandidateScores();
    EarlierTieWinsAt(OneWay, Disjoint, TwoWay, TwoWay', ReferenceSet(Some(Reference)));
    EarlierTieWinsAt(OneWay, Disjoint, TwoWay', TwoWay, ReferenceSet(Some(Reference)));
  }

  /** With scores 0 and 0 there is no target. */
  lemma NoTargetAt(a: Element, b: Element, r: set<string>)
    requires ScoreOf(a, r) == 0 && ScoreOf(b, r) == 0
    ensures Select([a, b], r) == None
  {
    ScoresPair(a, b, r);
  }

  /** When every candidate is disjoint from the reference there is no target, although candidates exist. */
  lemma DisjointGivesNoTarget()
    ensures Select([Disjoint, Disjoint], ReferenceSet(Some(Reference))) == None
  {
    CandidateScores();
    NoTargetAt(Disjoint, Disjoint, ReferenceSet(Some(Reference)));
  }
}
