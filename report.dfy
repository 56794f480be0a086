/**
  The report printed for the target element: a synthesized path made of a fixed ancestor
  scaffold followed by the element's own rendered selector. The scaffold is assumed, not
  computed from the element's real ancestors.
 */
module Report {
  import opened Options
  import opened Matching

  /** The assumed ancestor scaffold every target path starts with. */
  const PathPrefix: string := "html > body > div.wrapper > div."

  /** The path of a target element: the scaffold, then the element's own selector. */
  function TargetPath(w: ElementWrapper): (p: string)
    ensures |p| == |PathPrefix| + |w.element.selector|
    ensures p[..|PathPrefix|] == PathPrefix
    ensures p[|PathPrefix|..] == w.element.selector
  {
    PathPrefix + w.element.selector
  }

  /** Two targets get the same path exactly when their own selectors are equal. */
  lemma TargetPathInjective(v: ElementWrapper, w: ElementWrapper)
    ensures TargetPath(v) == TargetPath(w) <==> v.element.selector == w.element.selector
  {
    if TargetPath(v) == TargetPath(w) {
      assert v.element.selector == TargetPath(v)[|PathPrefix|..];
    }
  }

  /**
    The path reported by `pathBuilder`: present exactly when there is a target element, and
    then the scaffold followed by the target's own selector.
   */
  function PathBuilder(target: Option<ElementWrapper>): (r: Option<string>)
    ensures r.Some? <==> target.Some?
    ensures r.Some? ==> |PathPrefix| <= |r.value| && r.value[..|PathPrefix|] == PathPrefix
    ensures r.Some? ==> r.value[|PathPrefix|..] == target.value.element.selector
  {
    match target
    case None => None
    case Some(w) => Some(TargetPath(w))
  }
}
