/**
  Elements as the analyzer sees them: an ordered list of (name, value) attributes and
  the CSS selector the HTML parser renders for the element. From an element the analyzer
  derives its attribute value set (the unit of comparison) and a "name = value" listing
  of its attributes for the log.
 */
module Attributes {
  import opened Options

  /** One attribute of an element: its name (key) and its value. */
  datatype Attribute = Attribute(key: string, value: string)

  /**
    An element: its attributes in document order and its own rendered CSS selector,
    which the parser produces and which is taken here as an opaque string.
   */
  datatype Element = Element(attributes: seq<Attribute>, selector: string)

  /** No two attributes share a value. */
  predicate DistinctValues(attrs: seq<Attribute>)
  {
    forall i, j :: 0 <= i < j < |attrs| ==> attrs[i].value != attrs[j].value
  }

  /**
    The attribute value set: the values of the attributes, names dropped and duplicate
    values collapsed (`map(Attribute::getValue).collect(toSet())`).
   */
  function ValueSet(attrs: seq<Attribute>): (r: set<string>)
    ensures forall i :: 0 <= i < |attrs| ==> attrs[i].value in r
  {
    set a | a in attrs :: a.value
  }

  /** A value is in the value set exactly when some attribute carries it. */
  lemma ValueSetMembers(attrs: seq<Attribute>)
    ensures forall v :: v in ValueSet(attrs) <==> exists i :: 0 <= i < |attrs| && attrs[i].value == v
  {
    forall v | v in ValueSet(attrs) ensures exists i :: 0 <= i < |attrs| && attrs[i].value == v {
      var a :| a in attrs && a.value == v;
    }
  }

  /** The value set of a non-empty list is the first value added to the value set of the rest. */
  lemma ValueSetCons(attrs: seq<Attribute>)
    requires attrs != []
    ensures ValueSet(attrs) == {attrs[0].value} + ValueSet(attrs[1..])
  {
    forall a | a in attrs ensures a == attrs[0] || a in attrs[1..] {
      var i :| 0 <= i < |attrs| && attrs[i] == a;
      if i > 0 {
        assert attrs[1..][i - 1] == a;
      }
    }
  }

  /** Duplicate values collapse, so the value set has at most one member per attribute. */
  lemma {:induction false} ValueSetBound(attrs: seq<Attribute>)
    ensures |ValueSet(attrs)| <= |attrs|
  {
    if attrs != [] {
      ValueSetCons(attrs);
      ValueSetBound(attrs[1..]);
    }
  }

  /** Two attribute lists with the same values, position by position, have the same value set whatever their names. */
  lemma ValueSetIgnoresNames(a: seq<Attribute>, b: seq<Attribute>)
    requires |a| == |b|
    requires forall i :: 0 <= i < |a| ==> a[i].value == b[i].value
    ensures ValueSet(a) == ValueSet(b)
  {
    ValueSetMembers(a);
    ValueSetMembers(b);
    forall v | v in ValueSet(a) ensures v in ValueSet(b) {
      var i :| 0 <= i < |a| && a[i].value == v;
      assert b[i].value == v;
    }
    forall v | v in ValueSet(b) ensures v in ValueSet(a) {
      var i :| 0 <= i < |b| && b[i].value == v;
      assert a[i].value == v;
    }
  }

  /** Reordering the attributes (any permutation of the list) does not change the value set. */
  lemma ValueSetReorder(a: seq<Attribute>, b: seq<Attribute>)
    requires multiset(a) == multiset(b)
    ensures ValueSet(a) == ValueSet(b)
  {
    ValueSetMembers(a);
    ValueSetMembers(b);
    forall v | v in ValueSet(a) ensures v in ValueSet(b) {
      var i :| 0 <= i < |a| && a[i].value == v;
      assert a[i] in multiset(b);
      var j :| 0 <= j < |b| && b[j] == a[i];
    }
    forall v | v in ValueSet(b) ensures v in ValueSet(a) {
      var j :| 0 <= j < |b| && b[j].value == v;
      assert b[j] in multiset(a);
      var i :| 0 <= i < |a| && a[i] == b[j];
    }
  }

  /** A non-empty list has distinct values exactly when its tail does and the head's value is not among the tail's. */
  lemma DistinctValuesCons(attrs: seq<Attribute>)
    requires attrs != []
    ensures DistinctValues(attrs) <==> DistinctValues(attrs[1..]) && attrs[0].value !in ValueSet(attrs[1..])
  {
    var rest := attrs[1..];
    ValueSetMembers(rest);
    if DistinctValues(rest) && attrs[0].value !in ValueSet(rest) {
      forall i, j | 0 <= i < j < |attrs| ensures attrs[i].value != attrs[j].value {
        if i == 0 {
          assert rest[j - 1].value == attrs[j].value;
        } else {
          assert attrs[i] == rest[i - 1] && attrs[j] == rest[j - 1];
        }
      }
    }
    if DistinctValues(attrs) {
      forall i, j | 0 <= i < j < |rest| ensures rest[i].value != rest[j].value {
        assert rest[i] == attrs[i + 1] && rest[j] == attrs[j + 1];
      }
    }
    if attrs[0].value in ValueSet(rest) {
      var i :| 0 <= i < |rest| && rest[i].value == attrs[0].value;
      assert attrs[1 + i].value == attrs[0].value;
    }
  }

  /** The value set has one member per attribute exactly when no two attributes share a value. */
  lemma {:induction false} ValueSetSize(attrs: seq<Attribute>)
    ensures |ValueSet(attrs)| == |attrs| <==> DistinctValues(attrs)
  {
    if attrs != [] {
      var rest := attrs[1..];
      ValueSetSize(rest);
      ValueSetBound(rest);
      ValueSetCons(attrs);
      DistinctValuesCons(attrs);
      if attrs[0].value in ValueSet(rest) {
        assert ValueSet(attrs) == ValueSet(rest);
      } else {
        assert |ValueSet(attrs)| == 1 + |ValueSet(rest)|;
      }
    }
  }

  /**
    The reference set built in `main`: the value set of the reference element when the
    lookup produced one, and the empty set when it did not.
   */
  function ReferenceSet(button: Option<Element>): (r: set<string>)
    ensures button.None? ==> r == {}
    ensures button.Some? ==> forall v :: v in r <==> exists i :: 0 <= i < |button.value.attributes| && button.value.attributes[i].value == v
  {
    match button
    case None => {}
    case Some(e) => ValueSetMembers(e.attributes); ValueSet(e.attributes)
  }

  /** One entry of the attribute listing: the name, then " = ", then the value. */
  function Entry(a: Attribute): (r: string)
    ensures |r| == |a.key| + 3 + |a.value|
    ensures r[..|a.key|] == a.key
    ensures r[|a.key|..|a.key| + 3] == " = "
    ensures r[|a.key| + 3..] == a.value
  {
    a.key + " = " + a.value
  }

  /** The entries of a list of attributes, one per attribute and in attribute order. */
  function Entries(attrs: seq<Attribute>): (r: seq<string>)
    ensures |r| == |attrs|
    ensures forall i :: 0 <= i < |attrs| ==> r[i] == Entry(attrs[i])
  {
    if attrs == [] then [] else [Entry(attrs[0])] + Entries(attrs[1..])
  }

  /**
    The parts separated by `sep`: empty for no parts, the part itself for one; otherwise it
    starts with the first part and ends with the last.
   */
  function Join(parts: seq<string>, sep: string): (r: string)
    ensures parts == [] ==> r == ""
    ensures |parts| == 1 ==> r == parts[0]
    ensures parts != [] ==> parts[0] <= r
    ensures parts != [] ==> |parts[|parts| - 1]| <= |r| && r[|r| - |parts[|parts| - 1]|..] == parts[|parts| - 1]
  {
    if |parts| == 0 then ""
    else if |parts| == 1 then parts[0]
    else parts[0] + sep + Join(parts[1..], sep)
  }

  /**
    Joining one more part appends the separator and the part: the joined string is
    built left to right the way a string joiner accumulates it.
   */
  lemma {:induction false} JoinAppend(parts: seq<string>, sep: string, x: string)
    requires parts != []
    ensures Join(parts + [x], sep) == Join(parts, sep) + sep + x
  {
    if |parts| > 1 {
      assert (parts + [x])[1..] == parts[1..] + [x];
      JoinAppend(parts[1..], sep, x);
    } else {
      assert (parts + [x])[1..] == [x];
    }
  }

  /** The attribute listing logged for the reference element: "name = value" entries joined by ", ". */
  function Listing(attrs: seq<Attribute>): (r: string)
    ensures attrs == [] ==> r == ""
    ensures attrs != [] ==> Entry(attrs[0]) <= r
    ensures attrs != [] ==> var last := Entry(attrs[|attrs| - 1]);
      |last| <= |r| && r[|r| - |last|..] == last
  {
    Join(Entries(attrs), ", ")
  }

  /**
    The listing is empty for no attributes, a single entry for one, and grows by ", "
    and one entry per further attribute, in attribute order.
   */
  lemma ListingShape(attrs: seq<Attribute>, a: Attribute)
    ensures Listing([]) == ""
    ensures Listing([a]) == Entry(a)
    ensures attrs != [] ==> Listing(attrs + [a]) == Listing(attrs) + ", " + Entry(a)
  {
    assert Entries([a]) == [Entry(a)];
    if attrs != [] {
      assert Entries(attrs + [a]) == Entries(attrs) + [Entry(a)];
      JoinAppend(Entries(attrs), ", ", Entry(a));
    }
  }

  /** The listing of the reference element, present exactly when the element is, and then its attribute listing. */
  function ReferenceListing(button: Option<Element>): (r: Option<string>)
    ensures r.Some? <==> button.Some?
    ensures button.Some? ==> r == Some(Listing(button.value.attributes))
    ensures button.Some? && button.value.attributes == [] ==> r == Some("")
  {
    match button
    case None => None
    case Some(e) => Some(Listing(e.attributes))
  }
}
