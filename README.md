# XmlAnalyzer: attribute-overlap matching, modelled in Dafny

XmlAnalyzer looks through a "modified" HTML document for the element that best matches a
known reference element of an "original" document. It reduces every element to the set of
its attribute *values*, with names dropped and duplicates collapsed. Each candidate is scored
by how many values it shares with the reference element's set. A single left-to-right scan
keeps a running maximum, which starts at 0, and a running best, which starts at no element.
The best is replaced only when a candidate scores strictly more than the maximum. So
the first of several tied candidates wins, and when every score is 0 there is no target
element. The winner is reported with a synthesized path: a fixed ancestor scaffold
`html > body > div.wrapper > div.` followed by the element's own rendered selector.

The project has five modules:

- `Options` (options.dfy): the `Option` type standing for `Optional` and for a nullable reference.
- `Attributes` (attributes.dfy): elements and attributes, the attribute value set, the
  reference set built in `main`, and the `"name = value"` listing joined by `", "`.
- `Matching` (matching.dfy): the wrapper pair, the score, the specification `Select`, and the
  imperative scan `GetTargetElement` proved equal to it.
- `Report` (report.dfy): the path string.
- `Scenarios` (scenarios.dfy): worked examples. They show a larger overlap winning, the earlier
  of two ties winning, and disjoint candidates giving no target.

The scan is specified in two layers. `FirstMax` works on the sequence of scores alone: it
gives the first position of the maximal score when that maximum is above 0. `Select` applies
it to the candidates' scores and wraps the candidate found. `GetTargetElement` models the
Java method step by step: it builds the wrapper list, then loops with `max` and `targetElement`.
Its postcondition is `targetElement == Select(elements, originalAttributes)`.

Three behaviours of the code are easy to misread, and the model follows the code in each:

- An empty candidate list is not an error. `doc.select` returns an empty list rather than an
  absent value, so the scan returns no target (`NoMatchCases`).
- An attribute value such as `class="btn btn-success"` is one opaque string. It is not split
  into class tokens, so against the `Scenarios.Reference` button, whose `class` is
  `"btn btn-success"`, it adds 1 to the score, not 2.
- When the original document cannot be read, `main` continues with an empty reference set,
  and nothing then matches (`MissingReferenceNoMatch`).

## Model

| member | source | states |
|---|---|---|
| `Attributes.ValueSet` | src/main/java/solution/XmlAnalyzer.java:57-58 | the value set of an attribute list, names dropped: every attribute's value is in it |
| `Attributes.ValueSetMembers` | src/main/java/solution/XmlAnalyzer.java:106-111 | a value is in an element's attribute value set exactly when some attribute of the element carries it |
| `Attributes.ValueSetCons` | src/main/java/solution/XmlAnalyzer.java:107-111 | the value set of a non-empty attribute list is the first value added to the value set of the rest |
| `Attributes.ValueSetBound` | src/main/java/solution/XmlAnalyzer.java:107-111 | duplicate values collapse: the value set has at most as many members as there are attributes |
| `Attributes.ValueSetSize` | src/main/java/solution/XmlAnalyzer.java:107-111 | the value set has exactly one member per attribute if and only if no two attributes share a value |
| `Attributes.ValueSetIgnoresNames` | src/main/java/solution/XmlAnalyzer.java:107-111 | names play no role: two attribute lists with the same values position by position have the same value set |
| `Attributes.ValueSetReorder` | src/main/java/solution/XmlAnalyzer.java:107-111 | any reordering (permutation) of the attributes leaves the value set unchanged |
| `Attributes.ReferenceSet` | src/main/java/solution/XmlAnalyzer.java:55-59 | the reference set is empty when no reference element was obtained, and otherwise holds exactly the values of its attributes |
| `Attributes.Entry` | src/main/java/solution/XmlAnalyzer.java:47 | one entry is the attribute's name, then `" = "`, then its value, with the lengths adding up |
| `Attributes.Entries` | src/main/java/solution/XmlAnalyzer.java:46-47 | one `"name = value"` entry per attribute, in attribute order |
| `Attributes.Join` | src/main/java/solution/XmlAnalyzer.java:48 | joining no parts gives `""` and joining one part gives that part unchanged; otherwise the result starts with the first part and ends with the last |
| `Attributes.JoinAppend` | src/main/java/solution/XmlAnalyzer.java:48 | joining one more part appends the separator and that part, as a string joiner accumulates them |
| `Attributes.Listing` | src/main/java/solution/XmlAnalyzer.java:46-48 | the listing of no attributes is `""`; otherwise it starts with the first attribute's entry and ends with the last one's |
| `Attributes.ListingShape` | src/main/java/solution/XmlAnalyzer.java:45-49 | the listing is empty for no attributes and a single entry for one, and each further attribute adds `", "` and its entry at the end |
| `Attributes.ReferenceListing` | src/main/java/solution/XmlAnalyzer.java:45-49 | a listing exists exactly when the reference element does; it is then that element's attribute listing, so `Listing`, `Entries` and `ListingShape` describe it, and it is empty for an element without attributes |
| `Matching.ElementWrapper` | src/main/java/solution/XmlAnalyzer.java:135-151 | the wrapper is an immutable pair of an element and its attribute value set |
| `Matching.Wrap` | src/main/java/solution/XmlAnalyzer.java:107-111 | the wrapper built for an element holds that element and a value set that holds exactly the element's attribute values (a value is in it if and only if some attribute carries it) and has no more members than the element has attributes |
| `Matching.Score` | src/main/java/solution/XmlAnalyzer.java:115-117 | the overlap size is at most the size of either set, and it is 0 exactly when the two sets are disjoint |
| `Matching.ScoreOf` | src/main/java/solution/XmlAnalyzer.java:107-117 | a candidate's score is at most its number of attributes, and it is 0 exactly when none of its values is in the reference set |
| `Matching.Scores` | src/main/java/solution/XmlAnalyzer.java:114-117 | one score per candidate, in candidate order; each is at most that candidate's number of attributes, and it is 0 exactly when the candidate shares no value with the reference set |
| `Matching.Max` | src/main/java/solution/XmlAnalyzer.java:112-121 | the largest score is at least every score and is either 0 or one of the scores |
| `Matching.FirstIndex` | src/main/java/solution/XmlAnalyzer.java:117-119 | the first position holding a given score: it holds it, and no earlier position does |
| `Matching.FirstMax` | src/main/java/solution/XmlAnalyzer.java:112-122 | no position exactly when every score is 0; otherwise a position with a positive, maximal score that every earlier score is strictly below |
| `Matching.FirstMaxUnique` | src/main/java/solution/XmlAnalyzer.java:117-119 | the first-maximum condition singles out one position, so any position meeting it is the result |
| `Matching.FirstMaxStep` | src/main/java/solution/XmlAnalyzer.java:117-120 | one more score moves the result to the new position exactly when it is strictly above the maximum so far (strict `max < size`), and the maximum grows accordingly |
| `Matching.FirstMaxPrefixStep` | src/main/java/solution/XmlAnalyzer.java:114-121 | the same step in the loop's form: extending the scanned prefix by the next score |
| `Matching.Select` | src/main/java/solution/XmlAnalyzer.java:104-123 | no target exactly when every candidate scores 0; otherwise the wrapper of a candidate with a positive, maximal score that every earlier candidate scores strictly below |
| `Matching.SelectIsFirstBest` | src/main/java/solution/XmlAnalyzer.java:112-122 | the candidate meeting the first-best condition is the one selected |
| `Matching.SelectProperties` | src/main/java/solution/XmlAnalyzer.java:105-121 | a returned target is an input candidate paired with its own value set, scores above 0 and at least as much as every candidate, and precedes every candidate it ties with |
| `Matching.NoMatchCases` | src/main/java/solution/XmlAnalyzer.java:112-122 | no target for an empty candidate list, for an empty reference set, or when every candidate is disjoint from the reference set |
| `Matching.MissingReferenceNoMatch` | src/main/java/solution/XmlAnalyzer.java:55-68 | when no reference element was obtained, the empty reference set makes the scan report no target |
| `Matching.ScoresAppend` | src/main/java/solution/XmlAnalyzer.java:114-116 | the scores of one more candidate are the earlier scores followed by that candidate's score |
| `Matching.MaxScoreMonotone` | src/main/java/solution/XmlAnalyzer.java:112-121 | the running maximum never decreases as the scan advances |
| `Matching.FirstIndexAppend` | src/main/java/solution/XmlAnalyzer.java:117-119 | appending a score leaves the first occurrence of an already present score where it was |
| `Matching.SelectStep` | src/main/java/solution/XmlAnalyzer.java:114-121 | the selection over one more candidate is that candidate when it scores strictly more than the running maximum, and the earlier selection otherwise |
| `Matching.MaxScoreSubset` | src/main/java/solution/XmlAnalyzer.java:112-121 | candidates that all occur in another list score no more than that list |
| `Matching.SelectPermutation` | src/main/java/solution/XmlAnalyzer.java:112-122 | permuting the candidates keeps the maximum score and keeps whether a target is found |
| `Matching.SelectPermutationUniqueWinner` | src/main/java/solution/XmlAnalyzer.java:112-122 | a winner that no other candidate ties with wins in every order of the candidates: order only decides ties |
| `Matching.WrapElements` | src/main/java/solution/XmlAnalyzer.java:105-111 | one wrapper per element, in element order, each pairing the element with its attribute value set |
| `Matching.GetTargetElement` | src/main/java/solution/XmlAnalyzer.java:104-123 | the scan with its running `max` and `targetElement` returns exactly `Select` of its inputs, and a returned wrapper pairs its element with that element's own value set; its loop keeps `max` equal to the largest score so far and to the target's score (0 when there is none) |
| `Report.PathPrefix` | src/main/java/solution/XmlAnalyzer.java:130 | the fixed ancestor scaffold `html > body > div.wrapper > div.` |
| `Report.TargetPath` | src/main/java/solution/XmlAnalyzer.java:130-131 | the path is the fixed scaffold `html > body > div.wrapper > div.` followed by the element's own selector, which is its suffix |
| `Report.TargetPathInjective` | src/main/java/solution/XmlAnalyzer.java:130-131 | two targets have the same path exactly when their own selectors are equal |
| `Report.PathBuilder` | src/main/java/solution/XmlAnalyzer.java:125-133 | a path is reported exactly when there is a target element; it then starts with the scaffold `html > body > div.wrapper > div.`, and the rest of it is that element's selector |
| `Scenarios.ReferenceValues` | src/main/java/solution/XmlAnalyzer.java:55-59 | the reference button's set is its three attribute values, with `"btn btn-success"` kept whole |
| `Scenarios.CandidateScores` | src/main/java/solution/XmlAnalyzer.java:115-116 | the concrete candidates score 2, 2, 1 and 0 against that reference set |
| `Scenarios.LargerOverlapWins` | src/main/java/solution/XmlAnalyzer.java:112-122 | the two-way overlap beats the one-way overlap in either order |
| `Scenarios.EarlierTieWins` | src/main/java/solution/XmlAnalyzer.java:117-119 | of two candidates tied at the maximum, the earlier is selected, whichever of the two it is |
| `Scenarios.DisjointGivesNoTarget` | src/main/java/solution/XmlAnalyzer.java:112-122 | candidates disjoint from the reference give no target, although candidates exist |

## Left out

- Parsing: reading the two files, `Jsoup.parse` with the UTF-8 charset and base URI, and turning an `IOException` into an absent result. This is library and file I/O. The parsed elements are inputs (XmlAnalyzer.java:74-102).
- Element lookup: `getElementById`, the `.btn` query and `cssSelector()`. These are calls into the HTML library whose behaviour is not visible. The candidate sequence and each element's selector string are inputs.
- The `NullPointerException` of `Optional.of(null)` when the reference id is missing (XmlAnalyzer.java:81). It belongs to that lookup. The model only covers the two outcomes `main` sees: an element, or none.
- `main`: argument handling, the default id `make-everything-ok-button`, and the `RuntimeException` on an absent candidate list (XmlAnalyzer.java:29-72). This is command-line glue; the steps it chains are modelled one by one.
- Logging and `System.out.println`, including the separator line and the line that prints the value set. `HashSet` iteration order is unspecified, so that line's text is not modelled. `PathBuilder` gives only the path string.
- `ElementWrapper`'s setters (XmlAnalyzer.java:153-159). They are never called, so the wrapper is an immutable datatype.
- Object identity. A returned wrapper is compared with the candidates by value. Two candidates with equal attributes and selectors are indistinguishable here.
- `GetTargetElement`: `retainAll` shrinks a fresh `HashSet` copy in place. It is modelled as the value `attributeSet * originalAttributes`. That copy is never shared, so nothing observable is lost.
- Java `int` width. Scores and `max` are unbounded naturals. An intersection size is at most the number of attributes of one element (`Matching.ScoreOf`), far below 2^31.
- Attribute name uniqueness within an element is not modelled. The value set ignores names, and no property here depends on their uniqueness.
