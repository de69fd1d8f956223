# Dempster-Shafer evidence combination

This project models the core of the Dempster-Shafer library: the engine that
combines mass distributions over a frame of discernment. It also covers the
set algebra on hypothesis sets beneath the engine.

- **Hypotheses and elements.** A hypothesis is identified by its name. An
  element of the power set is the list of its hypotheses (`Elements.Element`).
  A focal element pairs an element with its basic probability assignment, the
  bpa (`Elements.Focal`). `Element.java` supplies intersection, union,
  `equals`, `compareTo` and the `TreeSet`-based union of supports. The model
  keeps all of them, including the TreeSet's sorted insertion
  (`TreeSets`) and Java's `String.compareTo` (`JavaStrings`).
- **Mass distributions.** `Masses.MassDistribution` is a class whose
  `elements` field its methods update. Validity means the bpas sum to
  exactly one (`Masses.Valid`).
- **Building a distribution from evidence.** `SourceOfEvidence.computeMass`
  merges focal elements that are equal and hands any missing mass to the
  universal element (`Evidence`).
- **Combination.** `JointManager` offers the four operators: average,
  Dempster's rule, Yager's rule and the Chen-Shi distance/credibility rule.
  Their nested loops are modelled as methods (`JointManager`). Each method is
  proved to compute a function over values (`Pairs`, `Rules`). The properties
  of those functions are proved in `Theorems`.
- **Symmetries.** `Symmetry` proves that Dempster's rule does not depend on
  the order of its two operands, and that N identical distributions get
  credibility 1/N each from the distance rule.

Bpas are exact reals. Exceptions become the `Results.Error` values of a
`Result`:

- `JointNotPossible`: fewer than two distributions.
- `NotValid`: the result does not sum to one.
- `NonFiniteBpa`: a division by zero in double arithmetic. `setBpa` then hands
  NaN or an infinity to `BigDecimal`, which throws.
- `DivisionByZero`: the integer division in `getScalarProduct`.

Two things the code reaches through static calls are parameters, gathered in
`Rules.Context`. One is the universal element of the frame of discernment. The
other is the similarity curve that `getSimilarity` computes with a square root
and a cosine.

Where the code and the design description disagree, the model follows the code:

- **Validity.** `isValid` as BackUp/MassDistribution.java:37-48 writes it
  compares the sum with 1 exactly, not within a tolerance. The model does the
  same.
- **Distance operator.** The code combines the weighted average with itself
  once, then runs N−2 steps. Each step combines that self-combination with the
  running result (src/joint/JointManager.java:148-154). With two inputs the
  self-combination is therefore computed, but only its failure matters: the
  weighted average is returned unchanged (`Theorems.DistanceTwoInputs`).
- **Yager's rule.** The universal element carrying the conflict is appended
  only on the step where `j == masses.size() - 1`. With exactly two inputs
  that step never runs, so nothing is appended (`Theorems.YagerTwoInputs`).
  A two-input Yager combination with any conflict is therefore refused as not
  valid (`Theorems.YagerExample`).
- **Repeated hypotheses.** The design treats an element as a set of
  hypotheses, but nothing in the code stops a list from naming one twice. On
  such lists `equals` is not symmetric, so `computeMass` can create mass and
  append the universal element with a negative bpa
  (`Evidence.DuplicatesCreateMass`). `getScalarProduct` can also count a pair
  twice over (`Theorems.ScalarTermCountsRepeats`). The model keeps the code's
  behaviour on such lists. The properties that need sets are stated for
  elements without repeated hypotheses.

## Model

| member | source | states |
|---|---|---|
| JavaStrings.CompareTo | trunk/src/core/Element.java:191-194 | Java's `String.compareTo` on the printed lists: zero exactly when the two strings are equal |
| JavaStrings.CompareToAntisymmetric | trunk/src/core/Element.java:191-194 | swapping the operands of `String.compareTo` negates the result |
| JavaStrings.CompareToTransitive | trunk/src/core/Element.java:191-194 | `String.compareTo` is a transitive strict order, as a TreeSet comparator needs |
| TreeSets.AddAllSorted | trunk/src/core/Element.java:155-157 | adding a list to a TreeSet keeps it strictly sorted by the comparator |
| TreeSets.AddAllKeys | trunk/src/core/Element.java:155-157 | after `addAll`, the TreeSet's keys are those of the set and of the added list together |
| TreeSets.AddAllMembers | trunk/src/core/Element.java:155-157 | `addAll` keeps every entry already present; a new entry enters only when no present entry compares equal to it |
| TreeSets.AddPresent | trunk/src/core/Element.java:155-157 | adding an entry that compares equal to a present one leaves the TreeSet unchanged |
| Elements.IsSingleton | trunk/src/core/Element.java:81-87 | true exactly when the element has one hypothesis |
| Elements.Equals | trunk/src/core/Element.java:162-171 | the definition of `equals`: the other element has as many hypotheses and contains each of this one's |
| Elements.EqualsIsSetEquality | trunk/src/core/Element.java:162-171 | on lists without repeats, `equals` (same size, containsAll) holds exactly when the two hold the same hypotheses, in any order |
| Elements.EqualsSymmetric | trunk/src/core/Element.java:162-171 | on lists without repeats, `equals` is symmetric |
| Elements.EqualsTransitive | trunk/src/core/Element.java:162-171 | `equals` is transitive |
| Elements.CompareTo | trunk/src/core/Element.java:188-195 | `compareTo` is reversed: it is the negation of comparing this list's printed form with the other's; it is zero exactly when the printed forms agree |
| Elements.CompareToSeesOrder | trunk/src/core/Element.java:188-195 | {A,B} and {B,A} are `equals` but `compareTo` does not rate them equal, so the order depends on the order of the hypotheses |
| Elements.Common | trunk/src/core/Element.java:98-120 | the definition of the hypotheses the nested loops of `getIntersection` collect: each hypothesis of element1, in order, once per equal hypothesis of element2 |
| Elements.Intersection | trunk/src/core/Element.java:98-120 | the definition of `getIntersection`: the collected hypotheses, or null when there are none |
| Elements.IntersectionMembers | trunk/src/core/Element.java:98-120 | the intersection is null exactly when no hypothesis is common; otherwise it holds exactly the hypotheses of both |
| Elements.IntersectionKeepsOrder | trunk/src/core/Element.java:98-120 | when the second element has no repeats, the intersection lists the common hypotheses in the first element's order |
| Elements.GetIntersection | trunk/src/core/Element.java:98-120 | the nested loops build the intersection: each hypothesis of element1 once for each equal hypothesis of element2, null when none |
| Elements.Union | trunk/src/core/Element.java:132-143 | the definition of `getUnion`: a TreeSet filled with the hypotheses of element1 and then of element2, or null when it is empty |
| Elements.UnionProperties | trunk/src/core/Element.java:132-143 | the union is null exactly when both elements are empty; otherwise it holds every hypothesis of either, without repeats, sorted by name |
| Elements.MassUnion | trunk/src/core/Element.java:152-160 | the definition of `getMassUnionElement(list1, list2)`: a TreeSet of list1 to which a TreeSet of list2 is added |
| Elements.UnionOfSupports | trunk/src/core/Element.java:207-221 | the definition of `getMassUnionElement(masses)`: the pairwise union folded from the left over the distributions |
| Elements.MassUnionProperties | trunk/src/core/Element.java:152-160 | the union of two lists is strictly ascending in `compareTo`, so no two entries compare equal; it represents every element of either list; an entry of list2 enters only when list1 has none printing the same |
| Elements.UnionOfSupportsProperties | trunk/src/core/Element.java:207-221 | the union over all distributions is ascending and represents exactly the printed elements of all of them |
| Elements.UnionOfSupportsMembers | trunk/src/core/Element.java:207-221 | each entry of the union over all distributions comes from one of the distributions |
| Elements.GetMassUnionElement | trunk/src/core/Element.java:207-221 | null for fewer than two distributions; otherwise the loop is the left fold of the pairwise union |
| Elements.FindElement | src/joint/JointManager.java:511-516 | the definition of the lookup: the first focal element whose element `equals` the one sought, or none |
| Elements.FindElementFirst | src/joint/JointManager.java:511-516 | the lookup finds nothing exactly when no focal element's element `equals` the one sought; otherwise it returns the first that does |
| Masses.Total | BackUp/MassDistribution.java:37-48 | the definition of the sum `isValid` accumulates: the bpas added in list order |
| Masses.Valid | BackUp/MassDistribution.java:37-48 | the definition of `isValid`: the sum is exactly one |
| Masses.TotalAppend | BackUp/MassDistribution.java:37-48 | the bpa sum of two lists put together is the sum of their sums |
| Masses.MassDistribution.constructor | BackUp/MassDistribution.java:12-15 | the distribution holds the list it was given |
| Masses.MassDistribution.GetElements | BackUp/MassDistribution.java:17-19 | returns the list last given to the constructor or to `setElements` |
| Masses.MassDistribution.SetElements | BackUp/MassDistribution.java:21-23 | replaces the list |
| Masses.MassDistribution.AddElement | BackUp/MassDistribution.java:25-29 | appends at the end and starts a list when there is none; the old entries stay and the length grows by one |
| Masses.MassDistribution.TotalBpa | src/core/SourceOfEvidence.java:103 | the bpa sum `computeMass` reads through `getTotalBpa` when the body is not valid; the distribution is valid exactly when it is one, and an empty list sums to zero |
| Masses.MassDistribution.IsValid | BackUp/MassDistribution.java:37-48 | true exactly when the bpas sum to exactly one; an empty list is never valid |
| Evidence.Merged | src/core/SourceOfEvidence.java:81-96 | the definition of the body of evidence: one entry per first occurrence of an element, with the bpas of the later equal entries added |
| Evidence.ComputedMass | src/core/SourceOfEvidence.java:76-109 | the definition of `computeMass`: the body, followed by the universal element carrying 1 − total when the body is not valid |
| Evidence.ComputeMass | src/core/SourceOfEvidence.java:76-109 | the nested loops and the lookup build the merged body of evidence, and the universal element is appended when the body is not valid |
| Evidence.FindInMerged | src/core/SourceOfEvidence.java:92-95 | the lookup in the body built so far finds nothing exactly when no earlier entry has an equal element |
| Evidence.MergedEntries | src/core/SourceOfEvidence.java:81-96 | the body has one entry per first occurrence of an element, in input order, carrying that element and the bpa gathered for it |
| Evidence.MergedElements | src/core/SourceOfEvidence.java:81-96 | the elements in the body are exactly those of the first occurrences |
| Evidence.MergedPairwiseDistinct | src/core/SourceOfEvidence.java:92-95 | no two entries of the body have elements that are `equals` |
| Evidence.MergedBpaIsClassSum | src/core/SourceOfEvidence.java:84-91 | on elements without repeated hypotheses, each entry's bpa is the sum of the bpas of all input entries with an equal element |
| Evidence.MassConserved | src/core/SourceOfEvidence.java:81-96 | on elements without repeated hypotheses, merging loses and creates no mass: the body's bpas sum to the input's |
| Evidence.ComputedMassIsValid | src/core/SourceOfEvidence.java:98-105 | the result is always valid; it is the body followed by at most one entry; nothing is appended exactly when the body is valid |
| Evidence.UniversalTakesRemainder | src/core/SourceOfEvidence.java:100-105 | on elements without repeated hypotheses, when the input's bpas do not sum to one, exactly one universal entry with bpa 1 − total is appended at the end |
| Evidence.UniversalAppendedEvenIfPresent | src/core/SourceOfEvidence.java:92-105 | the universal entry is appended even when the universal element is already in the body |
| Evidence.DuplicatesCreateMass | src/core/SourceOfEvidence.java:81-105 | with repeated hypotheses merging can create mass: {A,A}:0.2, {B,B}:0.3, {A,B}:0.5 sums to one, but {A,B} is added to both others, the body sums to 1.5 and the universal element gets bpa −0.5 |
| Pairs.Conflict | src/joint/JointManager.java:468-484 | the definition of `getConflict`: the sum of bpa1·bpa2 over the pairs, in loop order, whose intersection is null |
| Pairs.ScalarProduct | src/joint/JointManager.java:241-277 | the definition of `getScalarProduct`: the sum over all pairs of each pair's scalar term, failing at the first pair that fails |
| Pairs.VisitedRow | src/joint/JointManager.java:471-482 | one pass of the outer loop visits the pairs of the next row, in inner-loop order |
| Pairs.ConflictOfAppend | src/joint/JointManager.java:468-484 | the conflict summed over two runs of pairs is the sum of the two |
| Pairs.ProductsMembers | src/joint/JointManager.java:471-482 | the nested loops visit every pair of a focal element of m1 with one of m2, and only those |
| Pairs.ScalarTermSizes | src/joint/JointManager.java:260-271 | a pair's scalar term is its mass times the integer quotient of the two sizes, and a division-by-zero failure when the union size is zero |
| Pairs.ScalarOfFailure | src/joint/JointManager.java:249-273 | the scalar product fails exactly when some pair fails, and only with a division by zero |
| Pairs.ScalarFailsOnPair | src/joint/JointManager.java:263-271 | one pair of empty elements fails the whole scalar product |
| Rules.DempsterRule | src/joint/JointManager.java:425-466 | the definition of `dempster`: the matched masses on the union of the supports divided by 1 − K; an empty union is not valid, K = 1 gives non-finite bpas, a result not summing to one is refused |
| Rules.YagerFold | src/joint/JointManager.java:128-144 | the definition of the Yager loop: the running joint and the accumulated conflict after each input |
| Rules.AverageRule | src/joint/JointManager.java:486-533 | the definition of `average`: each element of the union of all supports with the sum of its bpas divided by N, refused when not valid |
| Rules.SimilarityMatrix | src/joint/JointManager.java:352-371 | the definition of `getSimilarityMatrix`: ones on the diagonal and each similarity, lower index first, on both sides; a failing similarity fails the matrix |
| Rules.SupportDegree | src/joint/JointManager.java:311-324 | the definition of `getSupportDegree`: each row's sum without its diagonal entry |
| Rules.Credibility | src/joint/JointManager.java:326-344 | the definition of `getCredibility`: each support divided by their sum, not finite when the sum is zero |
| Rules.DistanceRule | src/joint/JointManager.java:187-230 | the definition of `distance`: the credibility-weighted average on the union of all supports |
| Rules.Combine | src/joint/JointManager.java:104-168 | the definition of `applyOperator`: the operator's branch, then the validity check, the joint tagged with its operator |
| Rules.YagerFoldStep | src/joint/JointManager.java:132-142 | each Yager step adds the conflict between the running joint and the next input, and marks the step last exactly at the final input |
| Rules.SimilarityFailsByDivision | src/joint/JointManager.java:286-309 | a similarity fails only through the integer division of one of its scalar products |
| Rules.SimilarityMatrixFailsAt | src/joint/JointManager.java:358-367 | a similarity that fails between two distributions fails the whole matrix |
| Rules.SimilarityMatrixFromUpper | src/joint/JointManager.java:358-367 | a table with ones on the diagonal, and each similarity above it written on both sides, is the similarity matrix |
| Rules.FoldFails | src/joint/JointManager.java:122-126 | once a Dempster step fails, the fold fails in the same way |
| Rules.RepeatFails | src/joint/JointManager.java:151-154 | once a repeated Dempster step fails, the rest of the loop fails in the same way |
| JointManager.GetConflict | src/joint/JointManager.java:468-484 | returns K, the sum of bpa1·bpa2 over the pairs whose intersection is null, in loop order |
| JointManager.AddIfDisjoint | src/joint/JointManager.java:477-479 | adds the pair's mass exactly when the intersection is null |
| JointManager.AddIfMeets | src/joint/JointManager.java:448-451 | adds the pair's mass exactly when the intersection `equals` the joint element |
| JointManager.MatchedMass | src/joint/JointManager.java:439-454 | the mass of the pairs whose intersection `equals` the joint element |
| JointManager.NormalizedElements | src/joint/JointManager.java:436-457 | each union element gets its matched mass divided by 1 − K; K = 1 with a non-empty union is a non-finite bpa |
| JointManager.Dempster | src/joint/JointManager.java:425-466 | computes Dempster's rule, including the refusal of a result that is not valid |
| JointManager.Yager | src/joint/JointManager.java:373-423 | computes a Yager step: matched masses on the union with no division, plus the universal entry carrying the conflict on the last step only |
| JointManager.SameElementsBpa | src/joint/JointManager.java:508-520 | the sum of the bpas of the focal elements, one per distribution that has one, equal to the joint element |
| JointManager.Average | src/joint/JointManager.java:486-533 | computes the average rule, including the refusal of a result that is not valid |
| JointManager.ScalarTermOf | src/joint/JointManager.java:254-271 | computes one pair's scalar term, failing on a zero union size |
| JointManager.ScalarStep | src/joint/JointManager.java:252-272 | one inner iteration extends the sum over the visited pairs, or stops at a pair that fails |
| JointManager.ScalarRow | src/joint/JointManager.java:249-273 | one outer iteration adds the terms of a row, or reports the pair that fails |
| JointManager.GetScalarProduct | src/joint/JointManager.java:241-277 | computes the scalar product of two distributions, failing when some pair has two empty elements |
| JointManager.GetSimilarity | src/joint/JointManager.java:286-309 | computes the similarity from the two squared norms and the scalar product |
| JointManager.FillRow | src/joint/JointManager.java:359-366 | fills row i from the diagonal rightwards and mirrors each entry below the diagonal; earlier rows and columns are unchanged; a failing similarity fails the matrix |
| JointManager.GetSimilarityMatrix | src/joint/JointManager.java:352-371 | the array holds the similarity matrix, and fails exactly when the matrix fails |
| JointManager.GetSupportDegree | src/joint/JointManager.java:311-324 | the array holds each row's sum without its diagonal entry |
| JointManager.GetCredibility | src/joint/JointManager.java:326-344 | the array holds each support divided by their sum; a zero sum gives no finite credibilities |
| JointManager.WeightedSum | src/joint/JointManager.java:206-218 | the credibility-weighted sum of the bpas the distributions give the joint element; a missing element counts as 0 |
| JointManager.WeightedElements | src/joint/JointManager.java:202-221 | each union element with its credibility-weighted bpa |
| JointManager.Distance | src/joint/JointManager.java:187-230 | computes the credibility-weighted average, failing on a failed matrix, non-finite credibilities or a result that is not valid |
| JointManager.DempsterBranch | src/joint/JointManager.java:121-127 | the left fold of Dempster's rule over the list, in list order |
| JointManager.YagerBranch | src/joint/JointManager.java:128-144 | the Yager fold with its accumulated conflict |
| JointManager.RepeatDempster | src/joint/JointManager.java:145-157 | the average combined with itself once, then N − 2 steps combining that with the running result |
| JointManager.OperatorBranch | src/joint/JointManager.java:116-161 | the switch runs the rule the operator names |
| JointManager.ApplyOperator | src/joint/JointManager.java:104-168 | the operator's rule followed by the validity check of the joint |
| JointManager.DempsterJoint | src/joint/JointManager.java:30-38 | refuses fewer than two distributions; otherwise applies Dempster's operator |
| JointManager.YagerJoint | src/joint/JointManager.java:49-57 | refuses fewer than two distributions; otherwise applies Yager's operator |
| JointManager.AverageJoint | src/joint/JointManager.java:68-78 | refuses fewer than two distributions; otherwise applies the average operator |
| JointManager.DistanceEvidenceJoint | src/joint/JointManager.java:90-102 | refuses fewer than two distributions; otherwise applies the distance operator |
| Theorems.FoldNotRefused | src/joint/JointManager.java:122-126 | the Dempster fold never fails with the refusal reserved for too few inputs |
| Theorems.RefusedIffFewerThanTwo | src/joint/JointManager.java:33-37 | every operator is refused exactly when given fewer than two distributions, and a success is valid and tagged with its operator |
| Theorems.NormalizeTotal | src/joint/JointManager.java:455-456 | dividing every bpa by one factor divides their sum by it |
| Theorems.DempsterValidIff | src/joint/JointManager.java:425-466 | an empty union is not valid; K = 1 gives a non-finite bpa; otherwise Dempster succeeds exactly when the matched masses on the union sum to 1 − K |
| Theorems.DempsterLosesOtherIntersections | src/joint/JointManager.java:436-457 | mass whose intersection is none of the union's elements is lost: when no pair meets a union element, Dempster fails |
| Theorems.ExampleIntersection | trunk/src/core/Element.java:98-120 | the intersection of {A,B} and {B,C} is {B} |
| Theorems.SinglePair | src/joint/JointManager.java:468-484 | with one focal element on each side, the conflict is that pair's term |
| Theorems.DempsterExample | src/joint/JointManager.java:425-466 | {A,B}:1 with {B,C}:1 is refused as not valid: the mass of {B} lies outside the union of the supports |
| Theorems.YagerIsUnnormalisedDempster | src/joint/JointManager.java:373-406 | where Dempster succeeds, each Yager bpa is the Dempster bpa times 1 − K: Yager never divides by 1 − K |
| Theorems.YagerInnerStep | src/joint/JointManager.java:132-141 | before the last input, a Yager step appends no universal entry |
| Theorems.YagerLastStep | src/joint/JointManager.java:136-138 | with three or more inputs, the last step appends exactly one universal entry, carrying the total accumulated conflict |
| Theorems.YagerConflict | src/joint/JointManager.java:129-135 | the conflict accumulates between the running joint and each next input |
| Theorems.YagerConflictTotal | src/joint/JointManager.java:129-135 | the conflict carried after n inputs is the sum, over the steps, of the conflict between the running joint and the input that step takes in |
| Theorems.YagerTwoInputs | src/joint/JointManager.java:128-144 | with exactly two inputs no conflict entry is appended: Yager is the matched masses on the union, checked for validity |
| Theorems.YagerTwoInputsNoMeet | src/joint/JointManager.java:128-144 | with two inputs whose pairs never meet a union element, Yager is refused as not valid |
| Theorems.YagerExample | src/joint/JointManager.java:128-144 | Yager of {A}:1 and {B}:1 is refused as not valid, because the conflict is never appended |
| Theorems.FoundTotal | src/joint/JointManager.java:508-520 | the matched bpas sum, over the distributions, to the bpa each gives the element, a missing one counting as 0 |
| Theorems.AverageMeans | src/joint/JointManager.java:503-524 | each union element gets the sum of its bpas over all inputs divided by N |
| Theorems.AverageElements | src/joint/JointManager.java:493-501 | the average ranges over exactly the printed elements of all inputs, in ascending order |
| Theorems.BpaSumPermutation | src/joint/JointManager.java:510-520 | permuting the inputs does not change any element's bpa sum |
| Theorems.AllSupportsPermutation | src/joint/JointManager.java:493-501 | permuting the inputs does not change the set of printed elements the average ranges over |
| Theorems.ScalarTermFails | src/joint/JointManager.java:260-271 | a pair's scalar term fails, with a division by zero, exactly when both elements are empty |
| Theorems.ScalarSizes | src/joint/JointManager.java:255-266 | on elements without repeats, the sizes are those of the intersection and the union of their hypothesis sets |
| Theorems.ScalarTermAllOrNothing | src/joint/JointManager.java:268-271 | on elements without repeated hypotheses, not both empty, because of the integer division a pair contributes bpa1·bpa2 when its elements are `equals`, and 0 otherwise |
| Theorems.ScalarTermCountsRepeats | src/joint/JointManager.java:260-271 | with a repeated hypothesis the intersection outgrows the union: {h,h} and {h} are not `equals`, yet the pair adds twice its mass |
| Theorems.SimilarityMatrixShape | src/joint/JointManager.java:352-371 | the matrix is square and symmetric with ones on the diagonal, holds the similarities above it, and fails exactly when some similarity fails |
| Theorems.SupportIsOffDiagonalSum | src/joint/JointManager.java:311-324 | each support degree is the row sum minus the diagonal entry |
| Theorems.CredibilitySumsToOne | src/joint/JointManager.java:326-344 | credibilities are finite exactly when the total support is non-zero, and then they sum to one |
| Theorems.DistanceIsWeightedAverage | src/joint/JointManager.java:187-230 | a successful distance step is the credibility-weighted average of the inputs on the union of their supports, with credibilities summing to one |
| Theorems.DistanceTwoInputs | src/joint/JointManager.java:145-157 | with two inputs the self-combination is discarded: the operator returns the weighted average unless a step fails |
| Symmetry.ProductsTranspose | src/joint/JointManager.java:471-482 | a sum over the pairs the nested loops visit for (m1, m2) equals the sum over the pairs visited for (m2, m1), each read with its two sides exchanged |
| Symmetry.ConflictCommutes | src/joint/JointManager.java:468-484 | the conflict K does not depend on the order of the two distributions |
| Symmetry.CommonCount | trunk/src/core/Element.java:98-120 | the nested loops of `getIntersection` collect each hypothesis as many times as the product of its numbers of occurrences in the two elements |
| Symmetry.CommonSameSize | trunk/src/core/Element.java:98-120 | `getIntersection(a, b)` and `getIntersection(b, a)` have the same size, with or without repeated hypotheses |
| Symmetry.MassOnCommutes | src/joint/JointManager.java:439-454 | the matched mass on any element does not depend on the order of the two distributions |
| Symmetry.AscendingUnique | trunk/src/core/Element.java:152-160 | two strictly ascending lists with the same set of printed elements have the same length and print the same at every index |
| Symmetry.MassUnionCommutes | trunk/src/core/Element.java:152-160 | when elements that print the same are the same, `getMassUnionElement(list1, list2)` and `getMassUnionElement(list2, list1)` list the same elements in the same order |
| Symmetry.DempsterCommutes | src/joint/JointManager.java:425-466 | when elements that print the same are the same, Dempster's rule gives the same result, or the same failure, whichever distribution comes first |
| Symmetry.IdenticalInputsEqualCredibility | src/joint/JointManager.java:311-344 | N identical distributions whose similarity with each other is non-zero get a square similarity matrix and the credibility 1/N each |

## Left out

- Floating point: bpas, conflicts and similarities are exact reals.
  - `isValid`'s exact comparison with 1 is kept as written.
  - The 5-significant-digit rounding of `setBpa`, `setBelief` and `setPlausability` is not modelled.
  - Overflow and accumulated rounding are not modelled.
- `getDistance` and the cosine of `getSimilarity` (src/joint/JointManager.java:286-309) use `Math.sqrt` and `Math.cos`. They are the parameter `Rules.SimilarityCurve`, applied to the two squared norms and the scalar product. A NaN from the square root of a negative number is not modelled.
- The universal element comes from `FrameOfDiscernment.getUniversalSet()` in `yager` and from the frame's hypotheses in `computeMass`. It is a parameter here.
- `FocalElement.getMassUnionElement` and `FocalElement.findElement` are not part of this model.
  - The union of focal-element lists is modelled on `Element.getMassUnionElement`.
  - The lookup is modelled by `Element.equals`.
  - The union entries are fresh values. `setBpa` in `dempster`, `yager`, `average` and `distance` therefore never writes through to the inputs. Aliasing between the union and the input lists is not modelled.
- Null references: hypothesis lists and the lists handed to `isValid` are never null.
  - Element.size is the list's length, since a list here is never null.
  - Masses.MassDistribution.IsValid requires a list, because the source's iterator throws on a null one.
  - `getSimilarityMatrix`'s null result for no distributions cannot arise behind the guards.
- `applyOperator`'s `default` branch leaves the joint null. It cannot be reached from the four public operators, so `Rules.Operator` has only those four cases.
- `MassDistribution.setBodyOfEvidence`, `getMassDistribution`, `computeElement`, `readMeasureAttribute`, the test-fixture reader `ReadTestUtility`, `toString`, `clone` and exception messages are not part of this model.
- The `Hypothesis` class and `JointOperatorEnum` are not part of this model.
  - A hypothesis is its name. Its natural order in the `getUnion` TreeSet is taken to be `String.compareTo` on the name.
  - The four `JointOperatorEnum` values are taken to map one to one onto `Rules.Operator`.
  - Java's `String.compareTo` compares UTF-16 code units; `JavaStrings` compares Dafny characters. The two orders differ for characters outside the Basic Multilingual Plane.
- Element.compareTo: `Hypothesis.toString` is not part of this model. A hypothesis prints as its name, and `ArrayList.toString` is modelled as `[a, b]`.
- Theorems.BpaSumPermutation, Theorems.AllSupportsPermutation: the average's invariance under permuting the inputs is proved for the per-element bpa sums and for the set of printed elements. It is not proved for the whole result. When two different lists print the same, the union entry kept can depend on the input order.
- Theorems.DempsterLosesOtherIntersections: stated for the case where no pair meets a union element. The general loss of mass is the sum condition of Theorems.DempsterValidIff.
- JointManager.ScalarRow, JointManager.ScalarStep, JointManager.ScalarTermOf, JointManager.AddIfDisjoint, JointManager.AddIfMeets, JointManager.MatchedMass, JointManager.NormalizedElements, JointManager.SameElementsBpa, JointManager.WeightedSum, JointManager.WeightedElements, JointManager.FillRow, JointManager.OperatorBranch: these are bodies of loops and switches written out as methods of their own. The source keeps them inline.
- The classes the core reaches in other packages are not part of this model: `core.MassDistribution` (its `getFocalElements`), `core.JointMassDistribution` (its `isValid`), and `massDistribution.MassDistribution` (the no-argument constructor, `isValid` and `getTotalBpa` that `computeMass` calls, src/core/SourceOfEvidence.java:77-105). They are taken to behave like BackUp/MassDistribution.java: `isValid` sums the bpas and compares with 1 exactly (lines 37-48), `getTotalBpa` returns the bpa sum, and `FocalElement.setBpa` stores the bpa like `Element.setBpa`. The list a distribution holds is a value, so the aliasing between the list passed to the constructor (lines 12-15) or extended by `addElement` (line 28) and the caller's list is not modelled.
- Symmetry.DempsterCommutes: commutativity is stated only when elements that print the same are the same. Two different hypothesis lists can print the same (a hypothesis whose name contains ", "), and of two such lists the union of the supports keeps the one from the first operand, so the result can then depend on the order.
- No idempotence property is stated: Dempster's rule is not idempotent, in this code as in the textbook rule. For example {A}:0.5, {A,B}:0.5 combined with itself gives {A}:0.75, {A,B}:0.25.
