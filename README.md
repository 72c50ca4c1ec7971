# Kattis solutions: verified models of the algorithmic cores

This project models, in Dafny, the algorithmic cores of a collection of Rust
solutions to Kattis problems and proves what each core computes. Each Rust
source file is modelled by one or more Dafny modules:

- `src/nekameleoni.rs` — a segment tree over labels `1..k`. After point
  updates it reports the shortest window that holds every label.
  - `Nekameleoni`: the node summary `Element` and `merge`.
  - `NekameleoniTree`: the flat-array tree with `new`, `query`, `index` and `set`.
  - `TreeLayout`: the shape of a flat array tree, shared by every segment tree here.
- `src/megainversions.rs` and `src/moviecollection.rs` — both carry the same
  point-set / range-sum segment tree, modelled once as
  `SumSegmentTree.SegmentTree`.
  - `MegaInversions`: the triple-counting sweep.
  - `MovieStack` and `MovieCollection`: the move-to-top request loop.
- `src/uib_pointsofsnow.rs` — a range-add / point-query tree and its operation
  parser.
  - `SnowTree` and `PointsOfSnow`.
  - `Numerals`: Rust's `parse::<usize>` / `parse::<isize>` on decimal strings.
- `src/chineseremainder.rs` — `ChineseRemainder`, with the gcd and truncated
  division facts in `NumberTheory`.
- `src/primes2.rs` — `Primes2`.
- `src/nine.rs`, `src/clockpictures.rs` and `src/typo.rs` — the shared
  `mod_pow` (`Powers`), the shared polynomial hash (`RollingHash`), `Nine`,
  `ClockPictures` plus `Sorting`, and `Typo` plus `TypoSpec`.
- `src/hnumbers.rs` — `HNumbers` and `HNumbersSpec`.
- `src/kayaking.rs` — `Kayaking`.
- `src/ternarianweights.rs` — `TernarianWeights` and `TernarianPans`.
- `src/bracket_sequence.rs` — `BracketSequence`.
- `src/rubiksrevenge.rs` — `RubiksRevenge`.
- `src/holeynqueensbatman.rs` — `HoleyQueens` and `QueensSpec`.
- `src/closestpair2.rs` — `ClosestPair`.
- `src/bokforing.rs` — `Bokforing`.
- `src/tiredterry.rs` — `TiredTerry`.

The model follows the form of each source:

- Loops that update variables are `method`s with loop invariants.
- Things the source changes in place are arrays or class fields:
  - the segment trees' `tree`;
  - the queens board;
  - the H-number sieve;
  - the bookkeeping ledger.
- Pure folds and expressions are functions.

Each method is proved against a reference definition that says what the
result means, for example:

- the brute-force shortest window;
- the number of descending triples;
- the stack of movies;
- the history of ledger queries;
- the set of all `n`-queens solutions.

Lemmas then state the properties of those reference definitions.

Machine integers are modelled as unbounded `int`/`nat` unless stated below.
`Option` (module `Wrappers`) stands for a panic or a `None` result.

## Model

| member | source | states |
|---|---|---|
| Nekameleoni.Merge | src/nekameleoni.rs:73-143 | The merged element is the exact summary of the concatenated ranges: its mask is their labels, `len` their length, `min` their shortest covering window, and `pref`/`posf` their prefix/suffix growth tables. mask = union of the children's masks, len = sum of lengths, min ≤ both children's min. An empty right child copies the left's tables. When the union is full, min ≤ every suffix+prefix pair whose masks cover all labels. |
| Nekameleoni.CopyTable | src/nekameleoni.rs:100-104 | Copying slots up to the first blank one reproduces the table and counts its entries. |
| Nekameleoni.ExtendTable | src/nekameleoni.rs:105-111 | Appending the second table's slots that grow the last mask, with the length offset, gives the target growth table, capped at 50 slots. |
| Nekameleoni.JoinTables | src/nekameleoni.rs:100-125 | The two table loops produce the prefix table of the concatenation (and, with the parts swapped and reversed, its suffix table). |
| Nekameleoni.CrossMin | src/nekameleoni.rs:127-140 | The cross term is at most the summed length of every left-suffix/right-prefix slot pair whose masks together are full, and equals one of those sums unless it is usize::MAX. |
| Nekameleoni.MergedShortest | src/nekameleoni.rs:127-140 | The least of left min, right min and the cross term is the shortest covering window of the concatenation. |
| Nekameleoni.MergedMin | src/nekameleoni.rs:80-84 | The min computed by merge is the shortest covering window, both when the union is full and when it is not (then it is usize::MAX). |
| Nekameleoni.StraddleBound | src/nekameleoni.rs:127-140 | A covering window that straddles the boundary is no shorter than the least covering slot pair. |
| Nekameleoni.GrowthSound | src/nekameleoni.rs:100-125 | Every slot of a growth table records the labels of a prefix and its length. The masks strictly grow as strict supersets and the lengths strictly increase, each at most the range length. |
| Nekameleoni.GrowthComplete | src/nekameleoni.rs:100-125 | Every prefix whose labels are not yet in the start mask is reached by some slot no longer than it. |
| Nekameleoni.GrowthCount | src/nekameleoni.rs:100-125 | A growth table has exactly one slot per new label, so at most k slots. |
| Nekameleoni.JoinedTable | src/nekameleoni.rs:100-111 | The left table followed by the right table extended by the left's mask and length is the prefix table of the concatenation. |
| Nekameleoni.TableBound | src/nekameleoni.rs:100-125 | Prefix and suffix tables of labels in 1..k have at most k ≤ 50 slots, so they fit the fixed arrays. |
| Nekameleoni.ShortestFacts | src/nekameleoni.rs:65-67 | The shortest window is unique, usize::MAX exactly when some label is absent, and otherwise at most the range length. |
| Nekameleoni.DefaultSummarisesEmpty | src/nekameleoni.rs:11-29 | `Element::default()` is the summary of an empty (padding) range. |
| Nekameleoni.LeafSummarises | src/nekameleoni.rs:41-50 | The leaf `new` and `set` write for label d summarises `[d]`; its min is 1 when k == 1 and usize::MAX otherwise. |
| Nekameleoni.SummaryUnique | src/nekameleoni.rs:11-29 | Two summaries of the same range are equal. |
| Nekameleoni.Min | src/nekameleoni.rs:82 | The smaller of two lengths: at most both and equal to one. |
| NekameleoniTree.SegmentTree.constructor | src/nekameleoni.rs:37-63 | After `new`, every node summarises the labels below it. The tree has 2·NextPow2(n) nodes. |
| NekameleoniTree.SegmentTree.Build | src/nekameleoni.rs:58-60 | The bottom-up loop over summarised leaves makes every node a correct summary. |
| NekameleoniTree.SegmentTree.Remerge | src/nekameleoni.rs:59 | Merging two correct children makes the node correct and changes no other node. |
| NekameleoniTree.SegmentTree.Query | src/nekameleoni.rs:65-67 | The root's min is the length of the shortest window holding all k labels, usize::MAX exactly when some label is absent. |
| NekameleoniTree.SegmentTree.Index | src/nekameleoni.rs:69-71 | The leaf of position i is node N + i, whose range is exactly `[data[i]]`. |
| NekameleoniTree.SegmentTree.Set | src/nekameleoni.rs:145-163 | After `set(i, v)` the tree is valid for the data with position i relabelled. Nodes not on the leaf-to-root path are unchanged, and setting the current label changes nothing. |
| NekameleoniTree.SegmentTree.Repair | src/nekameleoni.rs:158-162 | Re-merging the ancestors of the changed leaf restores every node and touches nothing off the path. |
| NekameleoniTree.LeafIsLeaf | src/nekameleoni.rs:147-149 | A correct leaf for label d is exactly the leaf element `set` rewrites. |
| NekameleoniTree.Relabelled | src/nekameleoni.rs:148-156 | Relabelling a leaf keeps every node except its strict ancestors correct for the new data. |
| TreeLayout.NextPow2 | src/nekameleoni.rs:38 | The tree size for n ≥ 1: a power of two at least n. |
| TreeLayout.NextPow2Least | src/megainversions.rs:17 | It is the least such power (half of it is below n). |
| TreeLayout.InnerNode | src/nekameleoni.rs:58-60 | An inner node's range is its left child's followed by its right child's, and padding only follows data. |
| TreeLayout.RootSeg | src/nekameleoni.rs:65-67 | The root covers the whole data. |
| TreeLayout.LeafSeg | src/megainversions.rs:57-59 | Leaf N + i covers exactly position i. |
| TreeLayout.SegFrame | src/megainversions.rs:61-69 | Changing position i leaves the range of every node that is not its ancestor unchanged. |
| SumSegmentTree.SegmentTree.constructor | src/megainversions.rs:16-32 | After `new(data)` the leaves are data followed by zeros, and every inner node is the sum of its children. |
| SumSegmentTree.SegmentTree.Empty | src/megainversions.rs:34-38 | `empty(size)` holds NextPow2(size) zero leaves. |
| SumSegmentTree.SegmentTree.Filled | src/moviecollection.rs:16-31 | `new(filled, capacity)` puts 1 on leaves 0..filled and 0 elsewhere, with the sum invariant. |
| SumSegmentTree.SegmentTree.Build | src/megainversions.rs:24-26 | The build loop makes every inner node the sum of its two children and leaves the leaves as they were. |
| SumSegmentTree.SegmentTree.Query | src/megainversions.rs:40-55 | `query(l, r)` is the sum of leaves l..=r. |
| SumSegmentTree.SegmentTree.Index | src/megainversions.rs:57-59 | The leaf of position i is N + i and holds that position's value. |
| SumSegmentTree.SegmentTree.Set | src/megainversions.rs:61-69 | `set(i, v)` makes leaf i equal v, leaves every other leaf unchanged and restores the sum invariant. |
| SumSegmentTree.SegmentTree.Update | src/megainversions.rs:71-74 | `update(i, d)` adds d to leaf i and changes no other leaf. |
| SumSegmentTree.InnerQuerySum | src/megainversions.rs:42-51 | `inner_query` over node v spanning x..=y returns the sum of the leaves of that span that lie in l..=r. |
| SumSegmentTree.WithinOutside | src/megainversions.rs:43-44 | A node that does not overlap the range contributes 0. |
| SumSegmentTree.WithinInside | src/megainversions.rs:45-46 | A node inside the range contributes its whole sum. |
| SumSegmentTree.SpanSum | src/megainversions.rs:45-46 | Under the sum invariant a node holds the sum of the leaves it spans. |
| SumSegmentTree.NodeSum | src/megainversions.rs:24-26 | Under the sum invariant node v holds the sum of its leaf segment. |
| SumSegmentTree.LeafWritten | src/megainversions.rs:63 | Writing a leaf breaks the sum invariant only at its ancestors. |
| SumSegmentTree.Resummed | src/megainversions.rs:65-67 | Re-summing an ancestor moves the broken node up to its parent. |
| SumSegmentTree.HistogramSum | src/megainversions.rs:86-99 | A range sum over a histogram counts the elements whose values lie in the range. |
| MegaInversions.Counts | src/megainversions.rs:86-89 | `initial_right_tree` counts how often each value 0..=n occurs. |
| MegaInversions.Advance | src/megainversions.rs:95-99 | One loop pass adds (values before j above s[j]) × (values after j below s[j]) and moves s[j] from the right tree to the left. |
| MegaInversions.Step | src/megainversions.rs:96 | The two range queries give exactly that product. |
| MegaInversions.MiddleTriples | src/megainversions.rs:95-99 | The loop's sum counts the triples of the rest plus the pairs below each passed element. |
| MegaInversions.PairsFromCons | src/megainversions.rs:96 | A new middle element forms (greater before) × (smaller after) triples. |
| MegaInversions.CountTriples | src/megainversions.rs:86-99 | `total` is the number of triples i < j < k with a_i > a_j > a_k. |
| MovieStack.MoveToTop | src/moviecollection.rs:81-83 | Moving a movie to the top puts it first and keeps the same movies. |
| MovieStack.IndexOf | src/moviecollection.rs:80 | The depth of a movie: its first position on the stack. |
| MovieStack.AnswersStep | src/moviecollection.rs:79-85 | Each request is answered with its depth, then the rest are answered on the stack with that movie on top. |
| MovieStack.Depth | src/moviecollection.rs:80 | The taken slots after a movie's slot are exactly the movies above it. |
| MovieStack.Served | src/moviecollection.rs:81-84 | Freeing the movie's slot and giving it `index_pointer` keeps the stack, slots and tree consistent, with `index_pointer` one larger. |
| MovieStack.Ones | src/moviecollection.rs:81-84 | Every slot holds 0 or 1, and exactly m slots hold 1. |
| MovieStack.Distinct | src/moviecollection.rs:81-84 | The `index` entries of different movies are distinct. |
| MovieStack.Start | src/moviecollection.rs:73-75 | The initial tree, `index` and `index_pointer` are consistent with the initial stack. |
| MovieCollection.Take | src/moviecollection.rs:80-82 | One request's tree work: the count of taken slots above, then slot p freed and slot ptr taken. |
| MovieCollection.Answer | src/moviecollection.rs:80-84 | When the fresh slot is at most the end of the counted range, the answer is the requested movie's depth; in every case the state stays consistent with that movie moved to the top. |
| MovieStack.ServingStart | src/moviecollection.rs:76-79 | Before the first request nothing is answered and all the answers are still to come. |
| MovieStack.ServingStep | src/moviecollection.rs:79-85 | Request t adds its depth on the current stack to the answers so far; the value written equals it when t ≤ r. |
| MovieStack.ServingDone | src/moviecollection.rs:79-85 | After the last request every answer t ≤ r is the t-th answer of the stack, and all of them are when there are at most r + 1 requests. |
| MovieCollection.Next | src/moviecollection.rs:79-84 | One pass of the request loop keeps the tree consistent with the stack and extends the answers. |
| MovieCollection.Open | src/moviecollection.rs:73-76 | The tree, `index` and `index_pointer` start consistent with the initial stack. |
| MovieCollection.Serve | src/moviecollection.rs:79-85 | The request loop answers every request; each answer t ≤ r is that request's depth. |
| MovieCollection.Solve | src/moviecollection.rs:73-85 | Every request gets an answer; for each t ≤ r, request t outputs the number of movies above the requested one after the earlier moves to the top, so with at most r + 1 requests the output is exactly the answers. |
| SnowTree.Added | src/uib_pointsofsnow.rs:83-101 | Adding d on l..=r changes exactly those positions, by d. |
| SnowTree.InnerUpdateRange | src/uib_pointsofsnow.rs:85-98 | The recursion adds d to the value of every leaf in l..=r below v and to no other. Disjoint and fully covered nodes stop there; nodes outside v's subtree are unchanged. |
| SnowTree.Covered | src/uib_pointsofsnow.rs:90-93 | Adding d at a node raises the value of every leaf it spans by d. |
| SnowTree.PathAdd | src/uib_pointsofsnow.rs:67-77 | A point's value changes by d exactly when the changed node lies on its root path. |
| SnowTree.SegmentTree.constructor | src/uib_pointsofsnow.rs:49-59 | After `new(data)`, `query(i)` is data[i], and 0 past the data. |
| SnowTree.SegmentTree.Empty | src/uib_pointsofsnow.rs:61-65 | After `empty(n)`, `query(i)` is 0 for every i. |
| SnowTree.SegmentTree.Index | src/uib_pointsofsnow.rs:79-81 | Leaf N + i's root-path sum is the value at i. |
| SnowTree.SegmentTree.Query | src/uib_pointsofsnow.rs:67-77 | The loop's sum is the value at position i. |
| SnowTree.SegmentTree.UpdateRange | src/uib_pointsofsnow.rs:83-101 | `query(i)` grows by d exactly when l ≤ i ≤ r; the other values are unchanged. |
| PointsOfSnow.FromString | src/uib_pointsofsnow.rs:22-40 | `! l r d` is an Update, `? i` a Query with the number from the third character on, and any other first character fails. |
| PointsOfSnow.FromFormat | src/uib_pointsofsnow.rs:22-40 | Parsing the line of any in-range operation gives that operation back. |
| PointsOfSnow.Snowed | src/uib_pointsofsnow.rs:111-115 | After a run of operations, a position holds its start value plus the d of every update covering it. |
| PointsOfSnow.QueryAnswer | src/uib_pointsofsnow.rs:114 | A query writes the sum of the earlier updates covering idx - 1. |
| PointsOfSnow.Perform | src/uib_pointsofsnow.rs:112-115 | One operation on the tree: an update adds d on l..r-1, a query writes the value at idx - 1. |
| PointsOfSnow.Feed | src/uib_pointsofsnow.rs:111-116 | The operation loop writes exactly the reference outputs of the operations, starting from the tree's values, and keeps the tree valid. |
| PointsOfSnow.Run | src/uib_pointsofsnow.rs:110-116 | The numbers written are those of the reference fold over the operations, from zero snow. |
| PointsOfSnow.Solve | src/uib_pointsofsnow.rs:104-119 | The output of `solve` for the first k + q operation lines. |
| Numerals.ParsedForm | src/uib_pointsofsnow.rs:28-29 | A string `parse::<usize>` accepts is an optional `+`, some zeros, then the decimal form of the value it yields. |
| Numerals.ParseForm | src/uib_pointsofsnow.rs:28-29 | Conversely, an optional `+`, any number of zeros and the decimal form of a usize parse to that usize. |
| Numerals.ParseIsize | src/uib_pointsofsnow.rs:30 | `parse::<isize>` yields values in the isize range, and negative ones only after `-`. |
| Numerals.ParseShowUsize | src/uib_pointsofsnow.rs:28-29 | Parsing the decimal form of a usize gives it back. |
| Numerals.ParseShowIsize | src/uib_pointsofsnow.rs:30 | Parsing the decimal form of an isize gives it back. |
| Numerals.SplitWord | src/uib_pointsofsnow.rs:25 | `split(' ')` of `a b` is a followed by the split of b. |
| ChineseRemainder.ExtGcd | src/chineseremainder.rs:34-50 | The reference Euclid: a·x + b·y = g, where g divides x and y and is non-negative for non-negative inputs. |
| ChineseRemainder.EuclidStep | src/chineseremainder.rs:37-47 | One loop step keeps the Bezout invariants a0·x0 + b0·y0 = x and a1·x0 + b1·y0 = y, with truncated `/` and `%`. |
| ChineseRemainder.ExtendedGcd | src/chineseremainder.rs:34-50 | The loop returns the reference result, so a·x + b·y = g with g a common divisor. |
| ChineseRemainder.Greatest | src/chineseremainder.rs:34-50 | Every common divisor of x and y divides g, so g is the gcd. |
| ChineseRemainder.CoprimeGcd | src/chineseremainder.rs:55 | For x ≥ 0 and y > 0, g == 1 exactly when x and y are coprime. |
| ChineseRemainder.Normal | src/chineseremainder.rs:56 | `(a % m + m) % m` with truncated `%` is the Euclidean remainder, in [0, m). |
| ChineseRemainder.ModulusInverse | src/chineseremainder.rs:52-60 | It is None exactly when m_i and the modulus are not coprime; otherwise it is in [0, modulus) with m_i·inv ≡ 1. |
| ChineseRemainder.TestCase | src/chineseremainder.rs:23-32 | k = n·m and, for positive moduli and a, b ≥ 0, 0 ≤ x < n·m with x ≡ a (mod n) and x ≡ b (mod m). |
| ChineseRemainder.CoprimeApplies | src/chineseremainder.rs:29 | For coprime positive moduli both `unwrap`s succeed. |
| NumberTheory.TruncatedDivision | src/chineseremainder.rs:38 | Rust's truncated `/` and `%` satisfy x = q·y + r, and agree with Euclidean division on non-negative operands. |
| NumberTheory.CommonRem | src/chineseremainder.rs:38-42 | The common divisors of (x, y) and of (y, x % y) are the same. |
| NumberTheory.TRemMod | src/clockpictures.rs:54 | The truncated remainder is congruent to the value, and equal to the Euclidean one for non-negative values. |
| Primes2.StrToDigit | src/primes2.rs:61-73 | None exactly when some character is not a digit of the base; otherwise the Horner value, so the empty string gives Some(0). |
| Primes2.ToDigit | src/primes2.rs:65 | `to_digit(base)` yields only values below the base. |
| Primes2.IsPrime | src/primes2.rs:47-59 | True exactly for primes, and false for n ≤ 1; the loop bound is ⌊√n⌋ + 1. |
| Primes2.SmallDivisor | src/primes2.rs:52-53 | A composite has a divisor between 2 and its integer square root. |
| Primes2.Isqrt | src/primes2.rs:52 | The integer square root: s² ≤ n < (s+1)². |
| Primes2.Gcd | src/primes2.rs:37-45 | The greatest common divisor: a common divisor that every common divisor divides; gcd(a, 0) = a. |
| Primes2.Fraction | src/primes2.rs:26-31 | The printed fraction equals primes/count and is in lowest terms; 0/0 prints 0/1. |
| Primes2.Line | src/primes2.rs:16-31 | The fraction of the readings in the four bases that are prime, in lowest terms. |
| Powers.ModPow | src/nine.rs:28-42 | `mod_pow(b, e, m)` = b^e mod m, below m, and 0 when m == 1 (also the copies at src/clockpictures.rs:14-28 and src/typo.rs:15-29). |
| Powers.Square | src/nine.rs:34-40 | The loop keeps result·base^exp ≡ b^e (mod m) with result < m. |
| Powers.PowMod | src/nine.rs:33 | Reducing the base first does not change b^e mod m. |
| Nine.ContainsNine | src/nine.rs:45-53 | True exactly when some decimal digit is 9. |
| Nine.FreeBelow | src/nine.rs:16 | 9^q numbers below 10^q have no digit 9. |
| Nine.Count | src/nine.rs:16-23 | 8·9^(q-1) of the q-digit numbers have no digit 9. |
| Nine.Answer | src/nine.rs:16 | The printed value is that count mod 1 000 000 007. |
| RollingHash.Calc | src/clockpictures.rs:30-32 | `calc(i, b)` = b·31^i mod M, in [0, M); likewise src/typo.rs:31-33. |
| RollingHash.Hash | src/clockpictures.rs:34-38 | `hash(w)` = Σ w_i·31^i mod M, in [0, M); likewise src/typo.rs:35-39. |
| RollingHash.PolyCons | src/clockpictures.rs:57-61 | Prepending x to w gives x + 31·(polynomial of w). |
| Sorting.Sort | src/clockpictures.rs:77 | `sort`: a sorted permutation. |
| Sorting.Dedup | src/hnumbers.rs:46 | `dedup` of a sorted list keeps exactly the same elements, strictly increasing. |
| ClockPictures.ToDeltaVec | src/clockpictures.rs:75-86 | The output is `Gaps(Sort(inp))`: the input's length, the gaps between sorted angles plus the wrap-around gap, summing to 360000. |
| ClockPictures.Windows | src/clockpictures.rs:79-81 | The consecutive differences of the sorted list sum to its last minus its first element. |
| ClockPictures.Turn | src/clockpictures.rs:53-62 | One step turns the hash of d2 rotated by i+1 into the hash of d2 rotated by i, in [0, M). |
| ClockPictures.Rehash | src/clockpictures.rs:53-62 | The step's truncated-remainder arithmetic gives the hash of the shifted word. |
| ClockPictures.Rotations | src/clockpictures.rs:51-68 | "possible" exactly when the hash of some rotation of d2 equals d1's hash. |
| ClockPictures.Solve | src/clockpictures.rs:40-73 | d1 and d2 are the gap sequences of the sorted hand positions of a and b; "possible" exactly when some rotation of d2 hashes like d1, and always when some rotation equals d1. |
| TypoSpec.Del | src/typo.rs:79 | `word[0..i] + word[i+1..]`: the word without byte i. |
| TypoSpec.DelStep | src/typo.rs:84-87 | Moving the deleted byte one position left changes the hash polynomial by the two terms the loop adds and removes. |
| TypoSpec.CollectFacts | src/typo.rs:42-48 | The HashMap keeps each line under its own hash with its line number, a later line replacing an earlier one. |
| TypoSpec.ReportedAt | src/typo.rs:51-55 | A line is reported exactly when it is its hash's kept entry and a typo. |
| Typo.Probe | src/typo.rs:74-77 | At iteration i, the key looked up is the hash of word with byte i deleted. |
| Typo.Shift | src/typo.rs:84-87 | The re-add step prepares the hash for the deletion of byte i - 1. |
| Typo.Pass | src/typo.rs:72-88 | One pass finds a match exactly when the table holds word without byte i under its hash. |
| Typo.CheckWord | src/typo.rs:69-91 | True exactly when the table holds the word with one byte deleted. |
| Typo.Visit | src/typo.rs:51-55 | Each kept entry is reported when it is a typo. |
| Typo.Solve | src/typo.rs:41-66 | The reported words are the typos among the lines the table keeps (the last line per hash), in input order, and "NO TYPOS" is printed exactly when there are none. |
| HNumbersSpec.SieveStep | src/hnumbers.rs:21-31 | Index i is still set exactly when 4i+1 is an H-prime, and striking its multiples keeps the sieve state. |
| HNumbersSpec.StruckBefore | src/hnumbers.rs:25-29 | The sieve clears exactly the indices of p·p + 4·p·j up to the limit. |
| HNumbersSpec.PrimeFactor | src/hnumbers.rs:21-31 | Every H-composite has an H-prime factor, so the sieve is sound. |
| HNumbersSpec.PrimesUpTo | src/hnumbers.rs:21-24 | The listed primes are exactly the H-primes up to the bound, increasing and ≡ 1 (mod 4). |
| HNumbersSpec.SemiPrimesCovered | src/hnumbers.rs:35-43 | The products p1·p2 ≤ limit over the rows are exactly the H-semi-primes up to the limit. |
| HNumbersSpec.AtMostSplit | src/hnumbers.rs:59-87 | For a list split at r, the count of elements ≤ x is r. |
| HNumbers.Strike | src/hnumbers.rs:25-29 | The inner loop clears exactly the multiples p·p + 4pj that fit. |
| HNumbers.Sieve | src/hnumbers.rs:19-31 | `primes` are exactly the H-primes up to 1 000 001, increasing, each ≡ 1 (mod 4). |
| HNumbers.Row | src/hnumbers.rs:36-42 | One row adds p_i·p_j for j ≥ i while the product fits. |
| HNumbers.Products | src/hnumbers.rs:35-43 | The list holds exactly the row products. |
| HNumbers.SemiPrimes | src/hnumbers.rs:33-46 | After sort and dedup, `semi_primes` is strictly increasing and holds exactly the H-semi-primes up to the limit. |
| HNumbers.BinarySearch | src/hnumbers.rs:59-87 | For a non-empty increasing list, the result is the number of elements ≤ search. |
| HNumbers.Answers | src/hnumbers.rs:48-54 | Each query before the first 0 gets its count of H-semi-primes. |
| HNumbers.Solve | src/hnumbers.rs:11-57 | The whole pipeline: the table of H-semi-primes, and one answer per query until 0. |
| Kayaking.MinPeopleSpeed | src/kayaking.rs:29-33 | The ceiling division: s·kayak ≥ test and (s-1)·kayak < test. |
| Kayaking.BinarySearch | src/kayaking.rs:83-99 | The result is in [min, max] and returned at once on Equal. For a monotone comparator that says Greater at min, it is the largest value said Greater. |
| TernarianWeights.Step | src/ternarianweights.rs:23-44 | One digit step keeps sum(right) − sum(left), plus what is still to weigh, equal to m; pans are powers of 3 below modi, increasing and disjoint. |
| TernarianWeights.Balance | src/ternarianweights.rs:24-43 | Each digit case adds the right amount to the balance. |
| TernarianWeights.Kept | src/ternarianweights.rs:24-43 | Each digit case keeps the pans increasing, disjoint and below 3·modi. |
| TernarianWeights.Weigh | src/ternarianweights.rs:15-51 | sum(right) − sum(left) = m, every weight is a power of 3, the pans are disjoint and strictly decreasing, and m = 0 gives two empty pans. |
| TernarianWeights.ReverseFacts | src/ternarianweights.rs:50-51 | Reversal keeps sum and members and turns increasing into decreasing. |
| BracketSequence.SumFrom | src/bracket_sequence.rs:38-59 | Exact (unreduced) value of the sum group from a position, and where it stops. |
| BracketSequence.ProductFrom | src/bracket_sequence.rs:15-36 | Exact value of the product group from a position, and where it stops. |
| BracketSequence.FlatLevels | src/bracket_sequence.rs:15-59 | Without brackets, the levels are the plain sum and product of the numbers. |
| BracketSequence.Mul | src/bracket_sequence.rs:15-36 | `mul` returns the product group's value mod MOD, below MOD, consumes through its `)`, and gives 1 on an exhausted iterator. |
| BracketSequence.Add | src/bracket_sequence.rs:38-59 | `add` returns the sum group's value mod MOD, below MOD, consumes through its `)`, and gives 0 on an exhausted iterator. |
| BracketSequence.Evaluate | src/bracket_sequence.rs:5-13 | Each line's printed value is the exact value mod MOD. |
| RubiksRevenge.Left | src/rubiksrevenge.rs:20-24 | Rotates row i's cells left and changes no other row. |
| RubiksRevenge.Right | src/rubiksrevenge.rs:26-30 | Rotates row i's cells right and changes no other row. |
| RubiksRevenge.Up | src/rubiksrevenge.rs:32-40 | Shifts column i's cells up cyclically; every other cell stays. |
| RubiksRevenge.Down | src/rubiksrevenge.rs:42-50 | Shifts column i's cells down cyclically; every other cell stays. |
| RubiksRevenge.RotLeft | src/rubiksrevenge.rs:22 | `(x << 2) + (x >> 6)` on a u8 rotates its four 2-bit cells. |
| RubiksRevenge.RotRight | src/rubiksrevenge.rs:28 | `(x >> 2) + ((x & 3) << 6)` rotates them the other way. |
| RubiksRevenge.Splice | src/rubiksrevenge.rs:34-38 | `(x & !mask) + (y & mask)` replaces cell i of x with y's. |
| RubiksRevenge.LeftRight | src/rubiksrevenge.rs:19-30 | Left and Right on row i are inverses, and four Lefts are the identity. |
| RubiksRevenge.UpDown | src/rubiksrevenge.rs:32-50 | Up and Down on column i are inverses, and four Ups are the identity. |
| RubiksRevenge.Act | src/rubiksrevenge.rs:18-52 | Every action keeps the count of each colour. |
| RubiksRevenge.RunCount | src/rubiksrevenge.rs:18-52 | Any sequence of actions keeps the count of each colour. |
| RubiksRevenge.Solvable | src/rubiksrevenge.rs:71 | A position that some moves take to GOAL has four cells of each colour. |
| RubiksRevenge.GridInjective | src/rubiksrevenge.rs:11-16 | The 2-bit encoding is faithful: equal grids mean equal byte arrays. |
| RubiksRevenge.FindPathBase | src/rubiksrevenge.rs:93-96 | `find_path` answers 0 exactly when the start is GOAL. |
| RubiksRevenge.Colour | src/rubiksrevenge.rs:76-83 | R, G, B, Y map to 0..3 and any other letter panics. |
| RubiksRevenge.Packed | src/rubiksrevenge.rs:76-85 | The sum of the shifted letters is defined exactly when every letter is R, G, B or Y. |
| RubiksRevenge.Padded | src/rubiksrevenge.rs:84-85 | A line of fewer than four letters sums to what the line completed with R sums to. |
| RubiksRevenge.EncodeRow | src/rubiksrevenge.rs:76-85 | A line of at most four letters puts letter k into cell 3 - k, the first letter in the top bits, and leaves the cells after a short line R; None exactly when a letter is unknown. |
| RubiksRevenge.DecodeRow | src/rubiksrevenge.rs:55-69 | `print_rubik`'s letters read the cells from the top bits down. |
| RubiksRevenge.RowRoundTrip | src/rubiksrevenge.rs:55-85 | Printing a parsed row gives it back (completed with R when shorter than four letters), and parsing a printed byte gives it back. |
| QueensSpec.SafeExtends | src/holeynqueensbatman.rs:67-92 | Placing a queen keeps the board non-attacking exactly when its column and both diagonals are free. |
| QueensSpec.QueenBits | src/holeynqueensbatman.rs:50-58 | A board drawn from columns has exactly one bit in every filled row, at the queen's column, and none below. |
| QueensSpec.CompletionsSound | src/holeynqueensbatman.rs:50-65 | Every generated board is a solution of size n extending the current rows. |
| QueensSpec.CompletionsComplete | src/holeynqueensbatman.rs:50-65 | Every solution extending the current rows is generated. |
| QueensSpec.GeneratedStep | src/holeynqueensbatman.rs:56-62 | Each column's recursion appends its boards in column order. |
| HoleyQueens.ColumnClear | src/holeynqueensbatman.rs:69-74 | True exactly when no earlier row has a queen in the column. |
| HoleyQueens.UpLeftClear | src/holeynqueensbatman.rs:76-81 | True exactly when the up-left diagonal is free. |
| HoleyQueens.UpRightClear | src/holeynqueensbatman.rs:83-88 | True exactly when the up-right diagonal is free. |
| HoleyQueens.ValidPlacement | src/holeynqueensbatman.rs:67-92 | True exactly when no earlier queen shares the column or a diagonal. |
| HoleyQueens.GenerateBoards | src/holeynqueensbatman.rs:50-65 | Returns exactly the boards of all solutions that extend the current rows, in order, and restores `cur_board`. |
| HoleyQueens.Descend | src/holeynqueensbatman.rs:57-60 | Placing, recursing and clearing the row restores the board and yields the extended completions. |
| HoleyQueens.ClearQueens | src/holeynqueensbatman.rs:35-39 | A board avoids the holes exactly when no queen stands on one. |
| HoleyQueens.Free | src/holeynqueensbatman.rs:35-39 | The hole loop is true exactly when the board avoids every hole. |
| HoleyQueens.CountClear | src/holeynqueensbatman.rs:33-41 | `count` is the number of boards that avoid every hole. |
| HoleyQueens.TestCase | src/holeynqueensbatman.rs:27-43 | The generated boards are exactly the n-queens solutions, and `count` is the number of them with no queen on a hole. |
| ClosestPair.ParseFloat | src/closestpair2.rs:51-81 | Some exactly for strings of digits, `-` and `.`; the value is the digits read as one number, scaled to hundredths by the count of decimals, negated after `-`. |
| ClosestPair.ParseNumeral | src/closestpair2.rs:51-81 | For `[-]whole[.frac]` with at most 2 decimals, the value is ±(whole·100 + frac·10^(2-|frac|)), that is the value ×100. |
| ClosestPair.Sign | src/closestpair2.rs:76-80 | A leading `-` marks the value negative and adds no digits. |
| ClosestPair.ValueAppend | src/closestpair2.rs:61-62 | Reading digits a then b gives a·10^|b| + b. |
| ClosestPair.Dist | src/closestpair2.rs:21-23 | The squared distance is non-negative. |
| ClosestPair.DistFacts | src/closestpair2.rs:21-23 | It is symmetric, and 0 exactly when the coordinates agree. |
| ClosestPair.StrCmp | src/closestpair2.rs:13 | Lexicographic string order: Equal exactly on equal strings. |
| ClosestPair.PointCmp | src/closestpair2.rs:13 | The derived order on (x, y, s): Equal exactly on equal points. |
| ClosestPair.TripleCmp | src/closestpair2.rs:87-88 | The tuple order on (distance, point, point): Equal exactly on equal triples. |
| ClosestPair.TripleTotal | src/closestpair2.rs:88 | The tuple order is total. |
| ClosestPair.TripleTrans | src/closestpair2.rs:88 | The tuple order is transitive. |
| ClosestPair.Min | src/closestpair2.rs:88 | `cmp::min`: one of the two, and no greater than either. |
| ClosestPair.Pair | src/closestpair2.rs:87 | The triple of points i and o carries their distance. |
| ClosestPair.Row | src/closestpair2.rs:86-89 | The inner loop leaves a triple no greater than the old answer and than each pair (i, o), o > i. |
| ClosestPair.MinDistanceFull | src/closestpair2.rs:83-93 | For ≥ 2 points, the result is one of the pairs and its distance is `dist` of that pair. It is the least triple over all pairs i < o, so its distance is the minimum. |
| Bokforing.CurrentLast | src/bokforing.rs:28-32 | After a SET of x with no later write, x holds that value. |
| Bokforing.CurrentNone | src/bokforing.rs:16 | Without any write, x holds 0. |
| Bokforing.PrintTwice | src/bokforing.rs:33-38 | A repeated PRINT writes the same value twice. |
| Bokforing.TrackSet | src/bokforing.rs:28-32 | SET stamps the entry with `last_restart` and keeps the ledger in step with the history. |
| Bokforing.TrackPrint | src/bokforing.rs:33-38 | PRINT normalises a stale entry to the restart value and keeps the ledger in step. |
| Bokforing.TrackRestart | src/bokforing.rs:40-43 | RESTART keeps the ledger in step. |
| Bokforing.Ledger.constructor | src/bokforing.rs:16-19 | Everyone starts at (0, -1), with `last_restart` and `last_restart_v` 0. |
| Bokforing.Ledger.Set | src/bokforing.rs:28-32 | Writes (v, last_restart) into person x's entry and changes nothing else. |
| Bokforing.Ledger.Print | src/bokforing.rs:33-39 | Outputs the reference amount of x, leaves x's entry fresh with that amount, and changes no other entry or the restart fields. |
| Bokforing.Ledger.Restart | src/bokforing.rs:40-43 | Changes only `last_restart` (to the query index) and `last_restart_v`. |
| Bokforing.Answer | src/bokforing.rs:27-45 | A query appends exactly its PRINT output, if any. |
| Bokforing.Solve | src/bokforing.rs:16-46 | The output is the reference output for the query history. |
| TiredTerry.TimePeriod | src/tiredterry.rs:15 | `time_period[j]` is 1 exactly when symbol j mod n is 'Z'. |
| TiredTerry.Pattern | src/tiredterry.rs:15 | The cycled pattern taken to 2n is periodic in the line. |
| TiredTerry.Advance | src/tiredterry.rs:19-20 | Sliding the window drops position i+n-p and adds i+n, so `slept` is the 'Z' count of the p positions ending at i. |
| TiredTerry.WindowEnd | src/tiredterry.rs:16 | The initial sum over n-p..n is the window before position 0. |
| TiredTerry.AsleepBound | src/tiredterry.rs:16-20 | `slept` never exceeds p. |
| TiredTerry.CountTired | src/tiredterry.rs:15-24 | `count` is the number of i whose window of p minutes ending at i, taken cyclically, holds fewer than d 'Z's; at most n. |

## Left out

- Input parsing and output writing of every `solve`/`main`, and the `#[cfg(test)]` harnesses, are I/O. The models start from parsed values. The exceptions are `from_string`, `parse_float` and the Rubik letters, which are modelled.
- Machine integer widths (u8 in Rubik, u16/i8 in the queens board, u64, i64, i128, usize, isize) are unbounded integers. Overflow is not modelled; Rubik bytes are `bv8`.
- Tree sizes computed with `powf`/`log2` are modelled as the next power of two (`TreeLayout.NextPow2`), since floating point is not modelled.
- TreeLayout.NextPow2: defined for sizes ≥ 1 only. At size 0 the source's float expression gives 0, so it builds a zero-length tree on which every later query, set or update panics; that case is not modelled.
- SumSegmentTree.SegmentTree.constructor, SumSegmentTree.SegmentTree.Empty, SumSegmentTree.SegmentTree.Filled: require a size ≥ 1; the zero-length tree of size 0 is not modelled.
- SnowTree.SegmentTree.constructor, SnowTree.SegmentTree.Empty: require a size ≥ 1; the zero-length tree of size 0 is not modelled.
- MovieCollection.Solve: requires m + r ≥ 1; with m = r = 0 the source builds an empty tree, answers no request and prints nothing.
- PointsOfSnow.Run: requires n ≥ 1, and so does PointsOfSnow.Solve; with n = 0 the source panics on the first operation and prints nothing when there is none.
- Nekameleoni.Merge: the `u64` masks are sets of labels. Bit a-1 stands for label a, which is exact for the labels 1..50 the source allows.
- NekameleoniTree.SegmentTree.Set: labels must lie in 1..k, as the source's masks assume.
- NekameleoniTree.SegmentTree.Set: the source writes the leaf's mask and min before returning on an unchanged label; the model checks first. The values agree.
- SumSegmentTree.SegmentTree.Query: the ranges are naturals. The `c-1` underflow at c = 0 in megainversions is excluded by requiring values in 1..=n.
- MovieCollection.Solve: requests must lie in 1..=m, as the source indexes `index[req - 1]`.
- MovieCollection.Solve: requires m + |requests| ≤ NextPow2(m + r). Past that the source's `tree.set(index_pointer, 1)` indexes outside the tree's leaves and panics; that panic is not modelled.
- MovieCollection.Solve: requests after the first r + 1 are answered, but their answers are not characterised. The source still counts only the slots up to m + r, so it misses the movies already moved past that slot.
- RubiksRevenge.EncodeRow: requires at most four letters. On a fifth letter the source's `3 - i` underflows `usize` (a panic in a debug build); that panic is not modelled.
- PointsOfSnow.Solve: every taken line must parse, every update must have r ≥ 1, and every query must have 1 ≤ idx ≤ NextPow2(n), since the source panics otherwise (`idx - 1` underflows at 0, and the leaf index is out of bounds past the tree).
- ChineseRemainder.ModulusInverse: the coprimality iff is stated for non-negative m_i and a positive modulus; for other signs only the arithmetic is modelled.
- ChineseRemainder.ModulusInverse: requires modulus ≠ 0 or m_i ≠ 1. For (m_i, modulus) = (1, 0) the gcd is 1 and the source divides by zero at `a % modulus` (src/chineseremainder.rs:56); that panic is not modelled.
- ChineseRemainder.TestCase: requires both inverses to exist (and neither to hit the (1, 0) division). For moduli that are not coprime the source panics on `unwrap()` (src/chineseremainder.rs:29); that panic is not modelled.
- Primes2.IsPrime: the float bound `sqrt(n) as u64 + 1` is modelled as the integer square root plus one.
- Kayaking: the comparator's seating logic (src/kayaking.rs:23-78) is a parameter of `Kayaking.BinarySearch`, not modelled.
- Typo: the HashMap's iteration order is not modelled; the model visits lines in input order, which gives the same output after the sort by index. Words are byte sequences.
- HNumbers.BinarySearch: the `return 0` branch at `mid == 0` cannot be reached for lists of length ≥ 2 and adds nothing to the result.
- TernarianWeights.Weigh: the `u64` values and the printing of the pans are not modelled.
- BracketSequence.Add: numbers larger than u64 and `unwrap` panics on non-numeric tokens are not modelled; tokens are pre-split.
- RubiksRevenge: the bidirectional breadth-first search of `find_path` beyond its base case, and `inner_bfs`, are left out (queues and hash maps). `FindPathBase` answers None for every other start.
- RubiksRevenge.DecodeRow: the `unreachable!()` branch cannot be reached on 2-bit cells.
- RubiksRevenge.Up: the mask `0b11 << i*2` is a `u8` (it is an operand of `&` on a row byte), and the `bv8` splice models it directly; the bits outside column i are covered by the grid equality.
- HoleyQueens.TestCase: the cache of generated boards per size is not modelled; boards are generated in each test case.
- HoleyQueens.TestCase: requires 1 ≤ n ≤ 12. In the source n = 0 ends the input loop instead of running a test case, and n > 12 panics on `boards[n - 1]`.
- HoleyQueens: a hole with a row ≥ 12 panics in the source and is excluded by the `Hole` type. A hole column ≥ 16 would overflow the u16 shift, and is not modelled.
- HoleyQueens.GenerateBoards: the generated boards are not proved duplicate-free.
- ClosestPair: `min_distance` (the floating-point strip search, src/closestpair2.rs:95-136) and the sort by x are left out.
- ClosestPair.ParseFloat: a non-digit character panics in the source; it is modelled as None.
- PointsOfSnow.FromString: lines are sequences of characters, while the source slices bytes (`&inp[0..1]`, `&inp[2..]`). On an ASCII line the two agree; on a non-ASCII line such as `?é5` the source panics because byte 2 is not a character boundary, while the model returns `Query(5)`. Lines are taken to be ASCII.
- Nine.Answer: requires q ≥ 1. At q = 0 the source's `query - 1` underflows `u64` (a panic in a debug build), which is not modelled.
- Bokforing.Solve: person ids must lie in 1..=n, since the source panics otherwise. RESTART's amount is a `usize` in the source and an `int` here.
- TiredTerry.CountTired: requires |line| == n and 1 ≤ p ≤ n, which the problem guarantees. Other inputs are not modelled. A non-empty line of another length is cycled by the source and still gives a count. An empty line with n ≥ 1 panics on the slice `time_period[(n-p)..n]` (line 16). With p = 0, `slept` starts at 0 and the first 'Z' underflows `slept -= time_period[(i+n)-p]` (line 19, a panic in a debug build); without a 'Z' the count is n when d ≥ 1. With p > n, `n - p` underflows.
