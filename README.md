# NegativeDB in Dafny

This project models the core of the Python package NegativeDB. The package is a
"negative database": it never stores a record itself. It stores masked bit
patterns that each disagree with the record somewhere. Membership is then
answered by how many of the record's own patterns the store already holds.

The core has three parts, one Dafny file (or two) each:

- `crc.dfy` (module `Crc`) models `NegativeDB/crc.py`. It is a cyclic
  redundancy check computed as modulo-2 long division over strings of `'0'` and
  `'1'`. The class `Crc` keeps the polynomial as a field that every call
  rewrites with its leading zeros stripped. The division works in place on an
  `array<char>` and is proved against the specification function `Divide`.
  `Divide` returns `None` where Python would raise `IndexError`. That happens
  only when some XOR pass runs past the end of the array. A check value
  shorter than the polynomial's degree makes this possible but not certain:
  with the polynomial `1011`, `crcCheck("0000", "")` is true, while
  `crcCheck("0001", "")` raises. The
  file proves the round trip `Check(b, Remainder(b)) == Some(true)` for every
  input, through XOR-linearity of the division.
- `trie.dfy` (module `TrieStore`) and `trie_query.dfy` (module `TrieQuery`)
  model `NegativeDB/trie.py`. Each node is owned by exactly one parent, so
  nodes are a datatype. A node holds its label, end flag, counter, children
  map, and the children's insertion order (Python dicts iterate in insertion
  order, and `dfs` reports in that order). The class `Trie` holds the root and
  the `output` list. `insert` and `remove` are loops that walk down and then
  rebuild the path upward. The odd behaviours are kept and stated:
  - `find` answers with the end flag of the deepest node it reached.
  - `remove` lowers the counter of the parent of the removed node and cuts off
    the whole subtree.
  - `dfs` stops `MAXDEPTH` = 20 levels below its start node.
- `patterns.dfy` (module `Patterns`) models
  `__generateHardToReverseRecords` of `NegativeDB/db.py`. The method works on
  an `array<char>` for `zlst` and is proved equal to the function `Generate`.
  The lemma `Generated` states that every pattern:
  - is as long as the record;
  - holds only `'*'` and bits;
  - disagrees with the record at some cell where it shows a bit.

  `Generated` also bounds the number of patterns. The contract of the
  function `Round` states the finer shape of one round: `'*'` off the drawn
  indices, a bit on them, and a difference from the record's own revealed
  pattern.
- `db.dfy` (module `NegativeDb`) models class `NegativeDB` of
  `NegativeDB/db.py`. It covers:
  - framing (`zfill` to `l` bits, then the CRC remainder) and `__verify`;
  - `__insert`/`__delete` as loops over the generated set;
  - the counting loop of `__find`, and `__isEmpty`;
  - the public `Insert`, `Find` and `Delete`.

  `__isEmpty` as written never sees a stored pattern (see "## Findings").
  The model therefore has two versions of the find path:
  - `FindRecordAsWritten`, `FindAsWritten` and `AnswerAsWritten` use the
    three queries of `__isEmpty`, as the source does.
  - `FindRecord`, `Find` and `Answer` use the corrected test `NoPatterns`: no
    pattern stored at all.

  The main results:
  - With the corrected test, `Find(text)` right after `Insert(text)` answers
    true (`InsertThenFind`).
  - As written, on a fresh database, `Find(text)` right after `Insert(text)`
    answers false (`InsertThenFindAsWritten`).
  - `Delete(text)` regenerates exactly the patterns `Insert(text)` stored
    (`DeleteRegeneratesInserted`).
  - Inserting into a fresh store and then deleting the same patterns leaves a
    store that holds nothing (`InsertThenDeleteIsEmpty`).

Randomness becomes a parameter. `random.seed(SEED)` is run at the start of
every generation, so a call sees the same draws whatever happened before. The
model therefore passes a fixed `stream: nat -> nat`, and every generation
starts reading it at position 0. `randint(0, n - 1)` is `stream(p) % n`, and
`random()` is `(stream(p) % 2^53) / 2^53` as an exact real. Each call to
either takes one draw.

The text encoder `TEXTHANDLER.ConvertAlphabetsToBinary` is not part of this
model. It becomes a function parameter `encode`, assumed to return binary
strings.

Errors that Python raises become `Result` values of type `Fault`:
- `TooLong(size, limit)` is the `Exception` of `__prepInput`.
- `EmptyRange` is `randint(0, -1)` on an empty record.
- `DivisionByZero` is `match / len(ndbRecords)` with no patterns.
- `NoFlip` is raised when the fuel `maxPasses` of the inner flip loop runs out.

The settings namedtuple `Param(l, r, k, q, matchRatio)` of
`NegativeDB/db.py:29-33` is the datatype `Patterns.Param`, and its defaults
(1000, 5.5, 650, 0.5, 0.9) are the constant `Patterns.DefaultParam`. Neither is
a function, method or lemma, so neither has a row below. The constructor
`NegativeDb.NegativeDB.constructor` states that a new database stores them.

## Model

| member | source | states |
|---|---|---|
| `Crc.Xor` | NegativeDB/crc.py:20-21 | definition of one cell of a pass, `str(int(poly[i] != cell))`: `'1'` when the two digits differ, `'0'` when they agree |
| `Crc.StripZeros` | NegativeDB/crc.py:13 | the result is a suffix of the input, everything cut off is `'0'`, and the result does not start with `'0'` |
| `Crc.StrippedPoly` | NegativeDB/crc.py:13-27 | for a binary polynomial with a `'1'`, the stripped polynomial starts with `'1'`, is binary, and stripping it again changes nothing (idempotent across calls) |
| `Crc.DefaultPolyDegree` | NegativeDB/crc.py:6-16 | the default polynomial stripped has 23 bits, so remainders are 22 bits long |
| `Crc.FirstOne` | NegativeDB/crc.py:17-18 | the index found is the first `'1'` among the first `n` cells, or `n` when there is none |
| `Crc.XorAt` | NegativeDB/crc.py:19-21 | definition of one pass: the array with the polynomial XOR-ed in at `curShift`, every other cell kept; `XorAtAdvances` and `DivideLinear` state its properties |
| `Crc.XorAtAdvances` | NegativeDB/crc.py:17-21 | one XOR pass at the first `'1'` moves the first `'1'` strictly right (the division terminates) |
| `Crc.Divide` | NegativeDB/crc.py:16-35 | the division is defined (no out-of-range write) whenever there are at least `len(poly) - 1` cells after the input region; the array keeps its length; the input region ends with no `'1'`; binary cells stay binary |
| `Crc.Remainder` | NegativeDB/crc.py:9-23 | the remainder has length `len(poly) - 1` |
| `Crc.Check` | NegativeDB/crc.py:25-37 | the check is defined (no `IndexError`) whenever the check value has at least `len(poly) - 1` bits |
| `Crc.DivideLinear` | NegativeDB/crc.py:17-21 | two arrays that agree on the input region divide alike, and their tails XOR to the XOR of the original tails |
| `Crc.CheckedRemainder` | NegativeDB/crc.py:9-37 | checking a padded remainder divides the input followed by that remainder without error, the trailing cells change alike in both divisions, and each trailing cell of the check division comes out as the pad digit |
| `Crc.RoundTrip` | NegativeDB/crc.py:9-45 | `crcCheck(b, crcRemainder(b))` is true for every input `b` and every binary polynomial with a leading `'1'` |
| `Crc.OnePaddingFailsCheck` | NegativeDB/crc.py:9-37 | a remainder computed with pad `'1'` never passes `crcCheck` when the polynomial has degree at least 1 |
| `Crc.FirstOneIn` | NegativeDB/crc.py:17-18 | the loop finds the first `'1'` among the first `n` array cells, as `FirstOne` does |
| `Crc.DivideInPlace` | NegativeDB/crc.py:16-21 | the in-place loop succeeds exactly when `Divide` is defined, and then leaves the array equal to `Divide`'s result |
| `Crc.ToArray` | NegativeDB/crc.py:16 | `list(...)` of the padded input: a fresh array holding exactly the string's characters |
| `Crc.DivideWithPadding` | NegativeDB/crc.py:14-23 | pads, divides in place, and returns the tail, which is `Remainder` |
| `Crc.DivideWithCheckValue` | NegativeDB/crc.py:28-37 | appends the check value, divides in place, and returns `Check` |
| `Crc.Crc.constructor` | NegativeDB/crc.py:6-7 | the object stores the given polynomial |
| `Crc.Crc.CrcRemainder` | NegativeDB/crc.py:9-23 | `polyBin` is rewritten stripped, and the result is the remainder of length `len(polyBin) - 1` |
| `Crc.Crc.CrcCheck` | NegativeDB/crc.py:25-37 | `polyBin` is rewritten stripped, and the result is `Check`, defined whenever the check value is long enough |
| `TrieStore.NewNode` | NegativeDB/trie.py:8-21 | definition of `TrieNode(char)`: the given label, not an end, counter 0, no children |
| `TrieStore.WalkAppend` | NegativeDB/trie.py:82-84 | walking `u + v` is walking `u` and then `v` |
| `TrieStore.ChildOrNew` | NegativeDB/trie.py:33-43 | definition of the node `__insert` moves to: the existing child for the character, or a fresh `TrieNode(char)`; `InsertedWalk` states its effect |
| `TrieStore.Attach` | NegativeDB/trie.py:40 | definition of `node.children[char] = new_node` on a value: the child stored under its key, a new key appended to the dict's iteration order; `AttachWellFormed` states what it keeps |
| `TrieStore.Inserted` | NegativeDB/trie.py:64-77 | definition of the trie after `insert(w)`; `InsertedWellFormed`, `InsertedWalk` and `InsertThenFound` state what it does |
| `TrieStore.InsertedWellFormed` | NegativeDB/trie.py:33-77 | insertion keeps every children map keyed by the child's label and the insertion order in step with the map |
| `TrieStore.AttachWellFormed` | NegativeDB/trie.py:33-43 | storing a well-formed child under its own label keeps the parent's children map and iteration order in step |
| `TrieStore.InsertedWalk` | NegativeDB/trie.py:33-77 | after `insert(w)` the paths are the old ones plus the prefixes of `w`; `w` is marked as a word and its counter is one higher; every other node keeps its flag and counter; paths off `w` are unchanged |
| `TrieStore.InsertThenFound` | NegativeDB/trie.py:64-89 | after `insert(w)`, `find(w)` is true |
| `TrieStore.InsertedRepeatedly` | NegativeDB/trie.py:33-77 | inserting `w` k times adds no path beyond the prefixes of `w`, and leaves `w` marked with its counter raised by k |
| `TrieStore.Reached` | NegativeDB/trie.py:81-87 | the depth reached is the longest prefix of the word that has a path |
| `TrieStore.Found` | NegativeDB/trie.py:79-89 | definition of `find(w)`: follow `w` while children exist, then the end flag of the node reached; `FoundIsDeepestFlag`, `FoundAtNode` and `FoundFresh` state what it answers |
| `TrieStore.FoundIsDeepestFlag` | NegativeDB/trie.py:79-89 | `find(w)` is the end flag of the node for the longest prefix of `w` that exists |
| `TrieStore.FoundAtNode` | NegativeDB/trie.py:79-89 | when the whole path of `w` exists, `find(w)` is that node's end flag |
| `TrieStore.FoundFresh` | NegativeDB/trie.py:79-89 | a fresh trie answers `find` with false for every word |
| `TrieStore.Detach` | NegativeDB/trie.py:102 | definition of `del node.children[c]`: the key leaves the dict and its iteration order; `RemovedWellFormed` and `RemovedWalk` state its effect |
| `TrieStore.Removed` | NegativeDB/trie.py:91-105 | definition of `remove(w)`: whether it succeeded and the trie afterwards; `RemovedIff`, `RemovedWalk`, `RemovedWellFormed` and `RemovedThenFound` state what it does |
| `TrieStore.RemovedWellFormed` | NegativeDB/trie.py:91-105 | removal keeps the children maps and their insertion order consistent |
| `TrieStore.RemovedIff` | NegativeDB/trie.py:91-105 | `remove(w)` answers true exactly when the path of `w` exists, and otherwise changes nothing |
| `TrieStore.RemovedWalk` | NegativeDB/trie.py:100-103 | after a successful `remove(w)`, every path through `w` is gone; the node for `w[:-1]` has its counter one lower and loses the child `w[-1]`; nodes above it keep their flags and counters; paths off `w` are unchanged |
| `TrieStore.RemovedThenFound` | NegativeDB/trie.py:79-103 | after a successful `remove(w)`, `find(w)` is the end flag of the node for `w[:-1]` |
| `TrieStore.Collected` | NegativeDB/trie.py:134-148 | definition of what `dfs(node, prefix, depth)` appends: nothing at depth 20, else the node's own entry if it ends a word, then each child's report in insertion order; `CollectedSound` and `CollectedComplete` state what it contains |
| `TrieStore.CollectedChildren` | NegativeDB/trie.py:147-148 | definition of what the loop over the children appends, for the first keys of the iteration order; `CollectedChildrenSound` and `CollectedChildrenContain` state what it contains |
| `TrieStore.SortedByCount` | NegativeDB/trie.py:172 | the sort keeps the same entries (as a multiset) and orders them by counter, high to low |
| `TrieStore.InsertByCount` | NegativeDB/trie.py:172 | inserting one entry into a list sorted by counter (high to low) keeps it sorted, and the head of the result is the new entry or the old head |
| `TrieStore.InsertByCountPermutes` | NegativeDB/trie.py:172 | that insertion adds exactly the one entry (as a multiset) |
| `TrieStore.PlacedAt` | NegativeDB/trie.py:172 | definition of where an insertion step puts an entry: at index `k`, after the entries whose counters are higher and before the first one whose counter is not |
| `TrieStore.InsertByCountPlaces` | NegativeDB/trie.py:172 | the entry goes in right before the first entry whose counter is not higher, so it lands in front of the entries it ties with; since `SortedByCount` inserts from the back, equal counters keep their original order, as Python's stable `sorted(..., reverse=True)` does |
| `TrieStore.InsertByCountBehind` | NegativeDB/trie.py:172 | past an entry with a higher counter, the insertion keeps that entry in front and goes on in the tail |
| `TrieStore.DropLast` | NegativeDB/trie.py:169 | definition of `x[:-1]`: all but the last character, and the empty string for the empty string |
| `TrieStore.Queried` | NegativeDB/trie.py:150-172 | the result of `query` is ordered by counter, high to low |
| `TrieStore.QueryOutput` | NegativeDB/trie.py:157-169 | definition of what `query(x)` leaves in `output`: the `dfs` list of the node for `x`, or the empty list when `x` has no path |
| `TrieStore.Trie.constructor` | NegativeDB/trie.py:26-31 | a new trie has only the root, labelled with the empty string |
| `TrieStore.Trie.Insert` | NegativeDB/trie.py:64-77 | the loop leaves the root equal to `Inserted(old root, word)` and keeps the trie well formed |
| `TrieStore.Trie.Find` | NegativeDB/trie.py:79-89 | the loop answers `Found(root, word)` |
| `TrieStore.Trie.PathTo` | NegativeDB/trie.py:93-97 | the loop over `word[:-1]` succeeds exactly when the path exists, and then returns the node at each depth of the path |
| `TrieStore.Trie.Reattached` | NegativeDB/trie.py:100-103 | lowering the counter and deleting the child at the end of the path, then storing each changed node back into its parent, gives the root `Removed` describes |
| `TrieStore.Trie.Remove` | NegativeDB/trie.py:91-105 | the loop answers and leaves the root as `Removed(old root, word)` and keeps the trie well formed |
| `TrieStore.Trie.Dfs` | NegativeDB/trie.py:134-148 | `output` is extended by exactly what `Collected` reports for the node |
| `TrieStore.Trie.DfsChildren` | NegativeDB/trie.py:147-148 | the loop over the children extends `output` by exactly what `CollectedChildren` reports |
| `TrieStore.Trie.Query` | NegativeDB/trie.py:150-172 | the answer is `Queried(root, x)`, and `output` is left as `QueryOutput(root, x)` |
| `TrieQuery.CollectedSound` | NegativeDB/trie.py:142-148 | `dfs` reports only words stored below its start node, fewer than `MAXDEPTH - depth` levels deeper, each with its counter |
| `TrieQuery.CollectedComplete` | NegativeDB/trie.py:142-148 | `dfs` reports every word stored fewer than `MAXDEPTH - depth` levels below its start node |
| `TrieQuery.QueriedSound` | NegativeDB/trie.py:134-172 | every pair `query(x)` lists is a stored word starting with `x`, fewer than 20 characters longer, with its counter; so `query(x)` is empty when the path of `x` is missing |
| `TrieQuery.QueriedComplete` | NegativeDB/trie.py:134-172 | every stored word starting with `x` and fewer than 20 characters longer is listed with its counter |
| `TrieQuery.RemovedThenQueriedEmpty` | NegativeDB/trie.py:91-166 | after a successful `remove(w)`, `query(w)` is empty |
| `TrieQuery.QueriedFresh` | NegativeDB/trie.py:150-172 | a fresh trie answers every query with the empty list |
| `Patterns.Uniform` | NegativeDB/db.py:72 | a `random()` draw lies in `[0, 1)` |
| `Patterns.Flipped` | NegativeDB/db.py:72 | definition of the test `q <= random.random()` on one draw |
| `Patterns.Rounds` | NegativeDB/db.py:49-62 | the outer loop runs the least number of times that is at least `len(sBin) * r` |
| `Patterns.RoundsTest` | NegativeDB/db.py:62 | the loop test `len(nDBLst) < nLen` is the same as comparing the count with `Rounds` |
| `Patterns.BelowTarget` | NegativeDB/db.py:62 | the real-valued loop test answers `count < Rounds(n, r)` |
| `Patterns.Gamma` | NegativeDB/db.py:63 | `k` indices are drawn, each below `len(sBin)` |
| `Patterns.Revealed` | NegativeDB/db.py:53-65 | the revealed pattern is as long as the record |
| `Patterns.Negate` | NegativeDB/db.py:55-73 | negation turns a bit into the other bit |
| `Patterns.FlipPass` | NegativeDB/db.py:71-73 | a pass of flips keeps `'*'` off the drawn indices and bits on them |
| `Patterns.Flips` | NegativeDB/db.py:67-74 | when the flip loop ends, the pattern keeps its shape and differs from the pattern before flipping; it fails only with `NoFlip` |
| `Patterns.Round` | NegativeDB/db.py:63-74 | one round yields a pattern shaped by the drawn indices that differs from the record's revealed pattern; a round on an empty record cannot succeed |
| `Patterns.ShapedDiffers` | NegativeDB/db.py:64-74 | a shaped pattern that differs from the revealed one is a pattern of the record that disagrees with it at a drawn bit |
| `Patterns.GenFrom` | NegativeDB/db.py:62-79 | the loop appends exactly the requested number of patterns, each a pattern of the record that does not match it |
| `Patterns.Generate` | NegativeDB/db.py:36-84 | definition of `__generateHardToReverseRecords`: the rounds `GenFrom` draws, deduplicated into a set; `Generated` states what it returns |
| `Patterns.SetOfSeqSize` | NegativeDB/db.py:82 | deduplication never makes the collection larger |
| `Patterns.Generated` | NegativeDB/db.py:49-84 | every returned pattern is nonempty, as long as the record, made of `'*'` and bits, and disagrees with the record at a cell where it shows a bit; there are at most `Rounds` patterns; the set is empty exactly when `len(sBin) * r <= 0` |
| `Patterns.RevealInto` | NegativeDB/db.py:64-65 | the loop writes the record's bits at the drawn indices into `zlst` |
| `Patterns.FlipInPlace` | NegativeDB/db.py:71-73 | one pass over the drawn indices flips `zlst` in place as `FlipPass` says |
| `Patterns.FlipUntilChanged` | NegativeDB/db.py:67-74 | the `while prevzBin == curzBin` loop gives what `Flips` gives |
| `Patterns.DrawPattern` | NegativeDB/db.py:63-79 | one outer round gives what `Round` gives |
| `Patterns.GenerateHardToReverse` | NegativeDB/db.py:36-84 | the method returns `Generate(sBin, ...)`; every returned pattern is a pattern of the record that disagrees with it |
| `NegativeDb.ZFill` | NegativeDB/db.py:113 | `zfill` pads with `'0'` on the left up to the width and never shortens |
| `NegativeDb.Frame` | NegativeDB/db.py:112-115 | definition of the framed record: the zero-filled encoding followed by its CRC remainder under the stripped polynomial; `FrameShape` and `FrameVerifies` state its properties |
| `NegativeDb.FrameShape` | NegativeDB/db.py:112-115 | the framed record is binary, `l` bits (or the encoding's length, if longer) plus the remainder's length, and starts with the zero-filled encoding |
| `NegativeDb.Verified` | NegativeDB/db.py:86-98 | definition of `__verify`: the CRC check of the first `l` bits against the rest; `FrameVerifies` states that framed records pass |
| `NegativeDb.FrameVerifies` | NegativeDB/db.py:86-115 | when the encoding fits in `l` bits, `__verify` of the framed record is true |
| `NegativeDb.Prepared` | NegativeDB/db.py:100-117 | definition of `__prepInput`: `TooLong` for a text of more than `l // 8` characters, otherwise the framed record; `PreparedIgnoresLeadingZeros` states that the stripped polynomial frames alike |
| `NegativeDb.PreparedIgnoresLeadingZeros` | NegativeDB/db.py:100-117 | framing with the stripped polynomial gives the same record as with the unstripped one |
| `NegativeDb.Records` | NegativeDB/db.py:119-135 | definition of the patterns `Insert(text)` and `Delete(text)` produce: the prepared record turned into patterns, errors passed on; `DeleteRegeneratesInserted` and `InsertThenFind` use it |
| `NegativeDb.InsertSeq` | NegativeDB/db.py:130-131 | definition of the trie after `insert` of each pattern in turn; `InsertSeqEffect` states its effect |
| `NegativeDb.InsertSeqEffect` | NegativeDB/db.py:130-131 | inserting a list of patterns stores exactly those words in addition to the old ones, raising each counter by its multiplicity |
| `NegativeDb.RemovedShrinks` | NegativeDB/db.py:208-209 | one removal adds no path and no word, and removes the path of the word itself |
| `NegativeDb.RemoveSeq` | NegativeDB/db.py:208-209 | definition of the trie after `remove` of each pattern in turn; `RemoveSeqEffect` states its effect |
| `NegativeDb.RemoveSeqEffect` | NegativeDB/db.py:208-209 | removing a list of patterns adds no word and leaves no path for any removed pattern |
| `NegativeDb.StoredAnyEnd` | NegativeDB/db.py:189-195 | a store holding a word has a node with its end flag set |
| `NegativeDb.AnyEndStored` | NegativeDB/db.py:189-195 | a node with its end flag set means some word is stored |
| `NegativeDb.NoPatterns` | NegativeDB/db.py:189-195 | definition of the corrected emptiness test: no word stored under the root's children `'*'`, `'0'` and `'1'`; `NoPatternsIff` states what it means |
| `NegativeDb.EmptyByQueries` | NegativeDB/db.py:189-195 | definition of `__isEmpty` as written: `query("*")`, `query("0")` and `query("1")` are all empty; `DeepPatternsLookEmpty` states when it is true |
| `NegativeDb.LastEmptinessQuery` | NegativeDB/db.py:190-193 | definition of the last query `__isEmpty` runs: the first of `"*"`, `"0"` and `"1"` whose answer is not empty, else `"1"` |
| `NegativeDb.LastQueryAt` | NegativeDB/db.py:190-193 | when the queries before a given one answered nothing and it answered something (or it is the third), it is the last query `__isEmpty` runs |
| `NegativeDb.NoPatternsIff` | NegativeDB/db.py:189-195 | the corrected emptiness test holds exactly when no stored word starts with `'*'`, `'0'` or `'1'` |
| `NegativeDb.QueryMissesDeepWords` | NegativeDB/trie.py:134-172 | when every stored word is longer than 20 characters, a one-character query reports nothing |
| `NegativeDb.DeepPatternsLookEmpty` | NegativeDB/db.py:189-195 | when every stored word is longer than 20 characters, `__isEmpty` as written answers true |
| `NegativeDb.FoundAmongAdd` | NegativeDB/db.py:179-180 | counting one more pattern adds one exactly when `find` accepts it |
| `NegativeDb.Matching` | NegativeDB/db.py:178-180 | the match count is at most the number of patterns |
| `NegativeDb.FreshStoresNothing` | NegativeDB/trie.py:31 | a fresh store holds no word |
| `NegativeDb.MatchingAll` | NegativeDB/db.py:178-180 | when every pattern is stored, every pattern matches |
| `NegativeDb.Decide` | NegativeDB/db.py:159-187 | definition of `__find` once the emptiness test has answered: false on an empty store, otherwise whether the share of the record's patterns that `find` accepts exceeds `matchRatio`, with `DivisionByZero` for no patterns; `InsertThenDecide` and `InsertThenDecideAsWritten` state what it answers |
| `NegativeDb.Answer` | NegativeDB/db.py:226-239 | definition of `Find(text)` with the corrected emptiness test: `TooLong` for a refused text, otherwise `Decide` on the framed record with `NoPatterns`; `InsertThenFind` states what it answers |
| `NegativeDb.AnswerAsWritten` | NegativeDB/db.py:226-239 | definition of `Find(text)` as written: `Decide` on the framed record with `EmptyByQueries`; `InsertThenFindAsWritten` states what it answers |
| `NegativeDb.InsertThenDecide` | NegativeDB/db.py:159-187 | after inserting all patterns of a record, `__find` (with the corrected emptiness test) answers true |
| `NegativeDb.InsertThenDecideAsWritten` | NegativeDB/db.py:171-195 | on a fresh store, after inserting all patterns of a record longer than 20 bits, `__find` with `__isEmpty` as written answers false |
| `NegativeDb.InsertThenDeleteStoresNothing` | NegativeDB/db.py:119-211 | inserting into a fresh store and then deleting the same patterns leaves no word stored |
| `NegativeDb.InsertThenDeleteIsEmpty` | NegativeDB/db.py:119-211 | inserting into a fresh store and then deleting the same patterns leaves a store the corrected emptiness test calls empty |
| `NegativeDb.DeleteRegeneratesInserted` | NegativeDB/db.py:60-84 | `Delete(text)` generates the same set of patterns as the earlier `Insert(text)`, even though the first call stripped the polynomial |
| `NegativeDb.InsertThenFind` | NegativeDB/db.py:213-239 | with the corrected emptiness test (`Answer`), `Find(text)` right after `Insert(text)` answers true |
| `NegativeDb.InsertThenFindAsWritten` | NegativeDB/db.py:213-239 | as written (`AnswerAsWritten`), on a fresh database with `l` above 20, `Find(text)` right after `Insert(text)` answers false |
| `NegativeDb.NegativeDB.constructor` | NegativeDB/db.py:25-33 | a new database has the default polynomial, an empty trie and the settings `(1000, 5.5, 650, 0.5, 0.9)` |
| `NegativeDb.NegativeDB.PrepInput` | NegativeDB/db.py:100-117 | fails with `TooLong` when the text has more than `l // 8` characters, without touching the polynomial; otherwise returns the framed record |
| `NegativeDb.NegativeDB.VerifyRecord` | NegativeDB/db.py:86-98 | the answer is the CRC check of the first `l` bits against the rest |
| `NegativeDb.NegativeDB.InsertEach` | NegativeDB/db.py:130-131 | the loop inserts every pattern of the set once, in some order |
| `NegativeDb.NegativeDB.InsertRecord` | NegativeDB/db.py:119-135 | generates the record's patterns and inserts each one; on a generation error the trie is unchanged |
| `NegativeDb.NegativeDB.RemoveEach` | NegativeDB/db.py:208-209 | the loop removes every pattern of the set once, in some order |
| `NegativeDb.NegativeDB.DeleteRecord` | NegativeDB/db.py:197-211 | generates the record's patterns and removes each one; on a generation error the trie is unchanged |
| `NegativeDb.NegativeDB.MatchCount` | NegativeDB/db.py:178-180 | the counting loop gives the number of patterns `find` accepts |
| `NegativeDb.NegativeDB.IsEmptyAsWritten` | NegativeDB/db.py:189-195 | the three queries answer `EmptyByQueries`, the trie's root is unchanged, and `output` is left as the last query left it, `QueryOutput(root, LastEmptinessQuery(root))` |
| `NegativeDb.NegativeDB.IsEmpty` | NegativeDB/db.py:189-195 | the corrected test answers `NoPatterns` |
| `NegativeDb.NegativeDB.DecideByRatio` | NegativeDB/db.py:175-187 | generating the record's patterns, counting the ones `find` accepts and comparing the share with `matchRatio` gives `Decide` for a non-empty store, with the generation and division errors passed on |
| `NegativeDb.NegativeDB.FindRecordAsWritten` | NegativeDB/db.py:159-187 | `__find` as written: the answer is `Decide` with the emptiness test `EmptyByQueries` of `__isEmpty`; the trie's root is unchanged, and `output` is left as the last query of `__isEmpty` left it |
| `NegativeDb.NegativeDB.FindRecord` | NegativeDB/db.py:159-187 | `__find` with the corrected emptiness test `NoPatterns`, not `__isEmpty` as written (that is `FindRecordAsWritten`): the answer is `Decide`, false on a store with no pattern, otherwise whether the match ratio exceeds `matchRatio`, with the generation and division errors passed on |
| `NegativeDb.NegativeDB.Insert` | NegativeDB/db.py:213-224 | an overlong text fails with nothing changed; otherwise the record's patterns are all inserted and returned |
| `NegativeDb.NegativeDB.FindAsWritten` | NegativeDB/db.py:226-239 | `Find` as written: the answer is `AnswerAsWritten` for the text; the polynomial is stored stripped and `output` is left by the last query of `__isEmpty`, unless the text is refused, in which case neither changes; the trie's root is unchanged |
| `NegativeDb.NegativeDB.Find` | NegativeDB/db.py:226-239 | `Find` with the corrected emptiness test, not `__isEmpty` as written (that is `FindAsWritten`): the answer is `Answer` for the text; the trie is unchanged |
| `NegativeDb.NegativeDB.Delete` | NegativeDB/db.py:241-252 | an overlong text fails with nothing changed; otherwise the record's patterns are all removed and returned |

## Left out

- `code.js` is not part of this model. It is floating-point Hadamard and sketch
  code built on `Math.random` and an external matrix library.
- `TEXTHANDLER.ConvertAlphabetsToBinary` (NegativeDB/db.py:4,112) is not part of
  this model. It becomes the parameter `encode`, assumed to return `'0'`/`'1'`
  strings.
- Python's Mersenne Twister is replaced by an arbitrary fixed stream of
  naturals, read from position 0 on every generation (the reseed with `SEED`).
  The model proves nothing about the particular numbers `SEED = 2023` gives.
- Floats are exact reals. `nLen = len(sBin) * r`, `random()` and the match ratio
  carry no rounding in the model.
- `Patterns.Flips`: the flip loop of NegativeDB/db.py:70-74 has no bound in
  Python and spins forever if no draw ever flips a bit. The model gives it the
  fuel `maxPasses` and fails with `NoFlip` when the fuel runs out.
- `Crc.Crc.CrcRemainder` and `Crc.Crc.CrcCheck` require a binary polynomial that
  contains a `'1'`. An all-zero polynomial strips to the empty string. The
  source's `while` loop then never ends if the input region holds a `'1'`; on
  an all-`'0'` input it returns the empty remainder (or `True` from
  `crcCheck`). The model covers neither case.
- `Patterns.GenerateHardToReverse` requires a binary record. On a non-binary
  character the source would raise `KeyError` in `negateBit`. Framed records are
  always binary.
- `NegativeDb.ZFill` does not model `zfill`'s special handling of a leading
  sign character. The encodings are binary and have none.
- `TrieStore.Trie.Remove` requires a nonempty word. On the empty word the source
  raises `IndexError`. Every caller removes patterns, which are never empty.
- Object identity: trie nodes are values, owned by one parent each. No node
  reference escapes the trie in the source, so no aliasing is lost.
- The iteration order of a Python `set` in `__insert` and `__delete` is not
  known. The model picks the elements in an unspecified order and records that
  order as a ghost result.
- Dead code: `insert2`, `remove2` (NegativeDB/trie.py:45-62,107-132) and
  `__find2` (NegativeDB/db.py:137-157) are never called and are not modelled.
- The `__main__` demo blocks, the prints, and the pickling to disk noted at
  NegativeDB/db.py:134 are I/O and are not modelled.

## Findings

| source | as written | input that shows it | evidently intended | confidence | as-written member | corrected member |
|---|---|---|---|---|---|---|
| NegativeDB/db.py:189-195 with NegativeDB/trie.py:4,142-143 | `__isEmpty` runs `query("*")`, `query("0")` and `query("1")`. `dfs` stops 20 levels below the start node, so these queries see only words of at most 20 characters. A framed record is 1000 + 22 bits, so every stored pattern has 1022 characters and none is ever seen. `__isEmpty` is therefore always true, and `__find`/`Find` always answers false. | a fresh `NegativeDB()`, then `Insert(t)` and `Find(t)` for any text `t` of at most 125 characters: `Find` returns false | the store counts as empty only when it holds no pattern at all, so `Find(t)` right after `Insert(t)` is true | high (proved in the model; not executed) | `NegativeDb.InsertThenDecideAsWritten` (with `NegativeDb.InsertThenFindAsWritten`, `NegativeDb.DeepPatternsLookEmpty`, `NegativeDb.NegativeDB.IsEmptyAsWritten`, `NegativeDb.NegativeDB.FindAsWritten`) | `NegativeDb.InsertThenDecide` (with `NegativeDb.NoPatternsIff`, `NegativeDb.NegativeDB.IsEmpty`, `NegativeDb.InsertThenFind`, `NegativeDb.NegativeDB.Find`) |
