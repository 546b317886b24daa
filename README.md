# prefix: a GiST operator class for prefix matching, in Dafny

This project models `prefix.c`, a PostgreSQL GiST operator class that indexes a
table of prefixes (telephony routing is the motivating use). Every key is a
plain `text` value, seen here as a byte string. The model covers:

- the longest common prefix of two keys (`greater_prefix_internal`);
- the containment test `prefix @> query`, its commutator `query <@ prefix`, and
  the GiST `consistent` function built on it;
- the GiST `same` and `penalty` support functions;
- the GiST `union` and `picksplit` support functions, which work on an entry
  vector.

Modules:

- `PrefixText` (`prefix_text.dfy`) holds the byte strings and the prefix
  relation `IsPrefix`. `Lcp` is the longest common prefix, defined recursively
  with its characterising contract. `LcpAll` folds `Lcp` over a vector.
  `GreaterPrefix` is the counting loop of `greater_prefix_internal`, proved
  equal to `Lcp`.
- `PrefixOps` (`prefix_ops.dfy`) holds containment, consistent, same and
  penalty as functions, with lemmas relating them.
- `PrefixGist` (`prefix_gist.dfy`) holds `Union`, a method over the entry
  vector, which is an array of keys. `SplitVec` is a class standing for
  `GIST_SPLITVEC`, whose fields `PickSplit` fills in. The two loops of
  picksplit are `FillLeft` and `FillRight`, and they write into fresh arrays.

Later releases of this index use a range key `prefix[first-last]`, intersection
and overlap operators, a presort pass, a penalty of the form
`dist / 256^gplen`, and penalty-driven or median splits. The code modelled here
has none of these: its keys are plain strings, its penalty is an integer
expression, and its picksplit cuts the vector at the midpoint. Where those later
releases differ, the model follows `prefix.c`.

## Model

| member | source | states |
|---|---|---|
| `PrefixText.Lcp` | prefix.c:97-113 | the result is a prefix of both inputs, and it either exhausts one input or stops where the next bytes of the two differ |
| `PrefixText.LcpGreatest` | prefix.c:106-112 | every common prefix of the two inputs is a prefix of the result, so no longer common prefix exists |
| `PrefixText.LcpUnique` | prefix.c:106-112 | any common prefix that cannot be extended is the longest common prefix |
| `PrefixText.LcpEmptyIff` | prefix.c:106-110 | the result is empty exactly when either input is empty or the first bytes differ |
| `PrefixText.LcpCommutes` | prefix.c:97-113 | the common prefix does not depend on the order of the arguments |
| `PrefixText.LcpOfPrefix` | prefix.c:106-112 | when one key is a prefix of the other (or equal to it), the result is that key |
| `PrefixText.GreaterPrefix` | prefix.c:97-122 | the counting loop, followed by the empty text or the first `i` bytes of `a`, returns exactly the longest common prefix |
| `PrefixText.LcpAll` | prefix.c:305-315 | folding the common prefix over a vector in order gives a prefix of every key in it |
| `PrefixText.LcpAllGreatest` | prefix.c:305-315 | every common prefix of all the keys is a prefix of the fold, together with `LcpAll`'s own contract this makes the union the least upper bound: every key that `@>` all entries `@>` the union |
| `PrefixText.LcpAllSameElements` | prefix.c:305-315 | the fold depends only on which keys occur, not on their order or repetition |
| `PrefixText.LcpAllRepeatedHead` | prefix.c:262-266 | folding the seed key in a second time, as the right-side loop does, changes nothing |
| `PrefixOps.ContainsInternal` | prefix.c:51-68 | equal texts give `eqval`; otherwise the result is true exactly when the query starts with the prefix, and it is false whenever the query is shorter |
| `PrefixOps.Contains` | prefix.c:73-80 | `prefix @> query` holds exactly when the query starts with the prefix, equal texts included |
| `PrefixOps.ContainedBy` | prefix.c:85-92 | `query <@ prefix` equals `prefix @> query` and holds exactly when the query starts with the prefix |
| `PrefixOps.ContainsTransitive` | prefix.c:73-80 | containment is transitive |
| `PrefixOps.Consistent` | prefix.c:129-146 | as written, consistent is true exactly when the index key starts with the query, i.e. `key <@ query` |
| `PrefixOps.Same` | prefix.c:346-359 | same is byte equality: equal lengths and equal bytes at every position |
| `PrefixOps.SameIffMutualContainment` | prefix.c:346-359 | two keys are the same exactly when each contains the other |
| `PrefixOps.SignedChar` | prefix.c:200 | the `(int)` cast of a `char` gives a value in -128..127 that agrees with the byte modulo 256 |
| `PrefixOps.Penalty` | prefix.c:157-214 | the penalty is 0 for equal keys, never below `-len(new)`, and never above `len(new) + 255` |
| `PrefixOps.PenaltyDecomposes` | prefix.c:189-202 | for unequal keys the penalty is `(nlen - gplen) + lastcd - gplen`, with `lastcd` in 0..255 and 0 unless `nlen - gplen == 1` |
| `PrefixOps.PenaltyOfStrictPrefix` | prefix.c:189-202 | a new key that is a strict prefix of the original gets the negative penalty `-len(new)` |
| `PrefixOps.PenaltyPrefersLongerCommonPrefix` | prefix.c:184-202 | outside the one-byte-distance case, a branch sharing a longer common prefix with the new key gets a strictly lower penalty |
| `PrefixOps.PenaltyDependsOnBytesPastEnd` | prefix.c:197-201 | in the one-byte-distance case the penalty changes with the bytes stored past the ends of the keys |
| `PrefixOps.PenaltyPastEndMisordersExample` | prefix.c:197-201 | with the same byte past the new key 125 in both calls and different bytes past the branch keys, the 124 branch costs more than the 128 branch |
| `PrefixOps.PenaltyAtDivergence` | prefix.c:184-202 | the corrected penalty is 0 for equal keys and never below `-len(new)` |
| `PrefixOps.PenaltyAtDivergencePrefersCloserByte` | prefix.c:184-187 | with equal common prefixes and one-byte distance, the branch whose diverging byte is closer gets the lower corrected penalty |
| `PrefixOps.PenaltyAtDivergenceDistanceOutweighsPrefix` | prefix.c:184-202 | with the corrected penalty, a branch sharing all but the last byte of the new key costs more than a branch sharing one byte less exactly when its diverging byte is more than 2 away, so the longer common prefix does not always win |
| `PrefixOps.PenaltyAtDivergenceDistanceOutweighsPrefixExample` | prefix.c:184-202 | the new key "125" costs 3 under "129" (common prefix "12") and 1 under "13" (common prefix "1"), so it goes to "13" |
| `PrefixOps.PenaltyAtDivergenceOrdersExample` | prefix.c:148-156 | with the corrected penalty, the new prefix 125 prefers the 124 branch to 128, and 128 to 256 |
| `PrefixOps.ConsistentPrunesMatchingSubtree` | prefix.c:139-143 | as written, for children "12" and "13" the union is "1", and the query "12" is consistent with the leaf "12" but not with its parent "1" |
| `PrefixOps.ContainsUnionSound` | prefix.c:139-143 | with the corrected consistent, `Contains(key, query)`, a parent whose key is the union of its children is consistent whenever one of its children is |
| `PrefixGist.Union` | prefix.c:278-323 | the result is the in-order fold of the common prefix over all entries, a prefix of every entry, and equal to the only entry when there is one |
| `PrefixGist.OffsetsOnce` | prefix.c:256-267 | each offset `lo..hi-1` occurs exactly once in the ascending offset list, and no other offset occurs |
| `PrefixGist.SplitAt` | prefix.c:248 | `split_at` lies in `1..maxoff`, and the right side `split_at..maxoff` is as large as the left side `1..split_at-1` or one larger |
| `PrefixGist.FillLeft` | prefix.c:254-260 | the left list holds offsets `1..split_at-1` in order, and `unionL` is the fold seeded with the key at offset 2 over the left keys |
| `PrefixGist.FillRight` | prefix.c:262-267 | the right list holds offsets `split_at..maxoff` in order, and `unionR` is the longest common prefix of the right keys |
| `PrefixGist.SplitAtMidpoint` | prefix.c:244-272 | both lists are fresh with `maxoff + 2` slots; their counts, their contents (together exactly `1..maxoff` in order) and both summaries are stated |
| `PrefixGist.PickSplit` | prefix.c:222-273 | with `maxoff = n - 2`, the lists together hold `1..n-2` in order; the counts sum to `n - 2` and differ by at most one (right ≥ left); both summaries are stated |
| `PrefixGist.LeftSummarySeed` | prefix.c:254-260 | the seed from offset 2 is harmless when `split_at > 2`, folds in a right-side key when `split_at == 2`, and is the whole summary when `split_at == 1`; the summary is always a prefix of every left key |
| `PrefixGist.PickSplitOmitsLastEntry` | prefix.c:227 | as written, offset `n - 1` is on neither side, while each of `1..n-2` is placed exactly once |
| `PrefixGist.PickSplitAllEntries` | prefix.c:222-273 | the corrected picksplit (`maxoff = n - 1`) places `1..n-1` in order, with counts summing to `n - 1` and differing by at most one |
| `PrefixGist.PickSplitAllEntriesCoversVector` | prefix.c:227 | with `maxoff = n - 1`, every offset `1..n-1` is placed exactly once |

## Left out

- PostgreSQL function-manager glue is not modelled. This covers `PG_FUNCTION_ARGS`, `Datum`, the `PG_GETARG_*` and `PG_RETURN_*` macros, varlena headers, `DirectFunctionCall*`, `textin`, `texteq` and the slice and copy helpers. Texts are byte sequences, `texteq` is sequence equality, and results are return values rather than writes through result pointers.
- `palloc` is not modelled. The offset lists are fresh arrays, and keys are immutable values, so copying (`DatumGetTextPCopy`) and slicing (`DatumGetTextPSlice`) are plain values.
- `elog(NOTICE, …)` tracing under `DEBUG` is left out: it only produces output.
- `gprefix_compress` and `gprefix_decompress` are left out: they return their argument unchanged.
- `Assert(strategy == 1)` in consistent is left out: strategy dispatch is host wiring.
- The SQL wrapper `greater_prefix` is not a separate member: `GreaterPrefix` stands for both it and `greater_prefix_internal`.
- A GiST entry is modelled by its key alone. The other fields of `GISTENTRY` (relation, page, offset, leafkey) are not read by this code.
- PrefixOps.Penalty: the result is the integer expression the code stores into the `float` penalty slot. The float conversion is not modelled.
- PrefixOps.Penalty: the bytes `o[olen]` and `n[nlen]` lie past the end of each key's data, and what memory holds there is unknown. The model takes them as the parameters `origPast` and `newPast`, and it reads `char` as signed, as on x86.
- PrefixOps.PenaltyAtDivergence: it corrects only the past-the-end read and keeps the code's linear `dist + lastcd - gplen`. So in the one-byte-distance case a branch with a longer common prefix can still cost more than one with a shorter prefix, against the comment at prefix.c:185. `PenaltyAtDivergenceDistanceOutweighsPrefix` states exactly when. The code offers no intended formula to correct this to, so the model keeps it.
- `OffsetNumber` is a 16-bit unsigned type in the source, but it is modelled as an unbounded `nat`. An entry vector holds one page of entries, so neither `maxoff`, `n - 2` nor the loop counter can wrap.
- `Union` requires at least one entry, because the code reads `ent[0]` unconditionally. `PickSplit` requires at least three slots, because it reads `ent[2]`. GiST never calls these with fewer.

## Findings

| source | as written | input that shows it | evidently intended | confidence | as-written member | corrected member |
|---|---|---|---|---|---|---|
| prefix.c:227 | `maxoff = entryvec->n - 2`, so the loops stop one offset early | A vector of `n = 4` slots holds entries at offsets 1, 2 and 3. Offsets 1 and 2 are placed, and offset 3 goes to neither side. With two entries (`n = 3`), `split_at == 1`, the left side is empty, offset 2 is placed nowhere, and `unionL` is that unplaced key. | `maxoff = entryvec->n - 1`: a picksplit vector holds its entries at offsets `1..n-1`, and every entry must go to exactly one side | not executed; high | `PrefixGist.PickSplit`, `PrefixGist.PickSplitOmitsLastEntry` | `PrefixGist.PickSplitAllEntries`, `PrefixGist.PickSplitAllEntriesCoversVector` |
| prefix.c:143 | `prefix_contains_internal(query, key, true)`: the query is tested as a prefix of the index key | Leaves "12" and "13" have the union "1". The query "12" is consistent with the leaf "12" but not with the parent "1", so a search skips the subtree that holds a match. | `prefix_contains_internal(key, query, true)`, i.e. `key @> query`, the operator of strategy 1 with the indexed prefix on the left | not executed; medium | `PrefixOps.Consistent`, `PrefixOps.ConsistentPrunesMatchingSubtree` | `PrefixOps.Contains`, `PrefixOps.ContainsUnionSound` |
| prefix.c:200 | `abs(o[olen] - n[nlen])` reads one byte past the end of each key | Take orig "124" and new "125". The penalty depends on the bytes stored after the two strings: both branches are priced against the same new key, so the byte past "125" is the same in both. With byte 100 past "124", and byte 0 past "128" and past "125", the 124 branch costs 99 and the 128 branch costs -1. That is the opposite of the preference the comment at prefix.c:153-154 asks for. | compare the bytes where the keys diverge, `o[gplen]` and `n[gplen]` (0 when orig has no byte there) | not executed; medium | `PrefixOps.Penalty`, `PrefixOps.PenaltyPastEndMisordersExample` | `PrefixOps.PenaltyAtDivergence`, `PrefixOps.PenaltyAtDivergenceOrdersExample` |
