# graphite-clickhouse tagger, modelled in Dafny

This project models the tagging engine of graphite-clickhouse (`tagger/tagger.go`
and `tagger/tree.go`). The engine reads a list of tag rules and a corpus of metric
paths, tags every metric that some rule matches, and propagates the tags through the
dotted metric hierarchy.

Steps of `Make`:

1. **Rule conversion.** Each rule's regular expression is compiled. The first one that
   fails aborts the run. Each non-empty literal condition (equal, contains, prefix,
   suffix) gets its byte form.
2. **Prefix trie.** Every rule with a literal prefix is filed under that prefix in a
   byte trie (`PrefixTree`: 256 child slots and a rule list per node).
3. **Corpus decoding.** `countMetrics` scans the buffer of varint-length-prefixed paths
   to count the entries. The decode loop then fills `metricList` and `metricMap` (path
   to metric; the last metric wins for a repeated path).
4. **Matching.** Each metric walks the trie along its path, stopping at the first nil
   child, and is offered the rules of every node it reaches. A full scan then offers it
   every rule without a literal prefix.
5. **Closure.** Phase 1 copies to each metric the tags of every directory above it
   (`a.b.c` gets the tags of `a.b.` and `a.`, as found in the map). Phase 2 then copies
   each metric's tags up to every such directory.
6. **Output.** Every metric that ended up with a tag is printed.

Modules:

- `Varint`: the LEB128 length prefix.
- `Corpus`: the buffer, `countMetrics` and the decode loop.
- `Rules`: the rule list and its conversion.
- `Tree`: the trie. `PrefixTree` is a class whose nodes live in an arena sequence;
  a child link is a position in it.
- `Match`: trie construction, walk and full scan.
- `Hierarchy`: the upward walk over `.`.
- `Propagation`: the two phases.
- `Tagger`: `Make` end to end, with counterexample lemmas.

Each loop of the source is a Dafny method with its loop. Each method is proved against
a specification function: `Entries`, `FirstInvalid`/`CompileAll`, `PrefixRules`,
`Walk`/`Offer`, `ScanRules`, `Down`, `Up`, `NonEmpty`. The properties are lemmas about
those functions: decode round trip, matching dispatch, monotonicity and idempotence of
each phase, closure, and the output filter.

Two properties one might expect of the closure do not hold for the code:

- **Rerunning both phases is not idempotent.** Take the corpus `a.`, `a.b`, `a.c`,
  with only `a.c` tagged `Y`. Phase 2 hands `Y` to `a.` only after phase 1 has
  already passed `a.b`, so only a second run gives `a.b` the tag
  (`Tagger.RerunNotIdempotent`). Each phase on its own is idempotent
  (`Propagation.DownIdempotent`, `Propagation.UpIdempotent`).
- **The phase order shows on siblings.** Down-then-up differs from up-then-down on
  siblings of a tagged metric, as in the corpus above (`Tagger.PhaseOrderMatters`).
  It does not show on a parent between a tagged grandparent and a tagged grandchild:
  in both orders that parent receives both tags (`Tagger.MiddleEitherOrder`).

## Model

| member | source | states |
|---|---|---|
| Varint.ReadUvarint | tagger/tagger.go:41 | a successful length read consumes at least one byte, at most ten, and never more than the buffer holds |
| Varint.ReadEncode | tagger/tagger.go:129 | the shortest encoding of any 64-bit length, followed by anything, reads back as that length and the encoding's size |
| Varint.ReadIsHeader | tagger/tagger.go:129 | the bytes a successful read consumed, taken on their own, read back as the same value |
| Varint.HeaderExtend | tagger/tagger.go:129 | a complete length header reads the same whatever bytes follow it |
| Corpus.EntriesTile | tagger/tagger.go:121-140 | a decodable buffer is exactly the concatenation of its entries, each a header announcing its path's length followed by that path |
| Corpus.TiledDecodes | tagger/tagger.go:121-140 | conversely, a buffer tiled by such entries decodes to exactly those entries |
| Corpus.DecodeEncode | tagger/tagger.go:121-140 | decoding the buffer a writer produces for a path list recovers exactly those paths, in order |
| Corpus.CountStep | tagger/tagger.go:33-46 | one turn of the counting loop: a failing varint is the result; otherwise the count continues one entry further, behind the entry |
| Corpus.CountMetrics | tagger/tagger.go:27-50 | returns the number of entries tiling the body; otherwise the error of the first bad entry: the varint error, or ErrClickHouseResponse when an entry overruns the buffer |
| Corpus.CountIffTiled | tagger/tagger.go:27-50 | countMetrics returns a count exactly when the body is tiled by well-framed entries |
| Corpus.WrapInt64 | tagger/tagger.go:45 | Go's `int` arithmetic: the result lies in the signed 64-bit range and differs from the exact value by a multiple of 2^64 |
| Corpus.CountStallsAsWritten | tagger/tagger.go:33-46 | on a ten-byte body announcing a path of 2^64 - 10 bytes, the 64-bit offset update as written leaves the offset at 0, so the loop repeats the same turn forever |
| Corpus.CountRejectsStall | tagger/tagger.go:34-39 | the scan as modelled returns ErrClickHouseResponse on that body, because its one entry runs past the buffer |
| Corpus.ReadEntry | tagger/tagger.go:129-139 | one turn of the decode loop: the path cut out is the first remaining entry's path; the rest of the body decodes to the remaining entries; the varint error return is never taken |
| Corpus.DecodeMetrics | tagger/tagger.go:114-140 | a fresh list of `count` metrics holding the decoded paths in order with empty tag sets, and the map built from those paths |
| Corpus.IndexOfSpec | tagger/tagger.go:137 | the metric map holds exactly the decoded paths; each leads to a metric with that path, and for a repeated path to its last occurrence |
| Corpus.IndexOfNext | tagger/tagger.go:137 | storing the next decoded path maps it to its own position and leaves the other keys as the earlier paths left them |
| Rules.CompileLoaded | tagger/tagger.go:73-84 | conversion gives a rule a literal prefix exactly when its HasPrefix condition is non-empty, and then that prefix, so no rule has an empty prefix |
| Rules.FirstInvalid | tagger/tagger.go:65-72 | none exactly when every pattern compiles; otherwise the first rule whose pattern does not, all before it compiling |
| Rules.CompileRules | tagger/tagger.go:65-85 | returns the first rule whose pattern fails; the rules before it are converted and the rest left as they were; all rules are converted when none fails |
| Rules.PrefixRules | tagger/tagger.go:93-99 | exactly the rules whose literal prefix is `s`, in increasing rule order |
| Rules.ScanRules | tagger/tagger.go:177-184 | exactly the rules without a literal prefix, in increasing rule order |
| Tree.EmptyNode | tagger/tree.go:3-6 | a new node has 256 nil child slots and no rules |
| Tree.TableClosed | tagger/tree.go:8-24 | in a valid trie a node exists for every prefix of a byte string that has one, and the filed table has exactly the reachable byte strings as keys |
| Tree.TrieGrow | tagger/tree.go:12-14 | creating the missing child for byte `b` keeps the trie valid and adds an empty node for `s + [b]` and nothing else |
| Tree.TableFile | tagger/tree.go:19-23 | appending a rule to a node keeps the trie valid and changes only that node's rule list, by appending the rule |
| Tree.ExtendsStep | tagger/tree.go:11-17 | one turn of the walk in Add reaches the node for the next prefix, creating it if missing, keeping all earlier nodes and rule lists |
| Tree.ExtendsFile | tagger/tree.go:19-23 | filing the rule at the end of the walk adds it last to the node for the whole prefix and nowhere else |
| Tree.PrefixTree.constructor | tagger/tree.go:3-6 | a new trie is a lone root with no rules |
| Tree.PrefixTree.Add | tagger/tree.go:8-24 | keeps the trie valid and keeps every existing node where it was; afterwards nodes exist exactly for the old byte strings and the prefixes of `prefix`; the rule lists are unchanged except that `rule` is appended to the list of `prefix` |
| Match.MarkAllSpec | tagger/tagger.go:164-166 | offering rules adds a tag exactly when one of the offered rules marks it |
| Match.MarkAllElements | tagger/tagger.go:164-166 | offering the same rules in another order or multiplicity adds the same tags |
| Match.NoLonger | tagger/tagger.go:158-161 | once a prefix of the path has no node, no longer prefix has one, so stopping the walk there loses nothing |
| Match.WalkOffers | tagger/tagger.go:151-170 | on a trie filing exactly each rule under its literal prefix, the walk offers exactly the rules whose prefix is a non-empty prefix of the path, shortest prefix first |
| Match.OfferSpec | tagger/tagger.go:151-170 | those are exactly the rules whose literal prefix is a prefix of the path longer than the walk's start, each once |
| Match.Dispatch | tagger/tagger.go:144-185 | the trie walk and the full scan together offer each rule that applies to the path exactly once, and no other; the walk only offers rules with a literal prefix |
| Match.MatchedTags | tagger/tagger.go:144-185 | the two passes add a tag exactly when some rule applying to the path marks it |
| Match.BuildTree | tagger/tagger.go:91-99 | a fresh valid trie whose node for `s` files exactly the rules with literal prefix `s`, in rule order |
| Match.MarkRules | tagger/tagger.go:163-167 | offering a node's rules adds their tags to metric `i` and changes no other metric |
| Match.MatchPath | tagger/tagger.go:151-170 | the walk for metric `i` adds the tags of the rules filed along its path, up to the first nil child, and changes no other metric |
| Match.MatchTree | tagger/tagger.go:144-171 | every metric gains the tags of the rules the trie walk offers it |
| Match.ScanPath | tagger/tagger.go:177-184 | the full scan for metric `i` adds the tags of every rule without a literal prefix and changes no other metric |
| Match.MatchFullScan | tagger/tagger.go:176-185 | every metric gains the tags of every rule without a literal prefix |
| Hierarchy.LastIndexByte | tagger/tagger.go:198 | the last position holding `.`, or -1 when there is none |
| Hierarchy.KeysFromSpec | tagger/tagger.go:197-212 | the keys the upward walk looks up are exactly the prefixes of the walked path that end in `.` |
| Hierarchy.AncestorKeysSpec | tagger/tagger.go:191-212 | for a metric, those keys are exactly the paths of the directories above it: proper prefixes ending in `.` |
| Propagation.Down | tagger/tagger.go:190-213 | phase 1 keeps every path and only adds tags |
| Propagation.DownMonotone | tagger/tagger.go:190-213 | after phase 1 every metric holds all the tags of each directory above it that the map finds |
| Propagation.DownIdempotent | tagger/tagger.go:190-213 | running phase 1 a second time changes nothing |
| Propagation.Up | tagger/tagger.go:218-241 | phase 2 keeps every path and only adds tags |
| Propagation.UpMonotone | tagger/tagger.go:218-241 | after phase 2 every directory the map finds holds all the tags of each metric below it |
| Propagation.UpIdempotent | tagger/tagger.go:218-241 | running phase 2 a second time changes nothing |
| Propagation.UpFixesLeaves | tagger/tagger.go:218-241 | phase 2 leaves a metric whose path does not end in `.` unchanged |
| Propagation.CopyDown | tagger/tagger.go:190-213 | the in-place phase 1 over the metric list gives exactly `Down`, whatever order the metrics come in |
| Propagation.InheritedTags | tagger/tagger.go:191-212 | the upward walk for metric `i` collects exactly its phase-1 tags, while earlier metrics are already done and later ones untouched |
| Propagation.CopyUp | tagger/tagger.go:218-241 | the in-place phase 2 over the metric list gives exactly `Up` |
| Propagation.PushTags | tagger/tagger.go:219-240 | the walk for metric `i` adds the tags it had at the start to exactly the metrics the map finds under the keys of its path, and leaves every other metric, `i` included, as it was; afterwards every directory holds the tags of the metrics walked so far, and no metric goes beyond its phase-2 result |
| Propagation.PushTargets | tagger/tagger.go:224-239 | the metrics the walk writes are exactly the directories above metric `i` that the map finds |
| Tagger.NonEmptySpec | tagger/tagger.go:245-249 | the output holds exactly the tagged metrics, each exactly as often as in the list, and no untagged metric |
| Tagger.Emit | tagger/tagger.go:245-249 | the output loop yields the tagged metrics in list order |
| Tagger.Make | tagger/tagger.go:52-254 | the run returns the first rule-compilation error, else the corpus decoding error, else the tagged metrics after both match passes, phase 1 and phase 2; the rule array ends up as the conversion loop leaves it |
| Tagger.TagCorpus | tagger/tagger.go:89-249 | after conversion: the corpus decoding error, else the tagged metrics after both match passes, phase 1 and phase 2, in corpus order |
| Tagger.ClosureReaches | tagger/tagger.go:188-241 | after both phases each directory holds the tags every metric below it had before the closure, and each metric holds the tags every directory above it had before the closure |
| Tagger.MiddleEitherOrder | tagger/tagger.go:188-241 | a directory between a directory above it and a metric below it gets the tags of both, whichever phase runs first |
| Tagger.RerunNotIdempotent | tagger/tagger.go:188-241 | on `a.`, `a.b`, `a.c` with `a.c` tagged, one run leaves `a.b` untagged and a second run tags it |
| Tagger.PhaseOrderMatters | tagger/tagger.go:188-241 | on the same corpus, up-then-down tags `a.b` and down-then-up does not |

## Left out

- Rule loading: the TOML rule file and the `Tag` type's definition are not part of this model. Rules arrive as a sequence.
- Regular expressions: `regexp.Compile` is the parameter `regexpValid`, which says whether a pattern compiles.
- Rule matching: `MatchAndMark`'s body is not part of this model. Offering rule `j` to a metric with path `p` adds the tags `mark(j, p)`, so literal and regexp conditions and the tag a rule sets are abstracted.
- File reading: `ioutil.ReadFile("tree.bin")` is left out. The corpus arrives as the byte sequence `body`.
- Logging and timing (`zap`, `time`) are left out. They do not affect the result.
- Output: `fmt.Println(m)` is modelled as appending `m` to a returned list, without formatting.
- Tag copying: the inner `for k := range ... { Tags[k] = true }` loops are modelled as one set union.
- Aliasing: `unsafeString` and the sharing of path bytes with the corpus buffer are left out. A path is its own byte sequence, and `metricMap` maps it to a position in the metric list.
- Trie nodes: they are positions in an arena sequence owned by `PrefixTree`, not heap objects. Node allocation and any sharing of nodes between tries are not captured.
- helper/clickhouse is not part of this model. `ReadUvarint` follows Go's `encoding/binary` unsigned varint: at most ten bytes, the tenth at most 1.
- Varint.ReadUvarint: the error kind differs from `encoding/binary` in one case. When the tenth byte continues and is the last byte of the buffer, as in ten bytes `0x80`, the model reports `Overflow`, while `encoding/binary` reports that the buffer is too short. Both stop the scan with an error.
- Corpus.CountMetrics: uses unbounded naturals, so an entry whose length runs past the buffer always gives ErrClickHouseResponse. In Go, `offset += readBytes + int(namelen)` is 64-bit arithmetic. When that step wraps to zero, countMetrics never returns. When it wraps below zero, `body[offset:]` panics or the scan moves backwards. That can happen for a length of 2^63 - readBytes or more, and also when the new offset itself leaves the range. See Findings.
- Corpus.DecodeMetrics: is modelled only on a body that countMetrics accepted. Its own error returns (tagger/tagger.go:126, 131) cannot be taken then and are not modelled.
- Rules.CompileLoaded: is proved for rules as the rule file leaves them, with no byte forms set yet. Rules that already carry byte forms are not covered.

## Findings

| source | as written | input that shows it | evidently intended | confidence | as-written member | corrected member |
|---|---|---|---|---|---|---|
| tagger/tagger.go:45 | `offset += readBytes + int(namelen)` wraps in 64-bit `int`; a step of 0 makes countMetrics loop forever | body `F6 FF FF FF FF FF FF FF FF 01`: one varint announcing 2^64 - 10 bytes, so the step is 10 + (-10) = 0 | an entry that runs past the buffer is ErrClickHouseResponse (tagger/tagger.go:34-39) | not executed | Corpus.CountStallsAsWritten | Corpus.CountRejectsStall |
