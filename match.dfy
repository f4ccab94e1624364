/**
 * Rule dispatch in Make (tagger/tagger.go:89-99, 143-185): rules with a
 * literal prefix are filed in the prefix trie and offered to a metric by a
 * walk down its path; all other rules are offered to every metric by a full
 * scan. `MatchAndMark` is outside this model: offering rule `j` to a metric
 * with path `p` adds the tags `mark(j, p)` to its tag set.
 */
module Match {
  import opened Wrappers
  import opened Bytes
  import opened Corpus
  import opened Rules
  import opened Tree

  /** The tags added by offering the rules `rs`, in order, to a metric with path `p`. */
  function MarkAll(rs: seq<RuleRef>, p: Path, mark: (RuleRef, Path) -> set<Tag>): set<Tag>
  {
    if rs == [] then {} else MarkAll(rs[..|rs| - 1], p, mark) + mark(rs[|rs| - 1], p)
  }

  /** A tag is added exactly when some offered rule marks it. */
  lemma {:induction false} MarkAllSpec(rs: seq<RuleRef>, p: Path, mark: (RuleRef, Path) -> set<Tag>)
    ensures forall t :: t in MarkAll(rs, p, mark) <==> exists k :: 0 <= k < |rs| && t in mark(rs[k], p)
  {
    if rs != [] {
      var init := rs[..|rs| - 1];
      MarkAllSpec(init, p, mark);
      forall t | t in MarkAll(rs, p, mark) ensures exists k :: 0 <= k < |rs| && t in mark(rs[k], p) {
        if t !in mark(rs[|rs| - 1], p) {
          assert t in MarkAll(init, p, mark);
          var k :| 0 <= k < |init| && t in mark(init[k], p);
          assert rs[k] == init[k];
        }
      }
      forall t, k | 0 <= k < |rs| && t in mark(rs[k], p) ensures t in MarkAll(rs, p, mark) {
        if k < |init| {
          assert init[k] == rs[k];
        }
      }
    }
  }

  /** Offering the same rules, whatever their order and multiplicity, adds the same tags. */
  lemma MarkAllElements(a: seq<RuleRef>, b: seq<RuleRef>, p: Path, mark: (RuleRef, Path) -> set<Tag>)
    requires forall j :: j in a <==> j in b
    ensures MarkAll(a, p, mark) == MarkAll(b, p, mark)
  {
    MarkAllSpec(a, p, mark);
    MarkAllSpec(b, p, mark);
    forall t | t in MarkAll(a, p, mark) ensures t in MarkAll(b, p, mark) {
      var k :| 0 <= k < |a| && t in mark(a[k], p);
      assert a[k] in b;
      var k' :| 0 <= k' < |b| && b[k'] == a[k];
    }
    forall t | t in MarkAll(b, p, mark) ensures t in MarkAll(a, p, mark) {
      var k :| 0 <= k < |b| && t in mark(b[k], p);
      assert b[k] in a;
      var k' :| 0 <= k' < |a| && a[k'] == b[k];
    }
  }

  /**
   * The rules the walk of tagger/tagger.go:151-170 offers to a path `p`,
   * from depth `j` on: those of the node for each longer prefix of `p`,
   * shortest first, stopping at the first prefix without a node.
   */
  function Walk(table: map<seq<byte>, seq<RuleRef>>, p: Path, j: nat): seq<RuleRef>
    requires j <= |p|
    decreases |p| - j
  {
    if j < |p| && p[..j + 1] in table then table[p[..j + 1]] + Walk(table, p, j + 1) else []
  }

  /** The rules with literal prefix `p[..k]`, for each `k` beyond `j`, shortest prefix first. */
  function Offer(rs: seq<Rule>, p: Path, j: nat): seq<nat>
    requires j <= |p|
    decreases |p| - j
  {
    if j < |p| then PrefixRules(rs, p[..j + 1]) + Offer(rs, p, j + 1) else []
  }

  /** Once a prefix of `p` has no node, no longer prefix has one. */
  lemma {:induction false} NoLonger(table: map<seq<byte>, seq<RuleRef>>, p: Path, j: nat, k: nat)
    requires Closed(table) && j < k <= |p| && p[..j + 1] !in table
    ensures p[..k] !in table
    decreases k
  {
    if k > j + 1 {
      NoLonger(table, p, j, k - 1);
      assert p[..k] == p[..k - 1] + [p[k - 1]];
    }
  }

  /** Without rules for the prefixes of `p` beyond `i`, nothing is offered from depth `i` on. */
  lemma {:induction false} OfferNil(rs: seq<Rule>, p: Path, i: nat)
    requires i <= |p| && forall k :: i < k <= |p| ==> PrefixRules(rs, p[..k]) == []
    ensures Offer(rs, p, i) == []
    decreases |p| - i
  {
    if i < |p| {
      OfferNil(rs, p, i + 1);
    }
  }

  /**
   * A trie whose nodes file exactly the rules with their literal prefix
   * offers, along `p`, exactly the rules whose literal prefix is a longer
   * prefix of `p`: stopping at the first missing node loses nothing.
   */
  lemma {:induction false} WalkOffers(table: map<seq<byte>, seq<RuleRef>>, rs: seq<Rule>, p: Path, j: nat)
    requires Closed(table) && forall s :: Find(table, s) == PrefixRules(rs, s)
    requires j <= |p|
    ensures Walk(table, p, j) == Offer(rs, p, j)
    decreases |p| - j
  {
    if j < |p| {
      if p[..j + 1] in table {
        assert table[p[..j + 1]] == PrefixRules(rs, p[..j + 1]);
        WalkOffers(table, rs, p, j + 1);
      } else {
        forall k | j < k <= |p| ensures PrefixRules(rs, p[..k]) == [] {
          NoLonger(table, p, j, k);
          assert PrefixRules(rs, p[..k]) == Find(table, p[..k]);
        }
        OfferNil(rs, p, j);
      }
    }
  }

  /**
   * `Offer` from depth `j` holds each rule whose literal prefix is a prefix
   * of `p` longer than `j`, and no other, and holds it once.
   */
  lemma {:induction false} OfferSpec(rs: seq<Rule>, p: Path, j: nat)
    requires j <= |p|
    ensures forall r :: r in Offer(rs, p, j) <==>
      0 <= r < |rs| && rs[r].bytesHasPrefix.Some? && j < |rs[r].bytesHasPrefix.value| && HasPrefix(p, rs[r].bytesHasPrefix.value)
    ensures forall a, b :: 0 <= a < b < |Offer(rs, p, j)| ==> Offer(rs, p, j)[a] != Offer(rs, p, j)[b]
    decreases |p| - j
  {
    if j < |p| {
      OfferSpec(rs, p, j + 1);
      var here, rest := PrefixRules(rs, p[..j + 1]), Offer(rs, p, j + 1);
      forall r ensures r in here <==> 0 <= r < |rs| && rs[r].bytesHasPrefix == Some(p[..j + 1]) {
        if r in here {
          var k :| 0 <= k < |here| && here[k] == r;
          assert r >= 0;
        }
      }
      forall r | 0 <= r < |rs| && rs[r].bytesHasPrefix.Some?
        ensures (j < |rs[r].bytesHasPrefix.value| && HasPrefix(p, rs[r].bytesHasPrefix.value)) <==>
                (rs[r].bytesHasPrefix == Some(p[..j + 1]) || (j + 1 < |rs[r].bytesHasPrefix.value| && HasPrefix(p, rs[r].bytesHasPrefix.value)))
      {
      }
      forall a, b | 0 <= a < b < |here + rest| ensures (here + rest)[a] != (here + rest)[b] {
        if a < |here| && b >= |here| {
          var r := here[a];
          assert r in here && rest[b - |here|] in rest;
        }
      }
    }
  }

  /** A rule the trie walk or the full scan offers to a metric with path `p`. */
  predicate Applies(r: Rule, p: Path)
  {
    r.bytesHasPrefix.None? || HasPrefix(p, r.bytesHasPrefix.value)
  }

  /**
   * The two passes together offer each rule that applies to `p` exactly
   * once, and no other: a rule with a literal prefix through the trie walk
   * only, a rule without one through the full scan only.
   */
  lemma Dispatch(table: map<seq<byte>, seq<RuleRef>>, rs: seq<Rule>, p: Path)
    requires PrefixesNonEmpty(rs)
    requires Closed(table) && forall s :: Find(table, s) == PrefixRules(rs, s)
    ensures forall r :: r in Walk(table, p, 0) ==> 0 <= r < |rs| && rs[r].bytesHasPrefix.Some?
    ensures forall r :: r in Walk(table, p, 0) + ScanRules(rs) <==> 0 <= r < |rs| && Applies(rs[r], p)
    ensures var offered := Walk(table, p, 0) + ScanRules(rs);
      forall a, b :: 0 <= a < b < |offered| ==> offered[a] != offered[b]
  {
    WalkOffers(table, rs, p, 0);
    OfferSpec(rs, p, 0);
    var walk, scan := Walk(table, p, 0), ScanRules(rs);
    forall r | 0 <= r < |rs| && Applies(rs[r], p) && rs[r].bytesHasPrefix.Some? ensures r in walk {
      assert rs[r].bytesHasPrefix != Some([]);
    }
    forall a, b | 0 <= a < b < |walk + scan| ensures (walk + scan)[a] != (walk + scan)[b] {
      if b < |walk| {
      } else if a >= |walk| {
        assert (walk + scan)[a] == scan[a - |walk|] && (walk + scan)[b] == scan[b - |walk|];
      } else {
        assert walk[a] in walk && scan[b - |walk|] in scan;
      }
    }
  }

  /** The tags the two passes add to a metric with path `p`: those of every rule that applies to it. */
  lemma MatchedTags(table: map<seq<byte>, seq<RuleRef>>, rs: seq<Rule>, p: Path, mark: (RuleRef, Path) -> set<Tag>)
    requires PrefixesNonEmpty(rs)
    requires Closed(table) && forall s :: Find(table, s) == PrefixRules(rs, s)
    ensures forall t :: t in MarkAll(Walk(table, p, 0), p, mark) + MarkAll(ScanRules(rs), p, mark) <==>
      exists r :: 0 <= r < |rs| && Applies(rs[r], p) && t in mark(r, p)
  {
    Dispatch(table, rs, p);
    var walk, scan := Walk(table, p, 0), ScanRules(rs);
    MarkAllSpec(walk, p, mark);
    MarkAllSpec(scan, p, mark);
    forall t | t in MarkAll(walk, p, mark) + MarkAll(scan, p, mark)
      ensures exists r :: 0 <= r < |rs| && Applies(rs[r], p) && t in mark(r, p)
    {
      if t in MarkAll(walk, p, mark) {
        var k :| 0 <= k < |walk| && t in mark(walk[k], p);
        assert walk[k] in walk + scan;
      } else {
        var k :| 0 <= k < |scan| && t in mark(scan[k], p);
        assert scan[k] in walk + scan;
      }
    }
    forall t, r | 0 <= r < |rs| && Applies(rs[r], p) && t in mark(r, p)
      ensures t in MarkAll(walk, p, mark) + MarkAll(scan, p, mark)
    {
      assert r in walk + scan;
      if r in walk {
        var k :| 0 <= k < |walk| && walk[k] == r;
      } else {
        var k :| 0 <= k < |scan| && scan[k] == r;
      }
    }
  }

  /** One step of the trie construction: rule `i` joins the node for its literal prefix, if it has one. */
  lemma BuildStep(rules: seq<Rule>, i: nat, before: map<seq<byte>, seq<RuleRef>>, after: map<seq<byte>, seq<RuleRef>>)
    requires i < |rules| && forall s :: Find(before, s) == PrefixRules(rules[..i], s)
    requires rules[i].bytesHasPrefix.None? ==> after == before
    requires rules[i].bytesHasPrefix.Some? ==>
      forall s :: Find(after, s) == Find(before, s) + (if s == rules[i].bytesHasPrefix.value then [i] else [])
    ensures forall s :: Find(after, s) == PrefixRules(rules[..i + 1], s)
  {
    PrefixRulesSnoc(rules, i);
  }

  /**
   * The trie construction of Make (tagger/tagger.go:91-99): each rule with
   * a literal prefix is added, in rule order, under that prefix.
   */
  method BuildTree(rules: seq<Rule>) returns (tree: PrefixTree)
    ensures fresh(tree) && tree.Valid() && Closed(tree.Table())
    ensures forall s :: Find(tree.Table(), s) == PrefixRules(rules, s)
  {
    tree := new PrefixTree();
    var i := 0;
    while i < |rules|
      invariant 0 <= i <= |rules|
      invariant fresh(tree) && tree.Valid()
      invariant forall s :: Find(tree.Table(), s) == PrefixRules(rules[..i], s)
    {
      ghost var before := tree.Table();
      if rules[i].bytesHasPrefix.Some? {
        tree.Add(rules[i].bytesHasPrefix.value, i);
      }
      BuildStep(rules, i, before, tree.Table());
      i := i + 1;
    }
    assert rules[..i] == rules;
    TableClosed(tree.arena, tree.index, tree.keyOf);
  }

  /** Offering one more rule adds its tags. */
  lemma MarkAllSnoc(rs: seq<RuleRef>, r: RuleRef, p: Path, mark: (RuleRef, Path) -> set<Tag>)
    ensures MarkAll(rs + [r], p, mark) == MarkAll(rs, p, mark) + mark(r, p)
  {
    assert (rs + [r])[..|rs|] == rs;
  }

  /** Metric `m` once the trie walk has offered it the rules filed along its path. */
  function WalkMatched(m: Metric, table: map<seq<byte>, seq<RuleRef>>, mark: (RuleRef, Path) -> set<Tag>): Metric
  {
    m.(tags := m.tags + MarkAll(Walk(table, m.path, 0), m.path, mark))
  }

  /** Metric `m` once the full scan has offered it every rule without a literal prefix. */
  function ScanMatched(m: Metric, rules: seq<Rule>, mark: (RuleRef, Path) -> set<Tag>): Metric
  {
    m.(tags := m.tags + MarkAll(ScanRules(rules), m.path, mark))
  }

  /** Offering the rules of `a` and then those of `b` adds the tags of both. */
  lemma {:induction false} MarkAllConcat(a: seq<RuleRef>, b: seq<RuleRef>, p: Path, mark: (RuleRef, Path) -> set<Tag>)
    ensures MarkAll(a + b, p, mark) == MarkAll(a, p, mark) + MarkAll(b, p, mark)
    decreases |b|
  {
    if b == [] {
      assert a + b == a;
    } else {
      var init := b[..|b| - 1];
      MarkAllConcat(a, init, p, mark);
      assert (a + b)[..|a + b| - 1] == a + init;
    }
  }

  /**
   * One step of the walk from the node for `p[..j]`: a nil slot ends the
   * walk, otherwise the child is the node for `p[..j + 1]` and its rules
   * come next.
   */
  lemma WalkStep(arena: seq<Node>, index: map<seq<byte>, nat>, keyOf: seq<seq<byte>>, p: Path, j: nat)
    requires Trie(arena, index, keyOf) && j < |p| && p[..j] in index
    ensures var next := arena[index[p[..j]]].next[p[j]];
      if next.None? then Walk(TableOf(arena, index), p, j) == []
      else p[..j + 1] in index && next.value == index[p[..j + 1]] &&
           Walk(TableOf(arena, index), p, j) == arena[next.value].rules + Walk(TableOf(arena, index), p, j + 1)
  {
    assert p[..j + 1] == p[..j] + [p[j]];
  }

  /** The rules of the node just reached move from the walk still ahead to the rules already offered. */
  lemma WalkAdvance(done: seq<RuleRef>, rules: seq<RuleRef>, ahead: seq<RuleRef>, p: Path, tags: set<Tag>, mark: (RuleRef, Path) -> set<Tag>)
    ensures (done + rules) + ahead == done + (rules + ahead)
    ensures tags + MarkAll(done + rules, p, mark) == tags + MarkAll(done, p, mark) + MarkAll(rules, p, mark)
  {
    MarkAllConcat(done, rules, p, mark);
  }

  /** `for _, rule := range x.Rules { rule.MatchAndMark(m) }` for metric `i`: only metric `i` changes. */
  method MarkRules(metricList: array<Metric>, i: nat, rules: seq<RuleRef>, mark: (RuleRef, Path) -> set<Tag>)
    requires i < metricList.Length
    modifies metricList
    ensures metricList[i] == old(metricList[i]).(tags := old(metricList[i]).tags + MarkAll(rules, old(metricList[i]).path, mark))
    ensures forall k :: 0 <= k < metricList.Length && k != i ==> metricList[k] == old(metricList[k])
  {
    var k := 0;
    while k < |rules|
      invariant k <= |rules|
      invariant metricList[i] == old(metricList[i]).(tags := old(metricList[i]).tags + MarkAll(rules[..k], old(metricList[i]).path, mark))
      invariant forall k :: 0 <= k < metricList.Length && k != i ==> metricList[k] == old(metricList[k])
    {
      assert rules[..k + 1][..k] == rules[..k];
      metricList[i] := metricList[i].(tags := metricList[i].tags + mark(rules[k], metricList[i].path));
      k := k + 1;
    }
    assert rules[..k] == rules;
  }

  /**
   * The walk for metric `i` (tagger/tagger.go:151-170): from the root, step
   * to the child for each byte of the path in turn, stopping at the end of
   * the path or at a nil child, and offer the metric every rule of each node
   * reached. Only metric `i` changes.
   */
  method MatchPath(tree: PrefixTree, metricList: array<Metric>, i: nat, mark: (RuleRef, Path) -> set<Tag>)
    requires tree.Valid() && i < metricList.Length
    modifies metricList
    ensures metricList[i] == WalkMatched(old(metricList[i]), tree.Table(), mark)
    ensures forall k :: 0 <= k < metricList.Length && k != i ==> metricList[k] == old(metricList[k])
  {
    var path := metricList[i].path;
    var arena := tree.arena;
    ghost var index, keyOf := tree.index, tree.keyOf;
    ghost var table := TableOf(arena, index);
    ghost var tags0 := metricList[i].tags;
    ghost var done: seq<RuleRef> := [];
    assert MarkAll(done, path, mark) == {};
    var x, j := 0, 0;
    while true
      invariant j <= |path| && path[..j] in index && x == index[path[..j]]
      invariant done + Walk(table, path, j) == Walk(table, path, 0)
      invariant metricList[i] == Metric(path, tags0 + MarkAll(done, path, mark))
      invariant forall k :: 0 <= k < metricList.Length && k != i ==> metricList[k] == old(metricList[k])
      decreases |path| - j
    {
      if j >= |path| {
        break;
      }
      WalkStep(arena, index, keyOf, path, j);
      var next := arena[x].next[path[j]];
      if next.None? {
        break;
      }
      x := next.value;
      var rules := arena[x].rules;
      WalkAdvance(done, rules, Walk(table, path, j + 1), path, tags0, mark);
      MarkRules(metricList, i, rules, mark);
      done := done + rules;
      j := j + 1;
    }
    assert done == Walk(table, path, 0);
  }

  /** The trie-walk match of Make (tagger/tagger.go:144-171), metric by metric. */
  method MatchTree(tree: PrefixTree, metricList: array<Metric>, mark: (RuleRef, Path) -> set<Tag>)
    requires tree.Valid()
    modifies metricList
    ensures forall k :: 0 <= k < metricList.Length ==> metricList[k] == WalkMatched(old(metricList[k]), tree.Table(), mark)
  {
    var i := 0;
    while i < metricList.Length
      invariant i <= metricList.Length
      invariant forall k :: 0 <= k < i ==> metricList[k] == WalkMatched(old(metricList[k]), tree.Table(), mark)
      invariant forall k :: i <= k < metricList.Length ==> metricList[k] == old(metricList[k])
    {
      MatchPath(tree, metricList, i, mark);
      i := i + 1;
    }
  }

  /** One rule further in the full scan: a rule without a literal prefix adds its tags, any other adds none. */
  lemma ScanStep(rules: seq<Rule>, j: nat, p: Path, tags: set<Tag>, mark: (RuleRef, Path) -> set<Tag>)
    requires j < |rules|
    ensures rules[j].bytesHasPrefix.None? ==>
      tags + MarkAll(ScanRules(rules[..j + 1]), p, mark) == tags + MarkAll(ScanRules(rules[..j]), p, mark) + mark(j, p)
    ensures rules[j].bytesHasPrefix.Some? ==>
      tags + MarkAll(ScanRules(rules[..j + 1]), p, mark) == tags + MarkAll(ScanRules(rules[..j]), p, mark)
  {
    ScanRulesSnoc(rules, j);
    var before := ScanRules(rules[..j]);
    if rules[j].bytesHasPrefix.None? {
      MarkAllSnoc(before, j, p, mark);
    } else {
      assert ScanRules(rules[..j + 1]) == before + [] == before;
    }
  }

  /** The full scan for metric `i` (tagger/tagger.go:177-184): offer it each rule without a literal prefix, in order. */
  method ScanPath(rules: seq<Rule>, metricList: array<Metric>, i: nat, mark: (RuleRef, Path) -> set<Tag>)
    requires i < metricList.Length
    modifies metricList
    ensures metricList[i] == ScanMatched(old(metricList[i]), rules, mark)
    ensures forall k :: 0 <= k < metricList.Length && k != i ==> metricList[k] == old(metricList[k])
  {
    var path := metricList[i].path;
    ghost var tags0 := metricList[i].tags;
    assert rules[..0] == [] && MarkAll([], path, mark) == {};
    var j := 0;
    while j < |rules|
      invariant j <= |rules|
      invariant metricList[i] == Metric(path, tags0 + MarkAll(ScanRules(rules[..j]), path, mark))
      invariant forall k :: 0 <= k < metricList.Length && k != i ==> metricList[k] == old(metricList[k])
    {
      ScanStep(rules, j, path, tags0, mark);
      if rules[j].bytesHasPrefix.None? {
        metricList[i] := metricList[i].(tags := metricList[i].tags + mark(j, metricList[i].path));
      }
      // a rule with a literal prefix was already offered by the trie walk
      j := j + 1;
    }
    assert rules[..j] == rules;
  }

  /** The full-scan match of Make (tagger/tagger.go:176-185), metric by metric. */
  method MatchFullScan(rules: seq<Rule>, metricList: array<Metric>, mark: (RuleRef, Path) -> set<Tag>)
    modifies metricList
    ensures forall k :: 0 <= k < metricList.Length ==> metricList[k] == ScanMatched(old(metricList[k]), rules, mark)
  {
    var i := 0;
    while i < metricList.Length
      invariant i <= metricList.Length
      invariant forall k :: 0 <= k < i ==> metricList[k] == ScanMatched(old(metricList[k]), rules, mark)
      invariant forall k :: i <= k < metricList.Length ==> metricList[k] == old(metricList[k])
    {
      ScanPath(rules, metricList, i, mark);
      i := i + 1;
    }
  }
}
