/**
 * `Make` (tagger/tagger.go:52-254) end to end: convert the rules, build the
 * prefix trie, decode the corpus, offer every metric its rules, copy tags
 * down and then up the hierarchy, and emit the metrics that carry a tag.
 * The rule file, the corpus file, regular-expression compilation and rule
 * matching are inputs: `rules`, `body`, `regexpValid` and `mark`.
 */
module Tagger {
  import opened Wrappers
  import opened Bytes
  import opened Errors
  import opened Corpus
  import opened Rules
  import opened Tree
  import opened Hierarchy
  import opened Match
  import opened Propagation

  /** The metrics that carry at least one tag, in corpus order: what the output loop prints. */
  function NonEmpty(ms: seq<Metric>): seq<Metric>
  {
    if ms == [] then []
    else NonEmpty(ms[..|ms| - 1]) + (if ms[|ms| - 1].tags != {} then [ms[|ms| - 1]] else [])
  }

  /** The output holds exactly the tagged metrics, each exactly as often as in the list. */
  lemma {:induction false} NonEmptySpec(ms: seq<Metric>)
    ensures forall m :: m in NonEmpty(ms) <==> m in ms && m.tags != {}
    ensures forall m :: multiset(NonEmpty(ms))[m] == if m.tags != {} then multiset(ms)[m] else 0
  {
    if ms != [] {
      var init := ms[..|ms| - 1];
      NonEmptySpec(init);
      assert ms == init + [ms[|ms| - 1]];
    }
  }

  /** The output loop (tagger/tagger.go:245-249), collecting what it prints. */
  method Emit(metricList: array<Metric>) returns (out: seq<Metric>)
    ensures out == NonEmpty(metricList[..])
  {
    out := [];
    var i := 0;
    while i < metricList.Length
      invariant i <= metricList.Length && out == NonEmpty(metricList[..i])
    {
      assert metricList[..i + 1][..i] == metricList[..i];
      if |metricList[i].tags| != 0 {
        out := out + [metricList[i]];
      }
      i := i + 1;
    }
    assert metricList[..i] == metricList[..];
  }

  /** Metric `m` after both match passes over the converted rules `rs`. */
  function Matched(m: Metric, rs: seq<Rule>, mark: (RuleRef, Path) -> set<Tag>): Metric
  {
    m.(tags := m.tags + MarkAll(Offer(rs, m.path, 0), m.path, mark) + MarkAll(ScanRules(rs), m.path, mark))
  }

  /** The metrics of a decoded corpus after both match passes. */
  function MatchedAll(es: seq<Entry>, rs: seq<Rule>, mark: (RuleRef, Path) -> set<Tag>): (ms: seq<Metric>)
    ensures |ms| == |es| && Paths(ms) == PathsOf(es)
  {
    seq(|es|, k requires 0 <= k < |es| => Matched(Metric(es[k].path, {}), rs, mark))
  }

  /**
   * What Make prints once the rules `rs` are converted: the corpus decoding
   * error, or the tagged metrics after matching, copying down and copying up.
   */
  function Tagged(rs: seq<Rule>, body: seq<byte>, mark: (RuleRef, Path) -> set<Tag>): Result<seq<Metric>, Error>
  {
    match Entries(body)
    case Err(e) => Err(e)
    case Ok(es) =>
      var index := IndexOf(PathsOf(es));
      Ok(NonEmpty(Up(Down(MatchedAll(es, rs, mark), index), index)))
  }

  /**
   * What Make prints for the rule list `rules` and the corpus `body`: the
   * first rule whose pattern does not compile, or else what the converted
   * rules make of the corpus.
   */
  function Run(rules: seq<Rule>, body: seq<byte>, regexpValid: seq<byte> -> bool,
               mark: (RuleRef, Path) -> set<Tag>): Result<seq<Metric>, Error>
  {
    match FirstInvalid(rules, regexpValid)
    case Some(i) => Err(RegexpError(i))
    case None => Tagged(CompileAll(rules), body, mark)
  }

  /**
   * `Make` (tagger/tagger.go:52-254) on a rule list already read from the
   * rule file and a corpus already read from `tree.bin`. The rule array is
   * left as the conversion loop leaves it.
   */
  method Make(rules: array<Rule>, body: seq<byte>, regexpValid: seq<byte> -> bool,
              mark: (RuleRef, Path) -> set<Tag>) returns (r: Result<seq<Metric>, Error>)
    modifies rules
    ensures r == Run(old(rules[..]), body, regexpValid, mark)
    ensures var first := FirstInvalid(old(rules[..]), regexpValid);
      rules[..] == if first.None? then CompileAll(old(rules[..]))
                   else CompileAll(old(rules[..first.value])) + old(rules[first.value..])
  {
    var err := CompileRules(rules, regexpValid);
    if err.Some? {
      return Err(RegexpError(err.value));
    }
    r := TagCorpus(rules[..], body, mark);
  }

  /**
   * The part of Make after rule conversion (tagger/tagger.go:87-249): build
   * the trie from the converted rules `rs`, count and decode the corpus,
   * match, copy down, copy up, and collect the tagged metrics.
   */
  method TagCorpus(rs: seq<Rule>, body: seq<byte>, mark: (RuleRef, Path) -> set<Tag>)
    returns (r: Result<seq<Metric>, Error>)
    ensures r == Tagged(rs, body, mark)
  {
    var tree := BuildTree(rs);
    var count := CountMetrics(body);
    if count.Err? {
      return Err(count.error);
    }
    ghost var es := Entries(body).value;
    var metricList, metricMap := DecodeMetrics(body, count.value, es);
    MatchTree(tree, metricList, mark);
    MatchFullScan(rs, metricList, mark);
    forall k | 0 <= k < metricList.Length ensures metricList[k] == MatchedAll(es, rs, mark)[k] {
      WalkOffers(tree.Table(), rs, es[k].path, 0);
    }
    assert metricList[..] == MatchedAll(es, rs, mark);
    IndexOfSpec(Paths(metricList[..]));
    CopyDown(metricList, metricMap);
    CopyUp(metricList, metricMap);
    var out := Emit(metricList);
    return Ok(out);
  }

  /**
   * After both copy phases every tag of a metric has reached each directory
   * above it, and every tag of a directory has reached each metric below it.
   */
  lemma ClosureReaches(ms: seq<Metric>, index: map<Path, nat>, d: nat, a: nat)
    requires ValidIndex(Paths(ms), index)
    requires d < |ms| && a < |ms| && Descends(ms, index, d, a)
    ensures ms[d].tags <= Up(Down(ms, index), index)[a].tags
    ensures ms[a].tags <= Up(Down(ms, index), index)[d].tags
  {
    var down := Down(ms, index);
    assert Descends(down, index, d, a);
    UpMonotone(down, index, d, a);
    DownMonotone(ms, index, a, d);
  }

  /**
   * A directory between a directory above it and a metric below it ends up
   * with the tags of both in either phase order: this shape does not tell
   * the two orders apart.
   */
  lemma MiddleEitherOrder(ms: seq<Metric>, index: map<Path, nat>, c: nat, p: nat, g: nat)
    requires ValidIndex(Paths(ms), index)
    requires c < |ms| && p < |ms| && g < |ms| && Descends(ms, index, c, p) && Descends(ms, index, p, g)
    ensures ms[c].tags + ms[g].tags <= Up(Down(ms, index), index)[p].tags
    ensures ms[c].tags + ms[g].tags <= Down(Up(ms, index), index)[p].tags
  {
    ClosureReaches(ms, index, c, p);
    ClosureReaches(ms, index, p, g);
    var up := Up(ms, index);
    UpMonotone(ms, index, c, p);
    assert Descends(up, index, p, g);
    DownMonotone(up, index, g, p);
  }

  /** The corpus `a.`, `a.b`, `a.c` with only `a.c` tagged `Y`. */
  function Siblings(): seq<Metric>
  {
    [Metric([97, 46], {}), Metric([97, 46, 98], {}), Metric([97, 46, 99], {"Y"})]
  }

  /** In `Siblings` the only directory above `a.b` is `a.`, the first metric. */
  lemma SiblingsShape()
    ensures var ms, index := Siblings(), IndexOf(Paths(Siblings()));
      ValidIndex(Paths(ms), index) && ms[0].path in index && index[ms[0].path] == 0 &&
      (forall k :: k in AncestorKeys(ms[1].path) <==> k == ms[0].path) &&
      Descends(ms, index, 2, 0) && !EndsInDot(ms[1].path)
  {
    var ms, index := Siblings(), IndexOf(Paths(Siblings()));
    IndexOfSpec(Paths(ms));
    assert ms[0].path in Paths(ms);
    AncestorKeysSpec(ms[1].path);
    forall k | IsAncestor(k, ms[1].path) ensures k == ms[0].path {
      assert |k| == 2;
      assert k == ms[1].path[..2];
    }
    assert IsAncestor(ms[0].path, ms[1].path) && IsAncestor(ms[0].path, ms[2].path);
  }

  /**
   * Running both copy phases a second time is not idempotent: `a.` gains
   * `Y` from `a.c` in the upward phase, after the downward phase has
   * already passed `a.b`, so only a second downward phase hands `Y` to `a.b`.
   */
  lemma RerunNotIdempotent()
    ensures var ms, index := Siblings(), IndexOf(Paths(Siblings()));
      var once := Up(Down(ms, index), index);
      "Y" !in once[1].tags && "Y" in Up(Down(once, index), index)[1].tags
  {
    var ms, index := Siblings(), IndexOf(Paths(Siblings()));
    SiblingsShape();
    var down := Down(ms, index);
    var once := Up(down, index);
    GatherBounded(AncestorKeys(ms[1].path), index, ms, {});
    assert down[1].tags == {};
    UpFixesLeaves(down, index, 1);
    assert Descends(down, index, 2, 0);
    BelowMember(down, index, 0, |down|, 2);
    assert "Y" in once[0].tags;
    GatherMember(AncestorKeys(ms[1].path), index, once, ms[0].path);
  }

  /**
   * The order of the phases matters: copying up before copying down would
   * hand `Y` from `a.c` to its sibling `a.b`; down before up, as Make does,
   * does not.
   */
  lemma PhaseOrderMatters()
    ensures var ms, index := Siblings(), IndexOf(Paths(Siblings()));
      "Y" in Down(Up(ms, index), index)[1].tags && "Y" !in Up(Down(ms, index), index)[1].tags
  {
    var ms, index := Siblings(), IndexOf(Paths(Siblings()));
    SiblingsShape();
    var up := Up(ms, index);
    BelowMember(ms, index, 0, |ms|, 2);
    assert "Y" in up[0].tags;
    GatherMember(AncestorKeys(ms[1].path), index, up, ms[0].path);
    var down := Down(ms, index);
    GatherBounded(AncestorKeys(ms[1].path), index, ms, {});
    UpFixesLeaves(down, index, 1);
  }
}
