/**
 * The two copy phases of Make in tagger/tagger.go: tags flow from each
 * directory down to the metrics below it, then from each metric up to the
 * directories above it. A directory is found through the metric map, so only
 * directories present in the corpus take part.
 */
module Propagation {
  import opened Bytes
  import opened Corpus
  import opened Hierarchy

  /** The tags of the metric the map finds under `k`, if any. */
  function Found(k: Path, index: map<Path, nat>, ms: seq<Metric>): set<Tag>
  {
    if k in index && index[k] < |ms| then ms[index[k]].tags else {}
  }

  /** The union of the tags of the metrics the map finds under `keys`. */
  function Gather(keys: seq<Path>, index: map<Path, nat>, ms: seq<Metric>): set<Tag>
  {
    if keys == [] then {} else Found(keys[0], index, ms) + Gather(keys[1..], index, ms)
  }

  lemma {:induction false} GatherMember(keys: seq<Path>, index: map<Path, nat>, ms: seq<Metric>, k: Path)
    requires k in keys
    ensures Found(k, index, ms) <= Gather(keys, index, ms)
  {
    if keys[0] != k {
      GatherMember(keys[1..], index, ms, k);
    }
  }

  lemma {:induction false} GatherBounded(keys: seq<Path>, index: map<Path, nat>, ms: seq<Metric>, bound: set<Tag>)
    requires forall k :: k in keys ==> Found(k, index, ms) <= bound
    ensures Gather(keys, index, ms) <= bound
  {
    if keys != [] {
      GatherBounded(keys[1..], index, ms, bound);
    }
  }

  /**
   * The result of the parents-to-children phase: every metric also holds the
   * tags of every directory above it that the map finds.
   */
  function Down(ms: seq<Metric>, index: map<Path, nat>): (r: seq<Metric>)
    ensures |r| == |ms|
    ensures forall i :: 0 <= i < |ms| ==> r[i].path == ms[i].path && ms[i].tags <= r[i].tags
  {
    seq(|ms|, i requires 0 <= i < |ms| => Metric(ms[i].path, ms[i].tags + Gather(AncestorKeys(ms[i].path), index, ms)))
  }

  /** After the first phase a directory's tags are all held by every metric below it. */
  lemma DownMonotone(ms: seq<Metric>, index: map<Path, nat>, a: nat, i: nat)
    requires a < |ms| && i < |ms|
    requires ms[a].path in index && index[ms[a].path] == a && IsAncestor(ms[a].path, ms[i].path)
    ensures Down(ms, index)[a].tags <= Down(ms, index)[i].tags
  {
    var above := AncestorKeys(ms[i].path);
    AncestorKeysSpec(ms[i].path);
    AncestorKeysSpec(ms[a].path);
    GatherMember(above, index, ms, ms[a].path);
    forall k | k in AncestorKeys(ms[a].path) ensures Found(k, index, ms) <= Gather(above, index, ms) {
      AncestorTransitive(k, ms[a].path, ms[i].path);
      GatherMember(above, index, ms, k);
    }
    GatherBounded(AncestorKeys(ms[a].path), index, ms, Gather(above, index, ms));
  }

  /** Running the parents-to-children phase a second time changes nothing. */
  lemma DownIdempotent(ms: seq<Metric>, index: map<Path, nat>)
    requires ValidIndex(Paths(ms), index)
    ensures Down(Down(ms, index), index) == Down(ms, index)
  {
    var d := Down(ms, index);
    forall i | 0 <= i < |ms| ensures Down(d, index)[i] == d[i] {
      var above := AncestorKeys(ms[i].path);
      AncestorKeysSpec(ms[i].path);
      forall k | k in above ensures Found(k, index, d) <= d[i].tags {
        if k in index {
          DownMonotone(ms, index, index[k], i);
        }
      }
      GatherBounded(above, index, d, d[i].tags);
    }
  }

  /**
   * `d` is below `a` as the second phase sees it: the map finds `a` under its
   * own path, and that path is a directory above `d`.
   */
  predicate Descends(ms: seq<Metric>, index: map<Path, nat>, d: nat, a: nat)
    requires d < |ms| && a < |ms|
  {
    ms[a].path in index && index[ms[a].path] == a && IsAncestor(ms[a].path, ms[d].path)
  }

  /** The union of the tags of the first `n` metrics below `a`. */
  function Below(ms: seq<Metric>, index: map<Path, nat>, a: nat, n: nat): set<Tag>
    requires a < |ms| && n <= |ms|
  {
    if n == 0 then {}
    else Below(ms, index, a, n - 1) + (if Descends(ms, index, n - 1, a) then ms[n - 1].tags else {})
  }

  lemma {:induction false} BelowMember(ms: seq<Metric>, index: map<Path, nat>, a: nat, n: nat, d: nat)
    requires a < |ms| && d < n <= |ms| && Descends(ms, index, d, a)
    ensures ms[d].tags <= Below(ms, index, a, n)
  {
    if d < n - 1 {
      BelowMember(ms, index, a, n - 1, d);
    }
  }

  lemma {:induction false} BelowBounded(ms: seq<Metric>, index: map<Path, nat>, a: nat, n: nat, bound: set<Tag>)
    requires a < |ms| && n <= |ms|
    requires forall d :: 0 <= d < n && Descends(ms, index, d, a) ==> ms[d].tags <= bound
    ensures Below(ms, index, a, n) <= bound
  {
    if n > 0 {
      BelowBounded(ms, index, a, n - 1, bound);
    }
  }

  /**
   * The result of the children-to-parents phase: every directory the map
   * finds also holds the tags of every metric below it.
   */
  function Up(ms: seq<Metric>, index: map<Path, nat>): (r: seq<Metric>)
    ensures |r| == |ms|
    ensures forall i :: 0 <= i < |ms| ==> r[i].path == ms[i].path && ms[i].tags <= r[i].tags
  {
    seq(|ms|, a requires 0 <= a < |ms| => Metric(ms[a].path, ms[a].tags + Below(ms, index, a, |ms|)))
  }

  /** After the second phase a directory holds all the tags of every metric below it. */
  lemma UpMonotone(ms: seq<Metric>, index: map<Path, nat>, d: nat, a: nat)
    requires d < |ms| && a < |ms| && Descends(ms, index, d, a)
    ensures Up(ms, index)[d].tags <= Up(ms, index)[a].tags
  {
    var below := Below(ms, index, a, |ms|);
    BelowMember(ms, index, a, |ms|, d);
    forall e | 0 <= e < |ms| && Descends(ms, index, e, d) ensures ms[e].tags <= below {
      AncestorTransitive(ms[a].path, ms[d].path, ms[e].path);
      BelowMember(ms, index, a, |ms|, e);
    }
    BelowBounded(ms, index, d, |ms|, below);
  }

  /** Running the children-to-parents phase a second time changes nothing. */
  lemma UpIdempotent(ms: seq<Metric>, index: map<Path, nat>)
    ensures Up(Up(ms, index), index) == Up(ms, index)
  {
    var u := Up(ms, index);
    forall a | 0 <= a < |ms| ensures Up(u, index)[a] == u[a] {
      forall d | 0 <= d < |ms| && Descends(u, index, d, a) ensures u[d].tags <= u[a].tags {
        UpMonotone(ms, index, d, a);
      }
      BelowBounded(u, index, a, |ms|, u[a].tags);
    }
  }

  /** The second phase leaves a metric whose path does not end in `.` as it was: nothing is below it. */
  lemma UpFixesLeaves(ms: seq<Metric>, index: map<Path, nat>, a: nat)
    requires a < |ms| && !EndsInDot(ms[a].path)
    ensures Up(ms, index)[a] == ms[a]
  {
    BelowBounded(ms, index, a, |ms|, {});
  }

  /**
   * Phase 1 of Make (tagger/tagger.go:190-213), in place over the metric
   * list: each metric walks up its path and adds the tags of every directory
   * the map finds there.
   */
  method CopyDown(metricList: array<Metric>, metricMap: map<Path, nat>)
    requires ValidIndex(Paths(metricList[..]), metricMap)
    modifies metricList
    ensures metricList[..] == Down(old(metricList[..]), metricMap)
  {
    ghost var ms := metricList[..];
    ghost var d := Down(ms, metricMap);
    var i := 0;
    while i < metricList.Length
      invariant 0 <= i <= metricList.Length
      invariant forall j :: 0 <= j < i ==> metricList[j] == d[j]
      invariant forall j :: i <= j < metricList.Length ==> metricList[j] == ms[j]
    {
      var tags := InheritedTags(metricList, metricMap, i, ms);
      metricList[i] := metricList[i].(tags := tags);
      i := i + 1;
    }
    assert metricList[..] == d;
  }

  /**
   * Metric `i` in phase 1 with `p` still to walk: its tags lie between the
   * ones it started with and its phase-1 result, and the keys left on `p`
   * make up the difference.
   */
  ghost predicate Inheriting(ms: seq<Metric>, index: map<Path, nat>, i: nat, p: Path, tags: set<Tag>)
    requires i < |ms|
  {
    HasPrefix(Strip(ms[i].path), p) &&
    ms[i].tags <= tags <= Down(ms, index)[i].tags <= tags + Gather(KeysFrom(p), index, ms)
  }

  /**
   * One step up the path of metric `i` in phase 1: the key cut at the last
   * `.` contributes what the map finds under it, which the first phase also
   * gives metric `i`, and the walk goes on with the shorter prefix.
   */
  lemma InheritStep(ms: seq<Metric>, index: map<Path, nat>, i: nat, p: Path, tags: set<Tag>, found: set<Tag>)
    requires i < |ms| && ValidIndex(Paths(ms), index)
    requires Inheriting(ms, index, i, p, tags) && LastIndexByte(p, Dot) >= 0
    requires var key := p[..LastIndexByte(p, Dot) + 1];
      if key in index then index[key] < |ms| && ms[index[key]].tags <= found <= Down(ms, index)[index[key]].tags
      else found == {}
    ensures Inheriting(ms, index, i, p[..LastIndexByte(p, Dot)], tags + found)
  {
    var cut := LastIndexByte(p, Dot);
    var key := p[..cut + 1];
    assert KeysFrom(p) == [key] + KeysFrom(p[..cut]);
    if key in index {
      ParentFound(ms, index, i, p);
    }
  }

  /** A key the map finds on the walk up from metric `i` names a metric above it, whose phase-1 tags it inherits. */
  lemma ParentFound(ms: seq<Metric>, index: map<Path, nat>, i: nat, p: Path)
    requires i < |ms| && ValidIndex(Paths(ms), index)
    requires HasPrefix(Strip(ms[i].path), p) && LastIndexByte(p, Dot) >= 0
    requires p[..LastIndexByte(p, Dot) + 1] in index
    ensures var parent := index[p[..LastIndexByte(p, Dot) + 1]];
      parent < |ms| && Down(ms, index)[parent].tags <= Down(ms, index)[i].tags
  {
    var key := p[..LastIndexByte(p, Dot) + 1];
    var parent := index[key];
    assert Paths(ms)[parent] == key;
    NextKeyIsAncestor(ms[i].path, p);
    DownMonotone(ms, index, parent, i);
  }

  /**
   * The walk of phase 1 for metric `i` (tagger/tagger.go:191-212): the tags
   * of metric `i` once every directory above it has been looked up, when the
   * metrics before it are already done and the ones after it untouched.
   */
  method InheritedTags(metricList: array<Metric>, metricMap: map<Path, nat>, i: nat, ghost ms: seq<Metric>)
    returns (tags: set<Tag>)
    requires i < metricList.Length == |ms| && ValidIndex(Paths(ms), metricMap)
    requires forall j :: 0 <= j < metricList.Length ==>
      metricList[j].path == ms[j].path && ms[j].tags <= metricList[j].tags <= Down(ms, metricMap)[j].tags
    requires metricList[i] == ms[i]
    ensures tags == Down(ms, metricMap)[i].tags
  {
    tags := metricList[i].tags;
    var p := metricList[i].path;
    if |p| > 0 && p[|p| - 1] == Dot {
      p := p[..|p| - 1];
    }
    while true
      invariant Inheriting(ms, metricMap, i, p, tags)
      decreases |p|
    {
      var index := LastIndexByte(p, Dot);
      if index < 0 {
        break;
      }
      var key := p[..index + 1];
      if key in metricMap {
        var parent := metricMap[key];
        InheritStep(ms, metricMap, i, p, tags, metricList[parent].tags);
        tags := tags + metricList[parent].tags;
      } else {
        InheritStep(ms, metricMap, i, p, tags, {});
      }
      p := p[..index];
    }
  }

  /**
   * Phase 2 of Make (tagger/tagger.go:218-241), in place over the metric
   * list: each metric walks up its path and adds its current tags to every
   * directory the map finds there.
   */
  method CopyUp(metricList: array<Metric>, metricMap: map<Path, nat>)
    requires ValidIndex(Paths(metricList[..]), metricMap)
    modifies metricList
    ensures metricList[..] == Up(old(metricList[..]), metricMap)
  {
    ghost var ms := metricList[..];
    ghost var u := Up(ms, metricMap);
    var i := 0;
    while i < metricList.Length
      invariant 0 <= i <= metricList.Length
      invariant UpInProgress(metricList[..], ms, metricMap, i)
    {
      PushTags(metricList, metricMap, i, ms);
      i := i + 1;
    }
    forall a | 0 <= a < metricList.Length ensures metricList[a] == u[a] {
      assert metricList[a].tags == u[a].tags;
    }
    assert metricList[..] == u;
  }

  /**
   * The state of phase 2 once the first `i` metrics have pushed their tags:
   * paths unchanged, no metric beyond its final tags, and every directory
   * already holding what those `i` metrics had.
   */
  ghost predicate UpInProgress(cur: seq<Metric>, ms: seq<Metric>, index: map<Path, nat>, i: nat)
  {
    |cur| == |ms| && i <= |ms| &&
    (forall a :: 0 <= a < |ms| ==> cur[a].path == ms[a].path && ms[a].tags <= cur[a].tags <= Up(ms, index)[a].tags) &&
    (forall a :: 0 <= a < |ms| ==> Below(ms, index, a, i) <= cur[a].tags)
  }

  /** Adding the tags of metric `i` to a directory above it keeps phase 2 within its result. */
  lemma PushKeeps(cur: seq<Metric>, ms: seq<Metric>, index: map<Path, nat>, i: nat, parent: nat)
    requires UpInProgress(cur, ms, index, i) && i < |ms| && parent < |ms|
    requires Descends(ms, index, i, parent)
    ensures UpInProgress(cur[parent := cur[parent].(tags := cur[parent].tags + cur[i].tags)], ms, index, i)
  {
    UpMonotone(ms, index, i, parent);
  }

  /**
   * Metric `i` in phase 2 with `p` still to walk: every directory above it
   * that lies beyond `p` already holds its tags.
   */
  ghost predicate Pushing(cur: seq<Metric>, ms: seq<Metric>, index: map<Path, nat>, i: nat, p: Path)
  {
    UpInProgress(cur, ms, index, i) && i < |ms| && HasPrefix(Strip(ms[i].path), p) &&
    forall a :: 0 <= a < |ms| && Descends(ms, index, i, a) && |ms[a].path| > |p| ==> ms[i].tags <= cur[a].tags
  }

  /** The walk starts from the stripped path, beyond which no directory lies. */
  lemma PushStart(cur: seq<Metric>, ms: seq<Metric>, index: map<Path, nat>, i: nat)
    requires UpInProgress(cur, ms, index, i) && i < |ms|
    ensures Pushing(cur, ms, index, i, Strip(ms[i].path))
  {
    forall a | 0 <= a < |ms| && Descends(ms, index, i, a) ensures |ms[a].path| <= |Strip(ms[i].path)| {
      AncestorWithin(ms[a].path, ms[i].path);
    }
  }

  /**
   * One step up the path of metric `i` in phase 2: the directory the map
   * finds under the key cut at the last `.`, if any, is above metric `i` and
   * receives its tags, and the walk goes on with the shorter prefix.
   */
  lemma PushStep(cur: seq<Metric>, ms: seq<Metric>, index: map<Path, nat>, i: nat, p: Path)
    requires Pushing(cur, ms, index, i, p) && ValidIndex(Paths(ms), index) && LastIndexByte(p, Dot) >= 0
    ensures var cut := LastIndexByte(p, Dot); var key := p[..cut + 1];
      if key in index then
        index[key] < |ms| &&
        Pushing(cur[index[key] := cur[index[key]].(tags := cur[index[key]].tags + cur[i].tags)], ms, index, i, p[..cut])
      else Pushing(cur, ms, index, i, p[..cut])
  {
    var cut := LastIndexByte(p, Dot);
    var key := p[..cut + 1];
    var next := cur;
    if key in index {
      var parent := index[key];
      assert Paths(ms)[parent] == key;
      NextKeyIsAncestor(ms[i].path, p);
      PushKeeps(cur, ms, index, i, parent);
      next := cur[parent := cur[parent].(tags := cur[parent].tags + cur[i].tags)];
    }
    forall a | 0 <= a < |ms| && Descends(ms, index, i, a) && |ms[a].path| > cut
      ensures ms[i].tags <= next[a].tags
    {
      if |ms[a].path| <= |p| {
        NotYetWalked(ms[i].path, p, ms[a].path);
        assert ms[a].path == key;
      }
    }
  }

  /** When no `.` is left to walk, every directory above metric `i` holds its tags. */
  lemma PushDone(cur: seq<Metric>, ms: seq<Metric>, index: map<Path, nat>, i: nat, p: Path)
    requires Pushing(cur, ms, index, i, p) && LastIndexByte(p, Dot) < 0
    ensures UpInProgress(cur, ms, index, i + 1)
  {
    forall a | 0 <= a < |ms| && Descends(ms, index, i, a) ensures |ms[a].path| > |p| {
      if |ms[a].path| <= |p| {
        NotYetWalked(ms[i].path, p, ms[a].path);
      }
    }
  }

  /** The positions the map finds under `keys`. */
  function Targets(keys: seq<Path>, index: map<Path, nat>): set<nat>
  {
    set k | k in keys && k in index :: index[k]
  }

  /** `ms` with the tags `t` added to the metric at each position in `targets`. */
  function AddTo(ms: seq<Metric>, targets: set<nat>, t: set<Tag>): (r: seq<Metric>)
    ensures |r| == |ms|
  {
    seq(|ms|, a requires 0 <= a < |ms| => if a in targets then ms[a].(tags := ms[a].tags + t) else ms[a])
  }

  /**
   * The metrics phase 2 writes for metric `i` are exactly the directories
   * above it that the map finds.
   */
  lemma PushTargets(ms: seq<Metric>, index: map<Path, nat>, i: nat, a: nat)
    requires ValidIndex(Paths(ms), index) && i < |ms| && a < |ms|
    ensures a in Targets(AncestorKeys(ms[i].path), index) <==> Descends(ms, index, i, a)
  {
    AncestorKeysSpec(ms[i].path);
    if a in Targets(AncestorKeys(ms[i].path), index) {
      var k :| k in AncestorKeys(ms[i].path) && k in index && index[k] == a;
      assert Paths(ms)[a] == k;
    }
    if Descends(ms, index, i, a) {
      assert ms[a].path in AncestorKeys(ms[i].path);
    }
  }

  /** Looking up one more key adds the position the map finds under it, if any. */
  lemma TargetsSnoc(keys: seq<Path>, key: Path, index: map<Path, nat>)
    ensures Targets(keys + [key], index) == Targets(keys, index) + (if key in index then {index[key]} else {})
  {
  }

  /** Adding the tags of metric `i` to one more metric `x` extends the target set by `x`. */
  lemma AddToOne(before: seq<Metric>, targets: set<nat>, x: nat, i: nat)
    requires x < |before| && i < |before| && i !in targets
    ensures var cur := AddTo(before, targets, before[i].tags);
      cur[x := cur[x].(tags := cur[x].tags + cur[i].tags)] == AddTo(before, targets + {x}, before[i].tags)
  {
    var cur := AddTo(before, targets, before[i].tags);
    var next := cur[x := cur[x].(tags := cur[x].tags + cur[i].tags)];
    forall a | 0 <= a < |before| ensures next[a] == AddTo(before, targets + {x}, before[i].tags)[a] {
    }
  }

  /**
   * Metric `i` in phase 2, starting from `before`, having looked up `walked`
   * with `p` still to walk: exactly the metrics found under `walked` have
   * gained the tags metric `i` had at the start, and metric `i` is not one
   * of them.
   */
  ghost predicate Pushed(cur: seq<Metric>, before: seq<Metric>, ms: seq<Metric>, index: map<Path, nat>,
                         i: nat, walked: seq<Path>, p: Path)
  {
    |before| == |ms| && i < |ms| &&
    walked + KeysFrom(p) == AncestorKeys(ms[i].path) &&
    i !in Targets(walked, index) &&
    cur == AddTo(before, Targets(walked, index), before[i].tags)
  }

  /** Nothing has been written before the walk starts. */
  lemma PushedStart(before: seq<Metric>, ms: seq<Metric>, index: map<Path, nat>, i: nat)
    requires |before| == |ms| && i < |ms|
    ensures Pushed(before, before, ms, index, i, [], Strip(ms[i].path))
  {
    assert AddTo(before, {}, before[i].tags) == before;
  }

  /**
   * One step of the walk records its key: the metric the map finds under it,
   * if any, is not metric `i` and gains the tags metric `i` started with.
   */
  lemma PushRecord(cur: seq<Metric>, before: seq<Metric>, ms: seq<Metric>, index: map<Path, nat>,
                   i: nat, walked: seq<Path>, p: Path)
    requires Pushed(cur, before, ms, index, i, walked, p) && ValidIndex(Paths(ms), index)
    requires HasPrefix(Strip(ms[i].path), p) && LastIndexByte(p, Dot) >= 0
    ensures var cut := LastIndexByte(p, Dot); var key := p[..cut + 1];
      if key in index then
        index[key] < |cur| &&
        Pushed(cur[index[key] := cur[index[key]].(tags := cur[index[key]].tags + cur[i].tags)], before, ms, index, i, walked + [key], p[..cut])
      else Pushed(cur, before, ms, index, i, walked + [key], p[..cut])
  {
    var cut := LastIndexByte(p, Dot);
    var key := p[..cut + 1];
    var t := Targets(walked, index);
    assert KeysFrom(p) == [key] + KeysFrom(p[..cut]);
    assert walked + [key] + KeysFrom(p[..cut]) == walked + KeysFrom(p);
    TargetsSnoc(walked, key, index);
    if key in index {
      var parent := index[key];
      NextKeyIsAncestor(ms[i].path, p);
      assert Paths(ms)[parent] == key;
      AddToOne(before, t, parent, i);
    }
  }

  /** When no `.` is left to walk, every key of metric `i` has been looked up. */
  lemma PushedAll(cur: seq<Metric>, before: seq<Metric>, ms: seq<Metric>, index: map<Path, nat>,
                  i: nat, walked: seq<Path>, p: Path)
    requires Pushed(cur, before, ms, index, i, walked, p) && LastIndexByte(p, Dot) < 0
    ensures cur == AddTo(before, Targets(AncestorKeys(ms[i].path), index), before[i].tags)
  {
    assert walked == walked + KeysFrom(p);
  }

  /**
   * The walk of phase 2 for metric `i` (tagger/tagger.go:219-240): exactly
   * the directories above it that the map finds receive its current tags,
   * and no other metric changes.
   */
  method PushTags(metricList: array<Metric>, metricMap: map<Path, nat>, i: nat, ghost ms: seq<Metric>)
    requires i < metricList.Length && ValidIndex(Paths(ms), metricMap)
    requires UpInProgress(metricList[..], ms, metricMap, i)
    modifies metricList
    ensures metricList[..] == AddTo(old(metricList[..]), Targets(AncestorKeys(old(metricList[i].path)), metricMap), old(metricList[i].tags))
    ensures UpInProgress(metricList[..], ms, metricMap, i + 1)
  {
    ghost var before := metricList[..];
    ghost var walked: seq<Path> := [];
    assert before[i].path == ms[i].path;
    var p := metricList[i].path;
    if |p| > 0 && p[|p| - 1] == Dot {
      p := p[..|p| - 1];
    }
    PushStart(metricList[..], ms, metricMap, i);
    PushedStart(before, ms, metricMap, i);
    while true
      invariant Pushing(metricList[..], ms, metricMap, i, p)
      invariant Pushed(metricList[..], before, ms, metricMap, i, walked, p)
      decreases |p|
    {
      var index := LastIndexByte(p, Dot);
      if index < 0 {
        PushDone(metricList[..], ms, metricMap, i, p);
        PushedAll(metricList[..], before, ms, metricMap, i, walked, p);
        break;
      }
      PushStep(metricList[..], ms, metricMap, i, p);
      PushRecord(metricList[..], before, ms, metricMap, i, walked, p);
      var key := p[..index + 1];
      if key in metricMap {
        var parent := metricMap[key];
        ghost var cur := metricList[..];
        metricList[parent] := metricList[parent].(tags := metricList[parent].tags + metricList[i].tags);
        assert metricList[..] == cur[parent := cur[parent].(tags := cur[parent].tags + cur[i].tags)];
      }
      walked := walked + [key];
      p := p[..index];
    }
  }
}
