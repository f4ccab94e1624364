/**
 * The metric hierarchy as tagger/tagger.go walks it: a metric's ancestors are
 * the metrics whose paths are its proper prefixes ending in `.`, found by
 * cutting the path at its last `.` again and again.
 */
module Hierarchy {
  import opened Bytes

  /** `bytes.LastIndexByte(s, c)`: the last position holding `c`, or -1 when there is none. */
  function LastIndexByte(s: seq<byte>, c: byte): (r: int)
    ensures -1 <= r < |s|
    ensures r >= 0 ==> s[r] == c
    ensures forall j :: r < j < |s| ==> s[j] != c
  {
    if s == [] then -1
    else if s[|s| - 1] == c then |s| - 1
    else LastIndexByte(s[..|s| - 1], c)
  }

  /** A path naming a directory: it ends in `.`. */
  predicate EndsInDot(p: Path)
  {
    |p| > 0 && p[|p| - 1] == Dot
  }

  /** The path with one trailing `.` removed, as both copy loops do before walking up. */
  function Strip(p: Path): Path
  {
    if EndsInDot(p) then p[..|p| - 1] else p
  }

  /**
   * The keys the copy loops look up while walking `p` upwards: `p` up to and
   * including each `.` it holds, the longest first.
   */
  function KeysFrom(p: Path): seq<Path>
    decreases |p|
  {
    var i := LastIndexByte(p, Dot);
    if i < 0 then [] else [p[..i + 1]] + KeysFrom(p[..i])
  }

  /** The keys looked up for a metric with path `path`. */
  function AncestorKeys(path: Path): seq<Path>
  {
    KeysFrom(Strip(path))
  }

  /** `k` is the path of a directory above `p`: a proper prefix of `p` ending in `.`. */
  predicate IsAncestor(k: Path, p: Path)
  {
    |k| < |p| && HasPrefix(p, k) && EndsInDot(k)
  }

  /** The walk from `p` looks up exactly the prefixes of `p` that end in `.`. */
  lemma {:induction false} KeysFromSpec(p: Path)
    ensures forall k :: k in KeysFrom(p) <==> HasPrefix(p, k) && EndsInDot(k)
    decreases |p|
  {
    var i := LastIndexByte(p, Dot);
    if i >= 0 {
      KeysFromSpec(p[..i]);
      forall k ensures k in KeysFrom(p) <==> HasPrefix(p, k) && EndsInDot(k) {
        if HasPrefix(p, k) && EndsInDot(k) {
          assert p[|k| - 1] == Dot;
          if |k| <= i {
            assert HasPrefix(p[..i], k);
          } else {
            assert k == p[..i + 1];
          }
        }
      }
    } else {
      forall k ensures !(HasPrefix(p, k) && EndsInDot(k)) {
        if 0 < |k| <= |p| {
          assert p[|k| - 1] != Dot;
        }
      }
    }
  }

  /**
   * The keys looked up for a metric are exactly the paths of the directories
   * above it, whether or not its own path ends in `.`.
   */
  lemma AncestorKeysSpec(path: Path)
    ensures forall k :: k in AncestorKeys(path) <==> IsAncestor(k, path)
  {
    KeysFromSpec(Strip(path));
    forall k ensures HasPrefix(Strip(path), k) && EndsInDot(k) <==> IsAncestor(k, path) {
      if EndsInDot(path) && |k| < |path| {
        assert Strip(path)[..|k|] == path[..|k|];
      }
    }
  }

  /** A directory above a directory above `p` is above `p`. */
  lemma AncestorTransitive(a: Path, b: Path, c: Path)
    requires IsAncestor(a, b) && IsAncestor(b, c)
    ensures IsAncestor(a, c)
  {
    assert c[..|b|][..|a|] == c[..|a|];
  }

  /** Every directory above `path` is a prefix of the stripped path the walk starts from. */
  lemma AncestorWithin(k: Path, path: Path)
    requires IsAncestor(k, path)
    ensures HasPrefix(Strip(path), k)
  {
    AncestorKeysSpec(path);
    KeysFromSpec(Strip(path));
  }

  /** Each key the walk from `p` looks up next is the path of a directory above `path`. */
  lemma NextKeyIsAncestor(path: Path, p: Path)
    requires HasPrefix(Strip(path), p) && LastIndexByte(p, Dot) >= 0
    ensures IsAncestor(p[..LastIndexByte(p, Dot) + 1], path)
  {
    var k := p[..LastIndexByte(p, Dot) + 1];
    KeysFromSpec(Strip(path));
    assert Strip(path)[..|k|] == k;
    assert k in AncestorKeys(path);
    AncestorKeysSpec(path);
  }

  /**
   * A directory above `path` that is not longer than the part `p` still to
   * walk ends at or before the next `.` the walk finds.
   */
  lemma NotYetWalked(path: Path, p: Path, k: Path)
    requires HasPrefix(Strip(path), p) && IsAncestor(k, path) && |k| <= |p|
    ensures HasPrefix(p, k) && LastIndexByte(p, Dot) >= |k| - 1
  {
    AncestorWithin(k, path);
    assert p[..|k|] == Strip(path)[..|k|];
    assert p[|k| - 1] == k[|k| - 1];
  }
}
