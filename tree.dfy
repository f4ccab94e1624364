/**
 * The prefix trie of tagger/tree.go: a node per byte prefix of some rule's
 * literal prefix, with 256 child slots and the rules filed under that node.
 * The nodes live in one arena owned by the trie; a child link (`*PrefixTree`)
 * is the child's position in that arena, the root is position 0.
 */
module Tree {
  import opened Wrappers
  import opened Bytes

  /** A rule, named by its position in the rule list (`*Tag` points into `rules.Tag`). */
  type RuleRef = nat

  /** One trie node: `Next [256]*PrefixTree` and `Rules []*Tag`. */
  datatype Node = Node(next: seq<Option<nat>>, rules: seq<RuleRef>)

  /** `PrefixTree{}`: no children, no rules. */
  function EmptyNode(): (n: Node)
    ensures |n.next| == 256 && n.rules == []
    ensures forall i :: 0 <= i < 256 ==> n.next[i] == None
  {
    Node(seq(256, _ => None), [])
  }

  /** The rules filed under `s` in a table of trie nodes; none when there is no node for `s`. */
  function Find(table: map<seq<byte>, seq<RuleRef>>, s: seq<byte>): seq<RuleRef>
  {
    if s in table then table[s] else []
  }

  /** `keyOf` inverts `index`, and every node but the root hangs below another. */
  ghost predicate Keyed(index: map<seq<byte>, nat>, keyOf: seq<seq<byte>>)
  {
    [] in index && index[[]] == 0 &&
    (forall s :: s in index ==> index[s] < |keyOf| && keyOf[index[s]] == s) &&
    (forall s, c: byte :: s + [c] in index ==> s in index)
  }

  /** The slot for byte `b` of the node for `s` points to the node for `s + [b]`, or is nil. */
  ghost predicate Linked(arena: seq<Node>, index: map<seq<byte>, nat>)
    requires forall s :: s in index ==> index[s] < |arena|
    requires forall i :: 0 <= i < |arena| ==> |arena[i].next| == 256
  {
    forall s, b: byte :: s in index ==>
      arena[index[s]].next[b] == (if s + [b] in index then Some(index[s + [b]]) else None)
  }

  /**
   * The arena holds a trie: `index` gives the node reached from the root
   * along each byte string (the root along the empty one), `keyOf` the byte
   * string of each node, and child slots point along one more byte.
   */
  ghost predicate Trie(arena: seq<Node>, index: map<seq<byte>, nat>, keyOf: seq<seq<byte>>)
  {
    |keyOf| == |arena| && Keyed(index, keyOf) &&
    (forall i :: 0 <= i < |arena| ==> |arena[i].next| == 256) &&
    Linked(arena, index)
  }

  /** The rules filed under each node, by the byte string that reaches it. */
  ghost function TableOf(arena: seq<Node>, index: map<seq<byte>, nat>): map<seq<byte>, seq<RuleRef>>
    requires forall s :: s in index ==> index[s] < |arena|
  {
    map s | s in index :: arena[index[s]].rules
  }

  /** Every byte string with a node has a node for each of its prefixes. */
  ghost predicate Closed(table: map<seq<byte>, seq<RuleRef>>)
  {
    forall s, c: byte :: s + [c] in table ==> s in table
  }

  lemma TableClosed(arena: seq<Node>, index: map<seq<byte>, nat>, keyOf: seq<seq<byte>>)
    requires Trie(arena, index, keyOf)
    ensures Closed(TableOf(arena, index)) && forall s :: s in TableOf(arena, index) <==> s in index
  {
  }

  /** A lone root is a trie. */
  lemma TrieRoot()
    ensures Trie([EmptyNode()], map[[] := 0], [[]])
  {
  }

  /** The node grown for `s + [b]`: the slot for `b` of the node for `s` points past the end. */
  function Grown(arena: seq<Node>, x: nat, b: byte): (r: seq<Node>)
    requires x < |arena| && |arena[x].next| == 256
    ensures |r| == |arena| + 1 && r[|arena|] == EmptyNode()
    ensures forall i :: 0 <= i < |arena| && i != x ==> r[i] == arena[i]
    ensures r[x] == arena[x].(next := arena[x].next[b := Some(|arena|)])
  {
    arena[x := arena[x].(next := arena[x].next[b := Some(|arena|)])] + [EmptyNode()]
  }

  lemma KeyedGrow(index: map<seq<byte>, nat>, keyOf: seq<seq<byte>>, s: seq<byte>, b: byte)
    requires Keyed(index, keyOf) && s in index && s + [b] !in index
    ensures Keyed(index[s + [b] := |keyOf|], keyOf + [s + [b]])
  {
    forall t, c: byte | t + [c] == s + [b] ensures t == s {
      assert (t + [c])[..|t|] == t && (s + [b])[..|s|] == s;
    }
  }

  /** A key outside `index` has no extension in `index` by one byte. */
  lemma NoOrphan(index: map<seq<byte>, nat>, keyOf: seq<seq<byte>>, t: seq<byte>, c: byte)
    requires Keyed(index, keyOf) && t !in index
    ensures t + [c] !in index
  {
  }

  lemma LinkedGrow(arena: seq<Node>, index: map<seq<byte>, nat>, keyOf: seq<seq<byte>>, s: seq<byte>, b: byte)
    requires Trie(arena, index, keyOf) && s in index && s + [b] !in index
    ensures Linked(Grown(arena, index[s], b), index[s + [b] := |arena|])
  {
    var x := index[s];
    var arena' := Grown(arena, x, b);
    var index' := index[s + [b] := |arena|];
    forall t, c: byte | t in index'
      ensures arena'[index'[t]].next[c] == (if t + [c] in index' then Some(index'[t + [c]]) else None)
    {
      if t == s + [b] {
        NoOrphan(index, keyOf, t, c);
        assert arena'[index'[t]] == EmptyNode();
      } else {
        assert t + [c] == s + [b] ==> t == s by {
          assert (t + [c])[..|t|] == t && (s + [b])[..|s|] == s;
        }
        assert index'[t] == index[t];
        if t != s {
          assert keyOf[index[t]] != keyOf[x];
          assert arena'[index[t]] == arena[index[t]];
          assert t + [c] in index' <==> t + [c] in index;
        }
      }
    }
  }

  /**
   * Appending a childless node for `s + [b]` and pointing the slot for `b` of
   * the node for `s` at it keeps a trie, and files no rules.
   */
  lemma TrieGrow(arena: seq<Node>, index: map<seq<byte>, nat>, keyOf: seq<seq<byte>>, s: seq<byte>, b: byte)
    requires Trie(arena, index, keyOf) && s in index && s + [b] !in index
    ensures Trie(Grown(arena, index[s], b), index[s + [b] := |arena|], keyOf + [s + [b]])
    ensures TableOf(Grown(arena, index[s], b), index[s + [b] := |arena|]) == TableOf(arena, index)[s + [b] := []]
  {
    KeyedGrow(index, keyOf, s, b);
    LinkedGrow(arena, index, keyOf, s, b);
  }

  /** The arena with `rule` filed last under node `x`. */
  function Filed(arena: seq<Node>, x: nat, rule: RuleRef): (r: seq<Node>)
    requires x < |arena|
    ensures |r| == |arena| && r[x].next == arena[x].next && r[x].rules == arena[x].rules + [rule]
    ensures forall i :: 0 <= i < |arena| && i != x ==> r[i] == arena[i]
  {
    arena[x := arena[x].(rules := arena[x].rules + [rule])]
  }

  /** Filing `rule` last under the node for `s` keeps the trie and changes the table at `s` only. */
  lemma TableFile(arena: seq<Node>, index: map<seq<byte>, nat>, keyOf: seq<seq<byte>>, s: seq<byte>, rule: RuleRef)
    requires Trie(arena, index, keyOf) && s in index
    ensures Trie(Filed(arena, index[s], rule), index, keyOf)
    ensures TableOf(Filed(arena, index[s], rule), index) == TableOf(arena, index)[s := Find(TableOf(arena, index), s) + [rule]]
  {
    var arena' := Filed(arena, index[s], rule);
    forall t | t in index ensures arena'[index[t]] == if t == s then arena[index[s]].(rules := arena[index[s]].rules + [rule]) else arena[index[t]] {
      if t != s {
        assert keyOf[index[t]] != keyOf[index[s]];
      }
    }
  }

  /** Extending a walk by one byte adds exactly one prefix. */
  lemma PrefixStep(p: seq<byte>, i: nat, s: seq<byte>)
    requires i < |p|
    ensures HasPrefix(p[..i + 1], s) <==> HasPrefix(p[..i], s) || s == p[..i + 1]
  {
    if HasPrefix(p[..i + 1], s) && |s| <= i {
      assert p[..i + 1][..|s|] == p[..i][..|s|];
    }
    if HasPrefix(p[..i], s) {
      assert p[..i + 1][..|s|] == p[..i][..|s|];
    }
  }

  /**
   * `(arena, index, keyOf)` is the trie `(arena0, index0, keyOf0)` after the
   * walk down `q` has created its missing nodes: the old nodes stay where they
   * were, the new ones are exactly the missing prefixes of `q`, and no rule
   * has been filed.
   */
  ghost predicate Extends(arena0: seq<Node>, index0: map<seq<byte>, nat>, keyOf0: seq<seq<byte>>,
                          arena: seq<Node>, index: map<seq<byte>, nat>, keyOf: seq<seq<byte>>, q: seq<byte>)
  {
    Trie(arena0, index0, keyOf0) && Trie(arena, index, keyOf) && q in index &&
    (forall s :: s in index0 ==> s in index && index[s] == index0[s]) &&
    (forall s :: s in index <==> s in index0 || HasPrefix(q, s)) &&
    (forall s :: Find(TableOf(arena, index), s) == Find(TableOf(arena0, index0), s))
  }

  lemma ExtendsStart(arena: seq<Node>, index: map<seq<byte>, nat>, keyOf: seq<seq<byte>>)
    requires Trie(arena, index, keyOf)
    ensures Extends(arena, index, keyOf, arena, index, keyOf, [])
  {
  }

  /** One step of the walk in `Add`: follow the slot for the next byte, growing the node when it is nil. */
  lemma ExtendsStep(arena0: seq<Node>, index0: map<seq<byte>, nat>, keyOf0: seq<seq<byte>>,
                    arena: seq<Node>, index: map<seq<byte>, nat>, keyOf: seq<seq<byte>>, prefix: seq<byte>, i: nat)
    requires i < |prefix| && Extends(arena0, index0, keyOf0, arena, index, keyOf, prefix[..i])
    ensures var x, b := index[prefix[..i]], prefix[i];
      if arena[x].next[b].None? then
        var arena' := Grown(arena, x, b);
        arena'[x].next[b] == Some(|arena|) &&
        Extends(arena0, index0, keyOf0, arena', index[prefix[..i + 1] := |arena|], keyOf + [prefix[..i + 1]], prefix[..i + 1])
      else
        prefix[..i + 1] in index && arena[x].next[b] == Some(index[prefix[..i + 1]]) &&
        Extends(arena0, index0, keyOf0, arena, index, keyOf, prefix[..i + 1])
  {
    var x, b := index[prefix[..i]], prefix[i];
    assert prefix[..i + 1] == prefix[..i] + [b];
    forall s ensures HasPrefix(prefix[..i + 1], s) <==> HasPrefix(prefix[..i], s) || s == prefix[..i + 1] {
      PrefixStep(prefix, i, s);
    }
    if arena[x].next[b].None? {
      ExtendsGrow(arena0, index0, keyOf0, arena, index, keyOf, prefix[..i], b);
    }
  }

  /** Growing the missing node for `q + [b]` extends the walk by one byte. */
  lemma ExtendsGrow(arena0: seq<Node>, index0: map<seq<byte>, nat>, keyOf0: seq<seq<byte>>,
                    arena: seq<Node>, index: map<seq<byte>, nat>, keyOf: seq<seq<byte>>, q: seq<byte>, b: byte)
    requires Extends(arena0, index0, keyOf0, arena, index, keyOf, q)
    requires (forall s :: HasPrefix(q + [b], s) <==> HasPrefix(q, s) || s == q + [b])
    requires arena[index[q]].next[b].None?
    ensures Grown(arena, index[q], b)[index[q]].next[b] == Some(|arena|)
    ensures Extends(arena0, index0, keyOf0, Grown(arena, index[q], b), index[q + [b] := |arena|], keyOf + [q + [b]], q + [b])
  {
    TrieGrow(arena, index, keyOf, q, b);
    var arena', index' := Grown(arena, index[q], b), index[q + [b] := |arena|];
    var before, after := TableOf(arena, index), TableOf(arena', index');
    assert after == before[q + [b] := []];
    forall s ensures Find(after, s) == Find(TableOf(arena0, index0), s) {
      assert Find(before, s) == Find(TableOf(arena0, index0), s);
    }
  }

  /** The end of the walk in `Add`: filing `rule` under the node reached. */
  lemma ExtendsFile(arena0: seq<Node>, index0: map<seq<byte>, nat>, keyOf0: seq<seq<byte>>,
                    arena: seq<Node>, index: map<seq<byte>, nat>, keyOf: seq<seq<byte>>, prefix: seq<byte>, rule: RuleRef)
    requires Extends(arena0, index0, keyOf0, arena, index, keyOf, prefix)
    ensures Trie(Filed(arena, index[prefix], rule), index, keyOf)
    ensures forall s :: Find(TableOf(Filed(arena, index[prefix], rule), index), s)
                        == Find(TableOf(arena0, index0), s) + (if s == prefix then [rule] else [])
  {
    TableFile(arena, index, keyOf, prefix, rule);
    var before, after := TableOf(arena, index), TableOf(Filed(arena, index[prefix], rule), index);
    assert after == before[prefix := Find(before, prefix) + [rule]];
    forall s ensures Find(after, s) == Find(TableOf(arena0, index0), s) + (if s == prefix then [rule] else []) {
      assert Find(before, s) == Find(TableOf(arena0, index0), s);
      if s != prefix {
        assert Find(after, s) == Find(before, s);
      }
    }
  }

  class PrefixTree {
    /** The nodes of the trie, the root first. */
    var arena: seq<Node>
    /** The node reached from the root along each byte string. */
    ghost var index: map<seq<byte>, nat>
    /** The byte string that reaches each node: the inverse of `index`. */
    ghost var keyOf: seq<seq<byte>>

    ghost predicate Valid()
      reads this
    {
      Trie(arena, index, keyOf)
    }

    /** The rules filed under each node, by the byte string that reaches it. */
    ghost function Table(): map<seq<byte>, seq<RuleRef>>
      reads this
      requires Valid()
    {
      TableOf(arena, index)
    }

    /** `&PrefixTree{}`: a lone root with no children and no rules. */
    constructor ()
      ensures Valid()
      ensures index == map[[] := 0] && Table() == map[[] := []]
    {
      arena := [EmptyNode()];
      index := map[[] := 0];
      keyOf := [[]];
      TrieRoot();
    }

    /**
     * `Add` (tagger/tree.go:8-24): walk down `prefix` from the root, creating
     * the missing nodes, and file `rule` last among the rules of the node
     * reached. Every existing node stays where it was.
     */
    method Add(prefix: seq<byte>, rule: RuleRef)
      requires Valid()
      modifies this
      ensures Valid()
      ensures forall s :: s in old(index) ==> s in index && index[s] == old(index[s])
      ensures forall s :: s in index <==> s in old(index) || HasPrefix(prefix, s)
      ensures forall s :: Find(Table(), s) == Find(old(Table()), s) + (if s == prefix then [rule] else [])
    {
      var x := 0;
      var i := 0;
      ExtendsStart(arena, index, keyOf);
      while i < |prefix|
        invariant 0 <= i <= |prefix|
        invariant Extends(old(arena), old(index), old(keyOf), arena, index, keyOf, prefix[..i])
        invariant x == index[prefix[..i]]
      {
        var b := prefix[i];
        ExtendsStep(old(arena), old(index), old(keyOf), arena, index, keyOf, prefix, i);
        if arena[x].next[b].None? {
          arena := Grown(arena, x, b);
          index := index[prefix[..i + 1] := |arena| - 1];
          keyOf := keyOf + [prefix[..i + 1]];
        }
        x := arena[x].next[b].value;
        i := i + 1;
      }
      assert prefix[..i] == prefix;
      ExtendsFile(old(arena), old(index), old(keyOf), arena, index, keyOf, prefix, rule);
      arena := Filed(arena, x, rule);
    }
  }
}
