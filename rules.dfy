/**
 * The rule list of tagger/tagger.go (`rules.Tag`, Go type `Tag`) and the
 * byte forms Make derives from each rule before matching.
 */
module Rules {
  import opened Wrappers
  import opened Bytes

  /**
   * One rule as the rule file gives it (its condition strings) together with
   * the byte slices Make derives from them. A derived slice stays absent
   * (`nil` in Go) when its condition string is empty.
   */
  datatype Rule = Rule(
    equal: seq<byte>, contains: seq<byte>, hasPrefix: seq<byte>, hasSuffix: seq<byte>, regexp: seq<byte>,
    bytesEqual: Option<seq<byte>>, bytesContains: Option<seq<byte>>,
    bytesHasPrefix: Option<seq<byte>>, bytesHasSuffix: Option<seq<byte>>)

  /** A rule as the rule file decodes it: none of the derived slices set yet. */
  predicate Loaded(r: Rule)
  {
    r.bytesEqual.None? && r.bytesContains.None? && r.bytesHasPrefix.None? && r.bytesHasSuffix.None?
  }

  /** `if s != "" { field = []byte(s) }`: set a derived slice only for a non-empty condition. */
  function Derive(s: seq<byte>, field: Option<seq<byte>>): Option<seq<byte>>
  {
    if s != [] then Some(s) else field
  }

  /** The body of the conversion loop for one rule. */
  function Compile(r: Rule): Rule
  {
    r.(bytesEqual := Derive(r.equal, r.bytesEqual),
       bytesContains := Derive(r.contains, r.bytesContains),
       bytesHasPrefix := Derive(r.hasPrefix, r.bytesHasPrefix),
       bytesHasSuffix := Derive(r.hasSuffix, r.bytesHasSuffix))
  }

  function CompileAll(rs: seq<Rule>): (cs: seq<Rule>)
    ensures |cs| == |rs| && forall i :: 0 <= i < |rs| ==> cs[i] == Compile(rs[i])
  {
    seq(|rs|, i requires 0 <= i < |rs| => Compile(rs[i]))
  }

  /** No rule carries an empty literal prefix: the trie never holds a rule at its root. */
  predicate PrefixesNonEmpty(rs: seq<Rule>)
  {
    forall i :: 0 <= i < |rs| ==> rs[i].bytesHasPrefix != Some([])
  }

  /**
   * Compiling loaded rules gives each one a literal prefix exactly when its
   * `HasPrefix` condition is non-empty, and then that prefix.
   */
  lemma CompileLoaded(rs: seq<Rule>)
    requires forall i :: 0 <= i < |rs| ==> Loaded(rs[i])
    ensures PrefixesNonEmpty(CompileAll(rs))
    ensures forall i :: 0 <= i < |rs| ==>
      CompileAll(rs)[i].bytesHasPrefix == (if rs[i].hasPrefix == [] then None else Some(rs[i].hasPrefix))
  {
  }

  /**
   * The first rule whose regular expression does not compile, by the
   * `regexpValid` stand-in for `regexp.Compile`; None when all compile.
   */
  function FirstInvalid(rs: seq<Rule>, regexpValid: seq<byte> -> bool): (r: Option<nat>)
    ensures r.None? <==> forall j :: 0 <= j < |rs| ==> regexpValid(rs[j].regexp)
    ensures r.Some? ==> r.value < |rs| && !regexpValid(rs[r.value].regexp) &&
                        forall j :: 0 <= j < r.value ==> regexpValid(rs[j].regexp)
  {
    if rs == [] then None
    else if !regexpValid(rs[0].regexp) then Some(0)
    else match FirstInvalid(rs[1..], regexpValid)
      case None => None
      case Some(j) => Some(j + 1)
  }

  /**
   * The conversion loop of Make (tagger/tagger.go:65-85), in place over the
   * rule list: every rule gets its derived byte slices, or the loop stops at
   * the first rule whose pattern does not compile, leaving the rules from
   * there on as they were.
   */
  method CompileRules(rules: array<Rule>, regexpValid: seq<byte> -> bool) returns (err: Option<nat>)
    modifies rules
    ensures err == FirstInvalid(old(rules[..]), regexpValid)
    ensures err.None? ==> rules[..] == CompileAll(old(rules[..]))
    ensures err.Some? ==> rules[..] == CompileAll(old(rules[..err.value])) + old(rules[err.value..])
  {
    var i := 0;
    while i < rules.Length
      invariant i <= rules.Length
      invariant Converting(old(rules[..]), rules[..], i, regexpValid)
    {
      if !regexpValid(rules[i].regexp) {
        FirstInvalidAt(old(rules[..]), regexpValid, i);
        CompiledUpTo(old(rules[..]), rules[..], i, regexpValid);
        return Some(i);
      }
      ConvertStep(old(rules[..]), rules[..], i, regexpValid);
      rules[i] := Compile(rules[i]);
      i := i + 1;
    }
    CompiledUpTo(old(rules[..]), rules[..], i, regexpValid);
    return None;
  }

  /**
   * The rule list `cur` is `rs` with the first `i` rules converted, each of
   * them with a pattern that compiles, and the others as they were.
   */
  ghost predicate Converting(rs: seq<Rule>, cur: seq<Rule>, i: nat, regexpValid: seq<byte> -> bool)
  {
    i <= |rs| == |cur| &&
    (forall j :: 0 <= j < i ==> regexpValid(rs[j].regexp) && cur[j] == Compile(rs[j])) &&
    (forall j :: i <= j < |rs| ==> cur[j] == rs[j])
  }

  lemma ConvertStep(rs: seq<Rule>, cur: seq<Rule>, i: nat, regexpValid: seq<byte> -> bool)
    requires Converting(rs, cur, i, regexpValid) && i < |cur| && regexpValid(cur[i].regexp)
    ensures Converting(rs, cur[i := Compile(cur[i])], i + 1, regexpValid)
  {
  }

  lemma FirstInvalidAt(rs: seq<Rule>, regexpValid: seq<byte> -> bool, i: nat)
    requires i < |rs| && !regexpValid(rs[i].regexp) && forall j :: 0 <= j < i ==> regexpValid(rs[j].regexp)
    ensures FirstInvalid(rs, regexpValid) == Some(i)
  {
    var r := FirstInvalid(rs, regexpValid);
    assert r.Some? ==> r.value >= i;
  }

  /** A rule list converted up to position `i` and untouched from there on. */
  lemma CompiledUpTo(rs: seq<Rule>, cur: seq<Rule>, i: nat, regexpValid: seq<byte> -> bool)
    requires Converting(rs, cur, i, regexpValid)
    ensures cur == CompileAll(rs[..i]) + rs[i..]
    ensures i == |rs| ==> cur == CompileAll(rs) && FirstInvalid(rs, regexpValid).None?
  {
    if i == |rs| {
      assert rs[..i] == rs;
    }
  }

  /** The rules, in order, whose literal prefix is exactly `s`: the rule list of the trie node for `s`. */
  function PrefixRules(rs: seq<Rule>, s: seq<byte>): (r: seq<nat>)
    ensures forall j: nat :: j in r <==> j < |rs| && rs[j].bytesHasPrefix == Some(s)
    ensures forall a, b :: 0 <= a < b < |r| ==> r[a] < r[b]
  {
    if rs == [] then []
    else
      var init := PrefixRules(rs[..|rs| - 1], s);
      assert forall k :: 0 <= k < |init| ==> init[k] in init;
      init + (if rs[|rs| - 1].bytesHasPrefix == Some(s) then [|rs| - 1] else [])
  }

  /** Taking one more rule into account appends it to the list for its own prefix. */
  lemma PrefixRulesSnoc(rs: seq<Rule>, i: nat)
    requires i < |rs|
    ensures forall s :: PrefixRules(rs[..i + 1], s) == PrefixRules(rs[..i], s) + (if rs[i].bytesHasPrefix == Some(s) then [i] else [])
  {
    assert rs[..i + 1][..i] == rs[..i];
  }

  /** The rules, in order, that carry no literal prefix: those the full scan offers to every metric. */
  function ScanRules(rs: seq<Rule>): (r: seq<nat>)
    ensures forall j: nat :: j in r <==> j < |rs| && rs[j].bytesHasPrefix.None?
    ensures forall a, b :: 0 <= a < b < |r| ==> r[a] < r[b]
  {
    if rs == [] then []
    else
      var init := ScanRules(rs[..|rs| - 1]);
      assert forall k :: 0 <= k < |init| ==> init[k] in init;
      init + (if rs[|rs| - 1].bytesHasPrefix.None? then [|rs| - 1] else [])
  }

  /** Taking one more rule into account appends it to the full-scan list when it has no literal prefix. */
  lemma ScanRulesSnoc(rs: seq<Rule>, i: nat)
    requires i < |rs|
    ensures ScanRules(rs[..i + 1]) == ScanRules(rs[..i]) + (if rs[i].bytesHasPrefix.None? then [i] else [])
  {
    assert rs[..i + 1][..i] == rs[..i];
  }
}
