/**
 * The metric corpus (tagger/tagger.go): a buffer of entries, each a varint
 * byte length followed by that many path bytes, decoded into the metric list
 * and the path-to-metric map.
 */
module Corpus {
  import opened Wrappers
  import opened Bytes
  import opened Varint
  import opened Errors

  /** A tag name, the key type of `Metric.Tags`. */
  type Tag = string

  /** One element of `metricList`: a path and the set of tags it has gained. */
  datatype Metric = Metric(path: Path, tags: set<Tag>)

  /** The paths of a metric list, in order. */
  function Paths(ms: seq<Metric>): (ps: seq<Path>)
    ensures |ps| == |ms| && forall i :: 0 <= i < |ms| ==> ps[i] == ms[i].path
  {
    seq(|ms|, i requires 0 <= i < |ms| => ms[i].path)
  }

  /** One entry of the buffer: the varint header and the path bytes it announces. */
  datatype Entry = Entry(header: seq<byte>, path: Path)

  /** The bytes an entry list occupies, in order. */
  function Flatten(es: seq<Entry>): seq<byte>
  {
    if es == [] then [] else es[0].header + es[0].path + Flatten(es[1..])
  }

  /** Each header is a varint announcing exactly its path's length. */
  ghost predicate WellFramed(es: seq<Entry>)
  {
    forall e :: e in es ==> IsHeader(e.header, |e.path|)
  }

  /**
   * The entries of `s`, read front to back as countMetrics and Make do: the
   * first failing varint, or an entry running past the end of `s`, is the
   * error.
   */
  function Entries(s: seq<byte>): (r: Result<seq<Entry>, Error>)
    ensures r.Ok? ==> (|r.value| == 0 <==> |s| == 0)
    decreases |s|
  {
    if |s| == 0 then Ok([])
    else match ReadUvarint(s)
      case Err(e) => Err(UvarintError(e))
      case Ok(v) =>
        if v.size + v.value > |s| then Err(ClickHouseResponse)
        else match Entries(s[v.size + v.value..])
          case Err(e) => Err(e)
          case Ok(rest) => Ok([Entry(s[..v.size], s[v.size..v.size + v.value])] + rest)
  }

  /** A non-empty buffer that decodes: its first entry, then the entries of the rest. */
  lemma EntriesFirst(s: seq<byte>) returns (e: Entry, n: nat)
    requires |s| > 0 && Entries(s).Ok?
    ensures n == |e.header| + |e.path| <= |s| && Entries(s[n..]).Ok?
    ensures Entries(s).value == [e] + Entries(s[n..]).value
    ensures IsHeader(e.header, |e.path|) && s == e.header + e.path + s[n..]
  {
    var v := ReadUvarint(s).value;
    n := v.size + v.value;
    e := Entry(s[..v.size], s[v.size..n]);
    assert Entries(s) == Ok([e] + Entries(s[n..]).value);
    assert IsHeader(e.header, |e.path|) by {
      ReadIsHeader(s);
    }
    SplitThree(s, v.size, n);
  }

  /** Cutting `s` at `i` and at `j` and putting the pieces back together gives `s`. */
  lemma SplitThree(s: seq<byte>, i: nat, j: nat)
    requires i <= j <= |s|
    ensures s == s[..i] + s[i..j] + s[j..]
  {
  }

  /** Decoded entries tile the buffer exactly, each behind a header announcing its length. */
  lemma {:induction false} EntriesTile(s: seq<byte>)
    requires Entries(s).Ok?
    ensures Flatten(Entries(s).value) == s && WellFramed(Entries(s).value)
    decreases |s|
  {
    if |s| > 0 {
      var e, n := EntriesFirst(s);
      var rest := Entries(s[n..]).value;
      EntriesTile(s[n..]);
      var es := [e] + rest;
      assert es[0] == e && es[1..] == rest;
      assert Flatten(es) == e.header + e.path + Flatten(rest);
      forall x | x in es ensures IsHeader(x.header, |x.path|) {
        if x != e {
          assert x in rest;
        }
      }
    }
  }

  /** A well-framed entry in front of a buffer is decoded first, ahead of that buffer's entries. */
  lemma EntriesCons(e: Entry, rest: seq<byte>)
    requires IsHeader(e.header, |e.path|) && Entries(rest).Ok?
    ensures Entries(e.header + e.path + rest) == Ok([e] + Entries(rest).value)
  {
    var s := e.header + e.path + rest;
    assert s == e.header + (e.path + rest);
    HeaderExtend(e.header, |e.path|, e.path + rest);
    var n := |e.header| + |e.path|;
    assert s[..|e.header|] == e.header;
    assert s[|e.header|..n] == e.path;
    assert s[n..] == rest;
  }

  /** Conversely, a buffer tiled by well-framed entries decodes to exactly those entries. */
  lemma {:induction false} TiledDecodes(es: seq<Entry>)
    requires WellFramed(es)
    ensures Entries(Flatten(es)) == Ok(es)
  {
    if es != [] {
      var e := es[0];
      assert WellFramed(es[1..]) by {
        forall x | x in es[1..] ensures IsHeader(x.header, |x.path|) { assert x in es; }
      }
      TiledDecodes(es[1..]);
      assert e in es;
      EntriesCons(e, Flatten(es[1..]));
      assert [e] + es[1..] == es;
    }
  }

  /**
   * The paths of an entry list. `Paths` does the same for a metric list;
   * the two are kept apart because an entry is what the buffer holds and a
   * metric is what the decode loop makes of it, and Dafny has no common
   * supertype for the two records here.
   */
  function PathsOf(es: seq<Entry>): (ps: seq<Path>)
    ensures |ps| == |es| && forall i :: 0 <= i < |es| ==> ps[i] == es[i].path
  {
    seq(|es|, i requires 0 <= i < |es| => es[i].path)
  }

  /** The buffer a writer produces for `paths`: each path behind its shortest varint length. */
  function Encode(paths: seq<Path>): seq<byte>
  {
    if paths == [] then [] else EncodeUvarint(|paths[0]|) + paths[0] + Encode(paths[1..])
  }

  /** Decoding an encoded corpus recovers exactly the original ordered paths. */
  lemma {:induction false} DecodeEncode(paths: seq<Path>)
    requires forall p :: p in paths ==> |p| < Pow2(64)
    ensures Entries(Encode(paths)).Ok?
    ensures PathsOf(Entries(Encode(paths)).value) == paths
  {
    var es := seq(|paths|, i requires 0 <= i < |paths| => Entry(EncodeUvarint(|paths[i]|), paths[i]));
    assert WellFramed(es) by {
      forall e | e in es ensures IsHeader(e.header, |e.path|) {
        var i :| 0 <= i < |es| && es[i] == e;
        assert paths[i] in paths;
        EncodeIsHeader(|paths[i]|);
      }
    }
    EncodeFlatten(paths, es);
    TiledDecodes(es);
  }

  lemma {:induction false} EncodeFlatten(paths: seq<Path>, es: seq<Entry>)
    requires |es| == |paths|
    requires forall i :: 0 <= i < |paths| ==> es[i] == Entry(EncodeUvarint(|paths[i]|), paths[i])
    ensures Flatten(es) == Encode(paths)
  {
    if paths != [] {
      EncodeFlatten(paths[1..], es[1..]);
    }
  }

  /** The number of entries, or the decoding error. */
  function CountOf(r: Result<seq<Entry>, Error>): Result<nat, Error>
  {
    match r
    case Ok(es) => Ok(|es|)
    case Err(e) => Err(e)
  }

  function Shifted(r: Result<nat, Error>, c: nat): Result<nat, Error>
  {
    match r
    case Ok(n) => Ok(n + c)
    case Err(e) => Err(e)
  }

  /** What the scan of countMetrics returns from `offset` on, `count` entries having been counted so far. */
  function Remaining(body: seq<byte>, offset: nat, count: nat): Result<nat, Error>
  {
    if offset <= |body| then Shifted(CountOf(Entries(body[offset..])), count) else Err(ClickHouseResponse)
  }

  /**
   * One step of the scan at `offset`: a failing varint is the result, and
   * otherwise the scan goes on behind the entry, one entry further.
   */
  lemma CountStep(body: seq<byte>, offset: nat, count: nat)
    requires offset < |body|
    ensures ReadUvarint(body[offset..]).Err? ==>
      Remaining(body, offset, count) == Err(UvarintError(ReadUvarint(body[offset..]).error))
    ensures ReadUvarint(body[offset..]).Ok? ==>
      var read := ReadUvarint(body[offset..]).value;
      Remaining(body, offset, count) == Remaining(body, offset + read.size + read.value, count + 1)
  {
    var s := body[offset..];
    if ReadUvarint(s).Ok? {
      var read := ReadUvarint(s).value;
      var n := read.size + read.value;
      if n <= |s| {
        assert s[n..] == body[offset + n..];
        match Entries(s[n..])
        case Err(e) =>
        case Ok(rest) =>
          assert |Entries(s).value| == 1 + |rest|;
      }
    }
  }

  /**
   * countMetrics: the number of entries tiling `body`, or the error that stops
   * the scan (an empty body has none).
   */
  method CountMetrics(body: seq<byte>) returns (r: Result<nat, Error>)
    ensures r == CountOf(Entries(body))
  {
    var count, offset := 0, 0;
    assert body[0..] == body;
    while true
      invariant CountOf(Entries(body)) == Remaining(body, offset, count)
      decreases if offset <= |body| then |body| - offset + 1 else 0
    {
      if offset >= |body| {
        if offset == |body| {
          assert body[offset..] == [];
          r := Ok(count);
          break;
        }
        r := Err(ClickHouseResponse);
        break;
      }
      CountStep(body, offset, count);
      var read := ReadUvarint(body[offset..]);
      if read.Err? {
        r := Err(UvarintError(read.error));
        break;
      }
      offset := offset + read.value.size + read.value.value;
      count := count + 1;
    }
  }

  /** Go's 64-bit `int`: `x` wrapped into the range from -2^63 to 2^63 - 1. */
  function WrapInt64(x: int): (r: int)
    ensures -0x8000_0000_0000_0000 <= r < 0x8000_0000_0000_0000
    ensures (r - x) % 0x1_0000_0000_0000_0000 == 0
  {
    (x + 0x8000_0000_0000_0000) % 0x1_0000_0000_0000_0000 - 0x8000_0000_0000_0000
  }

  /**
   * The offset update of countMetrics as written (tagger/tagger.go:45),
   * `offset += readBytes + int(namelen)`, in Go's 64-bit `int`.
   */
  function GoNextOffset(offset: int, read: Uvarint): int
  {
    WrapInt64(offset + WrapInt64(read.size + WrapInt64(read.value)))
  }

  /** A corpus of ten bytes: one varint announcing a path of 2^64 - 10 bytes. */
  const StallBody: seq<byte> := [0xF6, 0xFF, 0xFF, 0xFF, 0xFF, 0xFF, 0xFF, 0xFF, 0xFF, 0x01]

  /**
   * On `StallBody` the Go loop reads the ten-byte length 2^64 - 10, whose
   * `int` conversion is -10, so the offset update adds nothing: the next turn
   * starts again at offset 0 and countMetrics never returns.
   */
  lemma CountStallsAsWritten()
    ensures ReadUvarint(StallBody) == Ok(Uvarint(0x1_0000_0000_0000_0000 - 10, 10))
    ensures GoNextOffset(0, ReadUvarint(StallBody).value) == 0
  {
    var s := StallBody;
    assert s[1..][1..][1..][1..][1..][1..][1..][1..][1..] == [0x01];
  }

  /**
   * The scan as modelled rejects `StallBody`: its one entry runs past the
   * buffer, so countMetrics returns ErrClickHouseResponse.
   */
  lemma CountRejectsStall()
    ensures CountOf(Entries(StallBody)) == Err(ClickHouseResponse)
  {
    CountStallsAsWritten();
  }

  /** countMetrics returns a count exactly when `body` is tiled by well-framed entries. */
  lemma CountIffTiled(body: seq<byte>)
    ensures CountOf(Entries(body)).Ok? <==> exists es :: Flatten(es) == body && WellFramed(es)
  {
    if Entries(body).Ok? {
      EntriesTile(body);
    } else {
      forall es | Flatten(es) == body && WellFramed(es) ensures false {
        TiledDecodes(es);
      }
    }
  }

  /**
   * One turn of Make's decode loop: the varint at `offset` announces the
   * first entry of what is left of the body, whose path is cut out, and the
   * rest of the entries start right behind it.
   */
  method ReadEntry(body: seq<byte>, offset: nat) returns (path: Path, next: nat)
    requires offset < |body| && Entries(body[offset..]).Ok?
    ensures offset < next <= |body| && Entries(body[next..]).Ok?
    ensures var es := Entries(body[offset..]).value; |es| > 0 && es[0].path == path && es[1..] == Entries(body[next..]).value
  {
    ghost var s := body[offset..];
    // the varint error return of the loop cannot be taken
    var read := ReadUvarint(body[offset..]).value;
    var namelen, readBytes := read.value, read.size;
    path := body[offset + readBytes..offset + readBytes + namelen];
    next := offset + readBytes + namelen;
    assert s[readBytes + namelen..] == body[next..];
  }

  /**
   * metricMap after the decode loop has stored `paths` in order: defined on
   * exactly the decoded paths, each mapped to a metric with that path, the
   * last one when a path occurs twice.
   */
  function IndexOf(paths: seq<Path>): map<Path, nat>
  {
    if paths == [] then map[] else IndexOf(paths[..|paths| - 1])[paths[|paths| - 1] := |paths| - 1]
  }

  lemma {:induction false} IndexOfSpec(paths: seq<Path>)
    ensures forall k :: k in IndexOf(paths) <==> k in paths
    ensures ValidIndex(paths, IndexOf(paths))
    ensures forall k, j :: k in IndexOf(paths) && IndexOf(paths)[k] < j < |paths| ==> paths[j] != k
  {
    if paths != [] {
      var init := paths[..|paths| - 1];
      IndexOfSpec(init);
      forall k ensures k in paths <==> k in init || k == paths[|paths| - 1] {
        assert paths == init + [paths[|paths| - 1]];
      }
    }
  }

  /** Storing the next decoded path extends the map of the paths before it. */
  lemma IndexOfNext(paths: seq<Path>, i: nat)
    requires i < |paths|
    ensures IndexOf(paths[..i + 1]) == IndexOf(paths[..i])[paths[i] := i]
  {
    assert paths[..i + 1][..i] == paths[..i];
  }

  /** Every key of the metric map leads to a metric carrying that path. */
  ghost predicate ValidIndex(paths: seq<Path>, metricMap: map<Path, nat>)
  {
    forall k :: k in metricMap ==> metricMap[k] < |paths| && paths[metricMap[k]] == k
  }

  /**
   * The decode loop of Make (tagger/tagger.go:114-140), run once
   * countMetrics has returned `count`, the number of entries `es` tiling
   * `body`: fills the `count` metrics of `metricList` in place, metric i
   * holding the path bytes of entry i and an empty tag set, and indexes them
   * by path in `metricMap`. Neither of its error returns can be taken, and
   * every slice it takes lies within `body`.
   */
  method DecodeMetrics(body: seq<byte>, count: nat, ghost es: seq<Entry>) returns (metricList: array<Metric>, metricMap: map<Path, nat>)
    requires Entries(body) == Ok(es) && count == |es|
    ensures fresh(metricList) && metricList.Length == count
    ensures Paths(metricList[..]) == PathsOf(es)
    ensures forall i :: 0 <= i < count ==> metricList[i].tags == {}
    ensures metricMap == IndexOf(Paths(metricList[..]))
  {
    metricList := new Metric[count](_ => Metric([], {}));
    metricMap := map[];
    ghost var paths := PathsOf(es);
    var offset, index := 0, 0;
    assert body[offset..] == body;
    while offset < |body|
      invariant index <= count && offset <= |body|
      invariant Entries(body[offset..]) == Ok(es[index..])
      invariant forall i :: 0 <= i < index ==> metricList[i] == Metric(paths[i], {})
      invariant metricMap == IndexOf(paths[..index])
      decreases |body| - offset
    {
      var path, next := ReadEntry(body, offset);
      metricList[index] := Metric(path, {});
      IndexOfNext(paths, index);
      metricMap := metricMap[path := index];
      offset := next;
      index := index + 1;
    }
    assert paths[..index] == paths == Paths(metricList[..]);
  }

}
