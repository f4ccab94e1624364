/**
 * The length prefix of a corpus entry: an unsigned LEB128 varint read the way
 * Go's encoding/binary reads a uint64 (at most ten bytes, the tenth being 0 or 1).
 */
module Varint {
  import opened Wrappers
  import opened Bytes

  /** The most bytes a varint holding a uint64 may take. */
  const MaxVarintLen64: nat := 10

  datatype VarintError = Truncated | Overflow

  /** A decoded varint: its value and the number of bytes it occupied. */
  datatype Uvarint = Uvarint(value: nat, size: nat)

  function Pow2(e: nat): (r: nat)
    ensures r >= 1
  {
    if e == 0 then 1 else 2 * Pow2(e - 1)
  }

  lemma {:induction false} Pow2Plus7(e: nat)
    ensures Pow2(e + 7) == 128 * Pow2(e)
  {
    assert Pow2(e + 7) == 2 * Pow2(e + 6) == 4 * Pow2(e + 5) == 8 * Pow2(e + 4)
        == 16 * Pow2(e + 3) == 32 * Pow2(e + 2) == 64 * Pow2(e + 1) == 128 * Pow2(e);
  }

  /**
   * Reads the rest of a varint whose first `k` bytes have already been consumed.
   * The value read here has room for `64 - 7 * k` more bits.
   */
  function ReadFrom(s: seq<byte>, k: nat): (r: Result<Uvarint, VarintError>)
    requires k < MaxVarintLen64
    ensures r.Ok? ==> 1 <= r.value.size <= |s| && r.value.size <= MaxVarintLen64 - k
    decreases |s|
  {
    if |s| == 0 then Err(Truncated)
    else if k == MaxVarintLen64 - 1 && s[0] > 1 then Err(Overflow)
    else if s[0] < 128 then
      Ok(Uvarint(s[0] as nat, 1))
    else
      match ReadFrom(s[1..], k + 1)
      case Err(e) => Err(e)
      case Ok(v) =>
        Ok(Uvarint((s[0] as nat - 128) + 128 * v.value, v.size + 1))
  }

  /**
   * `clickhouse.ReadUvarint`: the value and byte count of the varint at the
   * start of `s`. On success it consumed at least one and at most `|s|` bytes.
   */
  function ReadUvarint(s: seq<byte>): (r: Result<Uvarint, VarintError>)
    ensures r.Ok? ==> 1 <= r.value.size <= |s| && r.value.size <= MaxVarintLen64
  {
    ReadFrom(s, 0)
  }

  /** The canonical (shortest) LEB128 encoding of `n`. */
  function EncodeUvarint(n: nat): (r: seq<byte>)
    ensures 1 <= |r|
    decreases n
  {
    if n < 128 then [n as byte] else [(n % 128 + 128) as byte] + EncodeUvarint(n / 128)
  }

  /** `h` is a complete varint header announcing the value `n`. */
  ghost predicate IsHeader(h: seq<byte>, n: nat)
  {
    ReadUvarint(h) == Ok(Uvarint(n, |h|))
  }

  lemma {:induction false} ReadFromEncode(n: nat, k: nat, rest: seq<byte>)
    requires k < MaxVarintLen64 && n < Pow2(64 - 7 * k)
    ensures ReadFrom(EncodeUvarint(n) + rest, k) == Ok(Uvarint(n, |EncodeUvarint(n)|))
  {
    var e := EncodeUvarint(n);
    if n < 128 {
      if k == MaxVarintLen64 - 1 {
        assert Pow2(64 - 7 * k) == 2;
      }
      assert (e + rest)[0] == n as byte;
    } else {
      if k == MaxVarintLen64 - 1 {
        assert false;
      }
      Pow2Plus7(64 - 7 * (k + 1));
      assert (e + rest)[1..] == EncodeUvarint(n / 128) + rest;
      ReadFromEncode(n / 128, k + 1, rest);
    }
  }

  /** Decoding an encoded length gives it back, whatever bytes follow it. */
  lemma ReadEncode(n: nat, rest: seq<byte>)
    requires n < Pow2(64)
    ensures ReadUvarint(EncodeUvarint(n) + rest) == Ok(Uvarint(n, |EncodeUvarint(n)|))
  {
    ReadFromEncode(n, 0, rest);
  }

  lemma EncodeIsHeader(n: nat)
    requires n < Pow2(64)
    ensures IsHeader(EncodeUvarint(n), n)
  {
    ReadEncode(n, []);
    assert EncodeUvarint(n) + [] == EncodeUvarint(n);
  }

  lemma {:induction false} ReadFromPrefix(s: seq<byte>, k: nat)
    requires k < MaxVarintLen64 && ReadFrom(s, k).Ok?
    ensures ReadFrom(s[..ReadFrom(s, k).value.size], k) == ReadFrom(s, k)
    decreases |s|
  {
    var v := ReadFrom(s, k).value;
    if s[0] >= 128 {
      ReadFromPrefix(s[1..], k + 1);
      assert s[..v.size][1..] == s[1..][..v.size - 1];
    }
  }

  lemma {:induction false} ReadFromExtend(h: seq<byte>, rest: seq<byte>, k: nat)
    requires k < MaxVarintLen64 && ReadFrom(h, k).Ok? && ReadFrom(h, k).value.size == |h|
    ensures ReadFrom(h + rest, k) == ReadFrom(h, k)
    decreases |h|
  {
    assert (h + rest)[0] == h[0];
    if h[0] >= 128 {
      assert (h + rest)[1..] == h[1..] + rest;
      ReadFromExtend(h[1..], rest, k + 1);
    }
  }

  /** The bytes a successful read consumed form a header on their own. */
  lemma ReadIsHeader(s: seq<byte>)
    requires ReadUvarint(s).Ok?
    ensures IsHeader(s[..ReadUvarint(s).value.size], ReadUvarint(s).value.value)
  {
    ReadFromPrefix(s, 0);
  }

  /** A header reads the same whatever follows it. */
  lemma HeaderExtend(h: seq<byte>, n: nat, rest: seq<byte>)
    requires IsHeader(h, n)
    ensures ReadUvarint(h + rest) == Ok(Uvarint(n, |h|))
  {
    ReadFromExtend(h, rest, 0);
  }
}
