/** Raw bytes and byte strings: metric paths are byte slices of the corpus buffer. */
module Bytes {

  newtype byte = x: int | 0 <= x < 256

  /** A metric path (`Metric.Path` in tagger/tagger.go): raw bytes, not validated text. */
  type Path = seq<byte>

  /** The byte `.` that delimits the levels of a metric name. */
  const Dot: byte := 46

  /** `bytes.HasPrefix(s, prefix)`. */
  predicate HasPrefix(s: seq<byte>, prefix: seq<byte>)
  {
    |prefix| <= |s| && s[..|prefix|] == prefix
  }
}
