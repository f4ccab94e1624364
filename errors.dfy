/** The errors `Make` in tagger/tagger.go can return before any matching starts. */
module Errors {
  import opened Varint

  datatype Error =
    | RegexpError(rule: nat)                // `regexp.Compile` refused the pattern of this rule
    | UvarintError(cause: VarintError)      // `clickhouse.ReadUvarint` failed on a length prefix
    | ClickHouseResponse                    // `clickhouse.ErrClickHouseResponse`: entries overrun the buffer
}
