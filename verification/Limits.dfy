/** The hard caps on what may be pulled from a backend. */
module Limits {

  const MAX_PULLED_VECTORS: nat := 100_000_000
  const MAX_PULLED_DIM: nat := 8192
  const MAX_PULLED_BYTES: nat := 16 * 1024 * 1024 * 1024
}
