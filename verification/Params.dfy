/** The in-situ parameters (params.h), numbered from 1. */
module Params {
  import opened Bytes

  const PARAMS: nat := 46

  predicate Insitu(p: u8) { 1 <= p <= PARAMS }
}
