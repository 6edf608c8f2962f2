/** What several components share. */
module Basics {
  datatype Option<+T> = None | Some(value: T)

  type Byte = x: int | 0 <= x < 256

  function Min(a: nat, b: nat): nat {
    if a < b then a else b
  }

  function Max(a: nat, b: nat): (r: nat)
    ensures a <= r && b <= r
  {
    if a < b then b else a
  }

  /** payload_kv_groups_per_row: how many groups of `group` elements cover a row. */
  function Groups(elems: nat, group: nat): nat {
    if group == 0 then 0 else (elems + group - 1) / group
  }
}
