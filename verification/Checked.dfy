/** Size arithmetic that reports overflow instead of wrapping, for a 64-bit size_t. */
module Checked {
  import opened Wrappers

  const SIZE_MAX: nat := 0xffff_ffff_ffff_ffff

  function CheckedAdd(left: nat, right: nat): Option<nat> {
    if left > SIZE_MAX || right > SIZE_MAX - left then None else Some(left + right)
  }

  function CheckedMul(left: nat, right: nat): Option<nat> {
    if left != 0 && right > SIZE_MAX / left then None else Some(left * right)
  }

  /** Products of two 32-bit numbers never overflow. */
  lemma SmallProduct(left: nat, right: nat)
    requires left < 0x1_0000_0000 && right < 0x1_0000_0000
    ensures CheckedMul(left, right) == Some(left * right) && left * right < 0xffff_ffff_0000_0000
  {
  }
}

