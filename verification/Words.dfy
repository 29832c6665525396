/**
 Machine integers as bounded naturals.  The pointer width stays symbolic: nothing
 in the project depends on more than the 16 bits every target provides.
 */
module Words {
  import opened Results

  type PointerLimit = n: nat | 0xFFFF <= n witness 0xFFFF

  /** `usize::MAX` of the target. */
  const USIZE_MAX: PointerLimit

  const U32_MAX: nat := 0xFFFF_FFFF
  const U64_MAX: nat := 0xFFFF_FFFF_FFFF_FFFF

  type usize = n: nat | n <= USIZE_MAX
  type byte = n: nat | n <= 0xFF
  type u32 = n: nat | n <= U32_MAX
  type u64 = n: nat | n <= U64_MAX

  /** A borrowed or owned byte slice; its length always fits a `usize`. */
  type Bytes = s: seq<byte> | |s| <= USIZE_MAX

  /** Unchecked `+` on `usize`.  Overflow would panic, so every use has to exclude it. */
  function Plus(a: usize, b: usize): usize
    requires a + b <= USIZE_MAX
  {
    a + b
  }

  /** `checked_add` on `usize`. */
  function CheckedAdd(a: usize, b: usize): Option<usize> {
    if a + b <= USIZE_MAX then Some(a + b) else None
  }

  /** `saturating_add(1)` on `u64`. */
  function SaturatingSuccessor(a: u64): u64 {
    if a < U64_MAX then a + 1 else U64_MAX
  }

  function Min(a: nat, b: nat): nat {
    if a <= b then a else b
  }

  function Max(a: nat, b: nat): nat {
    if a <= b then b else a
  }
}
