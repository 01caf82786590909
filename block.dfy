/** The free-region descriptor of `src/block.rs`. */
module Blocks {

  /** One contiguous free region: its first address and its length in bytes. */
  datatype Block = Block(start: nat, size: nat)

  /** `Block::empty`: the all-zero sentinel. */
  function Empty(): (b: Block)
    ensures b.start == 0 && b.size == 0
    ensures IsEmpty(b)
  {
    Block(0, 0)
  }

  /** `Block::new`. */
  function New(start: nat, size: nat): (b: Block)
    ensures b.start == start && b.size == size
  {
    Block(start, size)
  }

  /** `Block::is_empty`: a block is empty exactly when it covers no bytes,
      wherever it starts. */
  predicate IsEmpty(b: Block)
  {
    b.size == 0
  }

  lemma IsEmptyIffNoBytes(b: Block, start: nat)
    ensures IsEmpty(b) <==> b.size == 0
    ensures IsEmpty(b) == IsEmpty(b.(start := start))
  {
  }

  /** `Block::renew` overwrites both fields in place; here the value it leaves
      behind, which the caller assigns back. Nothing of the old block survives. */
  function Renew(b: Block, start: nat, size: nat): (r: Block)
    ensures r == New(start, size)
  {
    b.(start := start, size := size)
  }
}
