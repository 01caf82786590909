/** `align_down` and `align_up` of `src/lib.rs`, on unbounded naturals. */
module Alignment {
  import opened Wrappers

  /** The panic `align_down` raises for an alignment that is neither zero nor a
      power of two. */
  datatype AlignError = InvalidAlignment

  /** `usize::is_power_of_two`: 1, 2, 4, 8, ... (zero is not one). */
  predicate IsPowerOfTwo(n: nat)
    decreases n
  {
    n == 1 || (n >= 2 && n % 2 == 0 && IsPowerOfTwo(n / 2))
  }

  /** `addr & !(align - 1)` for a power-of-two `align`, bit by bit: the mask
      keeps the bits of `addr` at and above the one bit set in `align`. */
  function ClearLowBits(addr: nat, align: nat): (r: nat)
    requires IsPowerOfTwo(align)
    ensures r <= addr < r + align
    decreases align
  {
    if align == 1 then addr else 2 * ClearLowBits(addr / 2, align / 2)
  }

  lemma MulAtLeast(d: nat, k: nat)
    requires 1 <= k
    ensures d * k >= d
  {
  }

  lemma MulDistributes(d: nat, a: nat, b: nat)
    ensures d * (a + b) == d * a + d * b
  {
  }

  /** Euclidean division has one quotient and one remainder. */
  lemma DivModUnique(x: nat, d: nat, q: nat, rem: nat)
    requires 0 < d && rem < d && x == d * q + rem
    ensures x / d == q && x % d == rem
  {
    var q', rem' := x / d, x % d;
    assert x == d * q' + rem';
    if q' < q {
      MulDistributes(d, q', q - q');
      MulAtLeast(d, q - q');
      assert false;
    } else if q < q' {
      MulDistributes(d, q, q' - q);
      MulAtLeast(d, q' - q);
      assert false;
    }
  }

  /** Splitting off the low bit: the remainder modulo `2 * m` is twice the
      remainder of the upper bits modulo `m`, plus that bit. */
  lemma ModOfDouble(q: nat, m: nat, bit: nat)
    requires 1 <= m && bit < 2
    ensures (2 * q + bit) % (2 * m) == 2 * (q % m) + bit
  {
    var t, u := q / m, q % m;
    assert q == m * t + u;
    assert 2 * q + bit == (2 * m) * t + (2 * u + bit);
    DivModUnique(2 * q + bit, 2 * m, t, 2 * u + bit);
  }

  /** Clearing the low bits rounds down to a multiple of the alignment. */
  lemma {:induction false} ClearLowBitsRoundsDown(addr: nat, align: nat)
    requires IsPowerOfTwo(align)
    ensures ClearLowBits(addr, align) == addr - addr % align
    decreases align
  {
    if align > 1 {
      ClearLowBitsRoundsDown(addr / 2, align / 2);
      ModOfDouble(addr / 2, align / 2, addr % 2);
    }
  }

  /** `x - x % d` is a multiple of `d`. */
  lemma RoundedDownIsMultiple(x: nat, d: nat)
    requires 0 < d
    ensures (x - x % d) % d == 0
  {
    DivModUnique(x - x % d, d, x / d, 0);
  }

  /** Two multiples of `d` less than `d` apart in the wrong order are in fact
      ordered: the larger one is at least the smaller one. */
  lemma MultiplesAreSpaced(x: nat, y: nat, d: nat)
    requires 0 < d && x % d == 0 && y % d == 0 && x < y + d
    ensures x <= y
  {
    var a, b := x / d, y / d;
    assert x == d * a && y == d * b;
    if a > b {
      MulDistributes(d, b, a - b);
      MulAtLeast(d, a - b);
      assert false;
    }
  }

  /** `align_down` (src/lib.rs:231-239). */
  function AlignDown(addr: nat, align: nat): (r: Result<nat, AlignError>)
    ensures IsPowerOfTwo(align) ==>
              r.Success? && r.value % align == 0 && r.value <= addr < r.value + align
    ensures align == 0 ==> r == Success(addr)
    ensures !IsPowerOfTwo(align) && align != 0 ==> r == Failure(InvalidAlignment)
  {
    if IsPowerOfTwo(align) then
      ClearLowBitsRoundsDown(addr, align);
      RoundedDownIsMultiple(addr, align);
      Success(ClearLowBits(addr, align))
    else if align == 0 then
      Success(addr)
    else
      Failure(InvalidAlignment)
  }

  /** `align_up` (src/lib.rs:241-243). The requires rules out the one input whose
      `addr + align - 1` underflows (`align_up(0, 0)`); for `align == 0` the
      result is `addr - 1`, as written. */
  function AlignUp(addr: nat, align: nat): (r: Result<nat, AlignError>)
    requires addr + align >= 1
    ensures IsPowerOfTwo(align) ==>
              r.Success? && r.value % align == 0 && addr <= r.value < addr + align
    ensures align == 0 ==> r == Success(addr - 1)
    ensures !IsPowerOfTwo(align) && align != 0 ==> r == Failure(InvalidAlignment)
  {
    AlignDown(addr + align - 1, align)
  }

  /** `align_up` gives the least multiple of `align` at or above `addr`. */
  lemma AlignUpIsLeast(addr: nat, align: nat, m: nat)
    requires IsPowerOfTwo(align) && m % align == 0 && addr <= m
    ensures AlignUp(addr, align).value <= m
  {
    MultiplesAreSpaced(AlignUp(addr, align).value, m, align);
  }

  /** Aligning an aligned address changes nothing, so `align_up` is idempotent. */
  lemma AlignUpIdempotent(addr: nat, align: nat)
    requires IsPowerOfTwo(align)
    ensures AlignUp(AlignUp(addr, align).value, align) == AlignUp(addr, align)
  {
    var once := AlignUp(addr, align).value;
    AlignUpIsLeast(once, align, once);
  }

  /** A non-zero request rounds up to at least one whole alignment unit. */
  lemma AlignUpOfPositive(addr: nat, align: nat)
    requires IsPowerOfTwo(align) && addr >= 1
    ensures AlignUp(addr, align).value >= align
  {
    var r := AlignUp(addr, align).value;
    if r < align {
      MultiplesAreSpaced(r, 0, align);
    }
  }
}
