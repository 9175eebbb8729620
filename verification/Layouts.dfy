/**
Machine words, Rust memory layouts and the alignment arithmetic that every
allocator of the kernel shares (kernel/src/allocator.rs).

Addresses are `nat`; the 64-bit limits of `usize` and `isize` are explicit, and an
operation that would overflow is a panic, as in the development profile.
*/
module Layouts {

  const USIZE_LIMIT: nat := 0x1_0000_0000_0000_0000
  const ISIZE_LIMIT: nat := 0x8000_0000_0000_0000

  datatype Option<+T> = None | Some(value: T)

  predicate IsPowerOfTwo(n: nat) {
    n == 1 || (n > 1 && n % 2 == 0 && IsPowerOfTwo(n / 2))
  }

  /** `core::alloc::Layout`; `Valid` is what `Layout::from_size_align` accepts. */
  datatype Layout = Layout(size: nat, align: nat) {
    predicate Valid() {
      IsPowerOfTwo(align) && size + align <= ISIZE_LIMIT
    }
  }

  function Max(a: nat, b: nat): nat {
    if a < b then b else a
  }

  /** The least multiple of `align` that is not below `addr`. The kernel computes it in
      `usize`; callers treat a result of at least `USIZE_LIMIT` as an overflow panic. */
  function AlignUp(addr: nat, align: nat): (r: nat)
    requires align > 0
    ensures r % align == 0 && addr <= r < addr + align
  {
    var remainder := addr % align;
    var r := if remainder == 0 then addr else addr - remainder + align;
    AlignUpIsMultiple(addr, align, r);
    r
  }

  lemma MultipleOf(m: nat, d: nat) returns (q: nat)
    requires d > 0 && m % d == 0
    ensures m == q * d
  {
    q := m / d;
  }

  lemma MultipleMod(q: nat, d: nat)
    requires d > 0
    ensures (q * d) % d == 0
  {
    if q > 0 {
      MultipleMod(q - 1, d);
      ModAdd((q - 1) * d, d);
      assert q * d == (q - 1) * d + d;
    }
  }

  lemma ModAdd(x: nat, d: nat)
    requires d > 0
    ensures (x + d) % d == x % d
  {
    var q, r := x / d, x % d;
    assert x + d == (q + 1) * d + r;
    DivModUnique(x + d, d, q + 1, r);
  }

  lemma DivModUnique(x: nat, d: nat, q: nat, r: nat)
    requires d > 0 && r < d && x == q * d + r
    ensures x / d == q && x % d == r
  {
    var q', r' := x / d, x % d;
    assert x == q' * d + r';
    if q' < q {
      MulLe(q' + 1, q, d);
    } else if q < q' {
      MulLe(q + 1, q', d);
    }
  }

  lemma MulLe(a: nat, b: nat, d: nat)
    requires a <= b
    ensures a * d <= b * d
  {
  }

  lemma AlignUpIsMultiple(addr: nat, align: nat, r: nat)
    requires align > 0
    requires r == if addr % align == 0 then addr else addr - addr % align + align
    ensures r % align == 0 && addr <= r < addr + align
  {
    if addr % align != 0 {
      var q := addr / align;
      assert r == (q + 1) * align;
      MultipleMod(q + 1, align);
    }
  }

  /** No multiple of `align` lies between `addr` and `AlignUp(addr, align)`. */
  lemma AlignUpLeast(addr: nat, align: nat, m: nat)
    requires align > 0 && addr <= m && m % align == 0
    ensures AlignUp(addr, align) <= m
  {
    var r := AlignUp(addr, align);
    if m < r {
      var p := MultipleOf(m, align);
      var q := MultipleOf(r, align);
      if q <= p { MulLe(q, p, align); } else { MulLe(p + 1, q, align); }
    }
  }

  lemma AlignUpUnique(addr: nat, align: nat, m: nat)
    requires align > 0 && addr <= m < addr + align && m % align == 0
    ensures AlignUp(addr, align) == m
  {
    AlignUpLeast(addr, align, m);
    var r := AlignUp(addr, align);
    if r < m {
      var p := MultipleOf(r, align);
      var q := MultipleOf(m, align);
      if q <= p { MulLe(q, p, align); } else { MulLe(p + 1, q, align); }
    }
  }

  /** A smaller power of two divides a larger one. */
  lemma {:induction false} PowerOfTwoDivides(a: nat, b: nat)
    requires IsPowerOfTwo(a) && IsPowerOfTwo(b) && a <= b
    ensures b % a == 0
  {
    if a > 1 {
      PowerOfTwoDivides(a / 2, b / 2);
      var q := MultipleOf(b / 2, a / 2);
      assert b == 2 * (q * (a / 2)) == q * a;
      MultipleMod(q, a);
    }
  }

  /** Divisibility is transitive: an address aligned to `b` is aligned to every divisor. */
  lemma DividesTrans(x: nat, b: nat, a: nat)
    requires a > 0 && b > 0 && x % b == 0 && b % a == 0
    ensures x % a == 0
  {
    var p := MultipleOf(x, b);
    var q := MultipleOf(b, a);
    assert x == p * (q * a) == (p * q) * a;
    MultipleMod(p * q, a);
  }

  /** Sums of multiples are multiples. */
  lemma DividesSum(x: nat, y: nat, a: nat)
    requires a > 0 && x % a == 0 && y % a == 0
    ensures (x + y) % a == 0
  {
    var p := MultipleOf(x, a);
    var q := MultipleOf(y, a);
    assert x + y == (p + q) * a;
    MultipleMod(p + q, a);
  }

  lemma {:induction false} PowerOfTwoProduct(a: nat, b: nat)
    requires IsPowerOfTwo(a) && IsPowerOfTwo(b)
    ensures IsPowerOfTwo(a * b)
  {
    if a > 1 {
      PowerOfTwoProduct(a / 2, b);
      var p := (a / 2) * b;
      assert a * b == 2 * p;
      assert a * b > 1 && (a * b) / 2 == p;
    }
  }

  lemma UsizeLimitIsPowerOfTwo()
    ensures IsPowerOfTwo(USIZE_LIMIT) && IsPowerOfTwo(ISIZE_LIMIT)
  {
    assert IsPowerOfTwo(0x80) && IsPowerOfTwo(0x100);
    PowerOfTwoProduct(0x100, 0x100);
    PowerOfTwoProduct(0x80, 0x100);
    PowerOfTwoProduct(0x1_0000, 0x1_0000);
    PowerOfTwoProduct(0x8000, 0x1_0000);
    PowerOfTwoProduct(0x1_0000_0000, 0x1_0000_0000);
    PowerOfTwoProduct(0x8000_0000, 0x1_0000_0000);
  }

  /** Exactly the addresses above `2^64 - align` make `align_up` overflow. */
  lemma AlignUpOverflow(addr: nat, align: nat)
    requires IsPowerOfTwo(align) && align <= USIZE_LIMIT
    ensures AlignUp(addr, align) >= USIZE_LIMIT <==> addr > USIZE_LIMIT - align
  {
    UsizeLimitIsPowerOfTwo();
    PowerOfTwoDivides(align, USIZE_LIMIT);
    var r := AlignUp(addr, align);
    var q := MultipleOf(USIZE_LIMIT, align);
    var p := MultipleOf(r, align);
    assert USIZE_LIMIT - align == (q - 1) * align;
    if addr <= USIZE_LIMIT - align {
      MultipleMod(q - 1, align);
      AlignUpLeast(addr, align, USIZE_LIMIT - align);
    } else {
      if p <= q - 1 { MulLe(p, q - 1, align); }
      MulLe(q, p, align);
    }
  }
}
