/** The object size a cache settles on, and the alignment of its slots. */
module SlabSizes {
  import opened Arithmetic
  import opened SlabPages

  /** An alignment of 0 asks for that of a pointer. */
  function Alignment(align: nat): nat {
    if align == 0 then 4 else align
  }

  /** Rounded up to a multiple of the alignment in 32-bit arithmetic, at least one pointer. */
  function ObjectSize(size: nat, align: nat): nat {
    var a := Alignment(align);
    var rounded := (size + a - 1) % WORD_RANGE / a * a;
    if rounded < 4 then 4 else rounded
  }

  predicate PowerOfTwo(a: nat) {
    a == 1 || (a > 1 && a % 2 == 0 && PowerOfTwo(a / 2))
  }

  lemma {:induction false} PowersDivide(a: nat, b: nat)
    requires PowerOfTwo(a) && PowerOfTwo(b) && a <= b
    ensures b % a == 0
  {
    if a > 1 {
      PowersDivide(a / 2, b / 2);
      var q := b / 2 / (a / 2);
      assert b / 2 == q * (a / 2);
      assert b == q * a;
      Multiple(q, a);
    }
  }

  /** An object holds the request if and only if the rounding does not wrap around in 32 bits.
      Every slot of every page is aligned, except when the request is empty or the rounding
      wraps and the alignment is above 4. */
  lemma ObjectSizeFits(size: nat, align: nat, page: nat, j: nat)
    requires size < WORD_RANGE && PowerOfTwo(Alignment(align)) && Alignment(align) <= PAGE
    ensures var a, o := Alignment(align), ObjectSize(size, align);
            && (size <= o <==> size + a <= WORD_RANGE)
            && o < size + a + 4
            && (Addr(page * PAGE, o, 1) % a == 0 <==> a <= 4 || (0 < size && size + a <= WORD_RANGE))
            && (a <= 4 || (0 < size && size + a <= WORD_RANGE) ==> Addr(page * PAGE, o, j) % a == 0)
  {
    var a, o := Alignment(align), ObjectSize(size, align);
    PageAligned(a);
    if 4 <= a { PowersDivide(4, a); } else { PowersDivide(a, 4); }
    if size + a <= WORD_RANGE { Rounding(size, a); } else { WrappedSize(size, a); }
    SlotAligned(page, PAGE, o, 1, a);
    SlotAligned(page, PAGE, o, j, a);
  }

  /** A rounding that wraps around leaves the smallest object. */
  lemma WrappedSize(size: nat, a: nat)
    requires size < WORD_RANGE < size + a && 0 < a <= PAGE && (4 % a == 0 || a % 4 == 0)
    ensures ObjectSize(size, a) == 4 < size
    ensures 4 % a == 0 <==> a <= 4
  {
    var x := size + a - 1;
    assert x % WORD_RANGE == x - WORD_RANGE < a;
    Quotient(x - WORD_RANGE, a);
  }

  lemma Quotient(r: nat, a: nat)
    requires r < a
    ensures r / a * a == 0
  {
  }

  /** Without an alignment given, objects are words: multiples of 4, and no larger than needed. */
  lemma DefaultSize(size: nat)
    requires size + 3 < WORD_RANGE
    ensures ObjectSize(size, 0) % 4 == 0 && size <= ObjectSize(size, 0) && 4 <= ObjectSize(size, 0)
    ensures 0 < size ==> ObjectSize(size, 0) < size + 4
  {
  }

  /** No object fits on a page exactly for sizes above 4072, such as that of the largest of
      the common caches. */
  lemma NoneFit(size: nat)
    requires 0 < size
    ensures ObjectsPerSlab(size) == 0 <==> size > PAGE - DESCRIPTOR
    ensures ObjectsPerSlab(ObjectSize(4096, 0)) == 0
  {
    if size > PAGE - DESCRIPTOR {
      Quotient(PAGE - DESCRIPTOR, size);
    } else {
      OnePerSlab(size);
    }
  }

  lemma Rounding(size: nat, align: nat)
    requires 0 < align && size + align <= WORD_RANGE && (4 % align == 0 || align % 4 == 0)
    ensures size <= ObjectSize(size, align) < size + align + 4
    ensures ObjectSize(size, align) % align == 0 <==> 0 < size || align <= 4
  {
    var x := size + align - 1;
    var n := x / align;
    assert x % WORD_RANGE == x;
    assert x == n * align + x % align;
    Multiple(n, align);
    if 0 < size { Product(n, align); } else { SameQuotient(0, x, n, x % align, align); }
    SmallAligned(n * align, size, align);
  }

  lemma SmallAligned(rounded: nat, size: nat, align: nat)
    requires 0 < align && (4 % align == 0 || align % 4 == 0) && rounded % align == 0
    requires if 0 < size then align <= rounded else rounded == 0
    ensures rounded < 4 ==> (4 % align == 0 <==> 0 < size || align <= 4)
  {
  }

  lemma PageAligned(align: nat)
    requires PowerOfTwo(align) && align <= PAGE
    ensures PAGE % align == 0
  {
    assert PowerOfTwo(4) && PowerOfTwo(32) by { assert PowerOfTwo(1) && PowerOfTwo(2) && PowerOfTwo(8) && PowerOfTwo(16); }
    assert PowerOfTwo(256) by { assert PowerOfTwo(64) && PowerOfTwo(128); }
    assert PowerOfTwo(PAGE) by { assert PowerOfTwo(512) && PowerOfTwo(1024) && PowerOfTwo(2048); }
    PowersDivide(align, PAGE);
  }

  lemma SlotAligned(page: nat, pageSize: nat, o: nat, j: nat, align: nat)
    requires 0 < align && pageSize % align == 0
    ensures o % align == 0 ==> Addr(page * pageSize, o, j) % align == 0
    ensures j == 1 ==> (Addr(page * pageSize, o, j) % align == o % align)
  {
    var m, q, r := pageSize / align, o / align, o % align;
    Divided(pageSize, align);
    Divided(o, align);
    if r == 0 || j == 1 {
      Factored(page, m, j, q, align, r);
      Remainder(page * m + j * q, align, r);
    }
  }

  lemma Divided(x: nat, a: nat)
    requires 0 < a
    ensures x == x / a * a + x % a
  {
  }

  lemma Factored(page: nat, m: nat, j: nat, q: nat, a: nat, r: nat)
    requires r == 0 || j == 1
    ensures page * (m * a) + j * (q * a + r) == (page * m + j * q) * a + r
  {
    assert page * (m * a) == (page * m) * a;
    if j == 1 {
    } else {
      assert j * (q * a) == (j * q) * a;
    }
  }
}
