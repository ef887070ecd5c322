/** Byte-level primitives shared by the storage modules. */
module Bytes {

  type Byte = b: int | 0 <= b < 256

  datatype Option<+T> = None | Some(value: T)

  function Zeros(n: nat): (z: seq<Byte>)
    ensures |z| == n && forall i :: 0 <= i < n ==> z[i] == 0
  {
    seq(n, _ => 0)
  }

  function Min(a: int, b: int): int {
    if a <= b then a else b
  }

  /** The four bytes of a 32-bit word. */
  lemma Digits(v: nat)
    requires v < 0x1_0000_0000
    ensures v % 256 + 256 * (v / 256 % 256) + 0x1_0000 * (v / 0x1_0000 % 256) + 0x100_0000 * (v / 0x100_0000) == v
    ensures v / 0x100_0000 < 256
  {
    var a, b, c := v / 256, v / 0x1_0000, v / 0x100_0000;
    assert b == a / 256 && c == b / 256;
    assert v == 256 * a + v % 256 && a == 256 * b + a % 256 && b == 256 * c + b % 256;
  }
}

/** The packed table of 12-bit cells (Microsoft FAT Specification, section 4.1):
    two cells share three bytes, so every write must keep half of a shared byte. */
module FatCells {
  import opened Bytes

  /** Nine sectors of 512 bytes hold 3072 cells of 12 bits. */
  const FAT_BYTES: nat := 4608
  const MAX_CELLS: nat := 3072

  /** The clusters that the driver scans. */
  const TOTAL_CLUSTERS: nat := 4080

  type Table = t: seq<Byte> | |t| == FAT_BYTES witness seq(FAT_BYTES, _ => 0)
  type Index = c: nat | c < MAX_CELLS

  function Offset(c: nat): nat {
    c + c / 2
  }

  /** A 16-bit little-endian load. */
  function Word(lo: int, hi: int): int {
    lo + 256 * hi
  }

  /** The load of the getter, then the selection of three nibbles. */
  function Cell(t: Table, c: Index): nat {
    var word := Word(t[Offset(c)], t[Offset(c) + 1]);
    if c % 2 == 1 then word / 16 else word % 4096
  }

  /** The two bytes the driver stores: one whole byte and one half byte at a time. */
  function DriverBytes(lo: Byte, hi: Byte, odd: bool, value: nat): (Byte, Byte)
    requires value < 0x1_0000
  {
    if odd then (lo % 16 + value % 16 * 16, value / 16 % 256)
    else (value % 256, hi / 16 * 16 + value / 256 % 16)
  }

  /** The two bytes the image builder stores: a read-modify-write of the 16-bit word. */
  function BuilderBytes(lo: Byte, hi: Byte, odd: bool, value: nat): (Byte, Byte)
    requires value < 0x1_0000
  {
    var word := Word(lo, hi);
    var out := if odd then word % 16 + value % 4096 * 16 else word / 4096 * 4096 + value % 4096;
    (out % 256, out / 256)
  }

  function Store(t: Table, c: Index, value: nat): Table
    requires value < 0x1_0000
  {
    var (lo, hi) := DriverBytes(t[Offset(c)], t[Offset(c) + 1], c % 2 == 1, value);
    t[Offset(c) := lo][Offset(c) + 1 := hi]
  }

  lemma TwoSettersAgree(lo: Byte, hi: Byte, odd: bool, value: nat)
    requires value < 0x1_0000
    ensures DriverBytes(lo, hi, odd, value) == BuilderBytes(lo, hi, odd, value)
  {
    // value = low + 4096 * top, and low = n0 + 16 * n1 + 256 * n2 nibble by nibble
    var low := value % 4096;
    assert value == value / 4096 * 4096 + low;
    Nibbles(value / 4096, low);
    Split(low / 16, low % 16, 16);
    if odd {
      LowNibble(lo, hi);
      Split(low / 16, lo % 16 + low % 16 * 16, 256);
    } else {
      HighNibble(lo, hi);
      Split(hi / 16 * 16 + low / 256, low % 256, 256);
    }
  }

  lemma Split(q: nat, r: nat, m: nat)
    requires r < m && (m == 16 || m == 256)
    ensures (q * m + r) / m == q && (q * m + r) % m == r
  {
  }

  lemma Nibbles(top: nat, low: nat)
    requires low < 4096
    ensures (top * 4096 + low) % 16 == low % 16
    ensures (top * 4096 + low) / 16 % 256 == low / 16
    ensures (top * 4096 + low) % 256 == low % 256
    ensures (top * 4096 + low) / 256 % 16 == low / 256
  {
    assert (top * 4096 + low) / 16 == top * 256 + low / 16;
    assert (top * 4096 + low) / 256 == top * 16 + low / 256;
  }

  lemma LowNibble(lo: Byte, hi: Byte)
    ensures Word(lo, hi) % 16 == lo % 16
  {
  }

  lemma HighNibble(lo: Byte, hi: Byte)
    ensures Word(lo, hi) / 4096 == hi / 16
  {
  }

  /** Reading a cell back gives the low 12 bits, and no other cell moves, although the
      write touches a byte that belongs to a neighbour. */
  lemma StoreThenRead(t: Table, c: Index, value: nat, d: Index)
    requires value < 0x1_0000
    ensures Cell(Store(t, c, value), d) == if d == c then value % 4096 else Cell(t, d)
  {
    var u := Store(t, c, value);
    var lo, hi := t[Offset(c)], t[Offset(c) + 1];
    if d == c {
      OwnCell(lo, hi, c % 2 == 1, value);
    } else if d == c + 1 && c % 2 == 0 {
      // c is the even half of a pair, d the odd one: they share the middle byte
      assert Offset(d) == Offset(c) + 1;
      assert u[Offset(d)] / 16 == hi / 16;
      HighNibbles(u[Offset(d)], u[Offset(d) + 1]);
      HighNibbles(t[Offset(d)], t[Offset(d) + 1]);
    } else if c == d + 1 && d % 2 == 0 {
      assert Offset(c) == Offset(d) + 1;
      assert u[Offset(c)] % 16 == lo % 16;
      LowNibbles(u[Offset(d)], u[Offset(c)]);
      LowNibbles(t[Offset(d)], t[Offset(c)]);
    } else {
      assert d < c ==> Offset(d) + 1 < Offset(c);
      assert c < d ==> Offset(c) + 1 < Offset(d);
    }
  }

  lemma HighNibbles(lo: Byte, hi: Byte)
    ensures Word(lo, hi) / 16 == lo / 16 + 16 * hi
  {
  }

  lemma LowNibbles(lo: Byte, hi: Byte)
    ensures Word(lo, hi) % 4096 == lo + 256 * (hi % 16)
  {
  }

  lemma OwnCell(lo: Byte, hi: Byte, odd: bool, value: nat)
    requires value < 0x1_0000
    ensures var (a, b) := DriverBytes(lo, hi, odd, value);
            (if odd then Word(a, b) / 16 else Word(a, b) % 4096) == value % 4096
  {
    hide DriverBytes;
    TwoSettersAgree(lo, hi, odd, value);
    var word, low := Word(lo, hi), value % 4096;
    if odd {
      TwoBytes(word % 16 + low * 16);
      Split(low, word % 16, 16);
    } else {
      TwoBytes(word / 4096 * 4096 + low);
      LowTwelve(word / 4096, low);
    }
  }

  lemma TwoBytes(word: nat)
    ensures Word(word % 256, word / 256) == word
  {
  }

  lemma LowTwelve(q: nat, r: nat)
    requires r < 4096
    ensures (q * 4096 + r) % 4096 == r
  {
  }

  /** Two cells share three bytes: the even one takes the first and the low half of the second,
      the odd one the high half of the second and the third. */
  lemma CellExact(t: Table, k: nat)
    requires 2 * k + 1 < MAX_CELLS
    ensures var a, b, c := t[3 * k] as int, t[3 * k + 1] as int, t[3 * k + 2] as int;
            Cell(t, 2 * k) == a + 256 * (b % 16) && Cell(t, 2 * k + 1) == b / 16 + 16 * c
  {
    var a, b, c := t[3 * k] as int, t[3 * k + 1] as int, t[3 * k + 2] as int;
    assert Offset(2 * k) == 3 * k && Offset(2 * k + 1) == 3 * k + 1;
    assert a + 256 * b == (b / 16) * 4096 + (a + 256 * (b % 16));
    LowTwelve(b / 16, a + 256 * (b % 16));
    Split(b / 16 + 16 * c, b % 16, 16);
  }

  /** The cells 0 .. n-1 of the table. */
  function Cells(t: Table, n: nat): (s: seq<nat>)
    requires n <= MAX_CELLS
    ensures |s| == n
  {
    seq(n, c requires 0 <= c < n => Cell(t, c))
  }

  lemma StoreIsUpdate(t: Table, n: nat, c: nat, value: nat)
    requires c < n <= MAX_CELLS && value < 0x1_0000
    ensures Cells(Store(t, c, value), n) == Cells(t, n)[c := value % 4096]
  {
    forall d | 0 <= d < n
      ensures Cell(Store(t, c, value), d) == if d == c then value % 4096 else Cell(t, d)
    {
      StoreThenRead(t, c, value, d);
    }
  }
}
