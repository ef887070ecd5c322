/** 8.3 names (Microsoft FAT Specification, section 6.1) and the root directory table. */
module FatNames {
  import opened Bytes

  type CString = s: seq<Byte> | 0 !in s witness []
  type Name = n: seq<Byte> | |n| == 11 witness seq(11, _ => 32)

  const SPACE: Byte := 32
  const DOT: Byte := 46
  const END_MARK: Byte := 0x00
  const DELETED: Byte := 0xE5

  const ATTR_DIRECTORY: Byte := 0x10
  const ATTR_ARCHIVE: Byte := 0x20

  // ---- names ---------------------------------------------------------------------

  function Upper(c: Byte): Byte {
    if 'a' as int <= c <= 'z' as int then c - 32 else c
  }

  function Uppered(s: seq<Byte>): (r: seq<Byte>)
    ensures |r| == |s|
  {
    seq(|s|, i requires 0 <= i < |s| => Upper(s[i]))
  }

  function Padded(s: seq<Byte>, n: nat): (r: seq<Byte>)
    requires |s| <= n
    ensures |r| == n
  {
    s + seq(n - |s|, _ => SPACE)
  }

  /** Length of the longest prefix without c. */
  function Until(s: seq<Byte>, c: Byte): (k: nat)
    ensures k <= |s| && (forall j :: 0 <= j < k ==> s[j] != c) && (k < |s| ==> s[k] == c)
  {
    if s == [] || s[0] == c then 0 else Until(s[1..], c) + 1
  }

  function BasePart(f: CString): seq<Byte> {
    f[..Until(f, DOT)]
  }

  function ExtPart(f: CString): seq<Byte> {
    var d := Until(f, DOT);
    if d < |f| then f[d + 1..] else []
  }

  /** The 11 bytes the driver looks for; None is the invalid-name error. */
  function Parse(f: CString): Option<Name> {
    if |BasePart(f)| > 8 || |ExtPart(f)| > 3 then None
    else Some(Padded(Uppered(BasePart(f)), 8) + Padded(Uppered(ExtPart(f)), 3))
  }

  /** The shape of every name that the parser produces. */
  ghost predicate Canonical(n: Name) {
    forall i :: 0 <= i < 11 ==> n[i] != 0 && Upper(n[i]) == n[i] && (i < 8 ==> n[i] != DOT)
  }

  lemma ParseCanonical(f: CString)
    ensures Parse(f).Some? ==> Canonical(Parse(f).value)
    ensures Parse(f).Some? ==> (Parse(f).value[0] == DELETED <==> f != [] && f[0] == DELETED)
  {
    if Parse(f).Some? {
      var d := Until(f, DOT);
      var n := Parse(f).value;
      forall i | 0 <= i < 11
        ensures n[i] != 0 && Upper(n[i]) == n[i] && (i < 8 ==> n[i] != DOT)
      {
        if i < d { assert f[..d][i] == f[i] && f[i] in f; }
        if 8 <= i < 8 + |ExtPart(f)| { assert n[i] == Upper(f[d + 1 + i - 8]) && f[d + 1 + i - 8] in f; }
      }
      if f != [] && d > 0 { assert n[0] == Upper(f[0]); }
    }
  }

  /** The two bytes are the same, or the same letter in the other case. */
  predicate SameLetter(a: int, b: int) {
    a == b || (65 <= a <= 90 && b == a + 32) || (65 <= b <= 90 && a == b + 32)
  }

  /** The byte c as it is stored: a small letter as its capital, 32 lower, others as they are. */
  predicate StoredAs(c: int, b: int) {
    if 97 <= c <= 122 then b == c - 32 else b == c
  }

  /** The parse in bytes. The first dot, at position d, splits the name; without one d is the
      length. Parts of at most 8 and 3 bytes are accepted, stored in capitals, and filled up
      with blanks. */
  lemma ParseExact(f: CString, d: nat)
    requires d <= |f| && (forall j :: 0 <= j < d ==> f[j] != 46) && (d < |f| ==> f[d] == 46)
    ensures Parse(f).Some? <==> d <= 8 && |f| <= d + 4
    ensures Parse(f).Some? ==>
              var n := Parse(f).value;
              && (forall i :: 0 <= i < d ==> StoredAs(f[i], n[i]))
              && (forall i :: d <= i < 8 ==> n[i] == 32)
              && (forall i :: d < i < |f| ==> StoredAs(f[i], n[8 + (i - d - 1)]))
              && (forall i :: 8 <= i < 11 && i - 8 >= |f| - d - 1 ==> n[i] == 32)
              && (forall i :: 0 <= i < 11 ==> !(97 <= n[i] <= 122))
  {
    hide Uppered, Padded;
    assert Until(f, DOT) == d;
    if Parse(f).Some? {
      var b, x, n := BasePart(f), ExtPart(f), Parse(f).value;
      PartExact(b, 8);
      PartExact(x, 3);
      assert forall i :: 0 <= i < d ==> b[i] == f[i];
      forall i | d < i < |f|
        ensures StoredAs(f[i], n[8 + (i - d - 1)])
      {
        assert x[i - d - 1] == f[i];
      }
      forall i | 8 <= i < 11
        ensures n[i] == Padded(Uppered(x), 3)[i - 8]
      {
      }
    }
  }

  lemma PartExact(p: seq<Byte>, n: nat)
    requires |p| <= n
    ensures var q := Padded(Uppered(p), n);
            && (forall i :: 0 <= i < |p| ==> StoredAs(p[i], q[i])) && (forall i :: |p| <= i < n ==> q[i] == 32)
            && (forall i :: 0 <= i < n ==> !(97 <= q[i] <= 122))
  {
  }

  /** Names that differ only in the case of letters are one name. */
  lemma CaseBlind(f: CString, g: CString)
    requires |f| == |g| && forall i :: 0 <= i < |f| ==> SameLetter(f[i], g[i])
    ensures Parse(f) == Parse(g)
  {
    var d := Until(f, DOT);
    assert Until(g, DOT) == d;
    assert Uppered(BasePart(f)) == Uppered(BasePart(g));
    assert Uppered(ExtPart(f)) == Uppered(ExtPart(g));
  }

  // ---- directory table -----------------------------------------------------------

  datatype DirEntry = DirEntry(name: Name, attributes: Byte, cluster: nat, size: nat)

  predicate Live(e: DirEntry) {
    e.name[0] != END_MARK && e.name[0] != DELETED
  }

  /** Search order of the driver: stop at the first end mark, step over tombstones. */
  function Find(root: seq<DirEntry>, n: Name, i: nat): (k: nat)
    requires i <= |root|
    ensures i <= k <= |root|
    ensures k < |root| ==> Live(root[k]) && root[k].name == n
    decreases |root| - i
  {
    if i == |root| || root[i].name[0] == END_MARK then |root|
    else if root[i].name[0] != DELETED && root[i].name == n then i
    else Find(root, n, i + 1)
  }

  lemma FindAt(root: seq<DirEntry>, n: Name, i: nat)
    requires i <= |root|
    ensures Find(root, n, i) ==
            if i == |root| || root[i].name[0] == END_MARK then |root|
            else if root[i].name[0] != DELETED && root[i].name == n then i
            else Find(root, n, i + 1)
  {
  }

  function FreeSlot(root: seq<DirEntry>, i: nat): (k: nat)
    requires i <= |root|
    ensures i <= k <= |root|
    ensures k < |root| ==> !Live(root[k])
    ensures forall j :: i <= j < k ==> Live(root[j])
    decreases |root| - i
  {
    if i == |root| || !Live(root[i]) then i else FreeSlot(root, i + 1)
  }

  /** Nothing live lies behind the first end mark, and no name is stored twice. */
  ghost predicate Tidy(root: seq<DirEntry>) {
    && (forall i, j :: 0 <= i < j < |root| && root[i].name[0] == END_MARK ==> !Live(root[j]))
    && (forall i, j :: 0 <= i < j < |root| && Live(root[i]) && Live(root[j]) ==> root[i].name != root[j].name)
  }

  /** In a tidy table the search finds exactly the live entry with that name. */
  lemma {:induction false} FindExact(root: seq<DirEntry>, n: Name, i: nat, k: nat)
    requires Tidy(root) && i <= k < |root|
    ensures Find(root, n, i) == k <==> Live(root[k]) && root[k].name == n
    decreases k - i
  {
    if i < k && root[i].name[0] != END_MARK {
      if !(Live(root[i]) && root[i].name == n) {
        FindExact(root, n, i + 1, k);
      }
    }
  }

  lemma FindMiss(root: seq<DirEntry>, n: Name)
    requires Tidy(root)
    ensures Find(root, n, 0) == |root| <==> forall k :: 0 <= k < |root| && Live(root[k]) ==> root[k].name != n
  {
    forall k | 0 <= k < |root|
      ensures Find(root, n, 0) == k <==> Live(root[k]) && root[k].name == n
    {
      FindExact(root, n, 0, k);
    }
  }

  /** Replacing the first unused slot by an entry with a new name keeps the table tidy. */
  lemma CreateTidy(root: seq<DirEntry>, e: DirEntry)
    requires Tidy(root) && FreeSlot(root, 0) < |root| && e.name[0] != END_MARK
    requires forall k :: 0 <= k < |root| && Live(root[k]) ==> root[k].name != e.name
    ensures Tidy(root[FreeSlot(root, 0) := e])
  {
  }

  /** A tombstone never hides a later entry: deletion keeps the table tidy. */
  lemma DeleteTidy(root: seq<DirEntry>, i: nat)
    requires Tidy(root) && i < |root| && Live(root[i])
    ensures Tidy(root[i := Tombstone(root[i])])
  {
  }

  function Tombstone(e: DirEntry): DirEntry {
    e.(name := e.name[0 := DELETED])
  }

  // ---- entries as bytes -----------------------------------------------------------

  const ENTRY: nat := 32

  predicate Encodable(e: DirEntry) {
    e.cluster < 0x1_0000 && e.size < 0x1_0000_0000
  }

  /** The 32 bytes of an entry; dates and other unused fields are zero. */
  function EntryBytes(e: DirEntry): (b: seq<Byte>)
    requires Encodable(e)
    ensures |b| == ENTRY
  {
    e.name + [e.attributes] + Zeros(14) + [e.cluster % 256, e.cluster / 256]
    + [e.size % 256, e.size / 256 % 256, e.size / 0x1_0000 % 256, e.size / 0x100_0000]
  }

  function EntryOf(b: seq<Byte>): DirEntry
    requires |b| == ENTRY
  {
    DirEntry(b[..11], b[11], b[26] as int + 256 * b[27] as int,
             b[28] as int + 256 * b[29] as int + 0x1_0000 * b[30] as int + 0x100_0000 * b[31] as int)
  }

  lemma EntryRoundTrip(e: DirEntry)
    requires Encodable(e)
    ensures EntryOf(EntryBytes(e)) == e
  {
    var b := EntryBytes(e);
    assert b[..11] == e.name && b[11] == e.attributes;
    assert b[26] == e.cluster % 256 && b[27] == e.cluster / 256;
    Digits(e.size);
  }

  /** Where the fields of an entry lie; all other bytes are zero. */
  lemma EntryLayout(e: DirEntry)
    requires Encodable(e)
    ensures var b := EntryBytes(e);
            && (forall i :: 0 <= i < 11 ==> b[i] == e.name[i]) && b[11] == e.attributes
            && (forall i :: 12 <= i < 26 ==> b[i] == 0)
            && b[26] as int + 256 * b[27] as int == e.cluster
            && b[28] as int + 256 * b[29] as int + 65536 * b[30] as int + 16777216 * b[31] as int == e.size
  {
    var b := EntryBytes(e);
    assert b[26] == e.cluster % 256 && b[27] == e.cluster / 256;
    Digits(e.size);
  }

  // ---- listing -------------------------------------------------------------------

  /** The text the directory listing prints for one entry. */
  function Listed(e: DirEntry): seq<Byte> {
    var base := e.name[..Until(e.name[..8], SPACE)];
    if e.attributes == ATTR_DIRECTORY then base
    else base + [DOT] + e.name[8..][..Until(e.name[8..], SPACE)]
  }

  /** The printed bytes: each part up to its first blank, with a dot between them unless the
      entry is a directory. */
  lemma ListedExact(e: DirEntry, p: nat, q: nat)
    requires p <= 8 && (forall j :: 0 <= j < p ==> e.name[j] != 32) && (p < 8 ==> e.name[p] == 32)
    requires q <= 3 && (forall j :: 8 <= j < 8 + q ==> e.name[j] != 32) && (q < 3 ==> e.name[8 + q] == 32)
    ensures var text := Listed(e);
            && |text| == (if e.attributes == 0x10 then p else p + 1 + q)
            && (forall j :: 0 <= j < p ==> text[j] == e.name[j])
            && (e.attributes != 0x10 ==> text[p] == 46 && forall j :: 8 <= j < 8 + q ==> text[p + 1 + (j - 8)] == e.name[j])
  {
    var base, ext := e.name[..8], e.name[8..];
    assert forall j :: 0 <= j < 8 ==> base[j] == e.name[j];
    assert forall j :: 8 <= j < 11 ==> ext[j - 8] == e.name[j];
    assert forall j :: 0 <= j < q ==> ext[j] == e.name[8 + j] != 32;
    assert Until(base, SPACE) == p && Until(ext, SPACE) == q;
  }

  /** No character follows a blank. */
  ghost predicate Gapless(s: seq<Byte>) {
    forall i, j :: 0 <= i < j < |s| && s[i] == SPACE ==> s[j] == SPACE
  }

  lemma PadCut(s: seq<Byte>, n: nat)
    requires |s| == n
    ensures Padded(s[..Until(s, SPACE)], n) == s <==> Gapless(s)
  {
    var k := Until(s, SPACE);
    var p := Padded(s[..k], n);
    if Gapless(s) {
      assert p == s;
    }
    if p == s {
      forall i, j | 0 <= i < j < |s| && s[i] == SPACE
        ensures s[j] == SPACE
      {
        assert i >= k;
        assert p[j] == SPACE;
      }
    }
  }

  lemma UpperedFixed(n: Name, lo: nat, hi: nat)
    requires Canonical(n) && lo <= hi <= 11
    ensures Uppered(n[lo..hi]) == n[lo..hi]
    ensures 0 !in n[lo..hi] && (hi <= 8 ==> DOT !in n[lo..hi])
  {
  }

  /** Parsing a printed name gives back the stored 11 bytes exactly when neither part has
      an embedded blank (and, for a directory, whose extension is not printed, it is blank). */
  lemma ListedParsesBack(e: DirEntry)
    requires Canonical(e.name)
    ensures 0 !in Listed(e)
    ensures Parse(Listed(e)) == Some(e.name) <==>
            && Gapless(e.name[..8])
            && (if e.attributes == ATTR_DIRECTORY then e.name[8..] == [SPACE, SPACE, SPACE] else Gapless(e.name[8..]))
  {
    hide Parse, Padded, Uppered, Gapless, Canonical;
    var n := e.name;
    Cut(n, 0, 8);
    Cut(n, 8, 11);
    assert n[0..8] == n[..8] && n[8..11] == n[8..];
    var base := n[..8][..Until(n[..8], SPACE)];
    var ext := if e.attributes == ATTR_DIRECTORY then [] else n[8..][..Until(n[8..], SPACE)];
    assert n[..Until(n[..8], SPACE)] == base;
    ParseOf(base, ext);
    PaddedNone();
    Halves(n, Padded(base, 8), Padded(ext, 3));
  }

  lemma PaddedNone()
    ensures Padded([], 3) == [SPACE, SPACE, SPACE]
  {
  }

  /** A part of a stored name, cut at its first blank. */
  lemma Cut(n: Name, lo: nat, hi: nat)
    requires Canonical(n) && lo <= hi <= 11
    ensures var p := n[lo..hi]; var s := p[..Until(p, SPACE)];
            && Uppered(s) == s && 0 !in s && (hi <= 8 ==> DOT !in s)
            && (Padded(s, hi - lo) == p <==> Gapless(p))
  {
    var p := n[lo..hi];
    var k := Until(p, SPACE);
    assert p[..k] == n[lo..lo + k];
    UpperedFixed(n, lo, lo + k);
    PadCut(p, hi - lo);
  }

  lemma ParseOf(base: CString, ext: CString)
    requires |base| <= 8 && |ext| <= 3 && DOT !in base
    requires Uppered(base) == base && Uppered(ext) == ext
    ensures Parse(base + [DOT] + ext) == Some(Padded(base, 8) + Padded(ext, 3))
    ensures ext == [] ==> Parse(base) == Some(Padded(base, 8) + Padded(ext, 3))
  {
    var f := base + [DOT] + ext;
    assert f[|base|] == DOT && forall j :: 0 <= j < |base| ==> f[j] != DOT;
    assert Until(f, DOT) == |base| && f[..|base|] == base && f[|base| + 1..] == ext;
    assert Until(base, DOT) == |base| && base[..|base|] == base;
  }

  lemma Halves(n: Name, p: seq<Byte>, q: seq<Byte>)
    requires |p| == 8 && |q| == 3
    ensures p + q == n <==> p == n[..8] && q == n[8..]
  {
    assert n == n[..8] + n[8..] && (p + q)[..8] == p && (p + q)[8..] == q;
  }

  // ---- the image builder's conversion ----------------------------------------------

  /** Split at dots: the builder keeps the text between the first and the second dot. */
  function BuilderExt(f: CString): CString {
    var x := ExtPart(f);
    x[..Until(x, DOT)]
  }

  function BuilderName(f: CString): Name {
    Padded(Uppered(BasePart(f))[..Min(8, |BasePart(f)|)], 8)
    + Padded(Uppered(BuilderExt(f))[..Min(3, |BuilderExt(f)|)], 3)
  }

  /** The bytes that the builder stores: each part in capitals, cut off at 8 and 3 and filled up
      with blanks. The second part lies between the first dot, at d, and the next, at e. */
  lemma BuilderExact(f: CString, d: nat, e: nat)
    requires d <= |f| && (forall j :: 0 <= j < d ==> f[j] != 46) && (d < |f| ==> f[d] == 46)
    requires d <= e <= |f| && (d == |f| || d < e) && (forall j :: d < j < e ==> f[j] != 46) && (e < |f| ==> f[e] == 46)
    ensures var n := BuilderName(f);
            && (forall i :: 0 <= i < 8 && i < d ==> StoredAs(f[i], n[i]))
            && (forall i :: d <= i < 8 ==> n[i] == 32)
            && (forall i :: 8 <= i < 11 && i - 8 < e - d - 1 ==> StoredAs(f[d + 1 + (i - 8)], n[i]))
            && (forall i :: 8 <= i < 11 && i - 8 >= e - d - 1 ==> n[i] == 32)
  {
    hide Uppered, Padded;
    assert Until(f, DOT) == d;
    var b, x, n := BasePart(f), ExtPart(f), BuilderName(f);
    CutExact(b, 8);
    CutExact(BuilderExt(f), 3);
    assert forall i :: 0 <= i < d ==> b[i] == f[i];
    if d < |f| {
      assert forall j :: 0 <= j < |x| ==> x[j] == f[d + 1 + j];
      assert Until(x, DOT) == e - d - 1;
    }
    forall i | 8 <= i < 11
      ensures n[i] == Padded(Uppered(BuilderExt(f))[..Min(3, |BuilderExt(f)|)], 3)[i - 8]
    {
    }
    forall i | 8 <= i < 11 && i - 8 < e - d - 1
      ensures StoredAs(f[d + 1 + (i - 8)], n[i])
    {
      assert BuilderExt(f)[i - 8] == f[d + 1 + (i - 8)];
    }
  }

  lemma CutExact(p: seq<Byte>, n: nat)
    ensures var q := Padded(Uppered(p)[..Min(n, |p|)], n);
            && (forall i :: 0 <= i < |p| && i < n ==> StoredAs(p[i], q[i])) && (forall i :: |p| <= i < n ==> q[i] == 32)
  {
  }

  ghost predicate SingleDot83(f: CString) {
    |BasePart(f)| <= 8 && |ExtPart(f)| <= 3 && DOT !in ExtPart(f)
  }

  /** Builder and driver store the same name exactly for names with at most one dot whose
      parts fit 8 and 3: the builder truncates what the driver rejects. */
  lemma NamesAgree(f: CString)
    ensures Parse(f) == Some(BuilderName(f)) <==> SingleDot83(f)
  {
    var x := ExtPart(f);
    if SingleDot83(f) {
      assert x[..|x|] == x;
      assert Uppered(x)[..|x|] == Uppered(x);
      assert Uppered(BasePart(f))[..|BasePart(f)|] == Uppered(BasePart(f));
    } else if Parse(f).Some? {
      var k := Until(x, DOT);
      assert Parse(f).value[8 + k] == DOT;
      assert BuilderName(f)[8 + k] == SPACE;
    }
  }

  predicate Ascii(f: seq<Byte>) {
    forall c :: c in f ==> c < 0x80
  }

  /** What the host's text conversion stores: the name above for ASCII names; for others it
      raises an error or stores some ASCII bytes. */
  ghost predicate Converts(f: CString, built: Option<Name>) {
    (Ascii(f) ==> built == Some(BuilderName(f))) && (built.Some? ==> Ascii(built.value))
  }

  /** So a stored name is the one that the driver looks for exactly for ASCII names with at
      most one dot whose parts fit 8 and 3. */
  lemma HostNamesAgree(f: CString, built: Option<Name>)
    requires Converts(f, built)
    ensures built.Some? && Parse(f) == built <==> SingleDot83(f) && Ascii(f)
  {
    NamesAgree(f);
    if !Ascii(f) && Parse(f).Some? {
      var i :| 0 <= i < |f| && f[i] >= 0x80;
      var d := Until(f, DOT);
      var m := if i < d then i else 8 + (i - d - 1);
      assert if i < d then f[i] == BasePart(f)[i] else f[i] == ExtPart(f)[i - d - 1];
      assert Parse(f).value[m] == Upper(f[i]) == f[i] && Parse(f).value[m] in Parse(f).value;
    }
  }

  /** A stored name written out with its dot. */
  function Dotted(n: Name): seq<Byte> {
    n[..8] + [DOT] + n[8..]
  }

  /** Whatever the builder stores for an ASCII name, truncated or not, is the name of some
      file name that both sides read alike. */
  lemma BuilderNameDotted(f: CString)
    requires Ascii(f)
    ensures var n := BuilderName(f);
            && 0 !in Dotted(n) && SingleDot83(Dotted(n)) && BuilderName(Dotted(n)) == n && Dotted(n)[0] < 0x80
  {
    var n := BuilderName(f);
    BuilderBytes(f);
    var g := Dotted(n);
    assert g[8] == DOT && forall j :: 0 <= j < 8 ==> g[j] == n[j];
    assert Until(g, DOT) == 8;
    assert BasePart(g) == n[..8] && ExtPart(g) == n[8..];
    assert Until(n[8..], DOT) == 3;
    assert BuilderExt(g) == n[8..];
    assert Uppered(n[..8]) == n[..8] && Uppered(n[8..]) == n[8..];
    assert n[..8] + n[8..] == n;
  }

  lemma BuilderBytes(f: CString)
    requires Ascii(f)
    ensures var n := BuilderName(f);
            forall j :: 0 <= j < 11 ==> 0 < n[j] < 0x80 && n[j] != DOT && Upper(n[j]) == n[j]
  {
    var b, x := BasePart(f), BuilderExt(f);
    assert forall j :: 0 <= j < |b| ==> b[j] == f[j] && b[j] in f && b[j] != 0;
    assert forall j :: 0 <= j < |x| ==> x[j] == ExtPart(f)[j] == f[Until(f, DOT) + 1 + j] && x[j] in f && x[j] != 0;
    PartBytes(b, 8);
    PartBytes(x, 3);
  }

  lemma PartBytes(p: seq<Byte>, n: nat)
    requires forall j :: 0 <= j < |p| ==> 0 < p[j] < 0x80 && p[j] != DOT
    ensures var q := Padded(Uppered(p)[..Min(n, |p|)], n);
            forall j :: 0 <= j < n ==> 0 < q[j] < 0x80 && q[j] != DOT && Upper(q[j]) == q[j]
  {
  }
}
