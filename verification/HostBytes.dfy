/** The bytes of the image behind the root directory, as the host tool writes them: slices of
    a growing array are assigned, and an assignment behind the end appends instead. */
module HostBytes {
  import opened Bytes
  import opened FatVolume

  // ---- slice assignment ----------------------------------------------------------------------

  /** The array after its slice from o on, as long as the chunk, has been assigned. */
  function Assigned(area: seq<Byte>, o: nat, chunk: seq<Byte>): (r: seq<Byte>)
    ensures |r| == if o <= |area| then Max(|area|, o + |chunk|) else |area| + |chunk|
  {
    area[..Min(o, |area|)] + chunk + area[Min(o + |chunk|, |area|)..]
  }

  function Max(a: int, b: int): int {
    if a <= b then b else a
  }

  /** Chunk i of a file: a whole sector, or what is left. */
  function ChunkOf(content: seq<Byte>, i: nat): seq<Byte>
    requires SECTOR * i <= |content|
  {
    content[SECTOR * i..Min(|content|, SECTOR * (i + 1))]
  }

  /** The bytes lie where the cluster that is meant to hold them begins. */
  predicate Placed(area: seq<Byte>, o: nat, content: seq<Byte>) {
    o + |content| <= |area| && area[o..o + |content|] == content
  }

  /** Chunk by chunk or at once is the same, behind the end as well. */
  lemma ChunkStep(area: seq<Byte>, o: nat, content: seq<Byte>, i: nat)
    requires SECTOR * i <= |content|
    ensures Assigned(Assigned(area, o, content[..SECTOR * i]), o + SECTOR * i, ChunkOf(content, i))
            == Assigned(area, o, content[..Min(|content|, SECTOR * (i + 1))])
  {
    var n, m := SECTOR * i, Min(|content|, SECTOR * (i + 1));
    assert content[..n] + content[n..m] == content[..m];
    TwoSlices(area, o, content[..n], content[n..m]);
  }

  lemma TwoSlices(area: seq<Byte>, o: nat, a: seq<Byte>, b: seq<Byte>)
    ensures Assigned(Assigned(area, o, a), o + |a|, b) == Assigned(area, o, a + b)
  {
    var r, s := Assigned(Assigned(area, o, a), o + |a|, b), Assigned(area, o, a + b);
    assert |r| == |s|;
    forall k | 0 <= k < |r|
      ensures r[k] == s[k]
    {
    }
  }

  /** A file ends up where its first cluster is if and only if the array reaches that far. */
  lemma PlacedExact(area: seq<Byte>, o: nat, content: seq<Byte>)
    requires content != []
    ensures Placed(Assigned(area, o, content), o, content) <==> o <= |area|
    ensures o > |area| ==> Assigned(area, o, content) == area + content
  {
  }

  // ---- several files ----------------------------------------------------------------------------

  function Start(current: nat): nat
    requires 2 <= current
  {
    SECTOR * (current - 2)
  }

  /** The array after the files have been written one behind the other, from a cluster on. */
  function Written(area: seq<Byte>, current: nat, contents: seq<seq<Byte>>): seq<Byte>
    requires 2 <= current
    decreases |contents|
  {
    if contents == [] then area
    else Written(Assigned(area, Start(current), contents[0]), current + SectorCount(|contents[0]|), contents[1..])
  }

  /** The cluster at which file k begins. */
  function ClusterOf(current: nat, contents: seq<seq<Byte>>, k: nat): (c: nat)
    requires k <= |contents|
    ensures current <= c
    decreases k
  {
    if k == 0 then current else ClusterOf(current + SectorCount(|contents[0]|), contents[1..], k - 1)
  }

  /** Each file but the last ends within the first total bytes or fills its last sector. */
  predicate Contained(total: nat, current: nat, contents: seq<seq<Byte>>)
    requires 2 <= current
    decreases |contents|
  {
    |contents| <= 1
    || (var next := current + SectorCount(|contents[0]|);
        (Start(next) <= total || |contents[0]| % SECTOR == 0) && Contained(total, next, contents[1..]))
  }

  /** What the array is long enough for after one more file. */
  lemma LengthAfter(area: seq<Byte>, current: nat, content: seq<Byte>)
    requires 2 <= current && content != []
    ensures var next := Start(current + SectorCount(|content|));
            next <= |Assigned(area, Start(current), content)|
            <==> Start(current) <= |area| && (next <= |area| || |content| % SECTOR == 0)
    ensures Start(current) <= |area| ==> |area| <= |Assigned(area, Start(current), content)|
    ensures Start(current) + |content| <= Start(current + SectorCount(|content|))
  {
  }

  /** Once a file begins behind the end, so do all later ones, and the last one is not placed. */
  lemma {:induction false} NeverCaughtUp(area: seq<Byte>, current: nat, contents: seq<seq<Byte>>)
    requires 2 <= current && contents != [] && Start(current) > |area|
    requires forall k :: 0 <= k < |contents| ==> contents[k] != []
    ensures var last := |contents| - 1;
            |Written(area, current, contents)| < Start(ClusterOf(current, contents, last)) + |contents[last]|
    decreases |contents|
  {
    hide Assigned;
    var content := contents[0];
    LengthAfter(area, current, content);
    if |contents| > 1 {
      NeverCaughtUp(Assigned(area, Start(current), content), current + SectorCount(|content|), contents[1..]);
    }
  }

  /** Growing up to the next cluster does not matter to the condition. */
  lemma {:induction false} ContainedGrown(total: nat, total': nat, current: nat, contents: seq<seq<Byte>>)
    requires 2 <= current && total <= total' <= Max(total, Start(current))
    requires forall k :: 0 <= k < |contents| ==> contents[k] != []
    ensures Contained(total, current, contents) <==> Contained(total', current, contents)
    decreases |contents|
  {
    if |contents| > 1 {
      ContainedGrown(total, total', current + SectorCount(|contents[0]|), contents[1..]);
    }
  }

  lemma ContainedStep(area: seq<Byte>, current: nat, contents: seq<seq<Byte>>)
    requires 2 <= current && |contents| > 0 && Start(current) <= |area| && Contained(|area|, current, contents)
    requires forall k :: 0 <= k < |contents| ==> contents[k] != []
    ensures var next, area' := current + SectorCount(|contents[0]|), Assigned(area, Start(current), contents[0]);
            |contents| > 1 ==> Start(next) <= |area'| && Contained(|area'|, next, contents[1..])
  {
    hide Assigned;
    LengthAfter(area, current, contents[0]);
    if |contents| > 1 {
      ContainedGrown(|area|, |Assigned(area, Start(current), contents[0])|, current + SectorCount(|contents[0]|), contents[1..]);
    }
  }

  /** Later files do not touch what lies before them. */
  lemma {:induction false} WrittenKeeps(area: seq<Byte>, current: nat, contents: seq<seq<Byte>>, n: nat)
    requires 2 <= current && n <= |area| && n <= Start(current)
    ensures |area| <= |Written(area, current, contents)| && Written(area, current, contents)[..n] == area[..n]
    decreases |contents|
  {
    if contents != [] {
      var next := Assigned(area, Start(current), contents[0]);
      assert next[..n] == area[..n];
      hide Assigned;
      WrittenKeeps(next, current + SectorCount(|contents[0]|), contents[1..], n);
    }
  }

  /** The array reaches to the end of the last file if and only if the files are contained. */
  lemma {:induction false} LongEnough(area: seq<Byte>, current: nat, contents: seq<seq<Byte>>)
    requires 2 <= current && contents != [] && Start(current) <= |area|
    requires forall k :: 0 <= k < |contents| ==> contents[k] != []
    ensures var last := |contents| - 1;
            Start(ClusterOf(current, contents, last)) + |contents[last]| <= |Written(area, current, contents)|
            <==> Contained(|area|, current, contents)
    decreases |contents|
  {
    hide Assigned;
    var content, rest := contents[0], contents[1..];
    var next, area' := current + SectorCount(|content|), Assigned(area, Start(current), content);
    LengthAfter(area, current, content);
    if rest != [] {
      if Start(next) <= |area'| {
        LongEnough(area', next, rest);
        ContainedGrown(|area|, |area'|, next, rest);
      } else {
        NeverCaughtUp(area', next, rest);
      }
    }
  }

  /** Every file lies at its first cluster if and only if each but the last one ends within
      the array as it was, or fills its last sector. */
  lemma {:induction false} FilesPlaced(area: seq<Byte>, current: nat, contents: seq<seq<Byte>>)
    requires 2 <= current && Start(current) <= |area|
    requires forall k :: 0 <= k < |contents| ==> contents[k] != []
    ensures (forall k :: 0 <= k < |contents| ==>
               Placed(Written(area, current, contents), Start(ClusterOf(current, contents, k)), contents[k]))
            <==> Contained(|area|, current, contents)
    decreases |contents|
  {
    if contents != [] {
      LongEnough(area, current, contents);
      if Contained(|area|, current, contents) {
        forall k | 0 <= k < |contents|
          ensures Placed(Written(area, current, contents), Start(ClusterOf(current, contents, k)), contents[k])
        {
          OnePlaced(area, current, contents, k);
        }
      }
    }
  }

  lemma {:induction false} OnePlaced(area: seq<Byte>, current: nat, contents: seq<seq<Byte>>, k: nat)
    requires 2 <= current && Start(current) <= |area| && k < |contents| && Contained(|area|, current, contents)
    requires forall k :: 0 <= k < |contents| ==> contents[k] != []
    ensures Placed(Written(area, current, contents), Start(ClusterOf(current, contents, k)), contents[k])
    decreases k
  {
    hide Assigned, Placed, SectorCount, Start;
    var content, rest, o := contents[0], contents[1..], Start(current);
    var next, area' := current + SectorCount(|content|), Assigned(area, o, content);
    LengthAfter(area, current, content);
    if k == 0 {
      PlacedExact(area, o, content);
      WrittenKeeps(area', next, rest, o + |content|);
      StillPlaced(area', Written(area', next, rest), o, content);
    } else {
      ContainedGrown(|area|, |area'|, next, rest);
      OnePlaced(area', next, rest, k - 1);
    }
  }

  lemma StillPlaced(area: seq<Byte>, area': seq<Byte>, o: nat, content: seq<Byte>)
    requires Placed(area, o, content) && |area| <= |area'| && area'[..o + |content|] == area[..o + |content|]
    ensures Placed(area', o, content)
  {
    assert area'[o..o + |content|] == area'[..o + |content|][o..];
    assert area[o..o + |content|] == area[..o + |content|][o..];
  }

  /** The clusters of the image of 2880 sectors with 1024 reserved ones. */
  const IMAGE_CLUSTERS: nat := 2880 - 1024 - 2 * 9 - 14

  /** A file one byte longer than they are, then a file of one byte: only the first is placed. */
  lemma SecondFileLost(area: seq<Byte>, a: seq<Byte>, b: seq<Byte>)
    requires |area| == SECTOR * IMAGE_CLUSTERS && |a| == |area| + 1 && |b| == 1
    ensures Written(area, 2, [a, b]) == a + b
    ensures Placed(a + b, Start(2), a) && ClusterOf(2, [a, b], 1) == 1827 && |a + b| < Start(1827)
  {
    var one := Assigned(area, 0, a);
    assert one == a && SectorCount(|a|) == 1825;
    assert [a, b][1..] == [b] && [b][1..] == [];
    PlacedExact(one, Start(1827), b);
    assert Written(one, 1827, [b]) == Assigned(one, Start(1827), b);
    assert ClusterOf(2, [a, b], 1) == ClusterOf(1827, [b], 0);
  }

  // ---- the same as sectors --------------------------------------------------------------------

  /** Sector p, zero-filled where the array ends. */
  function SectorOf(area: seq<Byte>, p: nat): Sector {
    var lo, hi := Min(|area|, SECTOR * p), Min(|area|, SECTOR * (p + 1));
    area[lo..hi] + Zeros(SECTOR - (hi - lo))
  }

  function SectorsOf(area: seq<Byte>, n: nat): (r: seq<Sector>)
    ensures |r| == n
  {
    seq(n, p requires 0 <= p < n => SectorOf(area, p))
  }

  /** The sectors from one on hold nothing. */
  ghost predicate ZeroFrom(area: seq<Byte>, n: nat, from: nat) {
    forall p :: from <= p < n ==> SectorOf(area, p) == Zeros(SECTOR)
  }

  /** A chunk assigned where the array reaches fills one zero sector and no other. */
  lemma ChunkFills(area: seq<Byte>, n: nat, p: nat, content: seq<Byte>, i: nat)
    requires p < n && SECTOR * i < |content| && SECTOR * p <= |area| && SectorOf(area, p) == Zeros(SECTOR)
    ensures SectorsOf(Assigned(area, SECTOR * p, ChunkOf(content, i)), n) == SectorsOf(area, n)[p := SectorAt(content, i)]
  {
    var next := Assigned(area, SECTOR * p, ChunkOf(content, i));
    forall q | 0 <= q < n
      ensures SectorOf(next, q) == if q == p then SectorAt(content, i) else SectorOf(area, q)
    {
      if q == p { FilledSector(area, p, content, i); } else { OtherSector(area, SECTOR * p, ChunkOf(content, i), q); }
    }
  }

  lemma SectorByte(area: seq<Byte>, p: nat, k: nat)
    requires k < SECTOR
    ensures SectorOf(area, p)[k] == if SECTOR * p + k < |area| then area[SECTOR * p + k] else 0
  {
  }

  lemma AssignedByte(area: seq<Byte>, o: nat, chunk: seq<Byte>, j: nat)
    requires o <= |area| && j < |Assigned(area, o, chunk)|
    ensures Assigned(area, o, chunk)[j] == if o <= j < o + |chunk| then chunk[j - o] else area[j]
  {
  }

  lemma FilledSector(area: seq<Byte>, p: nat, content: seq<Byte>, i: nat)
    requires SECTOR * i < |content| && SECTOR * p <= |area| && SectorOf(area, p) == Zeros(SECTOR)
    ensures SectorOf(Assigned(area, SECTOR * p, ChunkOf(content, i)), p) == SectorAt(content, i)
  {
    var chunk := ChunkOf(content, i);
    var next := Assigned(area, SECTOR * p, chunk);
    var s, t := SectorOf(next, p), SectorAt(content, i);
    forall k | 0 <= k < SECTOR
      ensures s[k] == t[k]
    {
      SectorByte(area, p, k);
      SectorByte(next, p, k);
      if SECTOR * p + k < |next| { AssignedByte(area, SECTOR * p, chunk, SECTOR * p + k); }
    }
  }

  lemma OtherSector(area: seq<Byte>, o: nat, chunk: seq<Byte>, q: nat)
    requires o <= |area| && |chunk| <= SECTOR && (SECTOR * (q + 1) <= o || o + SECTOR <= SECTOR * q)
    ensures SectorOf(Assigned(area, o, chunk), q) == SectorOf(area, q)
  {
    var next := Assigned(area, o, chunk);
    var s, t := SectorOf(next, q), SectorOf(area, q);
    forall k | 0 <= k < SECTOR
      ensures s[k] == t[k]
    {
      SectorByte(area, q, k);
      SectorByte(next, q, k);
      if SECTOR * q + k < |next| { AssignedByte(area, o, chunk, SECTOR * q + k); }
    }
  }

  /** An assignment that begins behind the end also ends before its own sector does. */
  lemma BehindChunk(area: seq<Byte>, o: nat, chunk: seq<Byte>, q: nat)
    requires |chunk| <= SECTOR && o + SECTOR <= SECTOR * q && SectorOf(area, q) == Zeros(SECTOR)
    ensures SectorOf(Assigned(area, o, chunk), q) == Zeros(SECTOR)
  {
    if o <= |area| {
      OtherSector(area, o, chunk, q);
    } else {
      assert |Assigned(area, o, chunk)| <= SECTOR * q;
    }
  }
}
