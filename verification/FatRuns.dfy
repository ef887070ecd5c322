/** Every run of the driver's operations, and the one operation that can lose a cluster. */
module FatRuns {
  import opened Bytes
  import opened FatCells
  import opened FatChains
  import opened FatNames
  import opened FatVolume
  import opened FatOps
  import opened FatMeaning

  datatype Op =
    | Create(f: CString)
    | Write(f: CString, content: seq<Byte>)
    | Append(f: CString, content: seq<Byte>)
    | Delete(f: CString)
    | MakeDir(f: CString, parent: nat)

  ghost function Step(d: Disk, op: Op): Disk
    requires Inv(d) && (op.MakeDir? ==> op.parent < 0x1_0000)
  {
    match op
    case Create(f) => FatOps.Create(d, f).0
    case Write(f, content) => FatOps.Write(d, f, content).0
    case Append(f, content) => FatOps.Append(d, f, content).0
    case Delete(f) => FatOps.Delete(d, f).0
    case MakeDir(f, parent) => FatOps.MakeDir(d, f, parent).0
  }

  /** mkdir under a name that starts with the tombstone byte, when it gets as far as
      taking a cluster. */
  ghost predicate Leaks(d: Disk, op: Op)
    requires Inv(d)
  {
    op.MakeDir? && Ghostly(op.f) && Creatable(d, op.f) && FreeCount(d) > 0
  }

  /** The cluster that such a mkdir takes belongs to no entry, whatever chains one assigns
      to the entries. */
  lemma GhostlyDirLeaks(d: Disk, f: CString, parent: nat, chains: seq<seq<nat>>)
    requires Inv(d) && Ghostly(f) && Creatable(d, f) && FreeCount(d) > 0 && parent < 0x1_0000
    requires |chains| == |d.root|
    ensures !Inv(FatOps.MakeDir(d, f, parent).0.(chains := chains))
  {
    MakeDirLoses(d, f, parent);
    SlotLookup(d, f);
    ParseCanonical(f);
    var d' := FatOps.MakeDir(d, f, parent).0.(chains := chains);
    var c := NewCluster(d);
    if Inv(d') {
      NotOwned(d, d', FreeSlot(d.root, 0), c);
    }
  }

  lemma NotOwned(d: Disk, d': Disk, i: nat, c: nat)
    requires Inv(d) && 2 <= c < |d.fat| && d.fat[c] == FREE && i < |d.root|
    requires d'.fat == Push(d.fat, [], c) && |d'.root| == |d.root| && d'.root == d.root[i := d'.root[i]] && !Live(d'.root[i])
    requires |d'.chains| == |d'.root|
    ensures !Inv(d')
  {
    if Inv(d') {
      assert Covered(d'.chains, c);
      var j :| 0 <= j < |d'.chains| && c in d'.chains[j];
      assert Fits(d'.root[j], d'.chains[j]);
      assert j != i && d'.root[j] == d.root[j];
      SameChain(d, c, j, d'.chains);
      SoundIsWellFormed(d.fat, d.chains);
    }
  }

  lemma SameChain(d: Disk, c: nat, j: nat, chains: seq<seq<nat>>)
    requires Inv(d) && 2 <= c < |d.fat| && d.fat[c] == FREE
    requires j < |d.root| && j < |chains| && Live(d.root[j]) && chains[j] != []
    requires Chain(Push(d.fat, [], c), chains[j]) && Fits(d.root[j], chains[j])
    ensures chains[j] == d.chains[j]
  {
    SoundIsWellFormed(d.fat, d.chains);
    assert Fits(d.root[j], d.chains[j]) && 2 <= chains[j][0];
    assert c !in d.chains[j];
    PushOther(d.fat, [], c, d.chains[j]);
    ChainUnique(Push(d.fat, [], c), chains[j], d.chains[j], 0);
  }

  /** Every operation keeps the volume invariant; clusters once lost stay lost, and one is
      lost exactly when the operation leaks. */
  lemma StepInv(d: Disk, op: Op)
    requires Inv(d) && (op.MakeDir? ==> op.parent < 0x1_0000)
    ensures Inv(Step(d, op)) && |Step(d, op).fat| == |d.fat|
    ensures Leaks(d, op) ==> Lost(Step(d, op)) == Lost(d) + [[NewCluster(d)]]
    ensures !Leaks(d, op) ==> Lost(Step(d, op)) == Lost(d)
  {
    hide Inv, Creatable, Ghostly, IsFile, FatOps.Create, FatOps.Write, FatOps.Append, FatOps.Delete, FatOps.MakeDir, Lost, NewCluster;
    hide FreeCount;
    match op
    case Create(f) => CreateInv(d, f);
    case Write(f, content) => WriteInv(d, f, content);
    case Append(f, content) => AppendInv(d, f, content);
    case Delete(f) => DeleteInv(d, f);
    case MakeDir(f, parent) => MakeDirInv(d, f, parent);
  }

  lemma CreateInv(d: Disk, f: CString)
    requires Inv(d)
    ensures var d' := FatOps.Create(d, f).0;
            Inv(d') && |d'.fat| == |d.fat| && |d'.root| == |d.root| && |d'.root| <= |d'.chains| && Lost(d') == Lost(d)
  {
    if Creatable(d, f) { CreateMeans(d, f); } else { CreateErrors(d, f, 0); FreeOrFull(d.root); }
  }

  lemma DeleteInv(d: Disk, f: CString)
    requires Inv(d)
    ensures var d' := FatOps.Delete(d, f).0;
            Inv(d') && |d'.fat| == |d.fat| && |d'.root| <= |d'.chains| && Lost(d') == Lost(d)
  {
    if IsFile(d, f) { DeleteMeans(d, f); } else { FileErrors(d, f, []); }
  }

  lemma WriteInv(d: Disk, f: CString, content: seq<Byte>)
    requires Inv(d)
    ensures var d' := FatOps.Write(d, f, content).0;
            Inv(d') && |d'.fat| == |d.fat| && Lost(d') == Lost(d)
  {
    if IsFile(d, f) { WriteMeans(d, f, content); } else { FileErrors(d, f, content); }
  }

  lemma AppendInv(d: Disk, f: CString, content: seq<Byte>)
    requires Inv(d)
    ensures var d' := FatOps.Append(d, f, content).0;
            Inv(d') && |d'.fat| == |d.fat| && Lost(d') == Lost(d)
  {
    if !IsFile(d, f) {
      FileErrors(d, f, content);
    } else if Lookup(d, Parse(f).value).value.bytes == [] {
      AppendToEmpty(d, f, content);
      WriteInv(d, f, content);
    } else {
      AppendMeans(d, f, content);
    }
  }

  lemma FreeOrFull(root: seq<DirEntry>)
    ensures FreeSlot(root, 0) == |root| <==> forall i :: 0 <= i < |root| ==> Live(root[i])
  {
  }

  lemma MakeDirInv(d: Disk, f: CString, parent: nat)
    requires Inv(d) && parent < 0x1_0000
    ensures var d' := FatOps.MakeDir(d, f, parent).0;
            && Inv(d') && |d'.fat| == |d.fat|
            && Lost(d') == if Leaks(d, MakeDir(f, parent)) then Lost(d) + [[NewCluster(d)]] else Lost(d)
  {
    FreeOrFull(d.root);
    if !Creatable(d, f) {
      CreateErrors(d, f, parent);
    } else if FreeCount(d) == 0 {
      SlotLookup(d, f);
    } else if Ghostly(f) {
      MakeDirLoses(d, f, parent);
    } else {
      MakeDirMeans(d, f, parent);
    }
  }

  ghost predicate Parents(ops: seq<Op>) {
    forall i :: 0 <= i < |ops| && ops[i].MakeDir? ==> ops[i].parent < 0x1_0000
  }

  ghost function Run(d: Disk, ops: seq<Op>): (r: Disk)
    requires Inv(d) && Parents(ops)
    decreases |ops|
  {
    if ops == [] then d
    else
      StepInv(d, ops[0]);
      Run(Step(d, ops[0]), ops[1..])
  }

  /** How many operations of the run lose a cluster. */
  ghost function Leaked(d: Disk, ops: seq<Op>): nat
    requires Inv(d) && Parents(ops)
    decreases |ops|
  {
    if ops == [] then 0
    else
      StepInv(d, ops[0]);
      (if Leaks(d, ops[0]) then 1 else 0) + Leaked(Step(d, ops[0]), ops[1..])
  }

  lemma {:induction false} RunKeeps(d: Disk, ops: seq<Op>)
    requires Inv(d) && Parents(ops)
    ensures Inv(Run(d, ops)) && |Run(d, ops).fat| == |d.fat|
    ensures Total(Lost(Run(d, ops))) == Total(Lost(d)) + Leaked(d, ops)
    decreases |ops|
  {
    if ops != [] {
      StepInv(d, ops[0]);
      if Leaks(d, ops[0]) { TotalMore(Lost(d), [NewCluster(d)]); }
      RunKeeps(Step(d, ops[0]), ops[1..]);
    }
  }

  lemma TotalMore(chains: seq<seq<nat>>, ch: seq<nat>)
    ensures Total(chains + [ch]) == Total(chains) + |ch|
  {
    assert (chains + [ch])[..|chains|] == chains;
  }

  lemma {:induction false} TotalSplit(chains: seq<seq<nat>>, n: nat)
    requires n <= |chains|
    ensures Total(chains) == Total(chains[..n]) + Total(chains[n..])
    decreases |chains| - n
  {
    if n == |chains| {
      assert chains[..n] == chains;
    } else {
      var k := |chains| - 1;
      TotalSplit(chains[..k], n);
      assert chains[..k][..n] == chains[..n] && chains[..k][n..] == chains[n..k];
      assert chains[n..] == chains[n..k] + [chains[k]];
      TotalMore(chains[n..k], chains[k]);
    }
  }

  /** Along every run, disk-full exits and leaking operations included: chains stay acyclic,
      disjoint and terminated, account for exactly the cells in use and hold the recorded
      sizes; free clusters, those of the entries and those lost add up to the data clusters,
      and each leaking operation loses exactly one. */
  lemma RunInv(d: Disk, ops: seq<Op>)
    requires Inv(d) && Parents(ops)
    ensures var d' := Run(d, ops);
            && Inv(d')
            && FreeCount(d') + Total(d'.chains[..|d'.root|]) + Total(Lost(d')) == |d.fat| - 2
            && Total(Lost(d')) == Total(Lost(d)) + Leaked(d, ops)
  {
    RunKeeps(d, ops);
    var d' := Run(d, ops);
    Conservation(d'.fat, d'.chains);
    TotalSplit(d'.chains, |d'.root|);
  }
}
