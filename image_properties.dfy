/** What the layout of createImage.py guarantees: where padding goes, how
    long a block is, which files are checked and when nothing is written. */
module ImageProperties {
  import opened StringOrder
  import opened PyText
  import opened CreateImage

  /** The contents of the non-empty slots, in order, without padding. */
  function Files(slots: seq<string>, fs: FileSystem): seq<byte>
    requires BlockReadable(slots, fs)
  {
    if slots == [] then []
    else (if slots[0] != "" then fs[slots[0]] else []) + Files(slots[1..], fs)
  }

  /** The clusters the non-empty slots take off the padding counter. */
  function Clusters(slots: seq<string>, fs: FileSystem): int
    requires BlockReadable(slots, fs)
  {
    if slots == [] then 0
    else (if slots[0] != "" then ClustersOf(slots[0], fs) else 0) + Clusters(slots[1..], fs)
  }

  /** The length of a padding run for a counter value. */
  function Pad(counter: int): nat
  {
    if counter > 0 then counter else 0
  }

  /** Slot `k` is the first empty slot of the block. */
  predicate FirstEmpty(slots: seq<string>, k: int)
  {
    0 <= k < |slots| && slots[k] == "" && forall j :: 0 <= j < k ==> slots[j] != ""
  }

  lemma {:induction false} RepeatLength(s: seq<byte>, n: nat)
    ensures |Repeat(s, n)| == n * |s|
  {
    if n > 0 { RepeatLength(s, n - 1); }
  }

  /** Once the counter is spent, empty slots emit nothing: the rest of the
      block is its files alone. */
  lemma {:induction false} SpentCounterPadsNothing(slots: seq<string>, counter: int, fs: FileSystem)
    requires Hole8k in fs && BlockReadable(slots, fs)
    requires counter <= 0
    ensures SlotsImage(slots, counter, fs) == Files(slots, fs)
  {
    if slots != [] {
      if slots[0] != "" {
        SpentCounterPadsNothing(slots[1..], counter - ClustersOf(slots[0], fs), fs);
      } else {
        SpentCounterPadsNothing(slots[1..], counter, fs);
      }
    }
  }

  /** A block without empty slots gets no padding at all, whatever it holds. */
  lemma {:induction false} FullSlotsPadNothing(slots: seq<string>, counter: int, fs: FileSystem)
    requires Hole8k in fs && BlockReadable(slots, fs)
    requires forall j :: 0 <= j < |slots| ==> slots[j] != ""
    ensures SlotsImage(slots, counter, fs) == Files(slots, fs)
  {
    if slots != [] {
      FullSlotsPadNothing(slots[1..], counter - ClustersOf(slots[0], fs), fs);
    }
  }

  /** The one padding run of a block sits at its first empty slot: the files
      before it, then `counter - clusters before` copies of `hole8k` (none
      when that is not positive), then the files after it. */
  lemma {:induction false} PaddingAtFirstEmpty(slots: seq<string>, counter: int, k: int, fs: FileSystem)
    requires Hole8k in fs && BlockReadable(slots, fs)
    requires FirstEmpty(slots, k)
    ensures SlotsImage(slots, counter, fs) ==
      Files(slots[..k], fs) + Repeat(fs[Hole8k], Pad(counter - Clusters(slots[..k], fs))) + Files(slots[k + 1..], fs)
    decreases k
  {
    if k == 0 {
      assert slots[..0] == [];
      SpentCounterPadsNothing(slots[1..], if counter > 0 then 0 else counter, fs);
    } else {
      var rest := slots[1..];
      assert rest[..k - 1] == slots[1..k];
      assert rest[k..] == slots[k + 1..];
      assert slots[..k][1..] == slots[1..k];
      PaddingAtFirstEmpty(rest, counter - ClustersOf(slots[0], fs), k - 1, fs);
    }
  }

  /** Files whose sizes are whole clusters take exactly their length off
      the counter. */
  lemma {:induction false} WholeClustersLength(slots: seq<string>, fs: FileSystem)
    requires BlockReadable(slots, fs)
    requires forall s :: s in slots && s != "" ==> |fs[s]| % Cluster == 0
    ensures |Files(slots, fs)| == Cluster * Clusters(slots, fs)
  {
    if slots != [] {
      WholeClustersLength(slots[1..], fs);
    }
  }

  /** A block is exactly 64 KiB when the files before its first empty slot
      are whole clusters adding up to at most 64 KiB, no file follows that
      slot, and `hole8k` is one cluster. */
  lemma FullBlock(slots: seq<string>, k: int, fs: FileSystem)
    requires Hole8k in fs && BlockReadable(slots, fs)
    requires FirstEmpty(slots, k)
    requires forall j :: 0 <= j < k ==> |fs[slots[j]]| % Cluster == 0
    requires |Files(slots[..k], fs)| <= BlockClusters * Cluster
    requires forall j :: k < j < |slots| ==> slots[j] == ""
    requires |fs[Hole8k]| == Cluster
    ensures |BlockImage(slots, fs)| == BlockClusters * Cluster
  {
    var before := slots[..k];
    WholeClustersLength(before, fs);
    SpentCounterPadsNothing(slots[k + 1..], 0, fs);
    assert SlotsImage(slots[k + 1..], 0, fs) == [] by {
      EmptySlotsImage(slots[k + 1..], fs);
    }
    PaddingAtFirstEmpty(slots, BlockClusters, k, fs);
    var c := Clusters(before, fs);
    RepeatLength(fs[Hole8k], Pad(BlockClusters - c));
    assert c <= BlockClusters;
  }

  lemma {:induction false} EmptySlotsImage(slots: seq<string>, fs: FileSystem)
    requires Hole8k in fs && BlockReadable(slots, fs)
    requires forall j :: 0 <= j < |slots| ==> slots[j] == ""
    ensures SlotsImage(slots, 0, fs) == []
  {
    if slots != [] { EmptySlotsImage(slots[1..], fs); }
  }

  /** The order quirk of block 0: with the C slot empty and the D slot
      filled, all eight clusters of padding come first and D follows, so the
      block is longer than 64 KiB whenever D is not empty. */
  lemma PaddingBeforeD(args: RomArgs, fs: FileSystem)
    requires Readable(MemoryMapOf(args), fs)
    requires MemoryMapOf(args)[0][0] == "" && MemoryMapOf(args)[0][1] != ""
    ensures BlockImage(MemoryMapOf(args)[0], fs) ==
      Repeat(fs[Hole8k], BlockClusters as nat) + fs[MemoryMapOf(args)[0][1]]
    ensures |BlockImage(MemoryMapOf(args)[0], fs)| == BlockClusters * |fs[Hole8k]| + |fs[MemoryMapOf(args)[0][1]]|
  {
    var block := MemoryMapOf(args)[0];
    assert Readable(MemoryMapOf(args), fs) ==> BlockReadable(block, fs);
    PaddingAtFirstEmpty(block, BlockClusters, 0, fs);
    assert block[..0] == [] && block[1..] == [block[1], ""];
    assert block[1..][1..] == [""];
    RepeatLength(fs[Hole8k], BlockClusters as nat);
  }

  /** An optional role passed as `None` keeps its default slot (empty for
      C and D, `hole32k` for G); a name is joined onto the ROM path, and the
      empty name with an empty ROM path leaves the slot empty. */
  lemma RoleSlots(args: RomArgs)
    ensures MemoryMapOf(args)[0][0] == (if args.crom.None? then "" else Join(args.romPath, args.crom.value))
    ensures MemoryMapOf(args)[0][1] == (if args.drom.None? then "" else Join(args.romPath, args.drom.value))
    ensures MemoryMapOf(args)[1][1] == (if args.grom.None? then Hole32k else Join(args.romPath, args.grom.value))
    ensures args.crom == Some("") ==> (MemoryMapOf(args)[0][0] == "" <==> args.romPath == "")
    ensures args.drom == Some("") ==> (MemoryMapOf(args)[0][1] == "" <==> args.romPath == "")
    ensures args.grom == Some("") ==> (MemoryMapOf(args)[1][1] == "" <==> args.romPath == "")
  {
    JoinFacts(args.romPath, "");
  }

  /** The system GROM and ROM are looked up under `systemromPath`, which
      falls back to `romPath`; with both empty they keep their bare names. */
  lemma SystemSlots(args: RomArgs)
    ensures args.systemromPath == "" && args.romPath != "" ==>
      MemoryMapOf(args)[1][0] == Join(args.romPath, SystemGrom) &&
      MemoryMapOf(args)[2][2] == Join(args.romPath, SystemRom)
    ensures args.systemromPath != "" ==>
      MemoryMapOf(args)[1][0] == Join(args.systemromPath, SystemGrom) &&
      MemoryMapOf(args)[2][2] == Join(args.systemromPath, SystemRom)
    ensures args.systemromPath == "" && args.romPath == "" ==>
      MemoryMapOf(args)[1][0] == SystemGrom && MemoryMapOf(args)[2][2] == SystemRom
  {
  }

  /** The files checked are the distinct non-empty slots in sorted order;
      `hole8k` and `hole32k` are always among them. */
  lemma {:induction false} CheckedFiles(args: RomArgs)
    ensures StrictlySorted(CheckList(MemoryMapOf(args)))
    ensures forall p :: p in CheckList(MemoryMapOf(args)) <==> IsEntry(MemoryMapOf(args), p)
    ensures Hole8k in CheckList(MemoryMapOf(args)) && Hole32k in CheckList(MemoryMapOf(args))
  {
    var mm := MemoryMapOf(args);
    assert Hole8k in mm[2] && Hole32k in mm[2];
    assert IsEntry(mm, Hole8k) && IsEntry(mm, Hole32k);
  }

  /** The missing list holds exactly the non-empty slots that name no
      file, each once and in sorted order. */
  lemma MissingExact(mm: MemoryMap, fs: FileSystem)
    ensures StrictlySorted(MissingFrom(CheckList(mm), fs))
    ensures forall p :: p in MissingFrom(CheckList(mm), fs) <==> IsEntry(mm, p) && p !in fs
  {
    MissingKeepsOrder(CheckList(mm), fs);
  }

  /** All or nothing: the result is 66 exactly when some non-empty slot
      names no file, and then the missing list holds exactly those paths in
      sorted order and no file is written; otherwise the result is 0 and the
      only change is the image written at the output path. */
  lemma AllOrNothing(args: RomArgs, fs: FileSystem)
    ensures var o := RomOutcome(args, fs);
      (o.code == ExNoInput <==> exists p :: IsEntry(MemoryMapOf(args), p) && p !in fs)
    ensures var o := RomOutcome(args, fs);
      StrictlySorted(o.missing) &&
      forall p :: p in o.missing <==> IsEntry(MemoryMapOf(args), p) && p !in fs
    ensures var o := RomOutcome(args, fs);
      o.code == ExNoInput ==> o.fs == fs
    ensures var o := RomOutcome(args, fs);
      o.code == 0 ==> Readable(MemoryMapOf(args), fs) &&
                      o.fs == fs[args.output := Image(MemoryMapOf(args), fs)]
  {
    var mm := MemoryMapOf(args);
    var missing := MissingFrom(CheckList(mm), fs);
    MissingExact(mm, fs);
    if missing != [] {
      assert RomOutcome(args, fs) == Outcome(ExNoInput, missing, fs);
      assert missing[0] in missing;
    } else {
      assert Hole8k in mm[2];
      ReadableWhenNoneMissing(mm, fs);
      assert RomOutcome(args, fs) == Outcome(0, [], fs[args.output := Image(mm, fs)]);
    }
  }

  /** The missing list is a sub-list of the checked one, so it is sorted
      when that is. */
  lemma {:induction false} MissingKeepsOrder(checked: seq<string>, fs: FileSystem)
    requires StrictlySorted(checked)
    ensures StrictlySorted(MissingFrom(checked, fs))
  {
    if checked != [] {
      var init := checked[..|checked| - 1];
      var last := checked[|checked| - 1];
      MissingKeepsOrder(init, fs);
      var m := MissingFrom(init, fs);
      forall x | x in m ensures Below(x, last) {
        var i :| 0 <= i < |init| && init[i] == x;
        assert checked[i] == x;
      }
    }
  }

  /** Block 0 is 64 KiB unless an empty C slot precedes a filled D slot. */
  lemma CartridgeBlockFull(block: seq<string>, fs: FileSystem)
    requires Hole8k in fs && BlockReadable(block, fs) && |block| == 3 && block[2] == ""
    requires forall s :: s in block && s != "" ==> |fs[s]| % Cluster == 0
    requires |fs[Hole8k]| == Cluster
    requires !(block[0] == "" && block[1] != "")
    requires |Files(block, fs)| <= BlockClusters * Cluster
    ensures |BlockImage(block, fs)| == BlockClusters * Cluster
  {
    var k := if block[0] == "" then 0 else if block[1] == "" then 1 else 2;
    PrefixFiles(block, k, fs);
    FullBlock(block, k, fs);
  }

  /** A block whose first `k` slots are filled and whose others are empty
      is 64 KiB when those files are whole clusters within 64 KiB. */
  lemma FilledPrefixBlockFull(block: seq<string>, k: int, fs: FileSystem)
    requires Hole8k in fs && BlockReadable(block, fs) && 0 <= k < |block|
    requires forall j :: 0 <= j < k ==> block[j] != ""
    requires forall j :: k <= j < |block| ==> block[j] == ""
    requires forall s :: s in block && s != "" ==> |fs[s]| % Cluster == 0
    requires |fs[Hole8k]| == Cluster
    requires |Files(block, fs)| <= BlockClusters * Cluster
    ensures |BlockImage(block, fs)| == BlockClusters * Cluster
  {
    PrefixFiles(block, k, fs);
    FullBlock(block, k, fs);
  }

  /** With whole-cluster inputs, `hole8k` one cluster, C/D, GROM/G and
      hole8k/hole32k/ROM each fitting into 64 KiB, the G slot filled and not
      the quirky order of an empty C before a filled D, the image is three
      blocks of exactly 64 KiB. */
  lemma StandardImageSize(args: RomArgs, fs: FileSystem)
    requires Readable(MemoryMapOf(args), fs)
    requires forall s :: IsEntry(MemoryMapOf(args), s) ==> |fs[s]| % Cluster == 0
    requires |fs[Hole8k]| == Cluster
    requires !(MemoryMapOf(args)[0][0] == "" && MemoryMapOf(args)[0][1] != "")
    requires MemoryMapOf(args)[1][1] != ""
    requires |Files(MemoryMapOf(args)[0], fs)| <= BlockClusters * Cluster
    requires |Files(MemoryMapOf(args)[1], fs)| <= BlockClusters * Cluster
    requires |Files(MemoryMapOf(args)[2], fs)| <= BlockClusters * Cluster
    ensures |Image(MemoryMapOf(args), fs)| == 3 * BlockClusters * Cluster
  {
    var mm := MemoryMapOf(args);
    forall b, s | 0 <= b < 3 && s in mm[b] && s != "" ensures |fs[s]| % Cluster == 0 {
      assert IsEntry(mm, s);
    }
    CartridgeBlockFull(mm[0], fs);
    JoinFacts(SystemPath(args), SystemGrom);
    FilledPrefixBlockFull(mm[1], 2, fs);
    JoinFacts(SystemPath(args), SystemRom);
    FilledPrefixBlockFull(mm[2], 3, fs);
    ImageOfBlocks(mm, fs);
  }

  /** The output is block 0, then block 1, then block 2: a change inside
      one block leaves the other blocks' bytes as they are, though a block
      of another length moves the blocks after it. */
  lemma ImageOfBlocks(mm: MemoryMap, fs: FileSystem)
    requires Readable(mm, fs) && |mm| == 3
    ensures Image(mm, fs) == BlockImage(mm[0], fs) + BlockImage(mm[1], fs) + BlockImage(mm[2], fs)
  {
    var tail1, tail2 := mm[1..], mm[2..];
    assert tail1[1..] == tail2 && tail2[1..] == [];
    assert Readable(tail1, fs) && Readable(tail2, fs);
    assert Image(tail2, fs) == BlockImage(mm[2], fs) + Image([], fs);
    assert Image(tail1, fs) == BlockImage(mm[1], fs) + Image(tail2, fs);
  }

  /** When every slot from `k` on is empty, the files before `k` are all the
      block's files. */
  lemma {:induction false} PrefixFiles(slots: seq<string>, k: int, fs: FileSystem)
    requires BlockReadable(slots, fs)
    requires 0 <= k <= |slots|
    requires forall j :: k <= j < |slots| ==> slots[j] == ""
    ensures Files(slots[..k], fs) == Files(slots, fs)
    decreases k
  {
    if k == 0 {
      assert slots[..0] == [];
      NoFiles(slots, fs);
    } else {
      assert slots[..k][1..] == slots[1..][..k - 1];
      PrefixFiles(slots[1..], k - 1, fs);
    }
  }

  lemma {:induction false} NoFiles(slots: seq<string>, fs: FileSystem)
    requires BlockReadable(slots, fs)
    requires forall j :: 0 <= j < |slots| ==> slots[j] == ""
    ensures Files(slots, fs) == []
  {
    if slots != [] { NoFiles(slots[1..], fs); }
  }
}
