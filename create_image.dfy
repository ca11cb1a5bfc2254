/** `createRom` of createImage.py: lays out a full TI-99 ROM image from the
    cartridge C, D and G ROMs, the system GROM and ROM and the filler files
    `hole8k` and `hole32k`.

    The file system is a map from path to contents: a path names a regular
    file exactly when it is a key (`os.path.isfile`), and its size is the
    length of its contents (`os.path.getsize`). */
module CreateImage {
  import opened StringOrder
  import opened PyText

  newtype byte = b: int | 0 <= b < 256

  type FileSystem = map<string, seq<byte>>

  datatype Option<T> = None | Some(value: T)

  /** The size unit the padding counter counts in. */
  const Cluster: nat := 8192
  /** A block is budgeted at this many clusters (64 KiB). */
  const BlockClusters: int := 8
  const Hole8k: string := "hole8k"
  const Hole32k: string := "hole32k"
  const SystemGrom: string := "994AGROM-EP.Bin"
  const SystemRom: string := "994aROM.Bin"
  /** EX_NOINPUT, returned when an input file is missing. */
  const ExNoInput: int := 66

  /** The arguments of `createRom` that reach the layout: the output file,
      the C, D and G names (`None` when not given) and the two search
      paths. */
  datatype RomArgs = RomArgs(
    output: string,
    crom: Option<string>,
    drom: Option<string>,
    grom: Option<string>,
    romPath: string,
    systemromPath: string)

  /** Three blocks of slots; an empty string is an empty slot. */
  type MemoryMap = seq<seq<string>>

  /** The layout before any argument is applied. */
  const DefaultMap: MemoryMap :=
    [["", "", ""], [SystemGrom, Hole32k, "", ""], [Hole8k, Hole32k, SystemRom, "", ""]]

  /** The system ROM path falls back to the ROM path when it is empty. */
  function SystemPath(args: RomArgs): string
  {
    if args.systemromPath == "" && args.romPath != "" then args.romPath else args.systemromPath
  }

  function SystemSlot(sys: string, name: string): string
  {
    if sys != "" then Join(sys, name) else name
  }

  function RoleSlot(romPath: string, role: Option<string>, default: string): string
  {
    if role.Some? then Join(romPath, role.value) else default
  }

  /** The memory map `createRom` ends up with for `args`. */
  function MemoryMapOf(args: RomArgs): MemoryMap
  {
    var sys := SystemPath(args);
    [[RoleSlot(args.romPath, args.crom, ""), RoleSlot(args.romPath, args.drom, ""), ""],
     [SystemSlot(sys, SystemGrom), RoleSlot(args.romPath, args.grom, Hole32k), "", ""],
     [Hole8k, Hole32k, SystemSlot(sys, SystemRom), "", ""]]
  }

  /** Fills the memory map the way createImage.py does: start from the default
      layout and overwrite single slots in place. */
  method BuildMemoryMap(args: RomArgs) returns (mm: MemoryMap)
    ensures mm == MemoryMapOf(args)
  {
    mm := DefaultMap;
    var sys := args.systemromPath;
    if sys == "" && args.romPath != "" {
      sys := args.romPath;
    }
    if sys != "" {
      mm := mm[1 := mm[1][0 := Join(sys, mm[1][0])]];
      mm := mm[2 := mm[2][2 := Join(sys, mm[2][2])]];
    }
    if args.crom.Some? {
      mm := mm[0 := mm[0][0 := Join(args.romPath, args.crom.value)]];
    }
    if args.drom.Some? {
      mm := mm[0 := mm[0][1 := Join(args.romPath, args.drom.value)]];
    }
    if args.grom.Some? {
      mm := mm[1 := mm[1][1 := Join(args.romPath, args.grom.value)]];
    }
    ghost var want := MemoryMapOf(args);
    assert mm[0] == want[0] && mm[1] == want[1] && mm[2] == want[2];
  }

  /** `s` is a slot of `mm` that names a file. */
  predicate IsEntry(mm: MemoryMap, s: string)
  {
    s != "" && exists b :: 0 <= b < |mm| && s in mm[b]
  }

  /** The non-empty slots of one block, in order. */
  function FilledSlots(block: seq<string>): (r: seq<string>)
    ensures forall s :: s in r <==> s in block && s != ""
  {
    if block == [] then []
    else (if block[0] != "" then [block[0]] else []) + FilledSlots(block[1..])
  }

  /** The non-empty slots of the whole map, block after block. */
  function Entries(mm: MemoryMap): (r: seq<string>)
    ensures forall s :: s in r <==> IsEntry(mm, s)
  {
    if mm == [] then []
    else
      var r := FilledSlots(mm[0]) + Entries(mm[1..]);
      assert forall s :: IsEntry(mm, s) <==> (s != "" && s in mm[0]) || IsEntry(mm[1..], s) by {
        forall s ensures IsEntry(mm, s) <==> (s != "" && s in mm[0]) || IsEntry(mm[1..], s) {
          if IsEntry(mm, s) {
            var b :| 0 <= b < |mm| && s in mm[b];
            if b > 0 { assert s in mm[1..][b - 1]; }
          }
          if IsEntry(mm[1..], s) {
            var b :| 0 <= b < |mm[1..]| && s in mm[1..][b];
            assert s in mm[b + 1];
          }
        }
      }
      r
  }

  /** The files checked: `sorted(set(...))` of the non-empty slots. */
  function CheckList(mm: MemoryMap): seq<string>
  {
    SortedSet(Entries(mm))
  }

  /** The entries of `checked` that are not files, in the order checked. */
  function MissingFrom(checked: seq<string>, fs: FileSystem): (r: seq<string>)
    ensures forall p :: p in r <==> p in checked && p !in fs
  {
    if checked == [] then []
    else
      var init := checked[..|checked| - 1];
      var last := checked[|checked| - 1];
      assert checked == init + [last];
      MissingFrom(init, fs) + (if last in fs then [] else [last])
  }

  /** Checking one more path appends it when it is not a file. */
  lemma MissingSnoc(checked: seq<string>, p: string, fs: FileSystem)
    ensures MissingFrom(checked + [p], fs) == MissingFrom(checked, fs) + (if p in fs then [] else [p])
  {
    assert (checked + [p])[..|checked|] == checked;
  }

  /** The missing-file loop: every checked path that is not a file is
      appended, so the list stays in checking order. */
  method FindMissing(checked: seq<string>, fs: FileSystem) returns (missing: seq<string>)
    ensures missing == MissingFrom(checked, fs)
  {
    missing := [];
    for i := 0 to |checked|
      invariant missing == MissingFrom(checked[..i], fs)
    {
      assert checked[..i + 1] == checked[..i] + [checked[i]];
      MissingSnoc(checked[..i], checked[i], fs);
      if checked[i] !in fs {
        missing := missing + [checked[i]];
      }
    }
    assert checked[..|checked|] == checked;
  }

  /** `n` copies of `s`, one after another. */
  function Repeat(s: seq<byte>, n: nat): seq<byte>
  {
    if n == 0 then [] else Repeat(s, n - 1) + s
  }

  /** Every non-empty slot of `block` is a file. */
  predicate BlockReadable(block: seq<string>, fs: FileSystem)
  {
    forall s :: s in block && s != "" ==> s in fs
  }

  /** Everything the writing loop opens is a file. */
  predicate Readable(mm: MemoryMap, fs: FileSystem)
  {
    Hole8k in fs && forall b :: 0 <= b < |mm| ==> BlockReadable(mm[b], fs)
  }

  /** Clusters of 8 KiB a copied file takes off the padding counter. */
  function ClustersOf(s: string, fs: FileSystem): int
    requires s in fs
  {
    |fs[s]| / Cluster
  }

  /** The bytes written for the rest of a block, from its slots and the
      current padding counter: a file is copied and lowers the counter by its
      clusters; an empty slot emits `counter` copies of `hole8k` when the
      counter is positive and then sets it to 0. */
  function SlotsImage(slots: seq<string>, counter: int, fs: FileSystem): seq<byte>
    requires Hole8k in fs && BlockReadable(slots, fs)
  {
    if slots == [] then []
    else if slots[0] != "" then
      fs[slots[0]] + SlotsImage(slots[1..], counter - ClustersOf(slots[0], fs), fs)
    else if counter > 0 then
      Repeat(fs[Hole8k], counter) + SlotsImage(slots[1..], 0, fs)
    else
      SlotsImage(slots[1..], counter, fs)
  }

  /** The bytes written for one block: its counter starts at 8. */
  function BlockImage(block: seq<string>, fs: FileSystem): seq<byte>
    requires Hole8k in fs && BlockReadable(block, fs)
  {
    SlotsImage(block, BlockClusters, fs)
  }

  /** The whole output file: the blocks' bytes in map order. */
  function Image(mm: MemoryMap, fs: FileSystem): seq<byte>
    requires Readable(mm, fs)
  {
    if mm == [] then [] else BlockImage(mm[0], fs) + Image(mm[1..], fs)
  }

  /** The fill loop: `n` more copies of `hole8k`'s contents. */
  method AppendPadding(out: seq<byte>, hole: seq<byte>, n: nat) returns (out': seq<byte>)
    ensures out' == out + Repeat(hole, n)
  {
    out' := out;
    for fill := 0 to n
      invariant out' == out + Repeat(hole, fill)
    {
      out' := out' + hole;
    }
  }

  /** One pass of the block loop: the padding counter starts at 8, every
      copied file lowers it, the first empty slot with a positive counter
      pads and resets it. */
  method AppendBlock(out: seq<byte>, block: seq<string>, fs: FileSystem) returns (out': seq<byte>)
    requires Hole8k in fs && BlockReadable(block, fs)
    ensures out' == out + BlockImage(block, fs)
  {
    out' := out;
    var counter := BlockClusters;
    for k := 0 to |block|
      invariant out' + SlotsImage(block[k..], counter, fs) == out + BlockImage(block, fs)
    {
      assert block[k..][1..] == block[k + 1..];
      var current := block[k];
      if current != "" {
        out' := out' + fs[current];
        counter := counter - |fs[current]| / Cluster;
      } else if counter > 0 {
        out' := AppendPadding(out', fs[Hole8k], counter);
        counter := 0;
      }
    }
    assert block[|block|..] == [];
  }

  /** Writes the output block by block, in map order. */
  method WriteImage(mm: MemoryMap, fs: FileSystem) returns (out: seq<byte>)
    requires Readable(mm, fs)
    ensures out == Image(mm, fs)
  {
    out := [];
    for b := 0 to |mm|
      invariant out + Image(mm[b..], fs) == Image(mm, fs)
    {
      assert mm[b..][1..] == mm[b + 1..];
      out := AppendBlock(out, mm[b], fs);
    }
    assert mm[|mm|..] == [];
  }

  /** What `createRom` returns and leaves behind: its return code, the
      missing files it reports and the file system afterwards. */
  datatype Outcome = Outcome(code: int, missing: seq<string>, fs: FileSystem)

  /** No file missing means everything the writing loop opens exists. */
  lemma {:induction false} ReadableWhenNoneMissing(mm: MemoryMap, fs: FileSystem)
    requires exists b :: 0 <= b < |mm| && Hole8k in mm[b]
    requires MissingFrom(CheckList(mm), fs) == []
    ensures Readable(mm, fs)
  {
    forall s | IsEntry(mm, s) ensures s in fs {
      assert s in CheckList(mm);
    }
    forall b | 0 <= b < |mm| ensures BlockReadable(mm[b], fs) {
      forall s | s in mm[b] && s != "" ensures s in fs { assert IsEntry(mm, s); }
    }
    var b :| 0 <= b < |mm| && Hole8k in mm[b];
    assert IsEntry(mm, Hole8k);
  }

  /** The result of `createRom(args)` on file system `fs`. */
  function RomOutcome(args: RomArgs, fs: FileSystem): Outcome
  {
    var mm := MemoryMapOf(args);
    var missing := MissingFrom(CheckList(mm), fs);
    if missing == [] then
      assert Hole8k in mm[2];
      ReadableWhenNoneMissing(mm, fs);
      Outcome(0, [], fs[args.output := Image(mm, fs)])
    else
      Outcome(ExNoInput, missing, fs)
  }

  /** `createRom` writes at most its output file: every other path keeps
      its contents, or stays absent. */
  lemma OnlyOutputWritten(args: RomArgs, fs: FileSystem, p: string)
    requires p != args.output
    ensures p in RomOutcome(args, fs).fs <==> p in fs
    ensures p in fs ==> RomOutcome(args, fs).fs[p] == fs[p]
  {
    var mm := MemoryMapOf(args);
    if MissingFrom(CheckList(mm), fs) == [] {
      assert Hole8k in mm[2];
      ReadableWhenNoneMissing(mm, fs);
      assert RomOutcome(args, fs).fs == fs[args.output := Image(mm, fs)];
    } else {
      assert RomOutcome(args, fs).fs == fs;
    }
  }

  /** `createRom`: build the map, check every input, and only when none is
      missing write the image to `args.output`. */
  method CreateRom(args: RomArgs, fs: FileSystem) returns (code: int, missing: seq<string>, fsOut: FileSystem)
    ensures Outcome(code, missing, fsOut) == RomOutcome(args, fs)
    ensures code == 0 || code == ExNoInput
  {
    var mm := BuildMemoryMap(args);
    var checked := SortedSet(Entries(mm));
    missing := FindMissing(checked, fs);
    if missing == [] {
      assert Hole8k in mm[2];
      ReadableWhenNoneMissing(mm, fs);
      var image := WriteImage(mm, fs);
      fsOut := fs[args.output := image];
      code := 0;
    } else {
      fsOut := fs;
      code := ExNoInput;
    }
  }
}
