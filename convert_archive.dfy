/** The batch driver of convertArchive.py: drop alternate and overdump
    files, group the rest by cartridge name, pick each group's C, D and G
    file and run `createRom` once per group in sorted name order.

    The glob result is a parameter (its order as listed), and the file
    system is threaded from one `createRom` call to the next. */
module ConvertArchive {
  import opened StringOrder
  import opened PyText
  import opened CreateImage

  /** The output directory defaults to the ROM directory. */
  function OutputDirectory(fullromPath: string, romPath: string): string
  {
    if fullromPath == "" then romPath else fullromPath
  }

  /** Where the cartridge name starts: after `romPath` and its separator. */
  function StartOffset(romPath: string): nat
  {
    if romPath == "" then 0 else |romPath| + 1
  }

  /** Alternate (`[a]`) and overdump (`[o]`) dumps are skipped. */
  predicate Excluded(f: string)
  {
    Find(f, "[a]") != -1 || Find(f, "[o]") != -1
  }

  lemma ExcludedIffMarker(f: string)
    ensures Excluded(f) <==> Contains(f, "[a]") || Contains(f, "[o]")
  {
    FindIsFirstOccurrence(f, "[a]");
    FindIsFirstOccurrence(f, "[o]");
  }

  /** The cartridge name: from `start` up to the first " (", or, when the
      file does not follow that naming scheme, up to the last two
      characters (the extension). */
  function CartridgeName(f: string, start: int): string
  {
    var end := Find(f, " (");
    if end != -1 then Slice(f, start, end) else Slice(f, start, -2)
  }

  /** With " (" present the name ends at its first occurrence. */
  lemma NameEndsAtParen(f: string, start: nat)
    requires Contains(f, " (")
    ensures exists k ::
      OccursAt(f, " (", k) && (forall j :: 0 <= j < k ==> !OccursAt(f, " (", j)) &&
      CartridgeName(f, start) == (if start < k then f[start..k] else "")
  {
    FindIsFirstOccurrence(f, " (");
    var k := Find(f, " (");
    assert OccursAt(f, " (", k);
  }

  /** Without " (" the name drops the last two characters. */
  lemma FallbackName(f: string, start: nat)
    requires !Contains(f, " (")
    ensures CartridgeName(f, start) == (if start < |f| - 2 then f[start..|f| - 2] else "")
  {
    FindIsFirstOccurrence(f, " (");
  }

  /** The number of '/' characters at the end of `s`. */
  function TrailingSlashes(s: string): nat
  {
    if s != [] && s[|s| - 1] == '/' then TrailingSlashes(s[..|s| - 1]) + 1 else 0
  }

  /** `s` with its trailing '/' characters removed (`s.rstrip('/')`). */
  function StripSlashes(s: string): (r: string)
    ensures |r| + TrailingSlashes(s) == |s| && r == s[..|r|]
    ensures r == [] || r[|r| - 1] != '/'
    ensures r == [] ==> forall i :: 0 <= i < |s| ==> s[i] == '/'
  {
    if s != [] && s[|s| - 1] == '/' then StripSlashes(s[..|s| - 1]) else s
  }

  predicate AllSlashes(s: string)
  {
    forall i :: 0 <= i < |s| ==> s[i] == '/'
  }

  /** The directory glob lists the matches under. Splitting the pattern
      `os.path.join(romPath, '*.[CDG]')` with `os.path.split` strips the
      trailing slashes of its head unless the head is slashes only. */
  function GlobDir(romPath: string): string
  {
    if AllSlashes(romPath) then romPath else StripSlashes(romPath)
  }

  /** The directory prefix glob puts before each name: glob joins its
      directory with each match. */
  function DirPrefix(romPath: string): string
  {
    Join(GlobDir(romPath), "")
  }

  /** How many leading characters of each name the offset skips beyond
      glob's prefix: one per trailing '/' of `romPath`, and one for a path
      of slashes only. */
  function LostChars(romPath: string): nat
  {
    if romPath == "" then 0 else if AllSlashes(romPath) then 1 else TrailingSlashes(romPath)
  }

  /** The name starts right after glob's directory prefix when `romPath`
      does not end in '/'; otherwise the offset overshoots it by
      `LostChars(romPath)` characters. */
  lemma StartOffsetVsPrefix(romPath: string)
    ensures StartOffset(romPath) == |DirPrefix(romPath)| + LostChars(romPath)
    ensures LostChars(romPath) == 0 <==> !EndsWith(romPath, '/')
  {
    if romPath != "" {
      if AllSlashes(romPath) {
        assert romPath[|romPath| - 1] == '/';
        assert Join(romPath, "") == romPath;
      } else {
        var g := StripSlashes(romPath);
        assert g != [];
        assert Join(g, "") == g + "/";
        if romPath[|romPath| - 1] == '/' {
          assert TrailingSlashes(romPath) > 0;
        }
      }
    }
  }

  /** With `romPath` `r//`, glob lists `r/Foo (1).C` and the offset 4 skips
      two letters of the name. */
  lemma DoubleSlashExample()
    ensures DirPrefix("r//") == "r/" && LostChars("r//") == 2
    ensures CartridgeName("r/Foo (1).C", StartOffset("r//")) == "o"
  {
    assert StripSlashes("r//") == "r";
    assert !AllSlashes("r//") by { assert "r//"[0] != '/'; }
    assert TrailingSlashes("r") == 0;
    assert DirPrefix("r//") + "Foo" == "r/Foo";
    assert !Contains("r/Foo", " (") by {
      forall k | 0 <= k <= 5 ensures !OccursAt("r/Foo", " (", k) {
        if k + 2 <= 5 { assert "r/Foo"[k] != ' '; }
      }
    }
    NameUnderTrailingSlash("r//", "Foo", "1).C");
    assert DirPrefix("r//") + "Foo" + " (" + "1).C" == "r/Foo (1).C";
  }

  /** The first " (" in `pre + " (" + rest` is the one after `pre` when
      `pre` holds none. */
  lemma ParenAfter(pre: string, rest: string)
    requires !Contains(pre, " (")
    ensures Find(pre + " (" + rest, " (") == |pre|
  {
    var f := pre + " (" + rest;
    assert OccursAt(f, " (", |pre|);
    forall j | 0 <= j < |pre| ensures !OccursAt(f, " (", j) {
      if j + 2 <= |pre| {
        assert f[j..j + 2] == pre[j..j + 2];
        assert !OccursAt(pre, " (", j);
      } else {
        assert j + 1 == |pre| && f[j + 1] == ' ';
        assert f[j..j + 2][1] == f[j + 1] != " ("[1];
      }
    }
  }

  /** A file `Name (…)`, listed under a ROM path that does not end in '/'
      and with no " (" before the name's end, is grouped under `Name`. */
  lemma NameOfStandardFile(romPath: string, name: string, rest: string)
    requires !EndsWith(romPath, '/')
    requires !Contains(DirPrefix(romPath) + name, " (")
    ensures CartridgeName(DirPrefix(romPath) + name + " (" + rest, StartOffset(romPath)) == name
  {
    var pre := DirPrefix(romPath) + name;
    var f := pre + " (" + rest;
    ParenAfter(pre, rest);
    StartOffsetVsPrefix(romPath);
    assert f[StartOffset(romPath)..|pre|] == name;
  }

  /** Under any ROM path the same file is grouped under its name without
      its first `LostChars(romPath)` characters. */
  lemma NameUnderTrailingSlash(romPath: string, name: string, rest: string)
    requires !Contains(DirPrefix(romPath) + name, " (")
    ensures CartridgeName(DirPrefix(romPath) + name + " (" + rest, StartOffset(romPath)) ==
      if LostChars(romPath) <= |name| then name[LostChars(romPath)..] else ""
  {
    var pre := DirPrefix(romPath) + name;
    var f := pre + " (" + rest;
    ParenAfter(pre, rest);
    StartOffsetVsPrefix(romPath);
    if LostChars(romPath) < |name| {
      assert f[StartOffset(romPath)..|pre|] == name[LostChars(romPath)..];
    }
  }

  /** A file `Stem.X` that does not follow the naming scheme, under a ROM
      path that does not end in '/', is grouped under its whole stem. */
  lemma NameOfPlainFile(romPath: string, stem: string, ext: char)
    requires !EndsWith(romPath, '/')
    requires !Contains(DirPrefix(romPath) + stem + "." + [ext], " (")
    ensures CartridgeName(DirPrefix(romPath) + stem + "." + [ext], StartOffset(romPath)) == stem
  {
    var f := DirPrefix(romPath) + stem + "." + [ext];
    FallbackName(f, StartOffset(romPath));
    StartOffsetVsPrefix(romPath);
    assert f[StartOffset(romPath)..|f| - 2] == stem;
  }

  /** The files of group `name`, in the order the glob listed them. */
  function Members(files: seq<string>, name: string, start: int): (r: seq<string>)
    ensures forall f :: f in r <==> f in files && !Excluded(f) && CartridgeName(f, start) == name
  {
    if files == [] then []
    else
      var init, last := files[..|files| - 1], files[|files| - 1];
      assert files == init + [last];
      Members(init, name, start) + (if !Excluded(last) && CartridgeName(last, start) == name then [last] else [])
  }

  /** Some listed file that is not excluded has cartridge name `name`. */
  predicate Named(files: seq<string>, name: string, start: int)
  {
    exists f :: f in files && !Excluded(f) && CartridgeName(f, start) == name
  }

  /** A name has an empty group exactly when no listed file carries it. */
  lemma MembersEmpty(files: seq<string>, name: string, start: int)
    ensures Members(files, name, start) == [] <==> !Named(files, name, start)
  {
    var m := Members(files, name, start);
    if m != [] { assert m[0] in m; }
  }

  /** Listing one more file names its group, if it is not excluded. */
  lemma NamedSnoc(files: seq<string>, f: string, k: string, start: int)
    ensures Named(files + [f], k, start) <==> Named(files, k, start) || (!Excluded(f) && CartridgeName(f, start) == k)
  {
    if Named(files + [f], k, start) {
      var g :| g in files + [f] && !Excluded(g) && CartridgeName(g, start) == k;
    }
  }

  /** Listing one more file appends it to its group and to no other. */
  lemma MembersSnoc(files: seq<string>, f: string, k: string, start: int)
    ensures Members(files + [f], k, start) ==
      Members(files, k, start) + (if !Excluded(f) && CartridgeName(f, start) == k then [f] else [])
  {
    assert (files + [f])[..|files|] == files;
  }

  /** The cartridge names of the non-excluded files of `files`, each once,
      in the order the names first appear. */
  function FirstSeen(files: seq<string>, start: int): seq<string>
  {
    if files == [] then []
    else
      var before := FirstSeen(files[..|files| - 1], start);
      var f := files[|files| - 1];
      if Excluded(f) || CartridgeName(f, start) in before then before else before + [CartridgeName(f, start)]
  }

  lemma FirstSeenSnoc(files: seq<string>, f: string, start: int)
    ensures FirstSeen(files + [f], start) ==
      if Excluded(f) || CartridgeName(f, start) in FirstSeen(files, start) then FirstSeen(files, start)
      else FirstSeen(files, start) + [CartridgeName(f, start)]
  {
    assert (files + [f])[..|files|] == files;
  }

  /** A name is first seen exactly when some non-excluded file carries it. */
  lemma {:induction false} FirstSeenNamed(files: seq<string>, start: int, n: string)
    ensures n in FirstSeen(files, start) <==> Named(files, n, start)
  {
    if files != [] {
      var init, f := files[..|files| - 1], files[|files| - 1];
      assert files == init + [f];
      FirstSeenNamed(init, start, n);
      NamedSnoc(init, f, n, start);
    }
  }

  /** Some non-excluded file carries name `x` and no non-excluded file up to
      and including it carries name `y`. */
  ghost predicate SeenBefore(files: seq<string>, start: int, x: string, y: string)
  {
    exists i :: 0 <= i < |files| && !Excluded(files[i]) && CartridgeName(files[i], start) == x &&
      forall j :: 0 <= j <= i && !Excluded(files[j]) ==> CartridgeName(files[j], start) != y
  }

  /** Listing another file keeps every earlier-seen relation. */
  lemma SeenBeforeSnoc(files: seq<string>, f: string, start: int, x: string, y: string)
    requires SeenBefore(files, start, x, y)
    ensures SeenBefore(files + [f], start, x, y)
  {
    var i :| 0 <= i < |files| && !Excluded(files[i]) && CartridgeName(files[i], start) == x &&
      forall j :: 0 <= j <= i && !Excluded(files[j]) ==> CartridgeName(files[j], start) != y;
    assert forall j :: 0 <= j <= i ==> (files + [f])[j] == files[j];
  }

  /** Of two keys, the earlier one is carried by a file listed before every
      file carrying the later one. */
  lemma {:induction false} FirstSeenOrder(files: seq<string>, start: int)
    ensures forall a, b :: 0 <= a < b < |FirstSeen(files, start)| ==>
      SeenBefore(files, start, FirstSeen(files, start)[a], FirstSeen(files, start)[b])
  {
    if files != [] {
      var init, f := files[..|files| - 1], files[|files| - 1];
      assert files == init + [f];
      FirstSeenOrder(init, start);
      FirstSeenSnoc(init, f, start);
      var before := FirstSeen(init, start);
      var r := FirstSeen(files, start);
      forall a, b | 0 <= a < b < |r| ensures SeenBefore(files, start, r[a], r[b]) {
        assert r[a] == before[a];
        if b < |before| {
          assert r[b] == before[b];
          SeenBeforeSnoc(init, f, start, before[a], before[b]);
        } else {
          FirstSeenNamed(init, start, before[a]);
          FirstSeenNamed(init, start, r[b]);
          var g :| g in init && !Excluded(g) && CartridgeName(g, start) == before[a];
          var i :| 0 <= i < |init| && init[i] == g;
          assert files[i] == init[i];
          forall j | 0 <= j <= i && !Excluded(files[j]) ensures CartridgeName(files[j], start) != r[b] {
            assert files[j] == init[j] && init[j] in init;
          }
        }
      }
    }
  }

  /** `keys` and `groups` are the dictionary built from `files`: the keys in
      the order their names first appear, without repeats, one key per name
      some non-excluded file carries, and each key mapped to the files
      carrying its name in listing order. */
  ghost predicate Grouped(keys: seq<string>, groups: map<string, seq<string>>, files: seq<string>, start: int)
  {
    keys == FirstSeen(files, start) &&
    (forall k :: k in keys <==> k in groups) &&
    (forall a, b :: 0 <= a < b < |keys| ==> keys[a] != keys[b]) &&
    (forall k :: k in groups <==> Named(files, k, start)) &&
    (forall k :: k in groups ==> groups[k] == Members(files, k, start))
  }

  /** One pass of the grouping loop: file `f`, unless excluded, is appended
      to the list of its name, and a new name becomes a new key. */
  method AddFile(keys: seq<string>, groups: map<string, seq<string>>, f: string, start: int, ghost seen: seq<string>)
    returns (keys': seq<string>, groups': map<string, seq<string>>)
    requires Grouped(keys, groups, seen, start)
    ensures Grouped(keys', groups', seen + [f], start)
  {
    keys', groups' := keys, groups;
    if !Excluded(f) {
      var name := CartridgeName(f, start);
      if name in groups {
        groups' := groups[name := groups[name] + [f]];
      } else {
        groups' := groups[name := [f]];
        keys' := keys + [name];
      }
    }
    FirstSeenSnoc(seen, f, start);
    forall k ensures Named(seen + [f], k, start) <==> Named(seen, k, start) || (!Excluded(f) && CartridgeName(f, start) == k) {
      NamedSnoc(seen, f, k, start);
    }
    forall k | k in groups' ensures groups'[k] == Members(seen + [f], k, start) {
      MembersSnoc(seen, f, k, start);
      MembersEmpty(seen, k, start);
    }
  }

  /** The grouping loop over the glob result.  The dictionary is modelled
      as Python keeps it: its key list in insertion order and the map from
      name to list. */
  method GroupFiles(files: seq<string>, start: int) returns (keys: seq<string>, groups: map<string, seq<string>>)
    ensures Grouped(keys, groups, files, start)
  {
    keys, groups := [], map[];
    for i := 0 to |files|
      invariant Grouped(keys, groups, files[..i], start)
    {
      assert files[..i + 1] == files[..i] + [files[i]];
      keys, groups := AddFile(keys, groups, files[i], start, files[..i]);
    }
    assert files[..|files|] == files;
  }

  /** The last file of `list` ending in `ch`, or "" when there is none. */
  function LastEndingIn(list: seq<string>, ch: char): string
  {
    if list == [] then ""
    else
      var last := list[|list| - 1];
      if EndsWith(last, ch) then last else LastEndingIn(list[..|list| - 1], ch)
  }

  /** The choice is "" exactly when no file ends in `ch`; otherwise it is a
      file ending in `ch` that no later file ending in `ch` follows. */
  lemma {:induction false} LastEndingInIsLast(list: seq<string>, ch: char)
    ensures LastEndingIn(list, ch) == "" <==> forall f :: f in list ==> !EndsWith(f, ch)
    ensures LastEndingIn(list, ch) != "" ==>
      exists i :: 0 <= i < |list| && list[i] == LastEndingIn(list, ch) && EndsWith(list[i], ch) &&
                  forall j :: i < j < |list| ==> !EndsWith(list[j], ch)
  {
    if list != [] {
      var init, last := list[..|list| - 1], list[|list| - 1];
      assert list == init + [last];
      LastEndingInIsLast(init, ch);
      if !EndsWith(last, ch) && LastEndingIn(init, ch) != "" {
        var i :| 0 <= i < |init| && init[i] == LastEndingIn(init, ch) && EndsWith(init[i], ch) &&
                 forall j :: i < j < |init| ==> !EndsWith(init[j], ch);
        assert list[i] == init[i];
      }
    }
  }

  /** The per-group selection loop: each file overwrites the choice for the
      letter it ends in. */
  method PickRoms(list: seq<string>) returns (c: string, d: string, g: string)
    requires forall f :: f in list ==> |f| > 0
    ensures c == LastEndingIn(list, 'C')
    ensures d == LastEndingIn(list, 'D')
    ensures g == LastEndingIn(list, 'G')
  {
    c, d, g := "", "", "";
    for i := 0 to |list|
      invariant c == LastEndingIn(list[..i], 'C')
      invariant d == LastEndingIn(list[..i], 'D')
      invariant g == LastEndingIn(list[..i], 'G')
    {
      var f := list[i];
      assert list[..i + 1][..i] == list[..i] && list[..i + 1][i] == f;
      assert f in list;
      if f[|f| - 1] == 'C' { c := f; }
      if f[|f| - 1] == 'D' { d := f; }
      if f[|f| - 1] == 'G' { g := f; }
    }
    assert list[..|list|] == list;
  }

  /** The `createRom` call made for one group: output `<dir>/<name>.bin`,
      the chosen C, D and G files (possibly ""), no ROM path. */
  function CallFor(name: string, members: seq<string>, outDir: string, systemromPath: string): RomArgs
  {
    RomArgs(Join(outDir, name) + ".bin",
            Some(LastEndingIn(members, 'C')), Some(LastEndingIn(members, 'D')), Some(LastEndingIn(members, 'G')),
            "", systemromPath)
  }

  /** With no ROM path the chosen files go into the slots unchanged: a
      group without a C, D or G file leaves that slot empty, so a missing
      G file does not fall back to `hole32k`. */
  lemma CallSlots(name: string, members: seq<string>, outDir: string, systemromPath: string)
    ensures var mm := MemoryMapOf(CallFor(name, members, outDir, systemromPath));
      mm[0][0] == LastEndingIn(members, 'C') &&
      mm[0][1] == LastEndingIn(members, 'D') &&
      mm[1][1] == LastEndingIn(members, 'G')
    ensures var mm := MemoryMapOf(CallFor(name, members, outDir, systemromPath));
      mm[1][1] == "" <==> forall f :: f in members ==> !EndsWith(f, 'G')
  {
    var call := CallFor(name, members, outDir, systemromPath);
    JoinFacts("", LastEndingIn(members, 'C'));
    JoinFacts("", LastEndingIn(members, 'D'));
    JoinFacts("", LastEndingIn(members, 'G'));
    LastEndingInIsLast(members, 'G');
  }

  /** Return codes of a run of calls, and the file system they leave. */
  datatype BatchRun = BatchRun(codes: seq<int>, fs: FileSystem)

  /** The calls made one after another, each on the file system the
      previous one left. */
  function RunCalls(calls: seq<RomArgs>, fs: FileSystem): BatchRun
  {
    if calls == [] then BatchRun([], fs)
    else
      var prev := RunCalls(calls[..|calls| - 1], fs);
      var o := RomOutcome(calls[|calls| - 1], prev.fs);
      BatchRun(prev.codes + [o.code], o.fs)
  }

  /** Running one more call extends the codes by that call's result. */
  lemma RunCallsSnoc(done: seq<RomArgs>, call: RomArgs, fs: FileSystem)
    ensures RunCalls(done + [call], fs) ==
      BatchRun(RunCalls(done, fs).codes + [RomOutcome(call, RunCalls(done, fs).fs).code],
               RomOutcome(call, RunCalls(done, fs).fs).fs)
  {
    assert (done + [call])[..|done|] == done;
  }

  /** Every group is built: there is one code per call, each 0 or 66. */
  lemma {:induction false} RunCallsCodes(calls: seq<RomArgs>, fs: FileSystem)
    ensures |RunCalls(calls, fs).codes| == |calls|
    ensures forall i :: 0 <= i < |calls| ==> RunCalls(calls, fs).codes[i] in {0, ExNoInput}
  {
    if calls != [] {
      var init := calls[..|calls| - 1];
      RunCallsCodes(init, fs);
    }
  }

  /** A run of calls changes no path other than their output files. */
  lemma {:induction false} RunCallsFrame(calls: seq<RomArgs>, fs: FileSystem, p: string)
    requires forall i :: 0 <= i < |calls| ==> calls[i].output != p
    ensures p in RunCalls(calls, fs).fs <==> p in fs
    ensures p in fs ==> RunCalls(calls, fs).fs[p] == fs[p]
  {
    if calls != [] {
      var init := calls[..|calls| - 1];
      RunCallsFrame(init, fs, p);
      OnlyOutputWritten(calls[|calls| - 1], RunCalls(init, fs).fs, p);
    }
  }

  /** The number of successful builds. */
  function CountZero(r: seq<int>): nat
  {
    if r == [] then 0 else CountZero(r[..|r| - 1]) + (if r[|r| - 1] == 0 then 1 else 0)
  }

  /** The sticky exit code: the first nonzero result, or 0. */
  function FirstNonzero(r: seq<int>): int
  {
    if r == [] then 0
    else
      var before := FirstNonzero(r[..|r| - 1]);
      if before != 0 then before else r[|r| - 1]
  }

  lemma CountersStep(r: seq<int>, code: int)
    ensures CountZero(r + [code]) == CountZero(r) + (if code == 0 then 1 else 0)
    ensures FirstNonzero(r + [code]) == if FirstNonzero(r) != 0 then FirstNonzero(r) else code
  {
    assert (r + [code])[..|r|] == r;
  }

  /** The count is the number of zero results. */
  lemma {:induction false} CountZeroCounts(r: seq<int>)
    ensures CountZero(r) == |set i | 0 <= i < |r| && r[i] == 0|
  {
    if r != [] {
      var n := |r| - 1;
      CountZeroCounts(r[..n]);
      var before := set i | 0 <= i < n && r[..n][i] == 0;
      var after := set i | 0 <= i < |r| && r[i] == 0;
      if r[n] == 0 {
        assert after == before + {n};
      } else {
        assert after == before;
      }
    }
  }

  /** The exit code is 0 exactly when every build succeeded, and otherwise
      the result of the first build that failed. */
  lemma {:induction false} FirstNonzeroIsFirstFailure(r: seq<int>)
    ensures FirstNonzero(r) == 0 <==> forall i :: 0 <= i < |r| ==> r[i] == 0
    ensures FirstNonzero(r) != 0 ==>
      exists k :: 0 <= k < |r| && r[k] == FirstNonzero(r) && forall j :: 0 <= j < k ==> r[j] == 0
  {
    if r != [] {
      var init := r[..|r| - 1];
      FirstNonzeroIsFirstFailure(init);
      if FirstNonzero(init) != 0 {
        var k :| 0 <= k < |init| && init[k] == FirstNonzero(init) && forall j :: 0 <= j < k ==> init[j] == 0;
        assert r[k] == init[k];
        assert r[|r| - 1] in r;
      } else {
        assert forall j :: 0 <= j < |init| ==> r[j] == init[j];
      }
    }
  }

  /** One pass of the group loop: select the group's files and build it on
      the file system the calls `done` so far have left. */
  method BuildGroup(name: string, members: seq<string>, outDir: string, systemromPath: string,
                    fs: FileSystem, ghost done: seq<RomArgs>, ghost fs0: FileSystem)
    returns (call: RomArgs, code: int, fsOut: FileSystem)
    requires forall f :: f in members ==> |f| > 0
    requires RunCalls(done, fs0).fs == fs
    ensures call == CallFor(name, members, outDir, systemromPath)
    ensures RunCalls(done + [call], fs0) == BatchRun(RunCalls(done, fs0).codes + [code], fsOut)
  {
    var c, d, g := PickRoms(members);
    call := RomArgs(Join(outDir, name) + ".bin", Some(c), Some(d), Some(g), "", systemromPath);
    var missing;
    code, missing, fsOut := CreateRom(call, fs);
    RunCallsSnoc(done, call, fs0);
  }

  lemma CallsExtend(calls: seq<RomArgs>, call: RomArgs, names: seq<string>, groups: map<string, seq<string>>,
                    outDir: string, systemromPath: string, i: int)
    requires forall n :: n in names ==> n in groups
    requires 0 <= i < |names| && |calls| == i
    requires forall k :: 0 <= k < i ==> calls[k] == CallFor(names[k], groups[names[k]], outDir, systemromPath)
    requires call == CallFor(names[i], groups[names[i]], outDir, systemromPath)
    ensures forall k :: 0 <= k < i + 1 ==> (calls + [call])[k] == CallFor(names[k], groups[names[k]], outDir, systemromPath)
  {
  }

  /** The group loop: build the groups in the order of `names`, counting
      successes and keeping the first failure code; no group is skipped. */
  method BuildAll(names: seq<string>, groups: map<string, seq<string>>, outDir: string, systemromPath: string, fs: FileSystem)
    returns (calls: seq<RomArgs>, results: seq<int>, converted: nat, exitCode: int, fsOut: FileSystem)
    requires forall n :: n in names ==> n in groups
    requires forall i, f :: 0 <= i < |names| && f in groups[names[i]] ==> |f| > 0
    ensures |calls| == |names|
    ensures forall k :: 0 <= k < |names| ==> calls[k] == CallFor(names[k], groups[names[k]], outDir, systemromPath)
    ensures BatchRun(results, fsOut) == RunCalls(calls, fs)
    ensures converted == CountZero(results)
    ensures exitCode == FirstNonzero(results)
  {
    calls, results, converted, exitCode, fsOut := [], [], 0, 0, fs;
    for i := 0 to |names|
      invariant |calls| == i
      invariant forall k :: 0 <= k < i ==> calls[k] == CallFor(names[k], groups[names[k]], outDir, systemromPath)
      invariant BatchRun(results, fsOut) == RunCalls(calls, fs)
      invariant converted == CountZero(results)
      invariant exitCode == FirstNonzero(results)
    {
      var name := names[i];
      assert name in groups;
      var call, code;
      call, code, fsOut := BuildGroup(name, groups[name], outDir, systemromPath, fsOut, calls, fs);
      CountersStep(results, code);
      CallsExtend(calls, call, names, groups, outDir, systemromPath, i);
      calls := calls + [call];
      results := results + [code];
      if code == 0 {
        converted := converted + 1;
      } else if exitCode == 0 {
        exitCode := code;
      }
    }
  }

  /** The calls made from the dictionary are the calls made from the groups
      it holds. */
  lemma CallsOfGroups(calls: seq<RomArgs>, names: seq<string>, groups: map<string, seq<string>>,
                      files: seq<string>, start: int, outDir: string, systemromPath: string)
    requires forall n :: n in names ==> n in groups
    requires forall k :: k in groups ==> groups[k] == Members(files, k, start)
    requires |calls| == |names|
    requires forall k :: 0 <= k < |names| ==> calls[k] == CallFor(names[k], groups[names[k]], outDir, systemromPath)
    ensures forall k :: 0 <= k < |names| ==> calls[k] == CallFor(names[k], Members(files, names[k], start), outDir, systemromPath)
  {
  }

  /** The main body of convertArchive.py: group the glob result, then build
      every group in sorted name order. */
  method RunBatch(files: seq<string>, romPath: string, fullromPath: string, systemromPath: string, fs: FileSystem)
    returns (names: seq<string>, calls: seq<RomArgs>, results: seq<int>, converted: nat, exitCode: int, fsOut: FileSystem)
    requires forall f :: f in files ==> |f| > 0
    ensures StrictlySorted(names)
    ensures forall n :: n in names <==> Named(files, n, StartOffset(romPath))
    ensures |calls| == |names|
    ensures forall i :: 0 <= i < |names| ==>
      calls[i] == CallFor(names[i], Members(files, names[i], StartOffset(romPath)),
                          OutputDirectory(fullromPath, romPath), systemromPath)
    ensures BatchRun(results, fsOut) == RunCalls(calls, fs)
    ensures converted == CountZero(results)
    ensures exitCode == FirstNonzero(results)
  {
    var outDir := if fullromPath == "" then romPath else fullromPath;
    var start := if romPath == "" then 0 else |romPath| + 1;
    var keys, groups := GroupFiles(files, start);
    names := SortedSet(keys);
    forall i, f | 0 <= i < |names| && f in groups[names[i]] ensures |f| > 0 {
      assert f in files;
    }
    calls, results, converted, exitCode, fsOut := BuildAll(names, groups, outDir, systemromPath, fs);
    CallsOfGroups(calls, names, groups, files, start, outDir, systemromPath);
  }
}
