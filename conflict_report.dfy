/**
 Section 1 of the text report: one block per conflicting id, in ascending id
 order, giving the number of distinct (name, file) definitions and then, file
 by file in sorted order, the names defined under that id in that file.

 The per-id `files_dict` is built by an append loop (`GroupByFile`) that is
 proved to compute the fold `Group`; what the report needs from the grouping
 is proved about `Group`.
 */
module ConflictReport {
  import opened Text
  import opened Seqs
  import opened Sorting
  import opened Registry

  /** `files_dict`: the files in insertion order and, per file, its names. */
  datatype FileGroups = FileGroups(files: seq<string>, names: map<string, seq<string>>)

  const NoGroups: FileGroups := FileGroups([], map[])

  /** `files_dict.get(f, [])`. */
  function NamesOf(g: FileGroups, f: string): seq<string> {
    if f in g.names then g.names[f] else []
  }

  /** One turn of the grouping loop: create the file's list on first sight,
      then append the name unless the list already holds it. */
  function AddUsage(g: FileGroups, u: Observation): FileGroups {
    var names := NamesOf(g, u.file);
    FileGroups(if u.file in g.names then g.files else g.files + [u.file],
               g.names[u.file := if u.name in names then names else names + [u.name]])
  }

  /** The grouping of a list of observations, one observation at a time. */
  function Group(usages: seq<Observation>): FileGroups
    decreases |usages|
  {
    if usages == [] then NoGroups
    else AddUsage(Group(usages[..|usages| - 1]), usages[|usages| - 1])
  }

  /** The loop of `generate_report` that fills `files_dict` for one conflict. */
  method GroupByFile(usages: seq<Observation>) returns (files: seq<string>, names: map<string, seq<string>>)
    ensures FileGroups(files, names) == Group(usages)
  {
    files, names := [], map[];
    var i := 0;
    while i < |usages|
      invariant 0 <= i <= |usages|
      invariant FileGroups(files, names) == Group(usages[..i])
    {
      var u := usages[i];
      if u.file !in names {
        names := names[u.file := []];
        files := files + [u.file];
      }
      if u.name !in names[u.file] {
        names := names[u.file := names[u.file] + [u.name]];
      }
      assert usages[..i + 1][..i] == usages[..i];
      i := i + 1;
    }
    assert usages[..|usages|] == usages;
  }

  // ----- what the grouping computes -----

  /** The files of the observations, in order, with repeats. */
  function Files(usages: seq<Observation>): seq<string>
    decreases |usages|
  {
    if usages == [] then [] else Files(usages[..|usages| - 1]) + [usages[|usages| - 1].file]
  }

  /** The names observed in file `f`, in order, with repeats. */
  function NamesIn(usages: seq<Observation>, f: string): seq<string>
    decreases |usages|
  {
    if usages == [] then []
    else
      var u := usages[|usages| - 1];
      NamesIn(usages[..|usages| - 1], f) + (if u.file == f then [u.name] else [])
  }

  lemma DedupSnoc<T>(s: seq<T>, x: T)
    ensures Dedup(s + [x]) == if x in Dedup(s) then Dedup(s) else Dedup(s) + [x]
  {
    assert (s + [x])[..|s|] == s;
  }

  lemma {:induction false} NamesInMembership(usages: seq<Observation>, f: string)
    ensures forall n :: n in NamesIn(usages, f) <==> Observation(n, f) in usages
    decreases |usages|
  {
    if usages != [] {
      var p := usages[..|usages| - 1];
      assert usages == p + [usages[|usages| - 1]];
      NamesInMembership(p, f);
    }
  }

  lemma {:induction false} FilesMembership(usages: seq<Observation>)
    ensures forall n, f :: Observation(n, f) in usages ==> f in Files(usages)
    ensures forall f :: f in Files(usages) ==> exists n :: Observation(n, f) in usages
    decreases |usages|
  {
    if usages != [] {
      var p, u := usages[..|usages| - 1], usages[|usages| - 1];
      assert usages == p + [u];
      FilesMembership(p);
      assert Observation(u.name, u.file) in usages;
    }
  }

  /** The files are listed by first appearance, each once. */
  lemma {:induction false} GroupFiles(usages: seq<Observation>)
    ensures Group(usages).files == Dedup(Files(usages))
    ensures forall f :: f in Group(usages).names <==> f in Files(usages)
    decreases |usages|
  {
    if usages != [] {
      var p, u := usages[..|usages| - 1], usages[|usages| - 1];
      var g := Group(p);
      assert Group(usages) == AddUsage(g, u);
      assert Files(usages) == Files(p) + [u.file];
      GroupFiles(p);
      DedupSpec(Files(p));
      DedupSnoc(Files(p), u.file);
    }
  }

  /** Each file's names are the names observed in it, each once, by first appearance. */
  lemma {:induction false} GroupNamesInOrder(usages: seq<Observation>, f: string)
    ensures NamesOf(Group(usages), f) == Dedup(NamesIn(usages, f))
    decreases |usages|
  {
    if usages != [] {
      var p, u := usages[..|usages| - 1], usages[|usages| - 1];
      var g := Group(p);
      assert Group(usages) == AddUsage(g, u);
      GroupNamesInOrder(p, f);
      if u.file == f {
        assert NamesIn(usages, f) == NamesIn(p, f) + [u.name];
        DedupSnoc(NamesIn(p, f), u.name);
      } else {
        assert NamesIn(usages, f) == NamesIn(p, f) + [];
        assert NamesIn(p, f) + [] == NamesIn(p, f);
        assert NamesOf(AddUsage(g, u), f) == NamesOf(g, f);
      }
    }
  }

  /** `files_dict` iterates over each observed file once. */
  lemma GroupKeyOrder(usages: seq<Observation>)
    ensures KeyOrder(Group(usages).files, Group(usages).names)
  {
    GroupFiles(usages);
    DedupSpec(Files(usages));
  }

  /** A name is listed under a file exactly when that (name, file) pair was observed,
      and no name is listed twice under one file. */
  lemma GroupNames(usages: seq<Observation>, f: string)
    ensures forall n :: n in NamesOf(Group(usages), f) <==> Observation(n, f) in usages
    ensures Distinct(NamesOf(Group(usages), f))
  {
    GroupNamesInOrder(usages, f);
    DedupSpec(NamesIn(usages, f));
    NamesInMembership(usages, f);
  }

  /** An observation already seen changes nothing in the grouping. */
  lemma AddUsageRepeat(p: seq<Observation>, u: Observation)
    requires u in p
    ensures AddUsage(Group(p), u) == Group(p)
  {
    GroupNames(p, u.file);
    assert u == Observation(u.name, u.file);
    assert u.name in NamesOf(Group(p), u.file);
  }

  /** A name new to its file adds one entry to the grouping. */
  lemma AddUsageNewCount(g: FileGroups, u: Observation)
    requires KeyOrder(g.files, g.names)
    requires u.name !in NamesOf(g, u.file)
    ensures var g' := AddUsage(g, u);
      SumLengths(g'.files, g'.names) == SumLengths(g.files, g.names) + 1
  {
    var names := NamesOf(g, u.file);
    var names' := g.names[u.file := names + [u.name]];
    if u.file in g.names {
      SumLengthsBump(g.files, g.names, u.file, names + [u.name]);
    } else {
      SumLengthsAppend(g.files, names', u.file);
      SumLengthsFrame(g.files, g.names, names');
    }
  }

  /** The (file, name) entries of the grouping are as many as the distinct
      (name, file) pairs counted for the block header. */
  lemma {:induction false} GroupCount(usages: seq<Observation>)
    ensures SumLengths(Group(usages).files, Group(usages).names) == |ElemSet(usages)|
    decreases |usages|
  {
    if usages != [] {
      var p, u := usages[..|usages| - 1], usages[|usages| - 1];
      assert usages == p + [u];
      assert Group(usages) == AddUsage(Group(p), u);
      GroupCount(p);
      assert ElemSet(usages) == ElemSet(p) + {u};
      if u in p {
        AddUsageRepeat(p, u);
        assert u in ElemSet(p);
        assert ElemSet(usages) == ElemSet(p);
      } else {
        GroupKeyOrder(p);
        GroupNames(p, u.file);
        AddUsageNewCount(Group(p), u);
      }
    }
  }

  // ----- the lines of a block -----

  /** `  - name (file)` for a file with one name, or the file followed by its
      names in sorted order. */
  datatype FileLine =
    | SingleDefinition(name: string, file: string)
    | MultipleDefinitions(file: string, names: seq<string>)

  function FileLineOf(f: string, names: seq<string>): FileLine {
    if |names| == 1 then SingleDefinition(names[0], f)
    else MultipleDefinitions(f, SortBy(names, Identity))
  }

  function LineFile(l: FileLine): string {
    match l
    case SingleDefinition(_, f) => f
    case MultipleDefinitions(f, _) => f
  }

  function LineNames(l: FileLine): seq<string> {
    match l
    case SingleDefinition(n, _) => [n]
    case MultipleDefinitions(_, ns) => ns
  }

  /** The number of (file, name) entries the lines show. */
  function EntryTotal(lines: seq<FileLine>): nat {
    if lines == [] then 0 else |LineNames(lines[0])| + EntryTotal(lines[1..])
  }

  function FileLines(g: FileGroups, files: seq<string>): (r: seq<FileLine>)
    ensures |r| == |files|
  {
    if files == [] then [] else [FileLineOf(files[0], NamesOf(g, files[0]))] + FileLines(g, files[1..])
  }

  /** One `ID: ... ` block: the number of distinct (name, file) pairs and one line per file. */
  datatype ConflictBlock = ConflictBlock(id: int, distinctCount: nat, lines: seq<FileLine>)

  function Block(id: int, usages: seq<Observation>): ConflictBlock {
    var g := Group(usages);
    ConflictBlock(id, |ElemSet(usages)|, FileLines(g, SortBy(g.files, Identity)))
  }

  lemma {:induction false} FileLinesAt(g: FileGroups, files: seq<string>, i: int)
    requires 0 <= i < |files|
    ensures FileLines(g, files)[i] == FileLineOf(files[i], NamesOf(g, files[i]))
  {
    if i > 0 {
      FileLinesAt(g, files[1..], i - 1);
    }
  }

  /** A file's line shows exactly its names, sorted. */
  lemma FileLineOfSpec(f: string, names: seq<string>)
    ensures LineFile(FileLineOf(f, names)) == f
    ensures multiset(LineNames(FileLineOf(f, names))) == multiset(names)
    ensures SortedBy(LineNames(FileLineOf(f, names)), Identity)
  {
    if |names| == 1 {
      assert names == [names[0]];
    } else {
      SortBySorted(names, Identity);
    }
  }

  lemma {:induction false} EntryTotalFileLines(g: FileGroups, files: seq<string>)
    ensures EntryTotal(FileLines(g, files)) == SumLengths(files, g.names)
  {
    if files != [] {
      EntryTotalFileLines(g, files[1..]);
      FileLineOfSpec(files[0], NamesOf(g, files[0]));
      assert |LineNames(FileLineOf(files[0], NamesOf(g, files[0])))| == |NamesOf(g, files[0])|
        by { assert |multiset(LineNames(FileLineOf(files[0], NamesOf(g, files[0]))))| == |multiset(NamesOf(g, files[0]))|; }
    }
  }

  lemma BlockId(id: int, usages: seq<Observation>)
    ensures Block(id, usages).id == id
  {
  }

  /** The file a block's line `i` is about, and what that line is. */
  lemma BlockLineAt(id: int, usages: seq<Observation>, i: int)
    requires 0 <= i < |Block(id, usages).lines|
    ensures var g := Group(usages);
      var files := SortBy(g.files, Identity);
      Block(id, usages).lines[i] == FileLineOf(files[i], NamesOf(g, files[i]))
  {
    var g := Group(usages);
    FileLinesAt(g, SortBy(g.files, Identity), i);
  }

  /** A block shows as many (file, name) entries as its header's count of
      distinct (name, file) pairs. */
  lemma BlockCount(id: int, usages: seq<Observation>)
    ensures Block(id, usages).distinctCount == |ElemSet(usages)|
    ensures EntryTotal(Block(id, usages).lines) == Block(id, usages).distinctCount
  {
    var g := Group(usages);
    GroupCount(usages);
    SumLengthsSorted(g.files, g.names);
    EntryTotalFileLines(g, SortBy(g.files, Identity));
  }

  /** A block's lines are in strictly ascending file order, so each file has one line. */
  lemma BlockFilesAscending(id: int, usages: seq<Observation>)
    ensures var ls := Block(id, usages).lines;
      forall i, j :: 0 <= i < j < |ls| ==>
        LexLe(LineFile(ls[i]), LineFile(ls[j])) && LineFile(ls[i]) != LineFile(ls[j])
  {
    var g := Group(usages);
    var files := SortBy(g.files, Identity);
    var ls := Block(id, usages).lines;
    GroupKeyOrder(usages);
    PermutationDistinct(g.files, files);
    SortBySorted(g.files, Identity);
    forall i | 0 <= i < |ls| ensures LineFile(ls[i]) == files[i] {
      BlockLineAt(id, usages, i);
      FileLineOfSpec(files[i], NamesOf(g, files[i]));
    }
  }

  /** Every observed file is a key of the grouping. */
  lemma ObservedFileGrouped(usages: seq<Observation>, n: string, f: string)
    requires Observation(n, f) in usages
    ensures f in Group(usages).files
  {
    FilesMembership(usages);
    GroupFiles(usages);
    DedupSpec(Files(usages));
  }

  /** Every observed file has a line in the block. */
  lemma BlockCoversFiles(id: int, usages: seq<Observation>, n: string, f: string)
    requires Observation(n, f) in usages
    ensures exists i :: 0 <= i < |Block(id, usages).lines| && LineFile(Block(id, usages).lines[i]) == f
  {
    var g := Group(usages);
    var files := SortBy(g.files, Identity);
    ObservedFileGrouped(usages, n, f);
    assert f in multiset(files) by {
      assert f in multiset(g.files);
    }
    var i :| 0 <= i < |files| && files[i] == f;
    BlockLineAt(id, usages, i);
    FileLineOfSpec(files[i], NamesOf(g, files[i]));
    assert LineFile(Block(id, usages).lines[i]) == f;
  }

  /** Under its file, a line shows exactly the names observed in that file,
      sorted and each once. */
  lemma BlockLineNames(id: int, usages: seq<Observation>, i: int)
    requires 0 <= i < |Block(id, usages).lines|
    ensures var l := Block(id, usages).lines[i];
      && (forall n :: n in LineNames(l) <==> Observation(n, LineFile(l)) in usages)
      && Distinct(LineNames(l))
      && SortedBy(LineNames(l), Identity)
  {
    var g := Group(usages);
    var files := SortBy(g.files, Identity);
    var l := Block(id, usages).lines[i];
    BlockLineAt(id, usages, i);
    var names := NamesOf(g, files[i]);
    FileLineOfSpec(files[i], names);
    GroupNames(usages, files[i]);
    forall n ensures n in LineNames(l) <==> n in names {
      assert n in LineNames(l) <==> n in multiset(LineNames(l));
    }
    PermutationDistinct(names, LineNames(l));
  }

  // ----- the section -----

  /** The blocks for the given conflict ids, in that order. */
  function Blocks(st: Registry, ids: seq<int>): (r: seq<ConflictBlock>)
    requires forall k | k in ids :: k in st.conflicts
  {
    seq(|ids|, i requires 0 <= i < |ids| => Block(ids[i], st.conflicts[ids[i]]))
  }

  /** `for id_value, usages in sorted(self.conflicts.items())`. */
  function ConflictSection(st: Registry): seq<ConflictBlock>
    requires forall k | k in st.conflictOrder :: k in st.conflicts
  {
    var ids := SortInts(st.conflictOrder);
    assert forall k | k in ids :: k in st.conflicts by {
      forall k | k in ids ensures k in st.conflicts {
        assert k in multiset(ids);
      }
    }
    Blocks(st, ids)
  }

  lemma SortedConflictIds(st: Registry)
    requires KeyOrder(st.conflictOrder, st.conflicts)
    ensures var ids := SortInts(st.conflictOrder);
      && |ids| == |st.conflicts|
      && (forall i, j :: 0 <= i < j < |ids| ==> ids[i] < ids[j])
      && (forall id :: id in ids <==> id in st.conflicts)
  {
    var ids := SortInts(st.conflictOrder);
    KeyOrderCard(st.conflictOrder, st.conflicts);
    assert |ids| == |multiset(ids)| == |multiset(st.conflictOrder)|;
    SortIntsStrict(st.conflictOrder);
    forall id ensures id in ids <==> id in st.conflicts {
      assert id in ids <==> id in multiset(ids);
    }
  }

  /** Block `i` of the section is about the `i`-th smallest conflicting id. */
  lemma ConflictSectionAt(st: Registry, i: int)
    requires KeyOrder(st.conflictOrder, st.conflicts)
    requires 0 <= i < |ConflictSection(st)|
    ensures var ids := SortInts(st.conflictOrder);
      && i < |ids| && ids[i] in st.conflicts
      && ConflictSection(st)[i] == Block(ids[i], st.conflicts[ids[i]])
      && ConflictSection(st)[i].id == ids[i]
  {
    var ids := SortInts(st.conflictOrder);
    SortedConflictIds(st);
    assert ids[i] in ids;
    BlockId(ids[i], st.conflicts[ids[i]]);
  }

  /** The section's ids are the sorted conflict ids. */
  lemma ConflictSectionIdsAre(st: Registry)
    requires KeyOrder(st.conflictOrder, st.conflicts)
    ensures var s, ids := ConflictSection(st), SortInts(st.conflictOrder);
      |s| == |ids| && forall i | 0 <= i < |s| :: s[i].id == ids[i]
  {
    var s := ConflictSection(st);
    forall i | 0 <= i < |s| ensures s[i].id == SortInts(st.conflictOrder)[i] {
      ConflictSectionAt(st, i);
    }
  }

  /** One block per conflicting id, in strictly ascending id order. */
  lemma ConflictSectionIds(st: Registry)
    requires KeyOrder(st.conflictOrder, st.conflicts)
    ensures var s := ConflictSection(st);
      && |s| == |st.conflicts|
      && (forall i, j :: 0 <= i < j < |s| ==> s[i].id < s[j].id)
  {
    var ids := SortInts(st.conflictOrder);
    var s := ConflictSection(st);
    SortedConflictIds(st);
    ConflictSectionIdsAre(st);
    forall i, j | 0 <= i < j < |s| ensures s[i].id < s[j].id {
      assert s[i].id == ids[i] && s[j].id == ids[j];
    }
  }

  /** A block exists for an id exactly when the id is a conflict, so the
      section is empty exactly when there is no conflict. */
  lemma ConflictSectionCovers(st: Registry)
    requires KeyOrder(st.conflictOrder, st.conflicts)
    ensures var s := ConflictSection(st);
      (forall id :: id in st.conflicts <==> exists i :: 0 <= i < |s| && s[i].id == id)
  {
    var ids := SortInts(st.conflictOrder);
    var s := ConflictSection(st);
    SortedConflictIds(st);
    ConflictSectionIdsAre(st);
    forall id ensures id in st.conflicts <==> exists i :: 0 <= i < |s| && s[i].id == id {
      if id in st.conflicts {
        var i :| 0 <= i < |ids| && ids[i] == id;
        assert s[i].id == id;
      }
      if exists i :: 0 <= i < |s| && s[i].id == id {
        var i :| 0 <= i < |s| && s[i].id == id;
        assert ids[i] in ids;
      }
    }
  }

  /** Each block is built from the list `conflicts` holds for its id. */
  lemma ConflictSectionBlocks(st: Registry)
    requires KeyOrder(st.conflictOrder, st.conflicts)
    ensures var s := ConflictSection(st);
      forall i :: 0 <= i < |s| ==> s[i].id in st.conflicts && s[i] == Block(s[i].id, st.conflicts[s[i].id])
  {
    var s := ConflictSection(st);
    forall i | 0 <= i < |s| ensures s[i].id in st.conflicts && s[i] == Block(s[i].id, st.conflicts[s[i].id]) {
      ConflictSectionAt(st, i);
    }
  }

  /** After any registrations, every block reports at least two distinct definitions. */
  lemma ConflictSectionCounts(st: Registry, ranges: seq<ReservedRange>)
    requires Inv(st, ranges)
    ensures forall b | b in ConflictSection(st) :: b.distinctCount >= 2
  {
    var ids := SortInts(st.conflictOrder);
    var s := ConflictSection(st);
    forall b | b in s ensures b.distinctCount >= 2 {
      var i :| 0 <= i < |s| && s[i] == b;
      ConflictSectionAt(st, i);
      var list := st.conflicts[ids[i]];
      assert list == st.discovered[ids[i]] && |list| >= 2 && Distinct(list);
      DistinctCard(list);
    }
  }
}
