/**
 The "files scanned" total in the header of the text report. The walks of the
 scan directories are parameters (each the list of project-relative paths one
 directory walk returns); the walking itself is not modelled.
 */
module ScanCount {
  import opened Seqs

  /** The total as the header computes it: the lengths of the walks, added up. */
  function TotalFilesAsWritten(walks: seq<seq<string>>): nat {
    if walks == [] then 0 else |walks[0]| + TotalFilesAsWritten(walks[1..])
  }

  /** The files that some walk returned. */
  function ScannedFiles(walks: seq<seq<string>>): (r: set<string>)
    ensures forall f :: f in r <==> exists i :: 0 <= i < |walks| && f in walks[i]
  {
    if walks == [] then {}
    else
      var rest := ScannedFiles(walks[1..]);
      assert forall f :: f in rest <==> exists i :: 1 <= i < |walks| && f in walks[i] by {
        forall f | f in rest ensures exists i :: 1 <= i < |walks| && f in walks[i] {
          var i :| 0 <= i < |walks[1..]| && f in walks[1..][i];
          assert f in walks[i + 1];
        }
      }
      ElemSet(walks[0]) + rest
  }

  /** The number of distinct files scanned. */
  function TotalFiles(walks: seq<seq<string>>): nat {
    |ScannedFiles(walks)|
  }

  /** The added-up total never undercounts. */
  lemma {:induction false} TotalFilesBound(walks: seq<seq<string>>)
    ensures TotalFiles(walks) <= TotalFilesAsWritten(walks)
  {
    if walks != [] {
      TotalFilesBound(walks[1..]);
      ElemSetCard(walks[0]);
      assert |ElemSet(walks[0]) + ScannedFiles(walks[1..])| <= |ElemSet(walks[0])| + |ScannedFiles(walks[1..])|;
    }
  }

  /** The added-up total is right when the walks do not overlap and none
      repeats a file. */
  lemma {:induction false} TotalFilesDisjoint(walks: seq<seq<string>>)
    requires forall i :: 0 <= i < |walks| ==> Distinct(walks[i])
    requires forall i, j, f :: 0 <= i < j < |walks| && f in walks[i] ==> f !in walks[j]
    ensures TotalFiles(walks) == TotalFilesAsWritten(walks)
  {
    if walks != [] {
      TotalFilesDisjoint(walks[1..]);
      DistinctCard(walks[0]);
      assert ElemSet(walks[0]) * ScannedFiles(walks[1..]) == {};
    }
  }

  lemma {:induction false} ElemSetCard<T>(s: seq<T>)
    ensures |ElemSet(s)| <= |s|
  {
    if s != [] {
      var t := s[..|s| - 1];
      assert s == t + [s[|s| - 1]];
      assert ElemSet(s) == ElemSet(t) + {s[|s| - 1]};
      ElemSetCard(t);
    }
  }

  /** With the shipped scan directories `src/Public` and `src`, one file under
      `src/Public` and one directly under `src`: the walk of `src` is top-down,
      so it returns `src/b.lua` before `src/Public/a.lua`. The header says 3
      files, there are 2. */
  lemma OverlapDoubleCounts()
    ensures var walks := [["src/Public/a.lua"], ["src/b.lua", "src/Public/a.lua"]];
      TotalFilesAsWritten(walks) == 3 && TotalFiles(walks) == 2
  {
    var walks := [["src/Public/a.lua"], ["src/b.lua", "src/Public/a.lua"]];
    assert walks[1..][1..] == [];
    assert ElemSet(walks[0]) == {"src/Public/a.lua"};
    assert ElemSet(walks[1]) == {"src/Public/a.lua", "src/b.lua"};
    assert "src/Public/a.lua" != "src/b.lua";
    assert ScannedFiles(walks) == {"src/Public/a.lua", "src/b.lua"};
  }
}
