/**
 The three counts printed at the end of `run`, written in the report header
 and stored under `statistics` in the JSON report.
 */
module Stats {
  import opened Text
  import opened Seqs
  import opened Registry

  datatype Statistics = Statistics(totalIds: nat, conflictCount: nat, violationCount: nat)

  /** `len(discovered_ids)`, `len(conflicts)` and
      `sum(len(v) for v in reserved_violations.values())`. */
  function StatsOf(st: Registry): Statistics {
    Statistics(|st.discovered|, |st.conflicts|, SumLengths(st.rangeOrder, st.violations))
  }

  /** How many of the configured ranges report a use of `id` in `file`. */
  function FlaggingCount(ranges: seq<ReservedRange>, id: int, file: string): nat {
    if ranges == [] then 0 else (if Flags(ranges[0], id, file) then 1 else 0) + FlaggingCount(ranges[1..], id, file)
  }

  /** The count of conflicting ids never exceeds the count of ids, and the key
      orders have as many entries as the dicts have keys. */
  lemma StatsBounds(st: Registry, ranges: seq<ReservedRange>)
    requires Inv(st, ranges)
    ensures StatsOf(st).conflictCount <= StatsOf(st).totalIds
    ensures StatsOf(st).totalIds == |st.idOrder| && StatsOf(st).conflictCount == |st.conflictOrder|
  {
    KeyOrderCard(st.idOrder, st.discovered);
    KeyOrderCard(st.conflictOrder, st.conflicts);
    forall k | k in st.conflicts.Keys ensures k in st.discovered.Keys {
      assert k in st.conflicts;
    }
    SubsetCard(st.conflicts.Keys, st.discovered.Keys);
  }

  /** One appended violation raises the total by one. */
  lemma AppendViolationCount(st: Registry, rangeName: string, v: Violation)
    requires KeyOrder(st.rangeOrder, st.violations)
    ensures var r := AppendViolation(st, rangeName, v);
      && KeyOrder(r.rangeOrder, r.violations)
      && SumLengths(r.rangeOrder, r.violations) == SumLengths(st.rangeOrder, st.violations) + 1
  {
    var list := ViolationsIn(st, rangeName) + [v];
    var m' := st.violations[rangeName := list];
    KeyOrderAdd(st.rangeOrder, st.violations, rangeName, list);
    if rangeName in st.violations {
      SumLengthsBump(st.rangeOrder, st.violations, rangeName, list);
    } else {
      SumLengthsAppend(st.rangeOrder, m', rangeName);
      SumLengthsFrame(st.rangeOrder, st.violations, m');
    }
  }

  /** The reserved-range check adds one violation per range that flags the use. */
  lemma {:induction false} CheckReservedCount(st: Registry, ranges: seq<ReservedRange>, name: string, id: int, file: string)
    requires KeyOrder(st.rangeOrder, st.violations)
    ensures var r := CheckReserved(st, ranges, name, id, file);
      SumLengths(r.rangeOrder, r.violations) == SumLengths(st.rangeOrder, st.violations) + FlaggingCount(ranges, id, file)
    decreases |ranges|
  {
    if ranges != [] {
      var st' := if Flags(ranges[0], id, file) then AppendViolation(st, ranges[0].name, Violation(name, id, file)) else st;
      if Flags(ranges[0], id, file) {
        AppendViolationCount(st, ranges[0].name, Violation(name, id, file));
      }
      CheckReservedCount(st', ranges[1..], name, id, file);
    }
  }

  /** Appending a new observation adds one id when the id is new, and one
      conflict when the id had exactly one observation. */
  lemma RecordCounts(st: Registry, ranges: seq<ReservedRange>, name: string, id: int, file: string)
    requires Inv(st, ranges) && !Records(st, id, Observation(name, file))
    ensures var s, s1 := StatsOf(st), Record(st, name, id, file);
      && |s1.discovered| == s.totalIds + (if id in st.discovered then 0 else 1)
      && |s1.conflicts| == s.conflictCount + (if |Observations(st, id)| == 1 then 1 else 0)
  {
    var s1 := Record(st, name, id, file);
    var list := Observations(st, id) + [Observation(name, file)];
    assert s1.discovered == st.discovered[id := list];
    DistinctCard(list);
    if id in st.conflicts {
      assert |Observations(st, id)| >= 2;
      assert s1.conflicts == st.conflicts[id := list];
    } else if |Observations(st, id)| == 1 {
      assert s1.conflicts == st.conflicts[id := list];
    } else {
      assert Observations(st, id) == [];
      assert s1.conflicts == st.conflicts;
    }
  }

  /** How one registration changes the counts: an exact repeat changes nothing;
      otherwise a new id adds one id, an id that had exactly one observation
      becomes one more conflict, and every range that flags the use adds one
      violation. */
  lemma RegisterStats(st: Registry, ranges: seq<ReservedRange>, name: string, id: int, file: string)
    requires Inv(st, ranges)
    ensures var s, s' := StatsOf(st), StatsOf(Register(st, ranges, name, id, file));
      if Records(st, id, Observation(name, file)) then s' == s
      else
        && s'.totalIds == s.totalIds + (if id in st.discovered then 0 else 1)
        && s'.conflictCount == s.conflictCount + (if |Observations(st, id)| == 1 then 1 else 0)
        && s'.violationCount == s.violationCount + FlaggingCount(ranges, id, file)
  {
    if !Records(st, id, Observation(name, file)) {
      var s1 := Record(st, name, id, file);
      assert Register(st, ranges, name, id, file) == CheckReserved(s1, ranges, name, id, file);
      CheckReservedFrame(s1, ranges, name, id, file);
      CheckReservedCount(s1, ranges, name, id, file);
      RecordCounts(st, ranges, name, id, file);
    }
  }

  /** With the shipped configuration, a new use adds a violation exactly when
      its id is in 200000..250000 and its file is outside the SDK. */
  lemma RegisterStatsDefault(st: Registry, name: string, id: int, file: string)
    requires Inv(st, DefaultRanges) && !Records(st, id, Observation(name, file))
    ensures StatsOf(Register(st, DefaultRanges, name, id, file)).violationCount
            == StatsOf(st).violationCount + (if 200000 <= id <= 250000 && !Contains(file, SdkMarker) then 1 else 0)
  {
    RegisterStats(st, DefaultRanges, name, id, file);
    assert DefaultRanges[1..] == [];
  }

  /** After a run, the ids of `discovered_ids` are the extracted ids. */
  lemma RunIds(ranges: seq<ReservedRange>, decls: seq<Declaration>)
    ensures Feed(Empty, ranges, decls).discovered.Keys == set d | d in decls :: d.id
  {
    var r := Feed(Empty, ranges, decls);
    EmptyInv(ranges);
    FeedPreservesInv(Empty, ranges, decls);
    FeedObservations(ranges, decls);
    forall id ensures id in r.discovered <==> id in set d | d in decls :: d.id {
      if id in r.discovered {
        var o := r.discovered[id][0];
        assert Records(r, id, o);
        assert Declares(decls, id, o);
      }
      if id in set d | d in decls :: d.id {
        var d :| d in decls && d.id == id;
        assert Declares(decls, id, Observation(d.name, d.file));
      }
    }
  }

  /** After a run, the ids of `conflicts` are those declared with two or more
      distinct (name, file) pairs. */
  lemma RunConflicts(ranges: seq<ReservedRange>, decls: seq<Declaration>)
    ensures Feed(Empty, ranges, decls).conflicts.Keys
         == set d | d in decls && |DeclaredPairs(decls, d.id)| >= 2 :: d.id
  {
    var r := Feed(Empty, ranges, decls);
    EmptyInv(ranges);
    FeedPreservesInv(Empty, ranges, decls);
    FeedObservations(ranges, decls);
    forall id ensures id in r.conflicts <==> id in set d | d in decls && |DeclaredPairs(decls, d.id)| >= 2 :: d.id {
      if id in r.conflicts {
        var o := r.discovered[id][0];
        assert Records(r, id, o);
        assert Declares(decls, id, o);
      }
    }
  }

  /** After a run, the id count is the number of distinct extracted ids and the
      conflict count the number of ids declared with two or more distinct
      (name, file) pairs. */
  lemma RunStats(ranges: seq<ReservedRange>, decls: seq<Declaration>)
    ensures var s := StatsOf(Feed(Empty, ranges, decls));
      && s.totalIds == |set d | d in decls :: d.id|
      && s.conflictCount == |set d | d in decls && |DeclaredPairs(decls, d.id)| >= 2 :: d.id|
  {
    RunIds(ranges, decls);
    RunConflicts(ranges, decls);
  }
}
