/**
 The NetMsg ID registry of `NetMsgConflictChecker` as values.

 A registry holds three Python dicts: `discovered_ids` (id to the list of
 observations `{name, file}` under that id), `conflicts` (id to that same list,
 for ids with more than one distinct observation) and `reserved_violations`
 (name of a reserved range to the list of offending `{name, id, file}`).
 Python dicts iterate in insertion order, and the report depends on that order,
 so each dict is a `map` together with the sequence of its keys in insertion order.

 `Register` and `CheckReserved` state what `register_netmsg_id` and
 `check_reserved_violation` do to this state; `Feed` is the scan loop of `run`
 over the declarations extracted from the scanned files.
 */
module Registry {
  import opened Text
  import opened Seqs

  /** One `{name, file}` entry of `discovered_ids[id]`. */
  datatype Observation = Observation(name: string, file: string)

  /** One `{name, id, file}` entry of `reserved_violations[range_name]`. */
  datatype Violation = Violation(name: string, id: int, file: string)

  /** One entry of the `reserved_ranges` configuration; both bounds inclusive. */
  datatype ReservedRange = ReservedRange(name: string, min: int, max: int)

  /** A `name = id` pair extracted from `file`, as handed to `register_netmsg_id`. */
  datatype Declaration = Declaration(name: string, id: int, file: string)

  /** The path fragment that marks the SDK's own files. */
  const SdkMarker: string := "UniX-SDK"

  /** The configured reserved ranges. */
  const DefaultRanges: seq<ReservedRange> := [ReservedRange("UniX SDK", 200000, 250000)]

  predicate IsSdkFile(file: string) {
    Contains(file, SdkMarker)
  }

  /** Range `r` reports a use of `id` in `file` as a violation. */
  predicate Flags(r: ReservedRange, id: int, file: string) {
    r.min <= id <= r.max && !IsSdkFile(file)
  }

  datatype Registry = Registry(
    idOrder: seq<int>,
    discovered: map<int, seq<Observation>>,
    conflictOrder: seq<int>,
    conflicts: map<int, seq<Observation>>,
    rangeOrder: seq<string>,
    violations: map<string, seq<Violation>>)

  /** The state right after the reset at the start of `run`. */
  const Empty: Registry := Registry([], map[], [], map[], [], map[])

  /** `discovered_ids.get(id, [])`. */
  function Observations(st: Registry, id: int): seq<Observation> {
    if id in st.discovered then st.discovered[id] else []
  }

  /** `reserved_violations[range_name]` of the defaultdict, read without inserting. */
  function ViolationsIn(st: Registry, rangeName: string): seq<Violation> {
    if rangeName in st.violations then st.violations[rangeName] else []
  }

  /** `reserved_violations[range_name].append(v)`. */
  function AppendViolation(st: Registry, rangeName: string, v: Violation): Registry {
    st.(rangeOrder := if rangeName in st.violations then st.rangeOrder else st.rangeOrder + [rangeName],
        violations := st.violations[rangeName := ViolationsIn(st, rangeName) + [v]])
  }

  /** `check_reserved_violation(name, id, file)` over the ranges in order. */
  function CheckReserved(st: Registry, ranges: seq<ReservedRange>, name: string, id: int, file: string): Registry
    decreases |ranges|
  {
    if ranges == [] then st
    else
      var st' := if Flags(ranges[0], id, file) then AppendViolation(st, ranges[0].name, Violation(name, id, file)) else st;
      CheckReserved(st', ranges[1..], name, id, file)
  }

  /** The part of `register_netmsg_id` that appends a new observation and updates
      `conflicts`. An id already in `conflicts` sees the append through the shared
      list; an id is (re)assigned when its list holds more than one distinct pair. */
  function Record(st: Registry, name: string, id: int, file: string): Registry {
    var list := Observations(st, id) + [Observation(name, file)];
    var conflicting := id in st.conflicts || (|list| > 1 && |ElemSet(list)| > 1);
    st.(idOrder := if id in st.discovered then st.idOrder else st.idOrder + [id],
        discovered := st.discovered[id := list],
        conflictOrder := if conflicting && id !in st.conflicts then st.conflictOrder + [id] else st.conflictOrder,
        conflicts := if conflicting then st.conflicts[id := list] else st.conflicts)
  }

  /** `register_netmsg_id(name, id, file)`: an exact repeat returns early. */
  function Register(st: Registry, ranges: seq<ReservedRange>, name: string, id: int, file: string): Registry {
    if Observation(name, file) in Observations(st, id) then st
    else CheckReserved(Record(st, name, id, file), ranges, name, id, file)
  }

  /** Registering the declarations one after another, in discovery order. */
  function Feed(st: Registry, ranges: seq<ReservedRange>, decls: seq<Declaration>): Registry
    decreases |decls|
  {
    if decls == [] then st
    else Feed(Register(st, ranges, decls[0].name, decls[0].id, decls[0].file), ranges, decls[1..])
  }

  // ----- invariants -----

  ghost predicate Records(st: Registry, id: int, o: Observation) {
    id in st.discovered && o in st.discovered[id]
  }

  ghost predicate ObservationsWellFormed(st: Registry) {
    && KeyOrder(st.idOrder, st.discovered)
    && forall id | id in st.discovered :: st.discovered[id] != [] && Distinct(st.discovered[id])
  }

  /** `conflicts` holds exactly the ids with at least two observations, each
      with the very list of `discovered_ids`. */
  ghost predicate ConflictsExact(st: Registry) {
    && KeyOrder(st.conflictOrder, st.conflicts)
    && (forall id | id in st.conflicts :: id in st.discovered && st.conflicts[id] == st.discovered[id])
    && (forall id | id in st.discovered :: id in st.conflicts <==> |st.discovered[id]| >= 2)
  }

  /** Some range named `rangeName` reports a use of `id` in `file`. */
  ghost predicate FlaggedBy(ranges: seq<ReservedRange>, rangeName: string, id: int, file: string) {
    exists i :: 0 <= i < |ranges| && ranges[i].name == rangeName && Flags(ranges[i], id, file)
  }

  /** Every recorded violation is a recorded observation that its range flags. */
  ghost predicate ViolationsSound(st: Registry, ranges: seq<ReservedRange>) {
    && KeyOrder(st.rangeOrder, st.violations)
    && (forall n | n in st.violations :: st.violations[n] != [])
    && (forall n, v | n in st.violations && v in st.violations[n] ::
          Records(st, v.id, Observation(v.name, v.file)) && FlaggedBy(ranges, n, v.id, v.file))
  }

  /** Every recorded observation that a range flags is in that range's list. */
  ghost predicate ViolationsComplete(st: Registry, ranges: seq<ReservedRange>) {
    forall id, o, i | Records(st, id, o) && 0 <= i < |ranges| && Flags(ranges[i], id, o.file) ::
      Violation(o.name, id, o.file) in ViolationsIn(st, ranges[i].name)
  }

  ghost predicate Inv(st: Registry, ranges: seq<ReservedRange>) {
    && ObservationsWellFormed(st)
    && ConflictsExact(st)
    && ViolationsSound(st, ranges)
    && ViolationsComplete(st, ranges)
  }

  ghost predicate ViolationsUnique(st: Registry) {
    forall n | n in st.violations :: Distinct(st.violations[n])
  }

  ghost predicate DistinctNames(ranges: seq<ReservedRange>) {
    forall i, j :: 0 <= i < j < |ranges| ==> ranges[i].name != ranges[j].name
  }

  lemma EmptyInv(ranges: seq<ReservedRange>)
    ensures Inv(Empty, ranges) && ViolationsUnique(Empty)
  {
  }

  // ----- the reserved-range check -----

  /** How many ranges named `rangeName` flag a use of `id` in `file`. */
  function FlagCount(ranges: seq<ReservedRange>, rangeName: string, id: int, file: string): nat {
    if ranges == [] then 0
    else (if ranges[0].name == rangeName && Flags(ranges[0], id, file) then 1 else 0)
         + FlagCount(ranges[1..], rangeName, id, file)
  }

  lemma {:induction false} FlagCountPositive(ranges: seq<ReservedRange>, rangeName: string, id: int, file: string)
    ensures FlagCount(ranges, rangeName, id, file) > 0 <==> FlaggedBy(ranges, rangeName, id, file)
  {
    if ranges != [] {
      FlagCountPositive(ranges[1..], rangeName, id, file);
      if FlaggedBy(ranges[1..], rangeName, id, file) {
        var i :| 0 <= i < |ranges[1..]| && ranges[1..][i].name == rangeName && Flags(ranges[1..][i], id, file);
        assert ranges[i + 1] == ranges[1..][i];
      }
      if FlaggedBy(ranges, rangeName, id, file) {
        var i :| 0 <= i < |ranges| && ranges[i].name == rangeName && Flags(ranges[i], id, file);
        if i > 0 {
          assert ranges[1..][i - 1] == ranges[i];
        }
      }
    }
  }

  /** With distinct range names, the range at index `i` is the only one of its name. */
  lemma {:induction false} FlagCountUnique(ranges: seq<ReservedRange>, i: int, id: int, file: string)
    requires DistinctNames(ranges) && 0 <= i < |ranges|
    ensures FlagCount(ranges, ranges[i].name, id, file) == if Flags(ranges[i], id, file) then 1 else 0
  {
    if i == 0 {
      NoOtherName(ranges[1..], ranges[0].name, id, file);
    } else {
      assert ranges[1..][i - 1] == ranges[i];
      FlagCountUnique(ranges[1..], i - 1, id, file);
    }
  }

  lemma {:induction false} NoOtherName(ranges: seq<ReservedRange>, rangeName: string, id: int, file: string)
    requires forall j :: 0 <= j < |ranges| ==> ranges[j].name != rangeName
    ensures FlagCount(ranges, rangeName, id, file) == 0
  {
    if ranges != [] {
      NoOtherName(ranges[1..], rangeName, id, file);
    }
  }

  function Repeat<T>(x: T, k: nat): (r: seq<T>)
    ensures |r| == k && forall i :: 0 <= i < k ==> r[i] == x
  {
    seq(k, _ => x)
  }

  /** The reserved-range check touches only the violations. */
  lemma {:induction false} CheckReservedFrame(st: Registry, ranges: seq<ReservedRange>, name: string, id: int, file: string)
    ensures var r := CheckReserved(st, ranges, name, id, file);
      && r.idOrder == st.idOrder && r.discovered == st.discovered
      && r.conflictOrder == st.conflictOrder && r.conflicts == st.conflicts
    decreases |ranges|
  {
    if ranges != [] {
      var st' := if Flags(ranges[0], id, file) then AppendViolation(st, ranges[0].name, Violation(name, id, file)) else st;
      CheckReservedFrame(st', ranges[1..], name, id, file);
    }
  }

  /** The list of range name `n` gains the violation once per range of that name that flags it. */
  lemma {:induction false} CheckReservedList(st: Registry, ranges: seq<ReservedRange>, name: string, id: int, file: string, n: string)
    ensures ViolationsIn(CheckReserved(st, ranges, name, id, file), n)
            == ViolationsIn(st, n) + Repeat(Violation(name, id, file), FlagCount(ranges, n, id, file))
    decreases |ranges|
  {
    var v := Violation(name, id, file);
    if ranges == [] {
      assert ViolationsIn(st, n) + Repeat(v, 0) == ViolationsIn(st, n);
    } else {
      var st' := if Flags(ranges[0], id, file) then AppendViolation(st, ranges[0].name, v) else st;
      CheckReservedList(st', ranges[1..], name, id, file, n);
      var k := FlagCount(ranges[1..], n, id, file);
      if ranges[0].name == n && Flags(ranges[0], id, file) {
        assert ViolationsIn(st', n) == ViolationsIn(st, n) + [v];
        assert [v] + Repeat(v, k) == Repeat(v, k + 1);
        assert ViolationsIn(st, n) + [v] + Repeat(v, k) == ViolationsIn(st, n) + ([v] + Repeat(v, k));
      } else {
        assert ViolationsIn(st', n) == ViolationsIn(st, n);
      }
    }
  }

  /** Range name `n` has a list afterwards iff it had one or some range of that name flags the use. */
  lemma {:induction false} CheckReservedKey(st: Registry, ranges: seq<ReservedRange>, name: string, id: int, file: string, n: string)
    ensures n in CheckReserved(st, ranges, name, id, file).violations
            <==> n in st.violations || FlagCount(ranges, n, id, file) > 0
    decreases |ranges|
  {
    if ranges != [] {
      var st' := if Flags(ranges[0], id, file) then AppendViolation(st, ranges[0].name, Violation(name, id, file)) else st;
      CheckReservedKey(st', ranges[1..], name, id, file, n);
    }
  }

  /** The key order of `reserved_violations` stays consistent with its keys. */
  lemma {:induction false} CheckReservedKeyOrder(st: Registry, ranges: seq<ReservedRange>, name: string, id: int, file: string)
    requires KeyOrder(st.rangeOrder, st.violations)
    ensures var r := CheckReserved(st, ranges, name, id, file);
      KeyOrder(r.rangeOrder, r.violations)
    decreases |ranges|
  {
    if ranges != [] {
      var v := Violation(name, id, file);
      var st' := if Flags(ranges[0], id, file) then AppendViolation(st, ranges[0].name, v) else st;
      if Flags(ranges[0], id, file) {
        KeyOrderAdd(st.rangeOrder, st.violations, ranges[0].name, ViolationsIn(st, ranges[0].name) + [v]);
      }
      CheckReservedKeyOrder(st', ranges[1..], name, id, file);
    }
  }

  /** The reserved-range check appends the violation once to the list of every
      range that flags it, creates the list on first use, and touches nothing else. */
  lemma CheckReservedEffect(st: Registry, ranges: seq<ReservedRange>, name: string, id: int, file: string)
    ensures var r := CheckReserved(st, ranges, name, id, file);
      && r.idOrder == st.idOrder && r.discovered == st.discovered
      && r.conflictOrder == st.conflictOrder && r.conflicts == st.conflicts
      && (forall n :: ViolationsIn(r, n) == ViolationsIn(st, n) + Repeat(Violation(name, id, file), FlagCount(ranges, n, id, file)))
      && (forall n :: n in r.violations <==> n in st.violations || FlagCount(ranges, n, id, file) > 0)
      && (KeyOrder(st.rangeOrder, st.violations) ==> KeyOrder(r.rangeOrder, r.violations))
  {
    var r := CheckReserved(st, ranges, name, id, file);
    CheckReservedFrame(st, ranges, name, id, file);
    forall n ensures ViolationsIn(r, n) == ViolationsIn(st, n) + Repeat(Violation(name, id, file), FlagCount(ranges, n, id, file)) {
      CheckReservedList(st, ranges, name, id, file, n);
    }
    forall n ensures n in r.violations <==> n in st.violations || FlagCount(ranges, n, id, file) > 0 {
      CheckReservedKey(st, ranges, name, id, file, n);
    }
    if KeyOrder(st.rangeOrder, st.violations) {
      CheckReservedKeyOrder(st, ranges, name, id, file);
    }
  }

  /** A file of the SDK itself never produces a violation. */
  lemma {:induction false} CheckReservedSdkFile(st: Registry, ranges: seq<ReservedRange>, name: string, id: int, file: string)
    requires IsSdkFile(file)
    ensures CheckReserved(st, ranges, name, id, file) == st
    decreases |ranges|
  {
    if ranges != [] {
      CheckReservedSdkFile(st, ranges[1..], name, id, file);
    }
  }

  /** With distinct range names, the list of each configured range gains the
      violation exactly when the id is inside the range (both bounds included)
      and the file is not an SDK file. */
  lemma CheckReservedPerRange(st: Registry, ranges: seq<ReservedRange>, i: int, name: string, id: int, file: string)
    requires DistinctNames(ranges) && 0 <= i < |ranges|
    ensures ViolationsIn(CheckReserved(st, ranges, name, id, file), ranges[i].name)
            == ViolationsIn(st, ranges[i].name)
               + (if ranges[i].min <= id <= ranges[i].max && !Contains(file, SdkMarker)
                  then [Violation(name, id, file)] else [])
  {
    CheckReservedList(st, ranges, name, id, file, ranges[i].name);
    FlagCountUnique(ranges, i, id, file);
    assert Repeat(Violation(name, id, file), 0) == [];
    assert Repeat(Violation(name, id, file), 1) == [Violation(name, id, file)];
  }

  // ----- registration -----

  /** An exact repeat of (name, id, file) changes nothing at all. */
  lemma RegisterRepeat(st: Registry, ranges: seq<ReservedRange>, name: string, id: int, file: string)
    requires Records(st, id, Observation(name, file))
    ensures Register(st, ranges, name, id, file) == st
  {
  }

  /** A new observation goes at the end of its id's list; no other list changes,
      and a new id goes at the end of the key order. */
  lemma RegisterNew(st: Registry, ranges: seq<ReservedRange>, name: string, id: int, file: string)
    requires !Records(st, id, Observation(name, file))
    ensures var r := Register(st, ranges, name, id, file);
      && r.discovered == st.discovered[id := Observations(st, id) + [Observation(name, file)]]
      && r.idOrder == if id in st.discovered then st.idOrder else st.idOrder + [id]
  {
    CheckReservedFrame(Record(st, name, id, file), ranges, name, id, file);
  }

  /** After registration the recorded observations are the old ones plus the new one. */
  lemma RegisterRecords(st: Registry, ranges: seq<ReservedRange>, name: string, id: int, file: string)
    ensures forall id', o' :: Records(Register(st, ranges, name, id, file), id', o')
                              <==> Records(st, id', o') || (id' == id && o' == Observation(name, file))
  {
    if Observation(name, file) !in Observations(st, id) {
      CheckReservedFrame(Record(st, name, id, file), ranges, name, id, file);
    }
  }

  lemma RecordPreserves(st: Registry, name: string, id: int, file: string)
    requires ObservationsWellFormed(st) && ConflictsExact(st)
    requires Observation(name, file) !in Observations(st, id)
    ensures ObservationsWellFormed(Record(st, name, id, file))
    ensures ConflictsExact(Record(st, name, id, file))
  {
    RecordWellFormed(st, name, id, file);
    RecordConflicts(st, name, id, file);
  }

  lemma RecordWellFormed(st: Registry, name: string, id: int, file: string)
    requires ObservationsWellFormed(st)
    requires Observation(name, file) !in Observations(st, id)
    ensures ObservationsWellFormed(Record(st, name, id, file))
  {
    var o := Observation(name, file);
    var prior := Observations(st, id);
    var list := prior + [o];
    var r := Record(st, name, id, file);
    assert r.discovered == st.discovered[id := list];
    assert r.idOrder == if id in st.discovered then st.idOrder else st.idOrder + [id];
    DistinctAppend(prior, o);
    KeyOrderAdd(st.idOrder, st.discovered, id, list);
    forall id' | id' in r.discovered ensures r.discovered[id'] != [] && Distinct(r.discovered[id']) {
      if id' != id {
        assert r.discovered[id'] == st.discovered[id'];
      }
    }
  }

  lemma RecordConflicts(st: Registry, name: string, id: int, file: string)
    requires ObservationsWellFormed(st) && ConflictsExact(st)
    requires Observation(name, file) !in Observations(st, id)
    ensures ConflictsExact(Record(st, name, id, file))
  {
    var o := Observation(name, file);
    var prior := Observations(st, id);
    var list := prior + [o];
    var r := Record(st, name, id, file);
    assert r.discovered == st.discovered[id := list];
    assert Distinct(prior) by {
      if id in st.discovered {
        assert prior == st.discovered[id];
      }
    }
    DistinctAppend(prior, o);
    DistinctCard(list);
    var conflicting := id in st.conflicts || (|list| > 1 && |ElemSet(list)| > 1);
    assert conflicting <==> |list| >= 2 by {
      if id in st.conflicts {
        assert |st.discovered[id]| >= 2;
      }
    }
    if conflicting {
      assert r.conflicts == st.conflicts[id := list];
      assert r.conflictOrder == if id in st.conflicts then st.conflictOrder else st.conflictOrder + [id];
      KeyOrderAdd(st.conflictOrder, st.conflicts, id, list);
    } else {
      assert r.conflicts == st.conflicts && r.conflictOrder == st.conflictOrder;
      assert id !in st.conflicts;
    }
    forall id' | id' in r.conflicts ensures id' in r.discovered && r.conflicts[id'] == r.discovered[id'] {
      if id' != id {
        assert r.conflicts[id'] == st.conflicts[id'];
      }
    }
    forall id' | id' in r.discovered ensures id' in r.conflicts <==> |r.discovered[id']| >= 2 {
      if id' != id {
        assert r.discovered[id'] == st.discovered[id'];
        assert id' in r.conflicts <==> id' in st.conflicts;
      }
    }
  }

  /** Registration keeps every invariant of the registry. */
  lemma RegisterPreservesInv(st: Registry, ranges: seq<ReservedRange>, name: string, id: int, file: string)
    requires Inv(st, ranges)
    ensures Inv(Register(st, ranges, name, id, file), ranges)
  {
    if Observation(name, file) !in Observations(st, id) {
      var s1 := Record(st, name, id, file);
      RecordPreserves(st, name, id, file);
      CheckReservedFrame(s1, ranges, name, id, file);
      RegisterSound(st, ranges, name, id, file);
      RegisterComplete(st, ranges, name, id, file);
    }
  }

  /** Appending records exactly one more observation. */
  lemma RecordRecords(st: Registry, name: string, id: int, file: string)
    ensures forall id', o' :: Records(Record(st, name, id, file), id', o')
                              <==> Records(st, id', o') || (id' == id && o' == Observation(name, file))
  {
  }

  /** After a new registration every violation is still a recorded, flagged use. */
  lemma RegisterSound(st: Registry, ranges: seq<ReservedRange>, name: string, id: int, file: string)
    requires Inv(st, ranges) && Observation(name, file) !in Observations(st, id)
    ensures ViolationsSound(CheckReserved(Record(st, name, id, file), ranges, name, id, file), ranges)
  {
    var v := Violation(name, id, file);
    var s1 := Record(st, name, id, file);
    var r := CheckReserved(s1, ranges, name, id, file);
    RecordRecords(st, name, id, file);
    CheckReservedFrame(s1, ranges, name, id, file);
    CheckReservedKeyOrder(s1, ranges, name, id, file);
    forall n | n in r.violations ensures r.violations[n] != [] {
      CheckReservedKey(s1, ranges, name, id, file, n);
      CheckReservedList(s1, ranges, name, id, file, n);
    }
    forall n, w | n in r.violations && w in r.violations[n]
      ensures Records(r, w.id, Observation(w.name, w.file)) && FlaggedBy(ranges, n, w.id, w.file)
    {
      CheckReservedList(s1, ranges, name, id, file, n);
      assert r.violations[n] == ViolationsIn(st, n) + Repeat(v, FlagCount(ranges, n, id, file));
      if w !in ViolationsIn(st, n) {
        FlagCountPositive(ranges, n, id, file);
      }
    }
  }

  /** After a new registration every flagged recorded use is in its range's list. */
  lemma RegisterComplete(st: Registry, ranges: seq<ReservedRange>, name: string, id: int, file: string)
    requires Inv(st, ranges) && Observation(name, file) !in Observations(st, id)
    ensures ViolationsComplete(CheckReserved(Record(st, name, id, file), ranges, name, id, file), ranges)
  {
    var v := Violation(name, id, file);
    var s1 := Record(st, name, id, file);
    var r := CheckReserved(s1, ranges, name, id, file);
    RecordRecords(st, name, id, file);
    CheckReservedFrame(s1, ranges, name, id, file);
    forall id', o', i | Records(r, id', o') && 0 <= i < |ranges| && Flags(ranges[i], id', o'.file)
      ensures Violation(o'.name, id', o'.file) in ViolationsIn(r, ranges[i].name)
    {
      var n := ranges[i].name;
      CheckReservedList(s1, ranges, name, id, file, n);
      if !Records(st, id', o') {
        FlagCountPositive(ranges, n, id, file);
        assert Repeat(v, FlagCount(ranges, n, id, file))[0] == v;
      }
    }
  }

  /** With distinct range names, a range's list never holds the same violation twice. */
  lemma RegisterKeepsViolationsUnique(st: Registry, ranges: seq<ReservedRange>, name: string, id: int, file: string)
    requires Inv(st, ranges) && ViolationsUnique(st) && DistinctNames(ranges)
    ensures ViolationsUnique(Register(st, ranges, name, id, file))
  {
    var o := Observation(name, file);
    var v := Violation(name, id, file);
    if o !in Observations(st, id) {
      var s1 := Record(st, name, id, file);
      var r := CheckReserved(s1, ranges, name, id, file);
      forall n | n in r.violations ensures Distinct(r.violations[n]) {
        CheckReservedList(s1, ranges, name, id, file, n);
        var before := ViolationsIn(st, n);
        var k := FlagCount(ranges, n, id, file);
        assert r.violations[n] == before + Repeat(v, k);
        assert v !in before;
        if k > 0 {
          FlagCountPositive(ranges, n, id, file);
          var i :| 0 <= i < |ranges| && ranges[i].name == n && Flags(ranges[i], id, file);
          FlagCountUnique(ranges, i, id, file);
          assert Repeat(v, k) == [v];
          DistinctAppend(before, v);
        } else {
          assert Repeat(v, k) == [];
          assert r.violations[n] == before;
        }
      }
    }
  }

  /** Registration only ever adds: lists grow at the end, and no id leaves `conflicts`. */
  lemma RegisterGrows(st: Registry, ranges: seq<ReservedRange>, name: string, id: int, file: string)
    ensures var r := Register(st, ranges, name, id, file);
      && (forall id' | id' in st.discovered :: id' in r.discovered && st.discovered[id'] <= r.discovered[id'])
      && st.conflicts.Keys <= r.conflicts.Keys
      && (forall n :: ViolationsIn(st, n) <= ViolationsIn(r, n))
  {
    if Observation(name, file) !in Observations(st, id) {
      var s1 := Record(st, name, id, file);
      CheckReservedFrame(s1, ranges, name, id, file);
      forall n ensures ViolationsIn(st, n) <= ViolationsIn(Register(st, ranges, name, id, file), n) {
        CheckReservedList(s1, ranges, name, id, file, n);
      }
    }
  }

  // ----- the feed loop of `run` -----

  /** The declaration (o.name, id, o.file) was extracted from some file. */
  ghost predicate Declares(decls: seq<Declaration>, id: int, o: Observation) {
    Declaration(o.name, id, o.file) in decls
  }

  /** `set((name, file) for ...)` of the declarations of `id`. */
  ghost function DeclaredPairs(decls: seq<Declaration>, id: int): set<Observation> {
    set d | d in decls && d.id == id :: Observation(d.name, d.file)
  }

  lemma {:induction false} FeedPreservesInv(st: Registry, ranges: seq<ReservedRange>, decls: seq<Declaration>)
    requires Inv(st, ranges)
    ensures Inv(Feed(st, ranges, decls), ranges)
    decreases |decls|
  {
    if decls != [] {
      RegisterPreservesInv(st, ranges, decls[0].name, decls[0].id, decls[0].file);
      FeedPreservesInv(Register(st, ranges, decls[0].name, decls[0].id, decls[0].file), ranges, decls[1..]);
    }
  }

  lemma {:induction false} FeedRecords(st: Registry, ranges: seq<ReservedRange>, decls: seq<Declaration>)
    ensures forall id, o :: Records(Feed(st, ranges, decls), id, o) <==> Records(st, id, o) || Declares(decls, id, o)
    decreases |decls|
  {
    if decls != [] {
      var d := decls[0];
      RegisterRecords(st, ranges, d.name, d.id, d.file);
      FeedRecords(Register(st, ranges, d.name, d.id, d.file), ranges, decls[1..]);
      assert decls == [d] + decls[1..];
      forall id, o ensures Declares(decls, id, o) <==> (id == d.id && o == Observation(d.name, d.file)) || Declares(decls[1..], id, o) {
      }
    }
  }

  lemma {:induction false} FeedGrows(st: Registry, ranges: seq<ReservedRange>, decls: seq<Declaration>)
    ensures var r := Feed(st, ranges, decls);
      && (forall id | id in st.discovered :: id in r.discovered && st.discovered[id] <= r.discovered[id])
      && st.conflicts.Keys <= r.conflicts.Keys
      && (forall n :: ViolationsIn(st, n) <= ViolationsIn(r, n))
    decreases |decls|
  {
    if decls != [] {
      var d := decls[0];
      RegisterGrows(st, ranges, d.name, d.id, d.file);
      FeedGrows(Register(st, ranges, d.name, d.id, d.file), ranges, decls[1..]);
    }
  }

  lemma {:induction false} FeedConcat(st: Registry, ranges: seq<ReservedRange>, a: seq<Declaration>, b: seq<Declaration>)
    ensures Feed(st, ranges, a + b) == Feed(Feed(st, ranges, a), ranges, b)
    decreases |a|
  {
    if a == [] {
      assert a + b == b;
    } else {
      assert (a + b)[0] == a[0] && (a + b)[1..] == a[1..] + b;
      FeedConcat(Register(st, ranges, a[0].name, a[0].id, a[0].file), ranges, a[1..], b);
    }
  }

  /** Declarations that are all already recorded change nothing. */
  lemma {:induction false} FeedRecorded(st: Registry, ranges: seq<ReservedRange>, decls: seq<Declaration>)
    requires forall d | d in decls :: Records(st, d.id, Observation(d.name, d.file))
    ensures Feed(st, ranges, decls) == st
    decreases |decls|
  {
    if decls != [] {
      RegisterRepeat(st, ranges, decls[0].name, decls[0].id, decls[0].file);
      FeedRecorded(st, ranges, decls[1..]);
    }
  }

  /** The declarations of `b` that are not in `a`, in their order in `b`. */
  function Without(b: seq<Declaration>, a: seq<Declaration>): (r: seq<Declaration>)
    ensures forall d :: d in r <==> d in b && d !in a
  {
    if b == [] then []
    else
      assert b == [b[0]] + b[1..];
      (if b[0] in a then [] else [b[0]]) + Without(b[1..], a)
  }

  /** Once every declaration of `a` is recorded, the declarations of `a` are
      skipped wherever they come later in the sequence. */
  lemma {:induction false} FeedSkipsRecorded(cur: Registry, ranges: seq<ReservedRange>, a: seq<Declaration>, b: seq<Declaration>)
    requires forall d | d in a :: Records(cur, d.id, Observation(d.name, d.file))
    ensures Feed(cur, ranges, b) == Feed(cur, ranges, Without(b, a))
    decreases |b|
  {
    if b != [] {
      var d := b[0];
      var rest := Without(b[1..], a);
      if d in a {
        RegisterRepeat(cur, ranges, d.name, d.id, d.file);
        FeedSkipsRecorded(cur, ranges, a, b[1..]);
        assert Without(b, a) == [] + rest == rest;
      } else {
        var next := Register(cur, ranges, d.name, d.id, d.file);
        RegisterRecords(cur, ranges, d.name, d.id, d.file);
        FeedSkipsRecorded(next, ranges, a, b[1..]);
        assert Without(b, a) == [d] + rest;
        assert ([d] + rest)[0] == d && ([d] + rest)[1..] == rest;
      }
    }
  }

  /** The overlapping scan directories: feeding the walk of `src/Public` and
      then the walk of `src`, which returns the `src/Public` files again, is
      feeding the first walk and then only the declarations of the second that
      the first did not make. */
  lemma OverlapFeed(ranges: seq<ReservedRange>, a: seq<Declaration>, b: seq<Declaration>)
    ensures Feed(Empty, ranges, a + b) == Feed(Feed(Empty, ranges, a), ranges, Without(b, a))
  {
    var fa := Feed(Empty, ranges, a);
    FeedConcat(Empty, ranges, a, b);
    FeedRecords(Empty, ranges, a);
    forall d | d in a ensures Records(fa, d.id, Observation(d.name, d.file)) {
      assert Declares(a, d.id, Observation(d.name, d.file));
    }
    FeedSkipsRecorded(fa, ranges, a, b);
  }

  /** When every declaration of the first walk is also in the second, the
      overlapping scan records the same observations and the same violations
      as scanning the second walk alone. */
  lemma OverlapRecords(ranges: seq<ReservedRange>, a: seq<Declaration>, b: seq<Declaration>)
    requires forall d | d in a :: d in b
    ensures forall id, o :: Records(Feed(Empty, ranges, a + b), id, o) <==> Records(Feed(Empty, ranges, b), id, o)
    ensures forall n, v :: v in ViolationsIn(Feed(Empty, ranges, a + b), n) <==> v in ViolationsIn(Feed(Empty, ranges, b), n)
  {
    FeedObservations(ranges, a + b);
    FeedObservations(ranges, b);
    FeedViolations(ranges, a + b);
    FeedViolations(ranges, b);
    forall d ensures d in a + b <==> d in b {
      assert d in a + b <==> d in a || d in b;
    }
    forall n, v ensures v in ViolationsIn(Feed(Empty, ranges, a + b), n) <==> v in ViolationsIn(Feed(Empty, ranges, b), n) {
      assert v == Violation(v.name, v.id, v.file);
    }
  }

  /** Two declarations of one id with different (name, file) pairs, fed to an
      empty registry: the id's list holds them in declaration order. */
  lemma FeedTwoPairs(ranges: seq<ReservedRange>, d1: Declaration, d2: Declaration)
    requires d1.id == d2.id && Observation(d1.name, d1.file) != Observation(d2.name, d2.file)
    ensures Observations(Feed(Empty, ranges, [d1, d2]), d1.id) == [Observation(d1.name, d1.file), Observation(d2.name, d2.file)]
  {
    var o1, o2 := Observation(d1.name, d1.file), Observation(d2.name, d2.file);
    var s1 := Register(Empty, ranges, d1.name, d1.id, d1.file);
    RegisterNew(Empty, ranges, d1.name, d1.id, d1.file);
    assert Observations(Empty, d1.id) + [o1] == [o1];
    assert Observations(s1, d1.id) == [o1];
    var s2 := Register(s1, ranges, d2.name, d2.id, d2.file);
    RegisterNew(s1, ranges, d2.name, d2.id, d2.file);
    assert Observations(s2, d1.id) == [o1, o2];
    assert [d1, d2][1..][1..] == [];
    assert Feed(Empty, ranges, [d1, d2]) == Feed(s2, ranges, []);
  }

  /** The overlap changes discovery order. With `x` declared in a file directly
      under `src` and `y`, for the same id, in a file under `src/Public`, the run
      feeds `[y]` (the walk of `src/Public`) and then `[x, y]` (the walk of
      `src`, top-down), so `y` becomes the id's first observation; scanning
      `src` alone would put `x` first. */
  lemma OverlapReordersDiscovery(ranges: seq<ReservedRange>, x: Declaration, y: Declaration)
    requires x.id == y.id && Observation(x.name, x.file) != Observation(y.name, y.file)
    ensures Observations(Feed(Empty, ranges, [y] + [x, y]), x.id) == [Observation(y.name, y.file), Observation(x.name, x.file)]
    ensures Observations(Feed(Empty, ranges, [x, y]), x.id) == [Observation(x.name, x.file), Observation(y.name, y.file)]
  {
    FeedTwoPairs(ranges, x, y);
    FeedTwoPairs(ranges, y, x);
    assert [y] + [x, y] == [y, x] + [y];
    FeedConcat(Empty, ranges, [y, x], [y]);
    var r := Feed(Empty, ranges, [y, x]);
    assert Records(r, y.id, Observation(y.name, y.file)) by {
      assert Observations(r, y.id)[0] == Observation(y.name, y.file);
    }
    FeedRecorded(r, ranges, [y]);
  }

  /** After a run: an id's list holds one entry per distinct (name, file) declared
      for it, and the id is a conflict exactly when there are at least two. */
  lemma FeedObservations(ranges: seq<ReservedRange>, decls: seq<Declaration>)
    ensures var r := Feed(Empty, ranges, decls);
      && (forall id, o :: Records(r, id, o) <==> Declares(decls, id, o))
      && (forall id | id in r.discovered :: |r.discovered[id]| == |DeclaredPairs(decls, id)|)
      && (forall id :: id in r.conflicts <==> |DeclaredPairs(decls, id)| >= 2)
  {
    var r := Feed(Empty, ranges, decls);
    EmptyInv(ranges);
    FeedPreservesInv(Empty, ranges, decls);
    FeedRecords(Empty, ranges, decls);
    forall id ensures |Observations(r, id)| == |DeclaredPairs(decls, id)| {
      forall o | o in DeclaredPairs(decls, id) ensures Declares(decls, id, o) {
        var d :| d in decls && d.id == id && Observation(d.name, d.file) == o;
        assert d == Declaration(o.name, id, o.file);
      }
      forall o | Declares(decls, id, o) ensures o in DeclaredPairs(decls, id) {
        var d := Declaration(o.name, id, o.file);
        assert d in decls && d.id == id && Observation(d.name, d.file) == o;
      }
      assert ElemSet(Observations(r, id)) == DeclaredPairs(decls, id);
      DistinctCard(Observations(r, id));
    }
  }

  /** After a run: a range's list holds exactly the declarations that the range flags. */
  lemma FeedViolations(ranges: seq<ReservedRange>, decls: seq<Declaration>)
    ensures forall n, name, id, file ::
              Violation(name, id, file) in ViolationsIn(Feed(Empty, ranges, decls), n)
              <==> Declaration(name, id, file) in decls && FlaggedBy(ranges, n, id, file)
  {
    var r := Feed(Empty, ranges, decls);
    EmptyInv(ranges);
    FeedPreservesInv(Empty, ranges, decls);
    FeedRecords(Empty, ranges, decls);
    forall n, name, id, file
      ensures Violation(name, id, file) in ViolationsIn(r, n)
              <==> Declaration(name, id, file) in decls && FlaggedBy(ranges, n, id, file)
    {
      var v := Violation(name, id, file);
      if Declaration(name, id, file) in decls && FlaggedBy(ranges, n, id, file) {
        var i :| 0 <= i < |ranges| && ranges[i].name == n && Flags(ranges[i], id, file);
        assert Declares(decls, id, Observation(name, file));
        assert Records(r, id, Observation(name, file));
      }
      if v in ViolationsIn(r, n) {
        assert Records(r, id, Observation(name, file));
        assert Declares(decls, id, Observation(name, file));
      }
    }
  }

  /** With distinct range names, a run records each violation once per list. */
  lemma {:induction false} FeedKeepsViolationsUnique(st: Registry, ranges: seq<ReservedRange>, decls: seq<Declaration>)
    requires Inv(st, ranges) && ViolationsUnique(st) && DistinctNames(ranges)
    ensures ViolationsUnique(Feed(st, ranges, decls))
    decreases |decls|
  {
    if decls != [] {
      var d := decls[0];
      RegisterPreservesInv(st, ranges, d.name, d.id, d.file);
      RegisterKeepsViolationsUnique(st, ranges, d.name, d.id, d.file);
      FeedKeepsViolationsUnique(Register(st, ranges, d.name, d.id, d.file), ranges, decls[1..]);
    }
  }

  /** Declarations that all come from SDK files leave no violation at all. */
  lemma FeedSdkOnly(ranges: seq<ReservedRange>, decls: seq<Declaration>)
    requires forall d | d in decls :: IsSdkFile(d.file)
    ensures forall n, name, id, file :: Violation(name, id, file) !in ViolationsIn(Feed(Empty, ranges, decls), n)
  {
    FeedViolations(ranges, decls);
    forall n, id, file | FlaggedBy(ranges, n, id, file) ensures !IsSdkFile(file) {
      var i :| 0 <= i < |ranges| && ranges[i].name == n && Flags(ranges[i], id, file);
    }
  }
}
