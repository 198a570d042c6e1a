/**
 The registry part of the `NetMsgConflictChecker` class: its three dict fields
 (each with the insertion order of its keys), the two registration methods and
 the reset-and-feed loop of `run`. Every method is proved against the value
 specification in module Registry.
 */
module Checker {
  import opened Text
  import opened Seqs
  import opened Registry

  class NetMsgConflictChecker {
    /** `config["reserved_ranges"]`. */
    const ranges: seq<ReservedRange>

    /** `discovered_ids` and the insertion order of its keys. */
    var discoveredIds: map<int, seq<Observation>>
    var idOrder: seq<int>

    /** `conflicts` and the insertion order of its keys. */
    var conflicts: map<int, seq<Observation>>
    var conflictOrder: seq<int>

    /** `reserved_violations` and the insertion order of its keys. */
    var reservedViolations: map<string, seq<Violation>>
    var violationOrder: seq<string>

    /** The registry held by the object. */
    function State(): Registry
      reads this
    {
      Registry(idOrder, discoveredIds, conflictOrder, conflicts, violationOrder, reservedViolations)
    }

    ghost predicate Valid()
      reads this
    {
      Inv(State(), ranges)
    }

    /** The registry fields of `__init__`, for a given range configuration. */
    constructor (ranges: seq<ReservedRange>)
      ensures Valid() && State() == Empty && this.ranges == ranges
    {
      this.ranges := ranges;
      discoveredIds, idOrder := map[], [];
      conflicts, conflictOrder := map[], [];
      reservedViolations, violationOrder := map[], [];
      new;
      EmptyInv(ranges);
    }

    /** `check_reserved_violation(name, id_value, file_path)`. */
    method CheckReservedViolation(name: string, id: int, file: string)
      modifies this
      ensures State() == CheckReserved(old(State()), ranges, name, id, file)
    {
      ghost var start := State();
      var i := 0;
      while i < |ranges|
        invariant 0 <= i <= |ranges|
        invariant CheckReserved(State(), ranges[i..], name, id, file) == CheckReserved(start, ranges, name, id, file)
      {
        var r := ranges[i];
        if r.min <= id <= r.max {
          var isSdk := Contains(file, SdkMarker);
          if !isSdk {
            var list := if r.name in reservedViolations then reservedViolations[r.name] else [];
            if r.name !in reservedViolations {
              violationOrder := violationOrder + [r.name];
            }
            reservedViolations := reservedViolations[r.name := list + [Violation(name, id, file)]];
          }
        }
        assert ranges[i..][1..] == ranges[i + 1..];
        i := i + 1;
      }
    }

    /** `register_netmsg_id(name, id_value, file_path)`. */
    method RegisterNetMsgId(name: string, id: int, file: string)
      requires Valid()
      modifies this
      ensures Valid()
      ensures State() == Register(old(State()), ranges, name, id, file)
    {
      ghost var start := State();
      if id !in discoveredIds {
        discoveredIds := discoveredIds[id := []];
        idOrder := idOrder + [id];
      }
      var usages := discoveredIds[id];
      assert usages == Observations(start, id);
      var i := 0;
      while i < |usages|
        invariant 0 <= i <= |usages|
        invariant forall k :: 0 <= k < i ==> usages[k] != Observation(name, file)
      {
        if usages[i].name == name && usages[i].file == file {
          // an identical definition is already recorded
          assert id in start.discovered;
          return;
        }
        i := i + 1;
      }
      assert Observation(name, file) !in Observations(start, id);
      var current := usages + [Observation(name, file)];
      discoveredIds := discoveredIds[id := current];
      if id in conflicts {
        // conflicts[id] is the very list object that was just appended to
        conflicts := conflicts[id := current];
      }
      if |current| > 1 {
        var namesFiles := ElemSet(current);
        if |namesFiles| > 1 {
          if id !in conflicts {
            conflictOrder := conflictOrder + [id];
          }
          conflicts := conflicts[id := current];
        }
      }
      ghost var rec := Record(start, name, id, file);
      assert discoveredIds == rec.discovered && idOrder == rec.idOrder;
      assert conflicts == rec.conflicts && conflictOrder == rec.conflictOrder;
      assert State() == rec;
      CheckReservedViolation(name, id, file);
      RegisterPreservesInv(start, ranges, name, id, file);
    }

    /** The reset at the start of `run` and the loop that feeds every extracted
        declaration, in discovery order, to `register_netmsg_id`. */
    method Run(decls: seq<Declaration>)
      modifies this
      ensures Valid()
      ensures State() == Feed(Empty, ranges, decls)
    {
      discoveredIds, idOrder := map[], [];
      conflicts, conflictOrder := map[], [];
      reservedViolations, violationOrder := map[], [];
      EmptyInv(ranges);
      var i := 0;
      while i < |decls|
        invariant 0 <= i <= |decls|
        invariant Valid()
        invariant Feed(State(), ranges, decls[i..]) == Feed(Empty, ranges, decls)
      {
        RegisterNetMsgId(decls[i].name, decls[i].id, decls[i].file);
        assert decls[i..][1..] == decls[i + 1..];
        i := i + 1;
      }
    }
  }
}
