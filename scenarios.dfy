/**
 Concrete runs with the shipped reserved-range configuration.
 */
module Scenarios {
  import opened Text
  import opened Seqs
  import opened Registry

  lemma NotSdkFile(file: string)
    requires 'U' !in file
    ensures !IsSdkFile(file)
  {
    if IsSdkFile(file) {
      ContainsFirstChar(file, SdkMarker);
    }
  }

  /** The first declaration of an id below the shipped range. */
  lemma FirstBelowRange(n1: string, f1: string, id: int)
    requires id < 200000
    ensures Register(Empty, DefaultRanges, n1, id, f1)
            == Registry([id], map[id := [Observation(n1, f1)]], [], map[], [], map[])
  {
    var o1 := Observation(n1, f1);
    assert Observations(Empty, id) + [o1] == [o1];
    var r1 := Record(Empty, n1, id, f1);
    assert r1 == Registry([id], map[id := [o1]], [], map[], [], map[]);
    OutsideRangesUnchanged(r1, n1, id, f1);
  }

  /** A second, different pair for that id makes it a conflict. */
  lemma SecondBelowRange(n1: string, f1: string, n2: string, f2: string, id: int)
    requires id < 200000 && Observation(n1, f1) != Observation(n2, f2)
    ensures var s1 := Registry([id], map[id := [Observation(n1, f1)]], [], map[], [], map[]);
      var list := [Observation(n1, f1), Observation(n2, f2)];
      Register(s1, DefaultRanges, n2, id, f2) == Registry([id], map[id := list], [id], map[id := list], [], map[])
  {
    var o1, o2 := Observation(n1, f1), Observation(n2, f2);
    var s1 := Registry([id], map[id := [o1]], [], map[], [], map[]);
    assert ElemSet([o1, o2]) == {o1, o2};
    assert Observations(s1, id) + [o2] == [o1, o2];
    var r2 := Record(s1, n2, id, f2);
    assert r2 == Registry([id], map[id := [o1, o2]], [id], map[id := [o1, o2]], [], map[]);
    OutsideRangesUnchanged(r2, n2, id, f2);
  }

  /** Two different (name, file) pairs for one id below the shipped range:
      the id becomes a conflict listing both, in order, and nothing is
      reported as a violation. */
  lemma SameIdTwoPairs(n1: string, f1: string, n2: string, f2: string, id: int)
    requires id < 200000 && Observation(n1, f1) != Observation(n2, f2)
    ensures var r := Feed(Empty, DefaultRanges, [Declaration(n1, id, f1), Declaration(n2, id, f2)]);
      && r.conflicts == map[id := [Observation(n1, f1), Observation(n2, f2)]]
      && r.violations == map[]
  {
    var decls := [Declaration(n1, id, f1), Declaration(n2, id, f2)];
    FirstBelowRange(n1, f1, id);
    SecondBelowRange(n1, f1, n2, f2, id);
    var s2 := Register(Register(Empty, DefaultRanges, n1, id, f1), DefaultRanges, n2, id, f2);
    assert decls[1..][1..] == [];
    assert Feed(Empty, DefaultRanges, decls) == Feed(s2, DefaultRanges, []);
  }

  /** `Login = 100` in one file and `Logout = 100` in another: id 100 is a
      conflict listing both observations, and no violation is recorded. */
  lemma TwoFilesConflict()
    ensures var r := Feed(Empty, DefaultRanges, [Declaration("Login", 100, "src/a.lua"), Declaration("Logout", 100, "src/b.lua")]);
      && r.conflicts == map[100 := [Observation("Login", "src/a.lua"), Observation("Logout", "src/b.lua")]]
      && r.violations == map[]
  {
    assert "Login"[3] != "Logout"[3];
    SameIdTwoPairs("Login", "src/a.lua", "Logout", "src/b.lua", 100);
  }

  /** `X = 100` in `src/b.lua` and `Y = 100` in `src/Public/a.lua`: the run
      lists `Y` first under id 100, because the walk of `src/Public` comes
      first; a scan of `src` alone would list `X` first. */
  lemma OverlapShowsPublicFirst()
    ensures var x, y := Declaration("X", 100, "src/b.lua"), Declaration("Y", 100, "src/Public/a.lua");
      && Observations(Feed(Empty, DefaultRanges, [y] + [x, y]), 100)
         == [Observation("Y", "src/Public/a.lua"), Observation("X", "src/b.lua")]
      && Observations(Feed(Empty, DefaultRanges, [x, y]), 100)
         == [Observation("X", "src/b.lua"), Observation("Y", "src/Public/a.lua")]
  {
    assert "X"[0] != "Y"[0];
    OverlapReordersDiscovery(DefaultRanges, Declaration("X", 100, "src/b.lua"), Declaration("Y", 100, "src/Public/a.lua"));
  }

  /** An id below 200000 is outside the shipped range and triggers no check. */
  lemma OutsideRangesUnchanged(st: Registry, name: string, id: int, file: string)
    requires id < 200000
    ensures CheckReserved(st, DefaultRanges, name, id, file) == st
  {
    assert DefaultRanges[0] == ReservedRange("UniX SDK", 200000, 250000);
    assert DefaultRanges[1..] == [];
  }

  /** A first declaration inside the shipped range, outside the SDK, is
      recorded and reported once under "UniX SDK". */
  lemma FirstReservedUse(name: string, id: int, file: string)
    requires 200000 <= id <= 250000 && !IsSdkFile(file)
    ensures var r := Feed(Empty, DefaultRanges, [Declaration(name, id, file)]);
      && id in r.discovered
      && r.violations == map["UniX SDK" := [Violation(name, id, file)]]
  {
    var v := Violation(name, id, file);
    var r1 := Record(Empty, name, id, file);
    assert r1.violations == map[] && r1.rangeOrder == [];
    assert DefaultRanges[0] == ReservedRange("UniX SDK", 200000, 250000);
    assert DefaultRanges[1..] == [];
    var s1 := AppendViolation(r1, "UniX SDK", v);
    assert ViolationsIn(r1, "UniX SDK") + [v] == [v];
    assert s1.violations == map["UniX SDK" := [v]];
    assert CheckReserved(r1, DefaultRanges, name, id, file) == CheckReserved(s1, [], name, id, file);
    assert [Declaration(name, id, file)][1..] == [];
  }

  /** `Test = 210000` outside the SDK: one violation under "UniX SDK", and the
      id is still discovered. */
  lemma ReservedUse()
    ensures var r := Feed(Empty, DefaultRanges, [Declaration("Test", 210000, "src/game/net.lua")]);
      && 210000 in r.discovered
      && r.violations == map["UniX SDK" := [Violation("Test", 210000, "src/game/net.lua")]]
  {
    NotSdkFile("src/game/net.lua");
    FirstReservedUse("Test", 210000, "src/game/net.lua");
  }

  /** `SdkMsg = 220000` inside the SDK's own directory: no violation. */
  lemma SdkUse()
    ensures var r := Feed(Empty, DefaultRanges, [Declaration("SdkMsg", 220000, "src/UniX-SDK/net.lua")]);
      && 220000 in r.discovered
      && r.violations == map[]
  {
    var file := "src/UniX-SDK/net.lua";
    assert OccursAt(file, SdkMarker, 4);
    ContainsIff(file, SdkMarker);
    assert [Declaration("SdkMsg", 220000, file)][1..] == [];
    CheckReservedSdkFile(Record(Empty, "SdkMsg", 220000, file), DefaultRanges, "SdkMsg", 220000, file);
  }
}
