/**
 Sections 3 and 4 of the text report: every discovered id with its first
 observation, once in ascending id order and once ordered by the lower-cased
 name (a stable sort of the ids in `discovered_ids` insertion order).
 */
module Listings {
  import opened Text
  import opened Seqs
  import opened Sorting
  import opened Registry

  /** `id: name (file)` in section 3, `name: id (file)` in section 4. */
  datatype ListingLine = ListingLine(id: int, name: string, file: string)

  /** Every key of `discovered_ids` is listed once and has a first observation. */
  ghost predicate Listable(st: Registry) {
    && KeyOrder(st.idOrder, st.discovered)
    && forall id | id in st.discovered :: st.discovered[id] != []
  }

  lemma InvListable(st: Registry, ranges: seq<ReservedRange>)
    requires Inv(st, ranges)
    ensures Listable(st)
  {
  }

  /** The line for `id`, from `discovered_ids[id][0]`. */
  function LineOf(st: Registry, id: int): ListingLine
    requires id in st.discovered && st.discovered[id] != []
  {
    ListingLine(id, st.discovered[id][0].name, st.discovered[id][0].file)
  }

  /** The lines for `ids`, in that order. */
  function Lines(st: Registry, ids: seq<int>): (r: seq<ListingLine>)
    requires forall k | k in ids :: k in st.discovered && st.discovered[k] != []
    ensures |r| == |ids|
  {
    if ids == [] then [] else [LineOf(st, ids[0])] + Lines(st, ids[1..])
  }

  lemma {:induction false} LinesAt(st: Registry, ids: seq<int>, i: int)
    requires forall k | k in ids :: k in st.discovered && st.discovered[k] != []
    requires 0 <= i < |ids|
    ensures Lines(st, ids)[i] == LineOf(st, ids[i])
  {
    if i > 0 {
      LinesAt(st, ids[1..], i - 1);
    }
  }

  lemma {:induction false} LinesMembership(st: Registry, ids: seq<int>)
    requires forall k | k in ids :: k in st.discovered && st.discovered[k] != []
    ensures forall l :: l in Lines(st, ids) <==> l.id in ids && l == LineOf(st, l.id)
  {
    if ids != [] {
      LinesMembership(st, ids[1..]);
      assert ids == [ids[0]] + ids[1..];
    }
  }

  /** Section 3: `for id_value in sorted(self.discovered_ids.keys())`. */
  function ById(st: Registry): seq<ListingLine>
    requires Listable(st)
  {
    var ids := SortInts(st.idOrder);
    assert forall k | k in ids :: k in st.discovered && st.discovered[k] != [] by {
      forall k | k in ids ensures k in st.discovered {
        assert k in multiset(ids);
      }
    }
    Lines(st, ids)
  }

  /** The line list of the comprehension over `discovered_ids.items()`, in insertion order. */
  function InsertionOrder(st: Registry): seq<ListingLine>
    requires Listable(st)
  {
    Lines(st, st.idOrder)
  }

  /** `x[0].lower()`. */
  function NameKey(l: ListingLine): string {
    Lower(l.name)
  }

  /** Section 4: `sorted(..., key=lambda x: x[0].lower())`. */
  function ByName(st: Registry): seq<ListingLine>
    requires Listable(st)
  {
    SortBy(InsertionOrder(st), NameKey)
  }

  lemma SortedIdsListed(st: Registry)
    requires Listable(st)
    ensures forall k | k in SortInts(st.idOrder) :: k in st.discovered && st.discovered[k] != []
  {
    var ids := SortInts(st.idOrder);
    forall k | k in ids ensures k in st.discovered {
      assert k in multiset(ids);
    }
  }

  /** Section 3 has one line per discovered id, in strictly ascending id order. */
  lemma ByIdAscending(st: Registry)
    requires Listable(st)
    ensures var r := ById(st);
      && |r| == |st.discovered|
      && (forall i, j :: 0 <= i < j < |r| ==> r[i].id < r[j].id)
  {
    var ids := SortInts(st.idOrder);
    var r := ById(st);
    KeyOrderCard(st.idOrder, st.discovered);
    assert |ids| == |multiset(ids)| == |multiset(st.idOrder)|;
    SortIntsStrict(st.idOrder);
    SortedIdsListed(st);
    forall i | 0 <= i < |r| ensures r[i].id == ids[i] {
      LinesAt(st, ids, i);
    }
  }

  /** Section 3 shows, for every discovered id and for no other, the line made
      from that id's first observation. */
  lemma ByIdLines(st: Registry)
    requires Listable(st)
    ensures forall l :: l in ById(st) <==> l.id in st.discovered && l == LineOf(st, l.id)
  {
    var ids := SortInts(st.idOrder);
    SortedIdsListed(st);
    LinesMembership(st, ids);
    forall id ensures id in ids <==> id in st.discovered {
      assert id in ids <==> id in multiset(ids);
    }
  }

  /** Section 4 shows the same lines as section 3: one per discovered id with
      its first observation. */
  lemma ByNameSameLines(st: Registry)
    requires Listable(st)
    ensures |ByName(st)| == |ById(st)|
    ensures forall l :: l in ByName(st) <==> l in ById(st)
  {
    var ins := InsertionOrder(st);
    var r := ByName(st);
    ByIdAscending(st);
    ByIdLines(st);
    KeyOrderCard(st.idOrder, st.discovered);
    assert |r| == |multiset(r)| == |multiset(ins)| == |ins|;
    LinesMembership(st, st.idOrder);
    forall l ensures l in r <==> l in ins {
      assert l in r <==> l in multiset(r);
    }
  }

  /** Section 4 is ordered by lower-cased name, and lines whose names agree
      after lower-casing keep the insertion order of `discovered_ids`. */
  lemma ByNameOrder(st: Registry, k: string)
    requires Listable(st)
    ensures SortedBy(ByName(st), NameKey)
    ensures WithKey(ByName(st), NameKey, k) == WithKey(InsertionOrder(st), NameKey, k)
  {
    SortBySorted(InsertionOrder(st), NameKey);
    SortByStable(InsertionOrder(st), NameKey, k);
  }
}
