/** The ordered probe registry (crates/rocket-surgeon-probes/src/registry.rs). */
module Registry {
  import opened Prelude
  import opened ProbePoints
  import opened Sorting
  import opened Grammar

  datatype Definition = Definition(id: string, point: string, action: string, enabled: bool, priority: int)

  datatype Stored = Stored(definition: Definition, parsed: ProbePoint, seqNo: nat)

  datatype RegistryError = NotFound(id: string) | DuplicateId(id: string) | InvalidPoint

  type Table = map<string, Stored>

  /** The sort key: priority first, then the order of definition. */
  predicate KeyLess(x: Stored, y: Stored) {
    x.definition.priority < y.definition.priority
    || (x.definition.priority == y.definition.priority && x.seqNo < y.seqNo)
  }

  predicate KeyLe(x: Stored, y: Stored) { !KeyLess(y, x) }

  /** What every run of operations keeps: keys, and sequence numbers that never repeat. */
  ghost predicate WellKept(m: Table, nextSeq: nat) {
    && (forall id :: id in m ==> m[id].definition.id == id && m[id].seqNo < nextSeq)
    && (forall id, id' :: id in m && id' in m && m[id].seqNo == m[id'].seqNo ==> id == id')
  }

  /** The stored pattern is the parse of the stored text. */
  predicate Parsed(s: Stored) { Parse(s.definition.point) == Some(s.parsed) }

  ghost predicate AllParsed(m: Table) { forall id :: id in m ==> Parsed(m[id]) }

  lemma RemoveAbsent(m: Table, id: string)
    requires id !in m
    ensures m - {id} == m
  {
  }

  lemma RemoveKeeps(m: Table, nextSeq: nat, id: string)
    requires WellKept(m, nextSeq)
    ensures WellKept(m - {id}, nextSeq)
  {
  }

  lemma RemoveKeepsParsed(m: Table, id: string)
    requires AllParsed(m)
    ensures AllParsed(m - {id})
  {
    var m' := m - {id};
    forall k | k in m' ensures Parsed(m'[k]) {
      assert m'[k] == m[k];
    }
  }

  lemma PutKeepsParsed(m: Table, id: string, s: Stored)
    requires AllParsed(m) && Parsed(s)
    ensures AllParsed(m[id := s])
  {
  }

  /** `l` is the table's entries satisfying `keep`, in strictly increasing key order. */
  ghost predicate IsListing(m: Table, keep: Stored -> bool, l: seq<Stored>) {
    && (forall i, j :: 0 <= i < j < |l| ==>
          var (p, q) := (l[i].definition.priority, l[j].definition.priority);
          p < q || (p == q && l[i].seqNo < l[j].seqNo))
    && (forall s :: s in l <==> s in m.Values && keep(s))
  }

  /** An order in which a hash map may present its keys. */
  ghost predicate IterationOrder(m: Table, order: seq<string>) {
    Distinct(order) && forall id :: id in order <==> id in m
  }

  lemma NonemptyHead(l: seq<Stored>)
    ensures l != [] ==> l[0] in l
  {
  }

  lemma {:induction false} StrictUnique(l1: seq<Stored>, l2: seq<Stored>)
    requires Sorted(l1, KeyLess) && Sorted(l2, KeyLess) && forall s :: s in l1 <==> s in l2
    ensures l1 == l2
  {
    NonemptyHead(l2);
    if l1 != [] {
      assert l1[0] in l2 && l2 != [] && l2[0] in l1;
      assert l1[0] == l2[0];
      forall s ensures s in l1[1..] <==> s in l2[1..] {
        assert s in l1 <==> s == l1[0] || s in l1[1..];
        assert s in l2 <==> s == l2[0] || s in l2[1..];
      }
      StrictUnique(l1[1..], l2[1..]);
      assert l1 == [l1[0]] + l1[1..] && l2 == [l2[0]] + l2[1..];
    }
  }

  /** A table has only one listing, so no answer depends on the iteration order. */
  lemma ListingUnique(m: Table, keep: Stored -> bool, l1: seq<Stored>, l2: seq<Stored>)
    requires IsListing(m, keep, l1) && IsListing(m, keep, l2)
    ensures l1 == l2
  {
    StrictUnique(l1, l2);
  }

  /** The selection `matching_enabled` makes. */
  function EnabledMatch(target: ProbePoint): Stored -> bool {
    (s: Stored) => s.definition.enabled && Matches(s.parsed, target)
  }

  function Everything(): Stored -> bool {
    (s: Stored) => true
  }

  /**
   `matching_enabled` is `list` restricted to the enabled probes whose pattern shares a concrete
   point with the target, in the same order.
   */
  lemma MatchingEnabledIsFilteredList(m: Table, target: ProbePoint, all: seq<Stored>, matching: seq<Stored>)
    requires IsListing(m, Everything(), all) && IsListing(m, EnabledMatch(target), matching)
    ensures matching == Filter(all, EnabledMatch(target)) && forall s :: s in all <==> s in m.Values
    ensures forall s :: s in matching <==>
                          s in all && s.definition.enabled && exists p :: Covers(s.parsed, p) && Covers(target, p)
  {
    FilterSorted(all, EnabledMatch(target), KeyLess);
    ListingUnique(m, EnabledMatch(target), matching, Filter(all, EnabledMatch(target)));
    forall s ensures s in matching <==>
                       s in all && s.definition.enabled && exists p :: Covers(s.parsed, p) && Covers(target, p)
    {
      MatchesIffCommonPoint(s.parsed, target);
    }
  }

  lemma KeyOrder()
    ensures TotalPreorder(KeyLe)
  {
  }

  function Definitions(l: seq<Stored>): seq<Definition> {
    Map(l, (s: Stored) => s.definition)
  }

  /** The values of the table in iteration order. */
  function Values(m: Table, order: seq<string>): seq<Stored>
    requires forall id :: id in order ==> id in m
  {
    seq(|order|, i requires 0 <= i < |order| => m[order[i]])
  }

  /** Collect, filter, sort by key. */
  function Selection(m: Table, order: seq<string>, keep: Stored -> bool): seq<Stored>
    requires forall id :: id in order ==> id in m
  {
    Sort(Filter(Values(m, order), keep), KeyLe)
  }

  lemma ValuesHold(m: Table, nextSeq: nat, order: seq<string>)
    requires WellKept(m, nextSeq) && IterationOrder(m, order)
    ensures Distinct(Values(m, order)) && forall s :: s in Values(m, order) <==> s in m.Values
  {
    var values := Values(m, order);
    forall s | s in m.Values ensures s in values {
      var id :| id in m && m[id] == s;
      var i :| 0 <= i < |order| && order[i] == id;
      assert values[i] == s;
    }
  }

  /** The selection is the one listing, whatever the iteration order. */
  lemma SelectionIsListing(m: Table, nextSeq: nat, order: seq<string>, keep: Stored -> bool)
    requires WellKept(m, nextSeq) && IterationOrder(m, order)
    ensures IsListing(m, keep, Selection(m, order, keep))
  {
    var found := Filter(Values(m, order), keep);
    var l := Selection(m, order, keep);
    ValuesHold(m, nextSeq, order);
    FilterDistinct(Values(m, order), keep);
    KeyOrder();
    SortSorted(found, KeyLe);
    SortPermutes(found, KeyLe);
    SameElements(l, found);
    DistinctPermutes(found, l);
    forall i, j | 0 <= i < j < |l| ensures KeyLess(l[i], l[j]) {
      assert l[i] in m.Values && l[j] in m.Values;
      assert KeyLe(l[i], l[j]) && l[i] != l[j];
    }
  }

  class ProbeRegistry {
    var probes: Table
    var nextSeq: nat

    ghost predicate Valid()
      reads this
    {
      WellKept(probes, nextSeq) && AllParsed(probes)
    }

    constructor ()
      ensures Valid() && probes == map[] && nextSeq == 0
    {
      probes, nextSeq := map[], 0;
    }

    method Define(probe: Definition) returns (r: Result<string, RegistryError>)
      requires Valid()
      modifies this
      ensures Valid()
      ensures r == if probe.id in old(probes) then Err(DuplicateId(probe.id))
                   else if Parse(probe.point).None? then Err(InvalidPoint) else Ok(probe.id)
      ensures r.Err? ==> probes == old(probes) && nextSeq == old(nextSeq)
      ensures r.Ok? ==> probes == old(probes)[probe.id := Stored(probe, Parse(probe.point).value, old(nextSeq))]
      ensures r.Ok? ==> nextSeq == old(nextSeq) + 1
    {
      if probe.id in probes {
        return Err(DuplicateId(probe.id));
      }
      var parsed := Parse(probe.point);
      if parsed.None? {
        return Err(InvalidPoint);
      }
      PutKeepsParsed(probes, probe.id, Stored(probe, parsed.value, nextSeq));
      probes := probes[probe.id := Stored(probe, parsed.value, nextSeq)];
      nextSeq := nextSeq + 1;
      return Ok(probe.id);
    }

    /** `enable` and `disable`: only the flag of that one probe changes, so neither does its rank. */
    method SetEnabled(id: string, enabled: bool) returns (r: Result<Definition, RegistryError>)
      requires Valid()
      modifies this`probes
      ensures Valid()
      ensures id !in old(probes) ==> r == Err(NotFound(id)) && probes == old(probes)
      ensures id in old(probes) ==>
                var s := old(probes)[id];
                && r == Ok(s.definition.(enabled := enabled))
                && probes == old(probes)[id := s.(definition := s.definition.(enabled := enabled))]
    {
      if id !in probes {
        return Err(NotFound(id));
      }
      var s := probes[id];
      var definition := s.definition.(enabled := enabled);
      PutKeepsParsed(probes, id, s.(definition := definition));
      probes := probes[id := s.(definition := definition)];
      return Ok(definition);
    }

    method Remove(id: string) returns (r: Result<Definition, RegistryError>)
      requires Valid()
      modifies this`probes
      ensures Valid() && probes == old(probes) - {id}
      ensures r == if id in old(probes) then Ok(old(probes)[id].definition) else Err(NotFound(id))
    {
      if id !in probes {
        RemoveAbsent(probes, id);
        return Err(NotFound(id));
      }
      r := Ok(probes[id].definition);
      RemoveKeeps(probes, nextSeq, id);
      RemoveKeepsParsed(probes, id);
      probes := probes - {id};
    }

    method List(order: seq<string>) returns (r: seq<Definition>)
      requires Valid() && IterationOrder(probes, order)
      ensures exists l :: IsListing(probes, Everything(), l) && r == Definitions(l)
    {
      SelectionIsListing(probes, nextSeq, order, Everything());
      r := Definitions(Selection(probes, order, Everything()));
    }

    method MatchingEnabled(order: seq<string>, target: ProbePoint) returns (r: seq<Definition>)
      requires Valid() && IterationOrder(probes, order)
      ensures exists l :: IsListing(probes, EnabledMatch(target), l) && r == Definitions(l)
    {
      SelectionIsListing(probes, nextSeq, order, EnabledMatch(target));
      r := Definitions(Selection(probes, order, EnabledMatch(target)));
    }
  }
}
