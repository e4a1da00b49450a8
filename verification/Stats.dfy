/**
 galley/tools/mcpc/main.go: the counters of printStats.  The counters are int64 in Go
 and unbounded here; metadata is its version and the rest.
 */
module Stats {
  import opened Wire

  datatype Metadata = Metadata(name: string, version: string, rest: string)

  /** A change replaces the whole collection. */
  datatype Change = Change(collection: string, objects: seq<Metadata>)

  /** Name to metadata; of several objects with one name the last counts. */
  function Latest(objects: seq<Metadata>): map<string, Metadata> {
    if objects == [] then map[]
    else Latest(objects[..|objects| - 1])[objects[|objects| - 1].name := objects[|objects| - 1]]
  }

  /** Object i is the last one of its name. */
  predicate IsLast(objects: seq<Metadata>, i: nat) {
    i < |objects| && forall j :: i < j < |objects| ==> objects[j].name != objects[i].name
  }

  lemma {:induction false} LatestExactly(objects: seq<Metadata>, name: string)
    ensures name in Latest(objects) <==> exists i :: 0 <= i < |objects| && objects[i].name == name
    ensures name in Latest(objects) ==>
              exists i :: 0 <= i < |objects| && IsLast(objects, i) && objects[i].name == name && objects[i] == Latest(objects)[name]
  {
    if objects != [] {
      var init, last := objects[..|objects| - 1], |objects| - 1;
      LatestExactly(init, name);
      forall i | 0 <= i < last
        ensures init[i] == objects[i]
        ensures IsLast(init, i) && objects[i].name != objects[last].name ==> IsLast(objects, i)
      {
        assert forall j :: i < j < last ==> init[j] == objects[j];
      }
      if name == objects[last].name {
        assert IsLast(objects, last);
      }
    }
  }

  // ------------------------------------------------------- counting, without any order

  function Added(before: map<string, Metadata>, after: map<string, Metadata>): set<string> {
    set name | name in after && name !in before
  }

  function Deleted(before: map<string, Metadata>, after: map<string, Metadata>): set<string> {
    set name | name in before && name !in after
  }

  function Readded(before: map<string, Metadata>, after: map<string, Metadata>): set<string> {
    set name | name in after && name in before && after[name].version == before[name].version
  }

  function Updated(before: map<string, Metadata>, after: map<string, Metadata>): set<string> {
    set name | name in after && name in before && after[name].version != before[name].version
  }

  datatype Counts = Counts(apply: nat, add: nat, readd: nat, update: nat, delete: nat)

  const NO_COUNTS := Counts(0, 0, 0, 0, 0)

  function Counted(c: Counts, before: map<string, Metadata>, after: map<string, Metadata>): Counts {
    Counts(c.apply + 1,
           c.add + |Added(before, after)|,
           c.readd + |Readded(before, after)|,
           c.update + |Updated(before, after)|,
           c.delete + |Deleted(before, after)|)
  }

  lemma SizesAdd(before: map<string, Metadata>, after: map<string, Metadata>)
    ensures |Added(before, after)| - |Deleted(before, after)| == |after.Keys| - |before.Keys|
    ensures |Added(before, after)| + |Readded(before, after)| + |Updated(before, after)| == |after.Keys|
  {
    var both := before.Keys * after.Keys;
    assert Added(before, after) + both == after.Keys && Deleted(before, after) + both == before.Keys;
    assert Readded(before, after) + Updated(before, after) == both;
    assert Readded(before, after) !! Updated(before, after);
  }

  /** The statistics after all changes to one collection, oldest first. */
  function Resources(changes: seq<seq<Metadata>>): map<string, Metadata> {
    if changes == [] then map[] else Latest(changes[|changes| - 1])
  }

  function Totals(changes: seq<seq<Metadata>>): Counts {
    if changes == [] then NO_COUNTS
    else Counted(Totals(changes[..|changes| - 1]), Resources(changes[..|changes| - 1]), Resources(changes))
  }

  function DistinctNames(changes: seq<seq<Metadata>>): nat {
    if changes == [] then 0
    else DistinctNames(changes[..|changes| - 1]) + |Latest(changes[|changes| - 1]).Keys|
  }

  /** The laws of the counters, after any changes. */
  lemma {:induction false} TotalsBalance(changes: seq<seq<Metadata>>)
    ensures Totals(changes).add - Totals(changes).delete == |Resources(changes).Keys|
    ensures Totals(changes).add + Totals(changes).readd + Totals(changes).update == DistinctNames(changes)
    ensures Totals(changes).apply == |changes|
  {
    if changes != [] {
      var front := changes[..|changes| - 1];
      TotalsBalance(front);
      SizesAdd(Resources(front), Resources(changes));
    }
  }

  // -------------------------------------------------------------------------- the class

  class Stat {
    var apply: nat
    var add: nat
    var readd: nat
    var update: nat
    var delete: nat
    var resources: map<string, Metadata>

    constructor ()
      ensures View() == NO_COUNTS && resources == map[]
    {
      apply, add, readd, update, delete, resources := 0, 0, 0, 0, 0, map[];
    }

    function View(): Counts
      reads this
    {
      Counts(apply, add, readd, update, delete)
    }

    /** The first inner loop: in any order of the names. */
    method AddAll(added: map<string, Metadata>)
      modifies this`add, this`readd, this`update, this`resources
      ensures resources == old(resources) + added
      ensures add == old(add) + |Added(old(resources), added)|
      ensures readd == old(readd) + |Readded(old(resources), added)|
      ensures update == old(update) + |Updated(old(resources), added)|
    {
      hide Added, Readded, Updated;
      ghost var before := resources;
      ghost var done: map<string, Metadata> := map[];
      NothingDone(before);
      var rest := added.Keys;
      while rest != {}
        invariant rest <= added.Keys
        invariant forall name :: name in done <==> name in added && name !in rest
        invariant forall name :: name in done ==> done[name] == added[name]
        invariant resources == before + done
        invariant add == old(add) + |Added(before, done)|
        invariant readd == old(readd) + |Readded(before, done)|
        invariant update == old(update) + |Updated(before, done)|
        decreases rest
      {
        var name :| name in rest;
        var metadata := added[name];
        AddedNext(before, done, name, metadata);
        ReaddedNext(before, done, name, metadata);
        UpdatedNext(before, done, name, metadata);
        if name !in resources {
          add := add + 1;
        } else if metadata.version == resources[name].version {
          readd := readd + 1;
        } else {
          update := update + 1;
        }
        resources := resources[name := metadata];
        done := done[name := metadata];
        rest := rest - {name};
      }
      assert done == added;
    }

    /** The second inner loop: in any order of the names. */
    method DeleteAll(added: map<string, Metadata>)
      modifies this`delete, this`resources
      ensures resources == old(resources) - Deleted(old(resources), added)
      ensures delete == old(delete) + |Deleted(old(resources), added)|
    {
      ghost var before := resources;
      ghost var gone: set<string> := {};
      var rest := resources.Keys;
      while rest != {}
        invariant rest <= before.Keys
        invariant forall name :: name in gone <==> name in before && name !in rest && name !in added
        invariant resources == before - gone
        invariant delete == old(delete) + |gone|
        decreases rest
      {
        var name :| name in rest;
        if name !in added {
          delete := delete + 1;
          resources := resources - {name};
          gone := gone + {name};
        }
        rest := rest - {name};
      }
      assert gone == Deleted(before, added);
    }

    /** The map built from the objects of a change. */
    static method ByName(objects: seq<Metadata>) returns (added: map<string, Metadata>)
      ensures added == Latest(objects)
    {
      added := map[];
      assert objects[..|objects|] == objects;
      for i := 0 to |objects|
        invariant added == Latest(objects[..i])
      {
        assert objects[..i + 1][..i] == objects[..i];
        added := added[objects[i].name := objects[i]];
      }
    }

    /** What printStats does to the statistics of the collection. */
    method Apply(objects: seq<Metadata>)
      modifies this
      ensures resources == Latest(objects)
      ensures View() == Counted(old(View()), old(resources), Latest(objects))
    {
      hide Latest, Added, Readded, Updated, Deleted;
      apply := apply + 1;
      var added := ByName(objects);
      AddAll(added);
      KeysAfter(old(resources), added);
      DeleteAll(added);
    }
  }

  lemma KeysAfter(before: map<string, Metadata>, added: map<string, Metadata>)
    ensures Deleted(before + added, added) == Deleted(before, added)
    ensures before + added - Deleted(before, added) == added
  {
  }

  lemma AddedNext(before: map<string, Metadata>, done: map<string, Metadata>, name: string, metadata: Metadata)
    requires name !in done
    ensures |Added(before, done[name := metadata])| == |Added(before, done)| + if name in before then 0 else 1
  {
    var now := Added(before, done[name := metadata]);
    if name in before {
      assert now == Added(before, done);
    } else {
      assert now == Added(before, done) + {name};
    }
  }

  lemma ReaddedNext(before: map<string, Metadata>, done: map<string, Metadata>, name: string, metadata: Metadata)
    requires name !in done
    ensures |Readded(before, done[name := metadata])|
         == |Readded(before, done)| + if name in before && metadata.version == before[name].version then 1 else 0
  {
    var now := Readded(before, done[name := metadata]);
    if name in before && metadata.version == before[name].version {
      assert now == Readded(before, done) + {name};
    } else {
      assert now == Readded(before, done);
    }
  }

  lemma UpdatedNext(before: map<string, Metadata>, done: map<string, Metadata>, name: string, metadata: Metadata)
    requires name !in done
    ensures |Updated(before, done[name := metadata])|
         == |Updated(before, done)| + if name in before && metadata.version != before[name].version then 1 else 0
  {
    var now := Updated(before, done[name := metadata]);
    if name in before && metadata.version != before[name].version {
      assert now == Updated(before, done) + {name};
    } else {
      assert now == Updated(before, done);
    }
  }

  lemma NothingDone(before: map<string, Metadata>)
    ensures Added(before, map[]) == Readded(before, map[]) == Updated(before, map[]) == {}
  {
  }

  /** The collections that are watched; a change to any other is only reported. */
  class Updater {
    const stats: map<string, Stat>
    var totalApply: nat

    constructor (stats: map<string, Stat>)
      ensures this.stats == stats && totalApply == 0
    {
      this.stats, totalApply := stats, 0;
    }

    ghost predicate Valid() {
      forall c, d :: c in stats && d in stats && c != d ==> stats[c] != stats[d]
    }

    method PrintStats(ch: Change)
      requires Valid()
      modifies this, if ch.collection in stats then {stats[ch.collection]} else {}
      ensures totalApply == old(totalApply) + if ch.collection in stats then 1 else 0
      ensures ch.collection in stats ==>
                && stats[ch.collection].resources == Latest(ch.objects)
                && stats[ch.collection].View()
                   == Counted(old(stats[ch.collection].View()), old(stats[ch.collection].resources), Latest(ch.objects))
      ensures forall c :: c in stats && c != ch.collection ==>
                stats[c].View() == old(stats[c].View()) && stats[c].resources == old(stats[c].resources)
    {
      if ch.collection !in stats {
        return;
      }
      totalApply := totalApply + 1;
      stats[ch.collection].Apply(ch.objects);
    }
  }

  /** A collection fed with any changes holds the resources and counters of TotalsBalance. */
  method Feed(changes: seq<seq<Metadata>>) returns (stat: Stat)
    ensures stat.resources == Resources(changes)
    ensures stat.View() == Totals(changes)
    ensures stat.add - stat.delete == |stat.resources|
  {
    stat := new Stat();
    assert changes[..|changes|] == changes;
    for i := 0 to |changes|
      invariant fresh(stat)
      invariant stat.resources == Resources(changes[..i]) && stat.View() == Totals(changes[..i])
    {
      assert changes[..i + 1][..i] == changes[..i];
      stat.Apply(changes[i]);
    }
    TotalsBalance(changes);
    assert |stat.resources| == |stat.resources.Keys|;
  }
}
