/**
 istioctl/pkg/multicluster/apply.go: updateRemoteSecret, which brings a secret read from
 an API server up to date in place.  A map that is nil in Go is None.
 */
module RemoteSecret {
  import opened Wire

  const CONTEXT_ANNOTATION := "istio.io/clusterContext"
  const LABEL := "istio/multiCluster"

  type GoMap = Option<map<string, string>>

  /** m[key] in Go: the zero value, here the empty string, when the key or the map is missing. */
  function At(m: GoMap, key: string): string {
    if m.Some? && key in m.value then m.value[key] else ""
  }

  /** The parts of a secret that apply compares and writes; data values as their bytes. */
  datatype Stored = Stored(data: GoMap, annotations: GoMap, labels: GoMap)

  predicate IsLabelled(s: Stored) {
    At(s.labels, LABEL) == "true"
  }

  // ------------------------------------------------------------- what an update must do

  /** The keys among `keys` whose value has to be written. */
  function Stale(data: GoMap, stringData: map<string, string>, keys: set<string>): set<string> {
    set k | k in keys && k in stringData && At(data, k) != stringData[k]
  }

  function Overlaid(m: map<string, string>, stringData: map<string, string>, keys: set<string>): map<string, string>
    requires keys <= stringData.Keys
  {
    m + map k | k in keys :: stringData[k]
  }

  function Merged(data: GoMap, stringData: map<string, string>, keys: set<string>): GoMap
    requires Stale(data, stringData, keys) != {} ==> data.Some?
  {
    var stale := Stale(data, stringData, keys);
    if stale == {} then data else Some(Overlaid(data.value, stringData, stale))
  }

  /** m[key] = value, unless it is there already. */
  function Put(m: GoMap, key: string, value: string): GoMap
    requires At(m, key) != value ==> m.Some?
  {
    if At(m, key) == value then m else Some(m.value[key := value])
  }

  /** No map that has to be written is nil: writing to a nil map panics. */
  predicate CanUpdate(prev: Stored, curr: Stored, stringData: map<string, string>) {
    && (prev.data.None? ==> forall k :: k in stringData ==> stringData[k] == "")
    && (prev.annotations.None? ==> At(curr.annotations, CONTEXT_ANNOTATION) == "")
    && prev.labels.Some?
  }

  function Updated(prev: Stored, curr: Stored, stringData: map<string, string>): Stored
    requires CanUpdate(prev, curr, stringData)
  {
    Stored(Merged(prev.data, stringData, stringData.Keys),
           Put(prev.annotations, CONTEXT_ANNOTATION, At(curr.annotations, CONTEXT_ANNOTATION)),
           Put(prev.labels, LABEL, "true"))
  }

  /** The string data, the context annotation and the label are as wanted, everything else
      is as it was. */
  lemma UpdatedExact(prev: Stored, curr: Stored, stringData: map<string, string>, k: string)
    requires CanUpdate(prev, curr, stringData)
    ensures var r := Updated(prev, curr, stringData);
            && At(r.data, k) == (if k in stringData then stringData[k] else At(prev.data, k))
            && At(r.annotations, k) == At(if k == CONTEXT_ANNOTATION then curr.annotations else prev.annotations, k)
            && At(r.labels, k) == (if k == LABEL then "true" else At(prev.labels, k))
  {
    if k in stringData && At(prev.data, k) != stringData[k] {
      assert k in Stale(prev.data, stringData, stringData.Keys);
    }
  }

  /** A second update can be done and finds nothing to do. */
  lemma UpdatedTwice(prev: Stored, curr: Stored, stringData: map<string, string>)
    requires CanUpdate(prev, curr, stringData)
    ensures var r := Updated(prev, curr, stringData);
            CanUpdate(r, curr, stringData) && Updated(r, curr, stringData) == r
  {
    var r := Updated(prev, curr, stringData);
    UpdatedExact(prev, curr, stringData, CONTEXT_ANNOTATION);
    UpdatedExact(prev, curr, stringData, LABEL);
    forall k
      ensures k in stringData ==> At(r.data, k) == stringData[k]
    {
      UpdatedExact(prev, curr, stringData, k);
    }
    assert Stale(r.data, stringData, stringData.Keys) == {};
  }

  /** A secret made by hand, with the label and no annotations, makes the update panic. */
  lemma LabelledSecretCanPanic(context: string)
    requires context != ""
    ensures var byHand := Stored(Some(map[]), None, Some(map[LABEL := "true"]));
            var curr := Stored(Some(map[]), Some(map[CONTEXT_ANNOTATION := context]), Some(map[LABEL := "true"]));
            IsLabelled(byHand) && !CanUpdate(byHand, curr, map[])
  {
  }

  // -------------------------------------------------------------------------- the object

  datatype Outcome = Panicked | Done(changed: bool)

  class Secret {
    var data: GoMap
    var annotations: GoMap
    var labels: GoMap
    var stringData: map<string, string>

    function Value(): Stored
      reads this
    {
      Stored(data, annotations, labels)
    }

    constructor (value: Stored, stringData: map<string, string>)
      ensures Value() == value && this.stringData == stringData
    {
      data, annotations, labels := value.data, value.annotations, value.labels;
      this.stringData := stringData;
    }

    /** The loop over the string data, in any order; it stops at a write to nil data. */
    method MergeStringData(stringData: map<string, string>) returns (r: Outcome)
      modifies this`data
      ensures r == Panicked <==> old(data).None? && Stale(old(data), stringData, stringData.Keys) != {}
      ensures r.Done? ==>
                && data == Merged(old(data), stringData, stringData.Keys)
                && (r.changed <==> Stale(old(data), stringData, stringData.Keys) != {})
    {
      ghost var before := data;
      var changed, rest := false, stringData.Keys;
      ghost var done: set<string> := {};
      while rest != {}
        invariant done + rest == stringData.Keys && done !! rest
        invariant Stale(before, stringData, done) != {} ==> before.Some?
        invariant data == Merged(before, stringData, done)
        invariant changed <==> Stale(before, stringData, done) != {}
        decreases rest
      {
        var k :| k in rest;
        var newVal := stringData[k];
        StaleNext(before, stringData, done, k);
        if At(data, k) != newVal {
          if data.None? {
            return Panicked;
          }
          data := Some(data.value[k := newVal]);
          changed := true;
        }
        done, rest := done + {k}, rest - {k};
      }
      assert done == stringData.Keys;
      return Done(changed);
    }

    /** updateRemoteSecret(this, curr). */
    method Update(curr: Secret) returns (r: Outcome)
      requires this != curr
      modifies this
      ensures r == Panicked <==> !CanUpdate(old(Value()), curr.Value(), curr.stringData)
      ensures r.Done? ==>
                && Value() == Updated(old(Value()), curr.Value(), curr.stringData)
                && (r.changed <==> Value() != old(Value()))
                && stringData == curr.stringData
    {
      StaleInNil(data, curr.stringData);
      hide Merged, Stale;
      stringData := curr.stringData;
      r := MergeStringData(curr.stringData);
      if r.Panicked? {
        return;
      }
      MergedChanges(old(data), curr.stringData);
      var changed := r.changed;
      var context := At(curr.annotations, CONTEXT_ANNOTATION);
      if At(annotations, CONTEXT_ANNOTATION) != context {
        if annotations.None? {
          return Panicked;
        }
        annotations := Some(annotations.value[CONTEXT_ANNOTATION := context]);
        changed := true;
      }
      if At(labels, LABEL) != "true" {
        if labels.None? {
          return Panicked;
        }
        labels := Some(labels.value[LABEL := "true"]);
        changed := true;
      }
      return Done(changed);
    }
  }

  lemma StaleNext(data: GoMap, stringData: map<string, string>, done: set<string>, k: string)
    requires k in stringData && k !in done
    requires Stale(data, stringData, done) != {} ==> data.Some?
    ensures At(Merged(data, stringData, done), k) == At(data, k)
    ensures Stale(data, stringData, done + {k})
         == if At(data, k) == stringData[k] then Stale(data, stringData, done) else Stale(data, stringData, done) + {k}
    ensures At(data, k) != stringData[k] && data.Some? ==>
              && Merged(data, stringData, done).Some?
              && Merged(data, stringData, done + {k}) == Some(Merged(data, stringData, done).value[k := stringData[k]])
    ensures At(data, k) == stringData[k] ==> Merged(data, stringData, done + {k}) == Merged(data, stringData, done)
    ensures data.None? ==> Merged(data, stringData, done).None?
    ensures At(data, k) != stringData[k] ==> k in Stale(data, stringData, stringData.Keys)
  {
    var was := Stale(data, stringData, done);
    StaleAdd(data, stringData, done, k);
    if data.Some? {
      OverlaidAdd(data.value, stringData, was, k);
    }
    hide Stale, Overlaid;
  }

  lemma StaleAdd(data: GoMap, stringData: map<string, string>, done: set<string>, k: string)
    requires k in stringData && k !in done
    ensures k !in Stale(data, stringData, done)
    ensures Stale(data, stringData, done + {k})
         == if At(data, k) == stringData[k] then Stale(data, stringData, done) else Stale(data, stringData, done) + {k}
    ensures At(data, k) != stringData[k] ==> k in Stale(data, stringData, stringData.Keys)
  {
  }

  lemma OverlaidAdd(m: map<string, string>, stringData: map<string, string>, keys: set<string>, k: string)
    requires keys <= stringData.Keys && k in stringData && k !in keys
    ensures At(Some(Overlaid(m, stringData, keys)), k) == At(Some(m), k)
    ensures Overlaid(m, stringData, keys + {k}) == Overlaid(m, stringData, keys)[k := stringData[k]]
    ensures Overlaid(m, stringData, {}) == m
  {
  }

  lemma StaleInNil(data: GoMap, stringData: map<string, string>)
    ensures data.None? ==> (Stale(data, stringData, stringData.Keys) == {} <==> forall k :: k in stringData ==> stringData[k] == "")
  {
    if data.None? && Stale(data, stringData, stringData.Keys) == {} {
      forall k | k in stringData
        ensures stringData[k] == ""
      {
        assert k !in Stale(data, stringData, stringData.Keys);
      }
    }
  }

  lemma MergedChanges(data: GoMap, stringData: map<string, string>)
    requires Stale(data, stringData, stringData.Keys) != {} ==> data.Some?
    ensures Merged(data, stringData, stringData.Keys) == data <==> Stale(data, stringData, stringData.Keys) == {}
  {
    if Stale(data, stringData, stringData.Keys) != {} {
      var k :| k in Stale(data, stringData, stringData.Keys);
      assert At(Merged(data, stringData, stringData.Keys), k) == stringData[k];
    }
  }
}
