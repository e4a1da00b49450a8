/**
 istioctl/cmd/kubeuninject.go: removing an injected sidecar from a pod template.  Of a
 container or volume only the name matters here, the rest is carried along.
 */
module Uninject {
  import opened Wire
  import opened Strings

  const ANNOTATION_POLICY := "sidecar.istio.io/inject"
  const SIDECAR_PREFIX := "sidecar.istio.io"
  const PROXY := "istio-proxy"
  const INIT := "istio-init"
  const CORE_DUMP := "enable-core-dump"
  const ENVOY_VOLUME := "istio-envoy"
  const CERT_VOLUME := "istio-certs"

  /** A container or a volume. */
  datatype Item = Item(name: string, rest: string)

  // ------------------------------------------------------------- the first item of a name

  function RemoveFirst(items: seq<Item>, name: string): seq<Item> {
    if items == [] then []
    else if items[0].name == name then items[1..]
    else [items[0]] + RemoveFirst(items[1..], name)
  }

  function Count(items: seq<Item>, name: string): nat {
    if items == [] then 0 else (if items[0].name == name then 1 else 0) + Count(items[1..], name)
  }

  function Others(items: seq<Item>, name: string): seq<Item> {
    if items == [] then []
    else if items[0].name == name then Others(items[1..], name)
    else [items[0]] + Others(items[1..], name)
  }

  /** Items of other names stay, in order; of `name` one is gone. */
  lemma {:induction false} RemoveFirstExact(items: seq<Item>, name: string)
    ensures Others(RemoveFirst(items, name), name) == Others(items, name)
    ensures Count(RemoveFirst(items, name), name) == if Count(items, name) == 0 then 0 else Count(items, name) - 1
    ensures |RemoveFirst(items, name)| == if Count(items, name) == 0 then |items| else |items| - 1
  {
    if items != [] && items[0].name != name {
      RemoveFirstExact(items[1..], name);
      var r := RemoveFirst(items, name);
      assert r[0] == items[0] && r[1..] == RemoveFirst(items[1..], name);
    }
  }

  /** Where the name occurs at most once, removing the first is removing all. */
  lemma {:induction false} RemoveFirstIsFilter(items: seq<Item>, name: string)
    ensures Count(items, name) <= 1 <==> RemoveFirst(items, name) == Others(items, name)
    ensures Count(items, name) == 0 <==> Others(items, name) == items
  {
    OthersLength(items, name);
    RemoveFirstExact(items, name);
    if items != [] {
      RemoveFirstIsFilter(items[1..], name);
      assert items == [items[0]] + items[1..];
    }
  }

  lemma {:induction false} OthersLength(items: seq<Item>, name: string)
    ensures |Others(items, name)| == |items| - Count(items, name)
  {
    if items != [] {
      OthersLength(items[1..], name);
    }
  }

  lemma {:induction false} CountIsIn(items: seq<Item>, name: string)
    ensures Count(items, name) > 0 <==> exists item :: item in items && item.name == name
  {
    if items != [] {
      CountIsIn(items[1..], name);
      assert items == [items[0]] + items[1..];
    }
  }

  lemma {:induction false} RemoveAt(items: seq<Item>, name: string, index: nat)
    requires index < |items| && items[index].name == name
    requires forall k :: 0 <= k < index ==> items[k].name != name
    ensures RemoveFirst(items, name) == items[..index] + items[index + 1..]
  {
    if index > 0 {
      RemoveAt(items[1..], name, index - 1);
      assert items[..index] == [items[0]] + items[1..][..index - 1];
      assert items[1..][index..] == items[index + 1..];
    }
  }

  lemma {:induction false} NotFound(items: seq<Item>, name: string)
    requires forall k :: 0 <= k < |items| ==> items[k].name != name
    ensures RemoveFirst(items, name) == items
  {
    if items != [] {
      NotFound(items[1..], name);
      assert items == [items[0]] + items[1..];
    }
  }

  /** removeInjectedContainers and removeInjectedVolumes. */
  method RemoveInjected(items: seq<Item>, name: string) returns (r: seq<Item>)
    ensures r == RemoveFirst(items, name)
  {
    r := items;
    for index := 0 to |items|
      invariant r == items
      invariant forall k :: 0 <= k < index ==> items[k].name != name
    {
      if items[index].name == name {
        if index < |items| - 1 {
          r := items[..index] + items[index + 1..];
        } else {
          r := items[..index];
        }
        RemoveAt(items, name, index);
        assert index == |items| - 1 ==> items[..index] + items[index + 1..] == items[..index];
        return;
      }
    }
    NotFound(items, name);
  }

  // ------------------------------------------------------------------ DNS search domains

  function LocalSearches(searches: seq<string>): seq<string> {
    if searches == [] then []
    else (if Contains(searches[0], "global") then [] else [searches[0]]) + LocalSearches(searches[1..])
  }

  lemma {:induction false} LocalSearchesRemove(searches: seq<string>, index: nat)
    requires index < |searches| && Contains(searches[index], "global")
    ensures LocalSearches(searches[..index] + searches[index + 1..]) == LocalSearches(searches)
  {
    var r := searches[..index] + searches[index + 1..];
    if index == 0 {
      assert r == searches[1..];
    } else {
      LocalSearchesRemove(searches[1..], index - 1);
      assert r[0] == searches[0] && r[1..] == searches[1..][..index - 1] + searches[1..][index..];
    }
  }

  lemma {:induction false} NoneGlobal(searches: seq<string>)
    ensures forall s :: s in LocalSearches(searches) ==> !Contains(s, "global")
  {
    if searches != [] {
      NoneGlobal(searches[1..]);
      hide Contains;
    }
  }

  lemma {:induction false} AllLocal(searches: seq<string>)
    ensures (forall s :: s in searches ==> !Contains(s, "global")) <==> LocalSearches(searches) == searches
  {
    NoneGlobal(searches);
    hide Contains;
    if searches != [] && forall s :: s in searches ==> !Contains(s, "global") {
      AllLocal(searches[1..]);
      assert searches == [searches[0]] + searches[1..];
    }
  }

  class PodDNSConfig {
    var searches: seq<string>

    constructor (searches: seq<string>)
      ensures this.searches == searches
    {
      this.searches := searches;
    }

    /** removeDNSConfig: after a deletion the search starts again at the front. */
    method RemoveGlobal()
      modifies this
      ensures searches == LocalSearches(old(searches))
    {
      hide LocalSearches, Contains;
      var l := |searches|;
      var index := 0;
      while index < l
        invariant 0 <= index <= l == |searches|
        invariant LocalSearches(searches) == LocalSearches(old(searches))
        invariant forall k :: 0 <= k < index ==> !Contains(searches[k], "global")
        decreases l, l - index
      {
        var s := searches[index];
        if Contains(s, "global") {
          LocalSearchesRemove(searches, index);
          assert index == |searches| - 1 ==> searches[..index] + searches[index + 1..] == searches[..index];
          if index < |searches| - 1 {
            searches := searches[..index] + searches[index + 1..];
          } else {
            searches := searches[..index];
          }
          index := 0;
          l := |searches|;
        } else {
          index := index + 1;
        }
      }
      AllLocal(searches);
    }
  }

  // ------------------------------------------------------------------------- annotations

  function Annotated(annotations: Option<map<string, string>>): map<string, string> {
    var given := if annotations.Some? then annotations.value else map[];
    (map key | key in given && !Contains(key, SIDECAR_PREFIX) :: given[key])[ANNOTATION_POLICY := "false"]
  }

  method HandleAnnotations(annotations: Option<map<string, string>>) returns (r: map<string, string>)
    ensures r == Annotated(annotations)
  {
    hide Contains;
    r := if annotations.Some? then annotations.value else map[];
    ghost var given := r;
    var rest := r.Keys;
    while rest != {}
      invariant rest <= given.Keys
      invariant r == map key | key in given && (key in rest || !Contains(key, SIDECAR_PREFIX)) :: given[key]
      decreases rest
    {
      var key :| key in rest;
      if Contains(key, SIDECAR_PREFIX) {
        r := r - {key};
      }
      rest := rest - {key};
    }
    r := r[ANNOTATION_POLICY := "false"];
  }

  lemma AnnotatedTwice(annotations: Option<map<string, string>>)
    ensures Annotated(Some(Annotated(annotations))) == Annotated(annotations)
  {
    hide Contains;
  }

  // ------------------------------------------------------------------------ pod templates

  datatype Template = Template(
    annotations: Option<map<string, string>>,
    initContainers: seq<Item>,
    containers: seq<Item>,
    volumes: seq<Item>,
    searches: Option<seq<string>>) // None: no DNS config

  function Uninjected(t: Template): Template {
    var t' := t.(annotations := Some(Annotated(t.annotations)));
    if Count(t.containers, PROXY) == 0 then t'
    else
      t'.(initContainers := RemoveFirst(RemoveFirst(t.initContainers, INIT), CORE_DUMP),
          containers := RemoveFirst(t.containers, PROXY),
          volumes := RemoveFirst(RemoveFirst(t.volumes, ENVOY_VOLUME), CERT_VOLUME),
          searches := if t.searches.Some? then Some(LocalSearches(t.searches.value)) else None)
  }

  /** Uninjecting again changes nothing exactly if there was at most one proxy container. */
  lemma UninjectedTwiceExactly(t: Template)
    ensures Uninjected(Uninjected(t)) == Uninjected(t) <==> Count(t.containers, PROXY) <= 1
  {
    AnnotatedTwice(t.annotations);
    RemoveFirstExact(t.containers, PROXY);
    RemoveFirstExact(RemoveFirst(t.containers, PROXY), PROXY);
    hide Annotated, LocalSearches, RemoveFirst, Count;
  }

  /** The annotations of the sidecar go and its policy is set, whatever the containers are. */
  lemma AnnotationsExactly(t: Template, key: string)
    ensures var before, after := t.annotations, Uninjected(t).annotations;
            && after.Some?
            && (key == ANNOTATION_POLICY ==> key in after.value && after.value[key] == "false")
            && (key != ANNOTATION_POLICY ==>
                  && (key in after.value <==> before.Some? && key in before.value && !Contains(key, SIDECAR_PREFIX))
                  && (key in after.value ==> after.value[key] == before.value[key]))
  {
    hide Contains;
  }

  /** With the injector's names used at most once each: if there is a proxy container,
      nothing of the sidecar is left and nothing else is gone; if there is none, only the
      annotations change. */
  lemma UninjectedExactly(t: Template)
    requires Count(t.containers, PROXY) <= 1
    requires Count(t.initContainers, INIT) <= 1 && Count(t.initContainers, CORE_DUMP) <= 1
    requires Count(t.volumes, ENVOY_VOLUME) <= 1 && Count(t.volumes, CERT_VOLUME) <= 1
    ensures var r := Uninjected(t);
            if Count(t.containers, PROXY) == 0 then r == t.(annotations := r.annotations)
            else
              && r.containers == Others(t.containers, PROXY)
              && r.initContainers == Others(Others(t.initContainers, INIT), CORE_DUMP)
              && r.volumes == Others(Others(t.volumes, ENVOY_VOLUME), CERT_VOLUME)
              && Count(r.containers, PROXY) == 0
              && Count(r.initContainers, INIT) == 0 && Count(r.initContainers, CORE_DUMP) == 0
              && Count(r.volumes, ENVOY_VOLUME) == 0 && Count(r.volumes, CERT_VOLUME) == 0
              && (r.searches.Some? <==> t.searches.Some?)
              && (r.searches.Some? ==> r.searches.value == LocalSearches(t.searches.value)
                                       && forall s :: s in r.searches.value ==> !Contains(s, "global"))
    ensures forall key :: key in Uninjected(t).annotations.value && key != ANNOTATION_POLICY ==> !Contains(key, SIDECAR_PREFIX)
  {
    hide Contains;
    if t.searches.Some? {
      NoneGlobal(t.searches.value);
    }
    RemoveFirstIsFilter(t.containers, PROXY);
    RemoveFirstExact(t.containers, PROXY);
    BothRemoved(t.initContainers, INIT, CORE_DUMP);
    BothRemoved(t.volumes, ENVOY_VOLUME, CERT_VOLUME);
  }

  lemma BothRemoved(items: seq<Item>, name: string, name': string)
    requires name != name' && Count(items, name) <= 1 && Count(items, name') <= 1
    ensures var r := RemoveFirst(RemoveFirst(items, name), name');
            r == Others(Others(items, name), name') && Count(r, name) == 0 && Count(r, name') == 0
  {
    RemoveFirstIsFilter(items, name);
    CountOthers(items, name, name');
    CountOthers(items, name, name);
    RemoveFirstIsFilter(Others(items, name), name');
    RemoveFirstExact(Others(items, name), name');
    CountOthers(Others(items, name), name', name);
  }

  lemma {:induction false} CountOthers(items: seq<Item>, name: string, name': string)
    ensures Count(Others(items, name), name') == if name' == name then 0 else Count(items, name')
  {
    if items != [] {
      CountOthers(items[1..], name, name');
      assert items[0].name != name ==> Others(items, name)[1..] == Others(items[1..], name);
    }
  }

  /** The pod template that extractObject has found in the object, updated in place. */
  class PodTemplate {
    var annotations: Option<map<string, string>>
    var initContainers: seq<Item>
    var containers: seq<Item>
    var volumes: seq<Item>
    const dnsConfig: Option<PodDNSConfig>

    function View(): Template
      reads this, if dnsConfig.Some? then {dnsConfig.value} else {}
    {
      Template(annotations, initContainers, containers, volumes,
               if dnsConfig.Some? then Some(dnsConfig.value.searches) else None)
    }

    constructor (annotations: Option<map<string, string>>, initContainers: seq<Item>, containers: seq<Item>,
                 volumes: seq<Item>, dnsConfig: Option<PodDNSConfig>)
      ensures this.dnsConfig == dnsConfig
      ensures View() == Template(annotations, initContainers, containers, volumes,
                                 if dnsConfig.Some? then Some(dnsConfig.value.searches) else None)
    {
      this.annotations, this.initContainers, this.containers := annotations, initContainers, containers;
      this.volumes, this.dnsConfig := volumes, dnsConfig;
    }

    /** The rest of extractObject. */
    method Extract()
      modifies this, if dnsConfig.Some? then {dnsConfig.value} else {}
      ensures View() == Uninjected(old(View()))
    {
      hide Annotated, LocalSearches, RemoveFirst;
      var handled := HandleAnnotations(annotations);
      annotations := Some(handled);
      var sidecarInjected := HasProxy();
      if !sidecarInjected {
        return;
      }
      initContainers := RemoveInjected(initContainers, INIT);
      initContainers := RemoveInjected(initContainers, CORE_DUMP);
      containers := RemoveInjected(containers, PROXY);
      volumes := RemoveInjected(volumes, ENVOY_VOLUME);
      volumes := RemoveInjected(volumes, CERT_VOLUME);
      if dnsConfig.Some? {
        dnsConfig.value.RemoveGlobal();
      }
    }

    method HasProxy() returns (sidecarInjected: bool)
      ensures sidecarInjected <==> Count(containers, PROXY) > 0
    {
      sidecarInjected := false;
      for i := 0 to |containers|
        invariant sidecarInjected <==> exists item :: item in containers[..i] && item.name == PROXY
      {
        if containers[i].name == PROXY {
          sidecarInjected := true;
        }
        assert containers[..i + 1] == containers[..i] + [containers[i]];
      }
      assert containers[..|containers|] == containers;
      CountIsIn(containers, PROXY);
    }
  }
}
