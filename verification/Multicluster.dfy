/**
 istioctl/pkg/multicluster/apply.go: reconciling the remote secrets of all clusters of
 a mesh.  The API servers are a map from cluster name to the secrets in its Istio
 namespace; which of their calls fail is a parameter.
 */
module Multicluster {
  import opened Wire
  import opened RemoteSecret

  const REMOTE_SECRET_PREFIX := "istio-remote-secret-"

  function RemoteSecretName(clusterName: string): string {
    REMOTE_SECRET_PREFIX + clusterName
  }

  /** strings.TrimPrefix: a name without the prefix is returned whole. */
  function ClusterNameOf(secretName: string): string {
    if REMOTE_SECRET_PREFIX <= secretName then secretName[|REMOTE_SECRET_PREFIX|..] else secretName
  }

  lemma SecretNameRoundTrip(clusterName: string, secretName: string)
    ensures ClusterNameOf(RemoteSecretName(clusterName)) == clusterName
    ensures REMOTE_SECRET_PREFIX <= secretName <==> RemoteSecretName(ClusterNameOf(secretName)) == secretName
  {
    if RemoteSecretName(ClusterNameOf(secretName)) == secretName {
      assert REMOTE_SECRET_PREFIX <= RemoteSecretName(ClusterNameOf(secretName));
    }
  }

  /** A context of the mesh file; several may lead to one cluster.  `own` is the secret that
      createRemoteSecret makes for it, if it succeeds. */
  datatype Cluster = Cluster(name: string, installed: bool, disableRegistryJoin: bool, own: Option<Stored>)

  predicate Joinable(c: Cluster) {
    c.installed && !c.disableRegistryJoin
  }

  /** The secrets of one cluster, by name. */
  type Server = map<string, Stored>

  /** Which API calls fail: listing a cluster's secrets; getting, updating and adding the
      secret of (local, remote); deleting (cluster, secret). */
  datatype Failures = Failures(
    list: set<string>,
    get: set<(string, string)>,
    update: set<(string, string)>,
    add: set<(string, string)>,
    delete: set<(string, string)>)

  /** The secrets made for the clusters, by name; of several for one cluster the last counts. */
  function Own(clusters: seq<Cluster>): map<string, Stored> {
    if clusters == [] then map[]
    else
      var c, own := clusters[|clusters| - 1], Own(clusters[..|clusters| - 1]);
      if c.installed && c.own.Some? then own[c.name := c.own.value] else own
  }

  /** The clusters, the secrets made for them, and the failures. */
  datatype Mesh = Mesh(clusters: seq<Cluster>, own: map<string, Stored>, fails: Failures)

  function MeshOf(clusters: seq<Cluster>, fails: Failures): Mesh {
    Mesh(clusters, Own(clusters), fails)
  }

  // ------------------------------------------------------------ one call of applySecret

  function Lookup(server: Server, name: string): Option<Stored> {
    if name in server then Some(server[name]) else None
  }

  predicate Found(m: Mesh, local: string, remote: string, entry: Option<Stored>) {
    entry.Some? && (local, remote) !in m.fails.get
  }

  /** The update of an existing secret writes to a nil map. */
  predicate PairPanics(m: Mesh, local: string, remote: string, entry: Option<Stored>) {
    remote in m.own && Found(m, local, remote, entry) && !CanUpdate(entry.value, m.own[remote], map[])
  }

  /** The call returns an error; adding a secret that exists is one. */
  predicate PairFails(m: Mesh, local: string, remote: string, entry: Option<Stored>)
    requires remote in m.own && !PairPanics(m, local, remote, entry)
  {
    if Found(m, local, remote, entry)
    then Updated(entry.value, m.own[remote], map[]) != entry.value && (local, remote) in m.fails.update
    else entry.Some? || (local, remote) in m.fails.add
  }

  /** What is on the server afterwards. */
  function AfterApply(m: Mesh, local: string, remote: string, entry: Option<Stored>): Option<Stored> {
    if remote !in m.own || PairPanics(m, local, remote, entry) || PairFails(m, local, remote, entry) then entry
    else if entry.Some? then Some(Updated(entry.value, m.own[remote], map[]))
    else Some(m.own[remote])
  }

  // --------------------------------------------------- the result, secret name by name

  function Names(clusters: seq<Cluster>): set<string> {
    set c | c in clusters :: c.name
  }

  function JoinableNames(clusters: seq<Cluster>): set<string> {
    set c | c in clusters && Joinable(c) :: c.name
  }

  /** Some own secret could not be created. */
  predicate CreateFailed(clusters: seq<Cluster>) {
    exists c :: c in clusters && c.installed && c.own.None?
  }

  /** The clusters whose secret belongs into cluster `local`. */
  function Partners(m: Mesh, local: string): set<string> {
    if local in JoinableNames(m.clusters)
    then (JoinableNames(m.clusters) - {local}) * m.own.Keys
    else {}
  }

  function Target(m: Mesh, local: string): set<string> {
    set r | r in Partners(m, local) :: RemoteSecretName(r)
  }

  /** What joining with `remotes` makes of the secret of a name. */
  function Joined(m: Mesh, local: string, server: Server, remotes: set<string>, name: string): Option<Stored> {
    if REMOTE_SECRET_PREFIX <= name && ClusterNameOf(name) in remotes
    then AfterApply(m, local, ClusterNameOf(name), Lookup(server, name))
    else Lookup(server, name)
  }

  function Labelled(server: Server): set<string> {
    set n | n in server && IsLabelled(server[n])
  }

  /** The labelled secrets, in the order in which the server lists them. */
  ghost predicate IsListing(listing: seq<string>, server: Server) {
    forall n :: n in listing <==> n in Labelled(server)
  }

  /** The last secret listed for a cluster. */
  function LastFor(listing: seq<string>, cluster: string): Option<string> {
    if listing == [] then None
    else if ClusterNameOf(listing[|listing| - 1]) == cluster then Some(listing[|listing| - 1])
    else LastFor(listing[..|listing| - 1], cluster)
  }

  /** For every cluster that is no partner the last labelled secret listed for it. */
  function Leftover(m: Mesh, local: string, listing: seq<string>): set<string> {
    if local in m.own && local !in m.fails.list
    then set n | n in listing && ClusterNameOf(n) !in Partners(m, local) && LastFor(listing, ClusterNameOf(n)) == Some(n)
    else {}
  }

  /** The secret of a name after apply. */
  function Reconciled(m: Mesh, local: string, server: Server, listing: seq<string>, name: string): Option<Stored> {
    if name in Leftover(m, local, listing) && (local, name) !in m.fails.delete then None
    else Joined(m, local, server, Partners(m, local), name)
  }

  lemma {:induction false} LastForIsListed(listing: seq<string>, cluster: string)
    ensures var n := LastFor(listing, cluster);
            && (n.Some? ==> n.value in listing && ClusterNameOf(n.value) == cluster)
            && (n.None? ==> forall x :: x in listing ==> ClusterNameOf(x) != cluster)
  {
    if listing != [] {
      LastForIsListed(listing[..|listing| - 1], cluster);
      assert listing == listing[..|listing| - 1] + [listing[|listing| - 1]];
    }
  }

  /** Some call of applySecret would panic. */
  ghost predicate Crashes(m: Mesh, servers: map<string, Server>) {
    exists l, r :: l in servers && r in Partners(m, l) && PairPanics(m, l, r, Lookup(servers[l], RemoteSecretName(r)))
  }

  lemma {:induction false} LastForExactly(listing: seq<string>, cluster: string, n: string)
    ensures LastFor(listing, cluster) == Some(n) <==>
            exists i :: 0 <= i < |listing| && listing[i] == n && ClusterNameOf(n) == cluster && NoLater(listing, i, cluster)
  {
    hide ClusterNameOf;
    if listing != [] {
      var init, last := listing[..|listing| - 1], |listing| - 1;
      LastForExactly(init, cluster, n);
      forall i | 0 <= i < last
        ensures init[i] == listing[i]
        ensures NoLater(listing, i, cluster) <==> NoLater(init, i, cluster) && ClusterNameOf(listing[last]) != cluster
      {
        assert forall j :: i < j < last ==> init[j] == listing[j];
      }
      if ClusterNameOf(listing[last]) == cluster {
        assert NoLater(listing, last, cluster);
      }
    }
  }

  predicate NoLater(listing: seq<string>, i: nat, cluster: string) {
    forall j :: i < j < |listing| ==> ClusterNameOf(listing[j]) != cluster
  }

  ghost predicate AllPrefixed(server: Server) {
    forall n :: n in Labelled(server) ==> REMOTE_SECRET_PREFIX <= n
  }

  /** No two labelled secrets are for the same cluster that is no partner; true when all
      carry the prefix. */
  ghost predicate OnePerOther(m: Mesh, local: string, server: Server) {
    forall x, y | x in Labelled(server) && y in Labelled(server) ::
      ClusterNameOf(x) == ClusterNameOf(y) && ClusterNameOf(x) !in Partners(m, local) ==> x == y
  }

  lemma PrefixedIsOnePerOther(m: Mesh, local: string, server: Server)
    requires AllPrefixed(server)
    ensures OnePerOther(m, local, server)
  {
    hide Partners;
    forall x, y | x in Labelled(server) && y in Labelled(server) && ClusterNameOf(x) == ClusterNameOf(y)
      ensures x == y
    {
      SecretNameRoundTrip("", x);
      SecretNameRoundTrip("", y);
    }
  }

  /** createRemoteServiceAccountSecret labels every secret it makes. */
  ghost predicate OwnLabelled(m: Mesh) {
    forall r :: r in m.own ==> IsLabelled(m.own[r])
  }

  /** The calls that concern one cluster do what they are meant to. */
  ghost predicate CallsSucceed(m: Mesh, local: string, server: Server) {
    && local !in m.fails.list
    && (forall r :: r in Partners(m, local) ==>
          var entry := Lookup(server, RemoteSecretName(r));
          !PairPanics(m, local, r, entry) && !PairFails(m, local, r, entry))
    && (forall n :: n in Labelled(server) && ClusterNameOf(n) !in Partners(m, local) ==> (local, n) !in m.fails.delete)
  }

  predicate HasLabel(entry: Option<Stored>) {
    entry.Some? && IsLabelled(entry.value)
  }

  lemma PartnersAreOwn(m: Mesh, local: string)
    ensures Partners(m, local) <= m.own.Keys
  {
  }

  lemma AppliedIsLabelled(m: Mesh, local: string, remote: string, entry: Option<Stored>)
    requires OwnLabelled(m) && remote in m.own
    requires !PairPanics(m, local, remote, entry) && !PairFails(m, local, remote, entry)
    ensures HasLabel(AfterApply(m, local, remote, entry))
  {
  }

  /** Of a cluster that is no partner nothing but the last secret listed is touched. */
  lemma OthersAre(m: Mesh, local: string, server: Server, listing: seq<string>, name: string)
    requires IsListing(listing, server) && ClusterNameOf(name) !in Partners(m, local)
    ensures Reconciled(m, local, server, listing, name)
         == if local in m.own && local !in m.fails.list && (local, name) !in m.fails.delete && name in Labelled(server) &&
               LastFor(listing, ClusterNameOf(name)) == Some(name)
            then None
            else Lookup(server, name)
  {
    hide Partners, ClusterNameOf, LastFor, AfterApply;
  }

  lemma OnlyOneIsLast(m: Mesh, local: string, server: Server, listing: seq<string>, name: string)
    requires IsListing(listing, server) && OnePerOther(m, local, server)
    requires name in Labelled(server) && ClusterNameOf(name) !in Partners(m, local)
    ensures LastFor(listing, ClusterNameOf(name)) == Some(name)
  {
    LastForIsListed(listing, ClusterNameOf(name));
    hide Partners, ClusterNameOf, LastFor;
  }

  /** Where the calls concerning one cluster succeed, its labelled secrets are exactly
      those of its partners; creating the own secrets of other clusters may still fail. */
  lemma ReconciledIsTarget(m: Mesh, local: string, server: Server, listing: seq<string>, name: string)
    requires local in m.own && AllPrefixed(server) && OwnLabelled(m)
    requires IsListing(listing, server) && CallsSucceed(m, local, server)
    ensures HasLabel(Reconciled(m, local, server, listing, name)) <==> name in Target(m, local)
  {
    var r, entry := ClusterNameOf(name), Lookup(server, name);
    SecretNameRoundTrip(r, name);
    InTarget(m, local, name);
    PartnersAreOwn(m, local);
    PrefixedIsOnePerOther(m, local, server);
    hide Target, Partners, PairPanics, PairFails, LastFor, OnePerOther;
    if name in Target(m, local) {
      AppliedIsLabelled(m, local, r, entry);
      assert Reconciled(m, local, server, listing, name) == AfterApply(m, local, r, entry);
    } else if name in Labelled(server) {
      OnlyOneIsLast(m, local, server, listing, name);
      OthersAre(m, local, server, listing, name);
    } else {
      assert Joined(m, local, server, Partners(m, local), name) == entry;
      assert !HasLabel(entry);
    }
    hide AfterApply;
  }

  lemma InTarget(m: Mesh, local: string, name: string)
    ensures name in Target(m, local) <==> REMOTE_SECRET_PREFIX <= name && ClusterNameOf(name) in Partners(m, local)
  {
    SecretNameRoundTrip("", name);
    forall r | RemoteSecretName(r) == name
      ensures ClusterNameOf(name) == r
    {
      SecretNameRoundTrip(r, name);
    }
    hide Partners;
    if REMOTE_SECRET_PREFIX <= name && ClusterNameOf(name) in Partners(m, local) {
      assert RemoteSecretName(ClusterNameOf(name)) in Target(m, local);
    }
  }

  /** The target in terms of names: the other clusters with an installed and join-enabled
      context and a secret, provided this one has such a context. */
  lemma TargetExact(m: Mesh, local: string, remote: string)
    ensures RemoteSecretName(remote) in Target(m, local)
            <==> && local != remote && remote in m.own
                 && (exists c :: c in m.clusters && c.name == local && Joinable(c))
                 && (exists c :: c in m.clusters && c.name == remote && Joinable(c))
  {
    SecretNameRoundTrip(remote, RemoteSecretName(remote));
    InTarget(m, local, RemoteSecretName(remote));
  }

  /** A cluster has a secret exactly if it could be created in one of its installed contexts. */
  lemma {:induction false} OwnExact(clusters: seq<Cluster>, name: string)
    ensures name in Own(clusters) <==> exists c :: c in clusters && c.name == name && c.installed && c.own.Some?
    ensures name in Own(clusters) ==> exists c :: c in clusters && c.name == name && c.installed && c.own == Some(Own(clusters)[name])
  {
    if clusters != [] {
      OwnExact(clusters[..|clusters| - 1], name);
      assert clusters == clusters[..|clusters| - 1] + [clusters[|clusters| - 1]];
    }
  }

  // ------------------------------------------------------------------ applying it again

  ghost predicate IsReconciled(m: Mesh, local: string, server: Server, listing: seq<string>, after: Server) {
    forall n :: Lookup(after, n) == Reconciled(m, local, server, listing, n)
  }

  /** Applying a second time, with the same failures, does not panic where the first time
      did not, and changes nothing if there were no two secrets for one departed cluster. */
  lemma ReconciledIdempotent(m: Mesh, local: string, server: Server, listing: seq<string>, after: Server, listing': seq<string>, name: string)
    requires OwnLabelled(m) && IsListing(listing, server) && IsListing(listing', after)
    requires IsReconciled(m, local, server, listing, after)
    requires OnePerOther(m, local, server)
    ensures Reconciled(m, local, after, listing', name) == Lookup(after, name)
  {
    var r := ClusterNameOf(name);
    assert Lookup(after, name) == Reconciled(m, local, server, listing, name);
    if r in Partners(m, local) {
      AppliedTwice(m, local, r, Lookup(server, name));
    } else {
      OthersAre(m, local, server, listing, name);
      OthersAre(m, local, after, listing', name);
      if name in Labelled(server) {
        OnlyOneIsLast(m, local, server, listing, name);
      }
    }
    hide *;
  }

  lemma PanicsNoMore(m: Mesh, local: string, server: Server, listing: seq<string>, after: Server, r: string)
    requires OwnLabelled(m) && IsReconciled(m, local, server, listing, after) && r in Partners(m, local)
    requires PairPanics(m, local, r, Lookup(after, RemoteSecretName(r)))
    ensures PairPanics(m, local, r, Lookup(server, RemoteSecretName(r)))
  {
    SecretNameRoundTrip(r, RemoteSecretName(r));
    AppliedTwice(m, local, r, Lookup(server, RemoteSecretName(r)));
    hide Partners, AfterApply, PairPanics;
    assert Lookup(after, RemoteSecretName(r)) == Reconciled(m, local, server, listing, RemoteSecretName(r));
  }

  /** Where a secret that is left over can be deleted, applying again changes nothing if and
      only if there were no two labelled secrets for one cluster that is no partner. */
  lemma IdempotentExactly(m: Mesh, local: string, server: Server, listing: seq<string>, after: Server, listing': seq<string>)
    requires OwnLabelled(m) && IsListing(listing, server) && IsListing(listing', after)
    requires IsReconciled(m, local, server, listing, after)
    requires local in m.own && local !in m.fails.list && forall n :: n in Labelled(server) ==> (local, n) !in m.fails.delete
    ensures (forall name :: Reconciled(m, local, after, listing', name) == Lookup(after, name)) <==> OnePerOther(m, local, server)
  {
    if OnePerOther(m, local, server) {
      forall name
        ensures Reconciled(m, local, after, listing', name) == Lookup(after, name)
      {
        ReconciledIdempotent(m, local, server, listing, after, listing', name);
      }
    } else {
      var n := SecondRound(m, local, server, listing, after, listing');
    }
    hide *;
  }

  /** The secret that a second round deletes. */
  lemma SecondRound(m: Mesh, local: string, server: Server, listing: seq<string>, after: Server, listing': seq<string>)
    returns (n: string)
    requires IsListing(listing, server) && IsListing(listing', after)
    requires IsReconciled(m, local, server, listing, after)
    requires local in m.own && local !in m.fails.list && forall n :: n in Labelled(server) ==> (local, n) !in m.fails.delete
    requires !OnePerOther(m, local, server)
    ensures Reconciled(m, local, after, listing', n) == None && n in after
  {
    hide Partners, ClusterNameOf, LastFor, Reconciled, IsLabelled;
    var x, y :| x in Labelled(server) && y in Labelled(server) && ClusterNameOf(x) == ClusterNameOf(y) &&
                ClusterNameOf(x) !in Partners(m, local) && x != y;
    var cluster := ClusterNameOf(x);
    var kept := if LastFor(listing, cluster) == Some(x) then y else x;
    OthersAre(m, local, server, listing, kept);
    assert Lookup(after, kept) == Reconciled(m, local, server, listing, kept);
    assert kept in Labelled(after);
    LastForIsListed(listing', cluster);
    n := LastFor(listing', cluster).value;
    assert Lookup(after, n) == Reconciled(m, local, server, listing, n);
    OthersAre(m, local, server, listing, n);
    OthersAre(m, local, after, listing', n);
  }

  lemma AppliedTwice(m: Mesh, local: string, remote: string, entry: Option<Stored>)
    requires OwnLabelled(m)
    ensures var once := AfterApply(m, local, remote, entry);
            && AfterApply(m, local, remote, once) == once
            && (PairPanics(m, local, remote, once) ==> PairPanics(m, local, remote, entry))
  {
    if remote in m.own {
      if Found(m, local, remote, entry) && CanUpdate(entry.value, m.own[remote], map[]) {
        UpdatedTwice(entry.value, m.own[remote], map[]);
      } else if entry.None? {
        UpdatedOwn(m.own[remote]);
      }
      hide Updated, CanUpdate;
    }
  }

  lemma UpdatedOwn(curr: Stored)
    requires IsLabelled(curr)
    ensures CanUpdate(curr, curr, map[]) && Updated(curr, curr, map[]) == curr
  {
  }

  // ------------------------------------------------------------- failures and contents

  /** A failed call of applySecret leaves that pair's old secret, and it is not pruned. */
  lemma FailedApplyKeepsOldSecret(m: Mesh, local: string, remote: string, server: Server, listing: seq<string>)
    requires remote in Partners(m, local)
    requires var entry := Lookup(server, RemoteSecretName(remote));
             remote in m.own && !PairPanics(m, local, remote, entry) && PairFails(m, local, remote, entry)
    ensures Reconciled(m, local, server, listing, RemoteSecretName(remote)) == Lookup(server, RemoteSecretName(remote))
  {
    SecretNameRoundTrip(remote, RemoteSecretName(remote));
  }

  /** The kubeconfig on the server is the current one exactly if apply has added the
      secret or it was the current one before: contents are never refreshed. */
  lemma ContentsAreCurrentExactly(m: Mesh, local: string, remote: string, server: Server, listing: seq<string>)
    requires remote in Partners(m, local) && Reconciled(m, local, server, listing, RemoteSecretName(remote)).Some?
    ensures remote in m.own
    ensures var name := RemoteSecretName(remote);
            Reconciled(m, local, server, listing, name).value.data == m.own[remote].data
            <==> name !in server || server[name].data == m.own[remote].data
  {
    SecretNameRoundTrip(remote, RemoteSecretName(remote));
    hide CanUpdate;
  }

  /** A mesh of two clusters with secrets for both, in which no call fails. */
  function TwoClusters(curr: Stored): Mesh {
    MeshOf([Cluster("a", true, false, Some(curr)), Cluster("b", true, false, Some(curr))], Failures({}, {}, {}, {}, {}))
  }

  lemma TwoPartners(curr: Stored)
    ensures var m := TwoClusters(curr);
            && m.own == map["a" := curr, "b" := curr] && !CreateFailed(m.clusters)
            && Partners(m, "a") == {"b"} && Partners(m, "b") == {"a"}
  {
    var m := TwoClusters(curr);
    var a, b := m.clusters[0], m.clusters[1];
    assert m.clusters[..1] == [a] && [a][..0] == [];
    assert Own([a]) == map["a" := curr];
    assert a in m.clusters && b in m.clusters;
    assert JoinableNames(m.clusters) == {"a", "b"};
  }

  /** One secret made by hand, with the label and no annotations, makes all of apply panic. */
  lemma LabelledSecretCrashesApply(context: string) returns (m: Mesh, servers: map<string, Server>)
    requires context != ""
    ensures OwnLabelled(m) && m.fails == Failures({}, {}, {}, {}, {}) && !CreateFailed(m.clusters) && m == MeshOf(m.clusters, m.fails)
    ensures servers.Keys == Names(m.clusters) && forall l :: l in servers ==> AllPrefixed(servers[l])
    ensures Crashes(m, servers)
  {
    var byHand := Stored(Some(map[]), None, Some(map[LABEL := "true"]));
    var curr := Stored(Some(map[]), Some(map[CONTEXT_ANNOTATION := context]), Some(map[LABEL := "true"]));
    m := TwoClusters(curr);
    TwoPartners(curr);
    servers := map["a" := map[RemoteSecretName("b") := byHand], "b" := map[]];
    assert REMOTE_SECRET_PREFIX <= RemoteSecretName("b");
    LabelledSecretCanPanic(context);
    assert m.clusters[0] in m.clusters && m.clusters[1] in m.clusters;
    assert PairPanics(m, "a", "b", Lookup(servers["a"], RemoteSecretName("b")));
  }

  /** A secret with an old kubeconfig keeps it through an apply in which every call succeeds. */
  lemma ContentsCanStayOld(old': GoMap, new': GoMap, context: string) returns (m: Mesh, server: Server, listing: seq<string>)
    requires old' != new'
    ensures OwnLabelled(m) && !CreateFailed(m.clusters) && m == MeshOf(m.clusters, m.fails)
    ensures IsListing(listing, server) && CallsSucceed(m, "a", server)
    ensures "b" in m.own && m.own["b"].data == new'
    ensures Reconciled(m, "a", server, listing, RemoteSecretName("b")).Some?
    ensures Reconciled(m, "a", server, listing, RemoteSecretName("b")).value.data == old'
  {
    var annotations, labels := Some(map[CONTEXT_ANNOTATION := context]), Some(map[LABEL := "true"]);
    var curr := Stored(new', annotations, labels);
    var name := RemoteSecretName("b");
    m := TwoClusters(curr);
    TwoPartners(curr);
    server, listing := map[name := Stored(old', annotations, labels)], [name];
    SecretNameRoundTrip("b", name);
    assert Updated(server[name], curr, map[]) == server[name];
    assert Joined(m, "a", server, Partners(m, "a"), name) == Some(server[name]);
  }

  /** Two secrets for a cluster that has left the mesh; by IdempotentExactly the second apply
      then still finds one of them to prune. */
  lemma DepartedTwice(curr: Stored, secret: Stored) returns (m: Mesh, server: Server)
    requires IsLabelled(curr) && IsLabelled(secret)
    ensures OwnLabelled(m) && !CreateFailed(m.clusters) && m == MeshOf(m.clusters, m.fails) && m.fails == Failures({}, {}, {}, {}, {})
    ensures "a" in m.own && !OnePerOther(m, "a", server)
  {
    m := TwoClusters(curr);
    TwoPartners(curr);
    var x := RemoteSecretName("c");
    server := map["c" := secret, x := secret];
    SecretNameRoundTrip("c", x);
    assert "c"[0] != REMOTE_SECRET_PREFIX[0] && |x| != |"c"|;
    assert ClusterNameOf("c") == "c" == ClusterNameOf(x);
    assert "c" in Labelled(server) && x in Labelled(server);
  }

  // ------------------------------------------------------- the key of an unordered pair

  /** strings.Compare(x, y) > 0: lexicographic order. */
  predicate Greater(x: string, y: string) {
    if x == [] then false
    else if y == [] then true
    else if x[0] != y[0] then x[0] > y[0]
    else Greater(x[1..], y[1..])
  }

  lemma {:induction false} GreaterTotal(x: string, y: string)
    ensures x != y ==> (Greater(x, y) <==> !Greater(y, x))
    ensures !Greater(x, x)
  {
    if x != [] && y != [] && x[0] == y[0] {
      assert x == [x[0]] + x[1..] && y == [y[0]] + y[1..];
      GreaterTotal(x[1..], y[1..]);
    } else if x != [] {
      GreaterTotal(x[1..], x[1..]);
    }
  }

  function PairKey(x: string, y: string): string {
    if Greater(x, y) then y + "/" + x else x + "/" + y
  }

  predicate NoSlash(s: string) {
    '/' !in s
  }

  lemma {:induction false} SplitAtSlash(a: string, b: string, c: string, d: string)
    requires NoSlash(a) && NoSlash(c) && a + "/" + b == c + "/" + d
    ensures a == c && b == d
  {
    if a == [] || c == [] {
      assert (a + "/" + b)[0] == (c + "/" + d)[0];
      assert a == c;
      assert (a + "/" + b)[1..] == b && (c + "/" + d)[1..] == d;
    } else {
      assert (a + "/" + b)[0] == (c + "/" + d)[0];
      assert (a + "/" + b)[1..] == a[1..] + "/" + b && (c + "/" + d)[1..] == c[1..] + "/" + d;
      SplitAtSlash(a[1..], b, c[1..], d);
      assert a == [a[0]] + a[1..] && c == [c[0]] + c[1..];
    }
  }

  /** Cluster names are UUIDs; without slashes the key stands for one unordered pair. */
  lemma PairKeyInjective(a: string, b: string, c: string, d: string)
    requires NoSlash(a) && NoSlash(b) && NoSlash(c) && NoSlash(d)
    ensures PairKey(a, b) == PairKey(c, d) <==> (a == c && b == d) || (a == d && b == c)
  {
    GreaterTotal(a, b);
    GreaterTotal(c, d);
    var (x, y) := if Greater(a, b) then (b, a) else (a, b);
    var (u, v) := if Greater(c, d) then (d, c) else (c, d);
    if PairKey(a, b) == PairKey(c, d) {
      SplitAtSlash(x, y, u, v);
    }
  }

  /** With slashes two different pairs can have one key; the second would not be joined. */
  lemma PairKeyCollides()
    ensures PairKey("a", "b/c") == PairKey("a/b", "c")
  {
    assert !Greater("a", "b/c") && !Greater("a/b", "c");
  }

  // ------------------------------------------------------------------------ the loops

  function Find(m: map<string, string>, key: string): Option<string> {
    if key in m then Some(m[key]) else None
  }

  /** The last secret name listed for each cluster. */
  ghost predicate IsIndex(m: map<string, string>, listing: seq<string>) {
    forall k :: Find(m, k) == LastFor(listing, k)
  }

  /** A server's answer to List, in any order. */
  method ListSecrets(server: Server) returns (listing: seq<string>)
    ensures IsListing(listing, server)
  {
    hide Labelled;
    listing := [];
    var rest := Labelled(server);
    while rest != {}
      invariant rest <= Labelled(server)
      invariant forall n :: n in listing <==> n in Labelled(server) && n !in rest
      decreases rest
    {
      var n :| n in rest;
      listing := listing + [n];
      rest := rest - {n};
    }
  }

  /** readRemoteSecrets. */
  method ReadRemoteSecrets(listing: seq<string>) returns (secretMap: map<string, string>)
    ensures IsIndex(secretMap, listing)
  {
    hide ClusterNameOf;
    secretMap := map[];
    assert listing[..|listing|] == listing;
    for i := 0 to |listing|
      invariant IsIndex(secretMap, listing[..i])
    {
      ghost var before := secretMap;
      secretMap := secretMap[ClusterNameOf(listing[i]) := listing[i]];
      forall k
        ensures Find(secretMap, k) == LastFor(listing[..i + 1], k)
      {
        assert listing[..i + 1][..i] == listing[..i] && listing[..i + 1][i] == listing[i];
        assert Find(before, k) == LastFor(listing[..i], k);
      }
    }
  }

  /** The result of applySecret and of apply; apply returns its error at the end. */
  datatype Applied = Crashed | Finished(failed: bool)

  /** The mesh and the secrets on its servers. */
  class Fleet {
    const clusters: seq<Cluster> // sorted by name
    const fails: Failures
    ghost const mesh := MeshOf(clusters, fails)
    var servers: map<string, Server>
    var applies: seq<(string, string)> // every call of applySecret, as (local, remote)

    constructor (clusters: seq<Cluster>, fails: Failures, servers: map<string, Server>)
      ensures this.clusters == clusters && this.fails == fails && this.servers == servers && applies == []
    {
      this.clusters, this.fails, this.servers, applies := clusters, fails, servers, [];
    }

    /** Cluster names are UIDs, so they hold no slash; there is a server for every cluster. */
    ghost predicate Valid()
      reads this
    {
      && (forall c :: c in clusters ==> NoSlash(c.name))
      && servers.Keys == Names(clusters)
    }

    ghost predicate AreListings(listings: map<string, seq<string>>)
      reads this
    {
      listings.Keys == servers.Keys && forall l :: l in servers ==> IsListing(listings[l], servers[l])
    }

    /** applySecret: get and update in place, or add. */
    method ApplySecret(local: string, remote: string, secret: Stored) returns (r: Applied)
      requires local in servers && remote in mesh.own && secret == mesh.own[remote]
      modifies this
      ensures applies == old(applies) + [(local, remote)]
      ensures var entry := Lookup(old(servers)[local], RemoteSecretName(remote));
              && (r.Crashed? <==> PairPanics(mesh, local, remote, entry))
              && (r.Finished? ==> (r.failed <==> PairFails(mesh, local, remote, entry)))
      ensures servers.Keys == old(servers).Keys
      ensures forall l :: l in servers && l != local ==> servers[l] == old(servers)[l]
      ensures forall n :: Lookup(servers[local], n)
                == if n == RemoteSecretName(remote) then AfterApply(mesh, local, remote, Lookup(old(servers)[local], n))
                   else Lookup(old(servers)[local], n)
    {
      hide CanUpdate, Updated;
      applies := applies + [(local, remote)];
      var name, server := RemoteSecretName(remote), servers[local];
      if name in server && (local, remote) !in fails.get {
        var prev := new Secret(server[name], map[]);
        var curr := new Secret(secret, map[]);
        var u := prev.Update(curr);
        if u.Panicked? {
          return Crashed;
        }
        if u.changed {
          if (local, remote) in fails.update {
            return Finished(true);
          }
          servers := servers[local := server[name := prev.Value()]];
        }
        return Finished(false);
      }
      if name in server || (local, remote) in fails.add {
        return Finished(true);
      }
      servers := servers[local := server[name := secret]];
      return Finished(false);
    }

    // --------------------------------------------------------------- own and old secrets

    /** The secrets listed in a cluster; none when listing fails. */
    function Listed(listings: map<string, seq<string>>, local: string): seq<string>
      requires local in listings
    {
      if local in fails.list then [] else listings[local]
    }

    ghost predicate Indexed(listings: map<string, seq<string>>, existing: map<string, map<string, string>>) {
      forall l :: l in existing ==> l in listings && IsIndex(existing[l], Listed(listings, l))
    }

    /** One round of the first loop. */
    method PrepareCluster(cluster: Cluster, listings: map<string, seq<string>>, own: map<string, Stored>,
                          existing: map<string, map<string, string>>, failed: bool)
      returns (own': map<string, Stored>, existing': map<string, map<string, string>>, failed': bool)
      requires cluster.name in listings && own.Keys == existing.Keys && Indexed(listings, existing)
      ensures own' == if cluster.installed && cluster.own.Some? then own[cluster.name := cluster.own.value] else own
      ensures own'.Keys == existing'.Keys && Indexed(listings, existing')
      ensures failed' <==> failed || (cluster.installed && cluster.own.None?)
    {
      hide IsIndex, Listed;
      own', existing', failed' := own, existing, failed;
      if !cluster.installed {
        return;
      }
      if cluster.own.None? {
        failed' := true;
        return;
      }
      own' := own[cluster.name := cluster.own.value];
      var secrets := ReadRemoteSecrets(Listed(listings, cluster.name));
      existing' := existing[cluster.name := secrets];
    }

    /** The first loop: own secrets, and the secrets that may have to be pruned. */
    method Prepare(listings: map<string, seq<string>>)
      returns (own: map<string, Stored>, existing: map<string, map<string, string>>, failed: bool)
      requires forall c :: c in clusters ==> c.name in listings
      ensures own == mesh.own && own.Keys == existing.Keys && Indexed(listings, existing)
      ensures failed <==> CreateFailed(clusters)
    {
      own, existing, failed := map[], map[], false;
      assert Indexed(listings, existing);
      hide Indexed, Own, CreateFailed, IsIndex;
      OwnNext(0);
      for i := 0 to |clusters|
        invariant own == Own(clusters[..i]) && own.Keys == existing.Keys && Indexed(listings, existing)
        invariant failed <==> CreateFailed(clusters[..i])
      {
        OwnNext(i);
        own, existing, failed := PrepareCluster(clusters[i], listings, own, existing, failed);
      }
      assert clusters[..|clusters|] == clusters;
    }

    lemma OwnNext(i: nat)
      requires i <= |clusters|
      ensures i == 0 ==> Own(clusters[..i]) == map[] && !CreateFailed(clusters[..i])
      ensures i < |clusters| ==>
                var c, own := clusters[i], Own(clusters[..i]);
                && Own(clusters[..i + 1]) == (if c.installed && c.own.Some? then own[c.name := c.own.value] else own)
                && (CreateFailed(clusters[..i + 1]) <==> CreateFailed(clusters[..i]) || (c.installed && c.own.None?))
    {
      if i < |clusters| {
        assert clusters[..i + 1] == clusters[..i] + [clusters[i]];
      }
    }

    // ------------------------------------------------------------- the pairwise joins

    /** The remotes with a secret that `local` has been joined with. */
    static function Remotes(done: set<(string, string)>, current: set<string>, local: string): set<string> {
      set p | p in done && p.0 == local && p.1 in current :: p.1
    }

    /** What the joins in `done` have changed on the servers, without a panic. */
    ghost predicate ServersJoined(now: map<string, Server>, before: map<string, Server>, done: set<(string, string)>, current: set<string>) {
      && now.Keys == before.Keys
      && (forall l, n :: l in before ==> Lookup(now[l], n) == Joined(mesh, l, before[l], Remotes(done, current, l), n))
      && (forall l, r :: l in before && r in Remotes(done, current, l) ==>
            !PairPanics(mesh, l, r, Lookup(before[l], RemoteSecretName(r))))
    }

    /** What they have taken from the secrets to prune. */
    static ghost predicate Unpruned(toPrune: map<string, map<string, string>>, existing: map<string, map<string, string>>,
                                    done: set<(string, string)>, current: set<string>)
    {
      && existing.Keys == toPrune.Keys
      && (forall l :: l in toPrune ==> existing[l] == toPrune[l] - Remotes(done, current, l))
    }

    /** The calls of applySecret: once for every pair in `done` whose remote has a secret. */
    ghost predicate AppliedOnce(done: set<(string, string)>, current: set<string>)
      reads this`applies
    {
      CalledOnce(applies, done, current)
    }

    static ghost predicate CalledOnce(calls: seq<(string, string)>, done: set<(string, string)>, current: set<string>) {
      && (forall p :: p in calls <==> p in done && p.1 in current)
      && (forall i, j :: 0 <= i < j < |calls| ==> calls[i] != calls[j])
    }

    lemma CalledOnceMore(calls: seq<(string, string)>, done: set<(string, string)>, current: set<string>, p: (string, string))
      requires CalledOnce(calls, done, current) && p !in done
      ensures CalledOnce(if p.1 in current then calls + [p] else calls, done + {p}, current)
    {
    }

    ghost predicate Progress(before: map<string, Server>, toPrune: map<string, map<string, string>>,
                             existing: map<string, map<string, string>>, done: set<(string, string)>, current: set<string>)
      reads this
    {
      ServersJoined(servers, before, done, current) && Unpruned(toPrune, existing, done, current) && AppliedOnce(done, current)
    }

    /** What is known when a call has panicked: every secret there was is still there. */
    ghost predicate Aborted(before: map<string, Server>)
      reads this
    {
      && servers.Keys == before.Keys
      && (forall l, n :: l in before && n in before[l] ==> n in servers[l])
      && Crashes(mesh, before)
    }

    /** One direction of a pair: the body of the innermost loop. */
    method JoinOneWay(local: string, remote: string, own: map<string, Stored>, ghost current: set<string>,
                      existing: map<string, map<string, string>>,
                      ghost before: map<string, Server>, ghost toPrune: map<string, map<string, string>>, ghost done: set<(string, string)>)
      returns (existing': map<string, map<string, string>>, crashed: bool)
      requires local in before && (local, remote) !in done && (local, remote) in AllPairs(clusters, clusters)
      requires own == mesh.own && current == own.Keys
      requires Progress(before, toPrune, existing, done, current)
      modifies this
      ensures crashed ==> Aborted(before)
      ensures !crashed ==> Progress(before, toPrune, existing', done + {(local, remote)}, current)
    {
      hide ServersJoined, Remotes, AfterApply, PairPanics, PairFails, Lookup, CalledOnce, Unpruned, Crashes, Partners,
        AllPairs;
      ghost var was := servers;
      existing', crashed := existing, false;
      CalledOnceMore(applies, done, current, (local, remote));
      UnprunedNext(toPrune, existing, done, current, local, remote);
      if remote !in own {
        NothingToJoin(was, before, done, current, local, remote);
        return;
      }
      ArePartners(local, remote);
      Untouched(was, before, done, current, local, remote);
      var r := ApplySecret(local, remote, own[remote]);
      if r.Crashed? {
        StillThere(was, servers, before, done, current, local, remote);
        crashed := true;
        return;
      }
      JoinedMore(was, servers, before, done, current, local, remote);
      if local in existing {
        existing' := existing[local := existing[local] - {remote}];
      }
    }

    lemma NothingToJoin(was: map<string, Server>, before: map<string, Server>, done: set<(string, string)>, current: set<string>,
                        local: string, remote: string)
      requires ServersJoined(was, before, done, current) && remote !in current
      ensures ServersJoined(was, before, done + {(local, remote)}, current)
    {
      AddRemote(done, current, local, remote);
      hide Remotes, Joined, PairPanics;
    }

    /** The secret of a pair is as before until the pair is joined. */
    lemma Untouched(was: map<string, Server>, before: map<string, Server>, done: set<(string, string)>, current: set<string>,
                    local: string, remote: string)
      requires ServersJoined(was, before, done, current) && local in before && (local, remote) !in done
      ensures was.Keys == before.Keys
      ensures Lookup(was[local], RemoteSecretName(remote)) == Lookup(before[local], RemoteSecretName(remote))
    {
      SecretNameRoundTrip(remote, RemoteSecretName(remote));
      assert remote !in Remotes(done, current, local);
    }

    /** The server of `local` after applySecret for `remote`. */
    ghost predicate JustApplied(was: map<string, Server>, now: map<string, Server>, local: string, remote: string)
      requires local in was && local in now
    {
      && now.Keys == was.Keys
      && (forall l :: l in now && l != local ==> now[l] == was[l])
      && (forall n :: Lookup(now[local], n)
            == if n == RemoteSecretName(remote) then AfterApply(mesh, local, remote, Lookup(was[local], n))
               else Lookup(was[local], n))
    }

    lemma JoinedMore(was: map<string, Server>, now: map<string, Server>, before: map<string, Server>,
                     done: set<(string, string)>, current: set<string>, local: string, remote: string)
      requires local in was && local in now && JustApplied(was, now, local, remote)
      requires ServersJoined(was, before, done, current) && (local, remote) !in done && remote in current
      requires !PairPanics(mesh, local, remote, Lookup(before[local], RemoteSecretName(remote)))
      ensures ServersJoined(now, before, done + {(local, remote)}, current)
    {
      AddRemote(done, current, local, remote);
      Untouched(was, before, done, current, local, remote);
      hide Remotes, AfterApply, PairPanics, Lookup;
      forall l, n | l in before
        ensures Lookup(now[l], n) == Joined(mesh, l, before[l], Remotes(done + {(local, remote)}, current, l), n)
      {
        assert Lookup(was[l], n) == Joined(mesh, l, before[l], Remotes(done, current, l), n);
        if l == local {
          JoinedAdd(before[l], local, Remotes(done, current, local), remote, n);
        }
      }
    }

    lemma StillThere(was: map<string, Server>, now: map<string, Server>, before: map<string, Server>,
                     done: set<(string, string)>, current: set<string>, local: string, remote: string)
      requires local in was && local in now && JustApplied(was, now, local, remote)
      requires ServersJoined(was, before, done, current) && remote in Partners(mesh, local)
      requires PairPanics(mesh, local, remote, Lookup(before[local], RemoteSecretName(remote)))
      ensures now.Keys == before.Keys && Crashes(mesh, before)
      ensures forall l, n :: l in before && n in before[l] ==> n in now[l]
    {
      hide Partners, PairPanics, PairFails, CanUpdate;
      forall l, n | l in before && n in before[l]
        ensures n in now[l]
      {
        assert Lookup(was[l], n).Some?;
        assert Lookup(now[l], n).Some?;
      }
    }

    lemma AddRemote(done: set<(string, string)>, current: set<string>, local: string, remote: string)
      ensures forall l :: Remotes(done + {(local, remote)}, current, l)
                == if l == local && remote in current then Remotes(done, current, l) + {remote} else Remotes(done, current, l)
      ensures (local, remote) !in done ==> remote !in Remotes(done, current, local)
    {
    }

    lemma UnprunedNext(toPrune: map<string, map<string, string>>, existing: map<string, map<string, string>>,
                       done: set<(string, string)>, current: set<string>, local: string, remote: string)
      requires Unpruned(toPrune, existing, done, current)
      ensures var next := if local in existing && remote in current then existing[local := existing[local] - {remote}] else existing;
              Unpruned(toPrune, next, done + {(local, remote)}, current)
    {
      AddRemote(done, current, local, remote);
      hide Remotes;
      if local in existing {
        assert toPrune[local] - Remotes(done, current, local) - {remote} == toPrune[local] - (Remotes(done, current, local) + {remote});
      }
    }

    /** One more remote changes the secret of its name, which was as before till then. */
    ghost predicate JoinedNext(server: Server, local: string, remotes: set<string>, remote: string, n: string) {
      if n == RemoteSecretName(remote)
      then && Joined(mesh, local, server, remotes, n) == Lookup(server, n)
           && Joined(mesh, local, server, remotes + {remote}, n) == AfterApply(mesh, local, remote, Lookup(server, n))
      else Joined(mesh, local, server, remotes + {remote}, n) == Joined(mesh, local, server, remotes, n)
    }

    lemma JoinedAdd(server: Server, local: string, remotes: set<string>, remote: string, n: string)
      requires remote !in remotes
      ensures JoinedNext(server, local, remotes, remote, n)
    {
      SecretNameRoundTrip(remote, n);
      hide AfterApply;
    }

    lemma ArePartners(local: string, remote: string)
      requires (local, remote) in AllPairs(clusters, clusters) && remote in mesh.own.Keys
      ensures remote in Partners(mesh, local) && remote in mesh.own
    {
    }

    /** Every ordered pair of different joinable clusters. */
    static function AllPairs(firsts: seq<Cluster>, seconds: seq<Cluster>): set<(string, string)> {
      set a, b | a in firsts && b in seconds && Joinable(a) && Joinable(b) && a.name != b.name :: (a.name, b.name)
    }

    ghost predicate PairsDone(joined: set<string>, done: set<(string, string)>) {
      && joined == (set p | p in done :: PairKey(p.0, p.1))
      && (forall p :: p in done ==> (p.1, p.0) in done)
      && done <= AllPairs(clusters, clusters)
    }

    lemma KeyKnown(joined: set<string>, done: set<(string, string)>, a: Cluster, b: Cluster)
      requires forall c :: c in clusters ==> NoSlash(c.name)
      requires PairsDone(joined, done) && a in clusters && b in clusters
      ensures PairKey(a.name, b.name) in joined <==> (a.name, b.name) in done
    {
      if PairKey(a.name, b.name) in joined {
        var p :| p in done && PairKey(p.0, p.1) == PairKey(a.name, b.name);
        PairKeyInjective(p.0, p.1, a.name, b.name);
        assert p == (a.name, b.name) || p == (b.name, a.name);
      }
    }

    /** A pair not joined before, in both directions. */
    method JoinPair(first: Cluster, second: Cluster, own: map<string, Stored>, ghost current: set<string>,
                      existing: map<string, map<string, string>>,
                    ghost before: map<string, Server>, ghost toPrune: map<string, map<string, string>>,
                    joined: set<string>, ghost done: set<(string, string)>)
      returns (existing': map<string, map<string, string>>, joined': set<string>, crashed: bool, ghost done': set<(string, string)>)
      requires first in clusters && second in clusters && Joinable(first) && Joinable(second) && first.name != second.name
      requires first.name in before && second.name in before && own == mesh.own && current == own.Keys
      requires (first.name, second.name) !in done && (second.name, first.name) !in done
      requires Progress(before, toPrune, existing, done, current) && PairsDone(joined, done)
      modifies this
      ensures crashed ==> Aborted(before)
      ensures done' == done + {(first.name, second.name), (second.name, first.name)}
      ensures !crashed ==> Progress(before, toPrune, existing', done', current) && PairsDone(joined', done')
    {
      PairsDoneAdd(joined, done, first, second);
      ghost var there, back := (first.name, second.name), (second.name, first.name);
      assert there in AllPairs(clusters, clusters) && back in AllPairs(clusters, clusters);
      hide *;
      joined' := joined + {PairKey(first.name, second.name)};
      done' := done + {there, back};
      assert done + {there} + {back} == done';
      existing', crashed := JoinOneWay(first.name, second.name, own, current, existing, before, toPrune, done);
      if crashed {
        return;
      }
      existing', crashed := JoinOneWay(second.name, first.name, own, current, existing', before, toPrune, done + {there});
    }

    lemma PairsDoneAdd(joined: set<string>, done: set<(string, string)>, first: Cluster, second: Cluster)
      requires first in clusters && second in clusters && Joinable(first) && Joinable(second) && first.name != second.name
      requires PairsDone(joined, done)
      ensures PairsDone(joined + {PairKey(first.name, second.name)},
                        done + {(first.name, second.name), (second.name, first.name)})
    {
      KeySymmetric(first.name, second.name);
      hide PairKey;
      var done' := done + {(first.name, second.name), (second.name, first.name)};
      var keys := set p | p in done' :: PairKey(p.0, p.1);
      assert (first.name, second.name) in done';
      assert forall p :: p in done ==> p in done';
      assert keys == joined + {PairKey(first.name, second.name)};
    }

    lemma KeySymmetric(x: string, y: string)
      ensures PairKey(x, y) == PairKey(y, x)
    {
      GreaterTotal(x, y);
    }

    /** The inner loop: `first` with every other joinable cluster, unless joined before. */
    method JoinRow(first: Cluster, own: map<string, Stored>, ghost current: set<string>,
                      existing: map<string, map<string, string>>,
                   ghost before: map<string, Server>, ghost toPrune: map<string, map<string, string>>,
                   joined: set<string>, ghost done: set<(string, string)>)
      returns (existing': map<string, map<string, string>>, joined': set<string>, crashed: bool, ghost done': set<(string, string)>)
      requires first in clusters && Joinable(first)
      requires forall c :: c in clusters ==> NoSlash(c.name) && c.name in before
      requires own == mesh.own && current == own.Keys
      requires Progress(before, toPrune, existing, done, current) && PairsDone(joined, done)
      modifies this
      ensures crashed ==> Aborted(before)
      ensures !crashed ==> done + AllPairs([first], clusters) <= done'
      ensures !crashed ==> Progress(before, toPrune, existing', done', current) && PairsDone(joined', done')
    {
      hide Progress, Aborted, PairsDone, PairKey, AllPairs, NoSlash;
      existing', joined', crashed, done' := existing, joined, false, done;
      NoSeconds(first);
      for j := 0 to |clusters|
        invariant !crashed && Progress(before, toPrune, existing', done', current) && PairsDone(joined', done')
        invariant done + AllPairs([first], clusters[..j]) <= done'
      {
        var second := clusters[j];
        SecondNext(first, clusters, j);
        if first.name != second.name && !second.disableRegistryJoin && second.installed {
          KeyKnown(joined', done', first, second);
          KeyKnown(joined', done', second, first);
          KeySymmetric(first.name, second.name);
          if PairKey(first.name, second.name) !in joined' {
            existing', joined', crashed, done' := JoinPair(first, second, own, current, existing', before, toPrune, joined', done');
            if crashed {
              return;
            }
          }
        }
      }
      assert clusters[..|clusters|] == clusters;
    }

    lemma NoSeconds(first: Cluster)
      ensures AllPairs([first], clusters[..0]) == {}
    {
    }

    /** The second loop: every pair of joinable clusters, once. */
    method JoinAll(own: map<string, Stored>, existing: map<string, map<string, string>>)
      returns (existing': map<string, map<string, string>>, crashed: bool)
      requires Valid() && applies == [] && own == mesh.own
      modifies this
      ensures crashed ==> Aborted(old(servers))
      ensures !crashed ==> Progress(old(servers), existing, existing', AllPairs(clusters, clusters), own.Keys)
    {
      ghost var before, done, current := servers, {}, own.Keys;
      var joined := {};
      existing', crashed := existing, false;
      hide Valid, Names, Progress, Aborted, PairsDone, AllPairs, NoSlash;
      NamesAreValid();
      NothingDone(existing, current);
      NoFirsts();
      for i := 0 to |clusters|
        invariant !crashed && Progress(before, existing, existing', done, current) && PairsDone(joined, done)
        invariant AllPairs(clusters[..i], clusters) <= done
      {
        var first := clusters[i];
        FirstNext(clusters, clusters, i);
        if !first.disableRegistryJoin && first.installed {
          existing', joined, crashed, done := JoinRow(first, own, current, existing', before, existing, joined, done);
          if crashed {
            return;
          }
        }
      }
      assert clusters[..|clusters|] == clusters;
      DoneIsAll(joined, done);
    }

    lemma NamesAreValid()
      requires Valid()
      ensures forall c :: c in clusters ==> NoSlash(c.name) && c.name in servers
    {
    }

    lemma NoFirsts()
      ensures AllPairs(clusters[..0], clusters) == {}
    {
    }

    lemma NothingDone(existing: map<string, map<string, string>>, current: set<string>)
      requires applies == []
      ensures Progress(servers, existing, existing, {}, current) && PairsDone({}, {})
    {
      forall l
        ensures Remotes({}, current, l) == {}
      {
      }
    }

    lemma DoneIsAll(joined: set<string>, done: set<(string, string)>)
      requires PairsDone(joined, done) && AllPairs(clusters, clusters) <= done
      ensures done == AllPairs(clusters, clusters)
    {
    }

    lemma FirstNext(firsts: seq<Cluster>, seconds: seq<Cluster>, i: nat)
      requires i < |firsts|
      ensures AllPairs(firsts[..i + 1], seconds) == AllPairs(firsts[..i], seconds) + AllPairs([firsts[i]], seconds)
      ensures !Joinable(firsts[i]) ==> AllPairs([firsts[i]], seconds) == {}
    {
      assert firsts[..i + 1] == firsts[..i] + [firsts[i]];
    }

    lemma SecondNext(first: Cluster, seconds: seq<Cluster>, j: nat)
      requires j < |seconds| && Joinable(first)
      ensures AllPairs([first], seconds[..j + 1])
           == if Joinable(seconds[j]) && first.name != seconds[j].name
              then AllPairs([first], seconds[..j]) + {(first.name, seconds[j].name)}
              else AllPairs([first], seconds[..j])
    {
      assert seconds[..j + 1] == seconds[..j] + [seconds[j]];
    }

    // ------------------------------------------------------------------------ pruning

    function Deleted(cluster: string, secrets: set<string>): set<string> {
      set n | n in secrets && (cluster, n) !in fails.delete
    }

    /** The secrets of one cluster that are left over, deleted in any order. */
    method PruneCluster(uid: string, secrets: set<string>) returns (failed: bool)
      requires uid in servers
      modifies this`servers
      ensures servers == old(servers)[uid := old(servers)[uid] - Deleted(uid, secrets)]
      ensures failed <==> exists n :: n in secrets && (uid, n) in fails.delete
    {
      failed := false;
      var rest := secrets;
      assert Deleted(uid, {}) == {};
      hide Deleted;
      assert secrets - rest == {};
      while rest != {}
        invariant rest <= secrets
        invariant servers.Keys == old(servers).Keys
        invariant forall l :: l in servers && l != uid ==> servers[l] == old(servers)[l]
        invariant servers[uid] == old(servers)[uid] - Deleted(uid, secrets - rest)
        invariant failed <==> exists n :: n in secrets - rest && (uid, n) in fails.delete
        decreases rest
      {
        var n :| n in rest;
        DeletedNext(uid, old(servers)[uid], secrets - rest, n);
        assert secrets - (rest - {n}) == secrets - rest + {n};
        if (uid, n) in fails.delete {
          failed := true;
        } else {
          servers := servers[uid := servers[uid] - {n}];
        }
        rest := rest - {n};
      }
      assert secrets - {} == secrets;
    }

    lemma DeletedNext(uid: string, server: Server, secrets: set<string>, n: string)
      ensures server - Deleted(uid, secrets + {n})
           == if (uid, n) in fails.delete then server - Deleted(uid, secrets) else server - Deleted(uid, secrets) - {n}
    {
      assert Deleted(uid, secrets + {n})
          == if (uid, n) in fails.delete then Deleted(uid, secrets) else Deleted(uid, secrets) + {n};
    }

    /** The last loop, over the clusters in any order. */
    method PruneAll(existing: map<string, map<string, string>>) returns (failed: bool)
      requires existing.Keys <= servers.Keys
      modifies this`servers
      ensures servers.Keys == old(servers).Keys
      ensures forall l :: l in servers ==>
                servers[l] == if l in existing then old(servers)[l] - Deleted(l, existing[l].Values) else old(servers)[l]
      ensures failed <==> exists l, n :: l in existing && n in existing[l].Values && (l, n) in fails.delete
    {
      hide Deleted;
      failed := false;
      var rest := existing.Keys;
      while rest != {}
        invariant rest <= existing.Keys && servers.Keys == old(servers).Keys
        invariant forall l :: l in servers ==>
                    servers[l] == if l in existing && l !in rest then old(servers)[l] - Deleted(l, existing[l].Values)
                                  else old(servers)[l]
        invariant failed <==> exists l, n :: l in existing && l !in rest && n in existing[l].Values && (l, n) in fails.delete
        decreases rest
      {
        var uid :| uid in rest;
        var f := PruneCluster(uid, existing[uid].Values);
        failed := failed || f;
        rest := rest - {uid};
      }
    }

    // -------------------------------------------------------------------------- apply

    /** apply: either some existing secret lacks a map that must be written, and the call
        panics before anything is pruned, or every cluster is reconciled.  The error
        returned speaks of own secrets that could not be created and of failed deletions,
        not of failed calls of applySecret.  `listings` is what the servers list. */
    method Apply(listings: map<string, seq<string>>) returns (r: Applied)
      requires Valid() && AreListings(listings) && applies == []
      modifies this
      ensures Valid()
      ensures servers.Keys == old(servers).Keys
      ensures r.Crashed? <==> Crashes(mesh, old(servers))
      ensures r.Crashed? ==> forall l, n :: l in servers && n in old(servers)[l] ==> n in servers[l]
      ensures r.Finished? ==> forall l :: l in servers ==> IsReconciled(mesh, l, old(servers)[l], listings[l], servers[l])
      ensures r.Finished? ==>
                (r.failed <==> || CreateFailed(clusters)
                               || exists l, n :: l in servers && n in Leftover(mesh, l, listings[l]) && (l, n) in fails.delete)
      ensures r.Finished? ==> AppliedOnce(AllPairs(clusters, clusters), mesh.own.Keys)
    {
      ghost var before := servers;
      NamesAreValid();
      OwnAreNames(clusters);
      var own, toPrune, notCreated := Prepare(listings);
      var existing, crashed := JoinAll(own, toPrune);
      if crashed {
        return Crashed;
      }
      ghost var joined := servers;
      AllJoined(before, own.Keys);
      var notDeleted := PruneAll(existing);
      r := Finished(notCreated || notDeleted);
      hide Names, IsReconciled, Leftover, Joined, Remotes, Deleted, IsIndex, AllPairs, CalledOnce, NoSlash,
        CreateFailed, Crashes, PairPanics, Labelled, Lookup, MeshOf, Own;
      forall l | l in before
        ensures IsReconciled(mesh, l, before[l], listings[l], servers[l])
        ensures l in existing ==> existing[l].Values == Leftover(mesh, l, listings[l])
        ensures l !in existing ==> Leftover(mesh, l, listings[l]) == {}
      {
        ClusterReconciled(l, before[l], listings[l], joined[l], servers[l], toPrune, existing);
      }
    }

    lemma {:induction false} OwnAreNames(clusters: seq<Cluster>)
      ensures Own(clusters).Keys <= Names(clusters)
    {
      if clusters != [] {
        OwnAreNames(clusters[..|clusters| - 1]);
        assert clusters == clusters[..|clusters| - 1] + [clusters[|clusters| - 1]];
      }
    }

    lemma AllJoined(before: map<string, Server>, current: set<string>)
      requires current == mesh.own.Keys
      requires ServersJoined(servers, before, AllPairs(clusters, clusters), current)
      ensures !Crashes(mesh, before)
    {
      forall l
        ensures Remotes(AllPairs(clusters, clusters), current, l) == Partners(mesh, l)
      {
        RemotesArePartners(l);
      }
      hide AllPairs, Partners, Remotes, PairPanics;
    }

    lemma ClusterReconciled(l: string, before: Server, listing: seq<string>, joined: Server, after: Server,
                            toPrune: map<string, map<string, string>>, existing: map<string, map<string, string>>)
      requires toPrune.Keys == existing.Keys == mesh.own.Keys
      requires forall n :: Lookup(joined, n) == Joined(mesh, l, before, Remotes(AllPairs(clusters, clusters), mesh.own.Keys, l), n)
      requires l in toPrune ==> IsIndex(toPrune[l], if l in fails.list then [] else listing)
      requires l in toPrune ==> existing[l] == toPrune[l] - Remotes(AllPairs(clusters, clusters), mesh.own.Keys, l)
      requires after == if l in existing then joined - Deleted(l, existing[l].Values) else joined
      ensures l in existing ==> existing[l].Values == Leftover(mesh, l, listing)
      ensures l !in existing ==> Leftover(mesh, l, listing) == {}
      ensures IsReconciled(mesh, l, before, listing, after)
    {
      RemotesArePartners(l);
      if l in existing {
        LeftoverIsIndexed(l, listing, toPrune[l]);
      }
      hide Partners, ClusterNameOf, AllPairs, Remotes, Joined, IsIndex, LastFor;
    }

    lemma RemotesArePartners(l: string)
      ensures Remotes(AllPairs(clusters, clusters), mesh.own.Keys, l) == Partners(mesh, l)
    {
      hide Own;
      var left, right := Remotes(AllPairs(clusters, clusters), mesh.own.Keys, l), Partners(mesh, l);
      forall r | r in right
        ensures r in left
      {
        assert (l, r) in AllPairs(clusters, clusters);
      }
    }

    lemma LeftoverIsIndexed(l: string, listing: seq<string>, index: map<string, string>)
      requires l in mesh.own && IsIndex(index, if l in fails.list then [] else listing)
      ensures (index - Partners(mesh, l)).Values == Leftover(mesh, l, listing)
    {
      var rest, listed := index - Partners(mesh, l), if l in fails.list then [] else listing;
      forall k
        ensures Find(index, k) == LastFor(listed, k)
        ensures LastFor(listed, k).Some? ==> LastFor(listed, k).value in listed && ClusterNameOf(LastFor(listed, k).value) == k
      {
        LastForIsListed(listed, k);
      }
      hide Partners, ClusterNameOf;
      forall n | n in Leftover(mesh, l, listing)
        ensures n in rest.Values
      {
        assert Find(index, ClusterNameOf(n)) == Some(n);
        assert ClusterNameOf(n) in rest && rest[ClusterNameOf(n)] == n;
      }
      forall n | n in rest.Values
        ensures n in Leftover(mesh, l, listing)
      {
        var k :| k in rest && rest[k] == n;
        assert Find(index, k) == Some(n);
      }
    }

    // ------------------------------------------------------------------ what it is for

    /** With prefixed secrets and calls that succeed, every cluster whose own secret was
        created ends with labelled secrets for exactly its partners. */
    method ApplyReachesTarget(listings: map<string, seq<string>>) returns (r: Applied)
      requires Valid() && AreListings(listings) && applies == [] && OwnLabelled(mesh)
      requires forall l :: l in servers ==> AllPrefixed(servers[l]) && CallsSucceed(mesh, l, servers[l])
      modifies this
      ensures r.Finished? && servers.Keys == old(servers).Keys
      ensures forall l :: l in servers && l in mesh.own ==> Labelled(servers[l]) == Target(mesh, l)
    {
      ghost var before := servers;
      assert !Crashes(mesh, servers);
      r := Apply(listings);
      hide Crashes, Reconciled, Target, AllPrefixed, CallsSucceed, OwnLabelled, Own, MeshOf;
      forall l | l in servers && l in mesh.own
        ensures Labelled(servers[l]) == Target(mesh, l)
      {
        forall n
          ensures n in Labelled(servers[l]) <==> n in Target(mesh, l)
        {
          ReconciledIsTarget(mesh, l, before[l], listings[l], n);
          assert Lookup(servers[l], n) == Reconciled(mesh, l, before[l], listings[l], n);
        }
      }
    }

    method ListAll() returns (listings: map<string, seq<string>>)
      ensures AreListings(listings)
    {
      listings := map[];
      var rest := servers.Keys;
      while rest != {}
        invariant rest <= servers.Keys && listings.Keys == servers.Keys - rest
        invariant forall l :: l in listings ==> IsListing(listings[l], servers[l])
        decreases rest
      {
        var l :| l in rest;
        var listing := ListSecrets(servers[l]);
        listings := listings[l := listing];
        rest := rest - {l};
      }
    }

    /** Applying twice: where no cluster that is no partner had two secrets on a server, the
        second call finishes if the first one did, and changes nothing. */
    method ApplyTwice(listings: map<string, seq<string>>) returns (r: Applied, again: Applied, ghost between: map<string, Server>)
      requires Valid() && AreListings(listings) && applies == [] && OwnLabelled(mesh)
      requires forall l :: l in servers ==> OnePerOther(mesh, l, servers[l])
      modifies this
      ensures r.Crashed? <==> Crashes(mesh, old(servers))
      ensures r.Finished? ==> between.Keys == listings.Keys == old(servers).Keys
      ensures r.Finished? ==>
                forall l :: l in between ==> IsReconciled(mesh, l, old(servers)[l], listings[l], between[l])
      ensures r.Finished? ==> again.Finished? && servers == between
    {
      ghost var before := servers;
      r := Apply(listings);
      again, between := r, servers;
      if r.Crashed? {
        return;
      }
      var listings' := ListAll();
      StillNoCrash(before, listings);
      hide Crashes, IsReconciled, OwnLabelled, OnePerOther, IsListing, MeshOf, Own, Names, NoSlash;
      applies := [];
      again := Apply(listings');
      forall l | l in between
        ensures servers[l] == between[l]
      {
        NothingChanges(l, before[l], listings[l], between[l], listings'[l], servers[l]);
      }
    }

    lemma StillNoCrash(before: map<string, Server>, listings: map<string, seq<string>>)
      requires OwnLabelled(mesh) && !Crashes(mesh, before) && before.Keys == listings.Keys == servers.Keys
      requires forall l :: l in servers ==> IsReconciled(mesh, l, before[l], listings[l], servers[l])
      ensures !Crashes(mesh, servers)
    {
      hide Partners, PairPanics, IsReconciled, OwnLabelled, Lookup, MeshOf;
      forall l, r | l in servers && r in Partners(mesh, l)
        ensures !PairPanics(mesh, l, r, Lookup(servers[l], RemoteSecretName(r)))
      {
        if PairPanics(mesh, l, r, Lookup(servers[l], RemoteSecretName(r))) {
          PanicsNoMore(mesh, l, before[l], listings[l], servers[l], r);
          assert false;
        }
      }
    }

    lemma NothingChanges(l: string, before: Server, listing: seq<string>, between: Server, listing': seq<string>, after: Server)
      requires OwnLabelled(mesh) && IsListing(listing, before) && IsListing(listing', between) && OnePerOther(mesh, l, before)
      requires IsReconciled(mesh, l, before, listing, between) && IsReconciled(mesh, l, between, listing', after)
      ensures after == between
    {
      hide Reconciled, OnePerOther, IsListing, OwnLabelled, MeshOf;
      forall n
        ensures Lookup(after, n) == Lookup(between, n)
      {
        ReconciledIdempotent(mesh, l, before, listing, between, listing', n);
        assert Lookup(after, n) == Reconciled(mesh, l, between, listing', n);
      }
      forall n
        ensures n in after <==> n in between
        ensures n in after ==> after[n] == between[n]
      {
        assert Lookup(after, n) == Lookup(between, n);
      }
    }
  }
}
