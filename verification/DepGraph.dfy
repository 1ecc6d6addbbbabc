/** The declared dependency graph: building it from the units, and its edges in deterministic order. */
module DepGraph {
  import opened StringOrder

  datatype Node = Node(id: string, kind: string, quadlet: string, external: bool)

  datatype Edge = Edge(from: string, to: string, rel: string)

  /** unitDirectives */
  const DIRECTIVES: seq<string> := [
    "After", "Before", "Requires", "Requisite", "Wants", "BindsTo", "PartOf", "Upholds", "Conflicts", "OnFailure",
    "OnSuccess", "PropagatesReloadTo", "ReloadPropagatedFrom", "PropagatesStopTo", "StopPropagatedFrom",
    "JoinsNamespaceOf"]

  /** What the graph reads of the evaluated unit: the lists of its [Unit] section, the image and pod it names, the
      networks and volumes at top level and under Build, and the networks under Kube. Absent is empty. */
  datatype Data = Data(unit: map<string, seq<string>>, image: string, pod: string,
                       networks: seq<string>, buildNetworks: seq<string>,
                       volumes: seq<string>, buildVolumes: seq<string>, kubeNetworks: seq<string>)

  datatype Unit = Unit(filename: string, kind: string, service: string, data: Data)

  datatype Quadlet = Quadlet(name: string, units: seq<Unit>)

  /** The listed directives with their targets. */
  function Directives(d: Data): seq<(string, seq<string>)> {
    seq(|DIRECTIVES|, i requires 0 <= i < |DIRECTIVES| =>
      (DIRECTIVES[i], if DIRECTIVES[i] in d.unit then d.unit[DIRECTIVES[i]] else []))
  }

  /** firstField: what is before the first colon. */
  function FirstField(s: string): string {
    if s == "" || s[0] == ':' then "" else [s[0]] + FirstField(s[1..])
  }

  /** A reference is cut at its first colon, and none before it. */
  lemma {:induction false} FirstFieldIs(s: string, rest: string)
    ensures ':' !in FirstField(s) && (FirstField(s) == s || FirstField(s) + ":" <= s)
    ensures ':' !in s ==> FirstField(s + ":" + rest) == s && FirstField(s) == s
  {
    if s != "" && s[0] != ':' {
      FirstFieldIs(s[1..], rest);
      assert s == [s[0]] + s[1..];
      assert (s + ":" + rest)[1..] == s[1..] + ":" + rest;
    } else if s == "" {
      assert (s + ":" + rest)[0] == ':';
    }
  }

  function Fields(names: seq<string>, rel: string): seq<(string, string)> {
    seq(|names|, i requires 0 <= i < |names| => (FirstField(names[i]), rel))
  }

  /** resourceStrings: the top-level list, or the one under Build. */
  function Either(top: seq<string>, nested: seq<string>): seq<string> {
    if |top| > 0 then top else nested
  }

  /** The references of a unit with the relations they induce, in order. */
  function Refs(d: Data): seq<(string, string)> {
    (if d.image != "" then [(d.image, "image")] else [])
    + (if d.pod != "" then [(d.pod, "pod")] else [])
    + Fields(Either(d.networks, d.buildNetworks), "network")
    + Fields(Either(d.volumes, d.buildVolumes), "volume")
    + Fields(d.kubeNetworks, "network")
  }

  ghost predicate Mentions(names: seq<string>, to: string) {
    exists n :: n in names && FirstField(n) == to
  }

  lemma FieldsIff(names: seq<string>, rel: string, to: string, r: string)
    ensures (to, r) in Fields(names, rel) <==> r == rel && Mentions(names, to)
  {
    if Mentions(names, to) {
      var n :| n in names && FirstField(n) == to;
      var i :| 0 <= i < |names| && names[i] == n;
      assert Fields(names, rel)[i] == (to, rel);
    }
  }

  /** u refers to the unit named to. */
  ghost predicate RefersTo(d: Data, to: string, rel: string) {
    || (rel == "image" && to == d.image != "")
    || (rel == "pod" && to == d.pod != "")
    || (rel == "network" && (Mentions(d.networks, to) || (d.networks == [] && Mentions(d.buildNetworks, to))
                             || Mentions(d.kubeNetworks, to)))
    || (rel == "volume" && (Mentions(d.volumes, to) || (d.volumes == [] && Mentions(d.buildVolumes, to))))
  }

  lemma RefsIff(d: Data, to: string, rel: string)
    ensures (to, rel) in Refs(d) <==> RefersTo(d, to, rel)
  {
    FieldsIff(Either(d.networks, d.buildNetworks), "network", to, rel);
    FieldsIff(Either(d.volumes, d.buildVolumes), "volume", to, rel);
    FieldsIff(d.kubeNetworks, "network", to, rel);
    hide Fields;
  }

  /** The directive named rel lists t. */
  ghost predicate Lists(d: Data, rel: string, t: string) {
    rel in DIRECTIVES && rel in d.unit && t in d.unit[rel]
  }

  /** The directives that the graph reads, by name. */
  lemma DirectiveNames(rel: string)
    ensures rel in DIRECTIVES <==>
            || rel == "After" || rel == "Before" || rel == "Requires" || rel == "Requisite" || rel == "Wants"
            || rel == "BindsTo" || rel == "PartOf" || rel == "Upholds" || rel == "Conflicts" || rel == "OnFailure"
            || rel == "OnSuccess" || rel == "PropagatesReloadTo" || rel == "ReloadPropagatedFrom"
            || rel == "PropagatesStopTo" || rel == "StopPropagatedFrom" || rel == "JoinsNamespaceOf"
  {
  }

  lemma DirectivesIff(d: Data, rel: string, t: string)
    ensures Lists(d, rel, t) <==> InOne(Directives(d), rel, t)
  {
    hide DIRECTIVES;
    if Lists(d, rel, t) {
      var i :| 0 <= i < |DIRECTIVES| && DIRECTIVES[i] == rel;
      assert Directives(d)[i] == (rel, d.unit[rel]);
    }
  }

  function External(id: string): Node {
    Node(id, "external", "", true)
  }

  /** A service of a managed unit resolves to that unit, any other name to itself. */
  function Target(t: string, services: map<string, string>): string {
    if t in services then services[t] else t
  }

  /** The edges of one directive. */
  function TargetEdges(from: string, rel: string, targets: seq<string>, services: map<string, string>): seq<Edge> {
    seq(|targets|, i requires 0 <= i < |targets| => Edge(from, Target(targets[i], services), rel))
  }

  function DirectiveEdges(from: string, ds: seq<(string, seq<string>)>, services: map<string, string>): seq<Edge> {
    if ds == [] then []
    else
      var n := |ds| - 1;
      DirectiveEdges(from, ds[..n], services) + TargetEdges(from, ds[n].0, ds[n].1, services)
  }

  /** The edges of references: only managed units become edges. */
  function RefEdges(from: string, refs: seq<(string, string)>, catalog: map<string, Node>): seq<Edge> {
    if refs == [] then []
    else
      var (ref, rel) := refs[|refs| - 1];
      RefEdges(from, refs[..|refs| - 1], catalog) + if ref in catalog then [Edge(from, ref, rel)] else []
  }

  function UnitEdges(u: Unit, services: map<string, string>, catalog: map<string, Node>): seq<Edge> {
    DirectiveEdges(u.filename, Directives(u.data), services) + RefEdges(u.filename, Refs(u.data), catalog)
  }

  function EdgesOf(units: seq<Unit>, services: map<string, string>, catalog: map<string, Node>): seq<Edge> {
    if units == [] then []
    else EdgesOf(units[..|units| - 1], services, catalog) + UnitEdges(units[|units| - 1], services, catalog)
  }

  /** The units of quadlets in order, each with the name of its quadlet. */
  function Flatten(quads: seq<Quadlet>): seq<(string, Unit)> {
    if quads == [] then []
    else Flatten(quads[..|quads| - 1])
         + seq(|quads[|quads| - 1].units|, i requires 0 <= i < |quads[|quads| - 1].units| =>
             (quads[|quads| - 1].name, quads[|quads| - 1].units[i]))
  }

  /** Every unit by file name; of two with one name the later wins. */
  function Catalog(us: seq<(string, Unit)>): map<string, Node> {
    if us == [] then map[]
    else
      var (q, u) := us[|us| - 1];
      Catalog(us[..|us| - 1])[u.filename := Node(u.filename, u.kind, q, false)]
  }

  function Services(us: seq<(string, Unit)>): map<string, string> {
    if us == [] then map[]
    else
      var (_, u) := us[|us| - 1];
      var before := Services(us[..|us| - 1]);
      if u.service != "" then before[u.service := u.filename] else before
  }

  function Second(us: seq<(string, Unit)>): seq<Unit> {
    seq(|us|, i requires 0 <= i < |us| => us[i].1)
  }

  lemma {:induction false} ServicesInCatalog(us: seq<(string, Unit)>)
    ensures forall s :: s in Services(us) ==> Services(us)[s] in Catalog(us)
  {
    if us != [] {
      ServicesInCatalog(us[..|us| - 1]);
    }
  }

  function Names(us: seq<Unit>): set<string> {
    set u | u in us :: u.filename
  }

  function Targets(es: seq<Edge>): set<string> {
    set e | e in es :: e.to
  }

  /** u declares e: the directive e.rel lists a target that resolves to e.to, or u refers to the managed unit e.to. */
  ghost predicate Declares(u: Unit, e: Edge, services: map<string, string>, catalog: map<string, Node>) {
    && e.from == u.filename
    && ((exists t :: Lists(u.data, e.rel, t) && e.to == Target(t, services))
        || (RefersTo(u.data, e.to, e.rel) && e.to in catalog))
  }

  // ---------- what the project's units are, by position

  /** Unit k of the project is the last one of its file name. */
  ghost predicate LastNamed(us: seq<(string, Unit)>, k: nat)
    requires k < |us|
  {
    forall j :: k < j < |us| ==> us[j].1.filename != us[k].1.filename
  }

  /** Unit k of the project is the last one of its service, and has one. */
  ghost predicate LastServing(us: seq<(string, Unit)>, k: nat)
    requires k < |us|
  {
    us[k].1.service != "" && forall j :: k < j < |us| ==> us[j].1.service != us[k].1.service
  }

  /** A unit of the quadlets is in their list with the name of its quadlet, and nothing else is. */
  lemma {:induction false} FlattenIs(quads: seq<Quadlet>, q: string, u: Unit)
    ensures (q, u) in Flatten(quads) <==> exists i :: 0 <= i < |quads| && quads[i].name == q && u in quads[i].units
  {
    if quads != [] {
      var m := |quads| - 1;
      FlattenIs(quads[..m], q, u);
      var last := seq(|quads[m].units|, i requires 0 <= i < |quads[m].units| => (quads[m].name, quads[m].units[i]));
      assert Flatten(quads) == Flatten(quads[..m]) + last;
      if q == quads[m].name && u in quads[m].units {
        var i :| 0 <= i < |quads[m].units| && quads[m].units[i] == u;
        assert last[i] == (q, u);
      }
      assert (q, u) in last <==> q == quads[m].name && u in quads[m].units;
      assert forall i :: 0 <= i < m ==> quads[..m][i] == quads[i];
    }
  }

  /** The catalog has every file name of the project, with kind and quadlet of the last unit of the name. */
  lemma {:induction false} CatalogIs(us: seq<(string, Unit)>)
    ensures forall id :: id in Catalog(us) <==> exists k :: 0 <= k < |us| && us[k].1.filename == id
    ensures forall k :: 0 <= k < |us| && LastNamed(us, k) ==>
              Catalog(us)[us[k].1.filename] == Node(us[k].1.filename, us[k].1.kind, us[k].0, false)
  {
    if us != [] {
      var m := |us| - 1;
      CatalogIs(us[..m]);
      assert us == us[..m] + [us[m]];
      forall id ensures id in Catalog(us) <==> exists k :: 0 <= k < |us| && us[k].1.filename == id {
        if k :| 0 <= k < m && us[..m][k].1.filename == id {
          assert us[k].1.filename == id;
        }
        if k :| 0 <= k < |us| && us[k].1.filename == id && k < m {
          assert us[..m][k].1.filename == id;
        }
      }
      forall k | 0 <= k < |us| && LastNamed(us, k)
        ensures Catalog(us)[us[k].1.filename] == Node(us[k].1.filename, us[k].1.kind, us[k].0, false)
      {
        if k < m {
          assert LastNamed(us[..m], k) && us[..m][k] == us[k];
        }
      }
    }
  }

  /** A service stands for the last unit of the project that has it. */
  lemma {:induction false} ServicesIs(us: seq<(string, Unit)>)
    ensures forall s :: s in Services(us) <==> s != "" && exists k :: 0 <= k < |us| && us[k].1.service == s
    ensures forall k :: 0 <= k < |us| && LastServing(us, k) ==> Services(us)[us[k].1.service] == us[k].1.filename
  {
    if us != [] {
      var m := |us| - 1;
      ServicesIs(us[..m]);
      assert us == us[..m] + [us[m]];
      forall s ensures s in Services(us) <==> s != "" && exists k :: 0 <= k < |us| && us[k].1.service == s {
        if k :| 0 <= k < m && us[..m][k].1.service == s {
          assert us[k].1.service == s;
        }
        if k :| 0 <= k < |us| && us[k].1.service == s && k < m {
          assert us[..m][k].1.service == s;
        }
      }
      forall k | 0 <= k < |us| && LastServing(us, k) ensures Services(us)[us[k].1.service] == us[k].1.filename {
        if k < m {
          assert LastServing(us[..m], k) && us[..m][k] == us[k];
        }
      }
    }
  }

  /** A target resolves to the file name of the unit that its service stands for, and to itself if it is no service. */
  ghost predicate ResolvesTo(us: seq<(string, Unit)>, t: string, id: string) {
    || (exists k :: 0 <= k < |us| && us[k].1.service == t && LastServing(us, k) && us[k].1.filename == id)
    || (id == t && (t == "" || forall k :: 0 <= k < |us| ==> us[k].1.service != t))
  }

  lemma {:induction false} LastServes(us: seq<(string, Unit)>, s: string) returns (k: nat)
    requires s != "" && exists j :: 0 <= j < |us| && us[j].1.service == s
    ensures k < |us| && us[k].1.service == s && LastServing(us, k)
  {
    var m := |us| - 1;
    if us[m].1.service == s {
      k := m;
    } else {
      var j :| 0 <= j < |us| && us[j].1.service == s;
      assert us[..m][j].1.service == s;
      k := LastServes(us[..m], s);
    }
  }

  lemma TargetIs(us: seq<(string, Unit)>, t: string, id: string)
    ensures id == Target(t, Services(us)) <==> ResolvesTo(us, t, id)
  {
    ServicesIs(us);
    hide Services;
    if t in Services(us) {
      var k := LastServes(us, t);
    }
  }

  /** u declares e in the project us: one of its directives lists a target that resolves to e.to, or it refers to a
      unit of the project with that file name. */
  ghost predicate DeclaredIn(us: seq<(string, Unit)>, u: Unit, e: Edge) {
    && e.from == u.filename
    && ((exists t :: Lists(u.data, e.rel, t) && ResolvesTo(us, t, e.to))
        || (RefersTo(u.data, e.to, e.rel) && exists k :: 0 <= k < |us| && us[k].1.filename == e.to))
  }

  lemma DeclaresIff(us: seq<(string, Unit)>, u: Unit, e: Edge)
    ensures Declares(u, e, Services(us), Catalog(us)) <==> DeclaredIn(us, u, e)
  {
    CatalogIs(us);
    hide Services, Catalog, Target, ResolvesTo, Lists, RefersTo;
    forall t ensures e.to == Target(t, Services(us)) <==> ResolvesTo(us, t, e.to) {
      TargetIs(us, t, e.to);
    }
  }

  ghost predicate InOne(ds: seq<(string, seq<string>)>, rel: string, t: string) {
    exists d :: d in ds && d.0 == rel && t in d.1
  }

  lemma InOneNext(ds: seq<(string, seq<string>)>, d: (string, seq<string>), rel: string, t: string)
    ensures InOne(ds + [d], rel, t) <==> InOne(ds, rel, t) || (d.0 == rel && t in d.1)
  {
    if InOne(ds, rel, t) {
      var x :| x in ds && x.0 == rel && t in x.1;
      assert x in ds + [d];
    }
    assert d in ds + [d];
  }

  lemma TargetEdgesIff(from: string, d: (string, seq<string>), e: Edge, services: map<string, string>)
    ensures e in TargetEdges(from, d.0, d.1, services) <==>
            e.from == from && d.0 == e.rel && exists t :: t in d.1 && e.to == Target(t, services)
  {
    hide Target;
    if t :| t in d.1 && e == Edge(from, Target(t, services), d.0) {
      var i :| 0 <= i < |d.1| && d.1[i] == t;
      assert TargetEdges(from, d.0, d.1, services)[i] == e;
    }
  }

  lemma {:induction false} DirectiveEdgesIff(from: string, ds: seq<(string, seq<string>)>, e: Edge,
                                             services: map<string, string>)
    ensures e in DirectiveEdges(from, ds, services) <==>
            e.from == from && exists t :: InOne(ds, e.rel, t) && e.to == Target(t, services)
  {
    if ds != [] {
      var before, d := ds[..|ds| - 1], ds[|ds| - 1];
      DirectiveEdgesIff(from, before, e, services);
      TargetEdgesIff(from, d, e, services);
      assert ds == before + [d];
      hide Target, TargetEdges, InOne;
      forall t ensures InOne(ds, e.rel, t) <==> InOne(before, e.rel, t) || (d.0 == e.rel && t in d.1) {
        InOneNext(before, d, e.rel, t);
      }
    }
  }

  lemma {:induction false} RefEdgesIff(from: string, refs: seq<(string, string)>, e: Edge, catalog: map<string, Node>)
    ensures e in RefEdges(from, refs, catalog) <==> e.from == from && (e.to, e.rel) in refs && e.to in catalog
  {
    if refs != [] {
      var before, last := refs[..|refs| - 1], refs[|refs| - 1];
      RefEdgesIff(from, before, e, catalog);
      assert refs == before + [last];
      assert RefEdges(from, refs, catalog) ==
             RefEdges(from, before, catalog) + if last.0 in catalog then [Edge(from, last.0, last.1)] else [];
      assert last == (e.to, e.rel) <==> last.0 == e.to && last.1 == e.rel;
    }
  }

  lemma UnitEdgesIff(u: Unit, e: Edge, services: map<string, string>, catalog: map<string, Node>)
    ensures e in UnitEdges(u, services, catalog) <==> Declares(u, e, services, catalog)
  {
    hide Lists, RefersTo, Directives, Refs, DirectiveEdges, RefEdges, DIRECTIVES, Target, InOne;
    DirectiveEdgesIff(u.filename, Directives(u.data), e, services);
    RefEdgesIff(u.filename, Refs(u.data), e, catalog);
    RefsIff(u.data, e.to, e.rel);
    forall t ensures Lists(u.data, e.rel, t) <==> InOne(Directives(u.data), e.rel, t) {
      DirectivesIff(u.data, e.rel, t);
    }
  }

  /** The graph has exactly the edges that its units declare. */
  lemma {:induction false} EdgesDeclared(units: seq<Unit>, e: Edge, services: map<string, string>,
                                         catalog: map<string, Node>)
    ensures e in EdgesOf(units, services, catalog) <==>
            exists u :: u in units && Declares(u, e, services, catalog)
  {
    hide Declares, UnitEdges;
    if units != [] {
      var n := |units| - 1;
      EdgesDeclared(units[..n], e, services, catalog);
      UnitEdgesIff(units[n], e, services, catalog);
      assert units == units[..n] + [units[n]];
    }
  }

  /** depGraph: nodes by id, and edges in the order they were declared. */
  class Graph {
    var nodes: map<string, Node>
    var edges: seq<Edge>

    /** The nodes are the units named in own and the targets of edges, and every edge leaves a unit in own. A node is
        the unit of that name in the project, which it always is for one in own, or external. */
    ghost predicate Valid(own: set<string>, catalog: map<string, Node>)
      reads this
    {
      && own <= catalog.Keys
      && nodes.Keys == own + Targets(edges)
      && (forall e :: e in edges ==> e.from in own)
      && (forall id :: id in own ==> id in nodes && nodes[id] == catalog[id])
      && (forall id :: id in nodes ==> nodes[id] == External(id) || (id in catalog && nodes[id] == catalog[id]))
    }

    constructor ()
      ensures nodes == map[] && edges == []
    {
      nodes, edges := map[], [];
    }

    /** Adds the edge, and its target as the node that it names unless there is one. */
    method AddEdge(e: Edge, node: Node, ghost own: set<string>, ghost catalog: map<string, Node>)
      requires Valid(own, catalog) && e.from in own
      requires node == External(e.to) || (e.to in catalog && node == catalog[e.to])
      modifies this
      ensures Valid(own, catalog) && edges == old(edges) + [e]
      ensures nodes == if e.to in old(nodes) then old(nodes) else old(nodes)[e.to := node]
    {
      if e.to !in nodes {
        nodes := nodes[e.to := node];
      }
      edges := edges + [e];
      assert Targets(edges) == Targets(old(edges)) + {e.to};
    }

    /** addUnitEdges for one directive: a managed target resolves, any other becomes an external node. */
    method AddTargets(u: Unit, rel: string, targets: seq<string>, services: map<string, string>,
                      catalog: map<string, Node>, ghost own: set<string>)
      requires Valid(own, catalog) && u.filename in own && forall s :: s in services ==> services[s] in catalog
      modifies this
      ensures Valid(own, catalog) && edges == old(edges) + TargetEdges(u.filename, rel, targets, services)
    {
      hide Valid;
      for i := 0 to |targets|
        invariant Valid(own, catalog) && edges == old(edges) + TargetEdges(u.filename, rel, targets, services)[..i]
      {
        var target := targets[i];
        if target in services {
          AddEdge(Edge(u.filename, services[target], rel), catalog[services[target]], own, catalog);
        } else {
          AddEdge(Edge(u.filename, target, rel), External(target), own, catalog);
        }
      }
    }

    /** addUnitEdges: the listed directives in their order. */
    method AddUnitEdges(u: Unit, services: map<string, string>, catalog: map<string, Node>, ghost own: set<string>)
      requires Valid(own, catalog) && u.filename in own && forall s :: s in services ==> services[s] in catalog
      modifies this
      ensures Valid(own, catalog) && edges == old(edges) + DirectiveEdges(u.filename, Directives(u.data), services)
    {
      hide Valid, TargetEdges, Directives, DIRECTIVES;
      var ds := Directives(u.data);
      for i := 0 to |ds|
        invariant Valid(own, catalog) && edges == old(edges) + DirectiveEdges(u.filename, ds[..i], services)
      {
        assert ds[..i + 1][..i] == ds[..i];
        AddTargets(u, ds[i].0, ds[i].1, services, catalog, own);
      }
      assert ds[..|ds|] == ds;
    }

    /** addResourceEdges: references to managed units link to them. */
    method AddResourceEdges(u: Unit, catalog: map<string, Node>, ghost own: set<string>)
      requires Valid(own, catalog) && u.filename in own
      modifies this
      ensures Valid(own, catalog) && edges == old(edges) + RefEdges(u.filename, Refs(u.data), catalog)
    {
      hide Valid, Refs;
      var refs := Refs(u.data);
      for i := 0 to |refs|
        invariant Valid(own, catalog) && edges == old(edges) + RefEdges(u.filename, refs[..i], catalog)
      {
        assert refs[..i + 1][..i] == refs[..i];
        var (ref, rel) := refs[i];
        if ref in catalog {
          AddEdge(Edge(u.filename, ref, rel), catalog[ref], own, catalog);
        }
      }
      assert refs[..|refs|] == refs;
    }

    method AddUnit(u: Unit, services: map<string, string>, catalog: map<string, Node>, ghost own: set<string>)
      requires Valid(own, catalog) && u.filename in own && forall s :: s in services ==> services[s] in catalog
      modifies this
      ensures Valid(own, catalog) && edges == old(edges) + UnitEdges(u, services, catalog)
    {
      hide Valid, DirectiveEdges, RefEdges, Directives, Refs;
      AddUnitEdges(u, services, catalog, own);
      AddResourceEdges(u, catalog, own);
    }

    /** The first loop of buildGraph: the focus units become nodes. */
    method AddFocus(us: seq<Unit>, catalog: map<string, Node>)
      requires nodes == map[] && edges == [] && Names(us) <= catalog.Keys
      modifies this
      ensures Valid(Names(us), catalog) && edges == []
    {
      for i := 0 to |us|
        invariant Valid(Names(us[..i]), catalog) && edges == []
      {
        var id := us[i].filename;
        assert us[..i + 1] == us[..i] + [us[i]];
        assert Names(us[..i + 1]) == Names(us[..i]) + {id};
        assert id in Names(us);
        nodes := nodes[id := catalog[id]];
      }
      assert us[..|us|] == us;
    }

    /** Its second loop: their edges. */
    method AddEdges(us: seq<Unit>, services: map<string, string>, catalog: map<string, Node>)
      requires Valid(Names(us), catalog) && edges == [] && forall s :: s in services ==> services[s] in catalog
      modifies this
      ensures Valid(Names(us), catalog) && edges == EdgesOf(us, services, catalog)
    {
      hide Valid, UnitEdges;
      for i := 0 to |us|
        invariant Valid(Names(us), catalog) && edges == EdgesOf(us[..i], services, catalog)
      {
        assert us[..i + 1][..i] == us[..i];
        AddUnit(us[i], services, catalog, Names(us));
      }
      assert us[..|us|] == us;
    }
  }

  /** buildGraph: the graph of the focus quadlets, with references resolved against the whole project, of which
      the focus is a part. */
  method BuildGraph(focus: seq<Quadlet>, all: seq<Quadlet>) returns (g: Graph)
    requires Names(Second(Flatten(focus))) <= Catalog(Flatten(all)).Keys
    ensures fresh(g) && g.Valid(Names(Second(Flatten(focus))), Catalog(Flatten(all)))
    ensures g.edges == EdgesOf(Second(Flatten(focus)), Services(Flatten(all)), Catalog(Flatten(all)))
    ensures forall e :: e in g.edges <==> exists q, u :: (q, u) in Flatten(focus) && DeclaredIn(Flatten(all), u, e)
    ensures forall id :: id in g.nodes ==> NodeIn(Flatten(all), id, g.nodes[id])
  {
    hide *;
    var catalog, services := Catalog(Flatten(all)), Services(Flatten(all));
    ServicesInCatalog(Flatten(all));
    g := new Graph();
    g.AddFocus(Second(Flatten(focus)), catalog);
    g.AddEdges(Second(Flatten(focus)), services, catalog);
    EdgesAre(Flatten(focus), Flatten(all));
    NodesAre(g, Names(Second(Flatten(focus))), Flatten(all));
  }

  /** The node is the last unit of the project with that file name, with its kind and quadlet, or one of no quadlet that
      is external. */
  ghost predicate NodeIn(us: seq<(string, Unit)>, id: string, n: Node) {
    || n == Node(id, "external", "", true)
    || exists k :: 0 <= k < |us| && us[k].1.filename == id && LastNamed(us, k)
                   && n == Node(id, us[k].1.kind, us[k].0, false)
  }

  lemma EdgesAre(focus: seq<(string, Unit)>, us: seq<(string, Unit)>)
    ensures forall e :: e in EdgesOf(Second(focus), Services(us), Catalog(us)) <==>
                        exists q, u :: (q, u) in focus && DeclaredIn(us, u, e)
  {
    hide EdgesOf, Services, Catalog, Declares, DeclaredIn;
    forall e ensures e in EdgesOf(Second(focus), Services(us), Catalog(us)) <==>
                     exists q, u :: (q, u) in focus && DeclaredIn(us, u, e)
    {
      EdgesDeclared(Second(focus), e, Services(us), Catalog(us));
      forall u ensures Declares(u, e, Services(us), Catalog(us)) <==> DeclaredIn(us, u, e) {
        DeclaresIff(us, u, e);
      }
      if u :| u in Second(focus) && Declares(u, e, Services(us), Catalog(us)) {
        var i :| 0 <= i < |focus| && focus[i].1 == u;
        assert (focus[i].0, u) in focus;
      }
      if q, u :| (q, u) in focus && DeclaredIn(us, u, e) {
        var i :| 0 <= i < |focus| && focus[i] == (q, u);
        assert Second(focus)[i] == u;
      }
    }
  }

  lemma {:induction false} LastOfName(us: seq<(string, Unit)>, id: string) returns (k: nat)
    requires exists j :: 0 <= j < |us| && us[j].1.filename == id
    ensures k < |us| && us[k].1.filename == id && LastNamed(us, k)
  {
    var m := |us| - 1;
    if us[m].1.filename == id {
      k := m;
    } else {
      var j :| 0 <= j < |us| && us[j].1.filename == id;
      assert us[..m][j].1.filename == id;
      k := LastOfName(us[..m], id);
    }
  }

  lemma NodesAre(g: Graph, own: set<string>, us: seq<(string, Unit)>)
    requires g.Valid(own, Catalog(us))
    ensures forall id :: id in g.nodes ==> NodeIn(us, id, g.nodes[id])
  {
    CatalogIs(us);
    hide Catalog, Targets;
    forall id | id in g.nodes ensures NodeIn(us, id, g.nodes[id]) {
      if g.nodes[id] != External(id) {
        var k := LastOfName(us, id);
      }
    }
  }

  // ---------- edges in order

  predicate EdgeLe(a: Edge, b: Edge) {
    if a.from != b.from then Le(a.from, b.from)
    else if a.rel != b.rel then Le(a.rel, b.rel)
    else Le(a.to, b.to)
  }

  /** Edges are ordered by where they start, then by relation, then by where they end. */
  lemma EdgeLeIff(a: Edge, b: Edge)
    ensures a != b ==> (EdgeLe(a, b) <==>
              || (a.from != b.from && Le(a.from, b.from))
              || (a.from == b.from && a.rel != b.rel && Le(a.rel, b.rel))
              || (a.from == b.from && a.rel == b.rel && Le(a.to, b.to)))
  {
  }

  lemma EdgeLeTransitive(a: Edge, b: Edge, c: Edge)
    requires EdgeLe(a, b) && EdgeLe(b, c)
    ensures EdgeLe(a, c)
  {
    hide Le;
    LeTotal(b.from, b.from);
    LeTotal(b.rel, b.rel);
    if a.from != b.from || b.from != c.from {
      LeTransitive(a.from, b.from, c.from);
      if a.from == c.from {
        LeAntisymmetric(a.from, b.from);
      }
    } else if a.rel != b.rel || b.rel != c.rel {
      LeTransitive(a.rel, b.rel, c.rel);
      if a.rel == c.rel {
        LeAntisymmetric(a.rel, b.rel);
      }
    } else {
      LeTransitive(a.to, b.to, c.to);
    }
  }

  lemma EdgeLeOrders()
    ensures Total(EdgeLe) && Transitive(EdgeLe)
  {
    forall a, b ensures EdgeLe(a, b) || EdgeLe(b, a) {
      LeTotal(a.from, b.from);
      LeTotal(a.rel, b.rel);
      LeTotal(a.to, b.to);
    }
    forall a, b, c | EdgeLe(a, b) && EdgeLe(b, c) ensures EdgeLe(a, c) {
      EdgeLeTransitive(a, b, c);
    }
  }

  lemma EdgeLeAntisymmetric(a: Edge, b: Edge)
    requires EdgeLe(a, b) && EdgeLe(b, a)
    ensures a == b
  {
    if a.from != b.from {
      LeAntisymmetric(a.from, b.from);
    } else if a.rel != b.rel {
      LeAntisymmetric(a.rel, b.rel);
    } else {
      LeAntisymmetric(a.to, b.to);
    }
  }

  lemma StrictExtend(out: seq<Edge>, e: Edge)
    requires StrictlySorted(out, EdgeLe) && (out != [] ==> EdgeLe(out[|out| - 1], e) && out[|out| - 1] != e)
    ensures StrictlySorted(out + [e], EdgeLe)
  {
    hide EdgeLe;
    forall j | 0 <= j < |out| ensures EdgeLe(out[j], e) && out[j] != e {
      if j < |out| - 1 {
        EdgeLeTransitive(out[j], out[|out| - 1], e);
        if out[j] == e {
          EdgeLeAntisymmetric(e, out[|out| - 1]);
        }
      }
    }
  }

  /** sortedEdges: a sorted copy, compacted by dropping an edge that equals the one kept last. */
  method SortedEdges(edges: seq<Edge>) returns (out: seq<Edge>)
    ensures StrictlySorted(out, EdgeLe) && forall e :: e in out <==> e in edges
  {
    hide EdgeLe, Sort, Total, Transitive;
    EdgeLeOrders();
    var sorted := Sort(edges, EdgeLe);
    SameElems(sorted, edges);
    out := [];
    for i := 0 to |sorted|
      invariant StrictlySorted(out, EdgeLe) && (out != [] <==> i > 0)
      invariant i > 0 ==> out[|out| - 1] == sorted[i - 1]
      invariant forall e :: e in out <==> e in sorted[..i]
    {
      var e := sorted[i];
      assert sorted[..i + 1] == sorted[..i] + [e];
      if |out| > 0 && out[|out| - 1] == e {
        continue;
      }
      StrictExtend(out, e);
      out := out + [e];
    }
    assert sorted[..|sorted|] == sorted;
  }

  /** The order of the result is fixed by the set of edges alone. */
  lemma SortedUnique(a: seq<Edge>, b: seq<Edge>)
    requires StrictlySorted(a, EdgeLe) && StrictlySorted(b, EdgeLe) && forall e :: e in a <==> e in b
    ensures a == b
  {
    EdgeLeOrders();
    forall x, y | EdgeLe(x, y) && EdgeLe(y, x) ensures x == y {
      EdgeLeAntisymmetric(x, y);
    }
    StrictUnique(a, b, EdgeLe);
  }
}
