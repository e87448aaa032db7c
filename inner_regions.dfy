/** The inner regions (conductors inside the domain) as the field solver sees
    them: a fixed potential, four node lists and the node-containment test, and
    the manager that builds the regions from the configuration in order and
    answers whether a particle lies inside one of them. */
module InnerRegions {
  import opened Grid

  datatype Option<T> = None | Some(value: T)

  /** The concrete kind of a region. */
  datatype Shape = Box | Sphere | Cylinder | Tube

  /** The kind of an inner-region section of the configuration; OtherPart is a
      section of a type the manager does not know. */
  datatype PartKind = BoxPart | SpherePart | CylinderPart | TubePart | OtherPart

  /** The nodes a region's geometry selects on the mesh: all nodes inside, those
      of them not on the domain edge, the near-boundary nodes, those of them not
      on the domain edge, and the node-containment test as the set of nodes it
      accepts. */
  datatype NodeClassification = NodeClassification(
    innerNodes: seq<Node>,
    innerNodesNotAtDomainEdge: seq<Node>,
    nearBoundaryNodes: seq<Node>,
    nearBoundaryNodesNotAtDomainEdge: seq<Node>,
    inside: set<Node>)

  /** One inner-region section of the configuration, with the classification its
      geometry yields on the mesh. */
  datatype ConfigPart = ConfigPart(kind: PartKind, name: string, potential: real, nodes: NodeClassification)

  datatype Region = Region(
    name: string,
    shape: Shape,
    potential: real,
    innerNodes: seq<Node>,
    innerNodesNotAtDomainEdge: seq<Node>,
    nearBoundaryNodes: seq<Node>,
    nearBoundaryNodesNotAtDomainEdge: seq<Node>,
    inside: set<Node>)

  /** The position of a particle; its other attributes play no part here. */
  datatype Particle = Particle(x: real, y: real, z: real)

  /** The region type a config section asks for (the chain of dynamic casts). */
  function ShapeOf(kind: PartKind): (r: Option<Shape>)
    ensures r.None? <==> kind == OtherPart
  {
    match kind
    case BoxPart => Some(Box)
    case SpherePart => Some(Sphere)
    case CylinderPart => Some(Cylinder)
    case TubePart => Some(Tube)
    case OtherPart => None
  }

  /** The region a known config section builds: its name, potential and nodes. */
  function NewRegion(part: ConfigPart, shape: Shape): (r: Region)
    ensures r.shape == shape && r.potential == part.potential && r.name == part.name
    ensures r.inside == part.nodes.inside
    ensures r.innerNodesNotAtDomainEdge == part.nodes.innerNodesNotAtDomainEdge
    ensures r.nearBoundaryNodesNotAtDomainEdge == part.nodes.nearBoundaryNodesNotAtDomainEdge
  {
    var n := part.nodes;
    Region(part.name, shape, part.potential, n.innerNodes, n.innerNodesNotAtDomainEdge,
           n.nearBoundaryNodes, n.nearBoundaryNodesNotAtDomainEdge, n.inside)
  }

  /** The regions the manager holds after reading parts in order, or None when
      construction aborts on a section of unknown type. */
  function RegionsFromConfig(parts: seq<ConfigPart>): Option<seq<Region>>
    decreases |parts|
  {
    if parts == [] then Some([])
    else
      var last := parts[|parts| - 1];
      match RegionsFromConfig(parts[..|parts| - 1])
      case None => None
      case Some(rs) =>
        match ShapeOf(last.kind)
        case None => None
        case Some(s) => Some(rs + [NewRegion(last, s)])
  }

  /** Construction aborts exactly when some section has an unknown type; otherwise
      there is one region per section, in configuration order, each of the type
      its section names. */
  lemma {:induction false} RegionsFromConfigSpec(parts: seq<ConfigPart>)
    ensures RegionsFromConfig(parts).None? <==> exists t :: 0 <= t < |parts| && parts[t].kind == OtherPart
    ensures RegionsFromConfig(parts).Some? ==>
      var rs := RegionsFromConfig(parts).value;
      |rs| == |parts| &&
      forall t :: 0 <= t < |parts| ==> ShapeOf(parts[t].kind).Some? && rs[t] == NewRegion(parts[t], ShapeOf(parts[t].kind).value)
    decreases |parts|
  {
    if parts != [] {
      var init := parts[..|parts| - 1];
      RegionsFromConfigSpec(init);
      assert forall t :: 0 <= t < |init| ==> init[t] == parts[t];
      if exists t :: 0 <= t < |init| && init[t].kind == OtherPart {
        var t :| 0 <= t < |init| && init[t].kind == OtherPart;
        assert parts[t].kind == OtherPart;
      }
    }
  }

  /** Every node the solver numbers is an unknown: the nodes inside and the
      near-boundary nodes that are not at the domain edge are interior. */
  predicate WellFormed(g: Grid, reg: Region)
  {
    (forall t :: 0 <= t < |reg.innerNodesNotAtDomainEdge| ==> Interior(g, reg.innerNodesNotAtDomainEdge[t]))
    && (forall t :: 0 <= t < |reg.nearBoundaryNodesNotAtDomainEdge| ==> Interior(g, reg.nearBoundaryNodesNotAtDomainEdge[t]))
  }

  class RegionsManager {
    var regions: seq<Region>

    constructor Empty()
      ensures regions == []
    {
      regions := [];
    }

    /** The manager constructor: one region appended per section, in order; a
        section of unknown type aborts (null). */
    static method Create(parts: seq<ConfigPart>) returns (m: RegionsManager?)
      ensures m == null <==> RegionsFromConfig(parts).None?
      ensures m != null ==> fresh(m) && RegionsFromConfig(parts) == Some(m.regions)
    {
      m := new RegionsManager.Empty();
      for t := 0 to |parts|
        invariant fresh(m)
        invariant RegionsFromConfig(parts[..t]) == Some(m.regions)
      {
        assert parts[..t + 1][..t] == parts[..t];
        var kind := parts[t].kind;
        if kind == BoxPart {
          m.regions := m.regions + [NewRegion(parts[t], Box)];
        } else if kind == SpherePart {
          m.regions := m.regions + [NewRegion(parts[t], Sphere)];
        } else if kind == CylinderPart {
          m.regions := m.regions + [NewRegion(parts[t], Cylinder)];
        } else if kind == TubePart {
          m.regions := m.regions + [NewRegion(parts[t], Tube)];
        } else {
          RegionsFromConfigSpec(parts);
          return null;
        }
      }
      assert parts[..|parts|] == parts;
    }

    /** True exactly when some region reports the particle inside. */
    method CheckIfParticleInside(p: Particle, regionContains: (Region, Particle) -> bool) returns (inside: bool)
      ensures inside <==> exists t :: 0 <= t < |regions| && regionContains(regions[t], p)
    {
      for t := 0 to |regions|
        invariant forall u :: 0 <= u < t ==> !regionContains(regions[u], p)
      {
        if regionContains(regions[t], p) {
          return true;
        }
      }
      return false;
    }

    /** Asks the regions in order and stops at the first that reports the
        particle (and counts its charge); hit is that region, and no region after
        it is asked. */
    method CheckIfParticleInsideAndCountCharge(p: Particle, regionContains: (Region, Particle) -> bool)
      returns (inside: bool, hit: int)
      ensures inside <==> exists t :: 0 <= t < |regions| && regionContains(regions[t], p)
      ensures inside ==> 0 <= hit < |regions| && regionContains(regions[hit], p)
      ensures inside ==> forall u :: 0 <= u < hit ==> !regionContains(regions[u], p)
      ensures !inside ==> hit == -1
    {
      for t := 0 to |regions|
        invariant forall u :: 0 <= u < t ==> !regionContains(regions[u], p)
      {
        if regionContains(regions[t], p) {
          return true, t;
        }
      }
      return false, -1;
    }
  }
}
