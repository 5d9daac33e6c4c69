/**
 * What the build phase declares into the frame graph, as values: the named
 * resource table (`m_fgrscMap`), the resources created so far (a resource's
 * handle is its index, so the next fresh handle is the number of resources),
 * and the append-only list of declared passes. How the frame graph compiles
 * and executes these is not part of this model.
 */
module FrameGraph {
  import opened Wrappers

  datatype Resource =
    | Temporary(name: string, width: nat, height: nat)  // a render target created under a name
    | ImageBacked(name: string, path: string)          // a texture loaded from an image
    | CopyOf(src: nat)                                  // the new texture of a copy pass
    | MovedFrom(src: nat)                               // a new version of `src`, same storage

  datatype Pass =
    | Prepare(output: nat)
    | Copy(src: nat, dst: nat)
    | Move(src: nat, dst: nat)
    | Draw(name: string, inputs: seq<Option<nat>>, output: nat, colorMask: seq<bool>)
    | End(input: nat)

  datatype Graph = Graph(table: map<string, nat>, resources: seq<Resource>, passes: seq<Pass>)

  /** A fresh frame graph with an empty resource table. */
  const Empty: Graph := Graph(map[], [], [])

  /** The name a resource version was created under, following moves back to the creation. */
  function Origin(rs: seq<Resource>, id: nat): Option<string>
    decreases id
  {
    if id >= |rs| then None
    else match rs[id]
      case Temporary(name, _, _) => Some(name)
      case MovedFrom(src) => if src < id then Origin(rs, src) else None
      case _ => None
  }

  /** The first version of a resource's storage: moves followed back to the version they started from. */
  function Root(rs: seq<Resource>, id: nat): (r: nat)
    ensures r <= id
    ensures id < |rs| ==> r < |rs| && !(rs[r].MovedFrom? && rs[r].src < r)
    decreases id
  {
    if id < |rs| && rs[id].MovedFrom? && rs[id].src < id then Root(rs, rs[id].src) else id
  }

  /** Every name in the table refers to a version that was created under that very name. */
  ghost predicate Consistent(g: Graph)
  {
    forall name :: name in g.table ==> Origin(g.resources, g.table[name]) == Some(name)
  }

  /** `g'` only adds to `g`: no name, resource or declared pass is lost or altered. */
  ghost predicate Extends(g: Graph, g': Graph)
  {
    && g.resources <= g'.resources
    && g.passes <= g'.passes
    && g.table.Keys <= g'.table.Keys
  }

  /**
   * Every name of `g` is still a name in `g'`, and a version of it that
   * existed in `g` has been replaced only by moves: its current version in
   * `g'` exists and shares its first version.
   */
  ghost predicate KeepsRoots(g: Graph, g': Graph)
  {
    forall name :: name in g.table ==>
      && name in g'.table
      && (g.table[name] < |g.resources| ==>
            g'.table[name] < |g'.resources| && Root(g'.resources, g'.table[name]) == Root(g.resources, g.table[name]))
  }

  /** Creating more resources never changes where an existing version came from. */
  lemma {:induction false} OriginStable(rs: seq<Resource>, rs': seq<Resource>, id: nat)
    requires rs <= rs'
    requires Origin(rs, id).Some?
    ensures Origin(rs', id) == Origin(rs, id)
    decreases id
  {
    assert rs'[id] == rs[id];
    match rs[id]
    case MovedFrom(src) =>
      OriginStable(rs, rs', src);
    case _ =>
  }

  /** Appending resources and passes keeps the table consistent. */
  lemma ConsistentGrow(g: Graph, rs: seq<Resource>, ps: seq<Pass>)
    requires Consistent(g)
    requires g.resources <= rs
    ensures Consistent(Graph(g.table, rs, ps))
  {
    forall name | name in g.table
      ensures Origin(rs, g.table[name]) == Some(name)
    {
      OriginStable(g.resources, rs, g.table[name]);
    }
  }

  /** A consistent table only refers to resources that exist. */
  lemma ConsistentInRange(g: Graph, name: string)
    requires Consistent(g)
    requires name in g.table
    ensures g.table[name] < |g.resources|
  {
  }

  /** Creating more resources never changes the first version of an existing one. */
  lemma {:induction false} RootStable(rs: seq<Resource>, rs': seq<Resource>, id: nat)
    requires rs <= rs' && id < |rs|
    ensures Root(rs', id) == Root(rs, id)
    decreases id
  {
    assert rs'[id] == rs[id];
    if rs[id].MovedFrom? && rs[id].src < id {
      RootStable(rs, rs', rs[id].src);
    }
  }

  /** Appending resources and passes, with the same table, keeps every root. */
  lemma GrowKeepsRoots(g: Graph, rs: seq<Resource>, ps: seq<Pass>)
    requires g.resources <= rs
    ensures KeepsRoots(g, Graph(g.table, rs, ps))
  {
    forall name | name in g.table && g.table[name] < |g.resources|
      ensures Root(rs, g.table[name]) == Root(g.resources, g.table[name])
    {
      RootStable(g.resources, rs, g.table[name]);
    }
  }

  lemma KeepsRootsTrans(a: Graph, b: Graph, c: Graph)
    requires KeepsRoots(a, b) && KeepsRoots(b, c)
    ensures KeepsRoots(a, c)
  {
    forall name | name in a.table
      ensures name in c.table
      ensures a.table[name] < |a.resources| ==>
        c.table[name] < |c.resources| && Root(c.resources, c.table[name]) == Root(a.resources, a.table[name])
    {
      assert name in b.table;
    }
  }
}
