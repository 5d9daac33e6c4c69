/**
 * The build phase of `GLGraphicManager` as functions over a frame graph:
 * the prepare, copy and end passes, the per-node pass declaration of
 * `ToFrameGraphPass` (texture-reference resolution, output versioning,
 * colour mask, effect-chain retargeting), the pre-order scene traversal and
 * `InitializeScene`. The class in module Manager is proved to follow these.
 *
 * `IsSpecTex` is not part of this model; every function takes the predicate
 * as the parameter `isSpec`.
 */
module Translate {
  import opened Wrappers
  import opened SceneGraph
  import opened FrameGraph

  /** How a build step ended: normally, or where the source throws or never returns. */
  datatype Status =
    | Ok
    | MissingCamera(name: string)  // `cameras.at(name)` throws
    | CyclicEffects                // effect chains nest deeper than there are cameras

  datatype Built = Built(g: Graph, status: Status)

  // ---------------------------------------------------------------------------
  // Colour mask

  /** Three-way lexicographic comparison, as `std::string::compare` (sign only). */
  function Compare(a: string, b: string): int
  {
    if a == [] && b == [] then 0
    else if a == [] then -1
    else if b == [] then 1
    else if a[0] < b[0] then -1
    else if a[0] > b[0] then 1
    else Compare(a[1..], b[1..])
  }

  lemma {:induction false} CompareZero(a: string, b: string)
    ensures Compare(a, b) == 0 <==> a == b
  {
    if a != [] && b != [] && a[0] == b[0] {
      CompareZero(a[1..], b[1..]);
      assert a == [a[0]] + a[1..] && b == [b[0]] + b[1..];
    }
  }

  predicate StartsWith(s: string, prefix: string)
  {
    |prefix| <= |s| && s[..|prefix|] == prefix
  }

  /**
   * The colour mask of a node's pass: red, green and blue are always written;
   * alpha only for a camera whose name is non-empty and does not start with
   * "global" (`camera.compare(0, 6, "global") == 0` tests that prefix).
   */
  function ColorMask(camera: string): (m: seq<bool>)
    ensures |m| == 4 && m[0] && m[1] && m[2]
    ensures m[3] <==> camera != "" && !StartsWith(camera, "global")
  {
    var head := camera[..if |camera| < 6 then |camera| else 6];
    CompareZero(head, "global");
    [true, true, true, !(camera == "" || Compare(head, "global") == 0)]
  }

  // ---------------------------------------------------------------------------
  // Passes that do not come from scene nodes

  /**
   * `AddPreParePass`: a fresh temporary for the default target, sized from its
   * configured render target or 1920x1080, becomes the table's version of it.
   */
  function PreparePass(g: Graph, scene: Scene): Graph
  {
    var rt := TargetFor(scene, Default);
    var id := |g.resources|;
    Graph(g.table[Default := id],
          g.resources + [Temporary(Default, rt.width, rt.height)],
          g.passes + [Prepare(id)])
  }

  /** `AddCopyPass`: reads `src`, writes a new texture created like it; the table is untouched. */
  function CopyPass(g: Graph, src: nat): (Graph, nat)
  {
    var dst := |g.resources|;
    (Graph(g.table, g.resources + [CopyOf(src)], g.passes + [Copy(src, dst)]), dst)
  }

  /** `AddEndPass`: reads `input` and presents it; creates nothing. */
  function EndPass(g: Graph, input: nat): Graph
  {
    g.(passes := g.passes + [End(input)])
  }

  // ---------------------------------------------------------------------------
  // Texture-reference resolution (the loop over `material->textures`)

  /** Resolves one texture reference of a pass that writes `output`. */
  function ResolveOne(g: Graph, url: string, output: string, isSpec: string -> bool): (Graph, Option<nat>)
  {
    if url == "" then (g, None)
    else if isSpec(url) then
      if url in g.table then
        if url == output then
          var (g', dst) := CopyPass(g, g.table[url]);
          (g', Some(dst))
        else (g, Some(g.table[url]))
      else (g, None)  // logged as "not found"; the slot stays unbound
    else
      (g.(resources := g.resources + [ImageBacked(url, url)]), Some(|g.resources|))
  }

  /** Resolves the references in order, slot by slot. */
  function Resolve(g: Graph, urls: seq<string>, output: string, isSpec: string -> bool): (r: (Graph, seq<Option<nat>>))
    ensures r.0.table == g.table
    ensures g.resources <= r.0.resources && g.passes <= r.0.passes
    ensures |r.1| == |urls|
    decreases |urls|
  {
    if urls == [] then (g, [])
    else
      var (g1, slots) := Resolve(g, urls[..|urls| - 1], output, isSpec);
      var (g2, slot) := ResolveOne(g1, urls[|urls| - 1], output, isSpec);
      (g2, slots + [slot])
  }

  /**
   * What slot `slot` of a pass writing `output` holds for reference `url`,
   * given the graph `g` before the pass and `g'` some time after it.
   */
  ghost predicate SlotResolved(g: Graph, g': Graph, url: string, output: string, slot: Option<nat>, isSpec: string -> bool)
  {
    if url == "" then slot == None
    else if !isSpec(url) then
      && slot.Some? && |g.resources| <= slot.value < |g'.resources|
      && g'.resources[slot.value] == ImageBacked(url, url)
    else if url !in g.table then slot == None
    else if url != output then slot == Some(g.table[url])
    else
      && slot.Some? && |g.resources| <= slot.value < |g'.resources|
      && g'.resources[slot.value] == CopyOf(g.table[url])
      && |g.passes| <= |g'.passes|
      && Copy(g.table[url], slot.value) in g'.passes[|g.passes|..]
  }

  /** A slot created by this pass (an image texture or a copy). */
  predicate FreshSlot(g: Graph, slot: Option<nat>)
  {
    slot.Some? && slot.value >= |g.resources|
  }

  lemma SlotResolvedGrow(g: Graph, g1: Graph, g2: Graph, url: string, output: string, slot: Option<nat>, isSpec: string -> bool)
    requires SlotResolved(g, g1, url, output, slot, isSpec)
    requires g1.resources <= g2.resources && g1.passes <= g2.passes
    ensures SlotResolved(g, g2, url, output, slot, isSpec)
  {
    if url != "" && isSpec(url) && url in g.table && url == output {
      var c := Copy(g.table[url], slot.value);
      var k :| |g.passes| <= k < |g1.passes| && g1.passes[k] == c;
      assert g2.passes[k] == c;
    }
  }

  /**
   * Texture-reference resolution: an empty name leaves its slot unbound; a
   * special name in the table is bound to its current version, or, when it is
   * the name the pass writes, to the output of a new copy of that version; a
   * special name missing from the table leaves the slot unbound; any other
   * name gets a new image-backed texture whose name and path are the name.
   * The slots this pass creates are distinct and in slot order.
   */
  lemma {:induction false} ResolveBindsSlots(g: Graph, urls: seq<string>, output: string, isSpec: string -> bool)
    requires Consistent(g)
    ensures var r := Resolve(g, urls, output, isSpec);
      && (forall i :: 0 <= i < |urls| ==> SlotResolved(g, r.0, urls[i], output, r.1[i], isSpec))
      && (forall i, j :: 0 <= i < j < |urls| && FreshSlot(g, r.1[i]) && FreshSlot(g, r.1[j]) ==>
            r.1[i].value < r.1[j].value)
    decreases |urls|
  {
    if urls != [] {
      var init := urls[..|urls| - 1];
      var last := urls[|urls| - 1];
      ResolveBindsSlots(g, init, output, isSpec);
      var (g1, slots) := Resolve(g, init, output, isSpec);
      var (g2, slot) := ResolveOne(g1, last, output, isSpec);
      assert Resolve(g, urls, output, isSpec) == (g2, slots + [slot]);
      forall i | 0 <= i < |init|
        ensures SlotResolved(g, g2, urls[i], output, (slots + [slot])[i], isSpec)
      {
        SlotResolvedGrow(g, g1, g2, init[i], output, slots[i], isSpec);
      }
      if last != "" && isSpec(last) && last in g.table {
        ConsistentInRange(g, last);
      }
      if last != "" && isSpec(last) && last in g.table && last == output {
        assert g2.passes[|g1.passes|] == Copy(g.table[last], slot.value);
      }
      assert SlotResolved(g, g2, last, output, slot, isSpec);
      forall i | 0 <= i < |init| && FreshSlot(g, slots[i]) && FreshSlot(g, slot)
        ensures slots[i].value < slot.value
      {
        assert SlotResolved(g, g1, init[i], output, slots[i], isSpec);
        if init[i] != "" && isSpec(init[i]) && init[i] in g.table && init[i] != output {
          ConsistentInRange(g, init[i]);
        }
      }
    }
  }

  /** Number of references equal to `x`. */
  function Occurrences(urls: seq<string>, x: string): nat
    decreases |urls|
  {
    if urls == [] then 0
    else Occurrences(urls[..|urls| - 1], x) + (if urls[|urls| - 1] == x then 1 else 0)
  }

  /** Number of copy passes a pass writing `output` needs: one per reference to the name it writes. */
  function SelfReferences(g: Graph, urls: seq<string>, output: string, isSpec: string -> bool): nat
  {
    if output != "" && isSpec(output) && output in g.table then Occurrences(urls, output) else 0
  }

  /**
   * Self-reference: resolution declares exactly one copy pass per reference
   * to the name the pass writes, and nothing else; each copy reads the
   * current version of that name.
   */
  lemma {:induction false} ResolveCopies(g: Graph, urls: seq<string>, output: string, isSpec: string -> bool)
    ensures var r := Resolve(g, urls, output, isSpec);
      && |r.0.passes| == |g.passes| + SelfReferences(g, urls, output, isSpec)
      && forall p :: |g.passes| <= p < |r.0.passes| ==>
           output in g.table && r.0.passes[p].Copy? && r.0.passes[p].src == g.table[output]
    decreases |urls|
  {
    if urls != [] {
      var init := urls[..|urls| - 1];
      ResolveCopies(g, init, output, isSpec);
    }
  }

  // ---------------------------------------------------------------------------
  // Output versioning and the pass of one node

  /**
   * The write of a pass: a move of the current version when the name has one,
   * otherwise a new temporary sized from the render target; either way the new
   * version becomes the table's entry for the name.
   */
  function WriteOutput(g: Graph, output: string, rt: RenderTarget): (Graph, nat)
  {
    var id := |g.resources|;
    if output in g.table then
      (Graph(g.table[output := id], g.resources + [MovedFrom(g.table[output])],
             g.passes + [Move(g.table[output], id)]), id)
    else
      (Graph(g.table[output := id], g.resources + [Temporary(output, rt.width, rt.height)], g.passes), id)
  }

  /** The setup closure of a node's pass: resolve the inputs, write `output`, declare the draw. */
  function Setup(g: Graph, scene: Scene, material: Material, camera: string, output: string,
                 isSpec: string -> bool): (r: Graph)
    ensures Extends(g, r) && |r.passes| > |g.passes|
  {
    var (g1, inputs) := Resolve(g, material.textures, output, isSpec);
    var (g2, id) := WriteOutput(g1, output, TargetFor(scene, output));
    g2.(passes := g2.passes + [Draw(material.name, inputs, id, ColorMask(camera))])
  }

  /**
   * One node's pass. Its last declared pass draws the material into a new
   * version of `output` (a move of the current one, or a new temporary sized
   * from the render target or 1920x1080), after the copies its
   * self-references need and the move; the table afterwards maps `output`
   * to that version and every other name as before. The slots are resolved
   * as ResolveBindsSlots says, against the table before the pass.
   */
  lemma SetupDeclaresPass(g: Graph, scene: Scene, material: Material, camera: string, output: string,
                          isSpec: string -> bool)
    requires Consistent(g)
    ensures var r := Setup(g, scene, material, camera, output, isSpec);
      && output in r.table
      && r.table == g.table[output := r.table[output]]
      && r.table[output] == |r.resources| - 1 >= |g.resources|
      && r.resources[r.table[output]] ==
           (if output in g.table then MovedFrom(g.table[output])
            else Temporary(output, TargetFor(scene, output).width, TargetFor(scene, output).height))
      && |r.passes| == |g.passes| + SelfReferences(g, material.textures, output, isSpec)
                        + (if output in g.table then 2 else 1)
      && (forall p :: |g.passes| <= p < |r.passes| - (if output in g.table then 2 else 1) ==>
            r.passes[p].Copy? && r.passes[p].src == g.table[output])
      && (output in g.table ==> r.passes[|r.passes| - 2] == Move(g.table[output], r.table[output]))
      && var draw := r.passes[|r.passes| - 1];
      && draw.Draw? && draw.name == material.name && draw.output == r.table[output]
      && draw.colorMask == ColorMask(camera)
      && |draw.inputs| == |material.textures|
      && (forall i :: 0 <= i < |material.textures| ==>
            SlotResolved(g, r, material.textures[i], output, draw.inputs[i], isSpec))
      && Consistent(r)
  {
    SetupShape(g, scene, material, camera, output, isSpec);
    SetupSlots(g, scene, material, camera, output, isSpec);
    SetupConsistent(g, scene, material, camera, output, isSpec);
  }

  /** The table, the new version of `output` and the passes of one node's pass. */
  lemma SetupShape(g: Graph, scene: Scene, material: Material, camera: string, output: string,
                   isSpec: string -> bool)
    ensures var r := Setup(g, scene, material, camera, output, isSpec);
      && output in r.table
      && r.table == g.table[output := r.table[output]]
      && r.table[output] == |r.resources| - 1 >= |g.resources|
      && r.resources[r.table[output]] ==
           (if output in g.table then MovedFrom(g.table[output])
            else Temporary(output, TargetFor(scene, output).width, TargetFor(scene, output).height))
      && |r.passes| == |g.passes| + SelfReferences(g, material.textures, output, isSpec)
                        + (if output in g.table then 2 else 1)
      && (forall p :: |g.passes| <= p < |r.passes| - (if output in g.table then 2 else 1) ==>
            r.passes[p].Copy? && r.passes[p].src == g.table[output])
      && (output in g.table ==> r.passes[|r.passes| - 2] == Move(g.table[output], r.table[output]))
      && var draw := r.passes[|r.passes| - 1];
      && draw.Draw? && draw.name == material.name && draw.output == r.table[output]
      && draw.colorMask == ColorMask(camera)
      && |draw.inputs| == |material.textures|
  {
    var (g1, inputs) := Resolve(g, material.textures, output, isSpec);
    var (g2, id) := WriteOutput(g1, output, TargetFor(scene, output));
    var r := g2.(passes := g2.passes + [Draw(material.name, inputs, id, ColorMask(camera))]);
    assert r == Setup(g, scene, material, camera, output, isSpec);
    ResolveCopies(g, material.textures, output, isSpec);
  }

  /** The slots of the draw of one node's pass. */
  lemma SetupSlots(g: Graph, scene: Scene, material: Material, camera: string, output: string,
                   isSpec: string -> bool)
    requires Consistent(g)
    ensures var r := Setup(g, scene, material, camera, output, isSpec);
      var draw := r.passes[|r.passes| - 1];
      && draw.Draw? && |draw.inputs| == |material.textures|
      && (forall i :: 0 <= i < |material.textures| ==>
            SlotResolved(g, r, material.textures[i], output, draw.inputs[i], isSpec))
  {
    var (g1, inputs) := Resolve(g, material.textures, output, isSpec);
    var (g2, id) := WriteOutput(g1, output, TargetFor(scene, output));
    var r := g2.(passes := g2.passes + [Draw(material.name, inputs, id, ColorMask(camera))]);
    assert r == Setup(g, scene, material, camera, output, isSpec);
    ResolveBindsSlots(g, material.textures, output, isSpec);
    forall i | 0 <= i < |material.textures|
      ensures SlotResolved(g, r, material.textures[i], output, inputs[i], isSpec)
    {
      SlotResolvedGrow(g, g1, r, material.textures[i], output, inputs[i], isSpec);
    }
  }

  /** One node's pass keeps every table entry a version of its own name. */
  lemma SetupConsistent(g: Graph, scene: Scene, material: Material, camera: string, output: string,
                        isSpec: string -> bool)
    requires Consistent(g)
    ensures Consistent(Setup(g, scene, material, camera, output, isSpec))
  {
    var (g1, inputs) := Resolve(g, material.textures, output, isSpec);
    var (g2, id) := WriteOutput(g1, output, TargetFor(scene, output));
    var r := g2.(passes := g2.passes + [Draw(material.name, inputs, id, ColorMask(camera))]);
    assert r == Setup(g, scene, material, camera, output, isSpec);
    ConsistentGrow(g, g1.resources, g1.passes);
    assert Consistent(g1);
    WriteKeepsConsistent(g1, output, TargetFor(scene, output));
    ConsistentGrow(g2, r.resources, r.passes);
  }

  lemma WriteKeepsConsistent(g: Graph, output: string, rt: RenderTarget)
    requires Consistent(g)
    ensures Consistent(WriteOutput(g, output, rt).0)
  {
    var (g', id) := WriteOutput(g, output, rt);
    ConsistentGrow(g, g'.resources, g'.passes);
    if output in g.table {
      ConsistentInRange(g, output);
      OriginStable(g.resources, g'.resources, g.table[output]);
    }
    assert Origin(g'.resources, id) == Some(output);
  }

  /**
   * `ToFrameGraphPass`: a node without a mesh, or whose mesh has no material,
   * declares nothing. A node naming a camera the scene lacks throws. A node
   * whose camera has an image effect draws into the layer's first target and
   * is followed by the nodes of every effect of the layer; otherwise it draws
   * into `output`. `fuel` bounds how deeply effect chains may nest.
   */
  function DeclareNode(g: Graph, scene: Scene, node: Node, output: string, fuel: nat,
                       isSpec: string -> bool): (r: Built)
    ensures Extends(g, r.g)
    decreases fuel, 1
  {
    if node.mesh.None? || node.mesh.value.material.None? then Built(g, Ok)
    else if node.camera != "" && node.camera !in scene.cameras then Built(g, MissingCamera(node.camera))
    else DrawNode(g, scene, node.mesh.value.material.value, node.camera, EffectOf(scene, node), output, fuel, isSpec)
  }

  /**
   * The pass of a node with a material and a known (or no) camera: drawn
   * into the first target of the camera's effect layer when there is one,
   * followed by that layer's effect nodes; into `output` otherwise.
   */
  function DrawNode(g: Graph, scene: Scene, material: Material, camera: string, layer: Option<EffectLayer>,
                    output: string, fuel: nat, isSpec: string -> bool): (r: Built)
    ensures Extends(g, r.g)
    decreases fuel, 0
  {
    var out := if layer.Some? then layer.value.firstTarget else output;
    var s := Setup(g, scene, material, camera, out, isSpec);
    if layer.None? then Built(s, Ok)
    else if fuel == 0 then Built(s, CyclicEffects)
    else DeclareEffects(s, scene, EffectNodes(layer.value.effects), fuel - 1, isSpec)
  }

  /** The effect nodes of a layer: effects in index order, each effect's nodes in list order. */
  function EffectNodes(effects: seq<Effect>): seq<EffectNode>
    decreases |effects|
  {
    if effects == [] then []
    else EffectNodes(effects[..|effects| - 1]) + effects[|effects| - 1].nodes
  }

  /** `loadEffect`: every effect node in turn, each into its own output name. */
  function DeclareEffects(g: Graph, scene: Scene, ns: seq<EffectNode>, fuel: nat,
                          isSpec: string -> bool): (r: Built)
    ensures Extends(g, r.g)
    decreases fuel, |ns| + 2
  {
    if ns == [] then Built(g, Ok)
    else
      var b := DeclareEffects(g, scene, ns[..|ns| - 1], fuel, isSpec);
      if b.status != Ok then b
      else DeclareNode(b.g, scene, ns[|ns| - 1].sceneNode, ns[|ns| - 1].output, fuel, isSpec)
  }

  // ---------------------------------------------------------------------------
  // Traversal and scene initialisation

  /** `TraverseNode` bound to `ToFrameGraphPass(_, SpecTex_Default)`: the node, then its children in order. */
  function Traverse(g: Graph, scene: Scene, node: Node, isSpec: string -> bool): (r: Built)
    ensures Extends(g, r.g)
    decreases node
  {
    var b := DeclareNode(g, scene, node, Default, |scene.cameras|, isSpec);
    if b.status != Ok then b else TraverseChildren(b.g, scene, node.children, isSpec)
  }

  function TraverseChildren(g: Graph, scene: Scene, cs: seq<Node>, isSpec: string -> bool): (r: Built)
    ensures Extends(g, r.g)
    decreases cs
  {
    if cs == [] then Built(g, Ok)
    else
      var b := TraverseChildren(g, scene, cs[..|cs| - 1], isSpec);
      if b.status != Ok then b else Traverse(b.g, scene, cs[|cs| - 1], isSpec)
  }

  /** `InitializeScene` up to `Compile`: prepare, every node in pre-order, then the end pass. */
  function Initialize(g: Graph, scene: Scene, isSpec: string -> bool): (r: Built)
    ensures Extends(g, r.g)
  {
    var p := PreparePass(g, scene);
    var b := Traverse(p, scene, scene.root, isSpec);
    if b.status != Ok then b
    else Built(EndPass(b.g, b.g.table[Default]), Ok)
  }

  // ---------------------------------------------------------------------------
  // Properties of the build

  /** Nodes that declare no pass: no mesh, or a mesh without a material, leaves everything unchanged. */
  lemma NoMaterialNoPass(g: Graph, scene: Scene, node: Node, output: string, fuel: nat, isSpec: string -> bool)
    requires node.mesh.None? || node.mesh.value.material.None?
    ensures DeclareNode(g, scene, node, output, fuel, isSpec) == Built(g, Ok)
  {
  }

  /**
   * A node with a material whose camera is empty or has no image effect
   * declares exactly its own pass, into the output it was given.
   */
  lemma DeclareNodePlain(g: Graph, scene: Scene, node: Node, output: string, fuel: nat, isSpec: string -> bool)
    requires node.mesh.Some? && node.mesh.value.material.Some?
    requires node.camera == "" || (node.camera in scene.cameras && scene.cameras[node.camera].imgEffect.None?)
    ensures DeclareNode(g, scene, node, output, fuel, isSpec) ==
            Built(Setup(g, scene, node.mesh.value.material.value, node.camera, output, isSpec), Ok)
  {
  }

  /** A node with a material that names a camera the scene lacks stops the build and declares nothing. */
  lemma DeclareNodeMissingCamera(g: Graph, scene: Scene, node: Node, output: string, fuel: nat, isSpec: string -> bool)
    requires node.mesh.Some? && node.mesh.value.material.Some?
    requires node.camera != "" && node.camera !in scene.cameras
    ensures DeclareNode(g, scene, node, output, fuel, isSpec) == Built(g, MissingCamera(node.camera))
  {
  }

  /** Every node pass, effect chain and traversal keeps each table entry a version of its own name. */
  lemma {:induction false} DeclareNodeConsistent(g: Graph, scene: Scene, node: Node, output: string, fuel: nat,
                                                 isSpec: string -> bool)
    requires Consistent(g)
    ensures Consistent(DeclareNode(g, scene, node, output, fuel, isSpec).g)
    decreases fuel, 1
  {
    if node.mesh.Some? && node.mesh.value.material.Some? && (node.camera == "" || node.camera in scene.cameras) {
      DrawNodeConsistent(g, scene, node.mesh.value.material.value, node.camera, EffectOf(scene, node), output, fuel, isSpec);
    }
  }

  lemma {:induction false} DrawNodeConsistent(g: Graph, scene: Scene, material: Material, camera: string,
                                              layer: Option<EffectLayer>, output: string, fuel: nat,
                                              isSpec: string -> bool)
    requires Consistent(g)
    ensures Consistent(DrawNode(g, scene, material, camera, layer, output, fuel, isSpec).g)
    decreases fuel, 0
  {
    var out := if layer.Some? then layer.value.firstTarget else output;
    SetupConsistent(g, scene, material, camera, out, isSpec);
    if layer.Some? && fuel > 0 {
      var s := Setup(g, scene, material, camera, out, isSpec);
      DeclareEffectsConsistent(s, scene, EffectNodes(layer.value.effects), fuel - 1, isSpec);
    }
  }

  lemma {:induction false} DeclareEffectsConsistent(g: Graph, scene: Scene, ns: seq<EffectNode>, fuel: nat,
                                                    isSpec: string -> bool)
    requires Consistent(g)
    ensures Consistent(DeclareEffects(g, scene, ns, fuel, isSpec).g)
    decreases fuel, |ns| + 2
  {
    if ns != [] {
      DeclareEffectsConsistent(g, scene, ns[..|ns| - 1], fuel, isSpec);
      var b := DeclareEffects(g, scene, ns[..|ns| - 1], fuel, isSpec);
      if b.status == Ok {
        DeclareNodeConsistent(b.g, scene, ns[|ns| - 1].sceneNode, ns[|ns| - 1].output, fuel, isSpec);
      }
    }
  }

  lemma {:induction false} TraverseConsistent(g: Graph, scene: Scene, node: Node, isSpec: string -> bool)
    requires Consistent(g)
    ensures Consistent(Traverse(g, scene, node, isSpec).g)
    decreases node
  {
    DeclareNodeConsistent(g, scene, node, Default, |scene.cameras|, isSpec);
    var b := DeclareNode(g, scene, node, Default, |scene.cameras|, isSpec);
    if b.status == Ok {
      TraverseChildrenConsistent(b.g, scene, node.children, isSpec);
    }
  }

  lemma {:induction false} TraverseChildrenConsistent(g: Graph, scene: Scene, cs: seq<Node>, isSpec: string -> bool)
    requires Consistent(g)
    ensures Consistent(TraverseChildren(g, scene, cs, isSpec).g)
    decreases cs
  {
    if cs != [] {
      TraverseChildrenConsistent(g, scene, cs[..|cs| - 1], isSpec);
      var b := TraverseChildren(g, scene, cs[..|cs| - 1], isSpec);
      if b.status == Ok {
        TraverseConsistent(b.g, scene, cs[|cs| - 1], isSpec);
      }
    }
  }

  /**
   * Writing a name moves its current version when it has one, so no step
   * of the build ever cuts a name off from the version it started with.
   */
  lemma WriteKeepsRoots(g: Graph, output: string, rt: RenderTarget)
    ensures KeepsRoots(g, WriteOutput(g, output, rt).0)
  {
    var (g', id) := WriteOutput(g, output, rt);
    forall name | name in g.table && g.table[name] < |g.resources|
      ensures Root(g'.resources, g'.table[name]) == Root(g.resources, g.table[name])
    {
      RootStable(g.resources, g'.resources, g.table[name]);
      if name == output {
        assert g'.resources[id] == MovedFrom(g.table[name]);
      }
    }
  }

  lemma SetupKeepsRoots(g: Graph, scene: Scene, material: Material, camera: string, output: string,
                        isSpec: string -> bool)
    ensures KeepsRoots(g, Setup(g, scene, material, camera, output, isSpec))
  {
    var (g1, inputs) := Resolve(g, material.textures, output, isSpec);
    var (g2, id) := WriteOutput(g1, output, TargetFor(scene, output));
    var r := g2.(passes := g2.passes + [Draw(material.name, inputs, id, ColorMask(camera))]);
    assert r == Setup(g, scene, material, camera, output, isSpec);
    GrowKeepsRoots(g, g1.resources, g1.passes);
    WriteKeepsRoots(g1, output, TargetFor(scene, output));
    GrowKeepsRoots(g2, r.resources, r.passes);
    KeepsRootsTrans(g, g1, g2);
    KeepsRootsTrans(g, g2, r);
  }

  lemma {:induction false} DeclareNodeKeepsRoots(g: Graph, scene: Scene, node: Node, output: string, fuel: nat,
                                                 isSpec: string -> bool)
    ensures KeepsRoots(g, DeclareNode(g, scene, node, output, fuel, isSpec).g)
    decreases fuel, 1
  {
    if node.mesh.Some? && node.mesh.value.material.Some? && (node.camera == "" || node.camera in scene.cameras) {
      DrawNodeKeepsRoots(g, scene, node.mesh.value.material.value, node.camera, EffectOf(scene, node), output, fuel, isSpec);
    }
  }

  lemma {:induction false} DrawNodeKeepsRoots(g: Graph, scene: Scene, material: Material, camera: string,
                                              layer: Option<EffectLayer>, output: string, fuel: nat,
                                              isSpec: string -> bool)
    ensures KeepsRoots(g, DrawNode(g, scene, material, camera, layer, output, fuel, isSpec).g)
    decreases fuel, 0
  {
    var out := if layer.Some? then layer.value.firstTarget else output;
    SetupKeepsRoots(g, scene, material, camera, out, isSpec);
    if layer.Some? && fuel > 0 {
      var s := Setup(g, scene, material, camera, out, isSpec);
      DeclareEffectsKeepsRoots(s, scene, EffectNodes(layer.value.effects), fuel - 1, isSpec);
      KeepsRootsTrans(g, s, DeclareEffects(s, scene, EffectNodes(layer.value.effects), fuel - 1, isSpec).g);
    }
  }

  lemma {:induction false} DeclareEffectsKeepsRoots(g: Graph, scene: Scene, ns: seq<EffectNode>, fuel: nat,
                                                    isSpec: string -> bool)
    ensures KeepsRoots(g, DeclareEffects(g, scene, ns, fuel, isSpec).g)
    decreases fuel, |ns| + 2
  {
    if ns != [] {
      DeclareEffectsKeepsRoots(g, scene, ns[..|ns| - 1], fuel, isSpec);
      var b := DeclareEffects(g, scene, ns[..|ns| - 1], fuel, isSpec);
      if b.status == Ok {
        DeclareNodeKeepsRoots(b.g, scene, ns[|ns| - 1].sceneNode, ns[|ns| - 1].output, fuel, isSpec);
        KeepsRootsTrans(g, b.g, DeclareNode(b.g, scene, ns[|ns| - 1].sceneNode, ns[|ns| - 1].output, fuel, isSpec).g);
      }
    }
  }

  lemma {:induction false} TraverseKeepsRoots(g: Graph, scene: Scene, node: Node, isSpec: string -> bool)
    ensures KeepsRoots(g, Traverse(g, scene, node, isSpec).g)
    decreases node
  {
    DeclareNodeKeepsRoots(g, scene, node, Default, |scene.cameras|, isSpec);
    var b := DeclareNode(g, scene, node, Default, |scene.cameras|, isSpec);
    if b.status == Ok {
      TraverseChildrenKeepsRoots(b.g, scene, node.children, isSpec);
      KeepsRootsTrans(g, b.g, TraverseChildren(b.g, scene, node.children, isSpec).g);
    }
  }

  lemma {:induction false} TraverseChildrenKeepsRoots(g: Graph, scene: Scene, cs: seq<Node>, isSpec: string -> bool)
    ensures KeepsRoots(g, TraverseChildren(g, scene, cs, isSpec).g)
    decreases cs
  {
    if cs != [] {
      TraverseChildrenKeepsRoots(g, scene, cs[..|cs| - 1], isSpec);
      var b := TraverseChildren(g, scene, cs[..|cs| - 1], isSpec);
      if b.status == Ok {
        TraverseKeepsRoots(b.g, scene, cs[|cs| - 1], isSpec);
        KeepsRootsTrans(g, b.g, Traverse(b.g, scene, cs[|cs| - 1], isSpec).g);
      }
    }
  }

  /**
   * Effect retargeting: when the node's camera has an image effect, the node's
   * own pass writes a new version of the layer's first target (and leaves the
   * passed-in output's entry alone unless it is that same name); all passes of
   * the effect nodes come after it, effects in index order and nodes in list
   * order.
   */
  lemma EffectRetarget(g: Graph, scene: Scene, node: Node, output: string, fuel: nat, isSpec: string -> bool)
    requires Consistent(g)
    requires node.mesh.Some? && node.mesh.value.material.Some?
    requires node.camera != "" && node.camera in scene.cameras
    requires scene.cameras[node.camera].imgEffect.Some?
    ensures var layer := scene.cameras[node.camera].imgEffect.value;
      var first := layer.firstTarget;
      var s := Setup(g, scene, node.mesh.value.material.value, node.camera, first, isSpec);
      var r := DeclareNode(g, scene, node, output, fuel, isSpec);
      && first in s.table
      && s.passes[|s.passes| - 1].Draw? && s.passes[|s.passes| - 1].output == s.table[first]
      && Origin(s.resources, s.table[first]) == Some(first)
      && (output != first && output in g.table ==> output in s.table && s.table[output] == g.table[output])
      && s.passes <= r.g.passes
      && r == (if fuel == 0 then Built(s, CyclicEffects)
               else DeclareEffects(s, scene, EffectNodes(layer.effects), fuel - 1, isSpec))
  {
    var layer := scene.cameras[node.camera].imgEffect.value;
    var material := node.mesh.value.material.value;
    assert DeclareNode(g, scene, node, output, fuel, isSpec) ==
           DrawNode(g, scene, material, node.camera, Some(layer), output, fuel, isSpec);
    SetupShape(g, scene, material, node.camera, layer.firstTarget, isSpec);
    SetupConsistent(g, scene, material, node.camera, layer.firstTarget, isSpec);
  }

  /**
   * Scene initialisation order: the prepare pass is declared first and seeds
   * the table's entry for the default target with a new temporary (sized
   * from its render target or 1920x1080); when the traversal completes, the
   * end pass is declared last and reads the final version of the default
   * target, which every write since has moved from that temporary. The
   * table stays consistent throughout.
   */
  lemma InitializeOrder(g: Graph, scene: Scene, isSpec: string -> bool)
    requires Consistent(g)
    ensures var r := Initialize(g, scene, isSpec);
      && |r.g.passes| > |g.passes| && |r.g.resources| > |g.resources|
      && r.g.passes[|g.passes|] == Prepare(|g.resources|)
      && r.g.resources[|g.resources|] ==
           Temporary(Default, TargetFor(scene, Default).width, TargetFor(scene, Default).height)
      && PreparePass(g, scene).table == g.table[Default := |g.resources|]
      && Default in r.g.table
      && (r.status == Ok ==> r.g.passes[|r.g.passes| - 1] == End(r.g.table[Default]))
      && Root(r.g.resources, r.g.table[Default]) == |g.resources|
      && Origin(r.g.resources, r.g.table[Default]) == Some(Default)
      && Consistent(r.g)
  {
    var p := PreparePass(g, scene);
    ConsistentGrow(g, p.resources, p.passes);
    assert Origin(p.resources, |g.resources|) == Some(Default);
    assert Consistent(p);
    TraverseConsistent(p, scene, scene.root, isSpec);
    TraverseKeepsRoots(p, scene, scene.root, isSpec);
    assert Root(p.resources, |g.resources|) == |g.resources|;
  }

  // ---------------------------------------------------------------------------
  // Pre-order

  /** The nodes of a tree in pre-order: a node before its children, children in order. */
  function PreOrder(node: Node): (r: seq<Node>)
    ensures |r| >= 1 && r[0] == node
    decreases node
  {
    [node] + PreOrderList(node.children)
  }

  function PreOrderList(cs: seq<Node>): seq<Node>
    decreases cs
  {
    if cs == [] then [] else PreOrderList(cs[..|cs| - 1]) + PreOrder(cs[|cs| - 1])
  }

  /** Declares the passes of a list of nodes in order, each for the default target. */
  function RunNodes(g: Graph, scene: Scene, ns: seq<Node>, isSpec: string -> bool): Built
    decreases |ns|
  {
    if ns == [] then Built(g, Ok)
    else
      var b := RunNodes(g, scene, ns[..|ns| - 1], isSpec);
      if b.status != Ok then b
      else DeclareNode(b.g, scene, ns[|ns| - 1], Default, |scene.cameras|, isSpec)
  }

  /** Continues a build with more nodes unless it has already stopped. */
  function ThenRun(b: Built, scene: Scene, ns: seq<Node>, isSpec: string -> bool): Built
  {
    if b.status != Ok then b else RunNodes(b.g, scene, ns, isSpec)
  }

  lemma {:induction false} RunNodesAppend(g: Graph, scene: Scene, a: seq<Node>, b: seq<Node>, isSpec: string -> bool)
    ensures RunNodes(g, scene, a + b, isSpec) == ThenRun(RunNodes(g, scene, a, isSpec), scene, b, isSpec)
    decreases |b|
  {
    if b == [] {
      assert a + b == a;
    } else {
      var b' := b[..|b| - 1];
      assert (a + b)[..|a + b| - 1] == a + b';
      assert (a + b)[|a + b| - 1] == b[|b| - 1];
      RunNodesAppend(g, scene, a, b', isSpec);
    }
  }

  /**
   * Traversal is pre-order: declaring a tree's passes is declaring the passes
   * of its nodes one by one in pre-order, stopping at the first failure.
   */
  lemma {:induction false} TraverseIsPreOrder(g: Graph, scene: Scene, node: Node, isSpec: string -> bool)
    ensures Traverse(g, scene, node, isSpec) == RunNodes(g, scene, PreOrder(node), isSpec)
    decreases node
  {
    RunNodesAppend(g, scene, [node], PreOrderList(node.children), isSpec);
    assert [node][..0] == [];
    var b := DeclareNode(g, scene, node, Default, |scene.cameras|, isSpec);
    assert RunNodes(g, scene, [node], isSpec) == b;
    if b.status == Ok {
      ChildrenArePreOrder(b.g, scene, node.children, isSpec);
    }
  }

  lemma {:induction false} ChildrenArePreOrder(g: Graph, scene: Scene, cs: seq<Node>, isSpec: string -> bool)
    ensures TraverseChildren(g, scene, cs, isSpec) == RunNodes(g, scene, PreOrderList(cs), isSpec)
    decreases cs
  {
    if cs != [] {
      var init := cs[..|cs| - 1];
      var last := cs[|cs| - 1];
      ChildrenArePreOrder(g, scene, init, isSpec);
      RunNodesAppend(g, scene, PreOrderList(init), PreOrder(last), isSpec);
      var b := TraverseChildren(g, scene, init, isSpec);
      if b.status == Ok {
        TraverseIsPreOrder(b.g, scene, last, isSpec);
      }
    }
  }

  // ---------------------------------------------------------------------------
  // Prefix facts the imperative loops rely on

  lemma DeclareEffectsStep(g: Graph, scene: Scene, ns: seq<EffectNode>, n: EffectNode, fuel: nat,
                           isSpec: string -> bool)
    ensures var b := DeclareEffects(g, scene, ns, fuel, isSpec);
      DeclareEffects(g, scene, ns + [n], fuel, isSpec) ==
        if b.status != Ok then b else DeclareNode(b.g, scene, n.sceneNode, n.output, fuel, isSpec)
  {
    assert (ns + [n])[..|ns|] == ns;
  }

  /** The effect nodes of the first `i + 1` effects: those of the first `i`, then all of effect `i`. */
  lemma EffectNodesNext(effects: seq<Effect>, i: nat)
    requires i < |effects|
    ensures EffectNodes(effects[..i]) + effects[i].nodes == EffectNodes(effects[..i + 1])
    ensures EffectNodes(effects[..i + 1]) <= EffectNodes(effects)
  {
    assert effects[..i + 1][..i] == effects[..i];
    EffectNodesPrefix(effects, i + 1);
  }

  /** One step of the loop over an effect's nodes, from the state before a node's pass to the state after it. */
  lemma EffectNodesAdvance(g: Graph, scene: Scene, done: seq<EffectNode>, nodes: seq<EffectNode>, j: nat, fuel: nat,
                           isSpec: string -> bool, before: Graph, after: Graph, st: Status)
    requires j < |nodes|
    requires DeclareEffects(g, scene, done + nodes[..j], fuel, isSpec) == Built(before, Ok)
    requires Built(after, st) == DeclareNode(before, scene, nodes[j].sceneNode, nodes[j].output, fuel, isSpec)
    ensures st == Ok ==> DeclareEffects(g, scene, done + nodes[..j + 1], fuel, isSpec) == Built(after, Ok)
    ensures st != Ok ==> DeclareEffects(g, scene, done + nodes, fuel, isSpec) == Built(after, st)
  {
    TakeOneMore(done, nodes, j);
    DeclareEffectsStep(g, scene, done + nodes[..j], nodes[j], fuel, isSpec);
    if st != Ok {
      DeclareEffectsStops(g, scene, done + nodes[..j + 1], done + nodes, fuel, isSpec);
    }
  }

  lemma TakeOneMore<T>(a: seq<T>, b: seq<T>, j: nat)
    requires j < |b|
    ensures a + b[..j + 1] == (a + b[..j]) + [b[j]]
  {
    assert b[..j + 1] == b[..j] + [b[j]];
  }

  /** One step of the loop over a node's children, from the state before a child's subtree to the state after it. */
  lemma ChildrenAdvance(g: Graph, scene: Scene, cs: seq<Node>, k: nat, isSpec: string -> bool,
                        before: Graph, after: Graph, st: Status)
    requires k < |cs|
    requires TraverseChildren(g, scene, cs[..k], isSpec) == Built(before, Ok)
    requires Built(after, st) == Traverse(before, scene, cs[k], isSpec)
    ensures st == Ok ==> TraverseChildren(g, scene, cs[..k + 1], isSpec) == Built(after, Ok)
    ensures st != Ok ==> TraverseChildren(g, scene, cs, isSpec) == Built(after, st)
  {
    assert cs[..k + 1][..k] == cs[..k];
    if st != Ok {
      TraverseChildrenStops(g, scene, cs[..k + 1], cs, isSpec);
    }
  }

  lemma {:induction false} DeclareEffectsStops(g: Graph, scene: Scene, a: seq<EffectNode>, b: seq<EffectNode>,
                                               fuel: nat, isSpec: string -> bool)
    requires a <= b
    requires DeclareEffects(g, scene, a, fuel, isSpec).status != Ok
    ensures DeclareEffects(g, scene, b, fuel, isSpec) == DeclareEffects(g, scene, a, fuel, isSpec)
    decreases |b|
  {
    if |b| > |a| {
      DeclareEffectsStops(g, scene, a, b[..|b| - 1], fuel, isSpec);
    } else {
      assert a == b;
    }
  }

  lemma {:induction false} TraverseChildrenStops(g: Graph, scene: Scene, a: seq<Node>, b: seq<Node>,
                                                 isSpec: string -> bool)
    requires a <= b
    requires TraverseChildren(g, scene, a, isSpec).status != Ok
    ensures TraverseChildren(g, scene, b, isSpec) == TraverseChildren(g, scene, a, isSpec)
    decreases |b|
  {
    if |b| > |a| {
      TraverseChildrenStops(g, scene, a, b[..|b| - 1], isSpec);
    } else {
      assert a == b;
    }
  }

  lemma {:induction false} EffectNodesPrefix(effects: seq<Effect>, i: nat)
    requires i <= |effects|
    ensures EffectNodes(effects[..i]) <= EffectNodes(effects)
    decreases |effects| - i
  {
    if i < |effects| {
      EffectNodesPrefix(effects, i + 1);
      assert effects[..i + 1][..i] == effects[..i];
    } else {
      assert effects[..i] == effects;
    }
  }

  // ---------------------------------------------------------------------------
  // A concrete scene

  /**
   * A material that samples the default target while drawing into it, right
   * after the prepare pass: one copy of the prepared version is bound to the
   * slot, then the default target is moved and drawn; no camera, so no alpha.
   */
  lemma SelfReadScenario(scene: Scene, isSpec: string -> bool)
    requires isSpec(Default)
    ensures var g := PreparePass(Empty, scene);
      var node := Node(Some(Mesh(Some(Material("m", [Default], 0)))), "", []);
      var r := DeclareNode(g, scene, node, Default, 0, isSpec);
      && r.status == Ok
      && r.g.passes == [Prepare(0), Copy(0, 1), Move(0, 2), Draw("m", [Some(1)], 2, [true, true, true, false])]
      && r.g.table == map[Default := 2]
  {
    var g := PreparePass(Empty, scene);
    var urls := [Default];
    assert urls[..0] == [];
    assert Resolve(g, urls, Default, isSpec).1 == [Some(1)];
  }
}
