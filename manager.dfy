/**
 * `GLGraphicManager`'s build-time state and the methods that change it in
 * place: the named-resource table `m_fgrscMap`, the frame graph `m_fg` (its
 * resources and declared passes), the current scene `m_scene` and the shader
 * cache `m_shaderMap`. The pass-building methods are proved to leave
 * exactly the state the functions of module Translate describe; `ShaderFor`,
 * `Destroy` and the constructor state their new state directly.
 */
module Manager {
  import opened Wrappers
  import opened SceneGraph
  import opened FrameGraph
  import opened Translate

  /** The shader cache: each key maps to the handle of the one shader created for it. */
  ghost predicate CacheValid(cache: map<nat, nat>, created: seq<nat>)
  {
    && (forall k :: k in cache ==> 1 <= cache[k] <= |created| && created[cache[k] - 1] == k)
    && (forall i :: 0 <= i < |created| ==> created[i] in cache && cache[created[i]] == i + 1)
  }

  /** A valid cache never created two shaders for the same key. */
  lemma CacheCreatesOnce(cache: map<nat, nat>, created: seq<nat>)
    requires CacheValid(cache, created)
    ensures forall i, j :: 0 <= i < j < |created| ==> created[i] != created[j]
  {
  }

  class GraphicManager {
    /** `IsSpecTex`, which is not part of this model. */
    const isSpec: string -> bool

    var scene: Option<Scene>          // m_scene
    var table: map<string, nat>       // m_fgrscMap
    var resources: seq<Resource>      // resources declared into m_fg
    var passes: seq<Pass>             // passes declared into m_fg
    var shaderMap: map<nat, nat>      // m_shaderMap: shader identity -> handle
    var shaders: seq<nat>             // shaders created through the GPU wrapper; handle = index + 1

    /** The frame-graph part of the state as a value. */
    function State(): Graph
      reads this
    {
      Graph(table, resources, passes)
    }

    constructor(isSpec: string -> bool)
      ensures this.isSpec == isSpec
      ensures scene == None && State() == Empty && shaderMap == map[] && shaders == []
    {
      this.isSpec := isSpec;
      scene := None;
      table := map[];
      resources := [];
      passes := [];
      shaderMap := map[];
      shaders := [];
    }

    method AddPreParePass()
      requires scene.Some?
      modifies this`table, this`resources, this`passes
      ensures State() == PreparePass(old(State()), scene.value)
    {
      var rt := TargetFor(scene.value, Default);
      var id := |resources|;
      resources := resources + [Temporary(Default, rt.width, rt.height)];
      passes := passes + [Prepare(id)];
      table := table[Default := id];
    }

    method AddCopyPass(src: nat) returns (dst: nat)
      modifies this`resources, this`passes
      ensures (State(), dst) == CopyPass(old(State()), src)
    {
      dst := |resources|;
      resources := resources + [CopyOf(src)];
      passes := passes + [Copy(src, dst)];
    }

    method AddEndPass(input: nat)
      modifies this`passes
      ensures State() == EndPass(old(State()), input)
    {
      passes := passes + [End(input)];
    }

    /** The setup closure of `ToFrameGraphPass`, run when the pass is added. */
    method SetupPass(material: Material, camera: string, output: string)
      requires scene.Some?
      modifies this`table, this`resources, this`passes
      ensures State() == Setup(old(State()), scene.value, material, camera, output, isSpec)
    {
      ghost var g0 := State();
      var urls := material.textures;
      var inputs: seq<Option<nat>> := [];
      var i := 0;
      while i < |urls|
        invariant 0 <= i <= |urls|
        invariant (State(), inputs) == Resolve(g0, urls[..i], output, isSpec)
      {
        var url := urls[i];
        var slot: Option<nat> := None;
        if url == "" {
        } else if isSpec(url) {
          if url in table {
            if url == output {
              var c := AddCopyPass(table[url]);
              slot := Some(c);
            } else {
              slot := Some(table[url]);
            }
          }
        } else {
          slot := Some(|resources|);
          resources := resources + [ImageBacked(url, url)];
        }
        inputs := inputs + [slot];
        assert urls[..i + 1][..i] == urls[..i];
        i := i + 1;
      }
      assert urls[..i] == urls;
      var rt := TargetFor(scene.value, output);
      var id := |resources|;
      if output in table {
        // m_fg->AddMovePass
        resources := resources + [MovedFrom(table[output])];
        passes := passes + [Move(table[output], id)];
      } else {
        resources := resources + [Temporary(output, rt.width, rt.height)];
      }
      table := table[output := id];
      passes := passes + [Draw(material.name, inputs, id, ColorMask(camera))];
    }

    /** `ToFrameGraphPass(node, output)`; `fuel` bounds the nesting of effect chains. */
    method ToFrameGraphPass(node: Node, output: string, fuel: nat) returns (status: Status)
      requires scene.Some?
      modifies this`table, this`resources, this`passes
      ensures Built(State(), status) == DeclareNode(old(State()), scene.value, node, output, fuel, isSpec)
      decreases fuel, 0
    {
      if node.mesh.None? {
        return Ok;
      }
      var mesh := node.mesh.value;
      if mesh.material.None? {
        return Ok;
      }
      var material := mesh.material.value;
      var imgeff: Option<EffectLayer> := None;
      var out := output;
      if node.camera != "" {
        if node.camera !in scene.value.cameras {
          return MissingCamera(node.camera);
        }
        var cam := scene.value.cameras[node.camera];
        if cam.imgEffect.Some? {
          imgeff := cam.imgEffect;
          out := imgeff.value.firstTarget;
        }
      }
      SetupPass(material, node.camera, out);
      if imgeff.None? {
        return Ok;
      }
      if fuel == 0 {
        return CyclicEffects;
      }
      status := LoadEffect(imgeff.value, fuel - 1);
    }

    /** The `loadEffect` lambda: every node of every effect, in order, into its own output. */
    method LoadEffect(layer: EffectLayer, fuel: nat) returns (status: Status)
      requires scene.Some?
      modifies this`table, this`resources, this`passes
      ensures Built(State(), status) == DeclareEffects(old(State()), scene.value, EffectNodes(layer.effects), fuel, isSpec)
      decreases fuel, 3
    {
      ghost var g0 := State();
      ghost var sc := scene.value;
      var effects := layer.effects;
      var i := 0;
      while i < |effects|
        invariant 0 <= i <= |effects|
        invariant DeclareEffects(g0, sc, EffectNodes(effects[..i]), fuel, isSpec) == Built(State(), Ok)
      {
        status := LoadEffectNodes(effects[i].nodes, fuel, g0, EffectNodes(effects[..i]));
        EffectNodesNext(effects, i);
        if status != Ok {
          DeclareEffectsStops(g0, sc, EffectNodes(effects[..i + 1]), EffectNodes(effects), fuel, isSpec);
          return;
        }
        i := i + 1;
      }
      assert effects[..i] == effects;
      status := Ok;
    }

    /** The inner loop of `loadEffect`: the nodes of one effect, after the effect nodes `done`. */
    method LoadEffectNodes(nodes: seq<EffectNode>, fuel: nat, ghost g0: Graph, ghost done: seq<EffectNode>)
      returns (status: Status)
      requires scene.Some?
      requires DeclareEffects(g0, scene.value, done, fuel, isSpec) == Built(State(), Ok)
      modifies this`table, this`resources, this`passes
      ensures Built(State(), status) == DeclareEffects(g0, scene.value, done + nodes, fuel, isSpec)
      decreases fuel, 2
    {
      var j := 0;
      assert done + nodes[..0] == done;
      while j < |nodes|
        invariant 0 <= j <= |nodes|
        invariant DeclareEffects(g0, scene.value, done + nodes[..j], fuel, isSpec) == Built(State(), Ok)
      {
        var st := LoadEffectNode(nodes, j, fuel, g0, done);
        if st != Ok {
          return st;
        }
        j := j + 1;
      }
      assert nodes[..j] == nodes;
      status := Ok;
    }

    /** One iteration of the inner loop of `loadEffect`: node `j` of an effect into its own output. */
    method LoadEffectNode(nodes: seq<EffectNode>, j: nat, fuel: nat, ghost g0: Graph, ghost done: seq<EffectNode>)
      returns (status: Status)
      requires scene.Some? && j < |nodes|
      requires DeclareEffects(g0, scene.value, done + nodes[..j], fuel, isSpec) == Built(State(), Ok)
      modifies this`table, this`resources, this`passes
      ensures status == Ok ==> DeclareEffects(g0, scene.value, done + nodes[..j + 1], fuel, isSpec) == Built(State(), Ok)
      ensures status != Ok ==> DeclareEffects(g0, scene.value, done + nodes, fuel, isSpec) == Built(State(), status)
      decreases fuel, 1
    {
      ghost var before := State();
      status := ToFrameGraphPass(nodes[j].sceneNode, nodes[j].output, fuel);
      EffectNodesAdvance(g0, scene.value, done, nodes, j, fuel, isSpec, before, State(), status);
    }

    /** `TraverseNode` with `ToFrameGraphPass(_, SpecTex_Default)` as the visitor. */
    method TraverseNode(node: Node) returns (status: Status)
      requires scene.Some?
      modifies this`table, this`resources, this`passes
      ensures Built(State(), status) == Traverse(old(State()), scene.value, node, isSpec)
      decreases node
    {
      status := ToFrameGraphPass(node, Default, |scene.value.cameras|);
      if status != Ok {
        return;
      }
      ghost var g1 := State();
      var children := node.children;
      var k := 0;
      while k < |children|
        invariant 0 <= k <= |children|
        invariant TraverseChildren(g1, scene.value, children[..k], isSpec) == Built(State(), Ok)
      {
        ghost var before := State();
        status := TraverseNode(children[k]);
        ChildrenAdvance(g1, scene.value, children, k, isSpec, before, State(), status);
        if status != Ok {
          return;
        }
        k := k + 1;
      }
      assert children[..k] == children;
      status := Ok;
    }

    /** `InitializeScene` up to the compile step. */
    method InitializeScene(sc: Scene) returns (status: Status)
      modifies this`scene, this`table, this`resources, this`passes
      ensures scene == Some(sc)
      ensures Built(State(), status) == Initialize(old(State()), sc, isSpec)
    {
      scene := Some(sc);
      AddPreParePass();
      status := TraverseNode(sc.root);
      if status != Ok {
        return;
      }
      AddEndPass(table[Default]);
    }

    /** The shader cache of a node pass's execute closure: create the shader only on first use. */
    method ShaderFor(material: Material) returns (handle: nat)
      requires CacheValid(shaderMap, shaders)
      modifies this`shaderMap, this`shaders
      ensures CacheValid(shaderMap, shaders)
      ensures material.shader in shaderMap && handle == shaderMap[material.shader]
      ensures material.shader in old(shaderMap) ==>
                shaderMap == old(shaderMap) && shaders == old(shaders)
      ensures material.shader !in old(shaderMap) ==>
                && shaders == old(shaders) + [material.shader]
                && shaderMap == old(shaderMap)[material.shader := |shaders|]
    {
      var key := material.shader;
      if key !in shaderMap {
        // InitShader: the wrapper creates a new shader program
        shaders := shaders + [key];
        shaderMap := shaderMap[key := |shaders|];
      }
      handle := shaderMap[key];
    }

    /** `Destroy`: forget the scene, start a new frame graph, clear both caches. */
    method Destroy()
      modifies this
      ensures scene == None && State() == Empty && shaderMap == map[] && shaders == []
    {
      scene := None;
      resources := [];
      passes := [];
      shaderMap := map[];
      table := map[];
      shaders := [];
    }
  }
}
