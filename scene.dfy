/**
 * The scene graph as the renderer reads it: nodes that may carry a mesh with
 * a material, named cameras that may carry an image-effect layer, and the
 * configured render targets. The renderer never changes any of it while
 * building the frame graph, so all of it is plain values.
 */
module SceneGraph {
  import opened Wrappers

  /** The reserved name of the default (offscreen) target, `SpecTex_Default`. */
  const Default: string := "_rt_default"

  /** Size a target gets when the scene configures none for its name. */
  const DefaultWidth: nat := 1920
  const DefaultHeight: nat := 1080

  /**
   * A material: its name (used as the pass name), its positional texture
   * references (index = shader binding slot) and the identity of its shader,
   * which keys the shader cache.
   */
  datatype Material = Material(name: string, textures: seq<string>, shader: nat)

  datatype Mesh = Mesh(material: Option<Material>)

  /** A scene node; `camera` is empty when the node names no camera. */
  datatype Node = Node(mesh: Option<Mesh>, camera: string, children: seq<Node>)

  /** One node of an effect, drawn into its own output name. */
  datatype EffectNode = EffectNode(output: string, sceneNode: Node)

  datatype Effect = Effect(nodes: seq<EffectNode>)

  /** A post-process stack; `firstTarget` is what `FirstTarget()` reports. */
  datatype EffectLayer = EffectLayer(firstTarget: string, effects: seq<Effect>)

  datatype Camera = Camera(imgEffect: Option<EffectLayer>)

  datatype RenderTarget = RenderTarget(width: nat, height: nat)

  datatype Scene = Scene(
    root: Node,
    cameras: map<string, Camera>,
    renderTargets: map<string, RenderTarget>)

  /** The configured render target of `name`, or 1920x1080 when there is none. */
  function TargetFor(scene: Scene, name: string): RenderTarget
  {
    if name in scene.renderTargets then scene.renderTargets[name]
    else RenderTarget(DefaultWidth, DefaultHeight)
  }

  /** The effect layer of the node's camera, if the node names a known camera that has one. */
  function EffectOf(scene: Scene, node: Node): Option<EffectLayer>
  {
    if node.camera != "" && node.camera in scene.cameras then scene.cameras[node.camera].imgEffect
    else None
  }
}
