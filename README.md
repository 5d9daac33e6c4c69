# Frame-graph build of the wallpaper scene renderer

This project models the build-time logic of `GLGraphicManager`, the renderer
that turns a wallpaper scene (a tree of nodes with meshes, materials and
cameras) into a frame graph of GPU passes. Proofs are checked by Dafny.

- **Resource table and pass declaration** (`framegraph.dfy`, `translate.dfy`).
  The frame graph is a value `Graph(table, resources, passes)`:
  - `table` is `m_fgrscMap`. It maps a target name to its current resource version.
  - `resources` lists every resource declared so far. A resource's handle is its
    index, so the next fresh handle is `|resources|`.
  - `passes` is the append-only list of declared passes: `Prepare`, `Copy`, `Move`,
    `Draw` and `End`.

  `ToFrameGraphPass` becomes `DeclareNode`, which checks the mesh, material and
  camera, and `DrawNode`, which declares the pass and the effect chain. The
  pass resolves every texture reference to one of four things: an unbound slot, the current version of a
  special target, a copy of that version when the pass writes the same name,
  or a new image-backed texture. It then writes the output, as a move of the
  current version or as a new temporary, and appends the draw with its
  colour mask. When the node's camera has an image effect, it retargets the
  node to the effect layer's first target and then declares every effect
  node. `Origin` follows moves back to the name a version was created under.
  `Consistent` says that every table entry is a version of its own name, and
  every step keeps it.
- **Scene traversal and initialisation** (`translate.dfy`). `Traverse` is the
  pre-order walk, and `Initialize` is `InitializeScene` up to the compile
  step.
- **The manager object** (`manager.dfy`). `GraphicManager` is a class. Its fields
  are the table, the frame graph, the scene and the shader cache. Its methods
  change them in place with the source's loops. Each frame-graph method is
  proved to produce exactly the state that the matching `Translate` function
  gives. `ShaderFor` and `Destroy` have no such function: their contracts
  state the new cache and the cleared state directly.
- **Textures** (`textures.dfy`). `LoadImage` skips image slots that have no data
  and uploads every mip level. `CreateTexture(const Image&)` clamps the mip
  count at zero.
- **Fill-mode camera** (`camera.dfy`). `UpdateCameraForFbo` is a function on
  reals. It returns the orthographic width and height and the perspective
  aspect. It reports `CameraMissing` when the scene lacks the `global` or
  `global_perspective` camera, where `cameras.at` throws.

`IsSpecTex` is declared in `SpecTexs.h`, which is not part of this model.
Every function therefore takes it as the parameter `isSpec`, and the
self-reference scenario assumes that it holds for `"_rt_default"`.

Two behaviours of the fill modes are worth stating plainly, because the
names of the modes suggest otherwise:
- STRETCH gives the perspective camera the content aspect `sw/sh`
  (GLGraphicManager.cpp line 489), not the surface aspect.
- ASPECTCROP on a surface wider than the content keeps the content width
  `sw` and shrinks the height (lines 506-509). For a 1920x1080 surface over
  1000x1000 content, the result is 1000 x 562.5 (`CameraFit.CropWideSurface`).

## Model

| member | source | states |
|---|---|---|
| Translate.ColorMask | src/backend/scene/src/wallpaper/Renderer/GLGraphicManager.cpp:326-329 | channels 0-2 always written; channel 3 iff the camera name is non-empty and does not start with "global" |
| Translate.CompareZero | src/backend/scene/src/wallpaper/Renderer/GLGraphicManager.cpp:328 | the three-way string comparison is zero exactly for equal strings, so the `compare(0, 6, "global") == 0` test is a prefix test |
| Translate.Resolve | src/backend/scene/src/wallpaper/Renderer/GLGraphicManager.cpp:256-284 | resolving the texture references never changes the resource table, only adds resources and passes, and yields one slot per reference |
| Translate.ResolveBindsSlots | src/backend/scene/src/wallpaper/Renderer/GLGraphicManager.cpp:256-284 | slot i is: unbound for an empty name; the current version for a special name in the table that differs from the output; a new copy of it when it equals the output; unbound for a special name missing from the table; a new image texture with name and path equal to the reference otherwise; new slots are distinct and in slot order |
| Translate.ResolveCopies | src/backend/scene/src/wallpaper/Renderer/GLGraphicManager.cpp:263-264 | exactly one copy pass per reference to the name the pass writes (when that name is special and present), each reading its current version, and no other pass |
| Translate.SetupDeclaresPass | src/backend/scene/src/wallpaper/Renderer/GLGraphicManager.cpp:285-329 | the output gets a fresh version, a move of the current one or a temporary sized from its render target or 1920x1080; the table afterwards maps the output to it and every other name as before; the last pass draws the material into it with the resolved slots and the colour mask; the table stays consistent |
| Translate.Setup | src/backend/scene/src/wallpaper/Renderer/GLGraphicManager.cpp:255-334 | the setup closure only adds names, resources and passes, and declares at least one pass |
| Translate.NoMaterialNoPass | src/backend/scene/src/wallpaper/Renderer/GLGraphicManager.cpp:237-240 | a node without a mesh, or whose mesh has no material, declares nothing and leaves the table unchanged |
| Translate.DeclareNodePlain | src/backend/scene/src/wallpaper/Renderer/GLGraphicManager.cpp:237-253 | a node with a material and no camera, or a camera without an image effect, declares exactly its own pass into the output it was given, and completes |
| Translate.DeclareNodeMissingCamera | src/backend/scene/src/wallpaper/Renderer/GLGraphicManager.cpp:242-244 | a node with a material naming a camera the scene lacks stops the build where `cameras.at` throws, with nothing declared |
| Translate.DeclareNode | src/backend/scene/src/wallpaper/Renderer/GLGraphicManager.cpp:212-393 | declaring a node's pass (and its effect chain) never loses or alters a name, resource or earlier pass, so later writes never affect passes already declared |
| Translate.DrawNode | src/backend/scene/src/wallpaper/Renderer/GLGraphicManager.cpp:243-393 | drawing a node (into its output or its camera's first effect target) and then its effect nodes only adds to the frame graph |
| Translate.DeclareEffects | src/backend/scene/src/wallpaper/Renderer/GLGraphicManager.cpp:227-235 | translating effect nodes only adds to the frame graph |
| Translate.DeclareNodeConsistent | src/backend/scene/src/wallpaper/Renderer/GLGraphicManager.cpp:306-325 | after any node's pass, every table entry still refers to a version created under that name (last write wins, per name) |
| Translate.DrawNodeConsistent | src/backend/scene/src/wallpaper/Renderer/GLGraphicManager.cpp:243-325 | the draw and the effect chain after it keep every table entry a version of its own name |
| FrameGraph.Root | src/backend/scene/src/wallpaper/Renderer/GLGraphicManager.cpp:306-307 | following moves back from an existing version ends at an existing version that is not a move from an earlier version |
| Translate.WriteKeepsRoots | src/backend/scene/src/wallpaper/Renderer/GLGraphicManager.cpp:306-325 | writing a name moves its current version, so every existing name keeps the first version it had; no entry is dropped |
| Translate.SetupKeepsRoots | src/backend/scene/src/wallpaper/Renderer/GLGraphicManager.cpp:255-334 | a node's pass keeps every name and the first version behind it |
| Translate.DeclareNodeKeepsRoots | src/backend/scene/src/wallpaper/Renderer/GLGraphicManager.cpp:212-393 | a node's pass and its effect chain keep every name and the first version behind it |
| Translate.DrawNodeKeepsRoots | src/backend/scene/src/wallpaper/Renderer/GLGraphicManager.cpp:243-393 | the draw and the effect chain after it keep every name and the first version behind it |
| Translate.TraverseKeepsRoots | src/backend/scene/src/wallpaper/Renderer/GLGraphicManager.cpp:51-55 | the whole traversal keeps every name and the first version behind it |
| Translate.EffectRetarget | src/backend/scene/src/wallpaper/Renderer/GLGraphicManager.cpp:243-250 | with an image effect, the node's draw writes a version of the layer's first target, the passed-in output's entry is untouched, the node's passes precede the effect passes, and the effect nodes follow, effects in index order and nodes in list order |
| Translate.Traverse | src/backend/scene/src/wallpaper/Renderer/GLGraphicManager.cpp:51-55 | the traversal only adds to the frame graph |
| Translate.TraverseIsPreOrder | src/backend/scene/src/wallpaper/Renderer/GLGraphicManager.cpp:51-55 | the traversal declares the nodes' passes one at a time in pre-order (parent before children, children in order), stopping at the first failure |
| Translate.PreOrder | src/backend/scene/src/wallpaper/Renderer/GLGraphicManager.cpp:52 | a node comes first in its own pre-order |
| Translate.Initialize | src/backend/scene/src/wallpaper/Renderer/GLGraphicManager.cpp:440-451 | scene initialisation only adds to the frame graph, and the lookup of the default target before the end pass always succeeds |
| Translate.InitializeOrder | src/backend/scene/src/wallpaper/Renderer/GLGraphicManager.cpp:440-451 | the prepare pass is declared first, creates a temporary for the default target sized from its render target or 1920x1080, and maps the default name to it in the table; the end pass is declared last and reads the final version of the default target, whose move chain leads back to that temporary |
| Translate.SelfReadScenario | src/backend/scene/src/wallpaper/Renderer/GLGraphicManager.cpp:258-325 | a material that samples `_rt_default` while drawing into it gets one copy pass bound to its slot, followed by the move and the draw; no camera means no alpha |
| Manager.GraphicManager.AddPreParePass | src/backend/scene/src/wallpaper/Renderer/GLGraphicManager.cpp:102-137 | the new state is the prepare pass applied to the old state |
| Manager.GraphicManager.AddCopyPass | src/backend/scene/src/wallpaper/Renderer/GLGraphicManager.cpp:83-99 | appends a copy pass from `src` to a new texture, returns that texture, leaves the table alone |
| Manager.GraphicManager.AddEndPass | src/backend/scene/src/wallpaper/Renderer/GLGraphicManager.cpp:139-149 | appends the end pass reading `input` |
| Manager.GraphicManager.SetupPass | src/backend/scene/src/wallpaper/Renderer/GLGraphicManager.cpp:255-334 | the loop over the textures and the output write leave the state `Setup` describes |
| Manager.GraphicManager.ToFrameGraphPass | src/backend/scene/src/wallpaper/Renderer/GLGraphicManager.cpp:212-393 | the new state and the outcome are those of `DeclareNode` |
| Manager.GraphicManager.LoadEffect | src/backend/scene/src/wallpaper/Renderer/GLGraphicManager.cpp:227-235 | the nested loops over effects and their nodes leave the state of `DeclareEffects` over the effect nodes in order |
| Manager.GraphicManager.LoadEffectNodes | src/backend/scene/src/wallpaper/Renderer/GLGraphicManager.cpp:230-233 | the loop over one effect's nodes continues `DeclareEffects` from the nodes already done through all of this effect's nodes |
| Manager.GraphicManager.LoadEffectNode | src/backend/scene/src/wallpaper/Renderer/GLGraphicManager.cpp:231-232 | one node of an effect into its own output continues `DeclareEffects` by that node, or stops it for good on failure |
| Manager.GraphicManager.TraverseNode | src/backend/scene/src/wallpaper/Renderer/GLGraphicManager.cpp:51-55 | the recursive walk leaves the state of `Traverse` |
| Manager.GraphicManager.InitializeScene | src/backend/scene/src/wallpaper/Renderer/GLGraphicManager.cpp:440-451 | sets the scene and leaves the state and outcome of `Initialize` |
| Manager.GraphicManager.ShaderFor | src/backend/scene/src/wallpaper/Renderer/GLGraphicManager.cpp:351-354 | returns the cached handle; creates a shader only for a key not yet cached, and records it |
| Manager.CacheCreatesOnce | src/backend/scene/src/wallpaper/Renderer/GLGraphicManager.cpp:351-354 | a cache kept by `ShaderFor` never created two shaders for the same key |
| Manager.GraphicManager.Destroy | src/backend/scene/src/wallpaper/Renderer/GLGraphicManager.cpp:537-543 | the scene is dropped, the frame graph is empty, and the shader cache and the resource table are cleared |
| Manager.GraphicManager.constructor | src/backend/scene/src/wallpaper/Renderer/GLGraphicManager.cpp:20 | starts with no scene, an empty frame graph and empty caches |
| Textures.NonEmptySlots | src/backend/scene/src/wallpaper/Renderer/GLGraphicManager.cpp:34-39 | every listed slot exists and has pixel data |
| Textures.NonEmptySlotsIncreasing | src/backend/scene/src/wallpaper/Renderer/GLGraphicManager.cpp:34-39 | the slots with data come out in strictly increasing order |
| Textures.NonEmptySlotsExact | src/backend/scene/src/wallpaper/Renderer/GLGraphicManager.cpp:34-39 | a slot is listed iff it has pixel data, and the list is strictly increasing |
| Textures.SlotTexture | src/backend/scene/src/wallpaper/Renderer/GLGraphicManager.cpp:40-45 | a slot's texture has maximum level one less than its mip count, and every level is uploaded once, in order |
| Textures.LoadImage | src/backend/scene/src/wallpaper/Renderer/GLGraphicManager.cpp:30-49 | fails exactly when the image claims more slots than it holds; otherwise returns one texture per slot with data, in slot order |
| Textures.ImageTextureDesc | src/backend/scene/src/wallpaper/Renderer/GLGraphicManager.cpp:406-417 | the mip count is the first slot's level count less one, clamped at zero, and agrees with `LoadImage`'s texture for that slot; one texture slot per image slot |
| CameraFit.UpdateCameraForFbo | src/backend/scene/src/wallpaper/Renderer/GLGraphicManager.cpp:477-521 | a zero-height surface changes nothing; otherwise a scene without the `global` camera, then one without `global_perspective`, throws at the lookup; otherwise the cameras are recomputed |
| CameraFit.StretchKeepsExtents | src/backend/scene/src/wallpaper/Renderer/GLGraphicManager.cpp:486-490 | STRETCH yields the scene extents and the content aspect, independent of the surface size |
| CameraFit.FitShowsAllContent | src/backend/scene/src/wallpaper/Renderer/GLGraphicManager.cpp:492-503 | ASPECTFIT: surface aspect, at least the content on both axes, equal on one; perspective aspect is the surface aspect |
| CameraFit.CropCoversSurface | src/backend/scene/src/wallpaper/Renderer/GLGraphicManager.cpp:504-516 | ASPECTCROP: surface aspect, at most the content on both axes, equal on one; perspective aspect is the surface aspect |
| CameraFit.CropWideSurface | src/backend/scene/src/wallpaper/Renderer/GLGraphicManager.cpp:504-513 | 1920x1080 over 1000x1000 in ASPECTCROP gives 1000 x 562.5 |

## Left out

- GPU wrapper calls: texture, shader and mesh creation, `BeginPass`/`EndPass`, `RenderMesh`, bindings, uniforms, clears and copies. Their code is not part of this model. Texture creation and uploads are recorded as values, and shader creation as an entry in the manager's shader list.
- Frame-graph internals (`AddPass`, `Compile`, `Execute`, `ToGraphviz`, resource aliasing, builder `Read`/`Write`). That code is not part of this model. A write keeps the handle it was given, and reading an unbound slot is not modelled.
- The execute closures other than the shader cache: sprite slot selection, shader-value updates and mesh loading. These are external collaborators.
- `Initialize`, `CreateRenderTarget`, `ClearTexture`, `DestroyTexture`, `DestroyRenderTarget` and `CreateTexture(TextureDesc)`. They only forward to the GPU wrapper.
- `ChangeFillMode`: it does nothing. Its call to `UpdateCameraForFbo` is commented out (GLGraphicManager.cpp line 534), so a new fill mode takes effect only at the next `SetDefaultFbo`.
- `Draw`: the per-frame particle emission, shader-value updater hooks, clear and frame-graph execution. These are external collaborators run at frame time, not part of the build.
- `SetDefaultFbo`: storing the screen size and the default framebuffer. Its call into `UpdateCameraForFbo` is modelled by `CameraFit.UpdateCameraForFbo`.
- The prepare pass's `UpdateDescOp`: at frame time the default target is resized to the screen size stored by `SetDefaultFbo`, unconditionally. The model records only the size it is declared with, its render target's or 1920x1080.
- The order of nested passes: the copy passes a pass needs are added while that pass's setup runs, and how `AddPass` orders such nested passes is frame-graph code that is not part of this model. The model lists them before the pass's move and draw.
- `AddEndPass`'s shader source, flip uniforms and lazily created shader.
- `OutImageType` and all logging. They only build log messages.
- Dynamic render-target sizes (`rt.bind`, `(uint16_t)(screen * scale)`) and the viewport. These are float-to-integer truncation evaluated per frame.
- Translate.DeclareNode: the source has no bound on nested effect chains. The model stops after as many nesting levels as the scene has cameras and reports `CyclicEffects`. A longer chain must repeat a camera, and the source would then recurse without end. This argument is not proved.
- Translate.DeclareNode: `cameras.at` on an unknown camera throws. The model reports `MissingCamera` and keeps the state as it was at the throw. It does not model the exception unwinding further.
- Textures.LoadImage: the `imageDatas.at` exception is reported as `None`. The textures created before the throw are not tracked.
- Manager.GraphicManager.Destroy: `ClearAll` on the wrapper is taken to release every GPU object, so the list of created shaders is emptied too.
- CameraFit.UpdateCameraForFbo: doubles are modelled as exact reals. The function requires a non-zero content height, and a non-zero surface width whenever both global cameras exist and the chosen branch divides by the surface aspect. A scene missing either camera throws at the lookup for any surface width. On those inputs the source computes IEEE infinities or NaN, which are not modelled. The field-of-view update, `Camera::Update` and `UpdateLinkedCamera` are foreign code.
- Textures.ImageTextureDesc: `imageDatas[0]` on an image without slots is undefined behaviour, so the function requires at least one slot.
