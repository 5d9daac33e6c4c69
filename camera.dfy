/**
 * `UpdateCameraForFbo`: the global orthographic camera's width and height
 * and the global perspective camera's aspect, recomputed for a surface of
 * `fbow` x `fboh` pixels under one of three fill modes. The field of view,
 * derived from the height by a foreign call, is not part of this model.
 */
module CameraFit {
  import opened SceneGraph

  const GlobalCamera: string := "global"
  const PerspectiveCamera: string := "global_perspective"

  datatype FillMode = Stretch | AspectFit | AspectCrop

  /** Orthographic width and height, and the perspective aspect. */
  datatype Fit = Fit(width: real, height: real, perspAspect: real)

  /** How a camera update ends: nothing to do, a throwing camera lookup, or new camera values. */
  datatype CameraUpdate =
    | Unchanged
    | CameraMissing(name: string)  // `cameras.at(name)` throws
    | Updated(fit: Fit)

  predicate HasGlobalCameras(scene: Scene)
  {
    GlobalCamera in scene.cameras && PerspectiveCamera in scene.cameras
  }

  /**
   * `sw` x `sh` are the scene's orthographic extents. A zero-height surface
   * leaves the cameras unchanged; otherwise both global cameras are looked
   * up, "global" first. The requires exclude exactly the inputs on which a
   * division by zero would produce an infinity or NaN: a zero content
   * height, and a zero-width surface when both cameras exist and the
   * chosen branch divides by the surface aspect.
   */
  function UpdateCameraForFbo(scene: Scene, sw: real, sh: real, fbow: nat, fboh: nat, mode: FillMode): (r: CameraUpdate)
    requires fboh > 0 ==> sh != 0.0
    requires fboh > 0 && fbow == 0 && HasGlobalCameras(scene) && mode == AspectFit ==> sw / sh <= 0.0
    requires fboh > 0 && fbow == 0 && HasGlobalCameras(scene) && mode == AspectCrop ==> sw / sh >= 0.0
    ensures r.Unchanged? <==> fboh == 0
    ensures r.CameraMissing? <==> fboh > 0 && !HasGlobalCameras(scene)
    ensures r.CameraMissing? ==> r.name == (if GlobalCamera !in scene.cameras then GlobalCamera else PerspectiveCamera)
  {
    if fboh == 0 then Unchanged
    else
      var fboAspect := fbow as real / fboh as real;
      var sAspect := sw / sh;
      if GlobalCamera !in scene.cameras then CameraMissing(GlobalCamera)
      else if PerspectiveCamera !in scene.cameras then CameraMissing(PerspectiveCamera)
      else
        match mode
        case Stretch =>
          Updated(Fit(sw, sh, sAspect))
        case AspectFit =>
          if fboAspect < sAspect then Updated(Fit(sw, sw / fboAspect, fboAspect))
          else Updated(Fit(sh * fboAspect, sh, fboAspect))
        case AspectCrop =>
          if fboAspect > sAspect then Updated(Fit(sw, sw / fboAspect, fboAspect))
          else Updated(Fit(sh * fboAspect, sh, fboAspect))
  }

  lemma DivAbove(x: real, y: real, a: real)
    requires a > 0.0 && y * a < x
    ensures x / a > y
  {
    assert x / a * a == x;
  }

  lemma DivBelow(x: real, y: real, a: real)
    requires a > 0.0 && y * a > x
    ensures x / a < y
  {
    assert x / a * a == x;
  }

  /**
   * STRETCH keeps the scene's extents and gives the perspective camera the
   * content aspect, whatever the surface's size: the picture is stretched.
   */
  lemma StretchKeepsExtents(scene: Scene, sw: real, sh: real, fbow: nat, fboh: nat, fbow': nat, fboh': nat)
    requires HasGlobalCameras(scene)
    requires sw > 0.0 && sh > 0.0 && fboh > 0 && fboh' > 0
    ensures UpdateCameraForFbo(scene, sw, sh, fbow, fboh, Stretch) == Updated(Fit(sw, sh, sw / sh))
    ensures UpdateCameraForFbo(scene, sw, sh, fbow, fboh, Stretch) ==
            UpdateCameraForFbo(scene, sw, sh, fbow', fboh', Stretch)
  {
  }

  /**
   * ASPECTFIT shows all of the content: the view has the surface's aspect,
   * is at least as large as the content on both axes and matches it on one.
   */
  lemma FitShowsAllContent(scene: Scene, sw: real, sh: real, fbow: nat, fboh: nat)
    requires HasGlobalCameras(scene)
    requires sw > 0.0 && sh > 0.0 && fbow > 0 && fboh > 0
    ensures var f := UpdateCameraForFbo(scene, sw, sh, fbow, fboh, AspectFit).fit;
      && f.width * fboh as real == f.height * fbow as real
      && f.width >= sw && f.height >= sh
      && (f.width == sw || f.height == sh)
      && f.perspAspect == fbow as real / fboh as real
  {
    var a := fbow as real / fboh as real;
    assert a * fboh as real == fbow as real;
    if a < sw / sh {
      assert sw / a * a == sw;
      assert sh * a < sw by { assert sw / sh * sh == sw; }
      DivAbove(sw, sh, a);
    } else {
      assert sh * a >= sw by { assert sw / sh * sh == sw; }
    }
  }

  /**
   * ASPECTCROP covers the whole surface: the view has the surface's aspect,
   * is at most as large as the content on both axes and matches it on one.
   */
  lemma CropCoversSurface(scene: Scene, sw: real, sh: real, fbow: nat, fboh: nat)
    requires HasGlobalCameras(scene)
    requires sw > 0.0 && sh > 0.0 && fboh > 0
    ensures var f := UpdateCameraForFbo(scene, sw, sh, fbow, fboh, AspectCrop).fit;
      && f.width * fboh as real == f.height * fbow as real
      && f.width <= sw && f.height <= sh
      && (f.width == sw || f.height == sh)
      && f.perspAspect == fbow as real / fboh as real
  {
    var a := fbow as real / fboh as real;
    assert a * fboh as real == fbow as real;
    if a > sw / sh {
      assert sw / a * a == sw;
      assert sh * a > sw by { assert sw / sh * sh == sw; }
      DivBelow(sw, sh, a);
    } else {
      assert sh * a <= sw by { assert sw / sh * sh == sw; }
    }
  }

  /**
   * A 1920x1080 surface over 1000x1000 content in ASPECTCROP keeps the
   * width and crops the height to 562.5.
   */
  lemma CropWideSurface(scene: Scene)
    requires HasGlobalCameras(scene)
    ensures UpdateCameraForFbo(scene, 1000.0, 1000.0, 1920, 1080, AspectCrop) ==
            Updated(Fit(1000.0, 562.5, 1920.0 / 1080.0))
  {
  }
}
