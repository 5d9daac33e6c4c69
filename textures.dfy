/**
 * Turning a decoded image into GPU textures: `LoadImage` creates one texture
 * per image slot that has pixel data and uploads every mip level of it;
 * `CreateTexture(const Image&)` describes one multi-slot texture whose mip
 * count is clamped at zero. The GPU calls are recorded as values.
 */
module Textures {
  import opened Wrappers

  /** One mip level of one slot (the pixel bytes are not modelled). */
  datatype MipLevel = MipLevel(width: nat, height: nat, size: nat)

  /** A decoded image: `count` slots (sprite frames), each a list of mip levels. */
  datatype Image = Image(width: nat, height: nat, count: nat, imageDatas: seq<seq<MipLevel>>)

  /** One `TextureImagePbo` call. */
  datatype Upload = Upload(level: nat, width: nat, height: nat, size: nat)

  /** A texture made by `CreateTexture(IMG_2D, w, h, maxLevel, ...)` and the uploads into it. */
  datatype Texture = Texture(width: nat, height: nat, maxLevel: nat, uploads: seq<Upload>)

  /** Description passed to the wrapper by `CreateTexture(const Image&)`. */
  datatype TextureDesc = TextureDesc(width: nat, height: nat, numMips: nat, numSlots: nat)

  /** The slots below `n` that have pixel data, in increasing order. */
  function NonEmptySlots(datas: seq<seq<MipLevel>>, n: nat): (r: seq<nat>)
    requires n <= |datas|
    ensures forall k :: 0 <= k < |r| ==> r[k] < n && |datas[r[k]]| > 0
    decreases n
  {
    if n == 0 then []
    else NonEmptySlots(datas, n - 1) + (if |datas[n - 1]| == 0 then [] else [n - 1])
  }

  predicate Increasing(r: seq<nat>)
  {
    forall k, l :: 0 <= k < l < |r| ==> r[k] < r[l]
  }

  /** The slots with pixel data come out in strictly increasing order. */
  lemma {:induction false} NonEmptySlotsIncreasing(datas: seq<seq<MipLevel>>, n: nat)
    requires n <= |datas|
    ensures Increasing(NonEmptySlots(datas, n))
    decreases n
  {
    if n > 0 {
      NonEmptySlotsIncreasing(datas, n - 1);
      var prev := NonEmptySlots(datas, n - 1);
      var tail: seq<nat> := if |datas[n - 1]| == 0 then [] else [n - 1];
      var r := prev + tail;
      assert NonEmptySlots(datas, n) == r;
      forall k, l | 0 <= k < l < |r|
        ensures r[k] < r[l]
      {
        assert r[k] == prev[k];
        if l < |prev| {
          assert r[l] == prev[l];
        } else {
          assert r[l] == n - 1;
        }
      }
    }
  }

  /**
   * Slot skipping: exactly the slots with pixel data get a texture, each
   * once, in slot order.
   */
  lemma {:induction false} NonEmptySlotsExact(datas: seq<seq<MipLevel>>, n: nat)
    requires n <= |datas|
    ensures var r := NonEmptySlots(datas, n);
      && (forall s :: 0 <= s < n ==> (s in r <==> |datas[s]| > 0))
      && Increasing(r)
    decreases n
  {
    NonEmptySlotsIncreasing(datas, n);
    if n > 0 {
      NonEmptySlotsExact(datas, n - 1);
      var prev := NonEmptySlots(datas, n - 1);
      var tail: seq<nat> := if |datas[n - 1]| == 0 then [] else [n - 1];
      assert NonEmptySlots(datas, n) == prev + tail;
      forall s | 0 <= s < n
        ensures s in prev + tail <==> |datas[s]| > 0
      {
        if s < n - 1 {
          assert s !in tail;
          assert s in prev + tail <==> s in prev;
        } else {
          assert s !in prev;
          assert s in prev + tail <==> s in tail;
        }
      }
    }
  }

  /** The texture `LoadImage` makes for a slot with pixel data. */
  function SlotTexture(img: Image, slot: nat): (t: Texture)
    requires slot < |img.imageDatas| && |img.imageDatas[slot]| > 0
    ensures |t.uploads| == t.maxLevel + 1 == |img.imageDatas[slot]|
    ensures forall l :: 0 <= l < |t.uploads| ==> t.uploads[l].level == l
  {
    var mips := img.imageDatas[slot];
    Texture(img.width, img.height, |mips| - 1,
            seq(|mips|, l requires 0 <= l < |mips| => Upload(l, mips[l].width, mips[l].height, mips[l].size)))
  }

  /**
   * `LoadImage`: one texture per slot with pixel data, in slot order, with
   * every mip level uploaded. `imageDatas.at(i)` throws when the image
   * claims more slots than it holds; the result is then None.
   */
  method LoadImage(img: Image) returns (r: Option<seq<Texture>>)
    ensures r.None? <==> img.count > |img.imageDatas|
    ensures r.Some? ==>
      var slots := NonEmptySlots(img.imageDatas, img.count);
      && |r.value| == |slots|
      && forall k :: 0 <= k < |slots| ==> r.value[k] == SlotTexture(img, slots[k])
  {
    var texs: seq<Texture> := [];
    var i := 0;
    while i < img.count
      invariant 0 <= i <= img.count && i <= |img.imageDatas|
      invariant |texs| == |NonEmptySlots(img.imageDatas, i)|
      invariant forall k :: 0 <= k < |texs| ==> texs[k] == SlotTexture(img, NonEmptySlots(img.imageDatas, i)[k])
    {
      if i >= |img.imageDatas| {
        return None;
      }
      var mipmaps := img.imageDatas[i];
      if |mipmaps| == 0 {
        // "no tex data": the slot is skipped
        i := i + 1;
        continue;
      }
      var uploads: seq<Upload> := [];
      var m := 0;
      while m < |mipmaps|
        invariant 0 <= m <= |mipmaps|
        invariant |uploads| == m
        invariant forall l :: 0 <= l < m ==>
                    uploads[l] == Upload(l, mipmaps[l].width, mipmaps[l].height, mipmaps[l].size)
      {
        uploads := uploads + [Upload(m, mipmaps[m].width, mipmaps[m].height, mipmaps[m].size)];
        m := m + 1;
      }
      var texture := Texture(img.width, img.height, |mipmaps| - 1, uploads);
      assert texture == SlotTexture(img, i);
      texs := texs + [texture];
      i := i + 1;
    }
    r := Some(texs);
  }

  /**
   * `CreateTexture(const Image&)`: the first slot's mip count less one,
   * clamped at zero, and one texture slot per image slot. When the first slot
   * has data, this agrees with the texture `LoadImage` makes for it.
   */
  function ImageTextureDesc(img: Image): (d: TextureDesc)
    requires |img.imageDatas| > 0
    ensures |img.imageDatas[0]| > 0 ==> d.numMips == SlotTexture(img, 0).maxLevel
    ensures |img.imageDatas[0]| == 0 ==> d.numMips == 0
    ensures d.numSlots == img.count && d.width == img.width && d.height == img.height
  {
    var numMips := |img.imageDatas[0]|;
    TextureDesc(img.width, img.height, if numMips > 0 then numMips - 1 else 0, img.count)
  }
}
