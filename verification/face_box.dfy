/** Face-region selection of the face service (`face_service/engine_onnx.py`):
    the MediaPipe box clamped to the image with its 40-pixel rejection, the
    Haar largest-area pick, the detector fallback chain with its minimum-size
    rejection and centred-square fallback, and the empty-crop check. The
    detectors and the embedding network are opaque inputs. */
module FaceBox {
  import opened Wrappers

  /** A decoded RGB image of `height` rows and `width` columns; `rgb` is its
      pixel data, read only by the detectors and the network (parameters
      of this model), so that two images of one size may be told apart. */
  datatype Image = Image(height: nat, width: nat, rgb: seq<bv8>)

  /** A box as the source passes it around: `(x1, y1, x2, y2)`. */
  datatype Box = Box(x1: int, y1: int, x2: int, y2: int)

  function BoxWidth(b: Box): int { b.x2 - b.x1 }
  function BoxHeight(b: Box): int { b.y2 - b.y1 }

  /** The box lies inside the `h` by `w` image. */
  predicate Within(b: Box, h: nat, w: nat) {
    0 <= b.x1 <= b.x2 <= w && 0 <= b.y1 <= b.y2 <= h
  }

  /** MediaPipe's best detection, its relative box already scaled to pixels
      (`xmin * w`, `ymin * h`, `(xmin + width) * w`, `(ymin + height) * h`). */
  datatype PixelBox = PixelBox(left: real, top: real, right: real, bottom: real)

  /** The MediaPipe stage: not installed, or run and returning its highest
      scoring detection if it found any. */
  datatype MpStage = MpUnavailable | MpRan(detection: Option<PixelBox>)

  /** A Haar cascade detection `(x, y, w, h)`. */
  datatype Face = Face(x: int, y: int, w: int, h: int)

  /** The Haar stage: the cascade failed to load, or it ran and returned its
      detections in order. */
  datatype HaarStage = HaarUnavailable | HaarRan(faces: seq<Face>)

  const TinyCropSide: int := 40
  const DefaultMinSize: int := 60

  /** Python's `int()` on a float: truncation toward zero. */
  function Trunc(r: real): (n: int)
    ensures r >= 0.0 ==> n >= 0 && n as real <= r < n as real + 1.0
    ensures r < 0.0 ==> n <= 0 && n as real - 1.0 < r <= n as real
  {
    if r >= 0.0 then r.Floor else -((-r).Floor)
  }

  function MaxR(a: real, b: real): real { if a >= b then a else b }
  function MinR(a: real, b: real): real { if a <= b then a else b }

  /** The box the MediaPipe detector returns for its detection: corners
      clamped to the image and truncated, or nothing when the result is under
      40 pixels in either dimension. */
  function MediaPipeBox(h: nat, w: nat, d: PixelBox): (r: Option<Box>)
    ensures r.Some? ==> Within(r.value, h, w)
    ensures r.Some? ==> BoxWidth(r.value) >= TinyCropSide && BoxHeight(r.value) >= TinyCropSide
    ensures r.None? <==>
      Trunc(MinR(w as real, d.right)) - Trunc(MaxR(0.0, d.left)) < TinyCropSide
      || Trunc(MinR(h as real, d.bottom)) - Trunc(MaxR(0.0, d.top)) < TinyCropSide
  {
    var x1 := Trunc(MaxR(0.0, d.left));
    var y1 := Trunc(MaxR(0.0, d.top));
    var x2 := Trunc(MinR(w as real, d.right));
    var y2 := Trunc(MinR(h as real, d.bottom));
    if x2 - x1 < TinyCropSide || y2 - y1 < TinyCropSide then None
    else Some(Box(x1, y1, x2, y2))
  }

  /** The result of the first detector: nothing when MediaPipe is not
      installed or found no face. */
  function MediaPipeResult(h: nat, w: nat, mp: MpStage): Option<Box> {
    match mp
    case MpUnavailable => None
    case MpRan(None) => None
    case MpRan(Some(d)) => MediaPipeBox(h, w, d)
  }

  function Area(f: Face): int { f.w * f.h }

  /** A detection as corners `(x, y, x + w, y + h)`. */
  function Corners(f: Face): Box { Box(f.x, f.y, f.x + f.w, f.y + f.h) }

  /** Python's `max(faces[..n], key=area)`: the first detection of largest
      area among the first `n`. */
  function LargestFace(faces: seq<Face>, n: nat): (k: nat)
    requires 0 < n <= |faces|
    ensures k < n
    ensures forall j :: 0 <= j < n ==> Area(faces[j]) <= Area(faces[k])
    ensures forall j :: 0 <= j < k ==> Area(faces[j]) < Area(faces[k])
  {
    if n == 1 then 0
    else
      var k := LargestFace(faces, n - 1);
      if Area(faces[n - 1]) > Area(faces[k]) then n - 1 else k
  }

  /** `_detect_face_bbox_haar`: the largest-area detection, converted from
      `(x, y, w, h)` to corners; nothing when the cascade is missing or found
      no face. */
  function HaarBox(haar: HaarStage): (r: Option<Box>)
    ensures r.Some? <==> haar.HaarRan? && |haar.faces| > 0
    ensures r.Some? ==>
      var f := haar.faces[LargestFace(haar.faces, |haar.faces|)];
      && (forall j :: 0 <= j < |haar.faces| ==> Area(haar.faces[j]) <= Area(f))
      && r.value == Corners(f)
  {
    match haar
    case HaarUnavailable => None
    case HaarRan(faces) =>
      if |faces| == 0 then None
      else
        Some(Corners(faces[LargestFace(faces, |faces|)]))
  }

  /** The side of the fallback square: `int(min(h, w) * 0.6)`, taken as
      `(3 * m) / 5` on integers. */
  function FallbackSide(m: nat): (side: nat)
    ensures side <= m
    ensures side == 0 <==> m < 2
  {
    (3 * m) / 5
  }

  function Min(a: nat, b: nat): nat { if a <= b then a else b }

  /** The centred square used when no detector box survives. */
  function FallbackBox(h: nat, w: nat): (b: Box)
    ensures Within(b, h, w)
    ensures BoxWidth(b) == BoxHeight(b) == FallbackSide(Min(h, w))
    ensures b.x1 <= w - b.x2 <= b.x1 + 1 && b.y1 <= h - b.y2 <= b.y1 + 1
  {
    var side := FallbackSide(Min(h, w));
    var x1 := (w - side) / 2;
    var y1 := (h - side) / 2;
    Box(x1, y1, x1 + side, y1 + side)
  }

  predicate TooSmall(b: Box, minSize: int) {
    BoxWidth(b) < minSize || BoxHeight(b) < minSize
  }

  /** `detect_single_face_bbox_rgb(rgb_image, min_size)`: MediaPipe's box, or
      Haar's when MediaPipe gave none; that box unless it is under `min_size`
      in either dimension; otherwise the centred square. A box is always
      returned. */
  function DetectSingleFaceBox(img: Image, mp: MpStage, haar: HaarStage, minSize: int): (b: Box)
    ensures b == FallbackBox(img.height, img.width) || !TooSmall(b, minSize)
    ensures var first := MediaPipeResult(img.height, img.width, mp);
      first.Some? && !TooSmall(first.value, minSize) ==> b == first.value
    ensures var first := MediaPipeResult(img.height, img.width, mp);
      || b == FallbackBox(img.height, img.width)
      || (first.Some? && b == first.value)
      || (first.None? && HaarBox(haar) == Some(b))
  {
    var first := MediaPipeResult(img.height, img.width, mp);
    var bbox := if first.Some? then first else HaarBox(haar);
    if bbox.Some? && !TooSmall(bbox.value, minSize) then bbox.value
    else FallbackBox(img.height, img.width)
  }

  /** The Haar cascade is consulted only when the first detector is missing or
      returned nothing: once MediaPipe yields a box, Haar's output is
      irrelevant. */
  lemma HaarOnlyAsFallback(img: Image, mp: MpStage, haar1: HaarStage, haar2: HaarStage, minSize: int)
    requires MediaPipeResult(img.height, img.width, mp).Some?
    ensures DetectSingleFaceBox(img, mp, haar1, minSize) == DetectSingleFaceBox(img, mp, haar2, minSize)
  {
  }

  /** A MediaPipe box that is under `min_size` goes straight to the centred
      square: the Haar cascade is not tried in its place. */
  lemma SmallFirstBoxSkipsHaar(img: Image, mp: MpStage, haar: HaarStage, minSize: int)
    requires MediaPipeResult(img.height, img.width, mp).Some?
    requires TooSmall(MediaPipeResult(img.height, img.width, mp).value, minSize)
    ensures DetectSingleFaceBox(img, mp, haar, minSize) == FallbackBox(img.height, img.width)
  {
  }

  /** When MediaPipe gives nothing, Haar's largest detection is used if it is
      large enough, and the centred square otherwise. */
  lemma HaarUsedWhenFirstFails(img: Image, mp: MpStage, haar: HaarStage, minSize: int)
    requires MediaPipeResult(img.height, img.width, mp).None?
    ensures var hb := HaarBox(haar);
      DetectSingleFaceBox(img, mp, haar, minSize) ==
        if hb.Some? && !TooSmall(hb.value, minSize) then hb.value else FallbackBox(img.height, img.width)
  {
  }

  /** Python slicing `a[start:stop]` on an axis of length `n`: a negative
      index counts from the end, and both ends are clamped into `0..n`. */
  function SliceIndex(n: nat, i: int): (r: nat)
    ensures r <= n
  {
    if i < 0 then (if i + n < 0 then 0 else i + n)
    else if i > n then n
    else i
  }

  function SliceLength(n: nat, start: int, stop: int): (len: nat)
    ensures len <= n
  {
    var lo := SliceIndex(n, start);
    var hi := SliceIndex(n, stop);
    if hi > lo then hi - lo else 0
  }

  /** The pixels `rgb_image[y1:y2, x1:x2]` selects. */
  datatype Region = Region(top: nat, left: nat, rows: nat, cols: nat)

  function CropRegion(img: Image, b: Box): (r: Region)
    ensures r.top + r.rows <= img.height && r.left + r.cols <= img.width
  {
    Region(SliceIndex(img.height, b.y1), SliceIndex(img.width, b.x1),
           SliceLength(img.height, b.y1, b.y2), SliceLength(img.width, b.x1, b.x2))
  }

  datatype EmbedError = BadCrop | InferenceFailed

  /** `crop_and_preprocess_for_arcface`: the crop, or `BAD_CROP` when it holds
      no pixel. Resizing and intensity rescaling are left to the opaque
      network input. */
  function CropAndPreprocess(img: Image, b: Box): (r: Result<Region, EmbedError>)
    ensures r.Ok? ==> r.value == CropRegion(img, b) && r.value.rows > 0 && r.value.cols > 0
    ensures r.Err? ==> r.error == BadCrop && CropRegion(img, b).rows * CropRegion(img, b).cols == 0
  {
    var region := CropRegion(img, b);
    if region.rows * region.cols == 0 then Err(BadCrop) else Ok(region)
  }

  /** A box inside the image selects exactly its own pixels, and so crops
      successfully whenever it is at least one pixel wide and high. */
  lemma WithinBoxCrops(img: Image, b: Box)
    requires Within(b, img.height, img.width)
    ensures CropRegion(img, b) == Region(b.y1, b.x1, b.y2 - b.y1, b.x2 - b.x1)
    ensures CropAndPreprocess(img, b).Ok? <==> BoxWidth(b) > 0 && BoxHeight(b) > 0
  {
  }

  /** The centred square crops to nothing exactly when the shorter image side
      is under two pixels, where the square's side rounds down to zero. */
  lemma FallbackCropFailsOnlyOnTinyImages(img: Image)
    ensures CropAndPreprocess(img, FallbackBox(img.height, img.width)).Err? <==> Min(img.height, img.width) < 2
  {
    WithinBoxCrops(img, FallbackBox(img.height, img.width));
  }

  /** The MediaPipe box is always inside the image, so it never fails to
      crop. */
  lemma MediaPipeBoxCrops(img: Image, mp: MpStage)
    requires MediaPipeResult(img.height, img.width, mp).Some?
    ensures CropAndPreprocess(img, MediaPipeResult(img.height, img.width, mp).value).Ok?
  {
    WithinBoxCrops(img, MediaPipeResult(img.height, img.width, mp).value);
  }

  /** The detectors and the network, as functions of the image: the MediaPipe
      and Haar stages, and the ONNX session on the preprocessed crop
      (producing the L2-normalised embedding, or nothing when it raises). */
  datatype Vision = Vision(
    mediapipe: Image -> MpStage,
    haar: Image -> HaarStage,
    infer: (Image, Region) -> Option<seq<real>>)

  /** `ArcFaceONNX.embed_from_rgb`: locate the face with the default minimum
      size, crop it, run the network. It fails with `BadCrop` exactly when
      the selected box does not crop; otherwise the embedding is the
      network's output on that crop, and the call fails with
      `InferenceFailed` exactly when the network gives none. */
  function EmbedFromRgb(img: Image, v: Vision): (r: Result<seq<real>, EmbedError>)
    ensures var crop := CropAndPreprocess(img, DetectSingleFaceBox(img, v.mediapipe(img), v.haar(img), DefaultMinSize));
      && (r.Err? && r.error == BadCrop <==> crop.Err?)
      && (r.Ok? <==> crop.Ok? && v.infer(img, crop.value).Some?)
      && (r.Ok? ==> v.infer(img, crop.value) == Some(r.value))
  {
    var b := DetectSingleFaceBox(img, v.mediapipe(img), v.haar(img), DefaultMinSize);
    var crop := CropAndPreprocess(img, b);
    if crop.Err? then
      Err(crop.error)
    else
      match v.infer(img, crop.value)
      case None => Err(InferenceFailed)
      case Some(emb) => Ok(emb)
  }

  /** Every detection of the Haar stage lies inside the image. */
  predicate HaarWithin(haar: HaarStage, h: nat, w: nat) {
    haar.HaarRan? ==> forall i :: 0 <= i < |haar.faces| ==> Within(Corners(haar.faces[i]), h, w)
  }

  /** The box the chain selects crops successfully on an image whose shorter
      side is at least two pixels, when every Haar detection lies inside the
      image. */
  lemma SelectedBoxCrops(img: Image, mp: MpStage, haar: HaarStage, minSize: int)
    requires Min(img.height, img.width) >= 2 && minSize >= 1
    requires HaarWithin(haar, img.height, img.width)
    ensures CropAndPreprocess(img, DetectSingleFaceBox(img, mp, haar, minSize)).Ok?
  {
    var b := DetectSingleFaceBox(img, mp, haar, minSize);
    if b == FallbackBox(img.height, img.width) {
      FallbackCropFailsOnlyOnTinyImages(img);
    } else {
      var first := MediaPipeResult(img.height, img.width, mp);
      if first.None? {
        assert HaarBox(haar).Some? && b == HaarBox(haar).value;
        assert Within(b, img.height, img.width);
      }
      WithinBoxCrops(img, b);
    }
  }

  /** The pipeline never aborts for lack of a face: under the conditions of
      `SelectedBoxCrops`, the only way to fail is for the network itself to
      fail. */
  lemma EmbedFailsOnlyInNetwork(img: Image, v: Vision)
    requires Min(img.height, img.width) >= 2
    requires HaarWithin(v.haar(img), img.height, img.width)
    ensures EmbedFromRgb(img, v).Err? ==> EmbedFromRgb(img, v).error == InferenceFailed
  {
    SelectedBoxCrops(img, v.mediapipe(img), v.haar(img), DefaultMinSize);
  }
}
