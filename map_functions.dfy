/** Class-mask decomposition of a classified image and packaging of images as map overlays
    (src/seg2map/map_functions.py). PIL, colorsys, base64 and ipyleaflet are parameters:
    `hsv` is the hue-to-8-bit-RGB conversion, `encode` reads an image file and saves it in an
    encoder's format, `b64` is base64 `encodebytes` followed by an ASCII decode. */
module MapFunctions {
  import opened Outcomes
  import opened Text

  datatype Rgb = Rgb(r: int, g: int, b: int)
  datatype Rgba = Rgba(r: int, g: int, b: int, alpha: int)

  const Transparent: Rgba := Rgba(0, 0, 0, 0)

  /** A single-band image, pixels in row-major order. */
  datatype GrayImage = GrayImage(width: nat, height: nat, pixels: seq<int>)
  {
    predicate Valid() { |pixels| == width * height }
  }

  datatype RgbaImage = RgbaImage(width: nat, height: nat, pixels: seq<Rgba>)
  {
    predicate Valid() { |pixels| == width * height }
  }

  /** One entry of PIL's `getcolors()`: how often a pixel value occurs, and the value. */
  datatype ColorCount = ColorCount(count: nat, value: int)

  /** One `mask_img.save(img_path)`. */
  datatype SavedMask = SavedMask(path: string, image: RgbaImage)

  /** The `ImageOverlay(url=..., bounds=..., name=...)` handed to the map. */
  datatype Overlay<B> = Overlay(url: string, bounds: B, name: string)

  // ---------------------------------------------------------------------------
  // get_class_mapping

  /** The mapping `get_class_mapping` builds: the i-th name (counting from 1) under key i. */
  function ClassMapping(names: seq<string>): map<int, string> {
    map i | 1 <= i <= |names| :: NameAt(names, i)
  }

  function NameAt(names: seq<string>, i: int): string
    requires 1 <= i <= |names|
  {
    names[i - 1]
  }

  method GetClassMapping(names: seq<string>) returns (mapping: map<int, string>)
    ensures forall i :: i in mapping <==> 1 <= i <= |names|
    ensures forall i :: 1 <= i <= |names| ==> mapping[i] == names[i - 1]
    ensures mapping == ClassMapping(names)
  {
    mapping := map[];
    for i := 1 to |names| + 1
      invariant forall j :: j in mapping <==> 1 <= j < i
      invariant forall j :: 1 <= j < i ==> mapping[j] == names[j - 1]
    {
      mapping := mapping[i := names[i - 1]];
    }
  }

  /** Class keys start at 1, so the background value 0 never has a class. */
  lemma ClassMappingKeys(names: seq<string>, v: int)
    ensures v in ClassMapping(names) <==> 1 <= v <= |names|
    ensures v in ClassMapping(names) ==> ClassMapping(names)[v] == names[v - 1]
  {
  }

  // ---------------------------------------------------------------------------
  // generate_color_map

  /** The i-th of n equally spaced hues, `i / num_colors`. */
  function Hue(i: nat, n: nat): (h: real)
    requires i < n
    ensures 0.0 <= h < 1.0
  {
    i as real / n as real
  }

  /** Distinct indices give distinct hues. */
  lemma HuesDistinct(i: nat, j: nat, n: nat)
    requires i < n && j < n && i != j
    ensures Hue(i, n) != Hue(j, n)
  {
    assert Hue(i, n) * n as real == i as real;
    assert Hue(j, n) * n as real == j as real;
  }

  /** The colour table `generate_color_map` builds: key i holds the colour of hue i/n. */
  function ColorMap(n: nat, hsv: real -> Rgb): map<int, Rgb> {
    map i | 0 <= i < n :: hsv(Hue(i, n))
  }

  method GenerateColorMap(n: nat, hsv: real -> Rgb) returns (colorMap: map<int, Rgb>)
    ensures forall i :: i in colorMap <==> 0 <= i < n
    ensures colorMap == ColorMap(n, hsv)
  {
    var hues: seq<real> := [];
    for i := 0 to n
      invariant |hues| == i
      invariant forall j :: 0 <= j < i ==> hues[j] == Hue(j, n)
    {
      hues := hues + [Hue(i, n)];
    }
    colorMap := map[];
    for i := 0 to n
      invariant forall j :: j in colorMap <==> 0 <= j < i
      invariant forall j :: 0 <= j < i ==> colorMap[j] == hsv(hues[j])
    {
      colorMap := colorMap[i := hsv(hues[i])];
    }
  }

  /** The conversion tells apart the n hues 0/n, 1/n, ..., (n-1)/n. */
  predicate InjectiveOnHues(hsv: real -> Rgb, n: nat) {
    forall a, b :: 0 <= a < n && 0 <= b < n && Hue(a, n) != Hue(b, n) ==> hsv(Hue(a, n)) != hsv(Hue(b, n))
  }

  /** When the conversion tells the n hues apart, the n colours of the table are pairwise
      distinct. */
  lemma ColorMapDistinct(n: nat, hsv: real -> Rgb, i: int, j: int)
    requires InjectiveOnHues(hsv, n)
    requires 0 <= i < n && 0 <= j < n && i != j
    ensures ColorMap(n, hsv)[i] != ColorMap(n, hsv)[j]
  {
    HuesDistinct(i, j, n);
  }

  // ---------------------------------------------------------------------------
  // generate_class_masks

  /** The mask pixel for a source pixel: the class colour, opaque, where the source holds the
      class value; fully transparent elsewhere. */
  function MaskPixel(pixel: int, value: int, color: Rgb): Rgba {
    if pixel == value then Rgba(color.r, color.g, color.b, 255) else Transparent
  }

  /** The RGBA mask of one class value. */
  function BuildMask(img: GrayImage, value: int, color: Rgb): (mask: RgbaImage)
    ensures mask.width == img.width && mask.height == img.height
    ensures |mask.pixels| == |img.pixels|
    ensures img.Valid() ==> mask.Valid()
    ensures forall k :: 0 <= k < |img.pixels| ==> (mask.pixels[k].alpha == 255 <==> img.pixels[k] == value)
    ensures forall k :: 0 <= k < |img.pixels| && mask.pixels[k].alpha == 255 ==>
      Rgb(mask.pixels[k].r, mask.pixels[k].g, mask.pixels[k].b) == color
    ensures forall k :: 0 <= k < |img.pixels| && mask.pixels[k].alpha != 255 ==> mask.pixels[k] == Transparent
  {
    RgbaImage(img.width, img.height,
      seq(|img.pixels|, k requires 0 <= k < |img.pixels| => MaskPixel(img.pixels[k], value, color)))
  }

  /** The index of the first distinct value without a class, or the list's length. */
  function FirstUnmapped(colors: seq<ColorCount>, mapping: map<int, string>): (k: nat)
    ensures k <= |colors|
    ensures forall j :: 0 <= j < k ==> colors[j].value in mapping
    ensures k < |colors| ==> colors[k].value !in mapping
  {
    if colors == [] then 0
    else if colors[0].value !in mapping then 0
    else FirstUnmapped(colors[1..], mapping) + 1
  }

  /** The file name of a class mask, `f"{class_mapping[value]}.png"`. */
  function MaskName(mapping: map<int, string>, value: int): string
    requires value in mapping
  {
    mapping[value] + ".png"
  }

  /** What the i-th pass of the loop saves: the mask of the i-th distinct value, coloured by
      the i-th entry of the colour table, named after the value's class. */
  function MaskFileAt(img: GrayImage, colors: seq<ColorCount>, i: nat, mapping: map<int, string>,
                      dir: string, hsv: real -> Rgb): SavedMask
    requires i < |colors| && colors[i].value in mapping
  {
    SavedMask(Join(dir, MaskName(mapping, colors[i].value)),
              BuildMask(img, colors[i].value, ColorMap(|colors|, hsv)[i]))
  }

  /** What the first k passes save, in order. */
  function MaskFiles(img: GrayImage, colors: seq<ColorCount>, k: nat, mapping: map<int, string>,
                     dir: string, hsv: real -> Rgb): (saves: seq<SavedMask>)
    requires k <= |colors| && forall j :: 0 <= j < k ==> colors[j].value in mapping
    ensures |saves| == k
  {
    seq(k, i requires 0 <= i < k => MaskFileAt(img, colors, i, mapping, dir, hsv))
  }

  /** The pixel values of a `getcolors` list, in list order. */
  function Values(colors: seq<ColorCount>): (vs: seq<int>)
    ensures |vs| == |colors| && forall i :: 0 <= i < |colors| ==> vs[i] == colors[i].value
  {
    seq(|colors|, i requires 0 <= i < |colors| => colors[i].value)
  }

  /** The names `generate_class_masks` returns, one per distinct value, in list order. */
  function MaskNames(colors: seq<ColorCount>, mapping: map<int, string>): (names: seq<string>)
    requires forall j :: 0 <= j < |colors| ==> colors[j].value in mapping
    ensures |names| == |colors|
  {
    seq(|colors|, i requires 0 <= i < |colors| => MaskName(mapping, colors[i].value))
  }

  lemma MaskFilesSnoc(img: GrayImage, colors: seq<ColorCount>, i: nat, mapping: map<int, string>,
                      dir: string, hsv: real -> Rgb)
    requires i < |colors| && forall j :: 0 <= j <= i ==> colors[j].value in mapping
    ensures MaskFiles(img, colors, i + 1, mapping, dir, hsv)
         == MaskFiles(img, colors, i, mapping, dir, hsv) + [MaskFileAt(img, colors, i, mapping, dir, hsv)]
  {
  }

  /** The directory the masks are saved into; `saved` lists the saves in call order. */
  class MaskWriter {
    var saved: seq<SavedMask>

    constructor ()
      ensures saved == []
    {
      saved := [];
    }

    method Save(path: string, image: RgbaImage)
      modifies this
      ensures saved == old(saved) + [SavedMask(path, image)]
    {
      saved := saved + [SavedMask(path, image)];
    }
  }

  /** `generate_class_masks(file, class_mapping, save_path)`, on the image `img` with
      `colors` as `img_gray.getcolors()` returns it (None above 256 distinct values). */
  method GenerateClassMasks(img: GrayImage, colors: Option<seq<ColorCount>>, mapping: map<int, string>,
                            savePath: string, hsv: real -> Rgb, out: MaskWriter)
    returns (r: Result<seq<string>>)
    modifies out
    ensures colors.None? ==> r == Failure(TypeError) && out.saved == old(out.saved)
    ensures colors.Some? ==>
      var cs := colors.value;
      var k := FirstUnmapped(cs, mapping);
      && out.saved == old(out.saved) + MaskFiles(img, cs, k, mapping, savePath, hsv)
      && (k < |cs| ==> r == Failure(ClassKeyError(cs[k].value)))
      && (k == |cs| ==> r == Success(MaskNames(cs, mapping)))
  {
    if colors.None? {
      return Failure(TypeError);
    }
    var cs := colors.value;
    var colorMap := GenerateColorMap(|cs|, hsv);
    ghost var saved0 := out.saved;
    var filesSaved: seq<string> := [];
    for i := 0 to |cs|
      invariant forall j :: 0 <= j < i ==> cs[j].value in mapping
      invariant i <= FirstUnmapped(cs, mapping)
      invariant out.saved == saved0 + MaskFiles(img, cs, i, mapping, savePath, hsv)
      invariant |filesSaved| == i && forall j :: 0 <= j < i ==> filesSaved[j] == MaskName(mapping, cs[j].value)
    {
      var color := cs[i].value;
      if color !in mapping {
        assert FirstUnmapped(cs, mapping) == i;
        return Failure(ClassKeyError(color));
      }
      var imageName := mapping[color] + ".png";
      var mask := BuildMask(img, color, colorMap[i]);
      assert SavedMask(Join(savePath, imageName), mask) == MaskFileAt(img, cs, i, mapping, savePath, hsv);
      MaskFilesSnoc(img, cs, i, mapping, savePath, hsv);
      out.Save(Join(savePath, imageName), mask);
      filesSaved := filesSaved + [imageName];
    }
    assert filesSaved == MaskNames(cs, mapping);
    return Success(filesSaved);
  }

  /** When the distinct-value list is what `getcolors` promises (every value distinct, every
      pixel's value listed) and every value has a class, each pixel is opaque in exactly one
      of the saved masks: the masks partition the image. */
  lemma MasksPartitionImage(img: GrayImage, cs: seq<ColorCount>, mapping: map<int, string>,
                            dir: string, hsv: real -> Rgb, k: nat)
    requires forall i, j :: 0 <= i < j < |cs| ==> cs[i].value != cs[j].value
    requires forall p :: 0 <= p < |img.pixels| ==> img.pixels[p] in Values(cs)
    requires FirstUnmapped(cs, mapping) == |cs|
    requires k < |img.pixels|
    ensures var saves := MaskFiles(img, cs, |cs|, mapping, dir, hsv);
      && (exists i :: 0 <= i < |cs| && saves[i].image.pixels[k].alpha == 255)
      && (forall i, j :: 0 <= i < |cs| && 0 <= j < |cs| &&
            saves[i].image.pixels[k].alpha == 255 && saves[j].image.pixels[k].alpha == 255
            ==> i == j)
  {
    var saves := MaskFiles(img, cs, |cs|, mapping, dir, hsv);
    assert img.pixels[k] in Values(cs);
    var i :| 0 <= i < |cs| && Values(cs)[i] == img.pixels[k];
    assert saves[i] == MaskFileAt(img, cs, i, mapping, dir, hsv);
    assert saves[i].image.pixels[k].alpha == 255;
    forall i1, j1 | 0 <= i1 < |cs| && 0 <= j1 < |cs| &&
        saves[i1].image.pixels[k].alpha == 255 && saves[j1].image.pixels[k].alpha == 255
      ensures i1 == j1
    {
      assert saves[i1] == MaskFileAt(img, cs, i1, mapping, dir, hsv);
      assert saves[j1] == MaskFileAt(img, cs, j1, mapping, dir, hsv);
      assert cs[i1].value == img.pixels[k] == cs[j1].value;
    }
  }

  /** With a mapping built by `get_class_mapping`, a listed background value 0 stops the loop
      at or before its own position, so an image with background pixels cannot be
      decomposed. */
  lemma BackgroundValueStopsMasks(names: seq<string>, cs: seq<ColorCount>, p: nat)
    requires p < |cs| && cs[p].value == 0
    ensures FirstUnmapped(cs, ClassMapping(names)) <= p
  {
    ClassMappingKeys(names, 0);
  }

  /** The classes {1: "water", 2: "sand"} over pixels 0, 1, 2: when `getcolors` lists 0
      last, the masks of water and sand are saved and then value 0 raises KeyError; when it
      lists 0 first, nothing is saved. */
  lemma BackgroundValueExample(hsv: real -> Rgb)
    ensures var img := GrayImage(3, 1, [0, 1, 2]);
      var mapping := ClassMapping(["water", "sand"]);
      var last := [ColorCount(1, 1), ColorCount(1, 2), ColorCount(1, 0)];
      var first := [ColorCount(1, 0), ColorCount(1, 1), ColorCount(1, 2)];
      && FirstUnmapped(last, mapping) == 2
      && MaskFiles(img, last, 2, mapping, "masks", hsv)[0].path == "masks/water.png"
      && MaskFiles(img, last, 2, mapping, "masks", hsv)[1].path == "masks/sand.png"
      && FirstUnmapped(first, mapping) == 0
  {
    var mapping := ClassMapping(["water", "sand"]);
    ClassMappingKeys(["water", "sand"], 0);
    ClassMappingKeys(["water", "sand"], 1);
    ClassMappingKeys(["water", "sand"], 2);
    var last := [ColorCount(1, 1), ColorCount(1, 2), ColorCount(1, 0)];
    assert last[1..][1..] == [ColorCount(1, 0)];
    assert MaskName(mapping, 1) == "water.png";
    assert MaskName(mapping, 2) == "sand.png";
  }

  /** The colour of a class follows the position of its value in the `getcolors` list, not
      the class key: listing the same two values in the other order swaps their colours. */
  lemma ColorFollowsScanOrder(hsv: real -> Rgb)
    requires hsv(0.0) != hsv(0.5)
    ensures var img := GrayImage(2, 1, [1, 2]);
      var mapping := ClassMapping(["water", "sand"]);
      var a := [ColorCount(1, 1), ColorCount(1, 2)];
      var b := [ColorCount(1, 2), ColorCount(1, 1)];
      1 in mapping && 2 in mapping &&
      var sa := MaskFiles(img, a, 2, mapping, "", hsv);
      var sb := MaskFiles(img, b, 2, mapping, "", hsv);
      && sa[0].path == sb[1].path == "water.png"
      && sa[0].image != sb[1].image
  {
    var img := GrayImage(2, 1, [1, 2]);
    var mapping := ClassMapping(["water", "sand"]);
    ClassMappingKeys(["water", "sand"], 1);
    ClassMappingKeys(["water", "sand"], 2);
    assert Hue(0, 2) == 0.0 && Hue(1, 2) == 0.5;
    var a := [ColorCount(1, 1), ColorCount(1, 2)];
    var b := [ColorCount(1, 2), ColorCount(1, 1)];
    assert MaskName(mapping, 1) == "water.png";
    var ma := BuildMask(img, 1, hsv(0.0));
    var mb := BuildMask(img, 1, hsv(0.5));
    assert ma.pixels[0].alpha == 255 && mb.pixels[0].alpha == 255;
    assert Rgb(ma.pixels[0].r, ma.pixels[0].g, ma.pixels[0].b) != Rgb(mb.pixels[0].r, mb.pixels[0].g, mb.pixels[0].b);
  }

  // ---------------------------------------------------------------------------
  // get_uri

  /** `f"data:{scheme};base64,{encodebytes(data).decode('ascii')}"`. */
  function GetUri(data: seq<bv8>, scheme: string, b64: seq<bv8> -> string): string {
    "data:" + scheme + ";base64," + b64(data)
  }

  /** Reads a `data:` URI back into its scheme (the text up to the first ';') and payload. */
  function ParseUri(uri: string): Option<(string, string)> {
    if |uri| < 5 || uri[..5] != "data:" then None
    else
      var scheme := BeforeFirst(uri[5..], ';');
      var rest := uri[5 + |scheme|..];
      if |rest| < 8 || rest[..8] != ";base64," then None
      else Some((scheme, rest[8..]))
  }

  /** A URI built from a scheme without ';' reads back as that scheme and the encoded bytes. */
  lemma UriRoundTrip(data: seq<bv8>, scheme: string, b64: seq<bv8> -> string)
    requires ';' !in scheme
    ensures ParseUri(GetUri(data, scheme, b64)) == Some((scheme, b64(data)))
  {
    var uri := GetUri(data, scheme, b64);
    assert uri[..5] == "data:";
    assert uri[5..] == scheme + [';'] + ("base64," + b64(data));
    BeforeFirstSeparator(scheme, ';', "base64," + b64(data));
    assert uri[5 + |scheme|..] == ";base64," + b64(data);
  }

  // ---------------------------------------------------------------------------
  // get_overlay_for_image and convert_image_to_bytes

  /** The format check and dispatch of `get_overlay_for_image`: the normalised format and
      the URI scheme, or the ValueError raised before the file is opened. */
  function OverlayFormat(fileFormat: string): (r: Result<(string, string)>)
    ensures r.Success? <==> Lower(fileFormat) in ["png", "jpg", "jpeg"]
    ensures r.Failure? ==> r.error == ValueError(fileFormat + " is not recognized. Allowed file formats are: png, jpg, and jpeg.")
    ensures r.Success? ==> r.value.0 in ["png", "jpeg"] && r.value.1 == "image/" + r.value.0
    ensures r.Success? ==> (r.value.0 == "png" <==> Lower(fileFormat) == "png")
  {
    var f := Lower(fileFormat);
    if f !in ["png", "jpg", "jpeg"] then
      Failure(ValueError(fileFormat + " is not recognized. Allowed file formats are: png, jpg, and jpeg."))
    else if f == "png" then Success(("png", "image/png"))
    else Success(("jpeg", "image/jpeg"))
  }

  /** The encoder `convert_image_to_bytes` saves with: PNG for "png", JPEG for anything else. */
  function EncoderName(fileFormat: string): (encoder: string)
    ensures encoder in ["PNG", "JPEG"]
    ensures encoder == "PNG" <==> Lower(fileFormat) == "png"
  {
    if Lower(fileFormat) == "png" then "PNG" else "JPEG"
  }

  /** For every accepted format the bytes are encoded in the format the URI announces. */
  lemma SchemeMatchesEncoder(fileFormat: string)
    requires OverlayFormat(fileFormat).Success?
    ensures var (format, scheme) := OverlayFormat(fileFormat).value;
      scheme == "image/" + Lower(EncoderName(format))
  {
    var (format, scheme) := OverlayFormat(fileFormat).value;
    assert Lower("png") == "png";
    assert Lower("jpeg") == "jpeg";
    assert Lower("PNG") == "png";
    assert Lower("JPEG") == "jpeg";
  }

  /** `get_overlay_for_image(image_path, bounds, name, file_format)`. */
  function GetOverlayForImage<B>(imagePath: string, bounds: B, name: string, fileFormat: string,
                                 encode: (string, string) -> seq<bv8>, b64: seq<bv8> -> string)
    : (r: Result<Overlay<B>>)
    ensures r.Failure? <==> OverlayFormat(fileFormat).Failure?
    ensures r.Failure? ==> r.error == OverlayFormat(fileFormat).error
    ensures r.Success? ==> r.value.bounds == bounds && r.value.name == name
    ensures r.Success? ==>
      var (format, scheme) := OverlayFormat(fileFormat).value;
      ParseUri(r.value.url) == Some((scheme, b64(encode(imagePath, EncoderName(format)))))
  {
    match OverlayFormat(fileFormat)
    case Failure(e) => Failure(e)
    case Success((format, scheme)) =>
      var bytes := encode(imagePath, EncoderName(format));
      UriRoundTrip(bytes, scheme, b64);
      Success(Overlay(GetUri(bytes, scheme, b64), bounds, name))
  }

  // ---------------------------------------------------------------------------
  // get_class_masks_overlay

  /** The overlay of one saved mask: named after the file name up to its first '.', then
      "_" and the year; its URL carries what `encode` gives for the file's path in PNG. */
  function MaskOverlay<B>(fileName: string, maskDir: string, year: string, bounds: B,
                          encode: (string, string) -> seq<bv8>, b64: seq<bv8> -> string): Overlay<B>
  {
    Overlay(GetUri(encode(Join(maskDir, fileName), "PNG"), "image/png", b64), bounds,
            BeforeFirst(fileName, '.') + "_" + year)
  }

  /** The overlay the loop builds for one mask file is `MaskOverlay`. */
  lemma PngOverlayOfMask<B>(fileName: string, maskDir: string, year: string, bounds: B, fileFormat: string,
                            encode: (string, string) -> seq<bv8>, b64: seq<bv8> -> string)
    requires Lower(fileFormat) == "png"
    ensures GetOverlayForImage(Join(maskDir, fileName), bounds, BeforeFirst(fileName, '.') + "_" + year, fileFormat, encode, b64)
         == Success(MaskOverlay(fileName, maskDir, year, bounds, encode, b64))
  {
  }

  /** For a class name without '.', the overlay carries the class name and the year. */
  lemma MaskOverlayName<B>(className: string, maskDir: string, year: string, bounds: B,
                           encode: (string, string) -> seq<bv8>, b64: seq<bv8> -> string)
    requires '.' !in className
    ensures MaskOverlay(className + ".png", maskDir, year, bounds, encode, b64).name == className + "_" + year
  {
    assert className + ".png" == className + ['.'] + "png";
    BeforeFirstSeparator(className, '.', "png");
  }

  /** `get_class_masks_overlay(tif_file, mask_output_dir, classes, year)`, with `bounds` the
      value `common.get_bounds(tif_file)` returns. */
  method GetClassMasksOverlay<B>(img: GrayImage, colors: Option<seq<ColorCount>>, classes: seq<string>,
                                 maskDir: string, year: string, bounds: B, hsv: real -> Rgb,
                                 encode: (string, string) -> seq<bv8>, b64: seq<bv8> -> string,
                                 out: MaskWriter)
    returns (r: Result<seq<Overlay<B>>>)
    modifies out
    ensures colors.None? ==> r == Failure(TypeError) && out.saved == old(out.saved)
    ensures colors.Some? ==>
      var cs := colors.value;
      var mapping := ClassMapping(classes);
      var k := FirstUnmapped(cs, mapping);
      && out.saved == old(out.saved) + MaskFiles(img, cs, k, mapping, maskDir, hsv)
      && (k < |cs| ==> r == Failure(ClassKeyError(cs[k].value)))
      && (k == |cs| ==>
            && r.Success? && |r.value| == |cs|
            && forall i :: 0 <= i < |cs| ==>
                 r.value[i] == MaskOverlay(MaskName(mapping, cs[i].value), maskDir, year, bounds, encode, b64))
  {
    var classMapping := GetClassMapping(classes);
    var classMasks := GenerateClassMasks(img, colors, classMapping, maskDir, hsv, out);
    if classMasks.Failure? {
      return Failure(classMasks.error);
    }
    var layers := MaskOverlays(classMasks.value, maskDir, year, bounds, encode, b64);
    return Success(layers);
  }

  /** The loop of `get_class_masks_overlay`: one PNG overlay per saved mask file, in order. */
  method MaskOverlays<B>(masks: seq<string>, maskDir: string, year: string, bounds: B,
                         encode: (string, string) -> seq<bv8>, b64: seq<bv8> -> string)
    returns (layers: seq<Overlay<B>>)
    ensures |layers| == |masks|
    ensures forall j :: 0 <= j < |masks| ==> layers[j] == MaskOverlay(masks[j], maskDir, year, bounds, encode, b64)
  {
    var fileFormat := "png";
    assert Lower(fileFormat) == "png";
    ghost var expected := seq(|masks|, j requires 0 <= j < |masks| => MaskOverlay(masks[j], maskDir, year, bounds, encode, b64));
    layers := [];
    for i := 0 to |masks|
      invariant layers == expected[..i]
    {
      var filename := masks[i];
      var filePath := Join(maskDir, filename);
      var newFilename := BeforeFirst(filename, '.') + "_" + year;
      PngOverlayOfMask(filename, maskDir, year, bounds, fileFormat, encode, b64);
      var imageOverlay := GetOverlayForImage(filePath, bounds, newFilename, fileFormat, encode, b64);
      ghost var layer := MaskOverlay(filename, maskDir, year, bounds, encode, b64);
      assert imageOverlay == Success(layer);
      assert expected[..i + 1] == expected[..i] + [layer];
      layers := layers + [imageOverlay.value];
    }
    assert expected[..|masks|] == expected;
  }
}
