# seg2map core, modelled in Dafny

seg2map downloads imagery for regions of interest (ROIs), classifies it with segmentation
models and shows the classes on a map. This project models the two modules that hold its
self-contained logic. It proves what they compute.

- `map_functions.py` turns a classified single-band image into one RGBA mask per pixel
  value, saved as `<class name>.png`, and packages each image as a map overlay whose URL is
  a base64 `data:` URI.
- `common.py` supplies:
  - list grouping;
  - nearest-neighbour scaling of a label grid;
  - per-year date ranges;
  - UTM EPSG codes;
  - the config and ROI settings records and the checks over them;
  - the search for a config file;
  - the GDAL conversions that skip targets which already exist, and the mosaic step.

Files:

- `outcomes.dfy`: `Option`, and `Result` with the Python exceptions the code raises.
- `text.dfy`: the Python string and path operations the code relies on:
  - `str.replace`, ASCII `str.lower` and `str(n)` with its inverse;
  - POSIX `os.path.join` and `split(c)[0]`;
  - the "first element missing from a set" scan.
- `json.dfy`: JSON values, and Python's insertion-ordered dict as a sequence of entries.
- `map_functions.dfy`: module `MapFunctions`.
- `common.dfy`, `common_config.dfy`, `common_gdal.dfy`: modules `Common`, `CommonConfig` and
  `CommonGdal`. They hold the pure helpers, the config records and the file-system part of
  `common.py`.

Foreign code becomes parameters:

- PIL's image data. The image is a width, a height and a row-major pixel sequence, and the
  `getcolors()` list is an `Option` (it is `None` above 256 colours).
- `colorsys.hsv_to_rgb` scaled to 8 bits: `hsv`.
- Opening an image and saving it in an encoder's format: `encode`.
- `base64.encodebytes` followed by the ASCII decode: `b64`.
- `common.get_bounds`: the `bounds` value.

The file system is a class with the set of existing paths and the log of paths GDAL wrote.
Mask saving is a class that logs each save.

Error behaviour of the code that a reader might not expect:

- A raster with values {0, 1, 2} and classes {1: "water", 2: "sand"} does not give just
  water.png and sand.png. `class_mapping[color]` raises KeyError at the first unmapped
  value, in `getcolors` order, after the masks of earlier values were saved. Value 0 is
  never mapped by `get_class_mapping`, so such a raster always ends in KeyError
  (`BackgroundValueExample`).
- `group_files` with size 0 raises ValueError from `range`, and a negative size gives `[]`.
- `scale` on an empty matrix raises IndexError.

## Model

| member | source | states |
|---|---|---|
| MapFunctions.GetClassMapping | src/seg2map/map_functions.py:76-79 | the keys are exactly 1..len(names) and key i holds names[i-1] |
| MapFunctions.ClassMappingKeys | src/seg2map/map_functions.py:77-78 | a value has a class iff it is in 1..len(names), so the background 0 never has one |
| MapFunctions.Hue | src/seg2map/map_functions.py:94 | every hue i/n lies in [0, 1) |
| MapFunctions.HuesDistinct | src/seg2map/map_functions.py:94 | distinct indices give distinct hues |
| MapFunctions.GenerateColorMap | src/seg2map/map_functions.py:94-104 | the keys are exactly 0..n-1 (none for n = 0) and key i holds the colour of hue i/n |
| MapFunctions.ColorMapDistinct | src/seg2map/map_functions.py:94-102 | if the colour conversion gives distinct colours for the n hues i/n, the n colours of the table are pairwise distinct |
| MapFunctions.BuildMask | src/seg2map/map_functions.py:134-136 | width, height and pixel count are the source's; pixel k is opaque iff the source pixel equals the value; an opaque pixel has the class colour; every other pixel is (0,0,0,0) |
| MapFunctions.FirstUnmapped | src/seg2map/map_functions.py:131-132 | the index of the first listed value without a class: every earlier value has one |
| MapFunctions.MaskWriter.constructor | src/seg2map/map_functions.py:139 | no mask has been saved yet |
| MapFunctions.MaskWriter.Save | src/seg2map/map_functions.py:139 | mask_img.save logs one save of the image at that path |
| MapFunctions.GenerateClassMasks | src/seg2map/map_functions.py:123-141 | None from getcolors is a TypeError with nothing saved. Otherwise: one mask is saved per listed value in list order, coloured by list position, until the first unmapped value; that value raises KeyError after the earlier saves; if there is none, the class names + ".png" are returned in list order |
| MapFunctions.MasksPartitionImage | src/seg2map/map_functions.py:131-136 | when the values are distinct, cover the image and all have classes, each pixel is opaque in exactly one mask |
| MapFunctions.BackgroundValueStopsMasks | src/seg2map/map_functions.py:131-132 | with a mapping from get_class_mapping, a listed value 0 stops the masks at or before its position |
| MapFunctions.BackgroundValueExample | src/seg2map/map_functions.py:126-141 | for water/sand over pixels {0,1,2}: 0 listed last yields masks/water.png and masks/sand.png, then KeyError; 0 listed first saves nothing |
| MapFunctions.ColorFollowsScanOrder | src/seg2map/map_functions.py:128-136 | a class's colour depends on its position in the getcolors list, not on its key |
| MapFunctions.UriRoundTrip | src/seg2map/map_functions.py:143-167 | the URI is "data:" + scheme + ";base64," + the encoded bytes, and it reads back as that scheme and payload |
| MapFunctions.OverlayFormat | src/seg2map/map_functions.py:181-189 | accepted iff the lowercase format is png, jpg or jpeg, else the ValueError with its message; png gives image/png, jpg and jpeg give jpeg and image/jpeg |
| MapFunctions.EncoderName | src/seg2map/map_functions.py:200-201 | the encoder is PNG iff the lowercase format is png, otherwise JPEG |
| MapFunctions.SchemeMatchesEncoder | src/seg2map/map_functions.py:184-201 | for every accepted format, the URI scheme names the encoder the bytes were saved with |
| MapFunctions.GetOverlayForImage | src/seg2map/map_functions.py:169-198 | fails iff the format check fails, with its error, before the file is read; otherwise the overlay keeps bounds and name, and its URL is the data URI of the file encoded in the matching format |
| MapFunctions.MaskOverlayName | src/seg2map/map_functions.py:45 | the overlay of "<class>.png" is named "<class>_<year>" when the class name has no '.' |
| MapFunctions.MaskOverlays | src/seg2map/map_functions.py:43-48 | one overlay per mask file in order: the PNG data URI of the file in the mask directory, named from the file name up to its first '.', "_" and the year |
| MapFunctions.PngOverlayOfMask | src/seg2map/map_functions.py:45-47 | get_overlay_for_image with a format that lowercases to png always succeeds, with the PNG overlay of the mask file |
| MapFunctions.GetClassMasksOverlay | src/seg2map/map_functions.py:16-50 | the same saves and errors as generate_class_masks with the mapping from classes; on success, one PNG overlay per saved mask in the same order, named from the file name and the year |
| Text.Replace | src/seg2map/common.py:216 | replacing by a text of the pattern's own length keeps the length (".png" by ".tif", ".tif" by ".jpg") |
| Text.ReplaceWithoutOccurrence | src/seg2map/common.py:242 | str.replace leaves a string without the pattern unchanged |
| Text.ReplaceAtEnd | src/seg2map/common.py:91 | replacing a pattern that occurs only as a suffix swaps that suffix |
| Text.LowerAscii | src/seg2map/map_functions.py:181-187 | lower-casing keeps the length, leaves no upper-case ASCII letter and changes no other character |
| Text.JoinParts | src/seg2map/map_functions.py:44 | os.path.join ends with the name; an absolute name or an empty directory gives the name alone; otherwise the directory, one '/' unless it already ends with one, and the name |
| Text.BeforeFirst | src/seg2map/map_functions.py:45 | split(c)[0] is the longest prefix without c: it holds no c, and it is all of the string or is followed by c |
| Text.DecimalRoundTrip | src/seg2map/common.py:707 | str(n) reads back as n |
| Text.BeforeFirstSeparator | src/seg2map/map_functions.py:45 | split(c)[0] of a + c + b is a when a has no c |
| Text.FirstOutside | src/seg2map/common.py:74-76 | the first index whose element is missing, with every earlier element present |
| Json.PutTwiceKeys | src/seg2map/common.py:829-830 | two assignments to different keys keep the order and append each key that was new |
| Json.PutGet | src/seg2map/common.py:829-830 | after d[k] = v, key k reads v and every other key reads what it read before |
| Json.PutKeys | src/seg2map/common.py:829-830 | d[k] = v keeps the key order and appends a new key at the end |
| Json.PutDistinct | src/seg2map/common.py:829-830 | assignment never duplicates a key |
| Common.GroupFiles | src/seg2map/common.py:59 | size 0 raises ValueError and a negative size gives no groups |
| Common.GroupsFlatten | src/seg2map/common.py:59 | concatenating the groups gives back the list |
| Common.GroupSizes | src/seg2map/common.py:59 | there are ceil(len/size) groups; all but the last hold size elements; the last holds 1 to size |
| Common.GroupsUnfold | src/seg2map/common.py:59 | the groups are the first size elements followed by the groups of the rest |
| Common.ScaledIndex | src/seg2map/common.py:1134 | int(src*i/n) is the floor of the quotient and lies below src |
| Common.Scale | src/seg2map/common.py:1130-1139 | IndexError iff the matrix is empty, or it has empty rows and an entry is read; otherwise rows x cols entries |
| Common.ScaleEntry | src/seg2map/common.py:1134 | entry (r, c) is the source entry at the scaled row and column, and both indices are in range |
| Common.ScaleValuesFromInput | src/seg2map/common.py:1132-1138 | every output value occurs in the input |
| Common.ScaleIdentity | src/seg2map/common.py:1130-1139 | scaling to the source's own shape returns the source |
| Common.GetYearlyRanges | src/seg2map/common.py:420-429 | one pair per year from the start year to the end year (none if the start year is later); the first pair starts at the start date, the last ends at the end date; every other boundary is Jan 1 or Dec 31 of its year |
| Common.UtmBand | src/seg2map/common.py:707 | the zone (floor((lon+180)/6) mod 60) + 1 lies in 1..60 |
| Common.ConvertWgsToUtmAsWritten | src/seg2map/common.py:707-714 | the code as written: "326" (lat >= 0) or "327", then the digits of the zone; four characters for zones 1 to 9, five from zone 10 |
| Common.UtmAsWrittenShortBelowTen | src/seg2map/common.py:707-714 | every zone 1 to 9 gives a four-character code as written, never the five-digit EPSG code |
| Common.UtmZoneOneUnpadded | src/seg2map/common.py:707-714 | at longitude -177 the code as written gives "3261", where the padded code is "32601" |
| Common.UtmAsWrittenAgreesFromZoneTen | src/seg2map/common.py:707-714 | from zone 10 on, the code as written and the padded code agree |
| Common.ConvertWgsToUtm | src/seg2map/common.py:698-714 | with the padding the test evidently intends: five digits whose value is 32600 (lat >= 0) or 32700, plus the zone |
| Common.UtmCodeRoundTrip | src/seg2map/common.py:711-714 | the padded code reads back the hemisphere (326 iff lat >= 0) and the zone |
| Common.IsListEmpty | src/seg2map/common.py:660-665 | true iff every element has length 0 |
| Common.JsonFollowsCorrect | src/seg2map/common.py:766 | the scan finds ".json" (any case) iff it occurs at or after i with no newline before it |
| Common.ConfigNameMatchesRegex | src/seg2map/common.py:766-769 | the test agrees with matching config.*\.json case-insensitively at the start of the name |
| Common.FindConfigJson | src/seg2map/common.py:753-774 | succeeds iff some listed name matches; returns the first matching name joined to the directory, else FileNotFoundError |
| CommonConfig.CreateJsonConfig | src/seg2map/common.py:827-831 | "settings" reads the settings and "roi_ids" reads the list of the input's keys |
| CommonConfig.CreateJsonConfigGet | src/seg2map/common.py:827-831 | "roi_ids" lists the input keys in order, "settings" holds the settings, every other key reads its input value |
| CommonConfig.CreateJsonConfigKeys | src/seg2map/common.py:827-831 | the input key order is kept, "roi_ids" and "settings" are appended when new, and no key is duplicated |
| CommonConfig.Index | src/seg2map/common.py:913 | dates[i] indexes a list or string (IndexError out of range), raises KeyError on a dict and TypeError on a scalar |
| CommonConfig.DateStrings | src/seg2map/common.py:913 | both dates render iff both subscripts succeed; the first failing subscript's error is raised |
| CommonConfig.IntToString | src/seg2map/common.py:913 | str(n) reads back as n: its digits for n >= 0; for n < 0, "-" followed by digits that read back as -n |
| CommonConfig.RoiNameId | src/seg2map/common.py:913 | the ROI name "ID_<id>_dates_<d0>_to_<d1>" gives back the id when the id has no '_' |
| CommonConfig.RoiEntryKeys | src/seg2map/common.py:914-920 | an entry has exactly the keys dates, roi_id, roi_name, sitename, filepath, in that order |
| CommonConfig.RoiEntryDistinct | src/seg2map/common.py:914-920 | no key of an entry occurs twice |
| CommonConfig.RoiEntryFields | src/seg2map/common.py:914-920 | each of the five keys reads back the value it was built from |
| CommonConfig.RoiSettingsMapContents | src/seg2map/common.py:912-921 | the keys are the selected ids, and each entry reads back its own id, its ROI name and the shared dates, sitename and filepath |
| CommonConfig.RoiSettingsMapAdd | src/seg2map/common.py:921 | one more selected id adds exactly its entry to the map |
| CommonConfig.CreateRoiSettingsContents | src/seg2map/common.py:909-922 | the keys are the selected ids; each entry has its own roi_id, the shared dates, sitename and filepath, and the ROI name built from the rendered dates |
| CommonConfig.CreateRoiSettings | src/seg2map/common.py:909-922 | KeyError for a missing sitename, then for missing dates; the date errors only when an id is selected; otherwise the settings of every selected id |
| CommonConfig.SitenameCheckAnswers | src/seg2map/common.py:991-998 | when every id has a sitename, the answer is whether none is "" |
| CommonConfig.SitenameCheckErrors | src/seg2map/common.py:991-998 | an error is the KeyError of the first id, in list order, that lacks an entry or a sitename, with no blank sitename before it |
| CommonConfig.DoRoisHaveSitenames | src/seg2map/common.py:982-998 | the flag loop with break returns exactly what the check specifies |
| CommonConfig.CreatedRoisHaveSitenames | src/seg2map/common.py:991-998 | ROIs built with a non-empty sitename answer True for any list of selected ids |
| CommonConfig.SitenameCheckFirstMissing | src/seg2map/common.py:991-994 | when every entry has a non-empty sitename and some listed id has no entry, the check raises the KeyError of the first such id |
| CommonConfig.UnselectedRoiRaises | src/seg2map/common.py:991-994 | over ROIs built with a non-empty sitename, a list holding an unselected id raises the KeyError of the first unselected id |
| CommonGdal.NewTargetsPrefix | src/seg2map/common.py:241-249 | one more loop step adds its target to the paths, and to the created ones iff it was neither present nor an earlier target |
| CommonGdal.NewTargets | src/seg2map/common.py:241-249 | at most one path per input is created, and each created path is a target that did not exist |
| CommonGdal.NewTargetsSnoc | src/seg2map/common.py:241-249 | one more input adds its target iff the target neither existed nor was an earlier target |
| CommonGdal.NewTargetsMembership | src/seg2map/common.py:241-249 | a path is created iff it is a target that did not exist |
| CommonGdal.NewTargetsDistinct | src/seg2map/common.py:241-249 | no path is created twice in one call |
| CommonGdal.NewTargetsAllExisting | src/seg2map/common.py:241-249 | when every target exists, nothing is created |
| CommonGdal.TranslateAll | src/seg2map/common.py:241-249 | returns the new targets in input order; the paths become the old ones plus every target; exactly the new targets are written |
| CommonGdal.GdalTranslateJpeg | src/seg2map/common.py:227-249 | the same, with every ".tif" in the path replaced by ".jpg" |
| CommonGdal.GdalTranslatePngToTiff | src/seg2map/common.py:201-224 | the same, with every ".png" in the path replaced by ".tif" |
| CommonGdal.TranslateJpegTwice | src/seg2map/common.py:241-249 | an immediate second call returns [] and writes nothing |
| CommonGdal.TifFreeInputIsSkipped | src/seg2map/common.py:242-244 | an existing input without ".tif" is its own target and is skipped |
| CommonGdal.FileSystem.constructor | src/seg2map/common.py:75 | the file system starts with the given existing paths and no writes |
| CommonGdal.FileSystem.Translate | src/seg2map/common.py:221 | gdal.Translate creates its target path and logs one write of it |
| CommonGdal.FileSystem.BuildVrt | src/seg2map/common.py:84-86 | gdal.BuildVRT with FlushCache creates its target path and logs one write of it |
| CommonGdal.MosaicOutputs | src/seg2map/common.py:84-106 | the VRT at dest_path first, then the GeoTIFF, and the JPEG only when asked for |
| CommonGdal.MosaicOutputsOfVrt | src/seg2map/common.py:91-103 | for "<stem>.vrt", the outputs are "<stem>.vrt", "<stem>.tif" and optionally "<stem>.jpg" |
| CommonGdal.MosaicOutputsWithoutVrt | src/seg2map/common.py:91-103 | a destination without ".vrt" is the target of all three writes |
| CommonGdal.MergeFiles | src/seg2map/common.py:63-110 | succeeds iff every source exists. Otherwise it raises the FileNotFoundError of the first missing source and writes nothing. On success it writes the mosaic outputs in order and returns dest_path |

## Left out

- GDAL raster semantics: `BuildVRT` and `Translate` are modelled only as writes of their
  target path. Nodata, resampling, compression and world files are not modelled.
- A GDAL call that fails, for a missing source in `gdal_translate_*`, or `BuildVRT` on an
  empty list returning None, is not modelled: every write succeeds.
- PIL: opening, `point`, `save` and the pixel format. The pixel sequence and the `getcolors`
  list are inputs, and saving an image is a logged save.
- MapFunctions.GenerateColorMap: does not model the float arithmetic of
  `colorsys.hsv_to_rgb` and `int(255 * c)`. That conversion is the parameter `hsv`.
- MapFunctions.MaskOverlay: the overlay's bytes are what `encode` gives for the file's path.
  They are not tied to the image `MaskWriter` saved at that path. So when two classes share
  a name, the model cannot say that both overlays show the second save.
- Base64 (`encodebytes`, section 6.8 of RFC 2045) is the parameter `b64`.
- `common.get_bounds` is not part of this model. Its result is the parameter `bounds`.
- Common.Scale: models `int(src_rows * r / rows)` as exact floor division of naturals. The
  float quotient can round differently for very large operands. Negative `rows`/`cols` are
  excluded by the `nat` types.
- Common.UtmBand: `lon` is a real with an exact floor. IEEE division can differ at zone
  edges.
- Common.GetYearlyRanges: starts from parsed dates. The `strptime` parsing and its errors
  are left out.
- Text.Lower and Common.ConfigNameMatches: lower-casing and IGNORECASE cover ASCII letters
  only.
- CommonConfig.CreateRoiSettings: the f-string rendering of a nested list or dict date is the
  parameter `reprOf`, not Python's repr. The order in which `list(selected_ids)` visits the
  set is not modelled, because the result is a map.
- Text.Join: models POSIX `os.path.join`, not Windows.
- Concurrency, the network and the UI are out of scope: the thread pools, downloads,
  zip handling and widgets.
- Filesystem bookkeeping is out of scope: deleting, renaming, copying and moving files,
  directory creation, and the existence checks other than those above.
- Randomness, the clock, and geopandas/GeoJSON/JSON file I/O are out of scope.
- Floating-point geometry and colour helpers are out of scope: the area, centre and
  rescale functions, and `get_colors`.

## Findings

| source | as written | input that shows it | evidently intended | confidence | as-written member | corrected member |
|---|---|---|---|---|---|---|
| src/seg2map/common.py:708-709 | `len(utm_band) == "1"` compares an int with a str, so zones 1 to 9 are never padded | lon = -177, lat = 10 gives "3261" | pad to two digits, giving EPSG code "32601" | not executed | Common.ConvertWgsToUtmAsWritten, Common.UtmZoneOneUnpadded | Common.ConvertWgsToUtm |
