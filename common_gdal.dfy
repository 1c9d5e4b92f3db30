/** The skip-if-exists conversions and the mosaic of src/seg2map/common.py, over a file
    system that records which paths exist and which paths GDAL wrote, in order. */
module CommonGdal {
  import opened Outcomes
  import opened Text

  function Elements(s: seq<string>): set<string> {
    set x | x in s
  }

  lemma ElementsAppend(s: seq<string>, x: string)
    ensures Elements(s + [x]) == Elements(s) + {x}
  {
  }

  /** The existing paths, and the log of the paths GDAL has written (a write of an existing
      path overwrites it). `BuildVRT` and `Translate` are modelled only as such writes. */
  class FileSystem {
    var paths: set<string>
    var writes: seq<string>

    constructor (existing: set<string>)
      ensures paths == existing && writes == []
    {
      paths := existing;
      writes := [];
    }

    /** `os.path.exists(path)`. */
    function Exists(path: string): bool
      reads this
    {
      path in paths
    }

    /** `gdal.Translate(target, source, ...)`: writes `target`. */
    method Translate(target: string, source: string)
      modifies this
      ensures paths == old(paths) + {target}
      ensures writes == old(writes) + [target]
    {
      paths := paths + {target};
      writes := writes + [target];
    }

    /** `gdal.BuildVRT(target, sources, ...)` followed by `FlushCache()`: writes `target`. */
    method BuildVrt(target: string, sources: seq<string>)
      modifies this
      ensures paths == old(paths) + {target}
      ensures writes == old(writes) + [target]
    {
      paths := paths + {target};
      writes := writes + [target];
    }
  }

  // ---------------------------------------------------------------------------
  // gdal_translate_jpeg and gdal_translate_png_to_tiff

  /** The target path of every input: `f.replace(pat, rep)`. */
  function Targets(files: seq<string>, pat: string, rep: string): (ts: seq<string>)
    requires |pat| > 0
    ensures |ts| == |files|
  {
    seq(|files|, i requires 0 <= i < |files| => Replace(files[i], pat, rep))
  }

  /** The targets a conversion pass creates, in input order: a target that exists, or that
      the pass itself already created, is skipped. */
  function NewTargets(existing: set<string>, targets: seq<string>): (created: seq<string>)
    ensures |created| <= |targets|
    ensures forall i :: 0 <= i < |created| ==> created[i] in targets && created[i] !in existing
    decreases |targets|
  {
    if targets == [] then []
    else if targets[0] in existing then NewTargets(existing, targets[1..])
    else [targets[0]] + NewTargets(existing + {targets[0]}, targets[1..])
  }

  /** One more input adds its target exactly when it is neither pre-existing nor an
      earlier target. */
  lemma {:induction false} NewTargetsSnoc(existing: set<string>, targets: seq<string>, x: string)
    ensures NewTargets(existing, targets + [x]) ==
      NewTargets(existing, targets) + (if x in existing || x in targets then [] else [x])
    decreases |targets|
  {
    if targets == [] {
      assert [] + [x] == [x];
    } else {
      var t := targets[0];
      assert (targets + [x])[1..] == targets[1..] + [x];
      if t in existing {
        NewTargetsSnoc(existing, targets[1..], x);
      } else {
        NewTargetsSnoc(existing + {t}, targets[1..], x);
      }
    }
  }

  /** A path is newly created exactly when it is a target that did not exist. */
  lemma {:induction false} NewTargetsMembership(existing: set<string>, targets: seq<string>, p: string)
    ensures p in NewTargets(existing, targets) <==> p in targets && p !in existing
    decreases |targets|
  {
    if targets != [] {
      var t := targets[0];
      assert p in targets <==> p == t || p in targets[1..];
      if t in existing {
        NewTargetsMembership(existing, targets[1..], p);
      } else {
        NewTargetsMembership(existing + {t}, targets[1..], p);
      }
    }
  }

  /** The step of a pass over `targets`: the prefix of length i + 1 adds `targets[i]` to the
      paths, and to the created ones exactly when it is new. */
  lemma NewTargetsPrefix(existing: set<string>, targets: seq<string>, i: nat)
    requires i < |targets|
    ensures NewTargets(existing, targets[..i + 1]) ==
      NewTargets(existing, targets[..i]) + (if targets[i] in existing + Elements(targets[..i]) then [] else [targets[i]])
    ensures existing + Elements(targets[..i + 1]) == existing + Elements(targets[..i]) + {targets[i]}
  {
    assert targets[..i + 1] == targets[..i] + [targets[i]];
    NewTargetsSnoc(existing, targets[..i], targets[i]);
    ElementsAppend(targets[..i], targets[i]);
  }

  predicate NoDuplicates(s: seq<string>) {
    forall i, j :: 0 <= i < j < |s| ==> s[i] != s[j]
  }

  /** No path is created twice in one pass. */
  lemma {:induction false} NewTargetsDistinct(existing: set<string>, targets: seq<string>)
    ensures NoDuplicates(NewTargets(existing, targets))
    decreases |targets|
  {
    if targets != [] {
      var t := targets[0];
      if t in existing {
        assert NewTargets(existing, targets) == NewTargets(existing, targets[1..]);
        NewTargetsDistinct(existing, targets[1..]);
      } else {
        var rest := NewTargets(existing + {t}, targets[1..]);
        NewTargetsDistinct(existing + {t}, targets[1..]);
        NewTargetsMembership(existing + {t}, targets[1..], t);
        var n := [t] + rest;
        forall i, j | 0 <= i < j < |n| ensures n[i] != n[j] {
          if i == 0 {
            assert n[j] == rest[j - 1];
          } else {
            assert n[i] == rest[i - 1] && n[j] == rest[j - 1];
          }
        }
      }
    }
  }

  /** When every target exists, nothing is created. */
  lemma {:induction false} NewTargetsAllExisting(existing: set<string>, targets: seq<string>)
    requires forall i :: 0 <= i < |targets| ==> targets[i] in existing
    ensures NewTargets(existing, targets) == []
    decreases |targets|
  {
    if targets != [] {
      NewTargetsAllExisting(existing, targets[1..]);
    }
  }

  /** The loop shared by both conversions: each input is converted to its target unless the
      target exists, and the created targets are returned in input order. */
  method TranslateAll(fs: FileSystem, files: seq<string>, pat: string, rep: string) returns (newFiles: seq<string>)
    requires |pat| > 0
    modifies fs
    ensures newFiles == NewTargets(old(fs.paths), Targets(files, pat, rep))
    ensures fs.paths == old(fs.paths) + Elements(Targets(files, pat, rep))
    ensures fs.writes == old(fs.writes) + newFiles
  {
    ghost var targets := Targets(files, pat, rep);
    ghost var existing, writes0 := fs.paths, fs.writes;
    newFiles := [];
    for i := 0 to |files|
      invariant newFiles == NewTargets(existing, targets[..i])
      invariant fs.paths == existing + Elements(targets[..i])
      invariant fs.writes == writes0 + newFiles
    {
      var newFile := Replace(files[i], pat, rep);
      assert newFile == targets[i];
      NewTargetsPrefix(existing, targets, i);
      if !fs.Exists(newFile) {
        fs.Translate(newFile, files[i]);
        newFiles := newFiles + [newFile];
      } else {
        assert existing + Elements(targets[..i + 1]) == fs.paths;
      }
    }
    assert targets[..|files|] == targets;
  }

  /** `gdal_translate_jpeg(files)`: each ".tif" path to the ".jpg" path beside it. */
  method GdalTranslateJpeg(fs: FileSystem, files: seq<string>) returns (newFiles: seq<string>)
    modifies fs
    ensures newFiles == NewTargets(old(fs.paths), Targets(files, ".tif", ".jpg"))
    ensures fs.paths == old(fs.paths) + Elements(Targets(files, ".tif", ".jpg"))
    ensures fs.writes == old(fs.writes) + newFiles
  {
    newFiles := TranslateAll(fs, files, ".tif", ".jpg");
  }

  /** `gdal_translate_png_to_tiff(files)`: each ".png" path to the ".tif" path beside it. */
  method GdalTranslatePngToTiff(fs: FileSystem, files: seq<string>) returns (newFiles: seq<string>)
    modifies fs
    ensures newFiles == NewTargets(old(fs.paths), Targets(files, ".png", ".tif"))
    ensures fs.paths == old(fs.paths) + Elements(Targets(files, ".png", ".tif"))
    ensures fs.writes == old(fs.writes) + newFiles
  {
    newFiles := TranslateAll(fs, files, ".png", ".tif");
  }

  /** Converting the same list twice: the second pass creates and writes nothing. */
  method TranslateJpegTwice(fs: FileSystem, files: seq<string>) returns (first: seq<string>, second: seq<string>)
    modifies fs
    ensures first == NewTargets(old(fs.paths), Targets(files, ".tif", ".jpg"))
    ensures second == []
    ensures fs.writes == old(fs.writes) + first
  {
    first := GdalTranslateJpeg(fs, files);
    NewTargetsAllExisting(fs.paths, Targets(files, ".tif", ".jpg"));
    second := GdalTranslateJpeg(fs, files);
  }

  /** An existing input without ".tif" in its path is its own target, so it is skipped. */
  lemma TifFreeInputIsSkipped(existing: set<string>, f: string)
    requires f in existing && !Occurs(f, ".tif")
    ensures NewTargets(existing, Targets([f], ".tif", ".jpg")) == []
  {
    ReplaceWithoutOccurrence(f, ".tif", ".jpg");
    assert Targets([f], ".tif", ".jpg") == [f];
  }

  // ---------------------------------------------------------------------------
  // merge_files

  /** The paths a successful `merge_files(src_files, dest_path, create_jpg)` writes, in
      order: the VRT at `dest_path`, the GeoTIFF and, when asked for, the JPEG. */
  function MosaicOutputs(destPath: string, createJpg: bool): (outputs: seq<string>)
    ensures |outputs| == if createJpg then 3 else 2
    ensures outputs[0] == destPath
  {
    [destPath, Replace(destPath, ".vrt", ".tif")] + (if createJpg then [Replace(destPath, ".vrt", ".jpg")] else [])
  }

  /** For a destination "<stem>.vrt" with no other ".vrt" in it, the outputs are
      "<stem>.vrt", "<stem>.tif" and "<stem>.jpg". */
  lemma MosaicOutputsOfVrt(stem: string)
    requires forall i :: 0 <= i < |stem| ==> !OccursAt(stem + ".vrt", ".vrt", i)
    ensures MosaicOutputs(stem + ".vrt", true) == [stem + ".vrt", stem + ".tif", stem + ".jpg"]
    ensures MosaicOutputs(stem + ".vrt", false) == [stem + ".vrt", stem + ".tif"]
  {
    ReplaceAtEnd(stem, ".vrt", ".tif");
    ReplaceAtEnd(stem, ".vrt", ".jpg");
  }

  /** A destination without ".vrt" is written three times over: the GeoTIFF and the JPEG
      are translated onto the VRT's own path. */
  lemma MosaicOutputsWithoutVrt(destPath: string)
    requires !Occurs(destPath, ".vrt")
    ensures MosaicOutputs(destPath, true) == [destPath, destPath, destPath]
  {
    ReplaceWithoutOccurrence(destPath, ".vrt", ".tif");
    ReplaceWithoutOccurrence(destPath, ".vrt", ".jpg");
  }

  /** `merge_files`: every source is checked before anything is written; the first missing
      one raises FileNotFoundError and nothing changes. Otherwise the VRT, the GeoTIFF and
      the optional JPEG are written and `dest_path` is returned as given. */
  method MergeFiles(fs: FileSystem, srcFiles: seq<string>, destPath: string, createJpg: bool) returns (r: Result<string>)
    modifies fs
    ensures (forall i :: 0 <= i < |srcFiles| ==> srcFiles[i] in old(fs.paths)) <==> r.Success?
    ensures r.Success? ==>
      && r.value == destPath
      && fs.writes == old(fs.writes) + MosaicOutputs(destPath, createJpg)
      && fs.paths == old(fs.paths) + Elements(MosaicOutputs(destPath, createJpg))
    ensures r.Failure? ==>
      && r.error == FileNotFoundError(srcFiles[FirstOutside(srcFiles, old(fs.paths))])
      && fs.writes == old(fs.writes) && fs.paths == old(fs.paths)
  {
    for i := 0 to |srcFiles|
      invariant forall j :: 0 <= j < i ==> srcFiles[j] in fs.paths
    {
      if !fs.Exists(srcFiles[i]) {
        assert FirstOutside(srcFiles, fs.paths) == i by {
          var k := FirstOutside(srcFiles, fs.paths);
          assert !(k < i) && !(i < k);
        }
        return Failure(FileNotFoundError(srcFiles[i]));
      }
    }
    fs.BuildVrt(destPath, srcFiles);
    var tifPath := Replace(destPath, ".vrt", ".tif");
    fs.Translate(tifPath, destPath);
    if createJpg {
      fs.Translate(Replace(destPath, ".vrt", ".jpg"), Replace(destPath, ".vrt", ".tif"));
    }
    return Success(destPath);
  }
}
