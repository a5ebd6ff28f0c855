/**
  The file-name rules of the build-time image optimiser: which files of the build
  directory are source images, the names of the resized and WebP variants written for
  each, and which files of the original listing are deleted afterwards as duplicates.

  Image encoding and the file-system calls are not modelled; the directory listing is a
  sequence of entry names, which contain no `/`.
 */
module OptimizeImages {
  import opened Strings
  import opened Sequences
  import OptimizedImage

  /** An entry of `SIZES`. */
  datatype Size = Size(width: nat, suffix: string)

  /** `SIZES`. */
  const Sizes: seq<Size> := [Size(640, "-sm"), Size(1024, "-md"), Size(1920, "-lg")]

  /** The script writes, for each size, the widths the component's `srcset` announces. */
  lemma SizesMatchSrcSet()
    ensures |Sizes| == |OptimizedImage.Variants|
    ensures forall i :: 0 <= i < |Sizes| ==>
              Sizes[i].suffix == OptimizedImage.Variants[i].suffix
              && NatToString(Sizes[i].width) == OptimizedImage.Variants[i].width
  {
    assert NatToString(640) == "640" by {
      assert NatToString(6) == "6";
      assert NatToString(64) == "64";
    }
    assert NatToString(1024) == "1024" by {
      assert NatToString(1) == "1";
      assert NatToString(10) == "10";
      assert NatToString(102) == "102";
    }
    assert NatToString(1920) == "1920" by {
      assert NatToString(1) == "1";
      assert NatToString(19) == "19";
      assert NatToString(192) == "192";
    }
  }

  // ---------------------------------------------------------------------------
  // imageFiles

  /** `/\.(png|jpg|jpeg)$/`. */
  predicate HasImageExtension(file: string) {
    EndsWith(file, ".png") || EndsWith(file, ".jpg") || EndsWith(file, ".jpeg")
  }

  /**
    The `imageFiles` filter: an image that is not itself a resized variant, that is, one
    whose name holds none of the suffixes of `SIZES`.
   */
  predicate IsSourceImage(file: string)
    ensures IsSourceImage(file) <==> HasImageExtension(file) && !HasSizeSuffix(file)
  {
    assert Sizes[0].suffix == "-sm" && Sizes[1].suffix == "-md" && Sizes[2].suffix == "-lg";
    HasImageExtension(file) && !Contains(file, "-sm") && !Contains(file, "-md") && !Contains(file, "-lg")
  }

  /** `files.filter(...)`: the source images, in listing order. */
  function ImageFiles(files: seq<string>): (r: seq<string>)
    ensures forall i :: 0 <= i < |r| ==> IsSourceImage(r[i])
  {
    Filter(files, IsSourceImage)
  }

  /** A listed file is processed exactly when it is a source image. */
  lemma ImageFilesMembers(files: seq<string>, f: string)
    ensures f in ImageFiles(files) <==> f in files && IsSourceImage(f)
  {
    FilterMember(files, IsSourceImage, f);
  }

  // ---------------------------------------------------------------------------
  // Names

  /**
    `path.parse(file)` for a directory entry: `name` and `ext` split at the last `.`,
    except that a name whose only dot leads (such as `.png`), and `..`, have no extension.
   */
  function ParseName(file: string): (r: (string, string))
    ensures r.0 + r.1 == file
    ensures r.1 == "" || (r.1[0] == '.' && '.' !in r.1[1..])
  {
    var dot := LastIndexOf(file, '.');
    if dot <= 0 || file == ".." then (file, "")
    else
      assert file == file[..dot] + file[dot..];
      assert file[dot..][1..] == file[dot + 1..];
      (file[..dot], file[dot..])
  }

  /** The three extensions the filter accepts. */
  predicate ImageExtension(e: string) {
    e == ".png" || e == ".jpg" || e == ".jpeg"
  }

  /** A source image `<stem><ext>` with a non-empty stem parses into that stem and extension. */
  lemma ParseImageName(stem: string, e: string)
    requires stem != "" && ImageExtension(e)
    ensures ParseName(stem + e) == (stem, e)
  {
    var file := stem + e;
    assert file[|stem|] == '.';
    assert file[|stem| + 1..] == e[1..];
    assert '.' !in e[1..];
    LastIndexOfUnique(file, '.', |stem|);
    assert file[..|stem|] == stem && file[|stem|..] == e;
  }

  /** The names written for one image: `<name>.webp`, then per size `<name><suffix><ext>` and `<name><suffix>.webp`. */
  function OutputNames(name: string, ext: string): (r: seq<string>)
    ensures |r| == 1 + 2 * |Sizes|
    ensures r[0] == name + ".webp"
    ensures forall i :: 0 <= i < |Sizes| ==>
              r[1 + 2 * i] == name + Sizes[i].suffix + ext && r[2 + 2 * i] == name + Sizes[i].suffix + ".webp"
  {
    [name + ".webp"] + SizedNames(name, ext, Sizes)
  }

  /** The inner `for` over the sizes. */
  function SizedNames(name: string, ext: string, sizes: seq<Size>): (r: seq<string>)
    ensures |r| == 2 * |sizes|
    ensures forall i :: 0 <= i < |sizes| ==>
              r[2 * i] == name + sizes[i].suffix + ext && r[2 * i + 1] == name + sizes[i].suffix + ".webp"
  {
    if sizes == [] then []
    else [name + sizes[0].suffix + ext, name + sizes[0].suffix + ".webp"] + SizedNames(name, ext, sizes[1..])
  }

  // ---------------------------------------------------------------------------
  // duplicates

  /** `SIZES.some(({suffix}) => f.includes(suffix))`. */
  predicate HasSizeSuffix(f: string) {
    exists i :: 0 <= i < |Sizes| && Contains(f, Sizes[i].suffix)
  }

  /**
    The `duplicates` filter for the image `file` whose parsed name is `name`: it keeps
    the image itself, its full-size WebP version and every name with a size suffix.
   */
  function IsDuplicate(file: string, name: string): (r: string -> bool)
    ensures !r(file) && !r(name + ".webp")
    ensures forall f :: r(f) ==> StartsWith(f, name) && !HasSizeSuffix(f)
  {
    f => StartsWith(f, name) && !HasSizeSuffix(f) && f != file && f != name + ".webp"
  }

  /** The files of the original listing deleted after `file` is processed. */
  function Duplicates(files: seq<string>, file: string, name: string): (r: seq<string>)
    ensures |r| <= |files|
  {
    Filter(files, IsDuplicate(file, name))
  }

  /**
    A deleted file comes from the listing taken before anything was written, starts
    with the image's name, carries no size suffix, and is neither the image itself nor
    its full-size WebP version.
   */
  lemma DuplicatesShape(files: seq<string>, file: string, name: string)
    ensures forall f :: f in Duplicates(files, file, name) <==>
              f in files && StartsWith(f, name) && !HasSizeSuffix(f) && f != file && f != name + ".webp"
  {
    forall f ensures f in Duplicates(files, file, name) <==> f in files && IsDuplicate(file, name)(f) {
      FilterMember(files, IsDuplicate(file, name), f);
    }
  }

  /** `name + suffix + rest` contains the suffix. */
  lemma ContainsSuffix(name: string, suffix: string, rest: string)
    ensures Contains(name + suffix + rest, suffix)
  {
    var s := name + suffix + rest;
    assert StartsWith(s[|name|..], suffix);
  }

  /** None of the files written for an image is ever one of its duplicates. */
  lemma OutputsAreKept(files: seq<string>, file: string, name: string, ext: string)
    ensures forall o :: o in OutputNames(name, ext) ==> o !in Duplicates(files, file, name)
  {
    var outs := OutputNames(name, ext);
    var dups := Duplicates(files, file, name);
    forall k | 0 <= k < |outs| ensures !IsDuplicate(file, name)(outs[k]) {
      if k > 0 {
        SizedOutputHasSuffix(name, ext, k);
      }
    }
    forall o | o in dups ensures IsDuplicate(file, name)(o) {
      FilterMember(files, IsDuplicate(file, name), o);
    }
  }

  /** Every name written for an image but its full-size WebP version carries a size suffix. */
  lemma SizedOutputHasSuffix(name: string, ext: string, k: int)
    requires 1 <= k < |OutputNames(name, ext)|
    ensures HasSizeSuffix(OutputNames(name, ext)[k])
  {
    var i := if k <= 2 then 0 else if k <= 4 then 1 else 2;
    var e := if k == 1 + 2 * i then ext else ".webp";
    assert OutputNames(name, ext)[k] == name + Sizes[i].suffix + e;
    ContainsSuffix(name, Sizes[i].suffix, e);
  }

  /**
    A name that merely extends the image's name is deleted with it: processing
    `logo.png` deletes a second source image `logo-dark.png` from the same directory.
   */
  lemma SiblingImageDeleted()
    ensures IsSourceImage("logo.png") && IsSourceImage("logo-dark.png")
    ensures ParseName("logo.png") == ("logo", ".png")
    ensures "logo-dark.png" in Duplicates(["logo.png", "logo-dark.png"], "logo.png", "logo")
  {
    ParseImageName("logo", ".png");
    assert "logo" + ".png" == "logo.png";
    SampleNamesAreSources();
    assert StartsWith("logo-dark.png", "logo");
    DuplicatesShape(["logo.png", "logo-dark.png"], "logo.png", "logo");
  }

  /** Neither `logo.png` nor `logo-dark.png` is a resized variant. */
  lemma SampleNamesAreSources()
    ensures IsSourceImage("logo.png") && !HasSizeSuffix("logo-dark.png")
    ensures IsSourceImage("logo-dark.png")
  {
    var a, b := "logo.png", "logo-dark.png";
    assert '-' !in a;
    NoSizeSuffix(a);
    assert b[4] == '-' && b[5] == 'd';
    assert forall i :: 0 <= i < |b| - 1 && b[i] == '-' ==> i == 4;
    NoSizeSuffix(b);
    assert EndsWith(a, ".png") && EndsWith(b, ".png");
  }

  /** A name whose dashes are all followed by `d` carries none of the size suffixes. */
  lemma NoSizeSuffix(f: string)
    requires forall i :: 0 <= i < |f| - 1 && f[i] == '-' ==> f[i + 1] == 'd'
    ensures !Contains(f, "-sm") && !Contains(f, "-md") && !Contains(f, "-lg") && !HasSizeSuffix(f)
  {
    NotContainsDash(f, "-sm");
    NotContainsDash(f, "-md");
    NotContainsDash(f, "-lg");
  }

  /** A dash followed by anything but `d` does not occur in such a name. */
  lemma NotContainsDash(f: string, t: string)
    requires forall i :: 0 <= i < |f| - 1 && f[i] == '-' ==> f[i + 1] == 'd'
    requires |t| >= 2 && t[0] == '-' && t[1] != 'd'
    ensures !Contains(f, t)
  {
    forall i | 0 <= i <= |f| - |t| ensures f[i..][..|t|] != t {
      var w := f[i..][..|t|];
      assert w[0] == f[i] && w[1] == f[i + 1];
    }
  }

  // ---------------------------------------------------------------------------
  // The component and the script agree on names

  /**
    For a source image served from the directory `dir`, every URL in the component's
    `srcset` names a file the script writes for that image, with the width it was
    resized to.
   */
  lemma SrcSetNamesOutputs(dir: string, stem: string, e: string)
    requires dir == "" || dir[|dir| - 1] == '/'
    requires stem != "" && '/' !in stem && ImageExtension(e)
    ensures ParseName(stem + e) == (stem, e)
    ensures forall i :: 0 <= i < 3 ==>
              && OptimizedImage.Candidates(dir + stem + e)[2 * i]
                 == dir + OutputNames(stem, e)[1 + 2 * i] + " " + NatToString(Sizes[i].width) + "w"
              && OptimizedImage.Candidates(dir + stem + e)[2 * i + 1]
                 == dir + OutputNames(stem, e)[2 + 2 * i] + " " + NatToString(Sizes[i].width) + "w"
  {
    ParseImageName(stem, e);
    SizesMatchSrcSet();
    var c := OptimizedImage.Candidates(dir + stem + e);
    var outs := OutputNames(stem, e);
    CandidatesOfImage(dir, stem, e);
    forall i | 0 <= i < 3
      ensures c[2 * i] == dir + outs[1 + 2 * i] + " " + NatToString(Sizes[i].width) + "w"
      ensures c[2 * i + 1] == dir + outs[2 + 2 * i] + " " + NatToString(Sizes[i].width) + "w"
    {
      var v := OptimizedImage.Variants[i];
      CandidateRegroup(dir, stem, v, e);
      CandidateRegroup(dir, stem, v, OptimizedImage.WebpExt);
    }
  }

  /** The component parses `<dir><stem><ext>` back into its parts and keeps the extension. */
  lemma CandidatesOfImage(dir: string, stem: string, e: string)
    requires dir == "" || dir[|dir| - 1] == '/'
    requires '/' !in stem && ImageExtension(e)
    ensures OptimizedImage.Candidates(dir + stem + e) == OptimizedImage.CandidatesFor(dir + stem, e)
  {
    assert e != "" && '/' !in e && e[0] == '.' && '.' !in e[1..];
    ParsesIntoParts(dir, stem, e);
  }

  /** `parsePath` splits `<dir><stem><ext>` back into its parts. */
  lemma ParsesIntoParts(dir: string, stem: string, e: string)
    requires dir == "" || dir[|dir| - 1] == '/'
    requires '/' !in stem && e != "" && '/' !in e && e[0] == '.' && '.' !in e[1..]
    ensures OptimizedImage.ParsePath(dir + stem + e) == OptimizedImage.ParsedPath(dir, stem, e)
  {
    OptimizedImage.ParsePathUnique(dir + stem + e, OptimizedImage.ParsedPath(dir, stem, e));
  }

  /** A candidate's URL is the directory followed by the script's output name. */
  lemma CandidateRegroup(dir: string, stem: string, v: OptimizedImage.Variant, e: string)
    ensures OptimizedImage.Candidate(dir + stem, v, e) == dir + (stem + v.suffix + e) + " " + v.width + "w"
  {
    assert dir + stem + v.suffix + e == dir + (stem + v.suffix + e);
  }
}
