/**
  The pure helpers of the responsive image component: splitting an image path into
  directory, base name and extension, the `srcset` of resized variants built from
  it, and the inline SVG placeholder shown while the image loads.
 */
module OptimizedImage {
  import opened Optional
  import opened Strings

  /** The parts `parsePath` returns. */
  datatype ParsedPath = ParsedPath(dir: string, name: string, ext: string)

  /**
    A split of a path: the directory is empty or ends in `/`; name and extension hold no
    `/`; the extension is empty (and then the name holds no `.`) or is a `.` followed by
    no other `.`.
   */
  predicate WellSplit(p: ParsedPath) {
    && (p.dir == "" || p.dir[|p.dir| - 1] == '/')
    && '/' !in p.name && '/' !in p.ext
    && (p.ext == "" ==> '.' !in p.name)
    && (p.ext != "" ==> p.ext[0] == '.' && '.' !in p.ext[1..])
  }

  /**
    `parsePath(path)`: cut after the last `/`, then before the last `.` of the rest. The
    parts put back together give the path, and the split is well formed.
   */
  function ParsePath(path: string): (r: ParsedPath)
    ensures r.dir + r.name + r.ext == path
    ensures WellSplit(r)
  {
    var cut := LastIndexOf(path, '/') + 1;
    var split := SplitExt(path[cut..]);
    CutAndSplit(path);
    ParsedPath(path[..cut], split.0, split.1)
  }

  /** Cutting after the last `/` and splitting the rest before its last `.` is a well-formed split. */
  lemma CutAndSplit(path: string)
    ensures var cut := LastIndexOf(path, '/') + 1;
            var split := SplitExt(path[cut..]);
            && path[..cut] + split.0 + split.1 == path
            && WellSplit(ParsedPath(path[..cut], split.0, split.1))
  {
    var cut := LastIndexOf(path, '/') + 1;
    var split := SplitExt(path[cut..]);
    DirPart(path);
    SplitExtParts(path[cut..]);
    Rejoin(path, cut, path[..cut], split.0, split.1);
    WithDir(path[..cut], split.0, split.1);
  }

  /** The file name cut before its last `.`, or whole with an empty extension. */
  function SplitExt(file: string): (string, string) {
    var dot := LastIndexOf(file, '.');
    if dot != -1 then (file[..dot], file[dot..]) else (file, "")
  }

  /** `c` occurs in neither part of a split of a sequence it does not occur in. */
  lemma NotInParts(s: string, c: char, k: int)
    requires 0 <= k <= |s| && c !in s
    ensures c !in s[..k] && c !in s[k..]
  {
    assert forall j :: 0 <= j < k ==> s[..k][j] == s[j];
    assert forall j :: 0 <= j < |s| - k ==> s[k..][j] == s[k + j];
  }

  lemma SplitExtParts(file: string)
    requires '/' !in file
    ensures SplitExt(file).0 + SplitExt(file).1 == file
    ensures WellSplit(ParsedPath("", SplitExt(file).0, SplitExt(file).1))
  {
    var dot := LastIndexOf(file, '.');
    if dot != -1 {
      NotInParts(file, '/', dot);
      assert file == file[..dot] + file[dot..];
      assert file[dot..][1..] == file[dot + 1..];
    }
  }

  lemma Rejoin(s: string, k: nat, a: string, b: string, c: string)
    requires k <= |s| && a == s[..k] && b + c == s[k..]
    ensures a + b + c == s
  {
    Regroup3(a, b, c);
    assert s[..k] + s[k..] == s;
  }

  /** A well-formed file-name split stays well formed under a directory that ends in `/`. */
  lemma WithDir(dir: string, name: string, ext: string)
    requires dir == "" || dir[|dir| - 1] == '/'
    requires WellSplit(ParsedPath("", name, ext))
    ensures WellSplit(ParsedPath(dir, name, ext))
  {
  }

  /** The part up to the last `/` ends in `/` (or is empty); the rest holds no `/`. */
  lemma DirPart(path: string)
    ensures var cut := LastIndexOf(path, '/') + 1;
            && (path[..cut] == "" || path[..cut][cut - 1] == '/')
            && '/' !in path[cut..]
  {
    var cut := LastIndexOf(path, '/') + 1;
    assert path[cut..] == path[LastIndexOf(path, '/') + 1..];
  }

  lemma Regroup3(a: string, b: string, c: string)
    ensures a + b + c == a + (b + c)
  {
  }

  /** `parsePath` returns the only well-formed split of the path. */
  lemma ParsePathUnique(path: string, p: ParsedPath)
    requires WellSplit(p) && p.dir + p.name + p.ext == path
    ensures ParsePath(path) == p
  {
    var file := p.name + p.ext;
    Regroup3(p.dir, p.name, p.ext);
    NotInJoin(p.name, p.ext, '/');
    DirUnique(path, p.dir, file);
    ExtUnique(file, p.name, p.ext);
    var cut := LastIndexOf(path, '/') + 1;
    assert ParsePath(path) == ParsedPath(path[..cut], SplitExt(path[cut..]).0, SplitExt(path[cut..]).1);
  }

  lemma NotInJoin(a: string, b: string, c: char)
    requires c !in a && c !in b
    ensures c !in a + b
  {
  }

  /** The cut after the last `/` falls at the end of a directory that ends in `/`. */
  lemma DirUnique(path: string, dir: string, file: string)
    requires path == dir + file && '/' !in file && (dir == "" || dir[|dir| - 1] == '/')
    ensures LastIndexOf(path, '/') + 1 == |dir| && path[..|dir|] == dir && path[|dir|..] == file
  {
    if dir == "" {
      assert path == file;
    } else {
      assert path[|dir| - 1] == '/' && path[|dir|..] == file;
      LastIndexOfUnique(path, '/', |dir| - 1);
    }
  }

  /** The cut before the last `.` falls at the start of an extension that is a `.` followed by no `.`. */
  lemma ExtUnique(file: string, name: string, ext: string)
    requires file == name + ext
    requires ext == "" ==> '.' !in name
    requires ext != "" ==> ext[0] == '.' && '.' !in ext[1..]
    ensures SplitExt(file) == (name, ext)
  {
    if ext == "" {
      assert file == name;
    } else {
      assert file[|name|] == '.' && file[|name| + 1..] == ext[1..];
      LastIndexOfUnique(file, '.', |name|);
      assert file[..|name|] == name && file[|name|..] == ext;
    }
  }

  /** Only the last `.` starts the extension. */
  lemma ParsePathLastDot()
    ensures ParsePath("img/photo.v2.png") == ParsedPath("img/", "photo.v2", ".png")
  {
    var p := ParsedPath("img/", "photo.v2", ".png");
    assert WellSplit(p) by {
      assert p.dir[3] == '/';
      assert forall c :: c in p.name ==> c in "photo.v2";
      assert '.' !in p.ext[1..] by { assert p.ext[1..] == "png"; }
    }
    assert p.dir + p.name + p.ext == "img/photo.v2.png";
    ParsePathUnique("img/photo.v2.png", p);
  }

  /** A file name that starts with its only `.` is all extension. */
  lemma ParsePathDotFile()
    ensures ParsePath("a/.env") == ParsedPath("a/", "", ".env")
  {
    var p := ParsedPath("a/", "", ".env");
    assert WellSplit(p) by {
      assert p.dir[1] == '/';
      assert '.' !in p.ext[1..] by { assert p.ext[1..] == "env"; }
    }
    assert p.dir + p.name + p.ext == "a/.env";
    ParsePathUnique("a/.env", p);
  }

  // ---------------------------------------------------------------------------
  // generateSrcSet

  const WebpExt: string := ".webp"

  /** The extension the resized variants keep: the path's own, or `.jpg` when it has none. */
  function BaseExt(ext: string): string {
    if ext != "" then ext else ".jpg"
  }

  /** A variant size: its file-name suffix and its width in pixels, as written in the `srcset`. */
  datatype Variant = Variant(suffix: string, width: string)

  /** The three sizes, smallest first. */
  const Variants: seq<Variant> := [Variant("-sm", "640"), Variant("-md", "1024"), Variant("-lg", "1920")]

  /** One `srcset` candidate, `<stem><suffix><ext> <width>w`. */
  function Candidate(stem: string, v: Variant, ext: string): string {
    stem + v.suffix + ext + " " + v.width + "w"
  }

  /** One line of the template: the variant in the base format, a comma, the variant in WebP. */
  function Pair(stem: string, v: Variant, baseExt: string): string {
    Candidate(stem, v, baseExt) + ", " + Candidate(stem, v, WebpExt)
  }

  /**
    `generateSrcSet(imgSrc)`: the three template lines joined with `", "`, which is the
    six candidates joined with `", "`.
   */
  function GenerateSrcSet(src: string): (r: string)
    ensures r == Join(Candidates(src), ", ")
  {
    var p := ParsePath(src);
    var stem := p.dir + p.name;
    var baseExt := BaseExt(p.ext);
    var c := CandidatesFor(stem, baseExt);
    JoinPairs(c[0], c[1], c[2], c[3], c[4], c[5]);
    Join([Pair(stem, Variants[0], baseExt), Pair(stem, Variants[1], baseExt), Pair(stem, Variants[2], baseExt)], ", ")
  }

  /** For each size, the variant in the base format and then in WebP. */
  function Candidates(src: string): (r: seq<string>)
    ensures |r| == 6
  {
    var p := ParsePath(src);
    CandidatesFor(p.dir + p.name, BaseExt(p.ext))
  }

  /** The six candidates for the stem `stem` and the base extension `e`. */
  function CandidatesFor(stem: string, e: string): (r: seq<string>)
    ensures |r| == 2 * |Variants|
    ensures forall i :: 0 <= i < |Variants| ==>
              r[2 * i] == Candidate(stem, Variants[i], e) && r[2 * i + 1] == Candidate(stem, Variants[i], WebpExt)
  {
    [ Candidate(stem, Variants[0], e), Candidate(stem, Variants[0], WebpExt),
      Candidate(stem, Variants[1], e), Candidate(stem, Variants[1], WebpExt),
      Candidate(stem, Variants[2], e), Candidate(stem, Variants[2], WebpExt) ]
  }

  /** Joining pairs of parts is joining the parts. */
  lemma JoinPairs(a: string, b: string, c: string, d: string, e: string, f: string)
    ensures Join([a + ", " + b, c + ", " + d, e + ", " + f], ", ") == Join([a, b, c, d, e, f], ", ")
  {
    JoinAppend([e], [f], ", ");
    assert [e] + [f] == [e, f];
    assert [d] + [e, f] == [d, e, f];
    JoinAppend([d], [e, f], ", ");
    assert [c] + [d, e, f] == [c, d, e, f];
    JoinAppend([c], [d, e, f], ", ");
    assert [b] + [c, d, e, f] == [b, c, d, e, f];
    JoinAppend([b], [c, d, e, f], ", ");
    assert [a] + [b, c, d, e, f] == [a, b, c, d, e, f];
    JoinAppend([a], [b, c, d, e, f], ", ");
    assert [c + ", " + d] + [e + ", " + f] == [c + ", " + d, e + ", " + f];
    JoinAppend([c + ", " + d], [e + ", " + f], ", ");
    assert [a + ", " + b] + [c + ", " + d, e + ", " + f] == [a + ", " + b, c + ", " + d, e + ", " + f];
    JoinAppend([a + ", " + b], [c + ", " + d, e + ", " + f], ", ");
  }

  /** A path without an extension gets `.jpg` variants; one with an extension keeps it. */
  lemma SrcSetExtension(src: string)
    ensures ParsePath(src).ext == "" ==> Candidates(src)[0] == ParsePath(src).dir + ParsePath(src).name + "-sm.jpg 640w"
    ensures ParsePath(src).ext != "" ==> Candidates(src)[0] == ParsePath(src).dir + ParsePath(src).name + "-sm" + ParsePath(src).ext + " 640w"
  {
    var p := ParsePath(src);
    var stem := p.dir + p.name;
    var e := BaseExt(p.ext);
    assert Candidates(src)[0] == Candidate(stem, Variants[0], e);
    SmallCandidate(stem, e);
    if p.ext == "" {
      assert stem + "-sm" + ".jpg" + " 640w" == stem + "-sm.jpg 640w";
    }
  }

  /** The first candidate, written out. */
  lemma SmallCandidate(stem: string, e: string)
    ensures Candidate(stem, Variants[0], e) == stem + "-sm" + e + " 640w"
  {
    assert Variants[0] == Variant("-sm", "640");
  }

  // ---------------------------------------------------------------------------
  // blurredPlaceholder

  /** `n || 100` for a width or height given in whole pixels: an absent or zero size is 100. */
  function OrHundred(n: Option<int>): (r: int)
    ensures r != 0
    ensures n.Some? && n.value != 0 ==> r == n.value
    ensures n.None? || n.value == 0 ==> r == 100
  {
    if n.None? || n.value == 0 then 100 else n.value
  }

  const SvgHead: string := "data:image/svg+xml;charset=utf-8,<svg xmlns='http://www.w3.org/2000/svg' viewBox='0 0 "
  /** The end of the `viewBox` attribute and of the tag, then a light grey rectangle filling the box. */
  const SvgTail: string := "'>" + "<rect width='100%' height='100%' fill='%23f0f0f0'/></svg>"

  /**
    `placeholderSrc || <inline SVG whose view box is width by height>`; the sizes are
    written as `String` writes them, a negative one with its sign.
   */
  function BlurredPlaceholder(placeholderSrc: Option<string>, width: Option<int>, height: Option<int>): (r: string)
    ensures placeholderSrc.Some? && placeholderSrc.value != "" ==> r == placeholderSrc.value
    ensures placeholderSrc.None? || placeholderSrc.value == "" ==> StartsWith(r, SvgHead) && EndsWith(r, SvgTail)
  {
    if placeholderSrc.Some? && placeholderSrc.value != "" then placeholderSrc.value
    else
      var x := SvgHead + IntToString(OrHundred(width)) + " " + IntToString(OrHundred(height));
      assert x[..|SvgHead|] == SvgHead;
      assert (x + SvgTail)[..|SvgHead|] == SvgHead;
      assert (x + SvgTail)[|x|..] == SvgTail;
      SvgHead + IntToString(OrHundred(width)) + " " + IntToString(OrHundred(height)) + SvgTail
  }

  /**
    Without a placeholder source, two placeholders are the same string exactly when
    their view boxes have the same size, absent or zero dimensions counting as 100.
   */
  lemma PlaceholderDeterminesViewBox(w1: Option<int>, h1: Option<int>, w2: Option<int>, h2: Option<int>)
    ensures BlurredPlaceholder(None, w1, h1) == BlurredPlaceholder(None, w2, h2)
            <==> OrHundred(w1) == OrHundred(w2) && OrHundred(h1) == OrHundred(h2)
  {
    if BlurredPlaceholder(None, w1, h1) == BlurredPlaceholder(None, w2, h2) {
      assert SvgTail[0] == '\'';
      SizesDelimited(SvgHead, OrHundred(w1), OrHundred(h1), OrHundred(w2), OrHundred(h2), SvgTail);
    }
  }

  /** Two numbers separated by a space, between a fixed head and a tail that does not start with a digit, can be read back. */
  lemma SizesDelimited(head: string, a1: int, b1: int, a2: int, b2: int, tail: string)
    requires tail != [] && !IsDigit(tail[0])
    requires head + IntToString(a1) + " " + IntToString(b1) + tail == head + IntToString(a2) + " " + IntToString(b2) + tail
    ensures a1 == a2 && b1 == b2
  {
    var n1, m1, n2, m2 := IntToString(a1), IntToString(b1), IntToString(a2), IntToString(b2);
    var y1, y2 := m1 + tail, m2 + tail;
    var x1, x2 := n1 + (" " + y1), n2 + (" " + y2);
    Regroup(head, n1, " ", m1, tail);
    Regroup(head, n2, " ", m2, tail);
    assert x1 == (head + x1)[|head|..] && x2 == (head + x2)[|head|..];
    IntToStringPrefixFree(a1, a2, " " + y1, " " + y2);
    assert y1 == (" " + y1)[1..] && y2 == (" " + y2)[1..];
    IntToStringPrefixFree(b1, b2, tail, tail);
  }

  lemma Regroup(a: string, b: string, c: string, d: string, e: string)
    ensures a + b + c + d + e == a + (b + (c + (d + e)))
  {
  }

  /** A given placeholder source is used as it is. */
  lemma PlaceholderSrcWins(src: string, width: Option<int>, height: Option<int>)
    requires src != ""
    ensures BlurredPlaceholder(Some(src), width, height) == src
  {
  }
}
