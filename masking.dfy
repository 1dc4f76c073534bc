/** The mask script: zero the masked pixels of every image in a directory and write the results
    to an `output` directory beside it. */
module Masking {
  import opened Wrappers
  import opened Image
  import Strings
  import Paths

  /** The extensions of the files the script processes, as the tuple handed to `str.endswith`. */
  const Extensions: seq<string> := [".png", ".jpg", ".jpeg"]

  /** `s.endswith(suffixes)` for a tuple of suffixes: `s` ends with one of them. */
  predicate EndsWithAny(s: string, suffixes: seq<string>) {
    exists i :: 0 <= i < |suffixes| && Strings.EndsWith(s, suffixes[i])
  }

  /** `filename.lower().endswith(('.png', '.jpg', '.jpeg'))`. */
  predicate IsImageFile(name: string) {
    EndsWithAny(Strings.Lower(name), Extensions)
  }

  /** The filter ignores case: a name and its lower-cased form are treated alike. */
  lemma ImageFileIgnoresCase(name: string)
    ensures IsImageFile(name) <==> IsImageFile(Strings.Lower(name))
  {
    Strings.LowerIdempotent(name);
  }

  /** Any name whose last characters lower-case to one of the extensions is processed,
      whatever comes before them (`photo.PNG`, `a.b.Jpeg`, or the bare name `.jpg`). */
  lemma AcceptsExtension(stem: string, ext: string)
    requires Strings.Lower(ext) in Extensions
    ensures IsImageFile(stem + ext)
  {
    var name := stem + ext;
    var i :| 0 <= i < |Extensions| && Extensions[i] == Strings.Lower(ext);
    Strings.LowerSuffix(name, |ext|);
    assert name[|name| - |ext|..] == ext;
    assert Strings.EndsWith(Strings.Lower(name), Extensions[i]);
  }

  /** The last `n` characters of `name`, lower-cased, are one of the extensions. */
  predicate HasExtension(name: string, n: nat) {
    n <= |name| && Strings.Lower(name[|name| - n..]) in Extensions
  }

  /** A name is processed exactly when it ends, case aside, with one of the extensions. */
  lemma ImageFileBySuffix(name: string)
    ensures IsImageFile(name) <==> exists n :: HasExtension(name, n)
  {
    if IsImageFile(name) {
      var i :| 0 <= i < |Extensions| && Strings.EndsWith(Strings.Lower(name), Extensions[i]);
      var n := |Extensions[i]|;
      Strings.LowerSuffix(name, n);
      assert HasExtension(name, n);
    }
    if exists n :: HasExtension(name, n) {
      var n :| HasExtension(name, n);
      assert name == name[..|name| - n] + name[|name| - n..];
      AcceptsExtension(name[..|name| - n], name[|name| - n..]);
    }
  }

  /** `os.path.join(os.path.dirname(input_dir), "output")`. */
  function OutputDir(inputDir: string): string {
    Paths.Join(Paths.Dirname(inputDir), "output")
  }

  /** `os.path.join(output_dir, filename)`. */
  function OutputPath(outputDir: string, name: string): string {
    Paths.Join(outputDir, name)
  }

  /** The output directory is called `output` and has the same parent as the input directory. */
  lemma {:induction false} OutputIsSibling(inputDir: string)
    ensures Paths.Basename(OutputDir(inputDir)) == "output"
    ensures Paths.Dirname(OutputDir(inputDir)) == Paths.Dirname(inputDir)
  {
    var parent := Paths.Dirname(inputDir);
    assert '/' !in "output";
    if parent == [] {
      assert OutputDir(inputDir) == "output";
      assert Paths.HeadLength("output") == 0;
    } else if Paths.AllSlashes(parent) {
      var p := parent + "output";
      assert OutputDir(inputDir) == p;
      Paths.HeadAfterLastSlash(parent, "output");
      assert p[..|parent|] == parent;
    } else {
      Paths.JoinSplitsBack(parent, "output");
    }
  }

  /** The name `output_dir` yields always ends in `output`. */
  lemma EndsInOutput(inputDir: string)
    ensures var d := OutputDir(inputDir); |d| >= 6 && d[|d| - 6..] == "output"
  {
  }

  /** With a trailing slash, as in `data/input/`, `dirname` keeps the last component, so the
      output directory is created inside the input directory rather than beside it. */
  lemma OutputInsideWithTrailingSlash(dir: string)
    requires dir != [] && dir[|dir| - 1] != '/'
    ensures Paths.Dirname(OutputDir(dir + "/")) == dir
  {
    var p := dir + "/";
    Paths.HeadAfterLastSlash(p, "");
    assert p + "" == p;
    assert p[..Paths.HeadLength(p)] == p;
    assert !Paths.AllSlashes(p) by { assert p[|dir| - 1] != '/'; }
    Paths.StripOneSlash(dir);
    OutputIsSibling(dir + "/");
  }

  /** Each result is written under the output directory and keeps its input file name. */
  lemma OutputKeepsName(inputDir: string, name: string)
    requires name != [] && '/' !in name
    ensures Paths.Dirname(OutputPath(OutputDir(inputDir), name)) == OutputDir(inputDir)
    ensures Paths.Basename(OutputPath(OutputDir(inputDir), name)) == name
  {
    var out := OutputDir(inputDir);
    EndsInOutput(inputDir);
    assert out[|out| - 1] == 't';
    Paths.JoinSplitsBack(out, name);
  }

  /** `img[mask == 255] = 0` on a value: the pixels under a white mask pixel become black. */
  function Masked(g: Grid<Pixel>, m: Grid<byte>): (r: Grid<Pixel>)
    requires Rectangular(g) && Shaped(m, |g|, Cols(g))
    ensures Shaped(r, |g|, Cols(g))
    ensures forall i, j :: 0 <= i < |g| && 0 <= j < Cols(g) ==>
      r[i][j] == if m[i][j] == 255 then Black else g[i][j]
  {
    seq(|g|, i requires 0 <= i < |g| =>
      seq(Cols(g), j requires 0 <= j < Cols(g) => if m[i][j] == 255 then Black else g[i][j]))
  }

  /** A mask with no white pixel leaves the image as it was. */
  lemma MaskedNothing(g: Grid<Pixel>, m: Grid<byte>)
    requires Rectangular(g) && Shaped(m, |g|, Cols(g))
    requires forall i, j :: 0 <= i < |g| && 0 <= j < Cols(g) ==> m[i][j] != 255
    ensures Masked(g, m) == g
  {
    SameGrid(Masked(g, m), g, |g|, Cols(g));
  }

  /** `img[mask == 255] = 0`: zero, in place, the pixels of `img` where `mask` is 255. */
  method ApplyMask(img: array2<Pixel>, mask: Grid<byte>)
    requires Shaped(mask, img.Length0, img.Length1)
    modifies img
    ensures forall i, j :: 0 <= i < img.Length0 && 0 <= j < img.Length1 ==>
      img[i, j] == if mask[i][j] == 255 then Black else old(img[i, j])
    ensures Contents(img) == Masked(old(Contents(img)), mask)
  {
    ghost var before := Contents(img);
    var i := 0;
    while i < img.Length0
      invariant 0 <= i <= img.Length0
      invariant forall r, c :: 0 <= r < img.Length0 && 0 <= c < img.Length1 ==>
        img[r, c] == if r < i && mask[r][c] == 255 then Black else before[r][c]
    {
      var j := 0;
      while j < img.Length1
        invariant 0 <= j <= img.Length1
        invariant forall r, c :: 0 <= r < img.Length0 && 0 <= c < img.Length1 ==>
          img[r, c] == if (r < i || (r == i && c < j)) && mask[r][c] == 255 then Black else before[r][c]
      {
        if mask[i][j] == 255 {
          img[i, j] := Black;
        }
        j := j + 1;
      }
      i := i + 1;
    }
    if img.Length0 > 0 {
      assert Cols(before) == img.Length1;
    }
    SameGrid(Contents(img), Masked(before, mask), img.Length0, img.Length1);
  }

  /** Lines 28-29: the mask is re-bound to a resized copy when its shape differs from the image's,
      and kept as it is otherwise. */
  function Rebind(mask: Grid<byte>, rows: nat, cols: nat): (r: Grid<byte>)
    requires IsImage(mask) && rows > 0 && cols > 0
    ensures IsImage(r) && Shaped(r, rows, cols)
    ensures Shaped(mask, rows, cols) ==> r == mask
  {
    if |mask| != rows || |mask[0]| != cols then Resized(mask, rows, cols) else mask
  }

  /** The images the loop reads are non-empty: `images[k]` is what `cv2.imread` returns for
      `names[k]`, and it is read only when `names[k]` passes the filter. */
  predicate Readable(names: seq<string>, images: seq<array2<Pixel>>) {
    && |names| == |images|
    && forall k :: 0 <= k < |names| && IsImageFile(names[k]) ==> images[k].Length0 > 0 && images[k].Length1 > 0
  }

  /** The value of the `mask` variable after the loop has handled `names[..n]`. A re-bound mask
      carries over to the next file, so each resize starts from the previous image's mask. */
  function MaskAfter(mask: Grid<byte>, names: seq<string>, images: seq<array2<Pixel>>, n: nat): (m: Grid<byte>)
    requires IsImage(mask) && Readable(names, images) && n <= |names|
    ensures IsImage(m)
    decreases n
  {
    if n == 0 then mask
    else
      var m := MaskAfter(mask, names, images, n - 1);
      if IsImageFile(names[n - 1]) then Rebind(m, images[n - 1].Length0, images[n - 1].Length1) else m
  }

  /** One more listed file re-binds the mask if it is an image file. */
  lemma MaskAfterStep(mask: Grid<byte>, names: seq<string>, images: seq<array2<Pixel>>, n: nat)
    requires IsImage(mask) && Readable(names, images) && n < |names|
    ensures MaskAfter(mask, names, images, n + 1) ==
      if IsImageFile(names[n]) then Rebind(MaskAfter(mask, names, images, n), images[n].Length0, images[n].Length1)
      else MaskAfter(mask, names, images, n)
  {
  }

  /** The mask applied to an image file has that image's shape. */
  lemma MaskFitsImage(mask: Grid<byte>, names: seq<string>, images: seq<array2<Pixel>>, k: nat)
    requires IsImage(mask) && Readable(names, images) && k < |names| && IsImageFile(names[k])
    ensures Shaped(MaskAfter(mask, names, images, k + 1), images[k].Length0, images[k].Length1)
  {
  }

  /** When every image has the mask's shape the mask is never resized. */
  lemma {:induction false} MaskKeptWhenShapesAgree(mask: Grid<byte>, names: seq<string>, images: seq<array2<Pixel>>, n: nat)
    requires IsImage(mask) && Readable(names, images) && n <= |names|
    requires forall k :: 0 <= k < n && IsImageFile(names[k]) ==> Shaped(mask, images[k].Length0, images[k].Length1)
    ensures MaskAfter(mask, names, images, n) == mask
  {
    if n > 0 {
      MaskKeptWhenShapesAgree(mask, names, images, n - 1);
    }
  }

  /** The paths `cv2.imwrite` is called with for `names[..n]`, in order. */
  function Outputs(outputDir: string, names: seq<string>, n: nat): (r: seq<string>)
    requires n <= |names|
    ensures |r| <= n
  {
    if n == 0 then []
    else Outputs(outputDir, names, n - 1) + (if IsImageFile(names[n - 1]) then [OutputPath(outputDir, names[n - 1])] else [])
  }

  /** One more listed file adds its output path if it is an image file. */
  lemma OutputsStep(outputDir: string, names: seq<string>, n: nat)
    requires n < |names|
    ensures Outputs(outputDir, names, n + 1) ==
      Outputs(outputDir, names, n) + if IsImageFile(names[n]) then [OutputPath(outputDir, names[n])] else []
  {
  }

  /** `p` is the output path of `names[k]`, an image file. */
  predicate WrittenFor(outputDir: string, names: seq<string>, k: nat, p: string) {
    k < |names| && IsImageFile(names[k]) && p == OutputPath(outputDir, names[k])
  }

  /** Exactly the image files get an output path. */
  lemma {:induction false} OutputsAreImageFiles(outputDir: string, names: seq<string>, n: nat, p: string)
    requires n <= |names|
    ensures p in Outputs(outputDir, names, n) <==> exists k: nat :: k < n && WrittenFor(outputDir, names, k, p)
  {
    if n > 0 {
      OutputsAreImageFiles(outputDir, names, n - 1, p);
      var last := if IsImageFile(names[n - 1]) then [OutputPath(outputDir, names[n - 1])] else [];
      assert p in last <==> WrittenFor(outputDir, names, n - 1, p);
      assert Outputs(outputDir, names, n) == Outputs(outputDir, names, n - 1) + last;
      if WrittenFor(outputDir, names, n - 1, p) {
        assert p in Outputs(outputDir, names, n);
      }
    }
  }

  /** What `os.listdir` returns: names that are non-empty and contain no '/'. */
  predicate IsListing(names: seq<string>) {
    forall k :: 0 <= k < |names| ==> names[k] != [] && '/' !in names[k]
  }

  /** Every file written lies in the output directory under the name of an image file of the listing. */
  lemma WrittenUnderOutput(inputDir: string, names: seq<string>, p: string)
    requires IsListing(names) && p in Outputs(OutputDir(inputDir), names, |names|)
    ensures Paths.Dirname(p) == OutputDir(inputDir)
    ensures Paths.Basename(p) in names && IsImageFile(Paths.Basename(p))
  {
    OutputsAreImageFiles(OutputDir(inputDir), names, |names|, p);
    var k: nat :| k < |names| && WrittenFor(OutputDir(inputDir), names, k, p);
    OutputKeepsName(inputDir, names[k]);
  }

  /** File `img`, which held `was` when the loop started, holds `was` masked by `m` if the loop
      has processed it, and `was` otherwise. */
  ghost predicate Processed(img: array2<Pixel>, was: Grid<Pixel>, m: Grid<byte>, done: bool)
    reads img
  {
    if done then Rectangular(was) && Shaped(m, |was|, Cols(was)) && Contents(img) == Masked(was, m)
    else Contents(img) == was
  }

  /** Every file of the listing is `Processed` after the loop has handled `names[..n]`: the image
      files among `names[..n]` are masked, each with the mask then current, and all else is as it was. */
  ghost predicate ProcessedUpTo(images: seq<array2<Pixel>>, before: seq<Grid<Pixel>>, mask: Grid<byte>,
                                names: seq<string>, n: nat)
    requires IsImage(mask) && Readable(names, images)
    reads set k | 0 <= k < |images| :: images[k]
  {
    && |before| == |images|
    && forall j :: 0 <= j < |names| ==>
      Processed(images[j], before[j], MaskAfter(mask, names, images, j + 1), IsImageFile(names[j]) && j < n)
  }

  /** `main`: when the input directory exists, mask every image file of the listing `names`
      in order and write it under the output directory. `inputExists` is `os.path.exists(input_dir)`;
      the returned output directory is the one `os.makedirs` creates, and `written` the paths
      handed to `cv2.imwrite`, each with the then-current contents of its image. */
  method MaskDirectory(inputDir: string, inputExists: bool, names: seq<string>, images: seq<array2<Pixel>>,
                       mask: Grid<byte>)
    returns (outputDir: Option<string>, written: seq<string>)
    requires IsImage(mask) && Readable(names, images)
    requires Distinct(images)
    modifies set k | 0 <= k < |images| :: images[k]
    ensures !inputExists ==> outputDir == None && written == []
    ensures inputExists ==> outputDir == Some(OutputDir(inputDir)) && written == Outputs(OutputDir(inputDir), names, |names|)
    ensures ProcessedUpTo(images, old(Snapshot(images)), mask, names, if inputExists then |names| else 0)
  {
    ghost var before := Snapshot(images);
    outputDir, written := None, [];
    if !inputExists {
      return;
    }
    var out := OutputDir(inputDir);
    outputDir := Some(out);
    var m := mask;
    var n := 0;
    while n < |names|
      invariant 0 <= n <= |names|
      invariant m == MaskAfter(mask, names, images, n)
      invariant written == Outputs(out, names, n)
      invariant before == old(Snapshot(images))
      invariant ProcessedUpTo(images, before, mask, names, n)
    {
      m, written := ProcessFile(out, names, images, before, mask, n, m, written);
      n := n + 1;
    }
  }

  /** One pass of the `for filename` loop, lines 20-36: for an image file, re-bind the mask if the
      shapes differ, mask the image in place and write it; skip any other file. */
  method ProcessFile(out: string, names: seq<string>, images: seq<array2<Pixel>>, ghost before: seq<Grid<Pixel>>,
                     ghost mask: Grid<byte>, n: nat, m: Grid<byte>, written: seq<string>)
    returns (m': Grid<byte>, written': seq<string>)
    requires IsImage(mask) && Readable(names, images)
    requires Distinct(images)
    requires n < |names| && m == MaskAfter(mask, names, images, n) && written == Outputs(out, names, n)
    requires ProcessedUpTo(images, before, mask, names, n)
    modifies images[n]
    ensures m' == MaskAfter(mask, names, images, n + 1) && written' == Outputs(out, names, n + 1)
    ensures ProcessedUpTo(images, before, mask, names, n + 1)
  {
    OutputsStep(out, names, n);
    MaskAfterStep(mask, names, images, n);
    m', written' := m, written;
    if IsImageFile(names[n]) {
      var img := images[n];
      if img.Length0 != |m'| || img.Length1 != |m'[0]| {
        m' := Resized(m', img.Length0, img.Length1);
      }
      assert m' == Rebind(m, img.Length0, img.Length1);
      MaskOne(images, before, mask, names, n, m');
      written' := written' + [OutputPath(out, names[n])];
    } else {
      SkipFile(images, before, mask, names, n);
    }
  }

  /** Line 32 for the `n`th file of the listing, with the frame reasoning for the other files. */
  method MaskOne(images: seq<array2<Pixel>>, ghost before: seq<Grid<Pixel>>, ghost mask: Grid<byte>,
                 ghost names: seq<string>, n: nat, m: Grid<byte>)
    requires IsImage(mask) && Readable(names, images)
    requires Distinct(images)
    requires n < |names| && IsImageFile(names[n]) && m == MaskAfter(mask, names, images, n + 1)
    requires ProcessedUpTo(images, before, mask, names, n)
    modifies images[n]
    ensures ProcessedUpTo(images, before, mask, names, n + 1)
  {
    var img := images[n];
    MaskFitsImage(mask, names, images, n);
    ApplyMask(img, m);
    assert Contents(img) == Masked(before[n], m);
    forall j | 0 <= j < |names|
      ensures Processed(images[j], before[j], MaskAfter(mask, names, images, j + 1), IsImageFile(names[j]) && j < n + 1)
    {
      if j != n {
        assert images[j] != img;
      }
    }
  }

  /** A file the filter skips is left as it was. */
  lemma SkipFile(images: seq<array2<Pixel>>, before: seq<Grid<Pixel>>, mask: Grid<byte>, names: seq<string>, n: nat)
    requires IsImage(mask) && Readable(names, images)
    requires n < |names| && !IsImageFile(names[n])
    requires ProcessedUpTo(images, before, mask, names, n)
    ensures ProcessedUpTo(images, before, mask, names, n + 1)
  {
  }
}
