# shelface in Dafny

shelface is two small Python scripts built on OpenCV:

- `shelface.py` shows a "face" full-screen as a slideshow. The face is a still image or an animation of frames.
  - Each frame is fitted to the screen by one of three resize policies: `pad`, `resize_pad` or `resize`.
  - A band of rows at the bottom is reserved for a footer text.
  - For animations, the frame rate comes from the `Duration` line of the face's `info.txt`.
- `assets/animations/edit.py` masks a directory of images.
  - It zeroes every pixel whose value in a grey-scale mask is 255.
  - It writes the results, under their own file names, to an `output` directory beside the input directory.

This project models the logic inside those scripts and proves what it promises. The library calls around that logic become parameters or abstract functions.

The modules:

- `Wrappers`: `Option` and `Result`.
- `Image`: 8-bit BGR pixels, grids, and the contents of an `array2` buffer. It also has `Resized`, the stand-in for `cv2.resize`.
- `Strings`: the Python `str` operations the scripts use (`strip`, `in`, `split`, `replace`, `endswith`, `lower`).
- `Paths`: `posixpath.dirname`, `basename` and `join`.
- `Placement`: the geometry of `get_face_resized`. This covers the reserved footer, the fitted size with truncating `int()`, and the centring offsets.
- `Compose`: the zero-filled background with the face copied in by slice assignment, as code over an `array2`. Its specification is a function on grids.
- `FrameRate`: the scan of `info.txt` for the last `Duration` line, and the resulting frame rate.
- `Display`: the slideshow loop of `display_face`. The loop advances a modular counter and stamps the footer in place onto each frame it shows. The module also has the text origin of `write_centered_text`.
- `Masking`: the `main` of `edit.py`.
  - The case-insensitive extension filter.
  - The output directory and output paths.
  - The in-place `img[mask == 255] = 0`.
  - The mask that is re-bound to a resized copy when an image has another shape.

The model follows the code wherever its behaviour is sharper than a plain reading suggests:

- `int(...)` at shelface.py:83 and 89 truncates. It does not round.
- The centring offsets use `//`. An odd leftover pixel therefore goes to the right and bottom margins, not to the left or top.
- Every failure that the modelled logic itself can raise is a `Result` error, not a precondition. (Failed reads are a different matter; see "Left out".) The failures are:
  - the footer assertion;
  - a `pad` face larger than the face area, which the numpy slice assignment refuses. The exception is a one-column face on a zero-width screen, which numpy broadcasts onto the empty slice;
  - a zero-sided `cv2.resize` target;
  - a `Duration` line without ':';
  - an unparsable or zero duration;
  - a footer that does not fit the frame;
  - an empty frame handed to `cv2.imshow`, which the zero-width `pad` frame is.

## Model

| member | source | states |
|---|---|---|
| Strings.IsSpace | shelface.py:136 | the characters `str.strip()` removes: Python's whitespace set (the ASCII characters 9-13, 28-31 and the space, and the Unicode spaces and separators) |
| Strings.LeadingSpaces | shelface.py:136 | the count of leading characters that are Python whitespace, and the next character is not one |
| Strings.TrailingSpaces | shelface.py:136 | the count of trailing whitespace characters, and the character before them is not one |
| Strings.Strip | shelface.py:136 | `str.strip()`: no longer than the input, and neither end is whitespace |
| Strings.StripKeepsText | shelface.py:136 | the stripped text is a contiguous infix of the input, and every non-whitespace character of the input lies inside it |
| Strings.Contains | shelface.py:137 | `"Duration" in txt` holds iff the pattern occurs at some position |
| Strings.FirstIndex | shelface.py:138 | the position of the first occurrence of the separator, or the length when there is none |
| Strings.Split | shelface.py:138 | `str.split(sep)` yields at least one piece, and no piece contains the separator |
| Strings.JoinSplit | shelface.py:138 | joining the pieces with the separator gives back the original text |
| Strings.SplitJoin | shelface.py:138 | splitting a join of separator-free pieces gives back the pieces |
| Strings.FirstIndexAt | shelface.py:138 | the first separator of `p + sep + rest` is the one right after a separator-free `p` |
| Strings.FirstPiece | shelface.py:138 | the first piece of a split is the text before the first separator |
| Strings.SecondPieceText | shelface.py:138 | when the text has a separator, the second piece exists and runs from the first separator to the next one or the end |
| Strings.SecondPiece | shelface.py:138 | `split(':')[1]` exists iff the text has a ':', and it is the stretch from the first ':' to the next ':' or the end |
| Strings.RemoveAll | shelface.py:138 | `replace('s', '')` leaves no 's' and keeps every other character with its multiplicity |
| Strings.RemoveAllAppend | shelface.py:138 | deleting a character distributes over concatenation |
| Strings.RemoveAllNothing | shelface.py:138 | deleting a character that does not occur changes nothing |
| Strings.EndsWith | assets/animations/edit.py:20 | `s.endswith(suffix)`: the suffix is no longer than `s` and equals its last characters |
| Strings.Lower | assets/animations/edit.py:20 | `lower()` keeps the length and lower-cases each character |
| Strings.LowerSuffix | assets/animations/edit.py:20 | lower-casing commutes with taking a suffix |
| Strings.LowerIdempotent | assets/animations/edit.py:20 | lower-casing twice equals lower-casing once |
| Paths.HeadLength | assets/animations/edit.py:13 | the position after the last '/', and no '/' follows it |
| Paths.RStripSlashes | assets/animations/edit.py:13 | a prefix that does not end in '/', followed in the input only by slashes |
| Paths.Dirname | assets/animations/edit.py:13 | `posixpath.dirname` is empty, all slashes, or does not end in '/' |
| Paths.Basename | assets/animations/edit.py:35 | `posixpath.basename` contains no '/' |
| Paths.JoinSplitsBack | assets/animations/edit.py:35 | joining a slash-free name onto a directory: `basename` gives back the name and `dirname` the directory |
| Paths.Join | assets/animations/edit.py:13 | `posixpath.join(a, b)`: `b` when it is absolute, otherwise `a` and `b` with one '/' between them unless `a` is empty or already ends in '/'; `JoinSplitsBack` states what `dirname` and `basename` make of it |
| Paths.HeadAfterLastSlash | assets/animations/edit.py:13 | when the name has no '/', the last '/' of prefix + name closes the prefix |
| Paths.StripOneSlash | assets/animations/edit.py:13 | one trailing '/' after a directory is stripped back to the directory |
| Image.Resized | shelface.py:104 | `cv2.resize(src, (cols, rows))` yields an image of exactly `rows` x `cols` |
| Placement.Center | shelface.py:96-97 | `(outer - inner) // 2` splits the margin with the odd pixel after the span, and keeps a fitting span inside |
| Placement.FitsToHeight | shelface.py:82 | the branch condition `SCREEN_WIDTH / FACE_HEIGHT > face_width / face_height`, cross-multiplied over positive heights |
| Placement.FitsToHeightIsRatioComparison | shelface.py:82 | the cross-multiplied test decides the same as `SW / FH > fw / fh` on the reals |
| Placement.FitSize | shelface.py:82-90 | the fitted size lies inside SW x FH and fills one of them. The other side is the truncated scaled value: `floor(FH*fw/fh)` in the height branch, `floor(SW*fh/fw)` in the width branch. The aspect ratio is kept to within a pixel |
| Placement.HeightBranch | shelface.py:82-85 | the height branch gives `new_height == FH` and `new_width == floor(FH*fw/fh) <= SW` |
| Placement.WidthBranch | shelface.py:87-90 | the width branch gives `new_width == SW` and `new_height == floor(SW*fh/fw) <= FH` |
| Placement.ComputeLayout | shelface.py:57-106 | every policy fails with FooterTooTall exactly when `SCREEN_HEIGHT <= 2*text_height`. A layout lies inside its canvas and inside the face area, centred with the odd pixel right and below, at a positive size (only a `pad` frame on a zero-width screen has width 0). The canvas is the screen for `pad` and `resize_pad` and SW x FH for `resize` |
| Placement.FooterBoundary | shelface.py:62-63 | a screen exactly twice the reserved height is refused |
| Placement.PadLayout | shelface.py:58-69 | `pad` keeps the face size on the screen canvas. It fails, with FaceTooLarge, exactly when the face exceeds SW x FH, except that numpy broadcasts a one-column face onto a zero-width screen, and that face is drawn at width 0 |
| Placement.ResizePadLayout | shelface.py:71-99 | `resize_pad` draws at `FitSize` on the screen canvas, and fails, with EmptyResize, exactly when truncation leaves a zero side |
| Placement.ResizeLayout | shelface.py:101-104 | `resize` yields exactly SCREEN_WIDTH x FACE_HEIGHT at the origin, whatever the face's aspect. On a zero-width screen it fails with EmptyResize, because `cv2.resize` refuses the empty target |
| Placement.ResizePadExample | shelface.py:71-99 | a 640x480 face on 1920x1080 with 150 rows reserved is drawn 1240x930 at (340, 0) |
| Placement.PadZeroWidthExample | shelface.py:58-69 | on a zero-width screen a one-column `pad` face is accepted, nothing of it is drawn, and the frame is the empty-width background |
| Compose.Placed | shelface.py:94-98 | the background with the face placed on it has the canvas shape |
| Compose.Crop | shelface.py:98 | the window `g[y:y+rows, x:x+cols]` has the requested shape |
| Compose.CropPlaced | shelface.py:98 | cropping the placed rectangle back out gives the face, and every pixel outside it is zero |
| Compose.PlacedWhole | shelface.py:101-104 | a face that already has the canvas shape is the frame itself |
| Compose.PlaceOnBlank | shelface.py:94-98 | `np.zeros` plus the slice assignment fills a fresh buffer with exactly `Placed` |
| Compose.Drawn | shelface.py:57-106 | what the slice assignment copies: the face under `pad` (nothing on a zero-width screen), the `cv2.resize` result under `resize_pad` and `resize` |
| Compose.Frame | shelface.py:57-106 | the value `get_face_resized` returns: the layout's fault, or the zero canvas with `Drawn` at the layout's offsets; `FrameShape` states its contents |
| Compose.FrameShape | shelface.py:57-106 | the frame has the screen's shape under `pad` and `resize_pad` and SW x FH under `resize`. `resize` is the resized face itself. `pad` holds the face unchanged in its rectangle and `resize_pad` the face resized to `FitSize`. Every pixel outside that rectangle, the reserved bottom rows included, is zero. Under `pad`, the face is shown unchanged only on a screen of some width; on a zero-width screen every row of the frame is empty |
| Compose.GetFaceResized | shelface.py:57-106 | returns a fresh buffer holding `Frame`, or the same failure |
| FrameRate.IsDurationLine | shelface.py:137 | the test `"Duration" in txt` on the stripped line |
| FrameRate.DurationText | shelface.py:138 | fails exactly when the line has no ':'; the value holds no 's' and no ':' |
| FrameRate.DurationTextIsSecondField | shelface.py:138 | the value is the text between the first ':' and the next ':' or the end, stripped, with every 's' deleted |
| FrameRate.LineValue | shelface.py:138 | the value `float(...)` gives for a Duration line, `BadNumber` when it cannot parse it, or `NoColon` |
| FrameRate.DurationOf | shelface.py:133-138 | `duration` after the loop: the value of the last Duration line, `None` without one, or the first line's failure; `LastDurationWins`, `NoDurationLines` and `ErrorPersists` state this |
| FrameRate.RateOf | shelface.py:131-145 | the frame rate: 30 without an info file or a Duration line, otherwise the frame count over the duration, and a failure for a zero duration; `NoDurationDefault` and `RateFromDuration` state this |
| FrameRate.DeriveFrameRate | shelface.py:131-145 | the loop's result equals `RateOf`, the reference definition of the rate |
| FrameRate.ScanStep | shelface.py:135-138 | one more line keeps the duration unless it is a Duration line, whose value or failure replaces it |
| FrameRate.ErrorPersists | shelface.py:135-138 | the first unreadable Duration line aborts the whole scan with its fault |
| FrameRate.NoDurationDefault | shelface.py:139-145 | with no info file, or no line containing "Duration", the rate is 30 |
| FrameRate.NoDurationLines | shelface.py:133-139 | a scan that meets no Duration line leaves `duration` as `None` |
| FrameRate.LastDurationWins | shelface.py:135-138 | the last Duration line determines the duration, whatever the lines after it |
| FrameRate.RateFromDuration | shelface.py:141-142 | with a nonzero duration `d` the rate is `len(face_images) / d` |
| Display.TextScale | shelface.py:19 | `int(rows * proportion / 20)`, the scale `putText` gets; `TextScaleOfHalf` gives its value |
| Display.Truncate | shelface.py:19 | `int()` truncates toward zero: the floor for non-negative values, the ceiling for negative ones |
| Display.TextScaleOfHalf | shelface.py:19 | with proportion 0.5 the text scale is the footer height divided by 40, rounded down |
| Display.TextOrigin | shelface.py:22-23 | the text is centred with the odd pixel right and below, and a text that fits lies inside the footer |
| Display.FooterFits | shelface.py:47 | the condition under which `face[-H:, :] = bg_image` succeeds: `0 < H <= rows` and the footer has exactly `H` rows of the frame's width |
| Display.WithFooter | shelface.py:47 | the stamped frame keeps the frame's shape |
| Display.FooterOnlyBottom | shelface.py:47 | stamping changes only the last `H` rows, which then hold the footer, and stamping again changes nothing |
| Display.OverwriteFooter | shelface.py:47 | `face[-H:, :] = bg_image` succeeds exactly when the footer fits, and then writes `WithFooter`; on failure nothing changes |
| Display.IsQuitKey | shelface.py:54 | the quit keys: `ord('q')`, 113, and Escape, 27 |
| Display.DisplayFace | shelface.py:42-55 | the k-th frame shown is `k % len(face_list)`. The loop stops right after the first quit key. It crashes with `NoFrames` exactly when the list is empty. It crashes with `FooterMismatch` exactly when the footer does not fit the frame it reaches. It crashes with `EmptyFrame` when that frame has no rows or no columns, after the footer is stamped onto it. Every shown frame has rows and columns. Each frame the loop reaches is stamped once and for all, and every other frame is left as it was |
| Display.ShowFrame | shelface.py:43-50 | one pass stamps only the current frame, or fails with `FooterMismatch` and changes nothing. After the stamp it fails with `EmptyFrame` exactly when the frame cannot be shown |
| Display.ShownAreShowable | shelface.py:50 | every frame handed to `cv2.imshow` has rows and columns |
| Display.StampOnce | shelface.py:47 | stamping a frame that is already stamped leaves it stamped from its original contents |
| Display.Cyclic | shelface.py:43-53 | the order in which the loop shows frames: the `k`th frame shown is `face_list[k % len(face_list)]` |
| Display.CyclicStep | shelface.py:43-53 | showing frame `len(shown) % n` next keeps that order |
| Display.NextIndex | shelface.py:52-53 | `counter += 1; counter %= n` keeps `counter == steps % n` |
| Display.VisitsEveryFrame | shelface.py:52-53 | the counter stays below `len(face_list)`, and after that many steps every frame has been shown |
| Masking.IsImageFile | assets/animations/edit.py:20 | the filter `filename.lower().endswith(('.png', '.jpg', '.jpeg'))`; `ImageFileBySuffix` characterises it |
| Masking.ImageFileIgnoresCase | assets/animations/edit.py:20 | the filter accepts a name exactly when it accepts the name lower-cased |
| Masking.AcceptsExtension | assets/animations/edit.py:20 | any name ending in a case variant of `.png`, `.jpg` or `.jpeg` is processed |
| Masking.ImageFileBySuffix | assets/animations/edit.py:20 | a name is processed exactly when some suffix of it lower-cases to one of the three extensions |
| Masking.OutputDir | assets/animations/edit.py:13 | `os.path.join(os.path.dirname(input_dir), "output")`; `OutputIsSibling` and `OutputInsideWithTrailingSlash` state where it lies |
| Masking.OutputIsSibling | assets/animations/edit.py:13 | the output directory is named `output` and has the input directory's `dirname` as its parent |
| Masking.EndsInOutput | assets/animations/edit.py:13 | the output directory path always ends in `output` |
| Masking.OutputInsideWithTrailingSlash | assets/animations/edit.py:13 | for an input written with a trailing '/', the output directory lies inside the input directory |
| Masking.OutputPath | assets/animations/edit.py:35 | `os.path.join(output_dir, filename)`; `OutputKeepsName` states that it keeps the name |
| Masking.OutputKeepsName | assets/animations/edit.py:35 | each output file lies in the output directory and keeps its input file name |
| Masking.Masked | assets/animations/edit.py:32 | the masked image keeps the shape; a pixel is zero where the mask is 255 and unchanged elsewhere |
| Masking.MaskedNothing | assets/animations/edit.py:32 | a mask without a 255 leaves the image unchanged |
| Masking.ApplyMask | assets/animations/edit.py:32 | in place, every pixel under a 255 is zero in all channels, every other pixel is unchanged, and the contents are `Masked` |
| Masking.Rebind | assets/animations/edit.py:28-29 | the mask used for an image has the image's shape, and a mask that already has it is kept |
| Masking.MaskAfter | assets/animations/edit.py:19-29 | the mask variable stays a non-empty rectangular grid through the loop |
| Masking.MaskAfterStep | assets/animations/edit.py:28-29 | a listed file re-binds the mask exactly when it is an image file |
| Masking.MaskFitsImage | assets/animations/edit.py:28-32 | the mask applied to each image file has that image's shape |
| Masking.MaskKeptWhenShapesAgree | assets/animations/edit.py:28-29 | when every image has the mask's shape, the mask is never replaced |
| Masking.Outputs | assets/animations/edit.py:35-36 | there is at most one output path per listed file |
| Masking.OutputsStep | assets/animations/edit.py:35-36 | a listed file adds its output path exactly when it is an image file |
| Masking.OutputsAreImageFiles | assets/animations/edit.py:19-36 | a path is written exactly when it is the output path of an image file of the listing |
| Masking.WrittenUnderOutput | assets/animations/edit.py:19-36 | every written file lies in the output directory under the name of a listed image file |
| Masking.ProcessFile | assets/animations/edit.py:20-36 | one pass leaves the mask as `MaskAfter` and the written paths as `Outputs` say, and masks the current file only if it is an image file |
| Masking.SkipFile | assets/animations/edit.py:20 | a file the filter rejects is left as it was |
| Masking.MaskOne | assets/animations/edit.py:32 | masking the current file changes no other file of the listing |
| Masking.MaskDirectory | assets/animations/edit.py:8-36 | when the input directory is missing, nothing is created, written or changed. Otherwise the output directory is `dirname(input_dir)/output`, the written paths are `Outputs` in listing order, each image file holds its original contents masked with the mask then current, and every other file is unchanged |

## Left out

- Window handling, full-screen properties, `imshow`, and the glyphs `putText` draws are I/O and are not modelled. So are the screen size that tkinter reports and the command-line parsing. The screen size, policy, footer height and the keys pressed are parameters instead.
- `cv2.getTextSize` is a foreign call. Its text width and height are parameters of `Display.TextOrigin`.
- Image decoding and encoding (`cv2.imread`, `cv2.imwrite`) and a failed read are not modelled. An image that cannot be read becomes `None` in Python, and the scripts crash on it once they use its shape. The model takes decoded, non-empty images as inputs: `IsImage(face)`, `Masking.Readable` and `IsImage(mask)` are preconditions standing for reads that succeed.
- Masking.MaskDirectory: it requires a readable mask even when the mask is never used, that is when the input directory is missing or no listed name passes the filter. In those runs, edit.py exits normally with a `None` mask. The model also does not capture the crash at line 28 when the mask or an image cannot be read.
- Image.Resized: only the output shape is specified. OpenCV's interpolated pixels are not modelled, and the body's nearest-neighbour sampling is a placeholder.
- `os.path.exists`, `os.listdir`, `os.makedirs` and reading `info.txt` are I/O. The model receives their results instead: the existence flag, the listing of names, and the lines of the file. `Masking.IsListing` states what a listing contains. The listing's order is taken as given.
- Python's `float()` is the parameter `parse` of `FrameRate`. Floating-point rounding is treated as exact arithmetic in the line-82 comparison, in the quotients `FACE_HEIGHT * face_width / face_height` and `SCREEN_WIDTH * face_height / face_width` that lines 83 and 89 compute before `int()`, in the frame-rate division and in the `int(1000 / frame_rate)` wait time. The wait time is not modelled.
- `cv2.waitKey` returning -1 or carrying high bits is not modelled: keys are compared as given.
- The still-face path picks one `.jpg` file at random and shows it as a one-frame list. Both the random choice and the `.jpg` listing filter are left out; `Display.DisplayFace` covers the one-frame case.
- The `mode` argument of `get_face_resized` is ignored by the code, which reads the global `args.resize_method`. The model takes the policy as a parameter. Callers always use the default `text_height` of 150; the model takes it as a parameter too.
- Strings.Lower: only ASCII letters are lower-cased. For the extension test this makes no difference, because no non-ASCII character lower-cases to a string ending in one of `.pngjeg`.
- numpy broadcasting in the footer assignment is not modelled. For `0 < H <= rows`, `face[-H:, :]` selects exactly `H` rows. For `H == 0` or `H > rows` it selects every row of the frame, and `Display.FooterFits` refuses both cases. So broadcasting could only stretch a footer one column wide across a wider frame, or accept an empty footer on an empty frame. `Display.FooterFits` demands the exact shape. The footer `display_face` builds always has it, being `SCREEN_WIDTH` wide like every frame. (The one broadcast that `get_face_resized` can meet, on a zero-width screen, is modelled; see `Placement.PadZeroWidthExample`.)
- Display.DisplayFace: the loop is modelled over a finite run of recorded keys, so the unbounded `while True` ends when they run out (`KeysExhausted`).
- Paths: POSIX path semantics only.
- Strings.Split: only single-character separators are modelled.
