/** `display_face` and `write_centered_text` in shelface.py: the slideshow loop, the footer it
    stamps onto each frame, and where the footer text is drawn. */
module Display {
  import opened Wrappers
  import opened Image
  import Placement

  /** `int(x)` for a float: truncation toward zero. */
  function Truncate(x: real): (n: int)
    ensures 0.0 <= x ==> 0 <= n && n as real <= x < n as real + 1.0
    ensures x < 0.0 ==> n <= 0 && n as real - 1.0 < x <= n as real
  {
    if x >= 0.0 then x.Floor else -((-x).Floor)
  }

  /** `text_size` in `write_centered_text`: `int(rows * proportion / 20)` for a footer `rows` tall. */
  function TextScale(rows: nat, proportion: real): int {
    Truncate(rows as real * proportion / 20.0)
  }

  /** With the proportion `display_face` passes, 0.5, the scale is the footer height over 40. */
  lemma TextScaleOfHalf(rows: nat)
    ensures TextScale(rows, 0.5) == rows / 40
  {
    var q, m := rows / 40, rows % 40;
    assert rows == 40 * q + m;
    assert rows as real * 0.5 / 20.0 == q as real + (m as real) / 40.0;
  }

  /** The origin `(text_x, text_y)` `putText` gets for a `textWidth` x `textHeight` text on a
      `cols` x `rows` footer: `text_x` is the left edge, `text_y` the baseline. */
  function TextOrigin(cols: int, rows: int, textWidth: int, textHeight: int): (o: (int, int))
    ensures var (x, y) := o;
      && 0 <= (cols - textWidth - x) - x <= 1
      && 0 <= (rows - y) - (y - textHeight) <= 1
      && (0 <= textWidth <= cols ==> 0 <= x && x + textWidth <= cols)
      && (0 <= textHeight <= rows ==> textHeight <= y <= rows)
  {
    (Placement.Center(cols, textWidth), textHeight + Placement.Center(rows, textHeight))
  }

  /** `face[-H:, :] = footer` succeeds: numpy needs the selected rows to have the footer's shape,
      and `face[-0:]` selects the whole face. */
  predicate FooterFits(footer: Grid<Pixel>, rows: nat, cols: nat) {
    0 < |footer| <= rows && Shaped(footer, |footer|, cols)
  }

  /** `g` with its last `|footer|` rows replaced by the footer. */
  function WithFooter(g: Grid<Pixel>, footer: Grid<Pixel>): (r: Grid<Pixel>)
    requires Rectangular(g) && FooterFits(footer, |g|, Cols(g))
    ensures Shaped(r, |g|, Cols(g))
  {
    seq(|g|, i requires 0 <= i < |g| => if i < |g| - |footer| then g[i] else footer[i - (|g| - |footer|)])
  }

  /** Stamping the footer changes only the last `|footer|` rows, which then hold the footer;
      stamping it again changes nothing. */
  lemma {:induction false} FooterOnlyBottom(g: Grid<Pixel>, footer: Grid<Pixel>)
    requires Rectangular(g) && FooterFits(footer, |g|, Cols(g))
    ensures var r := WithFooter(g, footer);
      && r[..|g| - |footer|] == g[..|g| - |footer|]
      && r[|g| - |footer|..] == footer
      && WithFooter(r, footer) == r
  {
    var r := WithFooter(g, footer);
    var k := |g| - |footer|;
    assert r[k..] == footer by {
      assert |r[k..]| == |footer|;
      forall i | 0 <= i < |footer| ensures r[k..][i] == footer[i] {
        assert r[k..][i] == r[k + i];
      }
    }
    assert Cols(r) == Cols(g);
  }

  /** `face[-H:, :] = bg_image`: overwrite the bottom rows of a frame in place, or raise. */
  method OverwriteFooter(face: array2<Pixel>, footer: Grid<Pixel>) returns (ok: bool)
    modifies face
    ensures ok == FooterFits(footer, face.Length0, face.Length1)
    ensures Contents(face) == if ok then WithFooter(old(Contents(face)), footer) else old(Contents(face))
  {
    ghost var before := Contents(face);
    ok := FooterFits(footer, face.Length0, face.Length1);
    if !ok {
      return;
    }
    var start := face.Length0 - |footer|;
    var i := start;
    while i < face.Length0
      invariant start <= i <= face.Length0
      invariant forall r, c :: 0 <= r < face.Length0 && 0 <= c < face.Length1 ==>
        face[r, c] == if start <= r < i then footer[r - start][c] else before[r][c]
    {
      var j := 0;
      while j < face.Length1
        invariant 0 <= j <= face.Length1
        invariant forall r, c :: 0 <= r < face.Length0 && 0 <= c < face.Length1 ==>
          face[r, c] == if start <= r < i || (r == i && c < j) then footer[r - start][c] else before[r][c]
      {
        face[i, j] := footer[i - start][j];
        j := j + 1;
      }
      i := i + 1;
    }
    SameGrid(Contents(face), WithFooter(before, footer), face.Length0, face.Length1);
  }

  /** `key == ord('q') or key == 27`. */
  predicate IsQuitKey(key: int) {
    key == 113 || key == 27
  }

  datatype Fault =
    | NoFrames          // `face_list[counter]` on an empty list raises IndexError
    | FooterMismatch    // the footer assignment raises (see `FooterFits`)
    | EmptyFrame        // `cv2.imshow` refuses a frame without rows or columns

  /** `cv2.imshow` accepts the frame: it has rows and columns. */
  predicate Showable(f: array2<Pixel>) {
    f.Length0 > 0 && f.Length1 > 0
  }

  /** How a run of the loop ends: a quit key, the end of the recorded keys, or an exception. */
  datatype Ending = Quit | KeysExhausted | Crashed(fault: Fault)

  /** Frame `f`, which held `was` when the loop started, holds `was` with the footer stamped on
      it if it has been shown, and `was` otherwise. */
  ghost predicate Stamped(f: array2<Pixel>, was: Grid<Pixel>, footer: Option<Grid<Pixel>>, shown: bool)
    reads f
  {
    if footer.Some? && shown then
      && Rectangular(was) && FooterFits(footer.value, |was|, Cols(was))
      && Contents(f) == WithFooter(was, footer.value)
    else Contents(f) == was
  }

  /** The `k`th frame shown is frame `k % n`. */
  predicate Cyclic(shown: seq<nat>, n: nat) {
    forall k :: 0 <= k < |shown| ==> n > 0 && shown[k] == k % n
  }

  /** None of the first `m` keys is a quit key. */
  predicate NoQuitBefore(keys: seq<int>, m: nat) {
    forall k :: 0 <= k < m && k < |keys| ==> !IsQuitKey(keys[k])
  }

  /** Each frame of the list is `Stamped` against its contents `before` when the loop started,
      the first `m` of them as shown. */
  ghost predicate AllStamped(frames: seq<array2<Pixel>>, before: seq<Grid<Pixel>>, footer: Option<Grid<Pixel>>, m: nat)
    reads set k | 0 <= k < |frames| :: frames[k]
  {
    |before| == |frames| && forall j :: 0 <= j < |frames| ==> Stamped(frames[j], before[j], footer, j < m)
  }

  /** Every frame shown within the first `m` steps can be shown: the first `m` frames of the list,
      or all of them once the loop has gone round. */
  predicate ShowableUpTo(frames: seq<array2<Pixel>>, m: nat) {
    forall j :: 0 <= j < |frames| && j < m ==> Showable(frames[j])
  }

  /** The `while True` loop of `display_face`. `keys` are the successive results of `cv2.waitKey`;
      `shown` records the index of each frame handed to `cv2.imshow`. With a footer, each frame
      the loop reaches has its bottom rows overwritten in place, once and for all. */
  method DisplayFace(frames: seq<array2<Pixel>>, footer: Option<Grid<Pixel>>, keys: seq<int>)
    returns (shown: seq<nat>, ending: Ending)
    requires Distinct(frames)
    modifies set k | 0 <= k < |frames| :: frames[k]
    ensures ending == Crashed(NoFrames) <==> |frames| == 0
    ensures |frames| == 0 ==> shown == []
    ensures |shown| <= |keys|
    ensures Cyclic(shown, |frames|)
    ensures forall k :: 0 <= k < |shown| - 1 ==> !IsQuitKey(keys[k])
    ensures ending == Quit ==> 0 < |shown| && IsQuitKey(keys[|shown| - 1])
    ensures ending == KeysExhausted ==> |shown| == |keys| && |frames| > 0 && (|keys| > 0 ==> !IsQuitKey(keys[|keys| - 1]))
    ensures ending.Crashed? && ending.fault != NoFrames ==>
      && |frames| > 0 && |shown| < |keys|
      && (|shown| > 0 ==> !IsQuitKey(keys[|shown| - 1]))
      && var f := frames[|shown| % |frames|];
         && (ending.fault == FooterMismatch <==> footer.Some? && !FooterFits(footer.value, f.Length0, f.Length1))
         && (ending.fault == EmptyFrame ==> !Showable(f))
    ensures ShowableUpTo(frames, |shown|)
    ensures AllStamped(frames, old(Snapshot(frames)), footer, if ending == Crashed(EmptyFrame) then |shown| + 1 else |shown|)
  {
    shown := [];
    if |frames| == 0 {
      return [], Crashed(NoFrames);
    }
    ghost var before := Snapshot(frames);
    var counter := 0;
    while |shown| < |keys|
      invariant |shown| <= |keys|
      invariant counter == |shown| % |frames|
      invariant Cyclic(shown, |frames|)
      invariant NoQuitBefore(keys, |shown|)
      invariant before == old(Snapshot(frames))
      invariant AllStamped(frames, before, footer, |shown|)
      invariant ShowableUpTo(frames, |shown|)
      decreases |keys| - |shown|
    {
      var fault := ShowFrame(frames, before, footer, counter, |shown|);
      if fault.Some? {
        return shown, Crashed(fault.value);
      }
      CyclicStep(shown, |frames|);
      NextIndex(|shown|, |frames|);
      shown := shown + [counter];
      var key := keys[|shown| - 1];
      counter := (counter + 1) % |frames|;
      if IsQuitKey(key) {
        return shown, Quit;
      }
    }
    ending := KeysExhausted;
  }

  /** One pass of the loop body up to `cv2.imshow`: stamp the footer, if any, onto frame
      `counter`, the frame for step `steps`, and hand it to `imshow`. Fails, changing nothing,
      when the footer does not fit, and after the stamp when the frame is empty. */
  method ShowFrame(frames: seq<array2<Pixel>>, ghost before: seq<Grid<Pixel>>, footer: Option<Grid<Pixel>>,
                   counter: nat, ghost steps: nat)
    returns (fault: Option<Fault>)
    requires Distinct(frames)
    requires 0 < |frames| == |before| && counter == steps % |frames|
    requires AllStamped(frames, before, footer, steps) && ShowableUpTo(frames, steps)
    modifies frames[counter]
    ensures var f := frames[counter];
      && (fault == Some(FooterMismatch) <==> footer.Some? && !FooterFits(footer.value, f.Length0, f.Length1))
      && (fault == Some(EmptyFrame) <==> (footer.None? || FooterFits(footer.value, f.Length0, f.Length1)) && !Showable(f))
      && (fault.None? <==> (footer.None? || FooterFits(footer.value, f.Length0, f.Length1)) && Showable(f))
    ensures fault.None? ==> ShowableUpTo(frames, steps + 1)
    ensures AllStamped(frames, before, footer, if fault == Some(FooterMismatch) then steps else steps + 1)
  {
    var face := frames[counter];
    fault := None;
    if footer.Some? {
      ghost var mid := Contents(face);
      var ok := OverwriteFooter(face, footer.value);
      if !ok {
        return Some(FooterMismatch);
      }
      StampOnce(before[counter], mid, Contents(face), footer.value, counter < steps);
    }
    if !Showable(face) {
      fault := Some(EmptyFrame);
    }
    if steps < |frames| {
      ModUnique(steps, |frames|, 0, steps);
    }
    forall j | 0 <= j < |frames|
      ensures Stamped(frames[j], before[j], footer, j < steps + 1)
    {
      if j != counter {
        assert frames[j] != face && j != steps;
      }
    }
  }

  /** Stamping the footer onto a frame that is either untouched or already stamped gives the stamped frame. */
  lemma StampOnce(was: Grid<Pixel>, mid: Grid<Pixel>, now: Grid<Pixel>, footer: Grid<Pixel>, again: bool)
    requires Rectangular(mid) && FooterFits(footer, |mid|, Cols(mid)) && now == WithFooter(mid, footer)
    requires again ==> Rectangular(was) && FooterFits(footer, |was|, Cols(was)) && mid == WithFooter(was, footer)
    requires !again ==> mid == was
    ensures Rectangular(was) && FooterFits(footer, |was|, Cols(was)) && now == WithFooter(was, footer)
  {
    if again {
      FooterOnlyBottom(was, footer);
    }
  }

  /** Showing frame `|shown| % n` next keeps the order cyclic. */
  lemma CyclicStep(shown: seq<nat>, n: nat)
    requires n > 0 && Cyclic(shown, n)
    ensures Cyclic(shown + [|shown| % n], n)
  {
    var next := shown + [|shown| % n];
    forall k | 0 <= k < |next| ensures next[k] == k % n {
      if k < |shown| {
        assert next[k] == shown[k];
      }
    }
  }

  /** Every frame the loop has shown can be shown. */
  lemma ShownAreShowable(frames: seq<array2<Pixel>>, shown: seq<nat>)
    requires |frames| > 0 && Cyclic(shown, |frames|) && ShowableUpTo(frames, |shown|)
    ensures forall k :: 0 <= k < |shown| ==> shown[k] < |frames| && Showable(frames[shown[k]])
  {
    forall k | 0 <= k < |shown| ensures shown[k] < |frames| && Showable(frames[shown[k]]) {
      ModBelow(k, |frames|);
    }
  }

  /** A remainder is no larger than the number divided. */
  lemma ModBelow(k: nat, n: nat)
    requires n > 0
    ensures k % n <= k && k % n < n
  {
  }

  /** The counter update `counter += 1; counter %= len(face_list)` keeps `counter == steps % n`. */
  lemma NextIndex(steps: nat, n: nat)
    requires n > 0
    ensures (steps % n + 1) % n == (steps + 1) % n
  {
    var q, r := steps / n, steps % n;
    if r + 1 == n {
      ModUnique(steps + 1, n, q + 1, 0);
      ModUnique(r + 1, n, 1, 0);
    } else {
      ModUnique(steps + 1, n, q, r + 1);
      ModUnique(r + 1, n, 0, r + 1);
    }
  }

  /** Euclidean remainder is unique: `x == q * n + r` with `0 <= r < n` fixes `x % n`. */
  lemma ModUnique(x: int, n: int, q: int, r: int)
    requires n > 0 && x == q * n + r && 0 <= r < n
    ensures x % n == r
  {
    var q0, r0 := x / n, x % n;
    assert (q - q0) * n == r0 - r;
    MulBound(q - q0, n);
  }

  lemma MulBound(d: int, n: int)
    requires n > 0 && -n < d * n < n
    ensures d == 0
  {
  }

  /** The loop visits the frames cyclically: once `|frames|` frames have been shown, every frame has been. */
  lemma VisitsEveryFrame(shown: seq<nat>, n: nat)
    requires n > 0 && Cyclic(shown, n)
    ensures forall k :: 0 <= k < |shown| ==> shown[k] < n
    ensures |shown| >= n ==> forall j :: 0 <= j < n ==> j in shown
  {
    if |shown| >= n {
      forall j | 0 <= j < n ensures j in shown {
        assert shown[j] == j;
      }
    }
  }
}
