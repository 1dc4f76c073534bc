/** The frame rate of an animated face in shelface.py's `main`: the clip's duration is read from
    the `Duration` line of the face's `info.txt`; without one the rate is 30 frames per second. */
module FrameRate {
  import opened Wrappers
  import opened Strings

  /** The rate `display_face` uses when the duration is unknown. */
  const DefaultRate: real := 30.0

  datatype Fault =
    | NoColon        // `txt.split(":")[1]` on a Duration line without ':' raises IndexError
    | BadNumber      // `float(...)` raises ValueError
    | ZeroDuration   // `len(face_images) / duration` raises ZeroDivisionError

  /** Python's `"Duration" in txt`. */
  predicate IsDurationLine(txt: string) {
    Contains(txt, "Duration")
  }

  /** `txt.split(":")[1].strip().replace("s", "")`: the text after the first ':' up to the next one,
      stripped, with every 's' deleted; an `IndexError` when `txt` has no ':'. */
  function DurationText(txt: string): (r: Result<string, Fault>)
    ensures r.Err? <==> ':' !in txt
    ensures r.Ok? ==> 's' !in r.value && ':' !in r.value
  {
    SecondPiece(txt, ':');
    var parts := Split(txt, ':');
    if |parts| < 2 then Err(NoColon)
    else
      var v := RemoveAll(Strip(parts[1]), 's');
      assert ':' !in Strip(parts[1]);
      assert ':' !in v by {
        assert multiset(v)[':'] == multiset(Strip(parts[1]))[':'] == 0;
      }
      Ok(v)
  }

  /** The duration text is taken from the stretch after the first ':' up to the next ':' or the end. */
  lemma {:induction false} DurationTextIsSecondField(txt: string)
    requires ':' in txt
    ensures var i := FirstIndex(txt, ':') + 1;
      && i <= |txt|
      && DurationText(txt).Ok?
      && DurationText(txt).value == RemoveAll(Strip(txt[i..i + FirstIndex(txt[i..], ':')]), 's')
  {
    SecondPiece(txt, ':');
    var i := FirstIndex(txt, ':') + 1;
    var field := txt[i..i + FirstIndex(txt[i..], ':')];
    var piece := Split(txt, ':')[1];
    assert piece == field;
    assert Strip(piece) == Strip(field);
    assert DurationText(txt) == Ok(RemoveAll(Strip(piece), 's'));
  }

  /** The value line `line` gives `duration`, parsing numbers with `parse` (Python's `float`). */
  function LineValue(line: string, parse: string -> Option<real>): Result<real, Fault>
    requires IsDurationLine(Strip(line))
  {
    match DurationText(Strip(line))
    case Err(e) => Err(e)
    case Ok(t) => if parse(t).None? then Err(BadNumber) else Ok(parse(t).value)
  }

  /** `duration` after the `for line in f` loop over `lines`: the value of the last Duration line,
      `None` when there is none, or the failure of the first Duration line that cannot be read. */
  function DurationOf(lines: seq<string>, parse: string -> Option<real>): Result<Option<real>, Fault>
  {
    if lines == [] then Ok(None)
    else
      var last := lines[|lines| - 1];
      match DurationOf(lines[..|lines| - 1], parse)
      case Err(e) => Err(e)
      case Ok(d) =>
        if !IsDurationLine(Strip(last)) then Ok(d)
        else match LineValue(last, parse)
          case Err(e) => Err(e)
          case Ok(v) => Ok(Some(v))
  }

  /** The frame rate `main` passes to `display_face`, from the number of frames and the contents
      of `info.txt` (`None` when the file does not exist). */
  function RateOf(frameCount: nat, info: Option<seq<string>>, parse: string -> Option<real>): Result<real, Fault> {
    if info.None? then Ok(DefaultRate)
    else match DurationOf(info.value, parse)
      case Err(e) => Err(e)
      case Ok(None) => Ok(DefaultRate)
      case Ok(Some(d)) => if d == 0.0 then Err(ZeroDuration) else Ok(frameCount as real / d)
  }

  /** The scan of `info.txt` and the choice of rate, as `main` performs them. */
  method DeriveFrameRate(frameCount: nat, info: Option<seq<string>>, parse: string -> Option<real>)
    returns (rate: Result<real, Fault>)
    ensures rate == RateOf(frameCount, info, parse)
  {
    if info.None? {
      return Ok(DefaultRate);
    }
    var lines := info.value;
    var duration: Option<real> := None;
    var n := 0;
    while n < |lines|
      invariant 0 <= n <= |lines|
      invariant DurationOf(lines[..n], parse) == Ok(duration)
    {
      var txt := Strip(lines[n]);
      ScanStep(lines, n, parse);
      if IsDurationLine(txt) {
        var text := DurationText(txt);
        if text.Err? {
          ErrorPersists(lines, n + 1, parse);
          return Err(text.error);
        }
        var value := parse(text.value);
        if value.None? {
          ErrorPersists(lines, n + 1, parse);
          return Err(BadNumber);
        }
        duration := value;
      }
      n := n + 1;
    }
    assert lines[..n] == lines;
    if duration.None? {
      rate := Ok(DefaultRate);
    } else if duration.value == 0.0 {
      rate := Err(ZeroDuration);
    } else {
      rate := Ok(frameCount as real / duration.value);
    }
  }

  /** One more line of the scan. */
  lemma ScanStep(lines: seq<string>, n: nat, parse: string -> Option<real>)
    requires n < |lines|
    ensures var prev := DurationOf(lines[..n], parse);
      DurationOf(lines[..n + 1], parse) ==
        if prev.Err? || !IsDurationLine(Strip(lines[n])) then prev
        else match LineValue(lines[n], parse)
          case Err(e) => Err(e)
          case Ok(v) => Ok(Some(v))
  {
    assert lines[..n + 1][..n] == lines[..n];
  }

  /** Once a prefix of the lines fails, the whole scan fails with the same fault. */
  lemma {:induction false} ErrorPersists(lines: seq<string>, n: nat, parse: string -> Option<real>)
    requires n <= |lines| && DurationOf(lines[..n], parse).Err?
    ensures DurationOf(lines, parse) == DurationOf(lines[..n], parse)
    decreases |lines| - n
  {
    if n < |lines| {
      var longer := lines[..n + 1];
      assert longer[..n] == lines[..n];
      ErrorPersists(lines, n + 1, parse);
    } else {
      assert lines[..n] == lines;
    }
  }

  /** Without `info.txt`, or without a line containing "Duration", the rate is 30. */
  lemma {:induction false} NoDurationDefault(frameCount: nat, info: Option<seq<string>>, parse: string -> Option<real>)
    requires info.Some? ==> forall k :: 0 <= k < |info.value| ==> !IsDurationLine(Strip(info.value[k]))
    ensures RateOf(frameCount, info, parse) == Ok(DefaultRate)
  {
    if info.Some? {
      NoDurationLines(info.value, parse);
    }
  }

  lemma {:induction false} NoDurationLines(lines: seq<string>, parse: string -> Option<real>)
    requires forall k :: 0 <= k < |lines| ==> !IsDurationLine(Strip(lines[k]))
    ensures DurationOf(lines, parse) == Ok(None)
  {
    if lines != [] {
      var init := lines[..|lines| - 1];
      assert forall k :: 0 <= k < |init| ==> init[k] == lines[k];
      NoDurationLines(init, parse);
    }
  }

  /** The last Duration line wins: lines after it that do not mention "Duration" change nothing. */
  lemma {:induction false} LastDurationWins(lines: seq<string>, n: nat, parse: string -> Option<real>)
    requires n < |lines| && IsDurationLine(Strip(lines[n]))
    requires DurationOf(lines[..n + 1], parse).Ok?
    requires forall k :: n < k < |lines| ==> !IsDurationLine(Strip(lines[k]))
    ensures DurationOf(lines, parse) == Ok(Some(LineValue(lines[n], parse).value))
    decreases |lines|
  {
    if |lines| == n + 1 {
      assert lines[..n + 1] == lines;
      var init := lines[..n];
      assert lines[..|lines| - 1] == init;
    } else {
      var init := lines[..|lines| - 1];
      assert init[..n + 1] == lines[..n + 1];
      LastDurationWins(init, n, parse);
    }
  }

  /** With a readable, nonzero duration `d` the rate is the number of frames divided by `d`. */
  lemma RateFromDuration(frameCount: nat, lines: seq<string>, parse: string -> Option<real>, d: real)
    requires DurationOf(lines, parse) == Ok(Some(d)) && d != 0.0
    ensures RateOf(frameCount, Some(lines), parse) == Ok(frameCount as real / d)
  {
  }
}
