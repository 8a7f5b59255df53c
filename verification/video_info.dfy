/**
  The pure part of `get_video_info`: from what the probe reported, the
  tc-in, tc-out and duration strings of one clip.
 */
module VideoInfo {
  import opened Base
  import opened Text
  import opened Timecodes

  /** The zero timecode substituted when no start timecode is known. */
  const ZeroTimecode: string := "00:00:00:00"

  /** The duration string substituted when the probe fails. */
  const ZeroDuration: string := "00:00:00"

  const SecondsPerDay: nat := 86400

  /**
    The container duration as the source rounds it: `round(duration * FPS)`
    whole frames and `round(duration)` whole seconds.
   */
  datatype Rounded = Rounded(frames: int, seconds: int)

  /**
    What the two probe queries yield for one file. `ProbeFailed` is a
    subprocess error on either query; `duration` is `None` when the probe
    printed something `float` rejects. `tag` is the stripped timecode
    output, empty when the file carries no timecode tag.
   */
  datatype Probe = ProbeFailed | Probed(tag: string, duration: Option<Rounded>)

  /** The three metadata fields of one row: tc-in, tc-out and duration. */
  datatype Info = Info(tcIn: string, tcOut: string, duration: string)

  /** An exception that escapes `get_video_info` and ends the whole run. */
  datatype Fatal = UnreadableDuration | MalformedTimecode(tag: string)

  /** The out-point: the last frame of a clip of `durationFrames` frames, counted inclusively. */
  function OutPoint(inFrames: int, durationFrames: int): int {
    inFrames + durationFrames - 1
  }

  /** The out-point is the last of the clip's frames when the clip is laid out from its in-point. */
  lemma OutPointIsLastFrame(inFrames: int, durationFrames: nat)
    requires durationFrames >= 1
    ensures var clip := seq(durationFrames, k => inFrames + k);
      clip[0] == inFrames && clip[|clip| - 1] == OutPoint(inFrames, durationFrames)
  {
  }

  /** A one-frame clip ends on the frame it starts on. */
  lemma OneFrameClip(inFrames: int)
    ensures OutPoint(inFrames, 1) == inFrames
  {
  }

  /** For a fixed in-point, a longer clip has a strictly later out-point. */
  lemma OutPointStrictlyIncreasing(inFrames: int, shorter: int, longer: int)
    requires shorter < longer
    ensures OutPoint(inFrames, shorter) < OutPoint(inFrames, longer)
  {
  }

  /** `timedelta(seconds=s).seconds`: the part of `s` left after whole days. */
  function DaySeconds(seconds: int): (r: int)
    ensures 0 <= r < SecondsPerDay
    ensures (seconds - r) % SecondsPerDay == 0
  {
    seconds % SecondsPerDay
  }

  /** The `HH:MM:SS` duration string built from the within-day seconds. */
  function FormatDuration(seconds: int): string {
    var day := DaySeconds(seconds);
    Join([Pad2(day / 3600), Pad2(day % 3600 / 60), Pad2(day % 60)], ':')
  }

  /**
    The duration string is three two-digit fields: hours below 24, minutes and
    seconds below 60, together equal to the duration modulo one day.
   */
  lemma DurationFields(seconds: int)
    ensures var f := Split(FormatDuration(seconds), ':');
      && |f| == 3
      && (forall k :: 0 <= k < 3 ==> |f[k]| == 2 && IsNumeral(f[k]))
      && ParseDigits(f[0]) < 24 && ParseDigits(f[1]) < 60 && ParseDigits(f[2]) < 60
      && ParseDigits(f[0]) * 3600 + ParseDigits(f[1]) * 60 + ParseDigits(f[2])
         == seconds % SecondsPerDay
  {
    var day := DaySeconds(seconds);
    var h, m, s := day / 3600, day % 3600 / 60, day % 60;
    ClockFields(day);
    Pad2Natural(h);
    Pad2Natural(m);
    Pad2Natural(s);
    Pad2Width(h);
    Pad2Width(m);
    Pad2Width(s);
    var f := [Pad2(h), Pad2(m), Pad2(s)];
    SplitJoin(f, ':');
    assert Split(FormatDuration(seconds), ':') == f;
  }

  /** Hours, minutes and seconds of a time of day are in range and add back up to it. */
  lemma ClockFields(day: int)
    requires 0 <= day < SecondsPerDay
    ensures 0 <= day / 3600 < 24 && 0 <= day % 3600 / 60 < 60 && 0 <= day % 60 < 60
    ensures day / 3600 * 3600 + day % 3600 / 60 * 60 + day % 60 == day
  {
    var h, m, s := day / 3600, day % 3600 / 60, day % 60;
    assert day == 3600 * h + day % 3600;
    assert day % 3600 == 60 * m + (day % 3600) % 60;
    assert (day % 3600) % 60 == s;
  }

  /** Whole days vanish from the duration string. */
  lemma DurationDropsDays(seconds: int, days: int)
    ensures FormatDuration(seconds + SecondsPerDay * days) == FormatDuration(seconds)
  {
    var later := seconds + SecondsPerDay * days;
    var q, r := seconds / SecondsPerDay, seconds % SecondsPerDay;
    assert later == SecondsPerDay * (q + days) + r;
    assert later % SecondsPerDay == r;
    assert DaySeconds(later) == DaySeconds(seconds);
  }

  /**
    `get_video_info` on the probe's results: the three strings of the row,
    or the error that escapes it.
   */
  function GetVideoInfo(p: Probe): Result<Info, Fatal> {
    match p
    case ProbeFailed => Ok(Info(ZeroTimecode, ZeroTimecode, ZeroDuration))
    case Probed(tag, None) => Err(UnreadableDuration)
    case Probed(tag, Some(rounded)) =>
      if tag == "" then
        Ok(Info(ZeroTimecode, ZeroTimecode, FormatDuration(rounded.seconds)))
      else
        match TcToFrames(tag)
        case None => Err(MalformedTimecode(tag))
        case Some(inFrames) =>
          Ok(Info(tag, FramesToTc(OutPoint(inFrames, rounded.frames)), FormatDuration(rounded.seconds)))
  }

  /**
    What `get_video_info` promises. A probe failure gives the all-zero
    triple; a duration `float` rejects and a tag `tc_to_frames` rejects
    raise out of it. An empty tag gives the zero timecode for both in and
    out whatever the duration. Otherwise tc-in is the tag as printed and
    tc-out reads back as the inclusive out-point of the clip.
   */
  lemma VideoInfoOutcomes(p: Probe)
    ensures var r := GetVideoInfo(p);
      && (p.ProbeFailed? ==> r == Ok(Info(ZeroTimecode, ZeroTimecode, ZeroDuration)))
      && (p.Probed? ==> (r == Err(UnreadableDuration) <==> p.duration.None?))
      && (p.Probed? && p.duration.Some? && p.tag == "" ==>
            r == Ok(Info(ZeroTimecode, ZeroTimecode, FormatDuration(p.duration.value.seconds))))
      && (p.Probed? && p.duration.Some? && p.tag != "" ==>
            && (r.Ok? <==> TcToFrames(p.tag).Some?)
            && (r.Err? ==> r.error == MalformedTimecode(p.tag)))
  {
  }

  /**
    For a clip with a readable start timecode, tc-in is the tag as printed,
    tc-out reads back as `in + duration_frames - 1`, and the duration is
    formatted from the rounded seconds.
   */
  lemma TimecodeOut(p: Probe)
    requires p.Probed? && p.duration.Some? && p.tag != "" && TcToFrames(p.tag).Some?
    ensures GetVideoInfo(p).Ok?
    ensures GetVideoInfo(p).value.tcIn == p.tag
    ensures GetVideoInfo(p).value.tcOut
            == FramesToTc(OutPoint(TcToFrames(p.tag).value, p.duration.value.frames))
    ensures TcToFrames(GetVideoInfo(p).value.tcOut)
            == Some(OutPoint(TcToFrames(p.tag).value, p.duration.value.frames))
    ensures GetVideoInfo(p).value.duration == FormatDuration(p.duration.value.seconds)
  {
    RoundTrip(OutPoint(TcToFrames(p.tag).value, p.duration.value.frames));
  }

  /**
    For a fixed readable tag, the tc-out `get_video_info` writes denotes a
    strictly later frame for a clip of more frames.
   */
  lemma TcOutStrictlyIncreasing(tag: string, shorter: Rounded, longer: Rounded)
    requires tag != "" && TcToFrames(tag).Some?
    requires shorter.frames < longer.frames
    ensures GetVideoInfo(Probed(tag, Some(shorter))).Ok? && GetVideoInfo(Probed(tag, Some(longer))).Ok?
    ensures TcToFrames(GetVideoInfo(Probed(tag, Some(shorter))).value.tcOut).Some?
    ensures TcToFrames(GetVideoInfo(Probed(tag, Some(longer))).value.tcOut).Some?
    ensures TcToFrames(GetVideoInfo(Probed(tag, Some(shorter))).value.tcOut).value
            < TcToFrames(GetVideoInfo(Probed(tag, Some(longer))).value.tcOut).value
  {
    TimecodeOut(Probed(tag, Some(shorter)));
    TimecodeOut(Probed(tag, Some(longer)));
  }

  /** A missing timecode tag gives the zero timecode for both in and out, whatever the duration. */
  lemma MissingTagDefaults(duration: Rounded)
    ensures GetVideoInfo(Probed("", Some(duration))).Ok?
    ensures GetVideoInfo(Probed("", Some(duration))).value.tcIn == ZeroTimecode
    ensures GetVideoInfo(Probed("", Some(duration))).value.tcOut == ZeroTimecode
  {
  }

  /** The duration string of a duration below one minute. */
  lemma FormatShortDuration(seconds: int, field: string)
    requires 0 <= seconds < 60
    requires field == Pad2(seconds)
    ensures FormatDuration(seconds) == "00:00:" + field
  {
    Pad2TwoDigits('0', '0');
    assert Pad2(0) == "00";
    assert DaySeconds(seconds) == seconds;
    assert seconds / 3600 == 0 && seconds % 3600 / 60 == 0 && seconds % 60 == seconds;
    assert FormatDuration(seconds) == Join(["00", "00", field], ':');
    JoinThree("00", "00", field, ':');
  }

  /** The substituted zero timecode is what formatting frame zero gives. */
  lemma ZeroTimecodeIsFrameZero(n: int)
    requires n == 0
    ensures FramesToTc(n) == ZeroTimecode
  {
    Pad2Of(0, '0', '0');
    FramesToTcSpelled(Timecode(0, 0, 0, 0), n, "00", "00", "00", "00");
  }

  /** The substituted zero duration is what formatting zero seconds gives. */
  lemma ZeroDurationIsZeroSeconds()
    ensures FormatDuration(0) == ZeroDuration
  {
    Pad2TwoDigits('0', '0');
    FormatShortDuration(0, "00");
  }

  /** `01:00:00:00` is 90000 frames. */
  lemma OneHourTimecode(tc: string)
    requires tc == "01:00:00:00"
    ensures TcToFrames(tc) == Some(90000)
  {
    assert IsCanonicalString(tc);
    ReadCanonical(tc);
    assert CanonicalValue(tc) == Timecode(1, 0, 0, 0);
  }

  /** Frame 90249 formats as `01:00:09:24`. */
  lemma OneHourPlus249Frames(n: int)
    requires n == 90249
    ensures FramesToTc(n) == "01:00:09:24"
  {
    Pad2Of(1, '0', '1');
    Pad2Of(0, '0', '0');
    Pad2Of(9, '0', '9');
    Pad2Of(24, '2', '4');
    FramesToTcSpelled(Timecode(1, 0, 9, 24), n, "01", "00", "09", "24");
  }

  /** Ten seconds format as `00:00:10`. */
  lemma TenSeconds(seconds: int)
    requires seconds == 10
    ensures FormatDuration(seconds) == "00:00:10"
  {
    Pad2TwoDigits('1', '0');
    FormatShortDuration(seconds, "10");
  }

  /**
    A clip whose tag is `01:00:00:00` and whose duration rounds to 250
    frames and 10 seconds ends on `01:00:09:24` and lasts `00:00:10`.
   */
  lemma OneHourClipExample(tag: string, p: Probe)
    requires tag == "01:00:00:00"
    requires p == Probed(tag, Some(Rounded(250, 10)))
    ensures GetVideoInfo(p) == Ok(Info("01:00:00:00", "01:00:09:24", "00:00:10"))
  {
    OneHourTimecode(tag);
    assert TcToFrames(tag) == Some(90000);
    assert GetVideoInfo(p) == Ok(Info(tag, FramesToTc(90249), FormatDuration(10)));
    OneHourPlus249Frames(90249);
    TenSeconds(10);
  }

  /** Fields need not be padded: `1:0:0:0` is 90000 frames, like `01:00:00:00`. */
  lemma UnpaddedTimecode(tc: string)
    requires tc == "1:0:0:0"
    ensures TcToFrames(tc) == Some(90000)
  {
    JoinFour("1", "0", "0", "0", ':');
    assert Join(["1", "0", "0", "0"], ':') == tc;
    SplitJoin(["1", "0", "0", "0"], ':');
    assert ParseDigits("1") == 1 && ParseDigits("0") == 0;
    ParseIntAccepts("1");
    ParseIntAccepts("0");
    TcToFramesReads(tc, 1, 0, 0, 0);
  }

  /** `00:00:00:00` is frame zero. */
  lemma ZeroTimecodeIsRead(tc: string)
    requires tc == "00:00:00:00"
    ensures TcToFrames(tc) == Some(0)
  {
    assert IsCanonicalString(tc);
    ReadCanonical(tc);
    assert CanonicalValue(tc) == Timecode(0, 0, 0, 0);
  }

  /** A one-frame clip starting at `00:00:00:00` also ends on `00:00:00:00`. */
  lemma OneFrameClipAtZero(tag: string, seconds: int)
    requires tag == ZeroTimecode
    ensures GetVideoInfo(Probed(tag, Some(Rounded(1, seconds)))).Ok?
    ensures GetVideoInfo(Probed(tag, Some(Rounded(1, seconds)))).value.tcOut == ZeroTimecode
  {
    ZeroTimecodeIsRead(tag);
    var p := Probed(tag, Some(Rounded(1, seconds)));
    assert GetVideoInfo(p) == Ok(Info(tag, FramesToTc(OutPoint(0, 1)), FormatDuration(seconds)));
    ZeroTimecodeIsFrameZero(OutPoint(0, 1));
  }

  /** A clip of zero frames starting at `00:00:00:00` ends one frame before zero. */
  lemma ZeroFrameClipAtZero(tag: string, seconds: int)
    requires tag == ZeroTimecode
    ensures GetVideoInfo(Probed(tag, Some(Rounded(0, seconds)))).Ok?
    ensures GetVideoInfo(Probed(tag, Some(Rounded(0, seconds)))).value.tcOut == "-1:59:59:24"
  {
    ZeroTimecodeIsRead(tag);
    var p := Probed(tag, Some(Rounded(0, seconds)));
    assert GetVideoInfo(p) == Ok(Info(tag, FramesToTc(OutPoint(0, 0)), FormatDuration(seconds)));
    OneFrameBeforeZero(-1);
  }

  /** A drop-frame tag (`;` before the frames) is not four fields, so it escapes as an error. */
  lemma DropFrameTagIsFatal(tag: string, duration: Rounded)
    requires tag == "01:00:00;00"
    ensures GetVideoInfo(Probed(tag, Some(duration))) == Err(MalformedTimecode(tag))
  {
    var fields := ["01", "00", "00;00"];
    JoinThree("01", "00", "00;00", ':');
    assert Join(fields, ':') == tag;
    SplitJoin(fields, ':');
    assert TcToFrames(tag) == None;
  }
}
