/**
  SMPTE-style `HH:MM:SS:FF` timecodes at the fixed frame rate of the derush
  sheet (`tc_to_frames` and `frames_to_tc` in derush_sheet.py).
 */
module Timecodes {
  import opened Base
  import opened Text

  /** Frames per second, fixed for the whole run. */
  const FPS: nat := 25

  /** The four numeric fields of a timecode, in display order. */
  datatype Timecode = Timecode(hours: int, minutes: int, seconds: int, frames: int)

  /** Fields that `frames_to_tc` can produce: hours are unbounded (not wrapped at 24). */
  predicate Canonical(t: Timecode) {
    0 <= t.minutes < 60 && 0 <= t.seconds < 60 && 0 <= t.frames < FPS
  }

  /** The absolute frame count a timecode denotes. */
  function ToFrames(t: Timecode): int {
    (t.hours * 3600 + t.minutes * 60 + t.seconds) * FPS + t.frames
  }

  /**
    Splits a frame count into fields with floor division and modulo, as
    `frames_to_tc` does; for a negative count only the hours go negative.
   */
  function Decompose(n: int): (t: Timecode)
    ensures Canonical(t)
    ensures ToFrames(t) == n
    ensures t.hours >= 0 <==> n >= 0
  {
    var totalSeconds := n / FPS;
    var withinHour := totalSeconds % 3600;
    assert totalSeconds == 3600 * (totalSeconds / 3600) + withinHour;
    assert withinHour == 60 * (withinHour / 60) + withinHour % 60;
    assert withinHour % 60 == totalSeconds % 60;
    Timecode(totalSeconds / 3600, withinHour / 60, totalSeconds % 60, n % FPS)
  }

  /** Canonical fields are the only ones denoting their frame count. */
  lemma DecomposeToFrames(t: Timecode)
    requires Canonical(t)
    ensures Decompose(ToFrames(t)) == t
  {
    var n := ToFrames(t);
    var totalSeconds := t.hours * 3600 + t.minutes * 60 + t.seconds;
    assert n == totalSeconds * 25 + t.frames;
    assert n / 25 == totalSeconds && n % 25 == t.frames;
    var withinHour := t.minutes * 60 + t.seconds;
    assert totalSeconds == t.hours * 3600 + withinHour && 0 <= withinHour < 3600;
    assert totalSeconds / 3600 == t.hours && totalSeconds % 3600 == withinHour;
    assert withinHour / 60 == t.minutes;
    assert totalSeconds == (t.hours * 60 + t.minutes) * 60 + t.seconds;
    assert totalSeconds % 60 == t.seconds;
  }

  /** The four fields zero-padded to two digits and joined by colons. */
  function Render(t: Timecode): string {
    Join(Fields(t), ':')
  }

  /** The four fields of a timecode, each formatted `02d`. */
  function Fields(t: Timecode): (f: seq<string>)
    ensures |f| == 4
    ensures forall k :: 0 <= k < 4 ==> ':' !in f[k]
  {
    var f := [Pad2(t.hours), Pad2(t.minutes), Pad2(t.seconds), Pad2(t.frames)];
    assert forall k :: 0 <= k < 4 ==> forall j :: 0 <= j < |f[k]| ==> f[k][j] != ':';
    f
  }

  /** Four fields read with `int`; `None` when one of them is not an integer. */
  function ReadFields(fields: seq<string>): Option<Timecode>
    requires |fields| == 4
  {
    match (ParseInt(fields[0]), ParseInt(fields[1]), ParseInt(fields[2]), ParseInt(fields[3]))
    case (Some(hh), Some(mm), Some(ss), Some(ff)) => Some(Timecode(hh, mm, ss, ff))
    case _ => None
  }

  /**
    `tc_to_frames`: splits on ':' and converts each field with `int`.
    `None` is the `ValueError` Python raises when there are not exactly four
    fields or a field is not an integer.
   */
  function TcToFrames(tc: string): Option<int> {
    var fields := Split(tc, ':');
    if |fields| != 4 then None
    else
      match ReadFields(fields)
      case Some(t) => Some(ToFrames(t))
      case None => None
  }

  /** `frames_to_tc`. */
  function FramesToTc(n: int): string {
    Render(Decompose(n))
  }

  /** A rendered timecode splits back into its four formatted fields. */
  lemma SplitRender(t: Timecode)
    ensures Split(Render(t), ':') == Fields(t)
  {
    SplitJoin(Fields(t), ':');
  }

  /** Reading the formatted fields gives back the timecode. */
  lemma ReadFieldsOfFields(t: Timecode)
    ensures ReadFields(Fields(t)) == Some(t)
  {
    ParsePad2(t.hours);
    ParsePad2(t.minutes);
    ParsePad2(t.seconds);
    ParsePad2(t.frames);
  }

  /** Any four integer fields, padded and joined, read back as the frames they denote. */
  lemma TcToFramesOfRender(t: Timecode)
    ensures TcToFrames(Render(t)) == Some(ToFrames(t))
  {
    SplitRender(t);
    ReadFieldsOfFields(t);
  }

  /**
    `tc_to_frames` accepts a tag exactly when it splits on ':' into four
    integer literals, padded or not; on any other tag it raises.
   */
  lemma TcToFramesAccepts(tc: string)
    ensures TcToFrames(tc).Some? <==>
      |Split(tc, ':')| == 4 && forall k :: 0 <= k < 4 ==> IsIntLiteral(Split(tc, ':')[k])
  {
    var fields := Split(tc, ':');
    if |fields| == 4 {
      ParseIntAccepts(fields[0]);
      ParseIntAccepts(fields[1]);
      ParseIntAccepts(fields[2]);
      ParseIntAccepts(fields[3]);
    }
  }

  /** Whatever their spelling, four fields `int` reads as HH, MM, SS, FF denote ((HH*3600 + MM*60 + SS) * FPS) + FF. */
  lemma TcToFramesReads(tc: string, hh: int, mm: int, ss: int, ff: int)
    requires |Split(tc, ':')| == 4
    requires ParseInt(Split(tc, ':')[0]) == Some(hh) && ParseInt(Split(tc, ':')[1]) == Some(mm)
    requires ParseInt(Split(tc, ':')[2]) == Some(ss) && ParseInt(Split(tc, ':')[3]) == Some(ff)
    ensures TcToFrames(tc) == Some((hh * 3600 + mm * 60 + ss) * FPS + ff)
  {
  }

  /** Round trip: reading back a formatted frame count gives the count, negative ones included. */
  lemma RoundTrip(n: int)
    ensures TcToFrames(FramesToTc(n)) == Some(n)
  {
    TcToFramesOfRender(Decompose(n));
  }

  /**
    Shape of `frames_to_tc` for a non-negative count: four colon-separated
    digit fields of at least two characters, minutes and seconds below 60,
    frames below FPS, and the fields add back up to the count.
   */
  lemma FramesToTcFields(n: int)
    requires n >= 0
    ensures var f := Split(FramesToTc(n), ':');
      && |f| == 4
      && (forall k :: 0 <= k < 4 ==> IsNumeral(f[k]) && |f[k]| >= 2)
      && |f[1]| == 2 && |f[2]| == 2 && |f[3]| == 2
      && ParseDigits(f[1]) < 60 && ParseDigits(f[2]) < 60 && ParseDigits(f[3]) < FPS
      && (ParseDigits(f[0]) * 3600 + ParseDigits(f[1]) * 60 + ParseDigits(f[2])) * FPS
         + ParseDigits(f[3]) == n
  {
    var t := Decompose(n);
    SplitRender(t);
    Pad2Natural(t.hours);
    Pad2Natural(t.minutes);
    Pad2Natural(t.seconds);
    Pad2Natural(t.frames);
    Pad2Width(t.minutes);
    Pad2Width(t.seconds);
    Pad2Width(t.frames);
  }

  /** The value of the two-digit field starting at `s[i]`. */
  function TwoDigitField(s: string, i: nat): nat
    requires i + 1 < |s| && IsDigit(s[i]) && IsDigit(s[i + 1])
  {
    10 * DigitValue(s[i]) + DigitValue(s[i + 1])
  }

  /** `HH:MM:SS:FF` with two digits per field, within the ranges `frames_to_tc` produces. */
  predicate IsCanonicalString(s: string) {
    && |s| == 11
    && s[2] == ':' && s[5] == ':' && s[8] == ':'
    && IsDigit(s[0]) && IsDigit(s[1]) && IsDigit(s[3]) && IsDigit(s[4])
    && IsDigit(s[6]) && IsDigit(s[7]) && IsDigit(s[9]) && IsDigit(s[10])
    && TwoDigitField(s, 3) < 60 && TwoDigitField(s, 6) < 60 && TwoDigitField(s, 9) < FPS
  }

  /** The four two-character fields of a canonical timecode string. */
  function CanonicalFields(s: string): seq<string>
    requires IsCanonicalString(s)
  {
    [s[0..2], s[3..5], s[6..8], s[9..11]]
  }

  /** A canonical timecode string is its four two-character fields joined by ':', and splits back into them. */
  lemma SplitCanonical(s: string)
    requires IsCanonicalString(s)
    ensures Join(CanonicalFields(s), ':') == s
    ensures Split(s, ':') == CanonicalFields(s)
  {
    var fields := CanonicalFields(s);
    JoinFour(s[0..2], s[3..5], s[6..8], s[9..11], ':');
    assert s == s[0..2] + [':'] + s[3..5] + [':'] + s[6..8] + [':'] + s[9..11];
    SplitJoin(fields, ':');
  }

  /** The fields of a canonical timecode string, as numbers. */
  function CanonicalValue(s: string): (t: Timecode)
    requires IsCanonicalString(s)
  {
    Timecode(TwoDigitField(s, 0), TwoDigitField(s, 3), TwoDigitField(s, 6), TwoDigitField(s, 9))
  }

  /** A two-digit field reads as its value and pads back to itself. */
  lemma TwoDigitFieldValue(s: string, i: nat)
    requires i + 1 < |s| && IsDigit(s[i]) && IsDigit(s[i + 1])
    ensures ParseInt(s[i..i + 2]) == Some(TwoDigitField(s, i))
    ensures Pad2(TwoDigitField(s, i)) == s[i..i + 2]
  {
    var f := s[i..i + 2];
    assert f == [s[i], s[i + 1]];
    Pad2TwoDigits(s[i], s[i + 1]);
    assert IsNumeral(f);
  }

  /** The fields of a canonical string read as their two-digit values. */
  lemma CanonicalFieldsRead(s: string)
    requires IsCanonicalString(s)
    ensures ReadFields(CanonicalFields(s)) == Some(CanonicalValue(s))
  {
    TwoDigitFieldValue(s, 0);
    TwoDigitFieldValue(s, 3);
    TwoDigitFieldValue(s, 6);
    TwoDigitFieldValue(s, 9);
  }

  /** The two-digit values of a canonical string pad back to its fields. */
  lemma CanonicalFieldsPadded(s: string)
    requires IsCanonicalString(s)
    ensures Fields(CanonicalValue(s)) == CanonicalFields(s)
  {
    TwoDigitFieldValue(s, 0);
    TwoDigitFieldValue(s, 3);
    TwoDigitFieldValue(s, 6);
    TwoDigitFieldValue(s, 9);
  }

  /** A canonical timecode string reads as the frame count of its field values. */
  lemma ReadCanonical(s: string)
    requires IsCanonicalString(s)
    ensures TcToFrames(s) == Some(ToFrames(CanonicalValue(s)))
  {
    SplitCanonical(s);
    CanonicalFieldsRead(s);
  }

  /** A canonical timecode string is the rendering of its field values. */
  lemma RenderCanonical(s: string)
    requires IsCanonicalString(s)
    ensures Canonical(CanonicalValue(s))
    ensures Render(CanonicalValue(s)) == s
  {
    SplitCanonical(s);
    CanonicalFieldsPadded(s);
  }

  /** `frames_to_tc` of the count that canonical fields denote renders exactly those fields. */
  lemma FormatCanonical(t: Timecode, n: int)
    requires Canonical(t) && ToFrames(t) == n
    ensures FramesToTc(n) == Render(t)
  {
    DecomposeToFrames(t);
  }

  /**
    A canonical timecode string denotes `((HH*3600 + MM*60 + SS) * FPS) + FF`
    frames, and formatting that count gives the same string back.
   */
  lemma CanonicalTimecode(s: string)
    requires IsCanonicalString(s)
    ensures TcToFrames(s) == Some((TwoDigitField(s, 0) * 3600 + TwoDigitField(s, 3) * 60
                                   + TwoDigitField(s, 6)) * FPS + TwoDigitField(s, 9))
    ensures FramesToTc(TcToFrames(s).value) == s
  {
    var t := CanonicalValue(s);
    var n := ToFrames(t);
    ReadCanonical(s);
    assert TcToFrames(s) == Some(n);
    RenderCanonical(s);
    FormatCanonical(t, n);
  }

  /** A rendered timecode spelled out from its four padded fields. */
  lemma RenderSpelled(t: Timecode, hh: string, mm: string, ss: string, ff: string)
    requires Pad2(t.hours) == hh && Pad2(t.minutes) == mm
    requires Pad2(t.seconds) == ss && Pad2(t.frames) == ff
    ensures Render(t) == hh + ":" + mm + ":" + ss + ":" + ff
  {
    assert Fields(t) == [hh, mm, ss, ff];
    JoinFour(hh, mm, ss, ff, ':');
  }

  /** `frames_to_tc` of the count that in-range fields denote, spelled out field by field. */
  lemma FramesToTcSpelled(t: Timecode, n: int, hh: string, mm: string, ss: string, ff: string)
    requires Canonical(t) && ToFrames(t) == n
    requires Pad2(t.hours) == hh && Pad2(t.minutes) == mm
    requires Pad2(t.seconds) == ss && Pad2(t.frames) == ff
    ensures FramesToTc(n) == hh + ":" + mm + ":" + ss + ":" + ff
  {
    FormatCanonical(t, n);
    RenderSpelled(t, hh, mm, ss, ff);
  }

  /**
    Hours are not wrapped at 24: one day of frames formats as hour 24.
    This and the other worked examples take their literal as a parameter
    pinned by `requires`, which keeps the solver from evaluating the whole
    formatter on a literal argument.
   */
  lemma HoursNotWrapped(n: int)
    requires n == 24 * 3600 * 25
    ensures FramesToTc(n) == "24:00:00:00"
  {
    Pad2Of(24, '2', '4');
    Pad2Of(0, '0', '0');
    FramesToTcSpelled(Timecode(24, 0, 0, 0), n, "24", "00", "00", "00");
  }

  /** One frame before zero formats with a negative hour field and the other fields wrapped. */
  lemma OneFrameBeforeZero(n: int)
    requires n == -1
    ensures FramesToTc(n) == "-1:59:59:24"
  {
    var t := Timecode(-1, 59, 59, 24);
    assert Decompose(n) == t;
    assert Digits(1) == "1";
    assert Pad2(-1) == "-1";
    Pad2TwoDigits('5', '9');
    Pad2TwoDigits('2', '4');
    RenderSpelled(t, "-1", "59", "59", "24");
  }
}
