/**
 * The per-meter constants of the session: the two supported meters, the
 * byte that ends each response frame, the serial speed, the commands sent
 * right after the port opens, and the command that asks for a reading.
 */
module Meter {
  import opened Wrappers
  import opened Sequences
  import opened Text
  import opened Numbers
  import opened Utf8

  /** The two supported conductivity meters. */
  datatype MeterType = ThermoOrionEC112 | EdaqEPU357

  /**
   * The terminator of a response frame: '\n' for the EPU357, '>' for the
   * EC112. Both are ASCII; only the EPU357's is whitespace, so trimming
   * removes it from a response while the EC112's stays at the end.
   */
  function Terminator(meter: MeterType): (t: byte)
    ensures t < 0x80
    ensures IsSpace(t as int as char) <==> meter == EdaqEPU357
  {
    match meter
    case EdaqEPU357 => '\n' as int as byte
    case ThermoOrionEC112 => '>' as int as byte
  }

  /** The serial speed the port is configured with before it is opened. */
  function BaudRate(meter: MeterType): int {
    match meter
    case EdaqEPU357 => 115200
    case ThermoOrionEC112 => 9600
  }

  /** The local date and time, as QDateTime::currentDateTime reports it. */
  datatype DateTime = DateTime(year: nat, month: nat, day: nat, hour: nat, minute: nat, second: nat)

  /** Every field fits the width it is formatted in: four digits of year, two of everything else. */
  predicate FitsFormat(now: DateTime) {
    now.year < 10000 && now.month < 100 && now.day < 100
    && now.hour < 100 && now.minute < 100 && now.second < 100
  }

  /**
   * The EC112 clock-setting command "SETRTC YYYY-MM-DD-hh-mm-ss-3\r",
   * each field zero-padded to its width.
   */
  function SetRtcCommand(now: DateTime): (cmd: string)
    ensures |cmd| >= 29 && cmd[..7] == "SETRTC " && cmd[|cmd| - 3..] == "-3\r"
  {
    var fields := Fields(now);
    StampEnds(fields);
    Stamp(fields)
  }

  /** The six fields of a date and time, each zero-padded to its width. */
  function Fields(now: DateTime): (f: seq<string>)
    ensures |f| == 6 && |f[0]| >= 4 && forall i :: 1 <= i < 6 ==> |f[i]| >= 2
    ensures forall i :: 0 <= i < 6 ==> AllDigits(f[i])
  {
    var y, mo, d := Pad(now.year, 4), Pad(now.month, 2), Pad(now.day, 2);
    var h, mi, s := Pad(now.hour, 2), Pad(now.minute, 2), Pad(now.second, 2);
    SixFields(y, mo, d, h, mi, s);
    [y, mo, d, h, mi, s]
  }

  lemma SixFields(y: string, mo: string, d: string, h: string, mi: string, s: string)
    requires |y| >= 4 && |mo| >= 2 && |d| >= 2 && |h| >= 2 && |mi| >= 2 && |s| >= 2
    requires AllDigits(y) && AllDigits(mo) && AllDigits(d) && AllDigits(h) && AllDigits(mi) && AllDigits(s)
    ensures var f := [y, mo, d, h, mi, s];
      (forall i :: 1 <= i < 6 ==> |f[i]| >= 2) && (forall i :: 0 <= i < 6 ==> AllDigits(f[i]))
  {
    var f := [y, mo, d, h, mi, s];
    forall i | 0 <= i < 6
      ensures (i >= 1 ==> |f[i]| >= 2) && AllDigits(f[i])
    {
      if i == 0 {
      } else if i == 1 {
      } else if i == 2 {
      } else if i == 3 {
      } else if i == 4 {
      } else {
        assert i == 5;
      }
    }
  }

  /** The clock-setting layout around six formatted fields. */
  function Stamp(f: seq<string>): string
    requires |f| == 6
  {
    "SETRTC " + f[0] + "-" + f[1] + "-" + f[2] + "-" + f[3] + "-" + f[4] + "-" + f[5] + "-3\r"
  }

  /** The layout is the fields joined with '-', between the head "SETRTC " and the tail "-3\r". */
  lemma StampJoin(f: seq<string>)
    requires |f| == 6
    ensures Stamp(f) == "SETRTC " + Join(f, '-') + "-3\r"
  {
    var j5 := f[5];
    assert Join(f[5..], '-') == j5;
    var j4 := f[4] + "-" + j5;
    assert Join(f[4..], '-') == j4 by { assert f[4..][1..] == f[5..]; }
    var j3 := f[3] + "-" + j4;
    assert Join(f[3..], '-') == j3 by { assert f[3..][1..] == f[4..]; }
    var j2 := f[2] + "-" + j3;
    assert Join(f[2..], '-') == j2 by { assert f[2..][1..] == f[3..]; }
    var j1 := f[1] + "-" + j2;
    assert Join(f[1..], '-') == j1 by { assert f[1..][1..] == f[2..]; }
    var j0 := f[0] + "-" + j1;
    assert Join(f, '-') == j0;
    assert "SETRTC " + f[0] + "-" + f[1] + "-" + f[2] + "-" + f[3] + "-" + f[4] + "-" + f[5]
        == "SETRTC " + j0;
  }

  lemma StampEnds(f: seq<string>)
    requires |f| == 6 && |f[0]| >= 4 && forall i :: 1 <= i < 6 ==> |f[i]| >= 2
    ensures var cmd := Stamp(f);
      |cmd| >= 29 && cmd[..7] == "SETRTC " && cmd[|cmd| - 3..] == "-3\r"
  {
    var body := f[0] + "-" + f[1] + "-" + f[2] + "-" + f[3] + "-" + f[4] + "-" + f[5];
    assert Stamp(f) == "SETRTC " + body + "-3\r";
    Enclosed("SETRTC ", body, "-3\r");
  }

  /** The head, the body and the tail of a concatenation can each be cut back out. */
  lemma Enclosed(head: string, body: string, tail: string)
    ensures var s := head + body + tail;
      s[..|head|] == head && s[|s| - |tail|..] == tail && s[|head|..|s| - |tail|] == body
  {
  }

  /**
   * Reads a clock-setting command back: after the head "SETRTC " and
   * before the tail "-3\r", six fields of digits separated by '-'.
   */
  function DecodeSetRtc(cmd: string): Option<DateTime> {
    if |cmd| >= 10 && cmd[..7] == "SETRTC " && cmd[|cmd| - 3..] == "-3\r" then
      var f := Split(cmd[7..|cmd| - 3], '-');
      if |f| == 6 && forall i :: 0 <= i < 6 ==> AllDigits(f[i]) then
        Some(DateTime(DigitsValue(f[0]), DigitsValue(f[1]), DigitsValue(f[2]),
                      DigitsValue(f[3]), DigitsValue(f[4]), DigitsValue(f[5])))
      else None
    else None
  }

  /** Every date and time survives the command text unchanged. */
  lemma SetRtcRoundTrip(now: DateTime)
    ensures DecodeSetRtc(SetRtcCommand(now)) == Some(now)
  {
    var f := Fields(now);
    var cmd := SetRtcCommand(now);
    StampJoin(f);
    Enclosed("SETRTC ", Join(f, '-'), "-3\r");
    forall i | 0 <= i < 6
      ensures '-' !in f[i]
    {
      DigitsHaveNoMarkers(f[i]);
    }
    SplitJoin(f, '-');
    assert cmd[7..|cmd| - 3] == Join(f, '-');
  }

  /** A date and time whose fields fit their widths gives a command of exactly 29 characters. */
  lemma SetRtcLength(now: DateTime)
    requires FitsFormat(now)
    ensures |SetRtcCommand(now)| == 29
  {
    var f := Fields(now);
    FieldWidths(now);
    StampJoin(f);
    assert |Join(f, '-')| == 19 by {
      assert f[5..] == [f[5]] && f[4..][1..] == f[5..] && f[3..][1..] == f[4..];
      assert f[2..][1..] == f[3..] && f[1..][1..] == f[2..];
    }
  }

  lemma FieldWidths(now: DateTime)
    requires FitsFormat(now)
    ensures |Pad(now.year, 4)| == 4 && |Pad(now.month, 2)| == 2 && |Pad(now.day, 2)| == 2
    ensures |Pad(now.hour, 2)| == 2 && |Pad(now.minute, 2)| == 2 && |Pad(now.second, 2)| == 2
  {
    assert Pow10(4) == 10000 && Pow10(2) == 100;
    PadWidth(now.year, 4);
    PadWidth(now.month, 2);
    PadWidth(now.day, 2);
    PadWidth(now.hour, 2);
    PadWidth(now.minute, 2);
    PadWidth(now.second, 2);
  }

  /**
   * The commands sent, in order, once the port is open: for the EPU357 a
   * bare carriage return, the range, the cell constant and the switch to
   * on-demand sampling; for the EC112 the clock setting.
   */
  function InitCommands(meter: MeterType, now: DateTime): seq<string> {
    match meter
    case EdaqEPU357 => ["\r", "set range 20 auto\r", "set k 1.0\r", "sample ascii #\r"]
    case ThermoOrionEC112 => [SetRtcCommand(now)]
  }

  /** The command that asks the meter for one reading. */
  function MeasurementCommand(meter: MeterType): string {
    match meter
    case EdaqEPU357 => "#\r"
    case ThermoOrionEC112 => "GETMEAS\r"
  }

  /** Every command the session ever sends ends with a carriage return. */
  lemma CommandsEndWithReturn(meter: MeterType, now: DateTime)
    ensures forall cmd :: cmd in InitCommands(meter, now) + [MeasurementCommand(meter)] ==>
      cmd != [] && cmd[|cmd| - 1] == '\r'
  {
    if meter == ThermoOrionEC112 {
      var rtc := SetRtcCommand(now);
      assert rtc[|rtc| - 1] == rtc[|rtc| - 3..][2];
    }
  }

  /**
   * Every command the session ever sends is plain ASCII, so its UTF-8
   * encoding has one byte per character.
   */
  lemma CommandsAreAscii(meter: MeterType, now: DateTime)
    ensures forall cmd :: cmd in InitCommands(meter, now) + [MeasurementCommand(meter)] ==> IsAscii(cmd)
  {
    ShortCommandsAscii();
    if meter == ThermoOrionEC112 {
      SetRtcAscii(now);
    } else {
      RangeCommandAscii();
      SamplingCommandsAscii();
    }
  }

  lemma ShortCommandsAscii()
    ensures IsAscii("\r") && IsAscii("#\r") && IsAscii("GETMEAS\r")
  {
  }

  lemma RangeCommandAscii()
    ensures IsAscii("set range 20 auto\r")
  {
  }

  lemma SamplingCommandsAscii()
    ensures IsAscii("set k 1.0\r") && IsAscii("sample ascii #\r")
  {
  }

  lemma SetRtcAscii(now: DateTime)
    ensures IsAscii(SetRtcCommand(now))
  {
    var f := Fields(now);
    forall i | 0 <= i < 6
      ensures IsAscii(f[i])
    {
      DigitsAscii(f[i]);
    }
    StampAscii(f);
  }

  lemma StampAscii(f: seq<string>)
    requires |f| == 6 && forall i :: 0 <= i < 6 ==> IsAscii(f[i])
    ensures IsAscii(Stamp(f))
  {
    var y, mo, d, h, mi, s := f[0], f[1], f[2], f[3], f[4], f[5];
    assert IsAscii(y) && IsAscii(mo) && IsAscii(d) && IsAscii(h) && IsAscii(mi) && IsAscii(s);
  }

  lemma DigitsAscii(s: string)
    requires AllDigits(s)
    ensures IsAscii(s)
  {
    forall c | c in s
      ensures c as int < 0x80
    {
      var i :| 0 <= i < |s| && s[i] == c;
    }
  }
}
