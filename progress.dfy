/** Transfer progress: the bar drawn in status messages, the `pct|cur|tot`
    record a transfer writes to its status file and the pollers read back,
    and the names of the two status files of a message. */
module Progress {
  import opened Wrappers
  import opened Text
  import opened Files

  // ---------------------------------------------------------------------------
  // The progress bar

  const FilledGlyph: char := '\U{25B0}'
  const EmptyGlyph: char := '\U{25B1}'

  /** Python's `int(x)` on a float: truncation toward zero. */
  function Truncate(x: real): (r: int)
    ensures x >= 0.0 ==> r as real <= x < r as real + 1.0
    ensures x < 0.0 ==> r as real - 1.0 < x <= r as real
  {
    if x >= 0.0 then x.Floor else -((-x).Floor)
  }

  /** `create_progress_bar`: `int(20 * (p / 100))` filled glyphs, then
      `20 - filled` empty ones (none when that is negative), in backquoted
      brackets. */
  function ProgressBar(percentage: real): string {
    var filled := Truncate(20.0 * (percentage / 100.0));
    "`[" + Repeat(FilledGlyph, filled) + Repeat(EmptyGlyph, 20 - filled) + "]`"
  }

  /** For a percentage from 0 to 100 the bar has exactly 20 glyphs, of
      which the first `floor(p / 5)` are filled. */
  lemma ProgressBarInRange(percentage: real)
    requires 0.0 <= percentage <= 100.0
    ensures var filled := (percentage / 5.0).Floor;
      && 0 <= filled <= 20
      && ProgressBar(percentage)
         == "`[" + Repeat(FilledGlyph, filled) + Repeat(EmptyGlyph, 20 - filled) + "]`"
      && |ProgressBar(percentage)| == 24
  {
    assert 20.0 * (percentage / 100.0) == percentage / 5.0;
    var filled := (percentage / 5.0).Floor;
    assert filled as real <= percentage / 5.0 <= 20.0;
  }

  /** Above 100 the bar grows past 20 glyphs: no empty glyph is drawn and
      the filled ones are not capped. */
  lemma ProgressBarOverflows(percentage: real)
    requires percentage >= 105.0
    ensures |ProgressBar(percentage)| > 24
  {
    var filled := Truncate(20.0 * (percentage / 100.0));
    assert 20.0 * (percentage / 100.0) >= 21.0;
  }

  // ---------------------------------------------------------------------------
  // The status record

  /** The percentage `current * 100 / total` in tenths, rounded to the
      nearest tenth with halves rounded up. */
  function PercentTenths(current: nat, total: nat): (t: nat)
    requires total > 0
    ensures current <= total ==> t <= 1000
  {
    TenthsBound(current, total);
    (current * 2000 + total) / (2 * total)
  }

  lemma TenthsBound(current: nat, total: nat)
    requires total > 0
    ensures current <= total ==> (current * 2000 + total) / (2 * total) <= 1000
  {
    if current <= total {
      MulMono(current, total, 2000);
      DivBelow(current * 2000 + total, 2 * total, 1000);
    }
  }

  lemma MulMono(a: nat, b: nat, k: nat)
    requires a <= b
    ensures a * k <= b * k
  {
  }

  /** `a / b <= q` whenever `a < (q + 1) * b`. */
  lemma DivBelow(a: nat, b: nat, q: nat)
    requires b > 0 && a < (q + 1) * b
    ensures a / b <= q
  {
    var d := a / b;
    assert d * b <= a;
    MulCancel(d, q + 1, b);
  }

  lemma MulCancel(x: nat, y: nat, k: nat)
    requires x * k < y * k
    ensures x < y
  {
    if y <= x {
      MulMono(y, x, k);
    }
  }

  /** `f"{x:.1f}"` of a non-negative number given in tenths. */
  function FormatTenths(tenths: nat): (r: string)
    ensures '|' !in r
  {
    NatToString(tenths / 10) + "." + [DigitChar(tenths % 10)]
  }

  /** `f"{percentage:.1f}|{current}|{total}"`. */
  function StatusRecord(current: nat, total: nat): string
    requires total > 0
  {
    FormatTenths(PercentTenths(current, total)) + "|" + NatToString(current) + "|" + NatToString(total)
  }

  datatype StatusFields = StatusFields(percentText: string, current: int, total: int)

  /** The pollers' reading: the text split on `|`; a record with other than
      three fields is skipped, and one whose counts are not integers raises
      (and is skipped after logging). */
  function ParseStatus(text: string): (r: Option<StatusFields>)
    ensures r.Some? ==> |Split(text, '|')| == 3
  {
    var data := Split(text, '|');
    if |data| != 3 then None
    else
      match (ParseInt(data[1]), ParseInt(data[2]))
      case (Some(current), Some(total)) => Some(StatusFields(data[0], current, total))
      case _ => None
  }

  lemma NoBarInDigits(s: string)
    requires AllDigits(s)
    ensures '|' !in s
  {
    forall k | 0 <= k < |s| ensures s[k] != '|' {
      assert IsDigit(s[k]);
    }
  }

  /** A written record splits into exactly three fields and reads back as
      the percentage text, the current count and the total written. */
  lemma StatusRoundTrip(current: nat, total: nat)
    requires total > 0
    ensures |Split(StatusRecord(current, total), '|')| == 3
    ensures ParseStatus(StatusRecord(current, total))
      == Some(StatusFields(FormatTenths(PercentTenths(current, total)), current, total))
  {
    var p := FormatTenths(PercentTenths(current, total));
    var c := NatToString(current);
    var t := NatToString(total);
    assert Split(StatusRecord(current, total), '|') == [p, c, t] by {
      NoBarInDigits(c);
      NoBarInDigits(t);
      assert StatusRecord(current, total) == p + ['|'] + (c + ['|'] + t);
      SplitAtSep(p, '|', c + ['|'] + t);
      SplitAtSep(c, '|', t);
      SplitWithoutSep(t, '|');
    }
    assert ParseInt(c) == Some(current) by {
      ParseDigits(c);
      DigitsOfNat(current);
    }
    assert ParseInt(t) == Some(total) by {
      ParseDigits(t);
      DigitsOfNat(total);
    }
  }

  // ---------------------------------------------------------------------------
  // Status files

  datatype Direction = Down | Up

  function DirectionWord(d: Direction): string {
    match d
    case Down => "down"
    case Up => "up"
  }

  /** `f"{message.id}{type}status.txt"`. */
  function StatusFileName(messageId: int, d: Direction): (r: string)
    ensures |r| > 10 && r[|r| - 10..] == "status.txt"
  {
    IntToString(messageId) + DirectionWord(d) + "status.txt"
  }

  /** The download and the upload file of a message never coincide, even
      across messages. */
  lemma StatusNamesDistinct(a: int, b: int)
    ensures StatusFileName(a, Down) != StatusFileName(b, Up)
  {
    var x := StatusFileName(a, Down);
    var y := StatusFileName(b, Up);
    assert x[|x| - 11] == 'n';
    assert y[|y| - 11] == 'p';
  }

  /** One direction's file names identify the message. */
  lemma StatusNameInjective(a: int, b: int, d: Direction)
    requires StatusFileName(a, d) == StatusFileName(b, d)
    ensures a == b
  {
    var x := StatusFileName(a, d);
    var w := |DirectionWord(d)| + 10;
    assert x[..|x| - w] == IntToString(a);
    assert StatusFileName(b, d)[..|x| - w] == IntToString(b);
    IntToStringInjective(a, b);
  }

  /** The two status files of a message, download first. */
  function StatusFiles(messageId: int): (r: seq<string>)
    ensures |r| == 2 && r[0] != r[1]
  {
    StatusNamesDistinct(messageId, messageId);
    [StatusFileName(messageId, Down), StatusFileName(messageId, Up)]
  }

  /** What one call of the `progress` callback does. */
  datatype ProgressEffect = DivisionByZero | CancelRaised | StatusWritten(file: string, record: string)

  /** `progress`: the percentage is computed first (so a zero total raises
      before anything else), then a cancelled user's transfer is stopped,
      and otherwise the record is written to the direction's status file. */
  function ProgressStep(current: nat, total: nat, cancelled: bool, messageId: int, d: Direction): (r: ProgressEffect)
    ensures total == 0 <==> r == DivisionByZero
    ensures r == CancelRaised <==> total > 0 && cancelled
    ensures r.StatusWritten? ==>
      && r.file == StatusFileName(messageId, d)
      && ParseStatus(r.record).Some?
      && ParseStatus(r.record).value.current == current
      && ParseStatus(r.record).value.total == total
  {
    if total == 0 then DivisionByZero
    else if cancelled then CancelRaised
    else
      StatusRoundTrip(current, total);
      StatusWritten(StatusFileName(messageId, d), StatusRecord(current, total))
  }

  /** `cleanup_files`: removes the two status files of the message where
      they exist, and nothing else. */
  method CleanupFiles(fs: FileSystem, messageId: int)
    modifies fs
    ensures fs.files == old(fs.files) - {StatusFileName(messageId, Down), StatusFileName(messageId, Up)}
  {
    var names := StatusFiles(messageId);
    var i := 0;
    while i < |names|
      invariant 0 <= i <= |names|
      invariant fs.files == old(fs.files) - set k | 0 <= k < i :: names[k]
    {
      fs.RemoveIfExists(names[i]);
      i := i + 1;
    }
    assert (set k | 0 <= k < 2 :: names[k]) == {names[0], names[1]};
  }
}
