/**
  The persisted "last logged" timestamp of the live detector: the state
  file that `save_last_ts` writes with `str(float(ts))` and that
  `load_last_ts` reads back, falling back to 0.0 ("never logged").
 */
module LastTimestamp {
  import opened Wrappers
  import opened Decimal
  import Text

  /** What reading the state file gives: no file, a read that raised, or its text. */
  datatype LastFile = Missing | Unreadable | Contents(text: string)

  /**
    A reading of `time.time()` as Python prints it: whole seconds, a point,
    and at least one fractional digit.
   */
  datatype Stamp = Stamp(whole: nat, frac: string)

  type Timestamp = t: Stamp | |t.frac| >= 1 && AllDigits(t.frac) witness Stamp(0, "0")

  /** The number of seconds a reading stands for. */
  function Seconds(t: Timestamp): (secs: real)
    ensures t.whole as real <= secs
  {
    PrintedValue(false, t.whole, t.frac)
  }

  /**
    Python's `float(s)` on text that has already been stripped: the whole
    text must be one number, otherwise `ValueError` (here `None`).
   */
  function ParseFloat(s: string): (r: Option<real>)
    ensures r.Some? ==> StartsNumber(s)
    ensures r.Some? <==> ScanDecimal(s).Some? && ScanDecimal(s).value.length == |s|
    ensures r.Some? ==> r.value == ScanDecimal(s).value.value
  {
    match ScanDecimal(s)
    case Some(sc) => if sc.length == |s| then Some(sc.value) else None
    case None => None
  }

  /**
    `load_last_ts`: the value the state file holds, or 0.0 when the file is
    missing, cannot be read, is blank after stripping, or does not parse.
   */
  function LoadLastTs(f: LastFile): (ts: real)
    ensures f.Missing? || f.Unreadable? ==> ts == 0.0
    ensures f.Contents? && Text.AllSpace(f.text) ==> ts == 0.0
    ensures f.Contents? && ParseFloat(Text.Trim(f.text)).None? ==> ts == 0.0
    ensures ts != 0.0 ==> f.Contents? && ParseFloat(Text.Trim(f.text)) == Some(ts)
    ensures f.Contents? && ParseFloat(Text.Trim(f.text)).Some? ==> ts == ParseFloat(Text.Trim(f.text)).value
  {
    match f
    case Missing => 0.0
    case Unreadable => 0.0
    case Contents(text) =>
      var s := Text.Trim(text);
      if s == [] then 0.0 else ParseFloat(s).GetOr(0.0)
  }

  /** `str(float(ts))` for a reading. */
  function FormatStamp(t: Timestamp): string {
    Printed(false, t.whole, t.frac)
  }

  /** The state file after a successful `save_last_ts(path, ts)`: it holds only the new text. */
  function Saved(t: Timestamp): LastFile {
    Contents(FormatStamp(t))
  }

  /**
    The text `save_last_ts` writes has no whitespace for `strip()` to
    remove, and `float()` parses it back to exactly the reading.
   */
  lemma ParseFormatted(t: Timestamp)
    ensures Text.Trim(FormatStamp(t)) == FormatStamp(t)
    ensures ParseFloat(FormatStamp(t)) == Some(Seconds(t))
  {
    var text := FormatStamp(t);
    var w := NatDigits(t.whole);
    assert text[0] == w[0];
    assert text[|text| - 1] == t.frac[|t.frac| - 1];
    Text.TrimOfTrimmed(text);
    ScanPrinted(false, t.whole, t.frac);
  }

  /** What `save_last_ts` writes, `load_last_ts` reads back: the restart keeps the cooldown. */
  lemma LoadSaved(t: Timestamp)
    ensures LoadLastTs(Saved(t)) == Seconds(t)
  {
    ParseFormatted(t);
  }
}
