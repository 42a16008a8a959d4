/**
  The log tailer and deduplicating inserter: it follows the detection log
  by byte offset, hands every complete `time,lat,lon` line to the
  inserter, keeps a trailing partial line for the next read (or flushes it
  when nothing more arrives), and skips inserts of a coordinate pair seen
  within the cooldown.

  File contents and sizes, the `Date.now()` readings and whether the
  database accepted an insert are parameters; timer callbacks and stream
  events are explicit method calls, each running to completion. The file
  is read as one character per byte.
 */
module LogIngest {
  import opened Wrappers
  import opened Decimal
  import opened Text

  /** The default server-side cooldown: 5 minutes, in milliseconds. */
  const COOLDOWN_MS: int := 5 * 60 * 1000

  // ---- Parsing a line ----

  /**
    `parseFloat(s)`: skip leading whitespace and read the longest number at
    the start; `None` stands for `NaN`.
   */
  function ParseFloatPrefix(s: string): (r: Option<real>)
    ensures r.Some? <==> StartsNumber(TrimStart(s))
  {
    var scan := ScanDecimal(TrimStart(s));
    if scan.None? then None else Some(scan.value.value)
  }

  /** What `processLine` makes of one line before the cooldown check. */
  datatype Parsed =
    | Blank
    | Malformed
    | BadCoordinates
    | Record(time: string, lat: real, lon: real)

  /**
    A line is trimmed and split at commas; blank lines are dropped, fewer
    than three fields is malformed, and the second and third fields must
    begin with a number.
   */
  function ParseLine(line: string): (p: Parsed)
    ensures p.Blank? <==> AllSpace(line)
    ensures !p.Blank? ==> (p.Malformed? <==> |Split(Trim(line), ',')| < 3)
    ensures p.Record? ==> var fields := Split(Trim(line), ',');
              |fields| >= 3 && p.time == Trim(fields[0])
              && ParseFloatPrefix(fields[1]) == Some(p.lat)
              && ParseFloatPrefix(fields[2]) == Some(p.lon)
  {
    var trimmed := Trim(line);
    if trimmed == [] then Blank else ParseFields(Split(trimmed, ','))
  }

  /** The fields of a non-blank line: at least three, the second and third numbers. */
  function ParseFields(fields: seq<string>): (p: Parsed)
    ensures !p.Blank? && (p.Malformed? <==> |fields| < 3)
    ensures p.Record? <==> |fields| >= 3 && ParseFloatPrefix(fields[1]).Some? && ParseFloatPrefix(fields[2]).Some?
    ensures p.Record? ==>
              p.time == Trim(fields[0])
              && ParseFloatPrefix(fields[1]) == Some(p.lat)
              && ParseFloatPrefix(fields[2]) == Some(p.lon)
  {
    if |fields| < 3 then Malformed
    else
      var lat := ParseFloatPrefix(fields[1]);
      var lon := ParseFloatPrefix(fields[2]);
      if lat.None? || lon.None? then BadCoordinates
      else Record(Trim(fields[0]), lat.value, lon.value)
  }

  /** A string that does not start with whitespace has nothing for `TrimStart` to drop. */
  lemma TrimStartNoSpace(s: string)
    requires s != [] && !IsSpace(s[0])
    ensures TrimStart(s) == s
  {
  }

  /**
    A line as the detector writes it, `time,lat,lon` with both coordinates
    printed as `[-]whole.frac`, parses back to its time and coordinates
    when the time has no comma and no surrounding whitespace.
   */
  lemma ParseWrittenLine(time: string, latNeg: bool, latWhole: nat, latFrac: string,
                         lonNeg: bool, lonWhole: nat, lonFrac: string)
    requires time != [] && ',' !in time && !IsSpace(time[0]) && !IsSpace(time[|time| - 1])
    requires |latFrac| >= 1 && AllDigits(latFrac) && |lonFrac| >= 1 && AllDigits(lonFrac)
    ensures var lat := Printed(latNeg, latWhole, latFrac);
            var lon := Printed(lonNeg, lonWhole, lonFrac);
            ParseLine(time + "," + lat + "," + lon)
              == Record(time, PrintedValue(latNeg, latWhole, latFrac), PrintedValue(lonNeg, lonWhole, lonFrac))
  {
    var lat := Printed(latNeg, latWhole, latFrac);
    var lon := Printed(lonNeg, lonWhole, lonFrac);
    var line := time + "," + lat + "," + lon;
    SplitWritten(time, latNeg, latWhole, latFrac, lonNeg, lonWhole, lonFrac);
    ParsePrinted(latNeg, latWhole, latFrac);
    ParsePrinted(lonNeg, lonWhole, lonFrac);
    TrimOfTrimmed(time);
    ParseThreeFields(line, [time, lat, lon], PrintedValue(latNeg, latWhole, latFrac),
                     PrintedValue(lonNeg, lonWhole, lonFrac));
  }

  /** A trimmed line of three fields parses to its fields. */
  lemma ParseThreeFields(line: string, fields: seq<string>, lat: real, lon: real)
    requires line != [] && Trim(line) == line && Split(line, ',') == fields && |fields| == 3
    requires Trim(fields[0]) == fields[0]
    requires ParseFloatPrefix(fields[1]) == Some(lat) && ParseFloatPrefix(fields[2]) == Some(lon)
    ensures ParseLine(line) == Record(fields[0], lat, lon)
  {
    assert ParseLine(line) == ParseFields(fields);
    var p := ParseFields(fields);
    assert Some(p.lat) == Some(lat);
    assert Some(p.lon) == Some(lon);
  }

  /** `parseFloat` reads a printed coordinate back exactly. */
  lemma ParsePrinted(negative: bool, whole: nat, frac: string)
    requires |frac| >= 1 && AllDigits(frac)
    ensures ParseFloatPrefix(Printed(negative, whole, frac)) == Some(PrintedValue(negative, whole, frac))
  {
    PrintedStartsNonSpace(negative, whole, frac);
    TrimStartNoSpace(Printed(negative, whole, frac));
    ScanPrinted(negative, whole, frac);
  }

  /** The written line is already trimmed and splits into its three fields. */
  lemma SplitWritten(time: string, latNeg: bool, latWhole: nat, latFrac: string,
                     lonNeg: bool, lonWhole: nat, lonFrac: string)
    requires time != [] && ',' !in time && !IsSpace(time[0])
    requires |lonFrac| >= 1 && AllDigits(latFrac) && AllDigits(lonFrac)
    ensures var lat := Printed(latNeg, latWhole, latFrac);
            var lon := Printed(lonNeg, lonWhole, lonFrac);
            var line := time + "," + lat + "," + lon;
            line != [] && Trim(line) == line && Split(line, ',') == [time, lat, lon]
  {
    var lat := Printed(latNeg, latWhole, latFrac);
    var lon := Printed(lonNeg, lonWhole, lonFrac);
    PrintedHasNoComma(latNeg, latWhole, latFrac);
    PrintedHasNoComma(lonNeg, lonWhole, lonFrac);
    var line := time + "," + lat + "," + lon;
    assert Join([lat, lon], ',') == lat + "," + lon by {
      assert [lat, lon][1..] == [lon];
    }
    assert [time, lat, lon][1..] == [lat, lon];
    assert line == Join([time, lat, lon], ',');
    SplitJoin([time, lat, lon], ',');
    var sign := (if lonNeg then "-" else "") + NatDigits(lonWhole) + ".";
    assert lon == sign + lonFrac;
    LineEdges(time, lat, sign, lonFrac);
    TrimOfTrimmed(line);
  }

  /** The first and last characters of `time,lat,signfrac`. */
  lemma LineEdges(time: string, lat: string, sign: string, frac: string)
    requires time != [] && frac != []
    ensures var line := time + "," + lat + "," + (sign + frac);
            line[0] == time[0] && line[|line| - 1] == frac[|frac| - 1]
  {
    var line := time + "," + lat + "," + (sign + frac);
    assert line == (time + "," + lat + "," + sign) + frac;
  }

  lemma PrintedHasNoComma(negative: bool, whole: nat, frac: string)
    requires AllDigits(frac)
    ensures ',' !in Printed(negative, whole, frac)
  {
    var s := Printed(negative, whole, frac);
    var w := NatDigits(whole);
    var sign := if negative then "-" else "";
    assert s == sign + w + "." + frac;
    forall i | 0 <= i < |s| ensures s[i] != ',' {
      if i < |sign| {
      } else if i < |sign| + |w| {
        assert s[i] == w[i - |sign|];
      } else if i > |sign| + |w| {
        assert s[i] == frac[i - |sign| - |w| - 1];
      }
    }
  }

  lemma PrintedStartsNonSpace(negative: bool, whole: nat, frac: string)
    ensures var s := Printed(negative, whole, frac);
            s != [] && !IsSpace(s[0])
  {
    var w := NatDigits(whole);
    assert !negative ==> Printed(negative, whole, frac)[0] == w[0];
  }

  // ---- The cooldown key ----

  /** `x.toFixed(6)`: the sign and the value rounded to millionths, halves rounded up. */
  datatype Fixed6 = Fixed6(negative: bool, micros: nat)

  function Abs(x: real): real {
    if x < 0.0 then -x else x
  }

  function ToFixed6(x: real): (f: Fixed6)
    ensures f.negative <==> x < 0.0
    ensures f.micros as real <= Abs(x) * 1000000.0 + 0.5 < f.micros as real + 1.0
  {
    var m := (Abs(x) * 1000000.0 + 0.5).Floor;
    Fixed6(x < 0.0, m)
  }

  /** The key `${lat.toFixed(6)},${lon.toFixed(6)}` of the cooldown table. */
  datatype CoordKey = CoordKey(lat: Fixed6, lon: Fixed6)

  function Key(lat: real, lon: real): (k: CoordKey)
    ensures k.lat.negative <==> lat < 0.0
    ensures k.lon.negative <==> lon < 0.0
    ensures k.lat.micros as real <= Abs(lat) * 1000000.0 + 0.5 < k.lat.micros as real + 1.0
    ensures k.lon.micros as real <= Abs(lon) * 1000000.0 + 0.5 < k.lon.micros as real + 1.0
  {
    CoordKey(ToFixed6(lat), ToFixed6(lon))
  }

  /** Two values share a `toFixed(6)` text only when they are less than a millionth apart. */
  lemma SameFixed6Close(x: real, y: real)
    requires ToFixed6(x) == ToFixed6(y)
    ensures -0.000001 < x - y < 0.000001
  {
  }

  // ---- The cooldown table ----

  /** A row of `LogDetections`. */
  datatype Row = Row(time: string, latitude: real, longitude: real)

  /** The cooldown map and the rows the database holds. */
  datatype Table = Table(lastInsert: map<CoordKey, int>, rows: seq<Row>)

  /** `lastInsertMap.get(key) || 0`: a key never inserted counts as inserted at time 0. */
  function LastInsert(m: map<CoordKey, int>, k: CoordKey): (t: int)
    ensures k in m ==> t == m[k]
    ensures k !in m ==> t == 0
  {
    if k in m then m[k] else 0
  }

  /** One parsed line, the `Date.now()` reading for it, and whether the insert reaches the database. */
  datatype Item = Item(parsed: Parsed, now: int, dbUp: bool)

  datatype Outcome =
    | Rejected
    | CoolingDown(key: CoordKey)
    | Attempted(key: CoordKey, at: int, stored: bool)

  /**
    The cooldown check of `processLine` on a parsed line: anything but a
    record changes nothing; a record whose key was inserted less than
    `cooldown` ms ago is skipped; otherwise the insert is attempted (a
    failed insert is only logged) and the key's time becomes `now` either
    way.
   */
  function Admit(cooldown: int, t: Table, p: Parsed, now: int, dbUp: bool): (r: (Table, Outcome))
    ensures !p.Record? ==> r == (t, Rejected)
    ensures p.Record? ==>
              var k := Key(p.lat, p.lon);
              (now - LastInsert(t.lastInsert, k) < cooldown <==> r == (t, CoolingDown(k)))
              && (now - LastInsert(t.lastInsert, k) >= cooldown ==>
                    r.1 == Attempted(k, now, dbUp)
                    && r.0.lastInsert == t.lastInsert[k := now]
                    && r.0.rows == t.rows + (if dbUp then [Row(p.time, p.lat, p.lon)] else []))
  {
    if !p.Record? then (t, Rejected)
    else
      var k := Key(p.lat, p.lon);
      if now - LastInsert(t.lastInsert, k) < cooldown then (t, CoolingDown(k))
      else
        var rows := if dbUp then t.rows + [Row(p.time, p.lat, p.lon)] else t.rows;
        (Table(t.lastInsert[k := now], rows), Attempted(k, now, dbUp))
  }

  /** `processLine` on one parsed line. */
  function ProcessLineSpec(cooldown: int, t: Table, it: Item): (Table, Outcome) {
    Admit(cooldown, t, it.parsed, it.now, it.dbUp)
  }

  /**
    A non-negative cooldown never moves a key's time back, and an attempt
    comes at least `cooldown` ms after the key's previous time.
   */
  lemma AdmitAdvances(cooldown: int, t: Table, it: Item, k: CoordKey)
    requires cooldown >= 0
    ensures var r := ProcessLineSpec(cooldown, t, it);
            LastInsert(r.0.lastInsert, k) >= LastInsert(t.lastInsert, k)
            && (r.1.Attempted? ==> r.1.at - LastInsert(t.lastInsert, r.1.key) >= cooldown
                                   && LastInsert(r.0.lastInsert, r.1.key) == r.1.at)
  {
  }

  /** Processing lines one after another. */
  function Run(cooldown: int, t: Table, items: seq<Item>): (r: (Table, seq<Outcome>))
    ensures |r.1| == |items|
    decreases |items|
  {
    if items == [] then (t, [])
    else
      var first := ProcessLineSpec(cooldown, t, items[0]);
      var rest := Run(cooldown, first.0, items[1..]);
      (rest.0, [first.1] + rest.1)
  }

  lemma {:induction false} RunAppend(cooldown: int, t: Table, items: seq<Item>, it: Item)
    ensures var before := Run(cooldown, t, items);
            var last := ProcessLineSpec(cooldown, before.0, it);
            Run(cooldown, t, items + [it]) == (last.0, before.1 + [last.1])
    decreases |items|
  {
    if items == [] {
      var only := ProcessLineSpec(cooldown, t, it);
      assert items + [it] == [it];
      assert [it][1..] == [];
      assert [it][0] == it;
      assert Run(cooldown, only.0, []) == (only.0, []);
      assert [only.1] + [] == [only.1];
      assert Run(cooldown, t, [it]) == (only.0, [only.1]);
      assert Run(cooldown, t, items) == (t, []);
      assert [] + [only.1] == [only.1];
    } else {
      var first := ProcessLineSpec(cooldown, t, items[0]);
      assert (items + [it])[0] == items[0];
      assert (items + [it])[1..] == items[1..] + [it];
      RunAppend(cooldown, first.0, items[1..], it);
      var before := Run(cooldown, first.0, items[1..]);
      assert Run(cooldown, t, items) == (before.0, [first.1] + before.1);
      var last := ProcessLineSpec(cooldown, before.0, it);
      assert Run(cooldown, t, items + [it]) == (last.0, [first.1] + (before.1 + [last.1]));
      assert [first.1] + (before.1 + [last.1]) == ([first.1] + before.1) + [last.1];
    }
  }

  /** The table after one more item of a run is that item processed on the table before it. */
  lemma RunPrefixStep(cooldown: int, t: Table, items: seq<Item>, i: nat)
    requires i < |items|
    ensures Run(cooldown, t, items[..i + 1]).0 == ProcessLineSpec(cooldown, Run(cooldown, t, items[..i]).0, items[i]).0
  {
    RunAppend(cooldown, t, items[..i], items[i]);
    assert items[..i + 1] == items[..i] + [items[i]];
  }

  /**
    With a non-negative cooldown, every insert attempted from a table is at
    least `cooldown` ms after that table's time for the key.
   */
  lemma {:induction false} AttemptsAfterCooldown(cooldown: int, t: Table, items: seq<Item>, j: nat)
    requires cooldown >= 0
    requires j < |items| && Run(cooldown, t, items).1[j].Attempted?
    ensures var o := Run(cooldown, t, items).1[j];
            o.at - LastInsert(t.lastInsert, o.key) >= cooldown
    decreases |items|
  {
    var first := ProcessLineSpec(cooldown, t, items[0]);
    var o := Run(cooldown, t, items).1[j];
    AdmitAdvances(cooldown, t, items[0], o.key);
    if j > 0 {
      assert o == Run(cooldown, first.0, items[1..]).1[j - 1];
      AttemptsAfterCooldown(cooldown, first.0, items[1..], j - 1);
    }
  }

  /**
    With a non-negative cooldown, two insert attempts for the same
    coordinates are at least `cooldown` ms apart, whatever the clock does.
   */
  lemma {:induction false} AttemptsSpaced(cooldown: int, t: Table, items: seq<Item>, i: nat, j: nat)
    requires cooldown >= 0
    requires i < j < |items|
    requires Run(cooldown, t, items).1[i].Attempted? && Run(cooldown, t, items).1[j].Attempted?
    requires Run(cooldown, t, items).1[i].key == Run(cooldown, t, items).1[j].key
    ensures Run(cooldown, t, items).1[j].at - Run(cooldown, t, items).1[i].at >= cooldown
    decreases |items|
  {
    var first := ProcessLineSpec(cooldown, t, items[0]);
    var outs := Run(cooldown, t, items).1;
    assert outs[1..] == Run(cooldown, first.0, items[1..]).1;
    if i == 0 {
      AdmitAdvances(cooldown, t, items[0], outs[0].key);
      AttemptsAfterCooldown(cooldown, first.0, items[1..], j - 1);
    } else {
      AttemptsSpaced(cooldown, first.0, items[1..], i - 1, j - 1);
    }
  }

  // ---- Cutting the read text into lines ----

  /** The pieces of `data` that a newline ended. */
  function Terminated(data: string): seq<string> {
    var pieces := Split(data, '\n');
    pieces[..|pieces| - 1]
  }

  /** The text after the last newline of `data`. */
  function Unterminated(data: string): (rest: string)
    ensures '\n' !in rest
  {
    var pieces := Split(data, '\n');
    pieces[|pieces| - 1]
  }

  /** The pieces without the `\r` of a `\r\n` line end. */
  function DropCRs(pieces: seq<string>): seq<string> {
    seq(|pieces|, i requires 0 <= i < |pieces| => DropCR(pieces[i]))
  }

  /**
    `data.split(/\r?\n/)` and, unless `data` ends with a newline, popping
    the last piece as the new leftover: the lines handed on are the
    newline-ended pieces (plus an empty line when `data` ends with a
    newline) and the leftover is the text after the last newline.
   */
  function ReadLines(data: string): (r: (seq<string>, string))
    ensures r.0 == DropCRs(Terminated(data)) + (if EndsWithNewline(data) then [""] else [])
    ensures r.1 == Unterminated(data)
  {
    var lines := SplitLines(data);
    var pieces := Split(data, '\n');
    assert forall i :: 0 <= i < |lines| - 1 ==> lines[i] == DropCR(pieces[i]);
    if !EndsWithNewline(data) then
      assert lines[..|lines| - 1] == DropCRs(Terminated(data));
      (lines[..|lines| - 1], lines[|lines| - 1])
    else
      LastPieceAfterNewline(data);
      assert lines == DropCRs(Terminated(data)) + [""];
      (lines, "")
  }

  /**
    Reading text in two parts, carrying the unterminated rest of the first
    into the second, ends the same pieces and leaves the same rest as
    reading it at once: no line is lost, repeated or cut, however the
    reads fall.
   */
  lemma ChunkedReads(x: string, y: string)
    ensures Terminated(x + y) == Terminated(x) + Terminated(Unterminated(x) + y)
    ensures Unterminated(x + y) == Unterminated(Unterminated(x) + y)
  {
    SplitAppend(x, y, '\n');
    var px := Split(x, '\n');
    var pr := Split(Unterminated(x) + y, '\n');
    assert Split(x + y, '\n') == px[..|px| - 1] + pr;
  }

  /** A piece without a newline, followed by one, is one terminated piece with nothing after it. */
  lemma TerminateRest(rest: string)
    requires '\n' !in rest
    ensures Terminated(rest + "\n") == [rest] && Unterminated(rest + "\n") == ""
  {
    SplitJoin([rest, ""], '\n');
    assert Join([rest, ""], '\n') == rest + "\n";
  }

  /** A read continues the received text, and its rest is the new leftover. */
  lemma ReadKeepsTail(received: string, leftover: string, chunk: string)
    requires leftover == Unterminated(received)
    ensures Terminated(received + chunk) == Terminated(received) + Terminated(leftover + chunk)
    ensures Unterminated(received + chunk) == Unterminated(leftover + chunk)
  {
    ChunkedReads(received, chunk);
  }

  /** Flushing the unterminated rest counts as ending it with a newline. */
  lemma FlushTerminates(received: string, rest: string)
    requires rest == Unterminated(received)
    ensures Terminated(received + "\n") == Terminated(received) + [rest]
    ensures Unterminated(received + "\n") == ""
  {
    ChunkedReads(received, "\n");
    TerminateRest(rest);
  }

  // ---- The tailer ----

  datatype StatResult = StatError | Size(size: nat)

  /** The byte range `start..end` a poll reads (`end` exclusive). */
  datatype ReadPlan = ReadPlan(start: nat, end: nat)

  /** A scheduled flush: the leftover and the offset when it was scheduled. */
  datatype PendingFlush = PendingFlush(snapshot: string, sizeAtSchedule: nat)

  /** The lines of a read, parsed, each with its clock reading and database availability. */
  function Items(lines: seq<string>, clock: nat -> int, dbUp: nat -> bool): (items: seq<Item>)
    ensures |items| == |lines|
  {
    Stamp(Map(lines, ParseLine), clock, dbUp)
  }

  /** Item `i` is line `i` parsed, with the `i`-th clock reading and database state. */
  lemma ItemsAt(lines: seq<string>, clock: nat -> int, dbUp: nat -> bool, i: nat)
    requires i < |lines|
    ensures Items(lines, clock, dbUp)[i] == Item(ParseLine(lines[i]), clock(i), dbUp(i))
  {
    MapAt(lines, ParseLine, i);
    StampAt(Map(lines, ParseLine), clock, dbUp, i);
  }

  /** `f` applied to every element of `xs`, in order. */
  function Map<A, B>(xs: seq<A>, f: A -> B): (ys: seq<B>)
    ensures |ys| == |xs|
  {
    if xs == [] then [] else Map(xs[..|xs| - 1], f) + [f(xs[|xs| - 1])]
  }

  lemma {:induction false} MapAt<A, B>(xs: seq<A>, f: A -> B, i: nat)
    requires i < |xs|
    ensures Map(xs, f)[i] == f(xs[i])
    decreases |xs|
  {
    var n := |xs| - 1;
    if i < n {
      MapAt(xs[..n], f, i);
      assert xs[..n][i] == xs[i];
    }
  }

  /** Each parsed line with the clock reading and database state of its position. */
  function Stamp(ps: seq<Parsed>, clock: nat -> int, dbUp: nat -> bool): (items: seq<Item>)
    ensures |items| == |ps|
  {
    if ps == [] then []
    else
      var n := |ps| - 1;
      Stamp(ps[..n], clock, dbUp) + [Item(ps[n], clock(n), dbUp(n))]
  }

  lemma {:induction false} StampAt(ps: seq<Parsed>, clock: nat -> int, dbUp: nat -> bool, i: nat)
    requires i < |ps|
    ensures Stamp(ps, clock, dbUp)[i] == Item(ps[i], clock(i), dbUp(i))
    decreases |ps|
  {
    var n := |ps| - 1;
    if i < n {
      StampAt(ps[..n], clock, dbUp, i);
      assert ps[..n][i] == ps[i];
    }
  }

  /** The module-level state of the tailer. */
  class Ingest {
    var cooldownMs: int
    var lastSize: nat
    var leftover: string
    var reading: bool
    /** The size the read in flight will reach (`stats.size` in its callback). */
    var readingTo: Option<nat>
    var flush: Option<PendingFlush>
    var lastInsert: map<CoordKey, int>
    var rows: seq<Row>
    /** The text read since the start or the last truncation, with a newline for each flushed partial line. */
    ghost var received: string
    /** The newline-ended pieces of `received`, in the order they were handed to `processLine`. */
    ghost var pieces: seq<string>

    function Contents(): Table
      reads this`lastInsert, this`rows
    {
      Table(lastInsert, rows)
    }

    /**
      A read is in flight exactly while `reading` is set; the pieces handed
      on are exactly the newline-ended pieces of the text received, and the
      leftover is what follows the last newline.
     */
    ghost predicate Valid()
      reads this`reading, this`readingTo, this`pieces, this`received, this`leftover
    {
      reading == readingTo.Some?
      && pieces == Terminated(received)
      && leftover == Unterminated(received)
    }

    /**
      `startIngest`: the cooldown option if it is a number, else the
      default; tailing starts at the file's current size (0 when it cannot
      be read).
     */
    constructor StartIngest(cooldownOption: Option<int>, fileSize: Option<nat>)
      ensures Valid()
      ensures cooldownMs == cooldownOption.GetOr(COOLDOWN_MS)
      ensures lastSize == fileSize.GetOr(0)
      ensures leftover == "" && !reading && flush == None
      ensures lastInsert == map[] && rows == [] && pieces == []
    {
      cooldownMs := cooldownOption.GetOr(COOLDOWN_MS);
      lastSize := fileSize.GetOr(0);
      leftover := "";
      reading := false;
      readingTo := None;
      flush := None;
      lastInsert := map[];
      rows := [];
      received := "";
      pieces := [];
      assert Split("", '\n') == [""];
    }

    /** `processLine` followed by the insert it may make. */
    method ProcessLine(line: string, now: int, dbUp: bool) returns (outcome: Outcome)
      modifies this`lastInsert, this`rows
      ensures (Contents(), outcome) == Admit(cooldownMs, old(Contents()), ParseLine(line), now, dbUp)
    {
      outcome := ProcessRecord(ParseLine(line), now, dbUp);
    }

    /** The cooldown check and insert of `processLine`, on the parsed line. */
    method ProcessRecord(p: Parsed, now: int, dbUp: bool) returns (outcome: Outcome)
      modifies this`lastInsert, this`rows
      ensures (Contents(), outcome) == Admit(cooldownMs, old(Contents()), p, now, dbUp)
    {
      if !p.Record? {
        return Rejected;
      }
      var k := Key(p.lat, p.lon);
      var last := if k in lastInsert then lastInsert[k] else 0;
      if now - last < cooldownMs {
        return CoolingDown(k);
      }
      if dbUp {
        rows := rows + [Row(p.time, p.lat, p.lon)];
      }
      lastInsert := lastInsert[k := now];
      outcome := Attempted(k, now, dbUp);
    }

    /**
      `poll` up to the start of the read: nothing while a read is in
      flight or when the file cannot be stat'ed; a shrunken file resets
      the offset and drops the leftover; an unchanged size reads nothing;
      otherwise the bytes from the offset to the new size are read.
     */
    method BeginPoll(stat: StatResult) returns (plan: Option<ReadPlan>)
      requires Valid()
      modifies this
      ensures Valid()
      ensures old(reading) || stat.StatError? ==> plan.None? && unchanged(this)
      ensures !old(reading) && stat.Size? && stat.size < old(lastSize) ==>
                leftover == "" && pieces == []
      ensures !old(reading) && stat.Size? && stat.size >= old(lastSize) ==>
                leftover == old(leftover) && pieces == old(pieces)
      ensures !old(reading) && stat.Size? ==>
                var start := if stat.size < old(lastSize) then 0 else old(lastSize);
                lastSize == start
                && (stat.size == start ==> plan.None? && !reading)
                && (stat.size != start ==> plan == Some(ReadPlan(start, stat.size))
                                           && reading && readingTo == Some(stat.size))
      ensures cooldownMs == old(cooldownMs) && flush == old(flush)
      ensures lastInsert == old(lastInsert) && rows == old(rows)
    {
      if reading {
        return None;
      }
      match stat
      case StatError =>
        return None;
      case Size(size) =>
        if size < lastSize {
          lastSize := 0;
          leftover := "";
          received := "";
          pieces := [];
          assert Split("", '\n') == [""];
        }
        if size == lastSize {
          return None;
        }
        reading := true;
        readingTo := Some(size);
        plan := Some(ReadPlan(lastSize, size));
    }

    /**
      The stream's `end`: the offset moves to the new size, the complete
      lines of `leftover + chunk` are processed in order, and the
      unterminated rest becomes the leftover, with a flush scheduled for it
      (or any scheduled flush cancelled when the text ended with a
      newline). `clock(i)` and `dbUp(i)` belong to the `i`-th line.
     */
    method FinishRead(chunk: string, clock: nat -> int, dbUp: nat -> bool)
      requires Valid() && reading
      modifies this`lastSize, this`leftover, this`flush, this`received, this`pieces,
               this`lastInsert, this`rows, this`reading, this`readingTo
      ensures Valid() && !reading
      ensures lastSize == old(readingTo).value
      ensures var data := old(leftover) + chunk;
              leftover == Unterminated(data)
              && Contents() == Run(cooldownMs, old(Contents()), Items(ReadLines(data).0, clock, dbUp)).0
              && flush == (if EndsWithNewline(data) then None else Some(PendingFlush(leftover, lastSize)))
      ensures received == old(received) + chunk
      ensures pieces == old(pieces) + Terminated(old(leftover) + chunk)
      ensures cooldownMs == old(cooldownMs)
    {
      var lines := TakeChunk(chunk);
      ProcessLines(lines, clock, dbUp);
    }

    /**
      The buffer side of the stream's `end`: the complete lines of
      `leftover + chunk` are handed back, the rest is kept for the next read.
     */
    method TakeChunk(chunk: string) returns (lines: seq<string>)
      requires Valid() && reading
      modifies this`lastSize, this`leftover, this`flush, this`received, this`pieces,
               this`reading, this`readingTo
      ensures Valid() && !reading
      ensures lastSize == old(readingTo).value
      ensures var data := old(leftover) + chunk;
              lines == ReadLines(data).0 && leftover == Unterminated(data)
              && flush == (if EndsWithNewline(data) then None else Some(PendingFlush(leftover, lastSize)))
      ensures received == old(received) + chunk
      ensures pieces == old(pieces) + Terminated(old(leftover) + chunk)
    {
      var data := leftover + chunk;
      ReadKeepsTail(received, leftover, chunk);
      var split := ReadLines(data);
      lines := split.0;
      lastSize := readingTo.value;
      leftover := split.1;
      flush := if EndsWithNewline(data) then None else Some(PendingFlush(leftover, lastSize));
      received := received + chunk;
      pieces := pieces + Terminated(data);
      reading := false;
      readingTo := None;
    }

    /** The `for` loop over the lines of a read, in order. */
    method ProcessLines(lines: seq<string>, clock: nat -> int, dbUp: nat -> bool)
      modifies this`lastInsert, this`rows
      ensures Contents() == Run(cooldownMs, old(Contents()), Items(lines, clock, dbUp)).0
    {
      var items := Items(lines, clock, dbUp);
      var start := Contents();
      var i := 0;
      while i < |lines|
        invariant 0 <= i <= |lines|
        invariant Contents() == Run(cooldownMs, start, items[..i]).0
      {
        ProcessNth(items, start, i);
        i := i + 1;
      }
      assert items[..|lines|] == items;
    }

    /**
      One pass of that loop: `processLine` on line `i`, whose parse is
      `items[i].parsed` (`ItemsAt`), extends the run by one item.
     */
    method ProcessNth(items: seq<Item>, start: Table, i: nat)
      requires i < |items|
      requires Contents() == Run(cooldownMs, start, items[..i]).0
      modifies this`lastInsert, this`rows
      ensures Contents() == Run(cooldownMs, start, items[..i + 1]).0
    {
      var _ := ProcessRecord(items[i].parsed, items[i].now, items[i].dbUp);
      RunPrefixStep(cooldownMs, start, items, i);
    }

    /** The stream's `error`: the read is abandoned and the offset kept, so the bytes are read again. */
    method ReadFailed()
      requires Valid() && reading
      modifies this`reading, this`readingTo
      ensures Valid() && !reading
    {
      reading := false;
      readingTo := None;
    }

    /**
      The flush timer fires: when the leftover is non-empty and neither it
      nor the offset changed since the flush was scheduled, it is processed
      as a complete line and cleared; otherwise nothing happens. Either
      way the timer is spent. The flush is one step: no read finishes
      while its insert is awaited.
     */
    method FireFlushTimer(now: int, dbUp: bool) returns (flushed: bool)
      requires Valid() && flush.Some?
      modifies this`lastInsert, this`rows, this`leftover, this`flush, this`pieces, this`received
      ensures Valid() && flush == None
      ensures flushed <==> old(leftover) != "" && old(leftover) == old(flush).value.snapshot
                            && old(lastSize) == old(flush).value.sizeAtSchedule
      ensures flushed ==>
                Contents() == Admit(cooldownMs, old(Contents()), ParseLine(old(leftover)), now, dbUp).0
                && leftover == "" && pieces == old(pieces) + [old(leftover)]
      ensures !flushed ==> Contents() == old(Contents()) && leftover == old(leftover) && pieces == old(pieces)
      ensures lastSize == old(lastSize) && reading == old(reading) && cooldownMs == old(cooldownMs)
    {
      var pending := flush.value;
      var line := leftover;
      flushed := line != "" && line == pending.snapshot && lastSize == pending.sizeAtSchedule;
      if flushed {
        FlushLeftover(now, dbUp);
      }
      flush := None;
    }

    /** Processes the unterminated rest as a line of its own and terminates it. */
    method FlushLeftover(now: int, dbUp: bool)
      requires Valid()
      modifies this`lastInsert, this`rows, this`leftover, this`pieces, this`received
      ensures Valid() && leftover == "" && pieces == old(pieces) + [old(leftover)]
      ensures Contents() == Admit(cooldownMs, old(Contents()), ParseLine(old(leftover)), now, dbUp).0
    {
      var line := leftover;
      TerminateLeftover();
      var _ := ProcessLine(line, now, dbUp);
    }

    /** The flushed rest becomes a finished line: a newline is received after it. */
    method TerminateLeftover()
      requires Valid()
      modifies this`leftover, this`pieces, this`received
      ensures Valid() && leftover == ""
      ensures pieces == old(pieces) + [old(leftover)] && received == old(received) + "\n"
    {
      FlushTerminates(received, leftover);
      pieces := pieces + [leftover];
      received := received + "\n";
      leftover := "";
    }
  }
}
