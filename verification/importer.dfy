/** The CSV importer: a quote-aware line splitter, the unit conversion and
    derived-value formulas, and the per-row accept/skip accounting. */
module Importer {
  import opened Wrappers
  import opened SafetyLayer
  import opened Strings
  import opened Decimal
  import opened Seqs

  /** The characters `String.prototype.trim` removes: white space and line
      terminators as ECMAScript defines them (section 12.2 and 12.3 of
      ECMA-262). */
  predicate IsSpace(c: char) {
    || c == '\t' || c == '\n' || c == 11 as char || c == 12 as char || c == '\r' || c == ' '
    || c == '\U{A0}' || c == '\U{1680}' || ('\U{2000}' <= c <= '\U{200A}')
    || c == '\U{2028}' || c == '\U{2029}' || c == '\U{202F}' || c == '\U{205F}' || c == '\U{3000}'
    || c == '\U{FEFF}'
  }

  function TrimStart(s: string): (r: string)
    ensures |r| <= |s|
    ensures r == s[|s| - |r|..]
    ensures |r| > 0 ==> !IsSpace(r[0])
    ensures forall k :: 0 <= k < |s| - |r| ==> IsSpace(s[k])
  {
    if |s| > 0 && IsSpace(s[0]) then TrimStart(s[1..]) else s
  }

  function TrimEnd(s: string): (r: string)
    ensures |r| <= |s|
    ensures r == s[..|r|]
    ensures |r| > 0 ==> !IsSpace(r[|r| - 1])
    ensures forall k :: |r| <= k < |s| ==> IsSpace(s[k])
  {
    if |s| > 0 && IsSpace(s[|s| - 1]) then TrimEnd(s[..|s| - 1]) else s
  }

  /** `s.trim()`: the infix of `s` left after dropping the white space at
      both ends. */
  function Trim(s: string): (r: string)
    ensures |r| > 0 ==> !IsSpace(r[0]) && !IsSpace(r[|r| - 1])
    ensures exists a :: InfixBetweenSpaces(s, r, a)
  {
    TrimBothIsInfix(s);
    TrimEnd(TrimStart(s))
  }

  /** Dropping white space from the front and then from the back leaves an
      infix of `s` with only white space around it. */
  lemma TrimBothIsInfix(s: string)
    ensures InfixBetweenSpaces(s, TrimEnd(TrimStart(s)), |s| - |TrimStart(s)|)
  {
    SpacedSuffixPrefix(s, TrimStart(s), TrimEnd(TrimStart(s)));
  }

  lemma SpacedSuffixPrefix(s: string, t: string, r: string)
    requires |t| <= |s| && t == s[|s| - |t|..]
    requires forall k :: 0 <= k < |s| - |t| ==> IsSpace(s[k])
    requires |r| <= |t| && r == t[..|r|]
    requires forall k :: |r| <= k < |t| ==> IsSpace(t[k])
    ensures InfixBetweenSpaces(s, r, |s| - |t|)
  {
    var a := |s| - |t|;
    assert r == s[a..a + |r|];
    forall k | a + |r| <= k < |s| ensures IsSpace(s[k]) {
      assert s[k] == t[k - a];
    }
  }

  /** `r` is the infix of `s` starting at `a`, and everything of `s` before
      and after it is white space. */
  predicate InfixBetweenSpaces(s: string, r: string, a: int)
  {
    && 0 <= a <= a + |r| <= |s| && r == s[a..a + |r|]
    && (forall k :: 0 <= k < a ==> IsSpace(s[k]))
    && (forall k :: a + |r| <= k < |s| ==> IsSpace(s[k]))
  }

  /** A string with no white space at either end. */
  predicate Trimmed(s: string) {
    |s| == 0 || (!IsSpace(s[0]) && !IsSpace(s[|s| - 1]))
  }

  /** Trimming leaves a trimmed string alone, so trimming twice is trimming
      once. */
  lemma TrimOfTrimmed(s: string)
    requires Trimmed(s)
    ensures Trim(s) == s
  {
  }

  lemma TrimIdempotent(s: string)
    ensures Trim(Trim(s)) == Trim(s)
  {
    TrimOfTrimmed(Trim(s));
  }

  function MapTrim(parts: seq<string>): (r: seq<string>)
    ensures |r| == |parts|
    ensures forall k :: 0 <= k < |parts| ==> r[k] == Trim(parts[k])
  {
    if |parts| == 0 then [] else [Trim(parts[0])] + MapTrim(parts[1..])
  }

  /** The character loop of `parseCsvLine` over the rest `s` of the line,
      with the field being built, the quote state and the finished
      fields. Inside quotes a doubled quote is one literal quote; any other
      quote toggles the state and is dropped; a delimiter outside quotes
      ends the field, trimmed. */
  function Scan(s: string, delimiter: char, current: string, inQuotes: bool, out: seq<string>): (fields: seq<string>)
    ensures |fields| > |out|
    ensures fields[..|out|] == out
    decreases |s|
  {
    if |s| == 0 then
      var t := Trim(current);
      assert (out + [t])[..|out|] == out;
      out + [t]
    else if s[0] == '"' then
      if inQuotes && |s| > 1 && s[1] == '"' then Scan(s[2..], delimiter, current + ['"'], inQuotes, out)
      else Scan(s[1..], delimiter, current, !inQuotes, out)
    else if s[0] == delimiter && !inQuotes then
      var t := Trim(current);
      assert (out + [t])[..|out|] == out;
      Scan(s[1..], delimiter, "", inQuotes, out + [t])
    else Scan(s[1..], delimiter, current + [s[0]], inQuotes, out)
  }

  /** `parseCsvLine(line, delimiter)`. */
  function ParseCsvLine(line: string, delimiter: char): (fields: seq<string>)
    ensures |fields| >= 1
  {
    Scan(line, delimiter, "", false, [])
  }

  /** Without quote characters the scanner is a plain split. */
  lemma {:induction false} ScanWithoutQuotes(s: string, d: char, current: string, out: seq<string>)
    requires '"' !in s
    ensures var parts := Split(s, d);
      Scan(s, d, current, false, out) == out + [Trim(current + parts[0])] + MapTrim(parts[1..])
    decreases |s|
  {
    var parts := Split(s, d);
    if |s| == 0 {
      assert current + parts[0] == current;
    } else {
      NotInTail('"', s);
      assert s[0] != '"' by { assert s[0] in s; }
      var rest := Split(s[1..], d);
      if s[0] == d {
        ScanWithoutQuotes(s[1..], d, "", out + [Trim(current)]);
        assert Scan(s, d, current, false, out) == Scan(s[1..], d, "", false, out + [Trim(current)]);
        assert "" + rest[0] == rest[0];
        assert parts[0] == "" && parts[1..] == rest;
        assert current + parts[0] == current;
        var a, b, c := [Trim(current)], [Trim(rest[0])], MapTrim(rest[1..]);
        assert MapTrim(rest) == b + c;
        AppendAssoc(out, a, b);
        AppendAssoc(out + a, b, c);
        AppendAssoc(out, a, b + c);
      } else {
        ScanWithoutQuotes(s[1..], d, current + [s[0]], out);
        assert Scan(s, d, current, false, out) == Scan(s[1..], d, current + [s[0]], false, out);
        assert parts[0] == [s[0]] + rest[0] && parts[1..] == rest[1..];
        AppendAssoc(current, [s[0]], rest[0]);
      }
    }
  }

  /** On a line with no quote characters `parseCsvLine` splits on the
      delimiter and trims every piece. */
  lemma ParseWithoutQuotes(line: string, d: char)
    requires '"' !in line
    ensures ParseCsvLine(line, d) == MapTrim(Split(line, d))
  {
    ScanWithoutQuotes(line, d, "", []);
    var parts := Split(line, d);
    assert "" + parts[0] == parts[0];
    assert MapTrim(parts) == [Trim(parts[0])] + MapTrim(parts[1..]);
  }

  /** The delimiters the scanner meets outside quotes, following the same
      quote rules. */
  function DelimitersOutsideQuotes(s: string, d: char, inQuotes: bool): nat
    decreases |s|
  {
    if |s| == 0 then 0
    else if s[0] == '"' then
      if inQuotes && |s| > 1 && s[1] == '"' then DelimitersOutsideQuotes(s[2..], d, inQuotes)
      else DelimitersOutsideQuotes(s[1..], d, !inQuotes)
    else if s[0] == d && !inQuotes then 1 + DelimitersOutsideQuotes(s[1..], d, inQuotes)
    else DelimitersOutsideQuotes(s[1..], d, inQuotes)
  }

  lemma {:induction false} ScanFieldCount(s: string, d: char, current: string, inQuotes: bool, out: seq<string>)
    ensures |Scan(s, d, current, inQuotes, out)| == |out| + 1 + DelimitersOutsideQuotes(s, d, inQuotes)
    decreases |s|
  {
    if |s| > 0 {
      if s[0] == '"' {
        if inQuotes && |s| > 1 && s[1] == '"' {
          ScanFieldCount(s[2..], d, current + ['"'], inQuotes, out);
        } else {
          ScanFieldCount(s[1..], d, current, !inQuotes, out);
        }
      } else if s[0] == d && !inQuotes {
        ScanFieldCount(s[1..], d, "", inQuotes, out + [Trim(current)]);
      } else {
        ScanFieldCount(s[1..], d, current + [s[0]], inQuotes, out);
      }
    }
  }

  /** The number of fields is one more than the number of delimiters seen
      outside quotes. */
  lemma FieldCount(line: string, d: char)
    ensures |ParseCsvLine(line, d)| == 1 + DelimitersOutsideQuotes(line, d, false)
  {
    ScanFieldCount(line, d, "", false, []);
  }

  /** Inside quotes, text without quote characters goes into the field
      verbatim, delimiters included. */
  lemma {:induction false} QuotedTextVerbatim(s: string, rest: string, d: char, current: string, out: seq<string>)
    requires '"' !in s
    ensures Scan(s + rest, d, current, true, out) == Scan(rest, d, current + s, true, out)
    decreases |s|
  {
    if |s| == 0 {
      assert s + rest == rest;
      assert current + s == current;
    } else {
      assert s[0] in s;
      assert (s + rest)[0] == s[0];
      assert (s + rest)[1..] == s[1..] + rest;
      assert '"' !in s[1..] by {
        forall k | 0 <= k < |s[1..]| ensures s[1..][k] != '"' {
          assert s[1..][k] == s[k + 1];
        }
      }
      QuotedTextVerbatim(s[1..], rest, d, current + [s[0]], out);
      assert current + [s[0]] + s[1..] == current + s;
    }
  }

  /** A delimiter between quotes does not end the field, and quoting can
      start and end in the middle of a field: `x"a,b"y` is the one field
      `xa,by`. */
  lemma DelimiterInsideQuotes()
    ensures ParseCsvLine("x\"a,b\"y", ',') == ["xa,by"]
  {
    OneQuotedSection('x', "a,b", 'y', ',');
    assert ['x'] + "\"" + "a,b" + "\"" + ['y'] == "x\"a,b\"y";
    assert ['x'] + "a,b" + ['y'] == "xa,by";
  }

  /** `a"q"b` for plain characters `a`, `b` and quote-free `q` is the
      single field `aqb`, whatever delimiters `q` holds. */
  lemma OneQuotedSection(a: char, q: string, b: char, d: char)
    requires a != '"' && a != d && !IsSpace(a)
    requires b != '"' && b != d && !IsSpace(b)
    requires '"' !in q
    ensures ParseCsvLine([a] + "\"" + q + "\"" + [b], d) == [[a] + q + [b]]
  {
    var line := [a] + "\"" + q + "\"" + [b];
    var tail := "\"" + [b];
    assert line[0] == a;
    assert line[1..] == "\"" + (q + tail);
    assert "" + [a] == [a];
    calc {
      ParseCsvLine(line, d);
      Scan(line, d, "", false, []);
      Scan(line[1..], d, [a], false, []);
      { LoneQuoteToggles(q + tail, d, [a], false, []); }
      Scan(q + tail, d, [a], true, []);
      { QuotedTextVerbatim(q, tail, d, [a], []); }
      Scan(tail, d, [a] + q, true, []);
      { assert tail == "\"" + [b]; LoneQuoteToggles([b], d, [a] + q, true, []); }
      Scan([b], d, [a] + q, false, []);
      { assert [b][1..] == []; }
      Scan([], d, [a] + q + [b], false, []);
      [Trim([a] + q + [b])];
      { TrimOfTrimmed([a] + q + [b]); }
      [[a] + q + [b]];
    }
  }

  /** Inside quotes `""` is one literal quote and the field goes on in
      quoted mode. */
  lemma DoubledQuoteIsLiteral(rest: string, d: char, current: string, out: seq<string>)
    ensures Scan("\"\"" + rest, d, current, true, out) == Scan(rest, d, current + "\"", true, out)
  {
    var s := "\"\"" + rest;
    assert s[0] == '"' && s[1] == '"';
    assert s[2..] == rest;
  }

  /** Any other quote character is dropped and flips the quoted state. */
  lemma LoneQuoteToggles(rest: string, d: char, current: string, inQuotes: bool, out: seq<string>)
    requires !(inQuotes && |rest| > 0 && rest[0] == '"')
    ensures Scan("\"" + rest, d, current, inQuotes, out) == Scan(rest, d, current, !inQuotes, out)
  {
    assert ("\"" + rest)[1..] == rest;
  }

  /** A field written the way RFC 4180, section 2, writes one: in quotes,
      with each inner quote doubled. */
  function Escape(f: string): (e: string)
    ensures |e| >= |f|
  {
    if |f| == 0 then ""
    else if f[0] == '"' then "\"\"" + Escape(f[1..])
    else [f[0]] + Escape(f[1..])
  }

  function Quote(f: string): string {
    "\"" + Escape(f) + "\""
  }

  function JoinQuoted(fields: seq<string>, d: char): string
    requires |fields| >= 1
  {
    if |fields| == 1 then Quote(fields[0]) else Quote(fields[0]) + [d] + JoinQuoted(fields[1..], d)
  }

  /** Reading an escaped field and its closing quote yields the field,
      provided the closing quote is not followed by another quote. */
  lemma {:induction false} ScanEscaped(f: string, rest: string, d: char, current: string, out: seq<string>)
    requires |rest| == 0 || rest[0] != '"'
    ensures Scan(Escape(f) + "\"" + rest, d, current, true, out) == Scan(rest, d, current + f, false, out)
    decreases |f|
  {
    var q := "\"";
    var s := Escape(f) + q + rest;
    if |f| == 0 {
      assert Escape(f) == "";
      assert s == q + rest;
      LoneQuoteToggles(rest, d, current, true, out);
      assert current + f == current;
    } else {
      var head := if f[0] == '"' then "\"\"" else [f[0]];
      var e' := Escape(f[1..]);
      var tail := e' + q + rest;
      assert Escape(f) == head + e';
      AppendAssoc(head, e', q);
      AppendAssoc(head, e' + q, rest);
      assert s == head + tail;
      if f[0] == '"' {
        DoubledQuoteIsLiteral(tail, d, current, out);
      } else {
        PlainCharAppends(f[0], tail, d, current, out);
      }
      var current' := current + [f[0]];
      assert Scan(s, d, current, true, out) == Scan(tail, d, current', true, out);
      ScanEscaped(f[1..], rest, d, current', out);
      AppendAssoc(current, [f[0]], f[1..]);
      assert [f[0]] + f[1..] == f;
    }
  }

  /** Inside quotes any character other than a quote is appended. */
  lemma PlainCharAppends(c: char, rest: string, d: char, current: string, out: seq<string>)
    requires c != '"'
    ensures Scan([c] + rest, d, current, true, out) == Scan(rest, d, current + [c], true, out)
  {
    assert ([c] + rest)[1..] == rest;
  }

  /** A quoted field at the start of the text, followed by `rest`, reads
      as that field still open outside quotes. */
  lemma ScanQuotedField(f: string, rest: string, d: char, out: seq<string>)
    requires |rest| == 0 || rest[0] != '"'
    ensures Scan(Quote(f) + rest, d, "", false, out) == Scan(rest, d, f, false, out)
  {
    var q, e := "\"", Escape(f);
    AppendAssoc(q, e, q);
    AppendAssoc(q, e + q, rest);
    assert Quote(f) + rest == q + ((e + q) + rest);
    LoneQuoteToggles((e + q) + rest, d, "", false, out);
    ScanEscaped(f, rest, d, "", out);
    assert "" + f == f;
  }

  lemma {:induction false} ScanJoinQuoted(fields: seq<string>, d: char, out: seq<string>)
    requires |fields| >= 1
    requires d != '"'
    requires forall k :: 0 <= k < |fields| ==> Trimmed(fields[k])
    ensures Scan(JoinQuoted(fields, d), d, "", false, out) == out + fields
    decreases |fields|
  {
    var f := fields[0];
    TrimOfTrimmed(f);
    if |fields| == 1 {
      ScanQuotedField(f, "", d, out);
      assert Quote(f) + "" == JoinQuoted(fields, d);
      assert Scan("", d, f, false, out) == out + [f];
      assert fields == [f];
    } else {
      var others := JoinQuoted(fields[1..], d);
      var rest := [d] + others;
      AppendAssoc(Quote(f), [d], others);
      assert JoinQuoted(fields, d) == Quote(f) + rest;
      ScanQuotedField(f, rest, d, out);
      assert rest[0] == d && rest[1..] == others;
      assert Scan(rest, d, f, false, out) == Scan(others, d, "", false, out + [f]);
      ScanJoinQuoted(fields[1..], d, out + [f]);
      AppendAssoc(out, [f], fields[1..]);
      assert [f] + fields[1..] == fields;
    }
  }

  /** Quoting every field, doubling inner quotes and joining with the
      delimiter is read back as the same fields, as long as no field has
      white space at its ends (the parser trims every field). */
  lemma QuotedRoundTrip(fields: seq<string>, d: char)
    requires |fields| >= 1
    requires d != '"'
    requires forall k :: 0 <= k < |fields| ==> Trimmed(fields[k])
    ensures ParseCsvLine(JoinQuoted(fields, d), d) == fields
  {
    ScanJoinQuoted(fields, d, []);
    assert [] + fields == fields;
  }

  // Unit conversion and the derived values of the weather-archive import.

  /** The inverse conversion, Fahrenheit to Celsius. */
  function FToC(fahrenheit: real): real {
    (fahrenheit - 32.0) * 5.0 / 9.0
  }

  /** `cToF(celsius)`. */
  function CToF(celsius: real): (fahrenheit: real)
    ensures FToC(fahrenheit) == celsius
    ensures celsius == 0.0 ==> fahrenheit == 32.0
    ensures celsius == 100.0 ==> fahrenheit == 212.0
  {
    celsius * 9.0 / 5.0 + 32.0
  }

  lemma CToFInverse(c: real, f: real)
    ensures FToC(CToF(c)) == c
    ensures CToF(FToC(f)) == f
  {
  }

  /** Water freezes at 32 F and boils at 212 F; the scales cross at -40. */
  lemma CToFLandmarks()
    ensures CToF(0.0) == 32.0
    ensures CToF(100.0) == 212.0
    ensures CToF(-40.0) == -40.0
  {
  }

  lemma CToFStrictlyIncreasing(c: real, c': real)
    ensures c < c' <==> CToF(c) < CToF(c')
  {
  }

  /** `precipitationMm || 0`: a missing rainfall counts as none. */
  function RainOrZero(precipitationMm: Option<real>): (mm: real)
    ensures precipitationMm.None? ==> mm == 0.0
    ensures precipitationMm.Some? ==> mm == precipitationMm.value
  {
    precipitationMm.GetOr(0.0)
  }

  /** `deriveSoilMoisture`: a soil-moisture estimate from temperature,
      humidity and rainfall, kept within 10..85 percent. */
  function DeriveSoilMoisture(tempC: real, rh: real, precipitationMm: Option<real>): (pct: real)
    ensures 10.0 <= pct <= 85.0
  {
    var rainBoost := RainOrZero(precipitationMm) * 2.4;
    var evapPenalty := if (tempC - 20.0) * 0.7 > 0.0 then (tempC - 20.0) * 0.7 else 0.0;
    var humidityBoost := (rh - 50.0) * 0.15;
    Clamp(38.0 + rainBoost + humidityBoost - evapPenalty, 10.0, 85.0)
  }

  /** With no rain, 20 C and 50 % humidity the estimate is the 38 % base;
      every 10 C above 20 C takes 7 points off it. */
  lemma SoilMoistureBaseline()
    ensures DeriveSoilMoisture(20.0, 50.0, None) == 38.0
    ensures DeriveSoilMoisture(30.0, 50.0, Some(0.0)) == 31.0
    ensures DeriveSoilMoisture(10.0, 50.0, None) == 38.0
  {
  }

  /** More rain and more humidity never lower the estimate; more heat never
      raises it. */
  lemma SoilMoistureMonotone(t: real, t': real, rh: real, rh': real, p: Option<real>, p': Option<real>)
    requires t' <= t && rh <= rh' && RainOrZero(p) <= RainOrZero(p')
    ensures DeriveSoilMoisture(t, rh, p) <= DeriveSoilMoisture(t', rh', p')
  {
    var v := 38.0 + RainOrZero(p) * 2.4 + (rh - 50.0) * 0.15 - (if (t - 20.0) * 0.7 > 0.0 then (t - 20.0) * 0.7 else 0.0);
    var v' := 38.0 + RainOrZero(p') * 2.4 + (rh' - 50.0) * 0.15 - (if (t' - 20.0) * 0.7 > 0.0 then (t' - 20.0) * 0.7 else 0.0);
    ClampMonotone(v, v', 10.0, 85.0);
  }

  /** The tank level assumed when there is no previous one. */
  const DefaultTankPct: real := 70.0
  /** The hourly draw on the tank, in percentage points. */
  const TankOutflowPct: real := 0.35

  /** `deriveTankPct`: the previous level (70 % when unknown) plus 0.8
      points per millimetre of rain, less the hourly draw, kept within
      0..100. */
  function DeriveTankPct(precipitationMm: Option<real>, previousTank: Option<real>): (pct: real)
    ensures 0.0 <= pct <= 100.0
  {
    Clamp(previousTank.GetOr(DefaultTankPct) + RainOrZero(precipitationMm) * 0.8 - TankOutflowPct, 0.0, 100.0)
  }

  /** Without rain the tank only drains: by exactly the hourly draw while
      there is that much left, to empty otherwise, and a fresh series
      starts just below the default level. */
  lemma TankDrainsWithoutRain(previous: real)
    requires 0.0 <= previous <= 100.0
    ensures DeriveTankPct(None, Some(previous)) <= previous
    ensures previous >= TankOutflowPct ==> DeriveTankPct(None, Some(previous)) == previous - TankOutflowPct
    ensures previous < TankOutflowPct ==> DeriveTankPct(None, Some(previous)) == 0.0
    ensures DeriveTankPct(None, None) == DefaultTankPct - TankOutflowPct
  {
  }

  /** Rain raises the level: more rain never gives a lower tank. */
  lemma TankMonotoneInRain(p: Option<real>, p': Option<real>, previous: Option<real>)
    requires RainOrZero(p) <= RainOrZero(p')
    ensures DeriveTankPct(p, previous) <= DeriveTankPct(p', previous)
  {
    var base := previous.GetOr(DefaultTankPct);
    ClampMonotone(base + RainOrZero(p) * 0.8 - TankOutflowPct, base + RainOrZero(p') * 0.8 - TankOutflowPct, 0.0, 100.0);
  }

  // The CSV import: lines, rows, and the per-row accounting.

  /** The pieces of `raw.split(/\r?\n/)`: split at line feeds, dropping one
      carriage return right before each line feed (the last piece, which
      no line feed ends, keeps its own). */
  function SplitLines(raw: string): (lines: seq<string>)
    ensures |lines| >= 1
    ensures forall k :: 0 <= k < |lines| ==> '\n' !in lines[k]
  {
    var pieces := Split(raw, '\n');
    StripCarriageReturns(pieces)
  }

  function StripCarriageReturns(pieces: seq<string>): (lines: seq<string>)
    requires forall k :: 0 <= k < |pieces| ==> '\n' !in pieces[k]
    ensures |lines| == |pieces|
    ensures forall k :: 0 <= k < |lines| ==> '\n' !in lines[k]
    ensures |pieces| > 0 ==> lines[|lines| - 1] == pieces[|pieces| - 1]
    ensures forall k :: 0 <= k < |pieces| - 1 ==>
      if |pieces[k]| > 0 && pieces[k][|pieces[k]| - 1] == '\r'
      then lines[k] == pieces[k][..|pieces[k]| - 1]
      else lines[k] == pieces[k]
  {
    if |pieces| <= 1 then pieces
    else
      var p := pieces[0];
      var line := if |p| > 0 && p[|p| - 1] == '\r' then p[..|p| - 1] else p;
      assert '\n' !in line by {
        forall k | 0 <= k < |line| ensures line[k] != '\n' {
          assert line[k] == p[k];
        }
      }
      [line] + StripCarriageReturns(pieces[1..])
  }

  /** A line that is not all white space: `l.trim().length > 0`. */
  predicate NonBlank(line: string) {
    |Trim(line)| > 0
  }

  /** `.filter((l) => l.trim().length > 0)`: the non-blank lines, in
      order. */
  function NonBlankLines(lines: seq<string>): (kept: seq<string>)
    ensures forall k :: 0 <= k < |kept| ==> NonBlank(kept[k])
    ensures forall x :: x in kept <==> x in lines && NonBlank(x)
  {
    Filter(lines, NonBlank)
  }

  /** `parts[idx] ?? ''`: a header with no matching field gets the empty
      string. */
  function FieldOr(parts: seq<string>, idx: nat): string {
    if idx < |parts| then parts[idx] else ""
  }

  /** The last position of `h` in `hs`, or -1 when it does not occur. */
  function LastIndexOf(hs: seq<string>, h: string): (i: int)
    ensures -1 <= i < |hs|
    ensures i == -1 <==> h !in hs
    ensures i >= 0 ==> hs[i] == h && h !in hs[i + 1..]
  {
    if |hs| == 0 then -1
    else if hs[|hs| - 1] == h then |hs| - 1
    else
      var i := LastIndexOf(hs[..|hs| - 1], h);
      assert h in hs ==> h in hs[..|hs| - 1] by {
        assert hs == hs[..|hs| - 1] + [hs[|hs| - 1]];
      }
      assert i >= 0 ==> hs[i + 1..] == hs[..|hs| - 1][i + 1..] + [hs[|hs| - 1]];
      i
  }

  /** The row object built from a header line: each header names the field
      at its position; when a header repeats, its last position wins. */
  function HeaderRow(headers: seq<string>, parts: seq<string>): (row: map<string, string>)
    ensures row.Keys == set h | h in headers
    ensures forall h :: h in headers ==> row[h] == FieldOr(parts, LastIndexOf(headers, h))
    decreases |headers|
  {
    if |headers| == 0 then map[]
    else
      var n := |headers| - 1;
      assert headers == headers[..n] + [headers[n]];
      HeaderRow(headers[..n], parts)[headers[n] := FieldOr(parts, n)]
  }

  lemma NatToStringDistinct(j: nat, n: nat)
    requires j != n
    ensures NatToString(j) != NatToString(n)
  {
    if NatToString(j) == NatToString(n) {
      NatToStringInjective(j, n);
    }
  }

  /** The keys `String(0)` .. `String(n - 1)`. */
  function IndexKeys(n: nat): (keys: set<string>)
    ensures forall j :: 0 <= j < n ==> NatToString(j) in keys
  {
    if n == 0 then {} else IndexKeys(n - 1) + {NatToString(n - 1)}
  }

  /** The row object built without a header line: field `idx` under the
      key `String(idx)`. */
  function IndexRow(parts: seq<string>): (row: map<string, string>)
    ensures row.Keys == IndexKeys(|parts|)
    ensures forall j :: 0 <= j < |parts| ==> row[NatToString(j)] == parts[j]
    decreases |parts|
  {
    if |parts| == 0 then map[]
    else
      var n := |parts| - 1;
      var before := IndexRow(parts[..n]);
      var row := before[NatToString(n) := parts[n]];
      assert forall j :: 0 <= j < |parts| ==> row[NatToString(j)] == parts[j] by {
        forall j | 0 <= j < |parts| ensures row[NatToString(j)] == parts[j] {
          if j < n {
            NatToStringDistinct(j, n);
            assert before[NatToString(j)] == parts[..n][j];
          }
        }
      }
      row
  }

  /** `colMap`: every header maps to itself; no header line, no entries. */
  function ColumnMap(headers: Option<seq<string>>): (colMap: map<string, string>)
    ensures headers.None? ==> colMap == map[]
    ensures headers.Some? ==> colMap.Keys == set h | h in headers.value
    ensures forall h :: h in colMap ==> colMap[h] == h
  {
    match headers
    case None => map[]
    case Some(hs) => map h | h in hs :: h
  }

  /** `mapped(row, map, key) ?? row[key]`: the field the mapping names for
      `key` (an empty column name counts as none), falling back to a field
      named `key` itself. */
  function RawField(row: map<string, string>, mapping: map<string, string>, key: string): (v: Option<string>)
    ensures key in mapping && mapping[key] != "" && mapping[key] in row ==> v == Some(row[mapping[key]])
    ensures !(key in mapping && mapping[key] != "" && mapping[key] in row) ==> v == Lookup(row, key)
  {
    match Lookup(mapping, key)
    case Some(col) =>
      if col != "" && col in row then Some(row[col]) else Lookup(row, key)
    case None => Lookup(row, key)
  }

  /** `toNumber`: absent and empty fields are no number; anything else is
      whatever the number parser makes of it. */
  function ToNumber(raw: Option<string>, parseNumber: string -> Option<real>): (n: Option<real>)
    ensures raw.None? || raw == Some("") ==> n.None?
    ensures raw.Some? && raw.value != "" ==> n == parseNumber(raw.value)
  {
    match raw
    case None => None
    case Some(v) => if v == "" then None else parseNumber(v)
  }

  /** `tempUnit.toLowerCase() === 'c'`. */
  predicate IsCelsius(tempUnit: string) {
    tempUnit == "c" || tempUnit == "C"
  }

  /** The values one data line yields; the temperature is in the file's
      unit until converted. */
  datatype RowValues = RowValues(ts: Option<int>, tempF: Option<real>, rh: Option<real>, soil: Option<real>, tank: Option<real>)

  /** What the importer stores for an accepted row. */
  datatype StoredReading = StoredReading(ts: int, tempF: real, rh: real, soil: real, tank: Option<real>)

  /** The text-to-value parsers the importer borrows from the runtime:
      `normalizeTimestamp` and `Number`. */
  datatype Parsers = Parsers(timestamp: string -> Option<int>, number: string -> Option<real>)

  /** How the file is read: the header flag, the delimiter, the unit of the
      temperature column and the optional column mapping. */
  datatype ImportOptions = ImportOptions(hasHeader: bool, delimiter: char, tempUnit: string, mapping: Option<map<string, string>>)

  function RowOf(parts: seq<string>, headers: Option<seq<string>>): map<string, string> {
    match headers
    case Some(hs) => HeaderRow(hs, parts)
    case None => IndexRow(parts)
  }

  /** The fields of one data line as read, before any unit conversion:
      the mapped column for each quantity, run through the parsers. */
  function FieldValues(line: string, headers: Option<seq<string>>, opts: ImportOptions, parsers: Parsers): RowValues {
    var row := RowOf(ParseCsvLine(line, opts.delimiter), headers);
    var colMap := opts.mapping.GetOr(ColumnMap(headers));
    var ts := match RawField(row, colMap, "timestamp") { case None => None case Some(t) => parsers.timestamp(t) };
    RowValues(ts, ToNumber(RawField(row, colMap, "temp"), parsers.number),
      ToNumber(RawField(row, colMap, "rh"), parsers.number),
      ToNumber(RawField(row, colMap, "soil_moisture"), parsers.number),
      ToNumber(RawField(row, colMap, "tank"), parsers.number))
  }

  /** The unit step: a Celsius reading converts its temperature with
      `cToF` and keeps everything else, including a missing
      temperature. */
  function InFahrenheit(v: RowValues, celsius: bool): (w: RowValues)
    ensures w.(tempF := v.tempF) == v
    ensures w.tempF.Some? <==> v.tempF.Some?
    ensures celsius && v.tempF.Some? ==> FToC(w.tempF.value) == v.tempF.value
    ensures !celsius ==> w == v
  {
    if celsius && v.tempF.Some? then v.(tempF := Some(CToF(v.tempF.value))) else v
  }

  /** The values one data line yields, temperature in Fahrenheit. */
  function ValuesOf(line: string, headers: Option<seq<string>>, opts: ImportOptions, parsers: Parsers): RowValues {
    InFahrenheit(FieldValues(line, headers, opts, parsers), IsCelsius(opts.tempUnit))
  }

  /** The skip rule: no valid timestamp, or no temperature, humidity or
      soil moisture. A missing tank level does not skip the row. */
  predicate Incomplete(v: RowValues) {
    v.ts.None? || v.tempF.None? || v.rh.None? || v.soil.None?
  }

  datatype Outcome = Inserted(reading: StoredReading) | Skipped | Failed

  /** One data line's fate: skipped when incomplete, otherwise inserted or
      counted as an error as the store accepts or rejects it. */
  function OutcomeOf(v: RowValues, accepted: bool): (o: Outcome)
    ensures o.Skipped? <==> Incomplete(v)
    ensures o.Inserted? <==> !Incomplete(v) && accepted
    ensures o.Inserted? ==> o.reading == StoredReading(v.ts.value, v.tempF.value, v.rh.value, v.soil.value, v.tank)
  {
    if Incomplete(v) then Skipped
    else if accepted then Inserted(StoredReading(v.ts.value, v.tempF.value, v.rh.value, v.soil.value, v.tank))
    else Failed
  }

  datatype Stats = Stats(inserted: nat, skipped: nat, errors: nat)

  function CountInserted(outcomes: seq<Outcome>): nat {
    if |outcomes| == 0 then 0 else (if outcomes[0].Inserted? then 1 else 0) + CountInserted(outcomes[1..])
  }

  function CountSkipped(outcomes: seq<Outcome>): nat {
    if |outcomes| == 0 then 0 else (if outcomes[0].Skipped? then 1 else 0) + CountSkipped(outcomes[1..])
  }

  /** The counters the import loop keeps, one increment per data line. */
  function Tally(outcomes: seq<Outcome>): (stats: Stats)
    ensures stats.inserted + stats.skipped + stats.errors == |outcomes|
    ensures stats.inserted == CountInserted(outcomes)
    ensures stats.skipped == CountSkipped(outcomes)
  {
    if |outcomes| == 0 then Stats(0, 0, 0)
    else
      var s := Tally(outcomes[1..]);
      match outcomes[0]
      case Inserted(_) => s.(inserted := s.inserted + 1)
      case Skipped => s.(skipped := s.skipped + 1)
      case Failed => s.(errors := s.errors + 1)
  }

  /** The values of the given data lines, each read by `valuesOf`. */
  function LineValues(lines: seq<string>, valuesOf: string -> RowValues): (values: seq<RowValues>)
    ensures |values| == |lines|
    ensures forall k :: 0 <= k < |lines| ==> values[k] == valuesOf(lines[k])
  {
    if |lines| == 0 then []
    else LineValues(lines[..|lines| - 1], valuesOf) + [valuesOf(lines[|lines| - 1])]
  }

  /** The import loop over the data lines' values; `accepts(k)` says
      whether the store takes the k-th data line. */
  function ImportRows(values: seq<RowValues>, accepts: nat -> bool): (outcomes: seq<Outcome>)
    ensures |outcomes| == |values|
    ensures forall k :: 0 <= k < |values| ==> outcomes[k] == OutcomeOf(values[k], accepts(k))
  {
    if |values| == 0 then []
    else
      var init := ImportRows(values[..|values| - 1], accepts);
      init + [OutcomeOf(values[|values| - 1], accepts(|values| - 1))]
  }

  datatype ImportResult = ImportResult(stats: Stats, outcomes: seq<Outcome>)

  /** The lines the importer works on: split at line breaks, blank lines
      dropped. */
  function CsvLines(raw: string): seq<string> {
    NonBlankLines(SplitLines(raw))
  }

  /** The number of lines before the data: one when the file has a
      header. */
  function FirstDataLine(opts: ImportOptions): nat {
    if opts.hasHeader then 1 else 0
  }

  /** The header fields, when the file has a header line. */
  function Headers(lines: seq<string>, opts: ImportOptions): Option<seq<string>>
    requires |lines| > 0
  {
    if opts.hasHeader then Some(ParseCsvLine(lines[0], opts.delimiter)) else None
  }

  /** `importReadingsCsv` on the file's text `raw`: the non-blank lines,
      the optional header, then one outcome per data line. A file with no
      non-blank line is an error. */
  /** The values of every data line of the file `raw`. */
  function DataValues(raw: string, opts: ImportOptions, parsers: Parsers): (values: seq<RowValues>)
    requires |CsvLines(raw)| > 0
    ensures |values| == |CsvLines(raw)| - FirstDataLine(opts)
    ensures forall k :: 0 <= k < |values| ==>
      values[k] == ValuesOf(CsvLines(raw)[FirstDataLine(opts) + k], Headers(CsvLines(raw), opts), opts, parsers)
  {
    var lines := CsvLines(raw);
    var headers := Headers(lines, opts);
    var data := lines[FirstDataLine(opts)..];
    var values := LineValues(data, line => ValuesOf(line, headers, opts, parsers));
    assert forall k :: 0 <= k < |values| ==> data[k] == lines[FirstDataLine(opts) + k];
    values
  }

  function ImportReadingsCsv(raw: string, opts: ImportOptions, parsers: Parsers, accepts: nat -> bool): (r: Result<ImportResult>)
    ensures r.Err? <==> |CsvLines(raw)| == 0
    ensures r.Ok? ==> |r.value.outcomes| == |CsvLines(raw)| - FirstDataLine(opts)
    ensures r.Ok? ==> r.value.stats.inserted + r.value.stats.skipped + r.value.stats.errors == |CsvLines(raw)| - FirstDataLine(opts)
    ensures r.Ok? ==> r.value.stats == Tally(r.value.outcomes)
    ensures r.Ok? ==> forall k :: 0 <= k < |r.value.outcomes| ==>
      r.value.outcomes[k] == OutcomeOf(DataValues(raw, opts, parsers)[k], accepts(k))
  {
    if |CsvLines(raw)| == 0 then Err("empty csv")
    else
      var outcomes := ImportRows(DataValues(raw, opts, parsers), accepts);
      Ok(ImportResult(Tally(outcomes), outcomes))
  }
}
