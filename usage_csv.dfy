/** The strict usage-CSV parser: text in, usage records or one line-tagged
    `InvalidFormat` error out. The header must start with the six canonical
    column names; every other non-blank line must have exactly six
    comma-separated fields with numeric quotas. The first bad line stops the
    parse. */
module UsageCsv {
  import opened Results
  import opened Text
  import opened JsNumber
  import UsageHeaders

  datatype UsageRecord = UsageRecord(
    timestamp: string,
    user: string,
    model: string,
    useQuota: real,
    limitMonthlyQuota: real,
    exceedsMonthlyQuota: bool)

  /** `line` is the 1-based position in the list of non-empty lines; a header
      error carries none. */
  datatype ParseError = InvalidFormat(message: string, line: Option<nat>)

  type ParseResult = Result<seq<UsageRecord>, ParseError>

  /** The header the parser insists on, in order. */
  const Expected: seq<string> :=
    ["timestamp", "user", "model", "useQuota", "limitMonthlyQuota", "exceedsMonthlyQuota"]

  /** The flag field is true exactly when it reads "true", ignoring case and
      surrounding white space; nothing else is an error. */
  function ParseBool(s: string): (b: bool)
    ensures b ==> |Trim(s)| == 4
    ensures IsBlank(s) ==> !b
  {
    TrimDropsBlank(s);
    ToLower(Trim(s)) == "true"
  }

  /** `names.every((h, i) => header[i] === h)` where `header` holds the
      trimmed `cells`: a missing cell never equals a name, so every name must
      have a cell at its index, and that cell, trimmed, must be the name. */
  predicate CellsMatch(cells: seq<string>, names: seq<string>)
  {
    names == [] || (cells != [] && Trim(cells[0]) == names[0] && CellsMatch(cells[1..], names[1..]))
  }

  /** The header test on the first line. */
  predicate HeaderMatches(first: string)
  {
    CellsMatch(Split(first, ','), Expected)
  }

  /** The lines the parser works on: split at `\n` or `\r\n`, zero-length
      lines dropped. */
  function Lines(text: string): seq<string>
  {
    NonEmpty(SplitLines(text))
  }

  /** One non-blank data line: its record, or the message of its error. */
  function RowOutcome(line: string): Result<UsageRecord, string>
  {
    var parts := Split(line, ',');
    if |parts| != |Expected| then Err("Wrong column count") else FieldsOutcome(parts)
  }

  /** Six fields: the record they make, or the quota error. */
  function FieldsOutcome(parts: seq<string>): Result<UsageRecord, string>
    requires |parts| == 6
  {
    var useQuota := ParseNumber(Trim(parts[3]));
    var limitMonthlyQuota := ParseNumber(Trim(parts[4]));
    if useQuota.None? || limitMonthlyQuota.None? then Err("Non-numeric quota")
    else Ok(UsageRecord(Trim(parts[0]), Trim(parts[1]), Trim(parts[2]),
                        useQuota.value, limitMonthlyQuota.value, ParseBool(Trim(parts[5]))))
  }

  /** What the loop body makes of one line after the header. */
  datatype LineVerdict = Skip | Keep(record: UsageRecord) | Reject(message: string)

  function Classify(line: string): LineVerdict
  {
    if Trim(line) == [] then Skip
    else
      match RowOutcome(line)
      case Ok(r) => Keep(r)
      case Err(m) => Reject(m)
  }

  function Verdicts(lines: seq<string>): (vs: seq<LineVerdict>)
    ensures |vs| == |lines|
  {
    if lines == [] then [] else [Classify(lines[0])] + Verdicts(lines[1..])
  }

  /** Verdict `k` is the classification of line `k`. */
  lemma {:induction false} VerdictAt(lines: seq<string>, k: nat)
    requires k < |lines|
    ensures Verdicts(lines)[k] == Classify(lines[k])
  {
    if k > 0 {
      VerdictAt(lines[1..], k - 1);
    }
  }

  lemma {:induction false} VerdictsAppend(a: seq<string>, b: seq<string>)
    ensures Verdicts(a + b) == Verdicts(a) + Verdicts(b)
  {
    if a == [] {
      assert a + b == b;
    } else {
      assert (a + b)[1..] == a[1..] + b;
      VerdictsAppend(a[1..], b);
    }
  }

  /** The verdicts from index `i` on: skipped lines are passed over, and the
      first rejected line ends the parse with its 1-based index. */
  function ScanRows(vs: seq<LineVerdict>, i: nat): ParseResult
    decreases |vs| - i
  {
    if i >= |vs| then Ok([])
    else
      match vs[i]
      case Skip => ScanRows(vs, i + 1)
      case Reject(m) => Err(InvalidFormat(m, Some(i + 1)))
      case Keep(r) => Prepend([r], ScanRows(vs, i + 1))
  }

  /** The result once the header has been judged and the lines after it
      classified. */
  function Outcome(headerOk: bool, vs: seq<LineVerdict>): ParseResult
  {
    if !headerOk then Err(InvalidFormat("Unexpected CSV header", None)) else ScanRows(vs, 1)
  }

  function ParseLines(lines: seq<string>): ParseResult
  {
    if |lines| == 0 then Ok([]) else Outcome(HeaderMatches(lines[0]), Verdicts(lines))
  }

  /** What `parseUsageCsv(text)` returns. */
  function Parse(text: string): ParseResult
  {
    ParseLines(Lines(text))
  }

  /** `parseUsageCsv`: one pass over the lines after the header, pushing a
      record per non-blank line and returning at the first bad one. */
  method ParseUsageCsv(text: string) returns (res: ParseResult)
    ensures res == Parse(text)
  {
    var lines := Lines(text);
    if |lines| == 0 {
      return Ok([]);
    }
    var first := lines[0];
    if !HeaderMatches(first) {
      return Err(InvalidFormat("Unexpected CSV header", None));
    }
    ghost var vs := Verdicts(lines);
    var records: seq<UsageRecord> := [];
    if ScanRows(vs, 1).Ok? {
      assert records + ScanRows(vs, 1).value == ScanRows(vs, 1).value;
    }
    for i := 1 to |lines|
      invariant ScanRows(vs, 1) == Prepend(records, ScanRows(vs, i))
    {
      var line := lines[i];
      VerdictAt(lines, i);
      if Trim(line) == [] {
        continue;
      }
      var parts := Split(line, ',');
      if |parts| != |Expected| {
        return Err(InvalidFormat("Wrong column count", Some(i + 1)));
      }
      var timestamp := Trim(parts[0]);
      var user := Trim(parts[1]);
      var model := Trim(parts[2]);
      var useQuotaStr := Trim(parts[3]);
      var limitMonthlyQuotaStr := Trim(parts[4]);
      var exceedsStr := Trim(parts[5]);
      var useQuota := ParseNumber(useQuotaStr);
      var limitMonthlyQuota := ParseNumber(limitMonthlyQuotaStr);
      if useQuota.None? || limitMonthlyQuota.None? {
        return Err(InvalidFormat("Non-numeric quota", Some(i + 1)));
      }
      var exceedsMonthlyQuota := ParseBool(exceedsStr);
      PrependPrepend(records, [UsageRecord(timestamp, user, model, useQuota.value,
                                           limitMonthlyQuota.value, exceedsMonthlyQuota)],
                     ScanRows(vs, i + 1));
      records := records + [UsageRecord(timestamp, user, model, useQuota.value,
                                        limitMonthlyQuota.value, exceedsMonthlyQuota)];
    }
    assert records + [] == records;
    return Ok(records);
  }

  // ---------------------------------------------------------------------
  // The header

  /** The parser's own header list is the canonical one. */
  lemma ExpectedIsRequired()
    ensures Expected == UsageHeaders.RequiredNames()
  {
    UsageHeaders.RequiredHeadersShape();
  }

  /** The header rule spelled out: there are at least as many cells as
      names, and cell `i`, trimmed, is name `i`; case matters. */
  lemma {:induction false} CellsMatchIff(cells: seq<string>, names: seq<string>)
    ensures CellsMatch(cells, names) <==>
      |cells| >= |names| && forall i :: 0 <= i < |names| ==> Trim(cells[i]) == names[i]
  {
    if names != [] && cells != [] {
      CellsMatchIff(cells[1..], names[1..]);
      if |cells| >= |names| && forall i :: 0 <= i < |names| ==> Trim(cells[i]) == names[i] {
        forall i | 0 <= i < |names| - 1 ensures Trim(cells[1..][i]) == names[1..][i] {
          assert cells[1..][i] == cells[i + 1];
        }
      }
    }
  }

  /** A first line with fewer than five commas has fewer than six cells and
      cannot match. */
  lemma ShortHeaderRejected(first: string)
    requires Count(first, ',') < |Expected| - 1
    ensures !HeaderMatches(first)
  {
    CellsMatchIff(Split(first, ','), Expected);
  }

  /** Every canonical name is its own trimmed form. */
  lemma ExpectedUnpadded()
    ensures forall k :: 0 <= k < |Expected| ==> Trim(Expected[k]) == Expected[k]
  {
    forall k | 0 <= k < |Expected| ensures Trim(Expected[k]) == Expected[k] {
      var e := Expected[k];
      assert e != [] && !IsWhite(e[0]) && !IsWhite(e[|e| - 1]);
      TrimOfUnpadded(e);
    }
  }

  /** Cells that are the canonical names, maybe followed by more cells,
      written out with commas, make a matching header. */
  lemma JoinedHeaderMatches(cells: seq<string>)
    requires |cells| >= |Expected| && cells[..|Expected|] == Expected
    requires forall k :: 0 <= k < |cells| ==> ',' !in cells[k]
    ensures HeaderMatches(Join(cells, ','))
  {
    ExpectedUnpadded();
    JoinedCellsMatch(cells, Expected);
  }

  lemma JoinedCellsMatch(cells: seq<string>, names: seq<string>)
    requires |cells| >= |names| >= 1 && cells[..|names|] == names
    requires forall k :: 0 <= k < |names| ==> Trim(names[k]) == names[k]
    requires forall k :: 0 <= k < |cells| ==> ',' !in cells[k]
    ensures CellsMatch(Split(Join(cells, ','), ','), names)
  {
    SplitJoin(cells, ',');
    CellsPrefixMatch(cells, names);
  }

  lemma CellsPrefixMatch(cells: seq<string>, names: seq<string>)
    requires |cells| >= |names| && cells[..|names|] == names
    requires forall k :: 0 <= k < |names| ==> Trim(names[k]) == names[k]
    ensures CellsMatch(cells, names)
  {
    forall i | 0 <= i < |names| ensures Trim(cells[i]) == names[i] {
      assert cells[i] == cells[..|names|][i];
    }
    CellsMatchIff(cells, names);
  }

  /** Cells after the sixth are never looked at. */
  lemma HeaderIgnoresExtraCells(first: string, extra: string)
    requires HeaderMatches(first)
    ensures HeaderMatches(first + [','] + extra)
  {
    SplitConcat(first, extra, ',');
    var a, b := Split(first, ','), Split(extra, ',');
    CellsMatchIff(a, Expected);
    CellsMatchIff(a + b, Expected);
    forall i | 0 <= i < |Expected| ensures Trim((a + b)[i]) == Expected[i] {
      assert (a + b)[i] == a[i];
    }
  }

  /** The header error is reported, without a line, exactly when the header
      does not match; a row error always names a line. */
  lemma HeaderErrorIff(headerOk: bool, vs: seq<LineVerdict>)
    ensures Outcome(headerOk, vs) == Err(InvalidFormat("Unexpected CSV header", None)) <==> !headerOk
  {
    ScanErrorsAbove(vs, 1);
  }

  /** A row error always carries a line number, past the starting index. */
  lemma {:induction false} ScanErrorsAbove(vs: seq<LineVerdict>, i: nat)
    ensures ScanRows(vs, i).Err? ==>
      ScanRows(vs, i).error.line.Some? && i < ScanRows(vs, i).error.line.value <= |vs|
    decreases |vs| - i
  {
    if i < |vs| {
      ScanErrorsAbove(vs, i + 1);
    }
  }

  /** The first line of a text is the text before its first line feed,
      when that is not empty and does not end in a carriage return. */
  lemma FirstLine(h: string, d: string)
    requires h != [] && '\n' !in h && h[|h| - 1] != '\r'
    ensures |Lines(h + ['\n'] + d)| > 0 && Lines(h + ['\n'] + d)[0] == h
  {
    SplitLinesConcat(h, d);
    SplitNoSep(h, '\n');
    assert DropAllCRs([h]) == [h];
    NonEmptyAppend([h], SplitLines(d));
  }

  /** A text whose first line has fewer than six cells fails with the
      header error, whatever follows. */
  lemma ShortFirstLineRejected(h: string, d: string)
    requires h != [] && '\n' !in h && h[|h| - 1] != '\r'
    requires Count(h, ',') < |Expected| - 1
    ensures Parse(h + ['\n'] + d) == Err(InvalidFormat("Unexpected CSV header", None))
  {
    FirstLine(h, d);
    ShortHeaderRejected(h);
  }

  // ---------------------------------------------------------------------
  // One data line

  /** Blank lines are skipped; a non-blank line is rejected for its column
      count exactly when it does not hold five commas, and otherwise for its
      quotas exactly when one of them is not a finite number. */
  lemma ClassifyRule(line: string)
    ensures Classify(line) == Skip <==> IsBlank(line)
    ensures Classify(line) == Reject("Wrong column count") <==>
      !IsBlank(line) && Count(line, ',') != 5
    ensures Classify(line) == Reject("Non-numeric quota") <==>
      var parts := Split(line, ',');
      !IsBlank(line) && |parts| == 6 &&
      (ParseNumber(Trim(parts[3])).None? || ParseNumber(Trim(parts[4])).None?)
  {
    TrimDropsBlank(line);
  }

  /** A line made of six comma-free fields gives those fields back, trimmed:
      it fails only when a quota field is not a finite number, the flag field
      never makes it fail, and the flag does not depend on the quotas. */
  lemma RowFromFields(fields: seq<string>)
    requires |fields| == 6
    requires forall k :: 0 <= k < 6 ==> ',' !in fields[k]
    ensures RowOutcome(Join(fields, ',')) == FieldsOutcome(fields)
    ensures var u, l := ParseNumber(Trim(fields[3])), ParseNumber(Trim(fields[4]));
      FieldsOutcome(fields) ==
        if u.None? || l.None? then Err("Non-numeric quota")
        else Ok(UsageRecord(Trim(fields[0]), Trim(fields[1]), Trim(fields[2]),
                            u.value, l.value, ParseBool(fields[5])))
  {
    SplitJoin(fields, ',');
    TrimIdempotent(fields[5]);
  }

  /** A six-field line is kept exactly when both quota fields are finite
      numbers: the flag field never makes it fail. */
  lemma RowSucceedsIff(fields: seq<string>)
    requires |fields| == 6
    requires forall k :: 0 <= k < 6 ==> ',' !in fields[k]
    ensures RowOutcome(Join(fields, ',')).Ok? <==>
      ParseNumber(Trim(fields[3])).Some? && ParseNumber(Trim(fields[4])).Some?
  {
    RowFromFields(fields);
  }

  /** An empty or white-space-only quota is read as 0. */
  lemma EmptyQuotaIsZero(fields: seq<string>)
    requires |fields| == 6
    requires forall k :: 0 <= k < 6 ==> ',' !in fields[k]
    requires IsBlank(fields[3]) && IsBlank(fields[4])
    ensures RowOutcome(Join(fields, ',')).Ok?
    ensures RowOutcome(Join(fields, ',')).value.useQuota == 0.0
    ensures RowOutcome(Join(fields, ',')).value.limitMonthlyQuota == 0.0
  {
    RowFromFields(fields);
    BlankIsZero(Trim(fields[3]));
    BlankIsZero(Trim(fields[4]));
  }

  /** The flag is true exactly when the trimmed field is the four letters
      of "true" in any mix of cases. */
  lemma ParseBoolIff(s: string)
    ensures var t := Trim(s);
      ParseBool(s) <==> |t| == 4 && LowerChar(t[0]) == 't' && LowerChar(t[1]) == 'r'
                        && LowerChar(t[2]) == 'u' && LowerChar(t[3]) == 'e'
  {
    var t := Trim(s);
    var l := ToLower(t);
    if ParseBool(s) {
      assert l == "true";
      assert l[0] == 't' && l[1] == 'r' && l[2] == 'u' && l[3] == 'e';
    } else if |t| == 4 {
      assert l != "true";
      assert l[0] != 't' || l[1] != 'r' || l[2] != 'u' || l[3] != 'e';
    }
  }

  /** How an export writes the flag. */
  function FlagText(b: bool): string
  {
    if b then "true" else "false"
  }

  /** "true" and "false" read back as the flag they write. */
  lemma FlagRoundTrip(b: bool)
    ensures ParseBool(FlagText(b)) == b
  {
    var t := FlagText(b);
    if b {
      TrueReadsTrue(t);
    } else {
      FalseReadsFalse(t);
    }
  }

  lemma TrueReadsTrue(t: string)
    requires t == "true"
    ensures ParseBool(t)
  {
    assert !IsWhite(t[0]) && !IsWhite(t[3]);
    TrimOfUnpadded(t);
    assert IsLowerCase(t);
    LowerCaseFixed(t);
  }

  lemma FalseReadsFalse(t: string)
    requires t == "false"
    ensures !ParseBool(t)
  {
    assert !IsWhite(t[0]) && !IsWhite(t[4]);
    TrimOfUnpadded(t);
    assert |ToLower(t)| == 5;
  }

  // ---------------------------------------------------------------------
  // The data lines together

  /** The records of the kept lines, in order. */
  function Kept(vs: seq<LineVerdict>): seq<UsageRecord>
  {
    if vs == [] then []
    else if vs[0].Keep? then [vs[0].record] + Kept(vs[1..])
    else Kept(vs[1..])
  }

  /** The scan succeeds exactly when no line is rejected, and then returns
      the kept records in order. */
  lemma {:induction false} ScanSucceedsIff(vs: seq<LineVerdict>, i: nat)
    requires i <= |vs|
    ensures ScanRows(vs, i).Ok? <==> forall k :: i <= k < |vs| ==> !vs[k].Reject?
    ensures ScanRows(vs, i).Ok? ==> ScanRows(vs, i).value == Kept(vs[i..])
    decreases |vs| - i
  {
    if i < |vs| {
      assert vs[i..][0] == vs[i];
      assert vs[i..][1..] == vs[i + 1..];
      ScanSucceedsIff(vs, i + 1);
    }
  }

  /** The first rejected line, and nothing after it, decides the error,
      tagged with its 1-based index. */
  lemma {:induction false} FirstRejectDecides(vs: seq<LineVerdict>, i: nat, j: nat)
    requires i <= j < |vs| && vs[j].Reject?
    requires forall k :: i <= k < j ==> !vs[k].Reject?
    ensures ScanRows(vs, i) == Err(InvalidFormat(vs[j].message, Some(j + 1)))
    decreases j - i
  {
    if i < j {
      FirstRejectDecides(vs, i + 1, j);
    }
  }

  /** Conversely, a row error names the first rejected line. */
  lemma {:induction false} ErrorNamesFirstReject(vs: seq<LineVerdict>, i: nat)
    requires ScanRows(vs, i).Err?
    ensures var e := ScanRows(vs, i).error;
      e.line.Some? && i + 1 <= e.line.value <= |vs|
      && vs[e.line.value - 1] == Reject(e.message)
      && forall k :: i <= k < e.line.value - 1 ==> !vs[k].Reject?
    decreases |vs| - i
  {
    if !vs[i].Reject? {
      ErrorNamesFirstReject(vs, i + 1);
    }
  }

  /** The parse succeeds exactly when the header matches and no line after
      it is rejected; the records are then those of the kept lines, one per
      non-blank data line, in order. */
  lemma OutcomeSucceedsIff(headerOk: bool, vs: seq<LineVerdict>)
    requires |vs| >= 1
    ensures Outcome(headerOk, vs).Ok? <==> headerOk && forall k :: 1 <= k < |vs| ==> !vs[k].Reject?
    ensures Outcome(headerOk, vs).Ok? ==> Outcome(headerOk, vs).value == Kept(vs[1..])
  {
    ScanSucceedsIff(vs, 1);
  }

  /** Fail-fast: the parse fails with message `m` at line `n` exactly when
      the header matches, line `n` (1-based, among the non-empty lines) is
      rejected with `m`, and no data line before it is rejected. */
  lemma RowErrorIff(headerOk: bool, vs: seq<LineVerdict>, m: string, n: nat)
    ensures Outcome(headerOk, vs) == Err(InvalidFormat(m, Some(n))) <==>
      headerOk && 2 <= n <= |vs| && vs[n - 1] == Reject(m)
      && forall k :: 1 <= k < n - 1 ==> !vs[k].Reject?
  {
    if headerOk {
      if ScanRows(vs, 1).Err? {
        ErrorNamesFirstReject(vs, 1);
      }
      if 2 <= n <= |vs| && vs[n - 1] == Reject(m) && forall k :: 1 <= k < n - 1 ==> !vs[k].Reject? {
        FirstRejectDecides(vs, 1, n - 1);
      }
    }
  }

  // ---------------------------------------------------------------------
  // Line numbering

  /** A text that splits into zero-length lines only (line feeds, possibly
      after carriage returns) is an empty, successful parse. */
  lemma NoLinesIsEmpty(text: string)
    requires forall k :: 0 <= k < |SplitLines(text)| ==> SplitLines(text)[k] == []
    ensures Parse(text) == Ok([])
  {
    NonEmptyOfEmpties(SplitLines(text));
  }

  lemma {:induction false} NonEmptyOfEmpties(lines: seq<string>)
    requires forall k :: 0 <= k < |lines| ==> lines[k] == []
    ensures NonEmpty(lines) == []
  {
    if lines != [] {
      NonEmptyOfEmpties(lines[1..]);
    }
  }

  /** Text with nothing but line feeds is an empty, successful parse. */
  lemma OnlyLineFeedsIsEmpty(text: string)
    requires forall k :: 0 <= k < |text| ==> text[k] == '\n'
    ensures Parse(text) == Ok([])
  {
    SplitLinesOfLineFeeds(text);
  }

  lemma {:induction false} SplitLinesOfLineFeeds(text: string)
    requires forall k :: 0 <= k < |text| ==> text[k] == '\n'
    ensures NonEmpty(SplitLines(text)) == []
  {
    if text != [] {
      var rest := text[1..];
      assert text == [] + ['\n'] + rest;
      SplitLinesOfLineFeeds(rest);
      SplitLinesConcat([], rest);
      assert Split([], '\n') == [""];
      assert SplitLines(text) == [""] + SplitLines(rest);
      assert NonEmpty(SplitLines(text)) == NonEmpty(SplitLines(rest));
    }
  }

  /** Zero-length lines are dropped before numbering: an extra line feed
      between two texts changes nothing, line numbers included. */
  lemma EmptyLineInvisible(x: string, y: string)
    ensures Lines(x + "\n\n" + y) == Lines(x + "\n" + y)
    ensures Parse(x + "\n\n" + y) == Parse(x + "\n" + y)
  {
    assert x + "\n\n" + y == x + ['\n'] + ([] + ['\n'] + y);
    assert x + "\n" + y == x + ['\n'] + y;
    SplitLinesConcat(x, [] + ['\n'] + y);
    SplitLinesConcat([], y);
    assert Split([], '\n') == [""];
    SplitLinesConcat(x, y);
    var a := DropAllCRs(Split(x, '\n'));
    NonEmptyAppend(a, [""] + SplitLines(y));
    NonEmptyAppend(a, SplitLines(y));
    assert NonEmpty([""] + SplitLines(y)) == NonEmpty(SplitLines(y));
  }

  /** Every error line number above `p` moves up by `d`. */
  function ShiftAbove(r: ParseResult, p: nat, d: nat): ParseResult
  {
    match r
    case Err(InvalidFormat(m, Some(n))) => if n > p then Err(InvalidFormat(m, Some(n + d))) else r
    case _ => r
  }

  /** The same verdicts at a later index give the same result with line
      numbers moved up by the offset. */
  lemma {:induction false} ScanShift(a: seq<LineVerdict>, i: nat, b: seq<LineVerdict>, j: nat)
    requires i <= |a| && j <= |b| && a[i..] == b[j..] && i <= j
    ensures ScanRows(b, j) == ShiftAbove(ScanRows(a, i), i, j - i)
    decreases |a| - i
  {
    if i < |a| {
      assert a[i] == a[i..][0] == b[j..][0] == b[j];
      assert a[i + 1..] == a[i..][1..] == b[j..][1..] == b[j + 1..];
      ScanShift(a, i + 1, b, j + 1);
      ScanErrorsAbove(a, i + 1);
    }
  }

  /** A skipped line between data lines yields no record but still takes a
      number, so every later error line moves up by one. */
  lemma {:induction false} SkipCounts(p: seq<LineVerdict>, s: seq<LineVerdict>, i: nat)
    requires i <= |p|
    ensures ScanRows(p + [Skip] + s, i) == ShiftAbove(ScanRows(p + s, i), |p|, 1)
    decreases |p| - i
  {
    var with, without := p + [Skip] + s, p + s;
    if i == |p| {
      assert with[i] == Skip;
      assert with[i + 1..] == s == without[i..];
      ScanShift(without, i, with, i + 1);
    } else {
      assert with[i] == p[i] == without[i];
      SkipCounts(p, s, i + 1);
      ScanErrorsAbove(without, i + 1);
    }
  }

  /** A white-space-only line survives the zero-length filter: inserted
      after the header, it changes no record but moves every later error
      line number up by one. */
  lemma BlankLineCounts(p: seq<string>, w: string, s: seq<string>)
    requires |p| >= 1 && w != [] && IsBlank(w)
    ensures ParseLines(p + [w] + s) == ShiftAbove(ParseLines(p + s), |p|, 1)
  {
    assert (p + [w] + s)[0] == p[0] == (p + s)[0];
    VerdictsAppend(p + [w], s);
    VerdictsAppend(p, [w]);
    VerdictsAppend(p, s);
    TrimDropsBlank(w);
    assert Verdicts([w]) == [Skip];
    SkipCounts(Verdicts(p), Verdicts(s), 1);
  }

  // ---------------------------------------------------------------------
  // Round trip

  /** A field that survives the trip: no comma, no line break, nothing to
      trim. */
  predicate CleanField(f: string)
  {
    ',' !in f && '\n' !in f && '\r' !in f && (f != [] ==> !IsWhite(f[0]) && !IsWhite(f[|f| - 1]))
  }

  /** A quota an export writes as a plain numeral: whole, non-negative and
      small enough to stay finite as a double. */
  predicate WholeQuota(q: real)
  {
    q >= 0.0 && q == q.Floor as real && q < InfinityThreshold
  }

  /** A record an export could have produced: clean text fields and whole
      quotas. */
  predicate Renderable(r: UsageRecord)
  {
    && CleanField(r.timestamp) && CleanField(r.user) && CleanField(r.model)
    && WholeQuota(r.useQuota) && WholeQuota(r.limitMonthlyQuota)
  }

  function QuotaText(q: real): string
    requires q >= 0.0
  {
    DecimalText(q.Floor)
  }

  function RowFields(r: UsageRecord): (f: seq<string>)
    requires Renderable(r)
    ensures |f| == 6
  {
    [r.timestamp, r.user, r.model, QuotaText(r.useQuota), QuotaText(r.limitMonthlyQuota),
     FlagText(r.exceedsMonthlyQuota)]
  }

  function RowText(r: UsageRecord): string
    requires Renderable(r)
  {
    Join(RowFields(r), ',')
  }

  function RowsText(rs: seq<UsageRecord>): string
    requires forall k :: 0 <= k < |rs| ==> Renderable(rs[k])
  {
    if rs == [] then "" else "\n" + RowText(rs[0]) + RowsText(rs[1..])
  }

  /** A CSV export of the records under the canonical header. */
  function Render(rs: seq<UsageRecord>): string
    requires forall k :: 0 <= k < |rs| ==> Renderable(rs[k])
  {
    Join(Expected, ',') + RowsText(rs)
  }

  lemma {:induction false} JoinAvoids(parts: seq<string>, sep: char, c: char)
    requires |parts| >= 1 && c != sep
    requires forall k :: 0 <= k < |parts| ==> c !in parts[k]
    ensures c !in Join(parts, sep)
  {
    if |parts| > 1 {
      JoinAvoids(parts[1..], sep, c);
    }
  }

  lemma DigitsAvoid(t: string, c: char)
    requires AllDigits(t) && !IsDigit(c)
    ensures c !in t
  {
  }

  lemma RowTextLine(r: UsageRecord)
    requires Renderable(r)
    ensures '\n' !in RowText(r) && '\r' !in RowText(r) && RowText(r) != []
  {
    var f := RowFields(r);
    DigitsAvoid(f[3], '\n');
    DigitsAvoid(f[4], '\n');
    DigitsAvoid(f[3], '\r');
    DigitsAvoid(f[4], '\r');
    JoinAvoids(f, ',', '\n');
    JoinAvoids(f, ',', '\r');
    assert RowText(r) == f[0] + [','] + Join(f[1..], ',');
  }

  /** A quota written by an export reads back as itself. */
  lemma QuotaRoundTrip(q: real)
    requires WholeQuota(q)
    ensures Trim(QuotaText(q)) == QuotaText(q)
    ensures ParseNumber(QuotaText(q)) == Some(q)
  {
    var t := QuotaText(q);
    assert IsDigit(t[0]) && IsDigit(t[|t| - 1]);
    TrimOfUnpadded(t);
    NaturalRoundTrip(q.Floor);
  }

  lemma CleanFieldTrim(s: string)
    requires CleanField(s)
    ensures Trim(s) == s
  {
    TrimOfUnpadded(s);
  }

  lemma QuotaFieldRoundTrip(t: string, q: real)
    requires WholeQuota(q) && t == QuotaText(q)
    ensures ParseNumber(Trim(t)) == Some(q)
  {
    QuotaRoundTrip(q);
  }

  /** The fields of an export hold no comma ... */
  lemma RowFieldsCommaFree(r: UsageRecord)
    requires Renderable(r)
    ensures forall k :: 0 <= k < 6 ==> ',' !in RowFields(r)[k]
  {
    var f := RowFields(r);
    DigitsAvoid(f[3], ',');
    DigitsAvoid(f[4], ',');
    assert ',' !in FlagText(r.exceedsMonthlyQuota);
  }

  /** ... and its quota and flag fields read back as the record's values. */
  lemma RowFieldsRead(r: UsageRecord)
    requires Renderable(r)
    ensures var f := RowFields(r);
      && (forall k :: 0 <= k < 6 ==> ',' !in f[k])
      && ParseNumber(Trim(f[3])) == Some(r.useQuota)
      && ParseNumber(Trim(f[4])) == Some(r.limitMonthlyQuota)
      && ParseBool(f[5]) == r.exceedsMonthlyQuota
  {
    RowFieldsCommaFree(r);
    QuotaFieldRoundTrip(RowFields(r)[3], r.useQuota);
    QuotaFieldRoundTrip(RowFields(r)[4], r.limitMonthlyQuota);
    FlagRoundTrip(r.exceedsMonthlyQuota);
  }

  lemma RowFieldsText(r: UsageRecord)
    requires Renderable(r)
    ensures var f := RowFields(r);
      f[0] == r.timestamp && f[1] == r.user && f[2] == r.model
  {
  }

  /** Six comma-free fields whose text fields need no trimming and whose
      quota fields are finite numbers are read as exactly those values. */
  lemma RowOfCleanFields(f: seq<string>, u: real, l: real)
    requires |f| == 6 && forall k :: 0 <= k < 6 ==> ',' !in f[k]
    requires Trim(f[0]) == f[0] && Trim(f[1]) == f[1] && Trim(f[2]) == f[2]
    requires ParseNumber(Trim(f[3])) == Some(u) && ParseNumber(Trim(f[4])) == Some(l)
    ensures RowOutcome(Join(f, ',')) == Ok(UsageRecord(f[0], f[1], f[2], u, l, ParseBool(f[5])))
  {
    RowFromFields(f);
    TrimIdempotent(f[5]);
    assert FieldsOutcome(f) == Ok(UsageRecord(f[0], f[1], f[2], u, l, ParseBool(Trim(f[5]))));
  }

  lemma RowTextNotBlank(r: UsageRecord)
    requires Renderable(r)
    ensures !IsBlank(RowText(r))
  {
    var f := RowFields(r);
    var t := Join(f, ',');
    assert t == f[0] + [','] + Join(f[1..], ',');
    assert !IsWhite(t[|f[0]|]);
  }

  /** An exported row reads back as the very record it came from. */
  lemma RowReadsBack(r: UsageRecord)
    requires Renderable(r)
    ensures RowOutcome(RowText(r)) == Ok(r)
  {
    RowFieldsRead(r);
    RowFieldsText(r);
    CleanFieldTrim(r.timestamp);
    CleanFieldTrim(r.user);
    CleanFieldTrim(r.model);
    RowOfCleanFields(RowFields(r), r.useQuota, r.limitMonthlyQuota);
  }

  /** ... and is kept. */
  lemma RowTextKept(r: UsageRecord)
    requires Renderable(r)
    ensures Classify(RowText(r)) == Keep(r)
  {
    RowTextNotBlank(r);
    TrimDropsBlank(RowText(r));
    RowReadsBack(r);
  }

  function RowTexts(rs: seq<UsageRecord>): (ts: seq<string>)
    requires forall k :: 0 <= k < |rs| ==> Renderable(rs[k])
    ensures |ts| == |rs|
    ensures forall k :: 0 <= k < |rs| ==> ts[k] == RowText(rs[k])
  {
    if rs == [] then [] else [RowText(rs[0])] + RowTexts(rs[1..])
  }

  lemma {:induction false} SplitLinesOfRows(first: string, rs: seq<UsageRecord>)
    requires forall k :: 0 <= k < |rs| ==> Renderable(rs[k])
    requires '\n' !in first && '\r' !in first
    ensures SplitLines(first + RowsText(rs)) == [first] + RowTexts(rs)
    decreases rs
  {
    if rs == [] {
      assert first + RowsText(rs) == first;
      SplitNoSep(first, '\n');
    } else {
      var t, rest := RowText(rs[0]), RowsText(rs[1..]);
      RowTextLine(rs[0]);
      assert first + RowsText(rs) == first + ['\n'] + (t + rest);
      assert first == [] || first[|first| - 1] != '\r';
      SplitLinesLine(first, t + rest);
      SplitLinesOfRows(t, rs[1..]);
    }
  }

  lemma {:induction false} NonEmptyKeepsAll(lines: seq<string>)
    requires forall k :: 0 <= k < |lines| ==> lines[k] != []
    ensures NonEmpty(lines) == lines
  {
    if lines != [] {
      NonEmptyKeepsAll(lines[1..]);
    }
  }

  /** The lines of an export: the header line, then one line per record. */
  lemma RenderLines(h: string, rs: seq<UsageRecord>)
    requires h != [] && '\n' !in h && '\r' !in h
    requires forall k :: 0 <= k < |rs| ==> Renderable(rs[k])
    ensures Lines(h + RowsText(rs)) == [h] + RowTexts(rs)
  {
    SplitLinesOfRows(h, rs);
    var lines := [h] + RowTexts(rs);
    forall k | 0 <= k < |lines| ensures lines[k] != [] {
      if k > 0 {
        RowTextLine(rs[k - 1]);
      }
    }
    NonEmptyKeepsAll(lines);
  }

  /** The canonical header is one non-empty line that passes the header
      check. */
  lemma CanonicalHeader()
    ensures var h := Join(Expected, ',');
      h != [] && '\n' !in h && '\r' !in h && HeaderMatches(h)
  {
    ExpectedLetters();
    JoinAvoids(Expected, ',', '\n');
    JoinAvoids(Expected, ',', '\r');
    JoinedHeaderMatches(Expected);
  }

  predicate IsLetter(c: char)
  {
    'a' <= c <= 'z' || 'A' <= c <= 'Z'
  }

  lemma ExpectedLetters()
    ensures forall k, i :: 0 <= k < |Expected| && 0 <= i < |Expected[k]| ==> IsLetter(Expected[k][i])
  {
  }

  /** Lines that are all kept scan to their records, in order. */
  lemma {:induction false} ScanAllKept(vs: seq<LineVerdict>, rs: seq<UsageRecord>, i: nat)
    requires |vs| == |rs| + 1 && 1 <= i <= |vs|
    requires forall k :: 1 <= k < |vs| ==> vs[k] == Keep(rs[k - 1])
    ensures ScanRows(vs, i) == Ok(rs[i - 1..])
    decreases |vs| - i
  {
    if i < |vs| {
      ScanAllKept(vs, rs, i + 1);
      assert rs[i - 1..] == [rs[i - 1]] + rs[i..];
    }
  }

  /** Past an accepted header, the parse is the scan of the verdicts. */
  lemma ParseAfterHeader(lines: seq<string>)
    requires |lines| >= 1 && HeaderMatches(lines[0])
    ensures ParseLines(lines) == ScanRows(Verdicts(lines), 1)
  {
  }

  /** Each exported row after a header line is kept as its record. */
  lemma RowsAfterHeader(lines: seq<string>, h: string, rs: seq<UsageRecord>)
    requires forall k :: 0 <= k < |rs| ==> Renderable(rs[k])
    requires lines == [h] + RowTexts(rs)
    ensures |Verdicts(lines)| == |rs| + 1
    ensures forall k :: 1 <= k <= |rs| ==> Verdicts(lines)[k] == Keep(rs[k - 1])
  {
    forall k | 1 <= k <= |rs| ensures Verdicts(lines)[k] == Keep(rs[k - 1]) {
      VerdictAt(lines, k);
      RowTextKept(rs[k - 1]);
    }
  }

  /** A matching header followed by exported rows parses to those rows. */
  lemma ParseExportedRows(h: string, rs: seq<UsageRecord>)
    requires HeaderMatches(h)
    requires forall k :: 0 <= k < |rs| ==> Renderable(rs[k])
    ensures ParseLines([h] + RowTexts(rs)) == Ok(rs)
  {
    var lines := [h] + RowTexts(rs);
    ParseAfterHeader(lines);
    RowsAfterHeader(lines, h, rs);
    ScanAllKept(Verdicts(lines), rs, 1);
  }

  /** Under any accepted header line, the exported rows parse back to
      exactly the exported records ... */
  lemma RowsRoundTrip(h: string, rs: seq<UsageRecord>)
    requires h != [] && '\n' !in h && '\r' !in h && HeaderMatches(h)
    requires forall k :: 0 <= k < |rs| ==> Renderable(rs[k])
    ensures Parse(h + RowsText(rs)) == Ok(rs)
  {
    RenderLines(h, rs);
    ParseExportedRows(h, rs);
  }

  /** ... so parsing an export gives back exactly the exported records. */
  lemma RenderRoundTrip(rs: seq<UsageRecord>)
    requires forall k :: 0 <= k < |rs| ==> Renderable(rs[k])
    ensures Parse(Render(rs)) == Ok(rs)
  {
    CanonicalHeader();
    RowsRoundTrip(Join(Expected, ','), rs);
  }
}
