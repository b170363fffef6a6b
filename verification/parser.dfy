/** `parseCSV`: the text becomes lines, line 0 is the header whose comma
    count caps the number of fields taken from each row, and every other
    non-blank line with at least six fields becomes one question. */
module Parser {
  import opened Wrappers
  import opened Text
  import opened Csv
  import opened Questions

  /** `text.trim().split('\n')`. */
  function Lines(text: string): (lines: seq<string>)
    ensures 1 <= |lines| <= |text| + 1
  {
    TrimSpec(text);
    SplitPieces(Trim(text), '\n');
    Split(Trim(text), '\n')
  }

  /** `headers.length`: the header's comma-separated columns, counted without
      regard to quotes (trimming each name keeps the count). */
  function ColumnCount(header: string): (n: nat)
    ensures n == Count(header, ',') + 1
  {
    SplitPieces(header, ',');
    |Split(header, ',')|
  }

  predicate IsBlank(line: string)
  {
    Trim(line) == []
  }

  /** The unquoted fields of one row, at most `cap` of them. */
  function RowFields(line: string, cap: nat): (fields: seq<string>)
    ensures |fields| <= cap && |fields| <= |SplitFields(line)|
    ensures |fields| == cap || |fields| == |SplitFields(line)|
    ensures forall k :: 0 <= k < |fields| ==> fields[k] == Unquote(SplitFields(line)[k])
  {
    var raw := SplitFields(line);
    var n := if cap < |raw| then cap else |raw|;
    seq(n, k requires 0 <= k < n => Unquote(raw[k]))
  }

  /** The record line `id` contributes, if any. */
  function RowRecord(id: nat, line: string, cap: nat): (r: Option<Question>)
    ensures r.Some? ==> r.value.id == id
  {
    if IsBlank(line) then None
    else
      var f := RowFields(line, cap);
      if |f| >= 6 then Some(Question(id, f[0], Options(f[1], f[2], f[3], f[4]), ToUpper(f[5])))
      else None
  }

  /** A line yields no record when blank or short of six fields; otherwise
      field 0 is the question, fields 1 to 4 the options A to D and field 5,
      upper-cased, the answer. A header narrower than six columns therefore
      leaves every line without a record. */
  lemma RowRecordSpec(id: nat, line: string, cap: nat)
    ensures IsBlank(line) ==> RowRecord(id, line, cap) == None
    ensures !IsBlank(line) ==> (RowRecord(id, line, cap).Some? <==> |RowFields(line, cap)| >= 6)
    ensures cap < 6 ==> RowRecord(id, line, cap) == None
    ensures RowRecord(id, line, cap).Some? ==>
      var q := RowRecord(id, line, cap).value;
      var f := RowFields(line, cap);
      && q.question == f[0]
      && q.options == Options(f[1], f[2], f[3], f[4])
      && q.answer == ToUpper(f[5])
      && IsUpper(q.answer)
  {
    var f := RowFields(line, cap);
    if !IsBlank(line) && |f| >= 6 {
      ToUpperSpec(f[5]);
    }
  }

  /** The record each line yields, indexed by line. */
  function Rows(lines: seq<string>, cap: nat): (rows: seq<Option<Question>>)
    ensures |rows| == |lines|
  {
    seq(|lines|, i requires 0 <= i < |lines| => RowRecord(i, lines[i], cap))
  }

  lemma RowsAt(lines: seq<string>, cap: nat, i: nat)
    requires i < |lines|
    ensures Rows(lines, cap)[i] == RowRecord(i, lines[i], cap)
  {
  }

  /** Every line's record carries the line index as its id. */
  lemma RowsIdsMatch(lines: seq<string>, cap: nat)
    ensures IdsMatch(Rows(lines, cap))
  {
    forall i | 0 <= i < |lines| && Rows(lines, cap)[i].Some?
      ensures Rows(lines, cap)[i].value.id == i
    {
      RowsAt(lines, cap, i);
    }
  }

  /** A header narrower than six columns leaves every line without a record. */
  lemma RowsNarrowHeader(lines: seq<string>, cap: nat)
    requires cap < 6
    ensures forall i :: 0 <= i < |lines| ==> Rows(lines, cap)[i] == None
  {
    forall i | 0 <= i < |lines| ensures Rows(lines, cap)[i] == None {
      RowsAt(lines, cap, i);
      RowRecordSpec(i, lines[i], cap);
    }
  }

  /** Each row's record carries the row's index as its id. */
  ghost predicate IdsMatch(rows: seq<Option<Question>>)
  {
    forall i :: 0 <= i < |rows| && rows[i].Some? ==> rows[i].value.id == i
  }

  predicate HasRecord(rows: seq<Option<Question>>, i: nat)
  {
    i < |rows| && rows[i].Some?
  }

  /** The records of rows 1 to `n - 1`, in row order: row 0 is the header. */
  function Collect(rows: seq<Option<Question>>, n: nat): seq<Question>
    requires n <= |rows|
  {
    if n <= 1 then []
    else if rows[n - 1].Some? then Collect(rows, n - 1) + [rows[n - 1].value]
    else Collect(rows, n - 1)
  }

  /** `result` holds exactly the records of rows 1 to `n - 1`, each once, in
      strictly increasing id order, and comes from a row that yields it. */
  ghost predicate CollectedFrom(rows: seq<Option<Question>>, n: nat, result: seq<Question>)
    requires n <= |rows|
  {
    && (forall k :: 0 <= k < |result| ==>
          && 1 <= result[k].id < n
          && rows[result[k].id] == Some(result[k]))
    && (forall k, m :: 0 <= k < m < |result| ==> result[k].id < result[m].id)
    && Covers(rows, n, result)
  }

  /** Every row from 1 to `n - 1` that yields a record has it in `result`. */
  ghost predicate Covers(rows: seq<Option<Question>>, n: nat, result: seq<Question>)
  {
    forall i {:trigger HasRecord(rows, i)} :: 1 <= i < n && HasRecord(rows, i) ==>
      exists k :: 0 <= k < |result| && result[k].id == i
  }

  /** `result` is what `parseCSV(text)` returns: exactly the records of the
      lines after the header that yield one, in line order, each tagged with
      its line index. */
  ghost predicate IsParseOf(text: string, result: seq<Question>)
  {
    var lines := Lines(text);
    CollectedFrom(Rows(lines, ColumnCount(lines[0])), |lines|, result)
  }

  /** Every collected record is the record of its own row, and there is at
      most one per row after the header. */
  lemma {:induction false} CollectSound(rows: seq<Option<Question>>, n: nat)
    requires n <= |rows| && IdsMatch(rows)
    ensures var r := Collect(rows, n);
      forall k :: 0 <= k < |r| ==> 1 <= r[k].id < n && rows[r[k].id] == Some(r[k])
    ensures |Collect(rows, n)| <= n - 1 || n == 0
    decreases n
  {
    if n > 1 {
      CollectSound(rows, n - 1);
      var prev := Collect(rows, n - 1);
      var r := Collect(rows, n);
      if rows[n - 1].Some? {
        assert r == prev + [rows[n - 1].value];
        forall k | 0 <= k < |r| ensures 1 <= r[k].id < n && rows[r[k].id] == Some(r[k]) {
          if k < |prev| {
            assert r[k] == prev[k];
          }
        }
      }
    }
  }

  /** The collected records come in strictly increasing id order. */
  lemma {:induction false} CollectSorted(rows: seq<Option<Question>>, n: nat)
    requires n <= |rows| && IdsMatch(rows)
    ensures var r := Collect(rows, n);
      forall k, m :: 0 <= k < m < |r| ==> r[k].id < r[m].id
    decreases n
  {
    if n > 1 {
      CollectSorted(rows, n - 1);
      CollectSound(rows, n - 1);
      var prev := Collect(rows, n - 1);
      var r := Collect(rows, n);
      if rows[n - 1].Some? {
        assert r == prev + [rows[n - 1].value];
        forall k, m | 0 <= k < m < |r| ensures r[k].id < r[m].id {
          assert r[k] == prev[k];
          if m < |prev| {
            assert r[m] == prev[m];
          }
        }
      }
    }
  }

  /** No row that yields a record is missed. */
  lemma {:induction false} CollectComplete(rows: seq<Option<Question>>, n: nat)
    requires n <= |rows| && IdsMatch(rows)
    ensures Covers(rows, n, Collect(rows, n))
    decreases n
  {
    if n > 1 {
      CollectComplete(rows, n - 1);
      var prev := Collect(rows, n - 1);
      var r := Collect(rows, n);
      forall i {:trigger HasRecord(rows, i)} | 1 <= i < n && HasRecord(rows, i)
        ensures exists k :: 0 <= k < |r| && r[k].id == i
      {
        if i < n - 1 {
          var k :| 0 <= k < |prev| && prev[k].id == i;
          assert r[k] == prev[k];
        } else {
          assert r == prev + [rows[n - 1].value];
          assert r[|r| - 1].id == i;
        }
      }
    }
  }

  lemma CollectCharacterized(rows: seq<Option<Question>>, n: nat)
    requires n <= |rows| && IdsMatch(rows)
    ensures CollectedFrom(rows, n, Collect(rows, n))
    ensures |Collect(rows, n)| <= n - 1 || n == 0
  {
    CollectSound(rows, n);
    CollectSorted(rows, n);
    CollectComplete(rows, n);
  }

  /** Rows that yield nothing collect to nothing. */
  lemma {:induction false} CollectNone(rows: seq<Option<Question>>, n: nat)
    requires n <= |rows|
    requires forall i :: 0 <= i < |rows| ==> rows[i] == None
    ensures Collect(rows, n) == []
    decreases n
  {
    if n > 1 {
      CollectNone(rows, n - 1);
    }
  }

  /** The description is complete: only `Collect` meets it. */
  lemma {:induction false} CollectedFromIsCollect(rows: seq<Option<Question>>, n: nat, result: seq<Question>)
    requires n <= |rows| && CollectedFrom(rows, n, result)
    ensures result == Collect(rows, n)
    decreases n
  {
    if n <= 1 {
      IncreasingIdsBound(result, n);
    } else if rows[n - 1].Some? {
      var prefix := CollectedFromLast(rows, n, result);
      CollectedFromIsCollect(rows, n - 1, prefix);
    } else {
      CollectedFromSkip(rows, n, result);
      CollectedFromIsCollect(rows, n - 1, result);
    }
  }

  /** Strictly increasing ids from 1 up to below `n` leave room for at
      most `n - 1` records. */
  lemma {:induction false} IncreasingIdsBound(result: seq<Question>, n: nat)
    requires forall k :: 0 <= k < |result| ==> 1 <= result[k].id < n
    requires forall k, m :: 0 <= k < m < |result| ==> result[k].id < result[m].id
    ensures |result| == 0 || |result| < n
    decreases |result|
  {
    if |result| > 0 {
      var last := |result| - 1;
      var prefix := result[..last];
      assert forall k :: 0 <= k < last ==> prefix[k] == result[k];
      IncreasingIdsBound(prefix, result[last].id);
    }
  }

  /** When the last row yields a record, it ends the result, and the rest
      describes the rows before it. */
  lemma CollectedFromLast(rows: seq<Option<Question>>, n: nat, result: seq<Question>)
      returns (prefix: seq<Question>)
    requires 1 < n <= |rows| && rows[n - 1].Some? && CollectedFrom(rows, n, result)
    ensures result == prefix + [rows[n - 1].value]
    ensures CollectedFrom(rows, n - 1, prefix)
  {
    LastRecordEnds(rows, n, result);
    var last := |result| - 1;
    prefix := result[..last];
    assert result == prefix + [result[last]];
    PrefixCovers(rows, n, result);
  }

  /** The last row's record is the last in the result. */
  lemma LastRecordEnds(rows: seq<Option<Question>>, n: nat, result: seq<Question>)
    requires 1 < n <= |rows| && rows[n - 1].Some? && CollectedFrom(rows, n, result)
    ensures |result| > 0 && result[|result| - 1] == rows[n - 1].value
    ensures result[|result| - 1].id == n - 1
  {
    assert HasRecord(rows, n - 1);
    var k :| 0 <= k < |result| && result[k].id == n - 1;
    var last := |result| - 1;
    assert result[last].id <= n - 1;
    assert k == last;
  }

  /** Dropping the record of row `n - 1` from the end leaves a description
      of rows 1 to `n - 2`. */
  lemma PrefixCovers(rows: seq<Option<Question>>, n: nat, result: seq<Question>)
    requires 1 < n <= |rows| && CollectedFrom(rows, n, result)
    requires |result| > 0 && result[|result| - 1].id == n - 1
    ensures CollectedFrom(rows, n - 1, result[..|result| - 1])
  {
    var last := |result| - 1;
    var prefix := result[..last];
    assert forall m :: 0 <= m < last ==> prefix[m] == result[m];
    assert forall m :: 0 <= m < last ==> result[m].id < result[last].id;
    forall i {:trigger HasRecord(rows, i)} | 1 <= i < n - 1 && HasRecord(rows, i)
      ensures exists m :: 0 <= m < |prefix| && prefix[m].id == i
    {
      var m :| 0 <= m < |result| && result[m].id == i;
      assert prefix[m] == result[m];
    }
  }

  /** When the last row yields nothing, the result describes the rows
      before it. */
  lemma CollectedFromSkip(rows: seq<Option<Question>>, n: nat, result: seq<Question>)
    requires 1 < n <= |rows| && rows[n - 1].None? && CollectedFrom(rows, n, result)
    ensures CollectedFrom(rows, n - 1, result)
  {
    assert forall m :: 0 <= m < |result| ==> result[m].id != n - 1;
    assert Covers(rows, n - 1, result) by {
      forall i {:trigger HasRecord(rows, i)} | 1 <= i < n - 1 && HasRecord(rows, i)
        ensures exists m :: 0 <= m < |result| && result[m].id == i
      {
        assert 1 <= i < n && HasRecord(rows, i);
      }
    }
  }

  /** A text has exactly one parse. */
  lemma ParseDeterministic(text: string, a: seq<Question>, b: seq<Question>)
    requires IsParseOf(text, a) && IsParseOf(text, b)
    ensures a == b
  {
    var lines := Lines(text);
    var rows := Rows(lines, ColumnCount(lines[0]));
    CollectedFromIsCollect(rows, |lines|, a);
    CollectedFromIsCollect(rows, |lines|, b);
  }

  /** `parseCSV`: the parse of the text, never longer than the lines after
      the header, and empty when the header has fewer than six columns. */
  method ParseCSV(text: string) returns (result: seq<Question>)
    ensures IsParseOf(text, result)
    ensures |result| <= |Lines(text)| - 1
    ensures ColumnCount(Lines(text)[0]) < 6 ==> result == []
  {
    var lines := Lines(text);
    var cap := ColumnCount(lines[0]);
    result := CollectLines(lines, cap);
    CollectParses(text);
  }

  /** The loop over the lines after the header. */
  method CollectLines(lines: seq<string>, cap: nat) returns (result: seq<Question>)
    requires |lines| >= 1
    ensures result == Collect(Rows(lines, cap), |lines|)
  {
    ghost var rows := Rows(lines, cap);
    result := [];
    for i := 1 to |lines|
      invariant result == Collect(rows, i)
    {
      RowsAt(lines, cap, i);
      var record := ReadLine(i, lines[i], cap);
      match record
      case Some(q) => result := result + [q];
      case None =>
    }
  }

  /** The body of that loop for line `id`: a blank line is skipped, a line
      with six fields or more is pushed as a record. */
  method ReadLine(id: nat, line: string, cap: nat) returns (record: Option<Question>)
    ensures record == RowRecord(id, line, cap)
  {
    if IsBlank(line) {
      return None;
    }
    var matches := ExtractFields(line, cap);
    if |matches| >= 6 {
      record := Some(Question(id, matches[0], Options(matches[1], matches[2], matches[3], matches[4]), ToUpper(matches[5])));
    } else {
      record := None;
    }
  }

  /** What `Collect` yields from a text's rows is its parse. */
  lemma CollectParses(text: string)
    ensures var lines := Lines(text);
      var rows := Rows(lines, ColumnCount(lines[0]));
      && IsParseOf(text, Collect(rows, |lines|))
      && |Collect(rows, |lines|)| <= |lines| - 1
      && (ColumnCount(lines[0]) < 6 ==> Collect(rows, |lines|) == [])
  {
    var lines := Lines(text);
    var cap := ColumnCount(lines[0]);
    var rows := Rows(lines, cap);
    RowsIdsMatch(lines, cap);
    CollectCharacterized(rows, |lines|);
    if cap < 6 {
      RowsNarrowHeader(lines, cap);
      CollectNone(rows, |lines|);
    }
  }

  /** Every parsed answer is upper case and every parsed record is the
      record of the line its id names. */
  lemma ParsedRecordsFromLines(text: string, result: seq<Question>)
    requires IsParseOf(text, result)
    ensures var lines := Lines(text);
      forall k :: 0 <= k < |result| ==>
        && 1 <= result[k].id < |lines|
        && RowRecord(result[k].id, lines[result[k].id], ColumnCount(lines[0])) == Some(result[k])
        && IsUpper(result[k].answer)
  {
    var lines := Lines(text);
    forall k | 0 <= k < |result|
      ensures && 1 <= result[k].id < |lines|
              && RowRecord(result[k].id, lines[result[k].id], ColumnCount(lines[0])) == Some(result[k])
              && IsUpper(result[k].answer)
    {
      RowsAt(lines, ColumnCount(lines[0]), result[k].id);
      RowRecordSpec(result[k].id, lines[result[k].id], ColumnCount(lines[0]));
    }
  }

  /** The field loop: unquoted fields are taken while the line has more and
      fewer than `cap` have been taken. */
  method ExtractFields(line: string, cap: nat) returns (matches: seq<string>)
    ensures matches == RowFields(line, cap)
  {
    var raw := SplitFields(line);
    matches := [];
    while |matches| < |raw| && |matches| < cap
      invariant |matches| <= |raw| && |matches| <= cap
      invariant forall k :: 0 <= k < |matches| ==> matches[k] == Unquote(raw[k])
    {
      var val := Unquote(raw[|matches|]);
      ghost var prev := matches;
      matches := matches + [val];
      assert forall k :: 0 <= k < |prev| ==> matches[k] == prev[k];
    }
    var f := RowFields(line, cap);
    assert |matches| == |f|;
    assert forall k :: 0 <= k < |f| ==> matches[k] == f[k];
  }

  /** A quoted row starts with a quote, so it is never blank. */
  lemma JoinQuotedNotBlank(values: seq<string>)
    requires |values| >= 1
    ensures !IsBlank(JoinQuoted(values))
  {
    var line := JoinQuoted(values);
    TrimSpec(line);
    assert line[0] == QuoteChar;
    assert !IsWhitespace(line[0]);
  }

  /** A row of quoted values parses to those values trimmed, cut off at the
      header's column count. */
  lemma RowFieldsOfQuoted(values: seq<string>, cap: nat)
    requires |values| >= 1
    ensures var f := RowFields(JoinQuoted(values), cap);
      && |f| == (if cap < |values| then cap else |values|)
      && forall k :: 0 <= k < |f| ==> f[k] == Trim(values[k])
  {
    SplitJoinQuoted(values);
    forall k | 0 <= k < |values| ensures Unquote(Quote(values[k])) == Trim(values[k]) {
      UnquoteQuote(values[k]);
    }
  }

  /** The row round trip: six or more quoted values, within the header's
      column count, come back as one record with the values trimmed and the
      answer upper-cased. */
  lemma RowRecordOfQuoted(id: nat, values: seq<string>, cap: nat)
    requires 6 <= |values| <= cap
    ensures RowRecord(id, JoinQuoted(values), cap)
      == Some(Question(id, Trim(values[0]),
                       Options(Trim(values[1]), Trim(values[2]), Trim(values[3]), Trim(values[4])),
                       ToUpper(Trim(values[5]))))
  {
    JoinQuotedNotBlank(values);
    RowFieldsOfQuoted(values, cap);
    RowRecordSpec(id, JoinQuoted(values), cap);
  }
}
