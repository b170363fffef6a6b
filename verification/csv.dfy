/** Field handling of the CSV parser: the quote-aware comma splitter that
    stands for the field regular expression, and the unquote step applied
    to every extracted field. */
module Csv {
  import opened Text

  const QuoteChar: char := '"'

  /** `/^"|"$/g` replaced by nothing: one leading and one trailing quote go,
      the trailing one only if it is not the leading one already removed. */
  function StripOuterQuotes(v: string): string
  {
    var u := if |v| > 0 && v[0] == QuoteChar then v[1..] else v;
    if |u| > 0 && u[|u| - 1] == QuoteChar then u[..|u| - 1] else u
  }

  /** `/""/g` replaced by `"`: doubled quotes, matched left to right without
      overlap, become single ones. */
  function CollapseQuotes(v: string): string
    decreases |v|
  {
    if |v| >= 2 && v[0] == QuoteChar && v[1] == QuoteChar then [QuoteChar] + CollapseQuotes(v[2..])
    else if v == [] then []
    else [v[0]] + CollapseQuotes(v[1..])
  }

  /** The per-field clean-up: strip the outer quotes, collapse doubled
      quotes, trim. */
  function Unquote(v: string): (r: string)
    ensures r == [] || (!IsWhitespace(r[0]) && !IsWhitespace(r[|r| - 1]))
  {
    TrimSpec(CollapseQuotes(StripOuterQuotes(v)));
    Trim(CollapseQuotes(StripOuterQuotes(v)))
  }

  /** Every quote doubled: the inside of a quoted field. */
  function Escape(s: string): string
  {
    if s == [] then []
    else (if s[0] == QuoteChar then [QuoteChar, QuoteChar] else [s[0]]) + Escape(s[1..])
  }

  /** A field written as a quoted CSV value. */
  function Quote(s: string): string
  {
    [QuoteChar] + Escape(s) + [QuoteChar]
  }

  /** Collapsing undoes escaping. */
  lemma {:induction false} CollapseEscape(s: string)
    ensures CollapseQuotes(Escape(s)) == s
    decreases |s|
  {
    if s != [] {
      CollapseEscape(s[1..]);
      var e := Escape(s);
      if s[0] == QuoteChar {
        assert e[2..] == Escape(s[1..]);
      } else {
        assert e[1..] == Escape(s[1..]);
      }
      assert s == [s[0]] + s[1..];
    }
  }

  /** The quoting round trip: unquoting a quoted value gives the value trimmed. */
  lemma UnquoteQuote(s: string)
    ensures Unquote(Quote(s)) == Trim(s)
  {
    var q := Quote(s);
    var u := q[1..];
    assert u == Escape(s) + [QuoteChar];
    assert u[..|u| - 1] == Escape(s);
    assert StripOuterQuotes(q) == Escape(s);
    CollapseEscape(s);
  }

  /** A field without quotes is only trimmed. */
  lemma UnquotePlain(v: string)
    requires QuoteChar !in v
    ensures Unquote(v) == Trim(v)
  {
    if v != [] {
      assert v[0] in v && v[|v| - 1] in v;
    }
    assert StripOuterQuotes(v) == v;
    CollapsePlain(v);
  }

  /** Without quotes there is nothing to collapse. */
  lemma {:induction false} CollapsePlain(v: string)
    requires QuoteChar !in v
    ensures CollapseQuotes(v) == v
    decreases |v|
  {
    if v != [] {
      assert v[0] in v;
      assert QuoteChar !in v[1..] by { assert forall x :: x in v[1..] ==> x in v; }
      CollapsePlain(v[1..]);
      assert v == [v[0]] + v[1..];
    }
  }

  /** Splits `rest` at commas outside quotes; `inQuotes` says whether a
      quote is open, `current` holds the field read so far. Fields keep
      their quotes, which `Unquote` removes. */
  function ScanFields(rest: string, inQuotes: bool, current: string): (fields: seq<string>)
    ensures |fields| >= 1
    decreases |rest|
  {
    if rest == [] then [current]
    else if rest[0] == ',' && !inQuotes then [current] + ScanFields(rest[1..], false, [])
    else ScanFields(rest[1..], if rest[0] == QuoteChar then !inQuotes else inQuotes, current + [rest[0]])
  }

  /** The raw fields of one line: the pieces between commas that are not
      inside a quoted value. */
  function SplitFields(line: string): (fields: seq<string>)
    ensures |fields| >= 1
  {
    ScanFields(line, false, [])
  }

  /** The splitter only cuts at commas: rejoining the fields with commas
      restores what was scanned. */
  lemma {:induction false} ScanFieldsJoin(rest: string, inQuotes: bool, current: string)
    ensures Join(ScanFields(rest, inQuotes, current), ',') == current + rest
    decreases |rest|
  {
    if rest == [] {
      assert current + rest == current;
    } else if rest[0] == ',' && !inQuotes {
      ScanFieldsJoin(rest[1..], false, []);
      assert [] + rest[1..] == rest[1..];
      assert current + rest == current + [','] + rest[1..];
    } else {
      ScanFieldsJoin(rest[1..], if rest[0] == QuoteChar then !inQuotes else inQuotes, current + [rest[0]]);
      assert current + [rest[0]] + rest[1..] == current + rest;
    }
  }

  lemma JoinSplitFields(line: string)
    ensures Join(SplitFields(line), ',') == line
  {
    ScanFieldsJoin(line, false, []);
  }

  /** Inside an open quote, an escaped value is read through whole, commas
      and doubled quotes included, and the quote is still open after it. */
  lemma {:induction false} ScanEscaped(s: string, rest: string, current: string)
    ensures ScanFields(Escape(s) + rest, true, current) == ScanFields(rest, true, current + Escape(s))
    decreases |s|
  {
    if s == [] {
      assert Escape(s) + rest == rest;
      assert current + Escape(s) == current;
    } else {
      var head := EscapeHead(s, rest, current);
      var e := Escape(s[1..]);
      ScanHead(s[0], e + rest, current);
      ScanEscaped(s[1..], rest, current + head);
    }
  }

  /** The escape of a non-empty value: its first character's escape, then
      the escape of the rest. */
  lemma EscapeHead(s: string, rest: string, current: string) returns (head: string)
    requires s != []
    ensures head == (if s[0] == QuoteChar then [QuoteChar, QuoteChar] else [s[0]])
    ensures Escape(s) + rest == head + (Escape(s[1..]) + rest)
    ensures current + Escape(s) == current + head + Escape(s[1..])
  {
    head := if s[0] == QuoteChar then [QuoteChar, QuoteChar] else [s[0]];
    assert Escape(s) == head + Escape(s[1..]);
  }

  /** Inside an open quote, one character of a value, doubled if it is a
      quote, is read into the field and leaves the quote open. */
  lemma ScanHead(c: char, t: string, current: string)
    ensures var head := if c == QuoteChar then [QuoteChar, QuoteChar] else [c];
      ScanFields(head + t, true, current) == ScanFields(t, true, current + head)
  {
    if c == QuoteChar {
      assert [QuoteChar, QuoteChar] + t == [QuoteChar] + ([QuoteChar] + t);
      ScanStep(QuoteChar, [QuoteChar] + t, true, current);
      ScanStep(QuoteChar, t, false, current + [QuoteChar]);
      assert current + [QuoteChar] + [QuoteChar] == current + [QuoteChar, QuoteChar];
    } else {
      ScanStep(c, t, true, current);
    }
  }

  /** One character that does not end the field is appended to it. */
  lemma ScanStep(c: char, t: string, inQuotes: bool, current: string)
    requires c != ',' || inQuotes
    ensures ScanFields([c] + t, inQuotes, current)
         == ScanFields(t, if c == QuoteChar then !inQuotes else inQuotes, current + [c])
  {
    assert ([c] + t)[0] == c && ([c] + t)[1..] == t;
  }

  /** A quoted value at the start of a field is read as one field body. */
  lemma ScanQuoted(s: string, rest: string)
    ensures ScanFields(Quote(s) + rest, false, []) == ScanFields(rest, false, Quote(s))
  {
    var t := Quote(s) + rest;
    assert t[1..] == Escape(s) + ([QuoteChar] + rest);
    ScanEscaped(s, [QuoteChar] + rest, [QuoteChar]);
    assert ([QuoteChar] + rest)[1..] == rest;
    assert [] + [QuoteChar] == [QuoteChar];
  }

  /** A row written as quoted values separated by commas. */
  function JoinQuoted(values: seq<string>): string
    requires |values| >= 1
  {
    if |values| == 1 then Quote(values[0]) else Quote(values[0]) + [','] + JoinQuoted(values[1..])
  }

  function QuoteAll(values: seq<string>): (r: seq<string>)
    ensures |r| == |values|
    ensures forall k :: 0 <= k < |values| ==> r[k] == Quote(values[k])
  {
    seq(|values|, k requires 0 <= k < |values| => Quote(values[k]))
  }

  /** The splitter round trip: the fields of a row of quoted values are
      exactly those quoted values, whatever commas or quotes they hold. */
  lemma {:induction false} SplitJoinQuoted(values: seq<string>)
    requires |values| >= 1
    ensures SplitFields(JoinQuoted(values)) == QuoteAll(values)
    decreases |values|
  {
    var q := Quote(values[0]);
    if |values| == 1 {
      ScanQuoted(values[0], []);
      assert q + [] == q;
    } else {
      var rest := JoinQuoted(values[1..]);
      SplitJoinQuoted(values[1..]);
      ScanQuoted(values[0], [','] + rest);
      assert q + [','] + rest == q + ([','] + rest);
      assert ([','] + rest)[1..] == rest;
      assert QuoteAll(values) == [q] + QuoteAll(values[1..]);
    }
  }
}
