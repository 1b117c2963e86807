/** The feed loader's small CSV dialect: fields separated by commas, a double
    quote toggles "inside quotes" (where commas do not split), and `""` inside
    quotes stands for one literal quote character. */
module Csv {
  import opened Text

  const Quote: char := '"'
  const Comma: char := ','

  // ---------------------------------------------------------------------------
  // Tokenizer.
  // ---------------------------------------------------------------------------

  /** One step of the tokenizer loop at position `i`: `inside` is the quote
      state, `current` the field being built, `values` the fields closed so
      far. */
  function Scan(line: string, i: nat, inside: bool, current: string, values: seq<string>): (r: seq<string>)
    requires i <= |line|
    ensures |values| < |r| && r[..|values|] == values
    decreases |line| - i
  {
    if i == |line| then values + [current]
    else
      var c := line[i];
      if c == Quote then
        if inside && i + 1 < |line| && line[i + 1] == Quote then
          Scan(line, i + 2, inside, current + [Quote], values)
        else
          Scan(line, i + 1, !inside, current, values)
      else if c == Comma && !inside then
        Scan(line, i + 1, inside, [], values + [current])
      else
        Scan(line, i + 1, inside, current + [c], values)
  }

  /** Splits one line into fields. Never returns an empty list: the field
      being built when the line ends is always emitted. */
  function ParseCsvLine(line: string): (r: seq<string>)
    ensures |r| >= 1
    ensures line == [] ==> r == [[]]
  {
    Scan(line, 0, false, [], [])
  }

  // ---------------------------------------------------------------------------
  // Reference notions: joining fields back, counting separators, encoding.
  // ---------------------------------------------------------------------------

  /** Fields joined with commas (the inverse of splitting a quote-free line). */
  function Join(fields: seq<string>): string {
    JoinWith(fields, Comma)
  }

  /** The body of a quoted field: every quote doubled. */
  function Escape(f: string): (r: string)
    ensures |r| >= |f|
  {
    if |f| == 0 then []
    else (if f[0] == Quote then [Quote, Quote] else [f[0]]) + Escape(f[1..])
  }

  /** A field written in quotes, as a CSV writer would. */
  function EncodeField(f: string): string {
    [Quote] + Escape(f) + [Quote]
  }

  /** A whole row of quoted fields. */
  function EncodeRow(fields: seq<string>): string
    requires |fields| >= 1
    decreases |fields|
  {
    if |fields| == 1 then EncodeField(fields[0])
    else EncodeField(fields[0]) + [Comma] + EncodeRow(fields[1..])
  }

  // ---------------------------------------------------------------------------
  // Quote-free lines split at every comma.
  // ---------------------------------------------------------------------------

  lemma {:induction false} ScanQuoteFree(line: string, i: nat, current: string, values: seq<string>)
    requires i <= |line|
    requires Free(line[i..], Quote)
    requires AllFree(values, Comma) && Free(current, Comma)
    ensures var r := Scan(line, i, false, current, values);
            && Join(r) == Join(values + [current]) + line[i..]
            && AllFree(r, Comma)
            && |r| == |values| + 1 + Count(line[i..], Comma)
    decreases |line| - i
  {
    if i < |line| {
      var c := line[i];
      assert line[i..] == [c] + line[i + 1..];
      CountCons(c, line[i + 1..], Comma);
      assert c != Quote;
      if c == Comma {
        ScanQuoteFree(line, i + 1, [], values + [current]);
        JoinEmptyLast(values + [current], Comma);
      } else {
        ScanQuoteFree(line, i + 1, current + [c], values);
        JoinAppend(values, current, [c], Comma);
        assert Join(values + [current]) + [c] + line[i + 1..] == Join(values + [current]) + line[i..];
      }
    } else {
      assert values + [current] == Scan(line, i, false, current, values);
    }
  }

  /** A line without quote characters splits at every comma: the fields
      contain no comma, joining them restores the line, and there is exactly
      one more field than there are commas. */
  lemma QuoteFreeSplitsAtEveryComma(line: string)
    requires Free(line, Quote)
    ensures var r := ParseCsvLine(line);
            && Join(r) == line
            && AllFree(r, Comma)
            && |r| == Count(line, Comma) + 1
  {
    assert line[0..] == line;
    ScanQuoteFree(line, 0, [], []);
    assert Join([[]]) == [];
  }

  // ---------------------------------------------------------------------------
  // Quoted fields: commas do not split and `""` yields one quote.
  // ---------------------------------------------------------------------------

  /** A slice of `line` spelling `front + back` starts with `front`, and the
      slice after it spells `back`. */
  lemma WindowSplit(line: string, j: nat, front: string, back: string)
    requires j + |front| + |back| <= |line| && line[j..j + |front| + |back|] == front + back
    ensures forall i :: 0 <= i < |front| ==> line[j + i] == front[i]
    ensures line[j + |front|..j + |front| + |back|] == back
  {
    var window := line[j..j + |front| + |back|];
    assert forall i :: 0 <= i < |front| ==> line[j + i] == window[i];
    assert line[j + |front|..j + |front| + |back|] == window[|front|..];
  }

  /** Inside quotes, a doubled quote adds one quote to the field. */
  lemma ScanDoubledQuote(line: string, j: nat, current: string, values: seq<string>)
    requires j + 1 < |line| && line[j] == Quote && line[j + 1] == Quote
    ensures Scan(line, j, true, current, values) == Scan(line, j + 2, true, current + [Quote], values)
  {
  }

  /** Inside quotes, a single quote closes the quoted part. */
  lemma ScanClosingQuote(line: string, j: nat, current: string, values: seq<string>)
    requires j < |line| && line[j] == Quote && (j + 1 == |line| || line[j + 1] != Quote)
    ensures Scan(line, j, true, current, values) == Scan(line, j + 1, false, current, values)
  {
  }

  /** Inside quotes, any other character is copied. */
  lemma ScanCopiesQuoted(line: string, j: nat, current: string, values: seq<string>)
    requires j < |line| && line[j] != Quote
    ensures Scan(line, j, true, current, values) == Scan(line, j + 1, true, current + [line[j]], values)
  {
  }

  /** Scanning the escaped body of a field and its closing quote, from
      inside the quotes, adds the field and leaves the quotes. */
  lemma {:induction false} ScanQuotedBody(line: string, j: nat, f: string, current: string, values: seq<string>)
    requires j + |Escape(f)| + 1 <= |line|
    requires line[j..j + |Escape(f)| + 1] == Escape(f) + [Quote]
    requires j + |Escape(f)| + 1 == |line| || line[j + |Escape(f)| + 1] != Quote
    ensures Scan(line, j, true, current, values) == Scan(line, j + |Escape(f)| + 1, false, current + f, values)
    decreases |f|, 1
  {
    if |f| == 0 {
      WindowSplit(line, j, [Quote], []);
      ScanClosingQuote(line, j, current, values);
      assert current + f == current;
    } else if f[0] == Quote {
      ScanQuotedPair(line, j, f, current, values);
    } else {
      ScanQuotedChar(line, j, f, current, values);
    }
  }

  lemma {:induction false} ScanQuotedPair(line: string, j: nat, f: string, current: string, values: seq<string>)
    requires |f| > 0 && f[0] == Quote
    requires j + |Escape(f)| + 1 <= |line|
    requires line[j..j + |Escape(f)| + 1] == Escape(f) + [Quote]
    requires j + |Escape(f)| + 1 == |line| || line[j + |Escape(f)| + 1] != Quote
    ensures Scan(line, j, true, current, values) == Scan(line, j + |Escape(f)| + 1, false, current + f, values)
    decreases |f|, 0
  {
    var rest := Escape(f[1..]);
    assert Escape(f) == [Quote, Quote] + rest;
    WindowSplit(line, j, [Quote, Quote], rest + [Quote]);
    ScanDoubledQuote(line, j, current, values);
    ScanQuotedBody(line, j + 2, f[1..], current + [Quote], values);
    assert current + [Quote] + f[1..] == current + f;
  }

  lemma {:induction false} ScanQuotedChar(line: string, j: nat, f: string, current: string, values: seq<string>)
    requires |f| > 0 && f[0] != Quote
    requires j + |Escape(f)| + 1 <= |line|
    requires line[j..j + |Escape(f)| + 1] == Escape(f) + [Quote]
    requires j + |Escape(f)| + 1 == |line| || line[j + |Escape(f)| + 1] != Quote
    ensures Scan(line, j, true, current, values) == Scan(line, j + |Escape(f)| + 1, false, current + f, values)
    decreases |f|, 0
  {
    var rest := Escape(f[1..]);
    assert Escape(f) == [f[0]] + rest;
    WindowSplit(line, j, [f[0]], rest + [Quote]);
    ScanCopiesQuoted(line, j, current, values);
    ScanQuotedBody(line, j + 1, f[1..], current + [f[0]], values);
    assert current + [f[0]] + f[1..] == current + f;
  }

  /** Outside quotes, a quote opens the quoted part. */
  lemma ScanOpeningQuote(line: string, i: nat, current: string, values: seq<string>)
    requires i < |line| && line[i] == Quote
    ensures Scan(line, i, false, current, values) == Scan(line, i + 1, true, current, values)
  {
  }

  /** Outside quotes, a comma closes the field. */
  lemma ScanComma(line: string, i: nat, current: string, values: seq<string>)
    requires i < |line| && line[i] == Comma
    ensures Scan(line, i, false, current, values) == Scan(line, i + 1, false, [], values + [current])
  {
  }

  /** One quoted field at position `i`, followed by whatever comes after
      it: scanning it adds the field and stops right after the closing
      quote. */
  lemma ScanEncodedField(line: string, i: nat, f: string, values: seq<string>)
    requires i + |EncodeField(f)| <= |line| && line[i..i + |EncodeField(f)|] == EncodeField(f)
    requires i + |EncodeField(f)| == |line| || line[i + |EncodeField(f)|] != Quote
    ensures Scan(line, i, false, [], values) == Scan(line, i + |EncodeField(f)|, false, f, values)
  {
    var e := Escape(f);
    WindowSplit(line, i, [Quote], e + [Quote]);
    ScanOpeningQuote(line, i, [], values);
    ScanQuotedBody(line, i + 1, f, [], values);
    assert [] + f == f;
  }

  /** The last field of a row: scanning it ends the line. */
  lemma ScanLastField(line: string, i: nat, f: string, values: seq<string>)
    requires i <= |line| && line[i..] == EncodeField(f)
    ensures Scan(line, i, false, [], values) == values + [f]
  {
    assert line[i..i + |EncodeField(f)|] == EncodeField(f);
    ScanEncodedField(line, i, f, values);
  }

  /** A field followed by a comma: scanning both adds the field and starts
      the next one right after the comma. */
  lemma ScanFieldThenComma(line: string, i: nat, f: string, tail: string, values: seq<string>)
    requires i <= |line| && line[i..] == EncodeField(f) + [Comma] + tail
    ensures Scan(line, i, false, [], values) == Scan(line, i + |EncodeField(f)| + 1, false, [], values + [f])
    ensures line[i + |EncodeField(f)| + 1..] == tail
  {
    var n := |EncodeField(f)|;
    WindowSplit(line, i, EncodeField(f), [Comma] + tail);
    ScanEncodedField(line, i, f, values);
    ScanComma(line, i + n, f, values);
  }

  lemma {:induction false} ScanEncodedRow(line: string, i: nat, fields: seq<string>, values: seq<string>)
    requires |fields| >= 1
    requires i <= |line| && line[i..] == EncodeRow(fields)
    ensures Scan(line, i, false, [], values) == values + fields
    decreases |fields|
  {
    var f := fields[0];
    if |fields| == 1 {
      ScanLastField(line, i, f, values);
    } else {
      ScanFieldThenComma(line, i, f, EncodeRow(fields[1..]), values);
      ScanEncodedRow(line, i + |EncodeField(f)| + 1, fields[1..], values + [f]);
      assert values + [f] + fields[1..] == values + fields;
    }
  }

  /** Writing any non-empty list of fields in quotes and parsing the line
      gives the fields back: commas inside quotes do not split, and each
      doubled quote becomes one literal quote. */
  lemma ParseEncodedRow(fields: seq<string>)
    requires |fields| >= 1
    ensures ParseCsvLine(EncodeRow(fields)) == fields
  {
    var line := EncodeRow(fields);
    assert line[0..] == line;
    ScanEncodedRow(line, 0, fields, []);
  }

  // ---------------------------------------------------------------------------
  // Quote characters are only ever copied from a doubled pair.
  // ---------------------------------------------------------------------------

  /** `line` never has two quote characters side by side. */
  predicate NoDoubledQuote(line: string) {
    forall k :: 0 <= k < |line| - 1 ==> !(line[k] == Quote && line[k + 1] == Quote)
  }

  lemma {:induction false} ScanDropsLoneQuotes(line: string, i: nat, inside: bool, current: string, values: seq<string>)
    requires i <= |line| && NoDoubledQuote(line)
    requires AllFree(values, Quote) && Free(current, Quote)
    ensures AllFree(Scan(line, i, inside, current, values), Quote)
    decreases |line| - i
  {
    if i < |line| {
      var c := line[i];
      if c == Quote {
        ScanDropsLoneQuotes(line, i + 1, !inside, current, values);
      } else if c == Comma && !inside {
        ScanDropsLoneQuotes(line, i + 1, inside, [], values + [current]);
      } else {
        ScanDropsLoneQuotes(line, i + 1, inside, current + [c], values);
      }
    }
  }

  /** Quote characters that are not part of a doubled pair only toggle the
      quote state: they never end up in a field. */
  lemma LoneQuotesAreDropped(line: string)
    requires NoDoubledQuote(line)
    ensures AllFree(ParseCsvLine(line), Quote)
  {
    ScanDropsLoneQuotes(line, 0, false, [], []);
  }

  /** Concrete cases of the dialect. */
  lemma CsvPlainExample()
    ensures ParseCsvLine("a,b") == ["a", "b"]
  {
    var ab := "a,b";
    assert ab[0] == 'a' && ab[1] == ',' && ab[2] == 'b';
    assert [] + ['a'] == "a" && [] + ['b'] == "b";
    assert Scan(ab, 2, false, [], ["a"]) == Scan(ab, 3, false, "b", ["a"]);
    assert Scan(ab, 1, false, "a", []) == Scan(ab, 2, false, [], ["a"]);
    assert Scan(ab, 0, false, [], []) == Scan(ab, 1, false, "a", []);
  }

  lemma CsvEmptyFieldsExample()
    ensures ParseCsvLine(",") == ["", ""]
  {
    assert Scan(",", 0, false, [], []) == Scan(",", 1, false, [], [[]]);
  }

  lemma CsvQuotedCommaExample()
    ensures ParseCsvLine("\"x,y\",\"z\"") == ["x,y", "z"]
  {
    assert Escape("z") == "z";
    assert Escape("x,y") == "x,y";
    assert EncodeRow(["x,y", "z"]) == "\"x,y\",\"z\"";
    ParseEncodedRow(["x,y", "z"]);
  }

  /** Four quote characters read as one field holding one quote. */
  lemma CsvEscapedQuoteExample()
    ensures ParseCsvLine("\"\"\"\"") == ["\""]
  {
    assert Escape("\"") == "\"\"";
    assert EncodeRow(["\""]) == "\"\"\"\"";
    ParseEncodedRow(["\""]);
  }

  // ---------------------------------------------------------------------------
  // Column lookup.
  // ---------------------------------------------------------------------------

  /** `getValue`: the trimmed token at `index`, or "" when the row is too
      short (or the index negative). */
  function GetValue(tokens: seq<string>, index: int): (r: string)
    ensures (index < 0 || index >= |tokens|) ==> r == []
    ensures 0 <= index < |tokens| ==> exists k :: TrimmedAt(tokens[index], k, r)
    ensures 0 <= index < |tokens| ==> r == [] || (!IsTrimmable(r[0]) && !IsTrimmable(r[|r| - 1]))
  {
    if index < 0 || index >= |tokens| then [] else Trim(tokens[index])
  }

  /** A header cell as a lookup key: trimmed, then lower-cased. */
  function ColumnKey(cell: string): string {
    ToLower(Trim(cell))
  }

  /** The key of every header cell, in column order. */
  function ColumnKeys(cells: seq<string>): (r: seq<string>)
    ensures |r| == |cells|
    ensures forall j :: 0 <= j < |cells| ==> r[j] == ColumnKey(cells[j])
  {
    seq(|cells|, j requires 0 <= j < |cells| => ColumnKey(cells[j]))
  }

  /** Each key mapped to a position holding it; a later position overwrites
      an earlier one, as repeated `Map.put` calls do. */
  function LastIndexOf(keys: seq<string>): (r: map<string, nat>)
    ensures forall k :: k in r ==> r[k] < |keys|
  {
    if |keys| == 0 then map[]
    else LastIndexOf(keys[..|keys| - 1])[keys[|keys| - 1] := |keys| - 1]
  }

  lemma {:induction false} LastIndexOfMembers(keys: seq<string>, name: string)
    ensures name in LastIndexOf(keys) <==> name in keys
  {
    if |keys| > 0 {
      var init := keys[..|keys| - 1];
      LastIndexOfMembers(init, name);
      assert keys == init + [keys[|keys| - 1]];
    }
  }

  lemma {:induction false} LastIndexOfIsLast(keys: seq<string>, name: string)
    requires name in LastIndexOf(keys)
    ensures var p := LastIndexOf(keys)[name];
            && keys[p] == name
            && forall j :: p < j < |keys| ==> keys[j] != name
  {
    var init := keys[..|keys| - 1];
    if keys[|keys| - 1] != name {
      assert LastIndexOf(keys)[name] == LastIndexOf(init)[name];
      LastIndexOfIsLast(init, name);
    }
  }

  /** `buildColumnIndex`: header names to column positions, case- and
      surrounding-space-insensitively, the last duplicate winning. */
  function BuildColumnIndex(header: string): map<string, nat> {
    LastIndexOf(ColumnKeys(ParseCsvLine(header)))
  }

  /** The index finds exactly the normalised header names, each at the
      position of its last occurrence. */
  lemma ColumnIndexIsLastOccurrence(header: string, name: string)
    ensures var cells := ParseCsvLine(header);
            var idx := BuildColumnIndex(header);
            && (name in idx <==> exists j :: 0 <= j < |cells| && ColumnKey(cells[j]) == name)
            && (name in idx ==> ColumnKey(cells[idx[name]]) == name
                                && forall j :: idx[name] < j < |cells| ==> ColumnKey(cells[j]) != name)
  {
    var keys := ColumnKeys(ParseCsvLine(header));
    LastIndexOfMembers(keys, name);
    if name in BuildColumnIndex(header) {
      LastIndexOfIsLast(keys, name);
    }
  }
}
