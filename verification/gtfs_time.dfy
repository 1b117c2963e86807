/** GTFS `HH:MM:SS` times as seconds since local midnight. Hours may exceed 23
    (trips running past midnight) and minutes and seconds are not range
    checked: each part is read with `Integer.parseInt` and the total is
    `h * 3600 + m * 60 + s`. */
module GtfsTime {
  import opened Wrappers
  import opened Text

  const Colon: char := ':'

  // ---------------------------------------------------------------------------
  // `String.split(":")`.
  // ---------------------------------------------------------------------------

  /** Every piece between separators, empty pieces included. */
  function SplitAll(s: string, sep: char): (r: seq<string>)
    ensures |r| == Count(s, sep) + 1
    ensures JoinWith(r, sep) == s
    ensures AllFree(r, sep)
  {
    if |s| == 0 then [[]]
    else
      var init := SplitAll(s[..|s| - 1], sep);
      if s[|s| - 1] == sep then
        SplitAtSeparator(s, sep, init);
        init + [[]]
      else
        SplitExtendsLast(s, sep, init);
        init[..|init| - 1] + [init[|init| - 1] + [s[|s| - 1]]]
  }

  /** A trailing separator opens a new, empty piece. */
  lemma SplitAtSeparator(s: string, sep: char, init: seq<string>)
    requires |s| > 0 && s[|s| - 1] == sep
    requires |init| == Count(s[..|s| - 1], sep) + 1 && JoinWith(init, sep) == s[..|s| - 1] && AllFree(init, sep)
    ensures var r := init + [[]];
            |r| == Count(s, sep) + 1 && JoinWith(r, sep) == s && AllFree(r, sep)
  {
    assert s == s[..|s| - 1] + [sep];
    JoinEmptyLast(init, sep);
  }

  /** Any other trailing character extends the last piece. */
  lemma SplitExtendsLast(s: string, sep: char, init: seq<string>)
    requires |s| > 0 && s[|s| - 1] != sep
    requires |init| == Count(s[..|s| - 1], sep) + 1 && JoinWith(init, sep) == s[..|s| - 1] && AllFree(init, sep)
    ensures var r := init[..|init| - 1] + [init[|init| - 1] + [s[|s| - 1]]];
            |r| == Count(s, sep) + 1 && JoinWith(r, sep) == s && AllFree(r, sep)
  {
    var c := s[|s| - 1];
    var k := |init| - 1;
    assert s == s[..|s| - 1] + [c];
    assert init[..k] + [init[k]] == init;
    JoinAppend(init[..k], init[k], [c], sep);
    var r := init[..k] + [init[k] + [c]];
    forall j | 0 <= j < |r|
      ensures Free(r[j], sep)
    {
      if j < k {
        assert r[j] == init[j];
      }
    }
  }

  lemma {:induction false} SplitAllFree(t: string, sep: char)
    requires Free(t, sep)
    ensures SplitAll(t, sep) == [t]
  {
    if |t| > 0 {
      SplitAllFree(t[..|t| - 1], sep);
      assert t[..|t| - 1] + [t[|t| - 1]] == t;
    }
  }

  lemma {:induction false} SplitAllAfterSeparator(s: string, t: string, sep: char)
    requires Free(t, sep)
    ensures SplitAll(s + [sep] + t, sep) == SplitAll(s, sep) + [t]
    decreases |t|
  {
    if |t| == 0 {
      assert s + [sep] + t == s + [sep];
      assert (s + [sep])[..|s|] == s;
    } else {
      var t' := t[..|t| - 1];
      SplitAllAfterSeparator(s, t', sep);
      var u := s + [sep] + t;
      assert u[..|u| - 1] == s + [sep] + t';
      assert t' + [t[|t| - 1]] == t;
    }
  }

  /** Splitting undoes joining, as long as no piece contains the separator. */
  lemma {:induction false} SplitAllJoin(pieces: seq<string>, sep: char)
    requires |pieces| >= 1 && AllFree(pieces, sep)
    ensures SplitAll(JoinWith(pieces, sep), sep) == pieces
  {
    if |pieces| == 1 {
      SplitAllFree(pieces[0], sep);
    } else {
      var init := pieces[..|pieces| - 1];
      var last := pieces[|pieces| - 1];
      assert AllFree(init, sep) by {
        forall k | 0 <= k < |init|
          ensures Free(init[k], sep)
        {
          assert init[k] == pieces[k];
        }
      }
      SplitAllJoin(init, sep);
      assert init + [last] == pieces;
      SplitJoinStep(init, last, sep);
    }
  }

  lemma SplitJoinStep(init: seq<string>, last: string, sep: char)
    requires |init| >= 1 && Free(last, sep) && SplitAll(JoinWith(init, sep), sep) == init
    ensures SplitAll(JoinWith(init + [last], sep), sep) == init + [last]
  {
    assert (init + [last])[..|init|] == init;
    assert JoinWith(init + [last], sep) == JoinWith(init, sep) + [sep] + last;
    SplitAllAfterSeparator(JoinWith(init, sep), last, sep);
  }

  function DropTrailingEmpty(pieces: seq<string>): (r: seq<string>)
    ensures |r| <= |pieces| && r == pieces[..|r|]
    ensures forall k :: |r| <= k < |pieces| ==> pieces[k] == []
    ensures |r| == 0 || r[|r| - 1] != []
  {
    if |pieces| > 0 && pieces[|pieces| - 1] == [] then DropTrailingEmpty(pieces[..|pieces| - 1])
    else pieces
  }

  /** Java's `s.split(":")`: the whole string when it holds no separator,
      otherwise every piece except the trailing empty ones. */
  function JavaSplit(s: string, sep: char): (r: seq<string>)
    ensures AllFree(r, sep)
  {
    if Free(s, sep) then [s] else DropTrailingEmpty(SplitAll(s, sep))
  }

  // ---------------------------------------------------------------------------
  // The parser and its inverse.
  // ---------------------------------------------------------------------------

  /** The parts after splitting: exactly three, each a Java `int`; `None`
      stands for the `NumberFormatException`. The sum is taken without
      32-bit wrap-around. */
  function ParseParts(parts: seq<string>): (r: Option<int>)
    ensures r.Some? <==> |parts| == 3 && ParseInt(parts[0]).Some? && ParseInt(parts[1]).Some? && ParseInt(parts[2]).Some?
    ensures r.Some? ==> r.value == ParseInt(parts[0]).value * 3600 + ParseInt(parts[1]).value * 60 + ParseInt(parts[2]).value
  {
    if |parts| != 3 then None
    else
      var h :- ParseInt(parts[0]);
      var m :- ParseInt(parts[1]);
      var sec :- ParseInt(parts[2]);
      Some(h * 3600 + m * 60 + sec)
  }

  /** `parseGtfsTimeToSeconds`: split on colons, then read the parts. */
  function ParseGtfsTime(s: string): Option<int> {
    ParseParts(JavaSplit(s, Colon))
  }

  /** Three fields joined by colons. */
  function Fields(a: string, b: string, c: string): string {
    a + [Colon] + b + [Colon] + c
  }

  /** A time written the way `Integer.toString` writes each part. */
  function FormatTime(h: int, m: int, sec: int): string {
    Fields(IntToString(h), IntToString(m), IntToString(sec))
  }

  lemma IntToStringColonFree(n: int)
    ensures Free(IntToString(n), Colon)
  {
    var s := IntToString(n);
    forall i | 0 <= i < |s|
      ensures s[i] != Colon
    {
      if n < 0 && i == 0 {
      } else if n < 0 {
        assert s[i] == NatToString(-n)[i - 1];
      }
    }
  }

  /** Splitting three colon-free fields gives the fields back, empty ones
      included, as long as the last one is not empty. */
  lemma FieldsSplit(a: string, b: string, c: string)
    requires Free(a, Colon) && Free(b, Colon) && Free(c, Colon) && c != []
    ensures JavaSplit(Fields(a, b, c), Colon) == [a, b, c]
  {
    var s := Fields(a, b, c);
    JoinThree(a, b, c, Colon);
    SplitAllJoin([a, b, c], Colon);
    assert s[|a|] == Colon;
  }

  /** A string that splits into three readable parts reads as their sum. */
  lemma ReadThreeParts(s: string, a: string, b: string, c: string, x: int, y: int, z: int)
    requires JavaSplit(s, Colon) == [a, b, c]
    requires ParseInt(a) == Some(x) && ParseInt(b) == Some(y) && ParseInt(c) == Some(z)
    ensures ParseGtfsTime(s) == Some(x * 3600 + y * 60 + z)
  {
    assert ParseGtfsTime(s) == ParseParts([a, b, c]);
  }

  /** Reading back a written time gives `h * 3600 + m * 60 + s`, for any parts
      in Java's `int` range: hours above 23, minutes or seconds above 59, and
      negative parts are all accepted. */
  lemma ParseFormatTime(h: int, m: int, sec: int)
    requires InIntRange(h) && InIntRange(m) && InIntRange(sec)
    ensures ParseGtfsTime(FormatTime(h, m, sec)) == Some(h * 3600 + m * 60 + sec)
  {
    IntToStringColonFree(h);
    IntToStringColonFree(m);
    IntToStringColonFree(sec);
    FieldsSplit(IntToString(h), IntToString(m), IntToString(sec));
    ParseIntToString(h);
    ParseIntToString(m);
    ParseIntToString(sec);
    ReadThreeParts(FormatTime(h, m, sec), IntToString(h), IntToString(m), IntToString(sec), h, m, sec);
  }

  /** Unsigned digits read as their value, leading zeros and all. */
  lemma ParseDigits(p: string)
    requires |p| > 0 && AllDigits(p) && DigitsValue(p) <= IntMax
    ensures ParseInt(p) == Some(DigitsValue(p))
  {
    assert IsDigit(p[0]);
  }

  lemma DigitsColonFree(p: string)
    requires AllDigits(p)
    ensures Free(p, Colon)
  {
    forall i | 0 <= i < |p|
      ensures p[i] != Colon
    {
      assert IsDigit(p[i]);
    }
  }

  lemma DigitFieldsSplit(a: string, b: string, c: string)
    requires |c| > 0 && AllDigits(a) && AllDigits(b) && AllDigits(c)
    ensures JavaSplit(Fields(a, b, c), Colon) == [a, b, c]
  {
    DigitsColonFree(a);
    DigitsColonFree(b);
    DigitsColonFree(c);
    FieldsSplit(a, b, c);
  }

  /** Fields of digits, as feeds write them (`"08:05:00"`), read as
      `h * 3600 + m * 60 + s` of their values. */
  lemma ParseDigitFields(a: string, b: string, c: string, h: int, m: int, sec: int)
    requires |a| > 0 && |b| > 0 && |c| > 0 && AllDigits(a) && AllDigits(b) && AllDigits(c)
    requires DigitsValue(a) == h && DigitsValue(b) == m && DigitsValue(c) == sec
    requires h <= IntMax && m <= IntMax && sec <= IntMax
    ensures ParseGtfsTime(Fields(a, b, c)) == Some(h * 3600 + m * 60 + sec)
  {
    DigitFieldsSplit(a, b, c);
    ParseDigits(a);
    ParseDigits(b);
    ParseDigits(c);
    ReadThreeParts(Fields(a, b, c), a, b, c, h, m, sec);
  }

  /** A missing part fails: with two separators and an empty middle part, the
      split has three pieces but `Integer.parseInt("")` throws. */
  lemma EmptyPartFails(a: string, c: string)
    requires Free(a, Colon) && Free(c, Colon) && c != []
    ensures ParseGtfsTime(Fields(a, [], c)) == None
  {
    FieldsSplit(a, [], c);
    assert ParseGtfsTime(Fields(a, [], c)) == ParseParts([a, [], c]);
  }

  /** Two separators are needed: a string with fewer than two colons has at
      most two pieces and never parses. */
  lemma TooFewPartsFail(s: string)
    requires Count(s, Colon) < 2
    ensures ParseGtfsTime(s) == None
  {
  }

  lemma TwoDigitsValue(p: string)
    requires |p| == 2 && AllDigits(p)
    ensures DigitsValue(p) == 10 * DigitValue(p[0]) + DigitValue(p[1])
  {
    var first := p[..1];
    assert first[..0] == [] && first[0] == p[0];
    assert DigitsValue(first) == DigitValue(p[0]);
    assert p[..|p| - 1] == first;
  }

  /** Three two-character fields spelled out as one string. */
  lemma FieldsText(a: string, b: string, c: string, s: string)
    requires |a| == 2 && |b| == 2 && |c| == 2
    requires s == [a[0], a[1], Colon, b[0], b[1], Colon, c[0], c[1]]
    ensures s == Fields(a, b, c)
  {
  }

  /** A time of three two-digit fields reads as their weighted sum. */
  lemma TwoDigitTime(a: string, b: string, c: string, s: string, h: int, m: int, sec: int)
    requires |a| == 2 && |b| == 2 && |c| == 2 && AllDigits(a) && AllDigits(b) && AllDigits(c)
    requires h == 10 * DigitValue(a[0]) + DigitValue(a[1])
    requires m == 10 * DigitValue(b[0]) + DigitValue(b[1])
    requires sec == 10 * DigitValue(c[0]) + DigitValue(c[1])
    requires s == [a[0], a[1], Colon, b[0], b[1], Colon, c[0], c[1]]
    ensures ParseGtfsTime(s) == Some(h * 3600 + m * 60 + sec)
  {
    TwoDigitsValue(a);
    TwoDigitsValue(b);
    TwoDigitsValue(c);
    ParseDigitFields(a, b, c, h, m, sec);
    FieldsText(a, b, c, s);
  }

  /** Minutes are not range checked: `"00:90:00"` is 5400 s. */
  lemma NinetyMinutesExample()
    ensures ParseGtfsTime("00:90:00") == Some(5400)
  {
    TwoDigitTime("00", "90", "00", "00:90:00", 0, 90, 0);
  }

  /** Hours past 23 are accepted: `"25:00:00"` is 90000 s. */
  lemma PastMidnightExample()
    ensures ParseGtfsTime("25:00:00") == Some(90000)
  {
    TwoDigitTime("25", "00", "00", "25:00:00", 25, 0, 0);
  }

  /** A trailing separator after pieces whose last one is not empty is
      dropped again by `split`. */
  lemma JavaSplitTrailing(pieces: seq<string>, sep: char)
    requires |pieces| >= 1 && AllFree(pieces, sep) && pieces[|pieces| - 1] != []
    ensures JavaSplit(JoinWith(pieces, sep) + [sep], sep) == pieces
  {
    var s := JoinWith(pieces, sep) + [sep];
    assert s == JoinWith(pieces, sep) + [sep] + [];
    SplitAllAfterSeparator(JoinWith(pieces, sep), [], sep);
    SplitAllJoin(pieces, sep);
    assert SplitAll(s, sep) == pieces + [[]];
    assert s[|s| - 1] == sep;
    DropEmptyAfter(pieces);
  }

  lemma DropEmptyAfter(pieces: seq<string>)
    requires |pieces| >= 1 && pieces[|pieces| - 1] != []
    ensures DropTrailingEmpty(pieces + [[]]) == pieces
  {
    assert (pieces + [[]])[..|pieces|] == pieces;
  }

  /** Trailing separators are dropped by `split`: three fields followed by a
      colon, such as `"1:2:3:"`, read the same as without it. */
  lemma TrailingColonAccepted(a: string, b: string, c: string)
    requires Free(a, Colon) && Free(b, Colon) && Free(c, Colon) && c != []
    ensures ParseGtfsTime(Fields(a, b, c) + [Colon]) == ParseGtfsTime(Fields(a, b, c))
  {
    JoinThree(a, b, c, Colon);
    JavaSplitTrailing([a, b, c], Colon);
    FieldsSplit(a, b, c);
    SamePartsSameTime(Fields(a, b, c) + [Colon], Fields(a, b, c));
  }

  /** The parser looks only at the parts. */
  lemma SamePartsSameTime(s: string, t: string)
    requires JavaSplit(s, Colon) == JavaSplit(t, Colon)
    ensures ParseGtfsTime(s) == ParseGtfsTime(t)
  {
    assert ParseGtfsTime(s) == ParseParts(JavaSplit(s, Colon));
  }
}
