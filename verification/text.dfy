/** The handful of `java.lang.String` / `Integer` operations the feed loader and
    the two searches rely on, stated over `string` (= `seq<char>`). */
module Text {
  import opened Wrappers

  /** Smallest and largest Java `int`. */
  const IntMin: int := -0x8000_0000
  const IntMax: int := 0x7fff_ffff

  predicate InIntRange(n: int) {
    IntMin <= n <= IntMax
  }

  /** `Math.max`. */
  function Max(a: int, b: int): int {
    if a >= b then a else b
  }

  /** `Math.min`. */
  function Min(a: int, b: int): int {
    if a <= b then a else b
  }

  /** Java's `/` on `int`: the quotient rounded toward zero (Dafny's `/` on
      `int` rounds toward negative infinity for a negative dividend). */
  function JavaDiv(a: int, b: int): (q: int)
    requires b > 0
    ensures a >= 0 ==> q == a / b
    ensures a < 0 ==> q == -((-a) / b)
  {
    if a >= 0 then a / b else -((-a) / b)
  }

  // ---------------------------------------------------------------------------
  // Whitespace: `String.trim` and `String.isBlank` use two different notions.
  // ---------------------------------------------------------------------------

  /** `Character.isWhitespace`: the Unicode space, line and paragraph separators
      except the three no-break spaces, plus the ASCII controls U+0009..U+000D
      and U+001C..U+001F. */
  predicate IsWhitespace(c: char) {
    || ('\t' <= c <= '\r')
    || ('\U{1C}' <= c <= '\U{1F}')
    || c == ' '
    || c == '\U{1680}'
    || ('\U{2000}' <= c <= '\U{2006}')
    || ('\U{2008}' <= c <= '\U{200A}')
    || c == '\U{2028}' || c == '\U{2029}' || c == '\U{205F}' || c == '\U{3000}'
  }

  /** `String.isBlank`: empty or only whitespace. A Java `null` is handled by
      the callers, which test for it first. */
  predicate IsBlank(s: string) {
    forall i :: 0 <= i < |s| ==> IsWhitespace(s[i])
  }

  /** The characters `String.trim` strips: every code point up to U+0020. */
  predicate IsTrimmable(c: char) {
    c <= ' '
  }

  function TrimStart(s: string): (r: string)
    ensures |r| <= |s| && r == s[|s| - |r|..]
    ensures forall i :: 0 <= i < |s| - |r| ==> IsTrimmable(s[i])
    ensures r == [] || !IsTrimmable(r[0])
  {
    if |s| > 0 && IsTrimmable(s[0]) then TrimStart(s[1..]) else s
  }

  function TrimEnd(s: string): (r: string)
    ensures |r| <= |s| && r == s[..|r|]
    ensures forall i :: |r| <= i < |s| ==> IsTrimmable(s[i])
    ensures r == [] || !IsTrimmable(r[|r| - 1])
  {
    if |s| > 0 && IsTrimmable(s[|s| - 1]) then TrimEnd(s[..|s| - 1]) else s
  }

  /** `r` is the slice of `s` starting at `i`, and everything outside it is
      trimmable. */
  predicate TrimmedAt(s: string, i: int, r: string) {
    && 0 <= i <= |s| - |r|
    && r == s[i..i + |r|]
    && (forall k :: 0 <= k < i ==> IsTrimmable(s[k]))
    && (forall k :: i + |r| <= k < |s| ==> IsTrimmable(s[k]))
  }

  /** `String.trim`: the longest slice of `s` that neither starts nor ends
      with a character up to U+0020. */
  function Trim(s: string): (r: string)
    ensures exists i :: TrimmedAt(s, i, r)
    ensures r == [] || (!IsTrimmable(r[0]) && !IsTrimmable(r[|r| - 1]))
  {
    var t := TrimStart(s);
    var r := TrimEnd(t);
    assert r == s[|s| - |t|..][..|r|] == s[|s| - |t|..|s| - |t| + |r|];
    assert TrimmedAt(s, |s| - |t|, r);
    r
  }

  /** The two clauses of `Trim`'s contract pin its result: any slice that
      leaves only trimmable characters outside and starts and ends with a
      character that is not, is the trimmed string. */
  lemma TrimmedIsTrim(s: string, i: int, r: string)
    requires TrimmedAt(s, i, r)
    requires r == [] || (!IsTrimmable(r[0]) && !IsTrimmable(r[|r| - 1]))
    ensures r == Trim(s)
  {
    var j :| TrimmedAt(s, j, Trim(s));
    var t := Trim(s);
    if r != [] && t != [] {
      // Both slices start at the first character that is not trimmable.
      assert !IsTrimmable(s[i]) && !IsTrimmable(s[j]);
      assert i == j;
      // And both end at the last one.
      assert !IsTrimmable(s[i + |r| - 1]) && !IsTrimmable(s[j + |t| - 1]);
      assert |r| == |t|;
    }
  }

  /** Trimming twice changes nothing more. */
  lemma TrimIdempotent(s: string)
    ensures Trim(Trim(s)) == Trim(s)
  {
    var r := Trim(s);
    assert TrimStart(r) == r;
    assert TrimEnd(r) == r;
  }

  /** A trimmed string is blank only when it is empty or consists of
      whitespace that is not trimmable (U+1680, U+2000.. and the like). */
  lemma TrimmedAsciiBlankIsEmpty(s: string)
    requires forall i :: 0 <= i < |s| ==> s[i] <= '\U{7F}'
    ensures IsBlank(Trim(s)) <==> Trim(s) == []
  {
    var r := Trim(s);
    if r != [] {
      assert !IsTrimmable(r[0]);
      var i :| TrimmedAt(s, i, r);
      assert r[0] == s[i];
      assert !IsWhitespace(r[0]);
    }
  }

  // ---------------------------------------------------------------------------
  // Separators: joining pieces with one character and counting occurrences.
  // ---------------------------------------------------------------------------

  /** `pieces` joined with `sep` between consecutive pieces. */
  function JoinWith(pieces: seq<string>, sep: char): string {
    if |pieces| == 0 then []
    else if |pieces| == 1 then pieces[0]
    else JoinWith(pieces[..|pieces| - 1], sep) + [sep] + pieces[|pieces| - 1]
  }

  function Count(s: string, c: char): nat {
    if |s| == 0 then 0 else Count(s[..|s| - 1], c) + (if s[|s| - 1] == c then 1 else 0)
  }

  /** `c` does not occur in `s`. */
  predicate Free(s: string, c: char) {
    forall i :: 0 <= i < |s| ==> s[i] != c
  }

  predicate AllFree(pieces: seq<string>, c: char) {
    forall k :: 0 <= k < |pieces| ==> Free(pieces[k], c)
  }

  lemma JoinAppend(xs: seq<string>, x: string, y: string, sep: char)
    ensures JoinWith(xs + [x + y], sep) == JoinWith(xs + [x], sep) + y
  {
    if |xs| > 0 {
      assert (xs + [x + y])[..|xs|] == xs;
      assert (xs + [x])[..|xs|] == xs;
    }
  }

  lemma JoinThree(a: string, b: string, c: string, sep: char)
    ensures JoinWith([a, b, c], sep) == a + [sep] + b + [sep] + c
  {
    assert [a, b][..1] == [a];
    assert JoinWith([a], sep) == a;
    assert JoinWith([a, b], sep) == a + [sep] + b;
    assert [a, b, c][..2] == [a, b];
  }

  lemma JoinEmptyLast(xs: seq<string>, sep: char)
    requires |xs| >= 1
    ensures JoinWith(xs + [[]], sep) == JoinWith(xs, sep) + [sep]
  {
    assert (xs + [[]])[..|xs|] == xs;
  }

  lemma CountAppend(s: string, t: string, c: char)
    ensures Count(s + t, c) == Count(s, c) + Count(t, c)
    decreases |t|
  {
    if |t| > 0 {
      assert (s + t)[..|s + t| - 1] == s + t[..|t| - 1];
      CountAppend(s, t[..|t| - 1], c);
    } else {
      assert s + t == s;
    }
  }

  lemma CountCons(c: char, t: string, d: char)
    ensures Count([c] + t, d) == (if c == d then 1 else 0) + Count(t, d)
  {
    CountAppend([c], t, d);
  }

  // ---------------------------------------------------------------------------
  // Case folding and substring search.
  // ---------------------------------------------------------------------------

  /** `Character.toLowerCase` restricted to ASCII letters. */
  function ToLowerChar(c: char): char {
    if 'A' <= c <= 'Z' then (c as int - 'A' as int + 'a' as int) as char else c
  }

  /** `String.toLowerCase(Locale.ROOT)` on the ASCII range. */
  function ToLower(s: string): (r: string)
    ensures |r| == |s|
    ensures forall i :: 0 <= i < |s| ==> r[i] == ToLowerChar(s[i])
  {
    seq(|s|, i requires 0 <= i < |s| => ToLowerChar(s[i]))
  }

  lemma ToLowerIdempotent(s: string)
    ensures ToLower(ToLower(s)) == ToLower(s)
  {
  }

  /** `q` occurs in `s` at offset `i`. */
  predicate OccursAt(s: string, q: string, i: int) {
    0 <= i <= |s| - |q| && s[i..i + |q|] == q
  }

  /** `String.contains`: `q` occurs as a contiguous slice of `s`. */
  predicate Contains(s: string, q: string) {
    exists i | 0 <= i <= |s| - |q| :: OccursAt(s, q, i)
  }

  // ---------------------------------------------------------------------------
  // Decimal integers: `Integer.parseInt` and its inverse `Integer.toString`.
  // ---------------------------------------------------------------------------

  predicate IsDigit(c: char) {
    '0' <= c <= '9'
  }

  predicate AllDigits(s: string) {
    forall i :: 0 <= i < |s| ==> IsDigit(s[i])
  }

  function DigitValue(c: char): nat
    requires IsDigit(c)
  {
    c as int - '0' as int
  }

  function DigitChar(d: nat): (c: char)
    requires d < 10
    ensures IsDigit(c) && DigitValue(c) == d
  {
    ('0' as int + d) as char
  }

  /** The value of a string of decimal digits, most significant first. */
  function DigitsValue(s: string): nat
    requires AllDigits(s)
  {
    if |s| == 0 then 0 else 10 * DigitsValue(s[..|s| - 1]) + DigitValue(s[|s| - 1])
  }

  /** Decimal rendering of a natural number, without leading zeros. */
  function NatToString(n: nat): (r: string)
    ensures |r| > 0 && AllDigits(r)
    ensures |r| > 1 ==> r[0] != '0'
  {
    if n < 10 then [DigitChar(n)] else NatToString(n / 10) + [DigitChar(n % 10)]
  }

  /** `Integer.toString`. */
  function IntToString(n: int): (r: string)
    ensures |r| > 0
  {
    if n < 0 then "-" + NatToString(-n) else NatToString(n)
  }

  /** `Integer.parseInt(s)`: an optional sign followed by at least one digit,
      whose value fits a Java `int`; anything else throws, modelled as `None`.
      Only ASCII digits are recognised. */
  function ParseInt(s: string): (r: Option<int>)
    ensures r.Some? ==> InIntRange(r.value)
    ensures r.Some? ==> |s| > 0 && (AllDigits(s) || ((s[0] == '-' || s[0] == '+') && |s| > 1 && AllDigits(s[1..])))
    ensures r == None <== (|s| == 0 || IsWhitespace(s[0]) || IsWhitespace(s[|s| - 1]))
  {
    if |s| == 0 then None
    else
      var negative := s[0] == '-';
      var body := if s[0] == '-' || s[0] == '+' then s[1..] else s;
      if |body| == 0 || !AllDigits(body) then None
      else
        var v := if negative then -(DigitsValue(body) as int) else DigitsValue(body) as int;
        if InIntRange(v) then Some(v) else None
  }

  lemma {:induction false} DigitsValueOfNatToString(n: nat)
    ensures DigitsValue(NatToString(n)) == n
  {
    if n >= 10 {
      var s := NatToString(n);
      assert s[..|s| - 1] == NatToString(n / 10);
      DigitsValueOfNatToString(n / 10);
    }
  }

  /** `Integer.parseInt` inverts `Integer.toString` on the whole `int` range. */
  lemma ParseIntToString(n: int)
    requires InIntRange(n)
    ensures ParseInt(IntToString(n)) == Some(n)
  {
    if n < 0 {
      ParseNegativeToString(n);
    } else {
      ParseNaturalToString(n);
    }
  }

  lemma ParseNegativeToString(n: int)
    requires IntMin <= n < 0
    ensures ParseInt(IntToString(n)) == Some(n)
  {
    var s := IntToString(n);
    var body := NatToString(-n);
    assert s == "-" + body && s[0] == '-' && s[1..] == body;
    DigitsValueOfNatToString(-n);
    assert -(DigitsValue(body) as int) == n;
  }

  lemma ParseNaturalToString(n: int)
    requires 0 <= n <= IntMax
    ensures ParseInt(IntToString(n)) == Some(n)
  {
    var s := NatToString(n);
    assert IsDigit(s[0]);
    DigitsValueOfNatToString(n);
  }

  /** Leading zeros are accepted: "007" is 7. */
  lemma ParseIntLeadingZeros()
    ensures ParseInt("007") == Some(7)
    ensures ParseInt("-0") == Some(0)
    ensures ParseInt("+") == None && ParseInt("") == None
  {
    assert "007"[..2] == "00" && "00"[..1] == "0";
    assert DigitsValue("0") == 0;
    assert DigitsValue("00") == 0;
    assert DigitsValue("007") == 7;
    assert "-0"[1..] == "0";
  }
}
