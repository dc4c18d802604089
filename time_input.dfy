/**
 * The query-line parser `parse_time` (src/main.rs:129-142): trim the line,
 * split it on ':', and read up to three `u8` fields as hour, minute and
 * second. A field that is missing reads as 0; a field that is present but
 * is not a `u8` in base 10 makes `expect` panic, which here is a failure
 * naming the field.
 */
module TimeInput {
  import opened Seqs
  import opened Wrappers

  // ----- str::trim -----

  /** Unicode White_Space, the set that `char::is_whitespace` (and so `str::trim`) uses. */
  function IsWhitespace(c: char): (r: bool)
    ensures c == ' ' || c == '\t' || c == '\n' || c == '\r' ==> r
    ensures c == ':' || c == '+' || '0' <= c <= '9' ==> !r
  {
    ('\t' <= c <= '\r') || c == ' ' || c == '\U{0085}' || c == '\U{00A0}' || c == '\U{1680}'
    || ('\U{2000}' <= c <= '\U{200A}') || c == '\U{2028}' || c == '\U{2029}'
    || c == '\U{202F}' || c == '\U{205F}' || c == '\U{3000}'
  }

  predicate AllWhitespace(s: string) {
    forall i :: 0 <= i < |s| ==> IsWhitespace(s[i])
  }

  /** `s` is empty or neither starts nor ends with whitespace. */
  predicate Trimmed(s: string) {
    s == [] || (!IsWhitespace(s[0]) && !IsWhitespace(s[|s| - 1]))
  }

  /** Drop leading whitespace: what is left is a suffix of `s` that does not start with it. */
  function TrimStart(s: string): (r: string)
    ensures |r| <= |s| && r == s[|s| - |r|..]
    ensures AllWhitespace(s[..|s| - |r|])
    ensures r == [] || !IsWhitespace(r[0])
  {
    if s != [] && IsWhitespace(s[0]) then
      var r := TrimStart(s[1..]);
      var k := |s| - |r|;
      assert forall i :: 0 < i < k ==> s[..k][i] == s[1..][..k - 1][i - 1];
      assert s[k..] == s[1..][k - 1..];
      r
    else s
  }

  /** Drop trailing whitespace: what is left is a prefix of `s` that does not end with it. */
  function TrimEnd(s: string): (r: string)
    ensures |r| <= |s| && r == s[..|r|]
    ensures AllWhitespace(s[|r|..])
    ensures r == [] || !IsWhitespace(r[|r| - 1])
  {
    if s != [] && IsWhitespace(s[|s| - 1]) then
      var r := TrimEnd(s[..|s| - 1]);
      assert forall i :: 0 <= i < |s| - 1 - |r| ==> s[|r|..][i] == s[..|s| - 1][|r|..][i];
      assert s[..|s| - 1][..|r|] == s[..|r|];
      r
    else s
  }

  /** `str::trim`. */
  function Trim(s: string): (r: string)
    ensures Trimmed(r) && |r| <= |s|
  {
    TrimEnd(TrimStart(s))
  }

  lemma {:induction false} TrimStartOf(pre: string, t: string)
    requires AllWhitespace(pre) && (t == [] || !IsWhitespace(t[0]))
    ensures TrimStart(pre + t) == t
  {
    if pre == [] {
      assert pre + t == t;
    } else {
      assert (pre + t)[1..] == pre[1..] + t;
      TrimStartOf(pre[1..], t);
    }
  }

  lemma {:induction false} TrimEndOf(t: string, post: string)
    requires AllWhitespace(post) && (t == [] || !IsWhitespace(t[|t| - 1]))
    ensures TrimEnd(t + post) == t
  {
    if post == [] {
      assert t + post == t;
    } else {
      assert (t + post)[..|t + post| - 1] == t + post[..|post| - 1];
      TrimEndOf(t, post[..|post| - 1]);
    }
  }

  /**
   * Trimming removes exactly the surrounding whitespace: a trimmed text
   * between two runs of whitespace comes back unchanged.
   */
  lemma {:induction false} TrimOf(pre: string, t: string, post: string)
    requires AllWhitespace(pre) && AllWhitespace(post) && Trimmed(t)
    ensures Trim(pre + t + post) == t
  {
    assert pre + t + post == pre + (t + post);
    if t == [] {
      assert t + post == post;
      TrimStartOf(pre, []);
      assert post == pre[..0] + post;
      TrimStartOf(pre + post, []);
      assert TrimStart(pre + post) == [];
    } else {
      TrimStartOf(pre, t + post);
      TrimEndOf(t, post);
    }
  }

  /** Trimmed text is left as it is. */
  lemma TrimTrimmed(t: string)
    requires Trimmed(t)
    ensures Trim(t) == t
  {
  }

  /** Trailing whitespace after a non-whitespace character only affects the tail. */
  lemma {:induction false} TrimEndAppend(x: string, y: string)
    requires x != [] && !IsWhitespace(x[|x| - 1])
    ensures TrimEnd(x + y) == x + TrimEnd(y)
  {
    if y == [] {
      assert x + y == x;
    } else {
      assert (x + y)[|x + y| - 1] == y[|y| - 1];
      if IsWhitespace(y[|y| - 1]) {
        assert (x + y)[..|x + y| - 1] == x + y[..|y| - 1];
        TrimEndAppend(x, y[..|y| - 1]);
      }
    }
  }

  // ----- str::split(':') -----

  /** Put the parts back together with ':' between them. */
  function Join(parts: seq<string>): string
    requires |parts| >= 1
  {
    if |parts| == 1 then parts[0] else parts[0] + [':'] + Join(parts[1..])
  }

  predicate NoColon(s: string) {
    ':' !in s
  }

  predicate NoColons(parts: seq<string>) {
    forall i :: 0 <= i < |parts| ==> NoColon(parts[i])
  }

  /**
   * `split(':')`: the pieces between colons, so one more piece than there
   * are colons (an empty text gives one empty piece); no piece holds a colon.
   */
  function Split(s: string): (parts: seq<string>)
    ensures |parts| >= 1 && NoColons(parts)
  {
    if s == [] then [[]]
    else
      var rest := Split(s[1..]);
      if s[0] == ':' then [[]] + rest
      else
        assert NoColon([s[0]] + rest[0]) by {
          assert NoColon(rest[0]);
        }
        [[s[0]] + rest[0]] + rest[1..]
  }

  /** Joining the pieces gives the text back. */
  lemma {:induction false} JoinSplit(s: string)
    ensures Join(Split(s)) == s
  {
    if s != [] {
      var rest := Split(s[1..]);
      JoinSplit(s[1..]);
      if s[0] == ':' {
        JoinColon(rest);
      } else {
        JoinCons(s[0], rest);
      }
      assert s == [s[0]] + s[1..];
    }
  }

  lemma JoinColon(rest: seq<string>)
    requires |rest| >= 1
    ensures Join([[]] + rest) == [':'] + Join(rest)
  {
    var parts := [[]] + rest;
    assert parts[0] == [] && parts[1..] == rest;
  }

  lemma JoinCons(c: char, rest: seq<string>)
    requires |rest| >= 1
    ensures Join([[c] + rest[0]] + rest[1..]) == [c] + Join(rest)
  {
    var parts := [[c] + rest[0]] + rest[1..];
    if |rest| == 1 {
      assert parts == [[c] + rest[0]];
    } else {
      assert parts[0] == [c] + rest[0] && parts[1..] == rest[1..];
      var tail := Join(rest[1..]);
      assert Join(parts) == ([c] + rest[0]) + [':'] + tail;
      assert Join(rest) == rest[0] + [':'] + tail;
      SpliceAssoc(c, rest[0], ':', tail);
    }
  }

  /** Splitting undoes joining, for pieces without colons. */
  lemma {:induction false} SplitJoin(parts: seq<string>)
    requires |parts| >= 1 && NoColons(parts)
    ensures Split(Join(parts)) == parts
  {
    if |parts| == 1 {
      SplitNoColon(parts[0]);
    } else {
      SplitJoin(parts[1..]);
      SplitColonPrefix(parts[0], Join(parts[1..]));
      assert parts == [parts[0]] + parts[1..];
    }
  }

  /** A text without colons is a single piece. */
  lemma {:induction false} SplitNoColon(s: string)
    requires NoColon(s)
    ensures Split(s) == [s]
  {
    if s != [] {
      SplitNoColon(s[1..]);
      assert s == [s[0]] + s[1..];
    }
  }

  lemma {:induction false} SplitColonPrefix(a: string, b: string)
    requires NoColon(a)
    ensures Split(a + [':'] + b) == [a] + Split(b)
  {
    if a == [] {
      assert a + [':'] + b == [':'] + b;
      assert ([':'] + b)[1..] == b;
    } else {
      assert (a + [':'] + b)[1..] == a[1..] + [':'] + b;
      SplitColonPrefix(a[1..], b);
      assert a == [a[0]] + a[1..];
    }
  }

  // ----- u8::from_str -----

  predicate IsDigit(c: char) {
    '0' <= c <= '9'
  }

  predicate AllDigits(s: string) {
    forall i :: 0 <= i < |s| ==> IsDigit(s[i])
  }

  function DigitValue(c: char): nat
    requires IsDigit(c)
  {
    (c as int) - ('0' as int)
  }

  /** The number a run of decimal digits denotes, without any width limit. */
  function DigitsValue(d: string): nat
    requires AllDigits(d)
  {
    if d == [] then 0 else DigitsValue(d[..|d| - 1]) * 10 + DigitValue(d[|d| - 1])
  }

  /** The largest value of a `u8`. */
  const U8Max: nat := 255

  /**
   * `u8::from_str`: an optional leading '+', then at least one decimal
   * digit, denoting a value that fits in a `u8`. Leading zeros are allowed.
   * Anything else (the empty text, a lone sign, a '-', another character,
   * a value above 255) is an error.
   */
  function ParseU8(field: string): (r: Option<nat>)
    ensures r.Some? ==> r.value <= U8Max
  {
    var digits := if |field| > 0 && field[0] == '+' then field[1..] else field;
    if digits == [] || !AllDigits(digits) then None
    else if DigitsValue(digits) > U8Max then None
    else Some(DigitsValue(digits))
  }

  function DigitChar(d: nat): (c: char)
    requires d < 10
    ensures IsDigit(c) && DigitValue(c) == d
  {
    ('0' as int + d) as char
  }

  /** The shortest decimal rendering of `n`. */
  function Decimal(n: nat): (s: string)
    ensures |s| >= 1 && AllDigits(s) && DigitsValue(s) == n
  {
    if n < 10 then [DigitChar(n)]
    else
      var s := Decimal(n / 10) + [DigitChar(n % 10)];
      assert s[..|s| - 1] == Decimal(n / 10);
      s
  }

  function Zeros(k: nat): (s: string)
    ensures |s| == k && AllDigits(s) && forall i :: 0 <= i < k ==> s[i] == '0'
  {
    if k == 0 then [] else Zeros(k - 1) + ['0']
  }

  function Sign(plus: bool): string {
    if plus then ['+'] else []
  }

  /** Leading zeros do not change the value of a digit run. */
  lemma {:induction false} ZerosPrefixValue(k: nat, d: string)
    requires AllDigits(d)
    ensures AllDigits(Zeros(k) + d) && DigitsValue(Zeros(k) + d) == DigitsValue(d)
  {
    var z := Zeros(k);
    if d == [] {
      assert z + d == z;
      ZerosValue(k);
    } else {
      var d' := d[..|d| - 1];
      assert (z + d)[..|z + d| - 1] == z + d';
      assert (z + d)[|z + d| - 1] == d[|d| - 1];
      ZerosPrefixValue(k, d');
    }
  }

  lemma {:induction false} ZerosValue(k: nat)
    ensures DigitsValue(Zeros(k)) == 0
  {
    if k > 0 {
      ZerosValue(k - 1);
      assert Zeros(k)[..k - 1] == Zeros(k - 1);
    }
  }

  /** An optional '+' followed by a non-empty digit run parses to its value when that fits a `u8`. */
  lemma {:induction false} ParseU8Signed(plus: bool, d: string)
    requires AllDigits(d) && d != []
    ensures ParseU8(Sign(plus) + d) == if DigitsValue(d) <= U8Max then Some(DigitsValue(d)) else None
  {
    var field := Sign(plus) + d;
    assert IsDigit(d[0]);
    if plus {
      assert field[0] == '+' && field[1..] == d;
    } else {
      assert field == d;
    }
  }

  /** Every `u8`, written in decimal with or without a '+' and leading zeros, parses back to itself. */
  lemma {:induction false} ParseU8Padded(plus: bool, zeros: nat, v: nat)
    requires v <= U8Max
    ensures ParseU8(Sign(plus) + (Zeros(zeros) + Decimal(v))) == Some(v)
  {
    ZerosPrefixValue(zeros, Decimal(v));
    ParseU8Signed(plus, Zeros(zeros) + Decimal(v));
  }

  /** A digit run whose value is 0 is all zeros. */
  lemma {:induction false} ValueZeroIsZeros(d: string)
    requires AllDigits(d) && DigitsValue(d) == 0
    ensures d == Zeros(|d|)
  {
    if d != [] {
      ValueZeroIsZeros(d[..|d| - 1]);
      assert d == d[..|d| - 1] + [d[|d| - 1]];
    }
  }

  /** Every non-empty digit run is leading zeros followed by the shortest rendering of its value. */
  lemma {:induction false} DigitsCanonical(d: string) returns (k: nat)
    requires AllDigits(d) && d != []
    ensures k < |d| && d == Zeros(k) + Decimal(DigitsValue(d))
  {
    var init, c := d[..|d| - 1], d[|d| - 1];
    assert d == init + [c];
    if DigitsValue(init) == 0 {
      ValueZeroIsZeros(init);
      assert Decimal(DigitsValue(d)) == [c];
      k := |init|;
      assert d == Zeros(k) + Decimal(DigitsValue(d));
    } else {
      k := DigitsCanonical(init);
      var n := DigitsValue(d);
      assert n / 10 == DigitsValue(init) && n % 10 == DigitValue(c);
      assert DigitChar(n % 10) == c;
      assert Decimal(n) == Decimal(DigitsValue(init)) + [c];
      assert d == Zeros(k) + Decimal(n);
    }
  }

  /** A field is its optional leading '+' followed by the rest. */
  lemma SignSplit(field: string)
    ensures var plus := |field| > 0 && field[0] == '+';
            field == Sign(plus) + (if plus then field[1..] else field)
  {
    if |field| > 0 && field[0] == '+' {
      assert field == [field[0]] + field[1..];
    } else {
      assert field == [] + field;
    }
  }

  /**
   * Conversely, every field that parses is a '+' or nothing, then leading
   * zeros, then the shortest decimal rendering of the value it parses to.
   */
  lemma {:induction false} ParseU8Accepted(field: string)
    requires ParseU8(field).Some?
    ensures exists plus: bool, zeros: nat ::
              field == Sign(plus) + (Zeros(zeros) + Decimal(ParseU8(field).value))
  {
    var plus := |field| > 0 && field[0] == '+';
    var digits := if plus then field[1..] else field;
    var v := DigitsValue(digits);
    assert ParseU8(field) == Some(v);
    var k := DigitsCanonical(digits);
    SignSplit(field);
    assert field == Sign(plus) + digits;
  }

  // ----- parse_time -----

  /** The field whose `expect` fires. */
  datatype TimeField = Hour | Minute | Second

  /** The parsed `(hour, minute, second)`, each a `u8`. */
  datatype TimeOfDay = TimeOfDay(hour: nat, minute: nat, second: nat)

  /** Piece `i` parsed as a `u8`, or 0 when there is no such piece (the `map_or(0, ...)`). */
  function FieldAt(parts: seq<string>, i: nat): (r: Option<nat>)
    ensures r.Some? ==> r.value <= U8Max
    ensures i >= |parts| ==> r == Some(0)
  {
    if i < |parts| then ParseU8(parts[i]) else Some(0)
  }

  /** The three `next()` calls in order: hour, then minute, then second. */
  function ParseFields(parts: seq<string>): (r: Result<TimeOfDay, TimeField>)
    ensures r.Success? ==> r.value.hour <= U8Max && r.value.minute <= U8Max && r.value.second <= U8Max
  {
    match FieldAt(parts, 0)
    case None => Failure(Hour)
    case Some(hour) =>
      match FieldAt(parts, 1)
      case None => Failure(Minute)
      case Some(minute) =>
        match FieldAt(parts, 2)
        case None => Failure(Second)
        case Some(second) => Success(TimeOfDay(hour, minute, second))
  }

  /** `parse_time` on the line as read, newline included. */
  function ParseTime(line: string): (r: Result<TimeOfDay, TimeField>)
    ensures r.Success? ==> r.value.hour <= U8Max && r.value.minute <= U8Max && r.value.second <= U8Max
  {
    ParseFields(Split(Trim(line)))
  }

  /** Pieces after the third are never looked at. */
  lemma {:induction false} ParseFieldsIgnoresExtra(parts: seq<string>, extra: seq<string>)
    requires |parts| >= 3
    ensures ParseFields(parts + extra) == ParseFields(parts)
  {
    assert (parts + extra)[0] == parts[0] && (parts + extra)[1] == parts[1] && (parts + extra)[2] == parts[2];
  }

  /**
   * A failure names the first of the three fields that is present and is
   * not a `u8`, and a success holds each field's value, 0 for a missing one.
   */
  lemma {:induction false} ParseFieldsOutcome(parts: seq<string>)
    ensures ParseFields(parts).Failure? <==>
              exists i :: 0 <= i < 3 && i < |parts| && ParseU8(parts[i]).None?
    ensures ParseFields(parts) == Failure(Minute) ==> ParseU8(parts[0]).Some? && ParseU8(parts[1]).None?
    ensures ParseFields(parts) == Failure(Second) ==>
              ParseU8(parts[0]).Some? && ParseU8(parts[1]).Some? && ParseU8(parts[2]).None?
    ensures ParseFields(parts) == Failure(Hour) ==> |parts| > 0 && ParseU8(parts[0]).None?
    ensures ParseFields(parts).Success? ==>
              var t := ParseFields(parts).value;
              (if |parts| > 0 then ParseU8(parts[0]) == Some(t.hour) else t.hour == 0) &&
              (if |parts| > 1 then ParseU8(parts[1]) == Some(t.minute) else t.minute == 0) &&
              (if |parts| > 2 then ParseU8(parts[2]) == Some(t.second) else t.second == 0)
  {
  }

  /** The hour piece always exists, so a blank line is an hour error, never midnight. */
  lemma {:induction false} ParseTimeBlank(line: string)
    requires AllWhitespace(line)
    ensures ParseTime(line) == Failure(Hour)
  {
    assert line == line + [] + [];
    TrimOf(line, [], []);
    assert Split([]) == [[]];
  }

  lemma {:induction false} DecimalTrimmed(n: nat)
    ensures Trimmed(Decimal(n)) && NoColon(Decimal(n)) && Decimal(n) != []
  {
    var d := Decimal(n);
    assert IsDigit(d[0]) && IsDigit(d[|d| - 1]);
    assert forall i :: 0 <= i < |d| ==> IsDigit(d[i]);
  }

  lemma {:induction false} ParseU8Decimal(v: nat)
    requires v <= U8Max
    ensures ParseU8(Decimal(v)) == Some(v)
  {
    ParseU8Padded(false, 0, v);
    assert Sign(false) + (Zeros(0) + Decimal(v)) == Decimal(v);
  }

  /** Three `u8`s in decimal parse as those three fields. */
  lemma {:induction false} ParseFieldsDecimal(h: nat, m: nat, s: nat)
    requires h <= U8Max && m <= U8Max && s <= U8Max
    ensures ParseFields([Decimal(h), Decimal(m), Decimal(s)]) == Success(TimeOfDay(h, m, s))
  {
    ParseU8Decimal(h);
    ParseU8Decimal(m);
    ParseU8Decimal(s);
  }

  /** Three colon-free fields joined by colons split back into them, whatever follows a third colon. */
  lemma {:induction false} SplitThree(a: string, b: string, c: string)
    requires NoColon(a) && NoColon(b) && NoColon(c)
    ensures Split(a + [':'] + b + [':'] + c) == [a, b, c]
  {
    var bc := b + [':'] + c;
    SplitNoColon(c);
    SplitColonPrefix(b, c);
    SplitColonPrefix(a, bc);
    Regroup3(a, ':', b, c);
  }

  lemma {:induction false} SplitThreeTail(a: string, b: string, c: string, tail: string)
    requires NoColon(a) && NoColon(b) && NoColon(c)
    ensures Split(a + [':'] + b + [':'] + c + [':'] + tail) == [a, b, c] + Split(tail)
  {
    var ct := c + [':'] + tail;
    var bct := b + [':'] + ct;
    SplitColonPrefix(c, tail);
    SplitSecond(b, c, tail);
    SplitColonPrefix(a, bct);
    Regroup4(a, ':', b, c, tail);
  }

  lemma {:induction false} SplitSecond(b: string, c: string, tail: string)
    requires NoColon(b) && NoColon(c)
    ensures Split(b + [':'] + (c + [':'] + tail)) == [b, c] + Split(tail)
  {
    SplitColonPrefix(c, tail);
    SplitColonPrefix(b, c + [':'] + tail);
  }

  /** A trimmed colon-free field list between whitespace reaches `ParseFields` unchanged. */
  lemma {:induction false} ParseTimeOfThree(pre: string, a: string, b: string, c: string, post: string)
    requires AllWhitespace(pre) && AllWhitespace(post)
    requires a != [] && c != [] && Trimmed(a) && Trimmed(c)
    requires NoColon(a) && NoColon(b) && NoColon(c)
    ensures ParseTime(pre + (a + [':'] + b + [':'] + c) + post) == ParseFields([a, b, c])
  {
    var text := a + [':'] + b + [':'] + c;
    assert text[0] == a[0];
    assert text[|text| - 1] == c[|c| - 1];
    TrimOf(pre, text, post);
    SplitThree(a, b, c);
  }

  /** "h:m:s" for three `u8`s, each in its shortest decimal form. */
  function ShowTime(h: nat, m: nat, s: nat): string {
    Decimal(h) + [':'] + Decimal(m) + [':'] + Decimal(s)
  }

  /**
   * The line "h:m:s", with any whitespace around it (the newline that
   * `read_line` keeps, say), parses to (h, m, s) for every three `u8`s.
   */
  lemma {:induction false} ParseTimeRoundTrip(pre: string, h: nat, m: nat, s: nat, post: string)
    requires AllWhitespace(pre) && AllWhitespace(post)
    requires h <= U8Max && m <= U8Max && s <= U8Max
    ensures ParseTime(pre + ShowTime(h, m, s) + post) == Success(TimeOfDay(h, m, s))
  {
    DecimalTrimmed(h);
    DecimalTrimmed(m);
    DecimalTrimmed(s);
    ParseTimeOfThree(pre, Decimal(h), Decimal(m), Decimal(s), post);
    ParseFieldsDecimal(h, m, s);
  }

  /** A `u8` field as a user may type it: an optional '+', leading zeros, then the value in decimal. */
  function Field(plus: bool, zeros: nat, v: nat): string {
    Sign(plus) + (Zeros(zeros) + Decimal(v))
  }

  /** Such a field holds only '+' and digits, so it is trimmed, colon-free and not empty. */
  lemma {:induction false} FieldTrimmed(plus: bool, zeros: nat, v: nat)
    ensures Field(plus, zeros, v) != [] && Trimmed(Field(plus, zeros, v)) && NoColon(Field(plus, zeros, v))
  {
    var f, d := Field(plus, zeros, v), Zeros(zeros) + Decimal(v);
    assert forall i :: 0 <= i < |d| ==> IsDigit(d[i]);
    assert forall i :: 0 <= i < |f| ==> f[i] == '+' || IsDigit(f[i]);
    assert f[|f| - 1] == d[|d| - 1];
  }

  /**
   * The round trip for every way of writing the three fields: "h:m:s" with
   * any '+' signs and leading zeros (the zero-padded "14:32:07" the prompt
   * shows, say), with any whitespace around it, parses to (h, m, s).
   */
  lemma {:induction false} ParseTimeFieldsRoundTrip(pre: string, post: string,
      hPlus: bool, hZeros: nat, h: nat, mPlus: bool, mZeros: nat, m: nat,
      sPlus: bool, sZeros: nat, s: nat)
    requires AllWhitespace(pre) && AllWhitespace(post)
    requires h <= U8Max && m <= U8Max && s <= U8Max
    ensures ParseTime(pre + (Field(hPlus, hZeros, h) + [':'] + Field(mPlus, mZeros, m) + [':'] +
                             Field(sPlus, sZeros, s)) + post) == Success(TimeOfDay(h, m, s))
  {
    var a, b, c := Field(hPlus, hZeros, h), Field(mPlus, mZeros, m), Field(sPlus, sZeros, s);
    FieldTrimmed(hPlus, hZeros, h);
    FieldTrimmed(mPlus, mZeros, m);
    FieldTrimmed(sPlus, sZeros, s);
    ParseTimeOfThree(pre, a, b, c, post);
    ParseU8Padded(hPlus, hZeros, h);
    ParseU8Padded(mPlus, mZeros, m);
    ParseU8Padded(sPlus, sZeros, s);
    ParseFieldsOfThree(a, b, c, h, m, s);
  }

  lemma ParseFieldsOfThree(a: string, b: string, c: string, h: nat, m: nat, s: nat)
    requires ParseU8(a) == Some(h) && ParseU8(b) == Some(m) && ParseU8(c) == Some(s)
    ensures ParseFields([a, b, c]) == Success(TimeOfDay(h, m, s))
  {
    var parts := [a, b, c];
    assert FieldAt(parts, 0) == Some(h) && FieldAt(parts, 1) == Some(m) && FieldAt(parts, 2) == Some(s);
  }

  /** The prompt's own example, as `read_line` delivers it. */
  lemma ParseTimeExample()
    ensures ParseTime("14:32:07\n") == Success(TimeOfDay(14, 32, 7))
  {
    ExampleFields();
    ParseTimeFieldsRoundTrip([], "\n", false, 0, 14, false, 0, 32, false, 1, 7);
  }

  /** The line of `ParseTimeExample`, taken apart into its three fields. */
  lemma ExampleFields()
    ensures "14:32:07\n" == [] + (Field(false, 0, 14) + [':'] + Field(false, 0, 32) + [':'] + Field(false, 1, 7)) + "\n"
  {
    ExampleDecimals();
    assert Field(false, 0, 14) == "14" && Field(false, 0, 32) == "32" && Field(false, 1, 7) == "07";
  }

  lemma ExampleDecimals()
    ensures Decimal(14) == "14" && Decimal(32) == "32" && Decimal(7) == "7"
  {
    assert Decimal(1) == "1" && Decimal(3) == "3";
  }

  /** A missing second reads as 0. */
  lemma {:induction false} ParseTimeOfTwo(a: string, b: string)
    requires a != [] && b != [] && Trimmed(a) && Trimmed(b) && NoColon(a) && NoColon(b)
    ensures ParseTime(a + [':'] + b) == ParseFields([a, b])
  {
    var ab := a + [':'] + b;
    assert ab[0] == a[0];
    assert ab[|ab| - 1] == b[|b| - 1];
    TrimTrimmed(ab);
    SplitNoColon(b);
    SplitColonPrefix(a, b);
  }

  lemma {:induction false} ParseTimeOfOne(a: string)
    requires a != [] && Trimmed(a) && NoColon(a)
    ensures ParseTime(a) == ParseFields([a])
  {
    TrimTrimmed(a);
    SplitNoColon(a);
  }

  /** A missing second, or a missing minute and second, reads as 0. */
  lemma {:induction false} ParseTimeDefaults(h: nat, m: nat)
    requires h <= U8Max && m <= U8Max
    ensures ParseTime(Decimal(h)) == Success(TimeOfDay(h, 0, 0))
    ensures ParseTime(Decimal(h) + [':'] + Decimal(m)) == Success(TimeOfDay(h, m, 0))
  {
    DecimalTrimmed(h);
    DecimalTrimmed(m);
    ParseTimeOfOne(Decimal(h));
    ParseTimeOfTwo(Decimal(h), Decimal(m));
    ParseFieldsShort(h, m);
  }

  lemma {:induction false} ParseFieldsShort(h: nat, m: nat)
    requires h <= U8Max && m <= U8Max
    ensures ParseFields([Decimal(h)]) == Success(TimeOfDay(h, 0, 0))
    ensures ParseFields([Decimal(h), Decimal(m)]) == Success(TimeOfDay(h, m, 0))
  {
    ParseU8Decimal(h);
    ParseU8Decimal(m);
    var one, two := [Decimal(h)], [Decimal(h), Decimal(m)];
    assert FieldAt(one, 0) == Some(h) && FieldAt(one, 1) == Some(0) && FieldAt(one, 2) == Some(0);
    assert FieldAt(two, 0) == Some(h) && FieldAt(two, 1) == Some(m) && FieldAt(two, 2) == Some(0);
  }

  /** A line that starts with a non-blank text and a colon loses only its trailing whitespace. */
  lemma {:induction false} TrimAfterColon(text: string, rest: string)
    requires text != [] && !IsWhitespace(text[0])
    ensures Trim(text + [':'] + rest) == text + [':'] + TrimEnd(rest)
  {
    var head := text + [':'];
    var line := head + rest;
    assert line[0] == text[0];
    assert [] + line == line;
    TrimStartOf([], line);
    assert head[|head| - 1] == ':';
    TrimEndAppend(head, rest);
  }

  /** Whatever follows a third colon is ignored. */
  lemma {:induction false} ParseTimeExtraFields(h: nat, m: nat, s: nat, rest: string)
    requires h <= U8Max && m <= U8Max && s <= U8Max
    ensures ParseTime(ShowTime(h, m, s) + [':'] + rest) == Success(TimeOfDay(h, m, s))
  {
    var a, b, c := Decimal(h), Decimal(m), Decimal(s);
    var text := ShowTime(h, m, s);
    var tail := TrimEnd(rest);
    DecimalTrimmed(h);
    DecimalTrimmed(m);
    DecimalTrimmed(s);
    assert text[0] == a[0];
    TrimAfterColon(text, rest);
    SplitThreeTail(a, b, c, tail);
    assert Split(Trim(text + [':'] + rest)) == [a, b, c] + Split(tail);
    ParseFieldsIgnoresExtra([a, b, c], Split(tail));
    ParseFieldsDecimal(h, m, s);
  }
}
