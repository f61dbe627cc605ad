/**
 * The parts of JavaScript's runtime that the scheduling core leans on, stated
 * over Dafny values: numbers that may be NaN, `String.prototype.trim`,
 * ASCII case mapping, `split`/`join`, decimal rendering and `Number(string)`,
 * UTF-16 code units (`length`, `charCodeAt`), the int32 wrap of bitwise
 * operators and `toString(36)`.
 */
module Js {
  import opened Wrappers

  // ---------------------------------------------------------------------
  // Numbers
  // ---------------------------------------------------------------------

  /** A JavaScript number as the core uses it: an integer value, or NaN. */
  datatype Num = NaN | Int(v: int)

  function Add(a: Num, b: Num): Num {
    if a.Int? && b.Int? then Int(a.v + b.v) else NaN
  }

  function Sub(a: Num, b: Num): Num {
    if a.Int? && b.Int? then Int(a.v - b.v) else NaN
  }

  function Scale(a: Num, k: int): Num {
    if a.Int? then Int(a.v * k) else NaN
  }

  /** `a < b`: false as soon as either side is NaN. */
  predicate Less(a: Num, b: Num) {
    a.Int? && b.Int? && a.v < b.v
  }

  /** `a <= b`: false as soon as either side is NaN. */
  predicate LessEq(a: Num, b: Num) {
    a.Int? && b.Int? && a.v <= b.v
  }

  /** JavaScript truthiness of a number: NaN and 0 are falsy. */
  predicate TruthyNum(a: Num) {
    a.Int? && a.v != 0
  }

  /** `a === b` on numbers: NaN equals nothing, not even itself. */
  predicate StrictEq(a: Num, b: Num) {
    a.Int? && b.Int? && a.v == b.v
  }

  /** `Math.floor(a / d)` for a positive divisor. */
  function FloorDiv(a: Num, d: int): (r: Num)
    requires d > 0
    ensures a.NaN? <==> r.NaN?
    ensures a.Int? ==> d * r.v <= a.v < d * (r.v + 1)
  {
    if a.Int? then Int(a.v / d) else NaN
  }

  /** `Math.ceil(a / d)` for a positive divisor. */
  function CeilDiv(a: Num, d: int): (r: Num)
    requires d > 0
    ensures a.NaN? <==> r.NaN?
    ensures a.Int? ==> d * (r.v - 1) < a.v <= d * r.v
  {
    if a.Int? then Int(-((-a.v) / d)) else NaN
  }

  /** The `%` operator on integers: the remainder takes the sign of the dividend. */
  function RemInt(a: int, d: int): (r: int)
    requires d > 0
    ensures a >= 0 ==> 0 <= r < d && r == a % d
    ensures a < 0 ==> -d < r <= 0 && a == r - d * ((-a) / d)
  {
    if a >= 0 then a % d else -((-a) % d)
  }

  /** Euclidean `/` and `%` by 60 are fixed by any quotient and remainder that fit. */
  lemma DivMod60(x: int, q: int, r: int)
    requires x == 60 * q + r && 0 <= r < 60
    ensures x / 60 == q && x % 60 == r
  {
  }

  /** Euclidean `/` and `%` by 10 are fixed by any quotient and remainder that fit. */
  lemma DivMod10(x: int, q: int, r: int)
    requires x == 10 * q + r && 0 <= r < 10
    ensures x / 10 == q && x % 10 == r
  {
  }

  /** Euclidean `%` by 12 is fixed by any quotient and remainder that fit. */
  lemma Mod12(x: int, q: int, r: int)
    requires x == 12 * q + r && 0 <= r < 12
    ensures x % 12 == r
  {
  }

  function Rem(a: Num, d: int): Num
    requires d > 0
  {
    if a.Int? then Int(RemInt(a.v, d)) else NaN
  }

  /** `Math.round(a / d)`: halves round towards positive infinity. */
  function RoundDiv(a: int, d: int): (r: int)
    requires d > 0
    ensures 2 * d * r <= 2 * a + d < 2 * d * (r + 1)
  {
    (2 * a + d) / (2 * d)
  }

  // ---------------------------------------------------------------------
  // Characters and whitespace
  // ---------------------------------------------------------------------

  /** The characters `trim` removes (and `\s` matches): WhiteSpace and LineTerminator. */
  predicate IsWhitespace(c: char) {
    if c <= ' ' then '\t' <= c <= '\r' || c == ' '
    else if c < '\U{A0}' then false
    else (c == '\U{A0}' || c == '\U{1680}' || ('\U{2000}' <= c <= '\U{200A}')
          || c == '\U{2028}' || c == '\U{2029}' || c == '\U{202F}' || c == '\U{205F}'
          || c == '\U{3000}' || c == '\U{FEFF}')
  }

  predicate IsDigit(c: char) {
    '0' <= c <= '9'
  }

  predicate AllDigits(s: string) {
    forall i :: 0 <= i < |s| ==> IsDigit(s[i])
  }

  predicate IsHexDigit(c: char) {
    IsDigit(c) || 'a' <= c <= 'f' || 'A' <= c <= 'F'
  }

  predicate NoWhitespace(s: string) {
    forall i :: 0 <= i < |s| ==> !IsWhitespace(s[i])
  }

  function LowerChar(c: char): char {
    if 'A' <= c <= 'Z' then (c as int + 32) as char else c
  }

  function UpperChar(c: char): char {
    if 'a' <= c <= 'z' then (c as int - 32) as char else c
  }

  /** `toLowerCase`, for the ASCII letters. */
  function ToLower(s: string): (r: string)
    ensures |r| == |s|
    ensures forall i :: 0 <= i < |s| ==> r[i] == LowerChar(s[i])
  {
    seq(|s|, i requires 0 <= i < |s| => LowerChar(s[i]))
  }

  // ---------------------------------------------------------------------
  // trim
  // ---------------------------------------------------------------------

  function TrimStart(s: string): string {
    if s != [] && IsWhitespace(s[0]) then TrimStart(s[1..]) else s
  }

  function TrimEnd(s: string): string {
    if s != [] && IsWhitespace(s[|s| - 1]) then TrimEnd(s[..|s| - 1]) else s
  }

  /** `String.prototype.trim`. */
  function Trim(s: string): string {
    TrimEnd(TrimStart(s))
  }

  /** `trimStart` drops exactly the leading whitespace. */
  lemma {:induction false} TrimStartSpec(s: string)
    ensures var r := TrimStart(s);
            && |r| <= |s| && r == s[|s| - |r|..]
            && (forall k :: 0 <= k < |s| - |r| ==> IsWhitespace(s[k]))
            && (r == [] || !IsWhitespace(r[0]))
  {
    if s != [] && IsWhitespace(s[0]) {
      var r := TrimStart(s[1..]);
      assert TrimStart(s) == r;
      TrimStartSpec(s[1..]);
      assert s[1..][|s| - 1 - |r|..] == s[|s| - |r|..];
      forall k | 0 < k < |s| - |r|
        ensures IsWhitespace(s[k])
      {
        assert s[k] == s[1..][k - 1];
      }
    }
  }

  /** `trimEnd` drops exactly the trailing whitespace. */
  lemma {:induction false} TrimEndSpec(s: string)
    ensures var r := TrimEnd(s);
            && |r| <= |s| && r == s[..|r|]
            && (forall k :: |r| <= k < |s| ==> IsWhitespace(s[k]))
            && (r == [] || !IsWhitespace(r[|r| - 1]))
  {
    if s != [] && IsWhitespace(s[|s| - 1]) {
      TrimEndSpec(s[..|s| - 1]);
    }
  }

  /**
   * `trim` returns the slice of its input between the leading and the
   * trailing whitespace runs, and that slice neither starts nor ends with
   * whitespace.
   */
  lemma TrimSpec(s: string)
    ensures var r := Trim(s);
            var i := |s| - |TrimStart(s)|;
            && 0 <= i && i + |r| <= |s| && r == s[i..i + |r|]
            && (forall k :: 0 <= k < i ==> IsWhitespace(s[k]))
            && (forall k :: i + |r| <= k < |s| ==> IsWhitespace(s[k]))
            && (r == [] || (!IsWhitespace(r[0]) && !IsWhitespace(r[|r| - 1])))
  {
    TrimStartSpec(s);
    var t := TrimStart(s);
    TrimEndSpec(t);
    var r := TrimEnd(t);
    var i := |s| - |t|;
    assert t[..|r|] == s[i..i + |r|];
    forall k | i + |r| <= k < |s|
      ensures IsWhitespace(s[k])
    {
      assert s[k] == t[k - i];
    }
    if r != [] {
      assert r[0] == t[0];
    }
  }

  lemma TrimKeeps(s: string)
    requires s == [] || (!IsWhitespace(s[0]) && !IsWhitespace(s[|s| - 1]))
    ensures Trim(s) == s
  {
  }

  lemma TrimNoWhitespace(s: string)
    requires NoWhitespace(s)
    ensures Trim(s) == s
  {
    TrimKeeps(s);
  }

  // ---------------------------------------------------------------------
  // Searching, splitting and joining
  // ---------------------------------------------------------------------

  predicate StartsWith(s: string, prefix: string) {
    |prefix| <= |s| && s[..|prefix|] == prefix
  }

  /** `s.includes(t)`. */
  predicate Includes(s: string, t: string) {
    exists i :: 0 <= i <= |s| - |t| && OccursAt(s, t, i)
  }

  /** `t` occurs in `s` starting at index `i`. */
  predicate OccursAt(s: string, t: string, i: int) {
    0 <= i && i + |t| <= |s| && s[i..i + |t|] == t
  }

  lemma IncludesPrefix(s: string, t: string)
    requires StartsWith(s, t)
    ensures Includes(s, t)
  {
    assert OccursAt(s, t, 0);
  }

  /** The first index of `c` in `s`, if any. */
  function IndexOf(s: string, c: char): (r: Option<nat>)
    ensures r.None? <==> c !in s
    ensures r.Some? ==> r.value < |s| && s[r.value] == c && c !in s[..r.value]
  {
    if s == [] then None
    else if s[0] == c then Some(0)
    else match IndexOf(s[1..], c)
      case None => None
      case Some(i) => assert s[..i + 1] == [s[0]] + s[1..][..i]; Some(i + 1)
  }

  /** The first occurrence of `t` in `s` at or after index `from`. */
  function FindFrom(s: string, t: string, from: nat): (r: Option<nat>)
    ensures r.Some? ==> from <= r.value && OccursAt(s, t, r.value)
    ensures r.Some? ==> forall j :: from <= j < r.value ==> !OccursAt(s, t, j)
    ensures r.None? ==> forall j :: from <= j ==> !OccursAt(s, t, j)
    decreases |s| - from
  {
    if from + |t| > |s| then None
    else if s[from..from + |t|] == t then Some(from)
    else FindFrom(s, t, from + 1)
  }

  /** The last index of `c` in `s`, if any. */
  function LastIndexOf(s: string, c: char): (r: Option<nat>)
    ensures r.None? <==> c !in s
    ensures r.Some? ==> r.value < |s| && s[r.value] == c && c !in s[r.value + 1..]
  {
    if s == [] then None
    else if s[|s| - 1] == c then Some(|s| - 1)
    else
      var r := LastIndexOf(s[..|s| - 1], c);
      assert s == s[..|s| - 1] + [s[|s| - 1]];
      if r.Some? then
        assert s[r.value + 1..] == s[..|s| - 1][r.value + 1..] + [s[|s| - 1]];
        r
      else r
  }

  /** The last occurrence of `c` is at `q` when `c` is at `q` and not after it. */
  lemma LastIndexAt(s: string, c: char, q: nat)
    requires q < |s| && s[q] == c && c !in s[q + 1..]
    ensures LastIndexOf(s, c) == Some(q)
  {
  }

  /** The end of the whitespace run that starts at `from`. */
  function SkipWhitespace(s: string, from: nat): (r: nat)
    requires from <= |s|
    ensures from <= r <= |s|
    ensures forall j :: from <= j < r ==> IsWhitespace(s[j])
    ensures r == |s| || !IsWhitespace(s[r])
    decreases |s| - from
  {
    if from < |s| && IsWhitespace(s[from]) then SkipWhitespace(s, from + 1) else from
  }

  /** Dropping some leading whitespace does not change what `trim` returns. */
  lemma {:induction false} TrimAfterWhitespace(s: string, w: nat)
    requires w <= |s| && forall j :: 0 <= j < w ==> IsWhitespace(s[j])
    ensures Trim(s[w..]) == Trim(s)
    decreases w
  {
    if w > 0 {
      assert s[1..][w - 1..] == s[w..];
      TrimAfterWhitespace(s[1..], w - 1);
    }
  }

  /** `parts.join(sep)`. */
  function Join(parts: seq<string>, sep: string): string {
    if |parts| == 0 then []
    else if |parts| == 1 then parts[0]
    else parts[0] + sep + Join(parts[1..], sep)
  }

  /** `s.split(sep)` for a one-character separator. */
  function Split(s: string, sep: char): (parts: seq<string>)
    ensures |parts| >= 1
    ensures forall k :: 0 <= k < |parts| ==> sep !in parts[k]
    ensures Join(parts, [sep]) == s
    decreases |s|
  {
    match IndexOf(s, sep)
    case None => [s]
    case Some(i) =>
      var rest := Split(s[i + 1..], sep);
      var parts := [s[..i]] + rest;
      assert parts[1..] == rest;
      assert s == s[..i] + [sep] + s[i + 1..];
      parts
  }

  lemma SplitNoSeparator(s: string, sep: char)
    requires sep !in s
    ensures Split(s, sep) == [s]
  {
  }

  /** Splitting at the first separator: the part before it, then the split of the rest. */
  lemma SplitAt(a: string, sep: char, b: string)
    requires sep !in a
    ensures Split(a + [sep] + b, sep) == [a] + Split(b, sep)
  {
    var s := a + [sep] + b;
    assert s[|a|] == sep;
    assert s[..|a|] == a;
    assert s[|a| + 1..] == b;
    assert IndexOf(s, sep) == Some(|a|);
  }

  lemma SplitOnce(a: string, sep: char, b: string)
    requires sep !in a && sep !in b
    ensures Split(a + [sep] + b, sep) == [a, b]
  {
    SplitAt(a, sep, b);
    SplitNoSeparator(b, sep);
  }

  /** Splitting a join of separator-free parts gives the parts back. */
  lemma {:induction false} SplitJoin(parts: seq<string>, sep: char)
    requires |parts| >= 1
    requires forall k :: 0 <= k < |parts| ==> sep !in parts[k]
    ensures Split(Join(parts, [sep]), sep) == parts
  {
    if |parts| == 1 {
      SplitNoSeparator(parts[0], sep);
    } else {
      var rest := Join(parts[1..], [sep]);
      assert Join(parts, [sep]) == parts[0] + [sep] + rest;
      SplitAt(parts[0], sep, rest);
      SplitJoin(parts[1..], sep);
      assert parts == [parts[0]] + parts[1..];
    }
  }

  // ---------------------------------------------------------------------
  // Decimal rendering and Number(string)
  // ---------------------------------------------------------------------

  function DigitChar(d: nat): (c: char)
    requires d < 10
    ensures IsDigit(c) && c as int - '0' as int == d
  {
    ('0' as int + d) as char
  }

  /** The decimal digits of a natural number, without leading zeros. */
  function NatToDecimal(n: nat): (r: string)
    ensures |r| > 0 && AllDigits(r)
    ensures |r| == 1 <==> n < 10
    ensures |r| == 2 <==> 10 <= n < 100
  {
    if n < 10 then [DigitChar(n)] else NatToDecimal(n / 10) + [DigitChar(n % 10)]
  }

  /** The value of a string of decimal digits (empty means 0). */
  function DigitsValue(s: string): nat
    requires AllDigits(s)
  {
    if s == [] then 0 else 10 * DigitsValue(s[..|s| - 1]) + (s[|s| - 1] as int - '0' as int)
  }

  lemma {:induction false} DecimalRoundTrip(n: nat)
    ensures DigitsValue(NatToDecimal(n)) == n
  {
    if n >= 10 {
      DecimalRoundTrip(n / 10);
      var r := NatToDecimal(n);
      assert r[..|r| - 1] == NatToDecimal(n / 10);
    }
  }

  lemma {:induction false} LeadingZero(s: string)
    requires AllDigits(s)
    ensures AllDigits("0" + s) && DigitsValue("0" + s) == DigitsValue(s)
    decreases |s|
  {
    var z := "0" + s;
    if s != [] {
      assert z[..|z| - 1] == "0" + s[..|s| - 1];
      LeadingZero(s[..|s| - 1]);
    } else {
      assert z[..|z| - 1] == [];
    }
  }

  /** `String(n)` for an integer. */
  function IntToString(n: int): string {
    if n < 0 then "-" + NatToDecimal(-n) else NatToDecimal(n)
  }

  /** `String(x)` for a number that may be NaN. */
  function NumToString(x: Num): string {
    if x.NaN? then "NaN" else IntToString(x.v)
  }

  /** `s.padStart(2, '0')`. */
  function PadStart2(s: string): (r: string)
    ensures |s| >= 2 ==> r == s
    ensures |s| < 2 ==> |r| == 2 && r[2 - |s|..] == s && forall k :: 0 <= k < 2 - |s| ==> r[k] == '0'
  {
    if |s| == 0 then "00" else if |s| == 1 then "0" + s else s
  }

  lemma PadDigits(s: string)
    requires AllDigits(s)
    ensures AllDigits(PadStart2(s)) && DigitsValue(PadStart2(s)) == DigitsValue(s)
  {
    if |s| == 1 {
      LeadingZero(s);
    } else if |s| == 0 {
      LeadingZero("0");
      LeadingZero("");
    }
  }

  /**
   * `Number(s)` for a string: surrounding whitespace is ignored, the empty
   * string is 0, an optionally signed run of decimal digits is its value, and
   * everything else is NaN.
   */
  function ParseNumber(s: string): Num {
    ParseTrimmed(Trim(s))
  }

  function ParseTrimmed(t: string): Num {
    if t == [] then Int(0)
    else if (t[0] == '-' || t[0] == '+') && |t| > 1 && AllDigits(t[1..]) then
      if t[0] == '-' then Int(-(DigitsValue(t[1..]) as int)) else Int(DigitsValue(t[1..]))
    else if AllDigits(t) then Int(DigitsValue(t))
    else NaN
  }

  lemma ParseDigits(s: string)
    requires AllDigits(s)
    ensures ParseNumber(s) == Int(DigitsValue(s))
  {
    assert NoWhitespace(s);
    TrimNoWhitespace(s);
  }

  lemma ParseIntToString(n: int)
    ensures ParseNumber(IntToString(n)) == Int(n)
  {
    var s := IntToString(n);
    if n >= 0 {
      DecimalRoundTrip(n);
      ParseDigits(s);
    } else {
      var d := NatToDecimal(-n);
      assert s == "-" + d && s[1..] == d;
      assert NoWhitespace(s);
      TrimNoWhitespace(s);
      DecimalRoundTrip(-n);
      assert ParseTrimmed(s) == Int(-(DigitsValue(d) as int));
    }
  }

  // ---------------------------------------------------------------------
  // UTF-16, int32 and base 36
  // ---------------------------------------------------------------------

  /** The UTF-16 code units of one character (two, a surrogate pair, above U+FFFF). */
  function CharUnits(c: char): (r: seq<int>)
    ensures 1 <= |r| <= 2 && forall k :: 0 <= k < |r| ==> 0 <= r[k] < 0x1_0000
  {
    if c as int < 0x1_0000 then [c as int]
    else
      var x := c as int - 0x1_0000;
      [0xD800 + x / 0x400, 0xDC00 + x % 0x400]
  }

  /** The code units `charCodeAt` reads, in order. */
  function CodeUnits(s: string): (r: seq<int>)
    ensures |s| <= |r| <= 2 * |s|
    ensures forall k :: 0 <= k < |r| ==> 0 <= r[k] < 0x1_0000
  {
    if s == [] then [] else CharUnits(s[0]) + CodeUnits(s[1..])
  }

  /** `s.length`: the number of UTF-16 code units. */
  function Length(s: string): nat {
    |CodeUnits(s)|
  }

  const TwoTo32: int := 0x1_0000_0000
  const TwoTo31: int := 0x8000_0000

  /** The ToInt32 conversion that every bitwise operator applies. */
  function ToInt32(x: int): (r: int)
    ensures -TwoTo31 <= r < TwoTo31
    ensures (x - r) % TwoTo32 == 0
    ensures -TwoTo31 <= x < TwoTo31 ==> r == x
  {
    var m := x % TwoTo32;
    if m >= TwoTo31 then m - TwoTo32 else m
  }

  lemma ToInt32Congruent(a: int, b: int)
    requires (a - b) % TwoTo32 == 0
    ensures ToInt32(a) == ToInt32(b)
  {
    var q := (a - b) / TwoTo32;
    assert a == b + q * TwoTo32;
    assert a % TwoTo32 == b % TwoTo32;
  }

  const Base36Digits: string := "0123456789abcdefghijklmnopqrstuvwxyz"

  /** `n.toString(36)` for a natural number. */
  function Base36(n: nat): (r: string)
    ensures |r| > 0
    ensures forall k :: 0 <= k < |r| ==> r[k] in Base36Digits
  {
    if n < 36 then [Base36Digits[n]] else Base36(n / 36) + [Base36Digits[n % 36]]
  }
}
