/**
 * The JavaScript string built-ins that the server's handlers rely on, stated over
 * Dafny strings (sequences of Unicode scalar values): `startsWith`, `endsWith`,
 * `split`, a first-occurrence `replace`, `parseInt(_, 10)`, number-to-string
 * conversion, `toLowerCase` (ASCII letters) and `Buffer.byteLength(_, 'utf-8')`.
 */
module JsStrings {
  import opened Wrappers

  // ------------------------------------------------------------------ prefixes

  /** `s.startsWith(prefix)` */
  predicate StartsWith(s: string, prefix: string) {
    |prefix| <= |s| && s[..|prefix|] == prefix
  }

  /** `s.endsWith(suffix)` */
  predicate EndsWith(s: string, suffix: string) {
    |suffix| <= |s| && s[|s| - |suffix|..] == suffix
  }

  /** A common prefix can be cancelled from both sides of `startsWith`. */
  lemma StartsWithCancel(x: string, s: string, p: string)
    ensures StartsWith(x + s, x + p) <==> StartsWith(s, p)
  {
    if StartsWith(s, p) {
      assert (x + s)[..|x + p|] == x + s[..|p|];
    }
    if StartsWith(x + s, x + p) {
      assert s[..|p|] == (x + s)[..|x + p|][|x|..];
    }
  }

  // ------------------------------------------------------------------ split

  /** Where a split cuts: at one fixed character, or at any JavaScript line
      terminator (the places where `^` and `$` match under the `m` flag). */
  datatype Delimiter = Char(c: char) | LineTerminator

  predicate IsDelimiter(d: Delimiter, x: char) {
    match d
    case Char(c) => x == c
    case LineTerminator => x == '\n' || x == '\r' || x == '\U{2028}' || x == '\U{2029}'
  }

  /** `s` holds no delimiter character. */
  predicate Free(s: string, d: Delimiter) {
    forall i :: 0 <= i < |s| ==> !IsDelimiter(d, s[i])
  }

  /** The delimiter characters of `s`, in order. */
  function Delimiters(s: string, d: Delimiter): (ds: seq<char>)
    ensures forall i :: 0 <= i < |ds| ==> IsDelimiter(d, ds[i])
  {
    if s == [] then []
    else (if IsDelimiter(d, s[0]) then [s[0]] else []) + Delimiters(s[1..], d)
  }

  /** `s.split(c)`: the pieces between consecutive delimiters, one more than there
      are delimiters (so "" splits to [""]), none of them holding a delimiter. */
  function Split(s: string, d: Delimiter): (parts: seq<string>)
    ensures |parts| == |Delimiters(s, d)| + 1
  {
    if s == [] then [""]
    else
      var rest := Split(s[1..], d);
      if IsDelimiter(d, s[0]) then [""] + rest
      else [[s[0]] + rest[0]] + rest[1..]
  }

  /** Splitting after a leading delimiter starts a new, empty piece. */
  lemma SplitDelimiterFirst(c: char, t: string, d: Delimiter)
    requires IsDelimiter(d, c)
    ensures Split([c] + t, d) == [""] + Split(t, d)
    ensures Delimiters([c] + t, d) == [c] + Delimiters(t, d)
  {
    assert ([c] + t)[0] == c && ([c] + t)[1..] == t;
  }

  /** A leading non-delimiter joins the first piece. */
  lemma SplitOtherFirst(c: char, t: string, d: Delimiter)
    requires !IsDelimiter(d, c)
    ensures Split([c] + t, d) == [[c] + Split(t, d)[0]] + Split(t, d)[1..]
    ensures Delimiters([c] + t, d) == Delimiters(t, d)
  {
    assert ([c] + t)[0] == c && ([c] + t)[1..] == t;
  }

  /** No piece of a split holds a delimiter. */
  lemma {:induction false} SplitPiecesFree(s: string, d: Delimiter)
    ensures forall i :: 0 <= i < |Split(s, d)| ==> Free(Split(s, d)[i], d)
  {
    if s != [] {
      SplitPiecesFree(s[1..], d);
      var rest := Split(s[1..], d);
      if !IsDelimiter(d, s[0]) {
        var p := [s[0]] + rest[0];
        assert forall j :: 0 < j < |p| ==> p[j] == rest[0][j - 1];
      }
    }
  }

  /** The pieces put back together, `seps[i]` between `parts[i]` and `parts[i+1]`. */
  function Interleave(parts: seq<string>, seps: seq<char>): string
    requires |parts| == |seps| + 1
  {
    if seps == [] then parts[0]
    else parts[0] + [seps[0]] + Interleave(parts[1..], seps[1..])
  }

  /** `parts.join(c)` */
  function Join(parts: seq<string>, c: char): string {
    if parts == [] then "" else Interleave(parts, seq(|parts| - 1, _ => c))
  }

  lemma InterleaveCons(x: string, parts: seq<string>, seps: seq<char>)
    requires |parts| == |seps| + 1
    ensures Interleave([x + parts[0]] + parts[1..], seps) == x + Interleave(parts, seps)
  {
    var ps := [x + parts[0]] + parts[1..];
    assert ps[0] == x + parts[0] && ps[1..] == parts[1..];
  }

  /** Splitting loses nothing: the pieces and the delimiters rebuild the string. */
  lemma {:induction false} SplitInterleave(s: string, d: Delimiter)
    ensures Interleave(Split(s, d), Delimiters(s, d)) == s
  {
    if s != [] {
      var rest := Split(s[1..], d);
      SplitInterleave(s[1..], d);
      if IsDelimiter(d, s[0]) {
        assert Split(s, d) == [""] + rest;
        assert Delimiters(s, d) == [s[0]] + Delimiters(s[1..], d);
        assert ([""] + rest)[1..] == rest;
      } else {
        assert Split(s, d) == [[s[0]] + rest[0]] + rest[1..];
        assert Delimiters(s, d) == Delimiters(s[1..], d);
        InterleaveCons([s[0]], rest, Delimiters(s[1..], d));
      }
    }
  }

  /** Prepending delimiter-free text only extends the first piece. */
  lemma {:induction false} SplitFreePrefix(x: string, t: string, d: Delimiter)
    requires Free(x, d)
    ensures Split(x + t, d) == [x + Split(t, d)[0]] + Split(t, d)[1..]
    ensures Delimiters(x + t, d) == Delimiters(t, d)
    decreases |x|
  {
    if x != [] {
      var s0 := Split(t, d)[0];
      SplitFreePrefix(x[1..], t, d);
      RegroupFirstChar(x, t, s0);
      SplitOtherFirst(x[0], x[1..] + t, d);
      HeadAndTail(x[1..] + s0, Split(t, d)[1..]);
    } else {
      assert x + t == t;
      assert x + Split(t, d)[0] == Split(t, d)[0];
      assert [Split(t, d)[0]] + Split(t, d)[1..] == Split(t, d);
    }
  }

  /** Splitting inverts interleaving with delimiters. */
  lemma {:induction false} InterleaveSplit(parts: seq<string>, seps: seq<char>, d: Delimiter)
    requires |parts| == |seps| + 1
    requires forall i :: 0 <= i < |parts| ==> Free(parts[i], d)
    requires forall i :: 0 <= i < |seps| ==> IsDelimiter(d, seps[i])
    ensures Split(Interleave(parts, seps), d) == parts
    ensures Delimiters(Interleave(parts, seps), d) == seps
  {
    if seps == [] {
      SplitFreePrefix(parts[0], "", d);
      assert parts[0] + "" == parts[0];
      assert [parts[0]] == parts;
    } else {
      var tail := Interleave(parts[1..], seps[1..]);
      InterleaveSplit(parts[1..], seps[1..], d);
      var t := [seps[0]] + tail;
      SplitDelimiterFirst(seps[0], tail, d);
      assert Interleave(parts, seps) == parts[0] + t;
      SplitFreePrefix(parts[0], t, d);
      HeadAndTail("", parts[1..]);
      FirstAndRest(parts, seps);
    }
  }

  /** Splitting at a delimiter splits the two sides independently. */
  lemma {:induction false} SplitAtDelimiter(x: string, c: char, y: string, d: Delimiter)
    requires IsDelimiter(d, c)
    ensures Split(x + [c] + y, d) == Split(x, d) + Split(y, d)
    decreases |x|
  {
    if x == [] {
      assert x + [c] + y == [c] + y;
      SplitDelimiterFirst(c, y, d);
    } else {
      SplitAtDelimiter(x[1..], c, y, d);
      RegroupAtDelimiter(x, c, y);
      SplitAtDelimiterStep(x[0], x[1..], [c] + y, Split(y, d), d);
    }
  }

  /** One step of the induction above, with `cy` standing for `[c] + y` and
      `sy` for its pieces after the first. */
  lemma SplitAtDelimiterStep(x0: char, w: string, cy: string, sy: seq<string>, d: Delimiter)
    requires Split(w + cy, d) == Split(w, d) + sy
    ensures Split([x0] + (w + cy), d) == Split([x0] + w, d) + sy
  {
    var r, q := Split(w, d), Split(w + cy, d);
    if IsDelimiter(d, x0) {
      SplitDelimiterFirst(x0, w + cy, d);
      SplitDelimiterFirst(x0, w, d);
    } else {
      SplitOtherFirst(x0, w + cy, d);
      SplitOtherFirst(x0, w, d);
      GrowFirstPiece([x0], r, q, sy);
    }
  }

  lemma {:induction false} InterleaveConcat(p1: seq<string>, s1: seq<char>, c: char, p2: seq<string>, s2: seq<char>)
    requires |p1| == |s1| + 1 && |p2| == |s2| + 1
    ensures Interleave(p1 + p2, s1 + [c] + s2) == Interleave(p1, s1) + [c] + Interleave(p2, s2)
    decreases |s1|
  {
    var ps, ss := p1 + p2, s1 + [c] + s2;
    if s1 == [] {
      assert ps[0] == p1[0] && ps[1..] == p2 && ss[0] == c && ss[1..] == s2;
    } else {
      assert ps[0] == p1[0] && ps[1..] == p1[1..] + p2;
      assert ss[0] == s1[0] && ss[1..] == s1[1..] + [c] + s2;
      InterleaveConcat(p1[1..], s1[1..], c, p2, s2);
      assert Interleave(ps, ss) == p1[0] + [s1[0]] + Interleave(ps[1..], ss[1..]);
      assert Interleave(p1, s1) == p1[0] + [s1[0]] + Interleave(p1[1..], s1[1..]);
    }
  }

  /** Joining two non-empty lists puts one separator between their joins. */
  lemma JoinConcat(a: seq<string>, b: seq<string>, c: char)
    requires a != [] && b != []
    ensures Join(a + b, c) == Join(a, c) + [c] + Join(b, c)
  {
    var sa, sb := seq(|a| - 1, _ => c), seq(|b| - 1, _ => c);
    assert seq(|a + b| - 1, _ => c) == sa + [c] + sb;
    InterleaveConcat(a, sa, c, b, sb);
  }

  /** `parts.join(c).split(c)` gives the parts back when none holds `c`. */
  lemma SplitJoin(parts: seq<string>, c: char)
    requires parts != []
    requires forall i :: 0 <= i < |parts| ==> Free(parts[i], Char(c))
    ensures Split(Join(parts, c), Char(c)) == parts
  {
    InterleaveSplit(parts, seq(|parts| - 1, _ => c), Char(c));
  }

  /** `s.split(c).join(c)` is `s`. */
  lemma JoinSplit(s: string, c: char)
    ensures Join(Split(s, Char(c)), c) == s
  {
    var ds := Delimiters(s, Char(c));
    assert ds == seq(|ds|, _ => c);
    SplitInterleave(s, Char(c));
  }

  // ------------------------------------------------------------------ replace

  /** `pat` occurs in `s` at position `j`. */
  predicate OccursAt(s: string, pat: string, j: nat) {
    j + |pat| <= |s| && s[j..j + |pat|] == pat
  }

  /** `s.indexOf(pat)`: the first position at which `pat` occurs, if any. */
  function IndexOf(s: string, pat: string): (r: Option<nat>)
    ensures r.Some? ==> OccursAt(s, pat, r.value)
    ensures forall j: nat :: (r.None? || j < r.value) ==> !OccursAt(s, pat, j)
    decreases |s|
  {
    if |s| < |pat| then None
    else if s[..|pat|] == pat then Some(0)
    else
      match IndexOf(s[1..], pat)
      case None =>
        assert forall j: nat :: 0 < j ==> OccursAt(s, pat, j) == OccursAt(s[1..], pat, j - 1);
        None
      case Some(k) =>
        assert forall j: nat :: 0 < j ==> OccursAt(s, pat, j) == OccursAt(s[1..], pat, j - 1);
        Some(k + 1)
  }

  /** `s.replace(/pat/, '')`: the first occurrence of `pat` removed. */
  function StripFirst(s: string, pat: string): string {
    match IndexOf(s, pat)
    case None => s
    case Some(i) => s[..i] + s[i + |pat|..]
  }

  // ------------------------------------------------------------------ numbers

  predicate IsDigit(c: char) {
    '0' <= c <= '9'
  }

  predicate AllDigits(s: string) {
    forall i :: 0 <= i < |s| ==> IsDigit(s[i])
  }

  function DigitChar(n: nat): (c: char)
    requires n < 10
    ensures IsDigit(c)
  {
    ('0' as int + n) as char
  }

  function DigitValue(c: char): nat
    requires IsDigit(c)
  {
    c as int - '0' as int
  }

  /** The value of a run of decimal digits. */
  function DigitsValue(s: string): nat
    requires AllDigits(s)
  {
    if s == [] then 0 else DigitsValue(s[..|s| - 1]) * 10 + DigitValue(s[|s| - 1])
  }

  /** `String(n)` for a non-negative integer: its decimal numeral, with no
      leading zero. */
  function Decimal(n: nat): (s: string)
    ensures |s| >= 1 && AllDigits(s)
    ensures |s| > 1 ==> s[0] != '0'
  {
    if n < 10 then [DigitChar(n)] else Decimal(n / 10) + [DigitChar(n % 10)]
  }

  /** `String(x)` for a JavaScript number that is an integer or `NaN` (None). */
  function NumberToString(x: Option<int>): string {
    match x
    case None => "NaN"
    case Some(n) => if n < 0 then "-" + Decimal(-n) else Decimal(n)
  }

  /** The white space that `parseInt` skips: ECMAScript WhiteSpace and LineTerminator. */
  predicate IsJsWhiteSpace(c: char) {
    || c == ' ' || c == '\t' || c == '\n' || c == '\r' || c == '\U{B}' || c == '\U{C}'
    || c == '\U{A0}' || c == '\U{1680}' || ('\U{2000}' <= c <= '\U{200A}')
    || c == '\U{2028}' || c == '\U{2029}' || c == '\U{202F}' || c == '\U{205F}'
    || c == '\U{3000}' || c == '\U{FEFF}'
  }

  function TrimStart(s: string): (t: string)
    ensures |t| <= |s| && t == s[|s| - |t|..]
  {
    if s != [] && IsJsWhiteSpace(s[0]) then TrimStart(s[1..]) else s
  }

  /** The longest prefix of `s` made of decimal digits. */
  function LeadingDigits(s: string): (d: string)
    ensures |d| <= |s| && d == s[..|d|] && AllDigits(d)
    ensures |d| < |s| ==> !IsDigit(s[|d|])
  {
    if s != [] && IsDigit(s[0]) then [s[0]] + LeadingDigits(s[1..]) else []
  }

  /** The value of the digits at the front of `u`; `NaN` (None) when there are none. */
  function ParseDigits(u: string): Option<int> {
    var digits := LeadingDigits(u);
    if digits == [] then None else Some(DigitsValue(digits))
  }

  function Negate(x: Option<int>): Option<int> {
    match x
    case None => None
    case Some(n) => Some(-n)
  }

  /** `parseInt(s, 10)`: skip white space, read one optional sign and then the
      longest run of decimal digits; `NaN` (None) when that run is empty. */
  function ParseInt(s: string): Option<int> {
    ParseSigned(TrimStart(s))
  }

  /** The rest of `parseInt` once the white space is gone. */
  function ParseSigned(t: string): Option<int> {
    if t != [] && t[0] == '-' then Negate(ParseDigits(t[1..]))
    else if t != [] && t[0] == '+' then ParseDigits(t[1..])
    else ParseDigits(t)
  }

  lemma TrimStartNoSpace(t: string)
    requires t != [] && !IsJsWhiteSpace(t[0])
    ensures TrimStart(t) == t
  {
  }

  lemma {:induction false} DecimalValue(n: nat)
    ensures DigitsValue(Decimal(n)) == n
  {
    if n >= 10 {
      var d := Decimal(n);
      DecimalValue(n / 10);
      assert d[..|d| - 1] == Decimal(n / 10);
    }
  }

  lemma {:induction false} LeadingDigitsOfNumeral(d: string, rest: string)
    requires AllDigits(d)
    requires rest == [] || !IsDigit(rest[0])
    ensures LeadingDigits(d + rest) == d
    decreases |d|
  {
    if d == [] {
      assert d + rest == rest;
    } else {
      assert (d + rest)[0] == d[0] && (d + rest)[1..] == d[1..] + rest;
      LeadingDigitsOfNumeral(d[1..], rest);
    }
  }

  lemma ParseIntUnsigned(u: string)
    requires u != [] && IsDigit(u[0])
    ensures ParseInt(u) == ParseDigits(u)
  {
    TrimStartNoSpace(u);
  }

  lemma ParseIntMinus(v: string)
    requires v != [] && v[0] == '-'
    ensures ParseInt(v) == Negate(ParseDigits(v[1..]))
  {
    TrimStartNoSpace(v);
  }

  lemma ParseDigitsNumeral(m: nat, rest: string)
    requires rest == [] || !IsDigit(rest[0])
    ensures ParseDigits(Decimal(m) + rest) == Some(m)
  {
    DecimalValue(m);
    LeadingDigitsOfNumeral(Decimal(m), rest);
  }

  lemma ParseIntNonNegative(m: nat, rest: string, u: string)
    requires rest == [] || !IsDigit(rest[0])
    requires u == Decimal(m) + rest
    ensures ParseInt(u) == Some(m)
  {
    ParseDigitsNumeral(m, rest);
    assert u[0] == Decimal(m)[0];
    ParseIntUnsigned(u);
  }

  lemma ParseIntNegative(m: nat, rest: string, v: string)
    requires rest == [] || !IsDigit(rest[0])
    requires v == "-" + Decimal(m) + rest
    ensures ParseInt(v) == Some(-(m as int))
  {
    DropMinus(Decimal(m), rest, v);
    assert ParseDigits(v[1..]) == Some(m) by {
      ParseDigitsNumeral(m, rest);
    }
    ParseIntMinus(v);
  }

  /** `parseInt(String(n) + rest)` is `n` whenever `rest` does not continue the
      numeral: number-to-string and `parseInt` are a round trip. */
  lemma ParseIntNumeral(n: int, rest: string)
    requires rest == [] || !IsDigit(rest[0])
    ensures ParseInt(NumberToString(Some(n)) + rest) == Some(n)
  {
    if n < 0 {
      ParseIntNegative(-n, rest, NumberToString(Some(n)) + rest);
    } else {
      ParseIntNonNegative(n, rest, NumberToString(Some(n)) + rest);
    }
  }

  /** A decimal numeral parses back to its value. */
  lemma ParseIntDecimal(n: nat)
    ensures ParseInt(Decimal(n)) == Some(n)
  {
    ParseIntNumeral(n, "");
    assert NumberToString(Some(n)) + "" == Decimal(n);
  }

  /** A string without a single digit parses to `NaN`. */
  lemma ParseIntWithoutDigits(s: string)
    requires forall i :: 0 <= i < |s| ==> !IsDigit(s[i])
    ensures ParseInt(s) == None
  {
    var t := TrimStart(s);
    assert t == [] || !IsDigit(t[0]);
    assert |t| > 1 ==> !IsDigit(t[1]);
  }

  // ------------------------------------------------------------------ case

  /** `toLowerCase` on one character, for the ASCII letters. */
  function LowerChar(c: char): char {
    if 'A' <= c <= 'Z' then (c as int + 32) as char else c
  }

  /** `s.toLowerCase()`, restricted to ASCII letters: every character lowered in place. */
  function ToLower(s: string): (r: string)
    ensures |r| == |s|
    ensures forall i :: 0 <= i < |s| ==> r[i] == LowerChar(s[i])
  {
    if s == [] then [] else [LowerChar(s[0])] + ToLower(s[1..])
  }

  /** Text without ASCII capitals is its own lower case. */
  lemma ToLowerKeepsLower(s: string)
    requires forall i :: 0 <= i < |s| ==> !('A' <= s[i] <= 'Z')
    ensures ToLower(s) == s
  {
  }

  /** Lowering twice is lowering once. */
  lemma ToLowerIdempotent(s: string)
    ensures ToLower(ToLower(s)) == ToLower(s)
  {
  }

  // ------------------------------------------------------------------ UTF-8

  /** The number of bytes UTF-8 uses for one code point. */
  function Utf8Width(c: char): nat {
    if c < '\U{80}' then 1 else if c < '\U{800}' then 2 else if c < '\U{10000}' then 3 else 4
  }

  /** `Buffer.byteLength(s, 'utf-8')`: between one and four bytes per character. */
  function Utf8Length(s: string): (n: nat)
    ensures |s| <= n <= 4 * |s|
  {
    if s == [] then 0 else Utf8Width(s[0]) + Utf8Length(s[1..])
  }

  /** Byte length adds up over concatenation. */
  lemma {:induction false} Utf8LengthConcat(a: string, b: string)
    ensures Utf8Length(a + b) == Utf8Length(a) + Utf8Length(b)
    decreases |a|
  {
    if a == [] {
      assert a + b == b;
    } else {
      assert (a + b)[0] == a[0] && (a + b)[1..] == a[1..] + b;
      Utf8LengthConcat(a[1..], b);
    }
  }

  /** Text that is all ASCII takes one byte per character. */
  lemma {:induction false} Utf8LengthAscii(s: string)
    requires forall i :: 0 <= i < |s| ==> s[i] < '\U{80}'
    ensures Utf8Length(s) == |s|
    decreases |s|
  {
    if s != [] {
      Utf8LengthAscii(s[1..]);
    }
  }

  // ------------------------------------------------------------------ sequence facts

  // Regroupings of concatenations, kept out of the inductive proofs above so
  // that each proof context stays small.

  lemma GrowFirstPiece(p: string, r: seq<string>, q: seq<string>, sy: seq<string>)
    requires r != [] && q == r + sy
    ensures [p + q[0]] + q[1..] == ([p + r[0]] + r[1..]) + sy
  {
    assert q[0] == r[0] && q[1..] == r[1..] + sy;
  }

  lemma RegroupAtDelimiter(x: string, c: char, y: string)
    requires x != []
    ensures x[1..] + [c] + y == x[1..] + ([c] + y)
    ensures [x[0]] + x[1..] == x
    ensures [x[0]] + (x[1..] + ([c] + y)) == x + [c] + y
  {
  }

  lemma RegroupFirstChar(x: string, t: string, s0: string)
    requires x != []
    ensures x + t == [x[0]] + (x[1..] + t)
    ensures [x[0]] + (x[1..] + s0) == x + s0
  {
  }

  lemma HeadAndTail<T>(a: T, b: seq<T>)
    ensures ([a] + b)[0] == a && ([a] + b)[1..] == b
  {
  }

  lemma FirstAndRest(parts: seq<string>, seps: seq<char>)
    requires parts != [] && seps != []
    ensures parts[0] + "" == parts[0]
    ensures [parts[0]] + parts[1..] == parts && [seps[0]] + seps[1..] == seps
  {
  }

  lemma DropMinus(w1: string, w2: string, v: string)
    requires v == "-" + w1 + w2
    ensures v != [] && v[0] == '-' && v[1..] == w1 + w2
  {
  }
}
