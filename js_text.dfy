/** The JavaScript string operations the tools build on, with their ECMAScript
    meaning: `trim`, `search` with a plain string (modelled as substring
    search), `split` on one character, `split(p).join('')`, unary plus and
    `parseInt` on decimal text, `slice` with relative indices, and decimal
    rendering of integers in template strings. */
module JsText {

  type String = seq<char>

  /** Number values as far as the tools produce them from text: an integer or NaN. */
  datatype Num = Finite(value: int) | NaN

  /** `a < b` on numbers: false whenever either side is NaN. */
  predicate Less(a: Num, b: Num) {
    a.Finite? && b.Finite? && a.value < b.value
  }

  /** `a - b` on numbers: NaN whenever either side is NaN. */
  function Minus(a: Num, b: Num): Num {
    if a.Finite? && b.Finite? then Finite(a.value - b.value) else NaN
  }

  /** How `slice` reads a number argument (ToIntegerOrInfinity): NaN is 0. */
  function SliceIndex(n: Num): int {
    if n.NaN? then 0 else n.value
  }

  /** WhiteSpace and LineTerminator code points: what `trim` strips. */
  predicate IsSpace(c: char) {
    c == '\t' || c == '\n' || c == '\U{B}' || c == '\U{C}' || c == '\r' || c == ' '
    || c == '\U{A0}' || c == '\U{1680}' || ('\U{2000}' <= c <= '\U{200A}')
    || c == '\U{2028}' || c == '\U{2029}' || c == '\U{202F}' || c == '\U{205F}'
    || c == '\U{3000}' || c == '\U{FEFF}'
  }

  /** Characters a regular expression's `.` does not match. */
  predicate IsLineTerminator(c: char) {
    c == '\n' || c == '\r' || c == '\U{2028}' || c == '\U{2029}'
  }

  predicate IsDigit(c: char) { '0' <= c <= '9' }

  function DigitValue(c: char): (d: nat)
    requires IsDigit(c)
    ensures d < 10
  {
    (c as int) - ('0' as int)
  }

  function DigitChar(d: nat): (c: char)
    requires d < 10
    ensures IsDigit(c) && DigitValue(c) == d
  {
    ((d + '0' as int) as char)
  }

  predicate AllDigits(s: String) {
    forall i :: 0 <= i < |s| ==> IsDigit(s[i])
  }

  /** Value of a run of decimal digits, most significant first. */
  function DecValue(s: String): nat
    requires AllDigits(s)
  {
    if s == [] then 0 else 10 * DecValue(s[..|s| - 1]) + DigitValue(s[|s| - 1])
  }

  /** Decimal rendering of a natural number, as a template string prints it. */
  function Dec(n: nat): (r: String)
    ensures r != [] && AllDigits(r) && DecValue(r) == n
  {
    if n < 10 then [DigitChar(n)]
    else
      var r := Dec(n / 10) + [DigitChar(n % 10)];
      assert r[..|r| - 1] == Dec(n / 10);
      r
  }

  /** Decimal rendering of an integer, with a leading '-' when negative. */
  function IntStr(i: int): String {
    if i < 0 then "-" + Dec(-i) else Dec(i)
  }

  /** The longest prefix of `s` made of decimal digits. */
  function LeadingDigits(s: String): (r: String)
    ensures |r| <= |s| && r == s[..|r|] && AllDigits(r)
    ensures |r| < |s| ==> !IsDigit(s[|r|])
  {
    if s != [] && IsDigit(s[0]) then [s[0]] + LeadingDigits(s[1..]) else []
  }

  /** A digit run that stops at a non-digit, or at the end, is the leading digits. */
  lemma {:induction false} LeadingDigitsAt(s: String, k: nat)
    requires k <= |s| && AllDigits(s[..k]) && (k == |s| || !IsDigit(s[k]))
    ensures LeadingDigits(s) == s[..k]
  {
    if k > 0 {
      assert IsDigit(s[..k][0]);
      var t := s[1..];
      assert t[..k - 1] == s[..k][1..];
      assert k - 1 == |t| || t[k - 1] == s[k];
      LeadingDigitsAt(t, k - 1);
      assert [s[0]] + s[1..k] == s[..k];
    }
  }

  function TrimStart(s: String): (r: String)
    ensures |r| <= |s| && r == s[|s| - |r|..]
    ensures r == [] || !IsSpace(r[0])
  {
    if s != [] && IsSpace(s[0]) then TrimStart(s[1..]) else s
  }

  function TrimEnd(s: String): (r: String)
    ensures |r| <= |s| && r == s[..|r|]
    ensures r == [] || !IsSpace(r[|r| - 1])
  {
    if s != [] && IsSpace(s[|s| - 1]) then TrimEnd(s[..|s| - 1]) else s
  }

  /** `String.prototype.trim`: white space stripped from both ends. */
  function Trim(s: String): String {
    TrimEnd(TrimStart(s))
  }

  /** What TrimStart strips is white space. */
  lemma {:induction false} TrimStartStrips(s: String)
    ensures forall i :: 0 <= i < |s| - |TrimStart(s)| ==> IsSpace(s[i])
  {
    if s != [] && IsSpace(s[0]) {
      TrimStartStrips(s[1..]);
      assert forall i :: 1 <= i < |s| ==> s[1..][i - 1] == s[i];
    }
  }

  /** What TrimEnd strips is white space. */
  lemma {:induction false} TrimEndStrips(s: String)
    ensures forall i :: |TrimEnd(s)| <= i < |s| ==> IsSpace(s[i])
  {
    if s != [] && IsSpace(s[|s| - 1]) {
      TrimEndStrips(s[..|s| - 1]);
    }
  }

  /** Nothing but white space: what `trim` reduces to the empty string. */
  predicate Blank(s: String) {
    forall i :: 0 <= i < |s| ==> IsSpace(s[i])
  }

  /** `line.trim() == ''` holds exactly of the lines made of white space. */
  lemma TrimBlank(s: String)
    ensures Trim(s) == [] <==> Blank(s)
  {
    var t := TrimStart(s);
    if Trim(s) == [] {
      TrimStartStrips(s);
      TrimEndStrips(t);
    }
  }

  lemma TrimUnchanged(s: String)
    requires s == [] || (!IsSpace(s[0]) && !IsSpace(s[|s| - 1]))
    ensures Trim(s) == s
  {
  }

  /** `p` occurs in `s` at index `i`. */
  predicate OccursAt(s: String, p: String, i: int) {
    0 <= i && i + |p| <= |s| && s[i..i + |p|] == p
  }

  predicate Contains(s: String, p: String) {
    exists i | 0 <= i <= |s| - |p| :: OccursAt(s, p, i)
  }

  predicate EndsWith(s: String, t: String) {
    |t| <= |s| && s[|s| - |t|..] == t
  }

  function IndexFrom(s: String, p: String, k: nat): (r: int)
    ensures r == -1 || (k <= r && OccursAt(s, p, r))
    ensures forall j :: k <= j && (r == -1 || j < r) ==> !OccursAt(s, p, j)
    decreases |s| - k
  {
    if k + |p| > |s| then -1
    else if s[k..k + |p|] == p then k
    else IndexFrom(s, p, k + 1)
  }

  /** `s.search(p)` for a pattern without regular-expression syntax: the
      first index where `p` occurs, or -1. */
  function IndexOf(s: String, p: String): (r: int)
    ensures r == -1 <==> !Contains(s, p)
    ensures r >= 0 ==> OccursAt(s, p, r) && forall j :: 0 <= j < r ==> !OccursAt(s, p, j)
  {
    IndexFrom(s, p, 0)
  }

  /** Where `slice` reads an index: negative counts from the end, clamped to [0, n]. */
  function RelIndex(i: int, n: nat): (r: nat)
    ensures r <= n
    ensures 0 <= i <= n ==> r == i
  {
    if i < 0 then (if n + i < 0 then 0 else n + i) else if i > n then n else i
  }

  /** `s.slice(start, end)`. */
  function Slice(s: String, start: int, end: int): (r: String)
    ensures |r| <= |s|
    ensures 0 <= start <= end <= |s| ==> r == s[start..end]
    ensures 0 <= end <= start ==> r == []
  {
    var from, to := RelIndex(start, |s|), RelIndex(end, |s|);
    if from < to then s[from..to] else []
  }

  /** `s.split(d)` for a one-character separator. */
  function Split(s: String, d: char): (r: seq<String>)
    ensures |r| >= 1
    ensures forall i :: 0 <= i < |r| ==> d !in r[i]
  {
    if s == [] then [[]]
    else
      var rest := Split(s[1..], d);
      if s[0] == d then [[]] + rest else [[s[0]] + rest[0]] + rest[1..]
  }

  /** `ts.join(d)` for a one-character separator. */
  function Join(ts: seq<String>, d: char): String
    requires |ts| >= 1
  {
    if |ts| == 1 then ts[0] else ts[0] + [d] + Join(ts[1..], d)
  }

  lemma JoinCons(x: String, ts: seq<String>, d: char)
    requires |ts| >= 1
    ensures Join([x + ts[0]] + ts[1..], d) == x + Join(ts, d)
  {
    var us := [x + ts[0]] + ts[1..];
    assert us[1..] == ts[1..];
  }

  /** Splitting and joining again gives back the text. */
  lemma {:induction false} SplitJoin(s: String, d: char)
    ensures Join(Split(s, d), d) == s
  {
    if s != [] {
      var rest := Split(s[1..], d);
      SplitJoin(s[1..], d);
      if s[0] == d {
        var us := [[]] + rest;
        assert us[1..] == rest;
        assert s == [d] + s[1..];
      } else {
        JoinCons([s[0]], rest, d);
        assert s == [s[0]] + s[1..];
      }
    }
  }

  lemma {:induction false} SplitNoSeparator(a: String, d: char)
    requires d !in a
    ensures Split(a, d) == [a]
  {
    if a != [] {
      SplitNoSeparator(a[1..], d);
      assert a == [a[0]] + a[1..];
    }
  }

  lemma {:induction false} SplitAfterPrefix(a: String, d: char, b: String)
    requires d !in a
    ensures Split(a + [d] + b, d) == [a] + Split(b, d)
  {
    var s := a + [d] + b;
    if a == [] {
      assert s[1..] == b;
    } else {
      assert s[1..] == a[1..] + [d] + b;
      SplitAfterPrefix(a[1..], d, b);
      assert [a[0]] + a[1..] == a;
    }
  }

  /** Three separator-free fields joined by the separator split back into those fields. */
  lemma SplitThree(a: String, b: String, c: String, d: char)
    requires d !in a && d !in b && d !in c
    ensures Split(a + [d] + b + [d] + c, d) == [a, b, c]
  {
    assert a + [d] + b + [d] + c == a + [d] + (b + [d] + c);
    SplitAfterPrefix(a, d, b + [d] + c);
    SplitAfterPrefix(b, d, c);
    SplitNoSeparator(c, d);
  }

  /** Joining pieces free of the separator and splitting again gives back the pieces. */
  lemma {:induction false} JoinSplit(ts: seq<String>, d: char)
    requires |ts| >= 1
    requires forall i :: 0 <= i < |ts| ==> d !in ts[i]
    ensures Split(Join(ts, d), d) == ts
  {
    if |ts| == 1 {
      SplitNoSeparator(ts[0], d);
    } else {
      JoinSplit(ts[1..], d);
      SplitAfterPrefix(ts[0], d, Join(ts[1..], d));
      assert [ts[0]] + ts[1..] == ts;
    }
  }

  /** `s.split(p).join('')` for a non-empty `p`: every left-to-right,
      non-overlapping occurrence of `p` removed. */
  function RemoveAll(s: String, p: String): (r: String)
    requires p != []
    ensures |r| <= |s|
    ensures !Contains(s, p) ==> r == s
    ensures Contains(s, p) ==> |r| <= |s| - |p|
    decreases |s|
  {
    var i := IndexOf(s, p);
    if i < 0 then s else s[..i] + RemoveAll(s[i + |p|..], p)
  }

  /** Concatenation of a sequence of strings (`join('')`). */
  function Flatten(ss: seq<String>): String {
    if ss == [] then [] else ss[0] + Flatten(ss[1..])
  }

  lemma {:induction false} FlattenAppend(a: seq<String>, b: seq<String>)
    ensures Flatten(a + b) == Flatten(a) + Flatten(b)
  {
    if a == [] {
      assert a + b == b;
    } else {
      assert (a + b)[1..] == a[1..] + b;
      FlattenAppend(a[1..], b);
    }
  }

  /** A sign character followed by at least one digit. */
  predicate SignedBy(t: String, sign: char) {
    |t| > 1 && t[0] == sign && AllDigits(t[1..])
  }

  /** The non-empty texts unary plus reads as an integer: digits, optionally signed. */
  predicate DecimalText(t: String) {
    (t != [] && AllDigits(t)) || SignedBy(t, '+') || SignedBy(t, '-')
  }

  /** Unary plus on a string, for the texts the tools read: surrounding white
      space ignored, the empty text is 0, an optional sign and decimal digits
      give that integer, anything else is NaN. */
  function ToNumber(s: String): (r: Num)
    ensures Trim(s) == [] ==> r == Finite(0)
    ensures Trim(s) != [] && AllDigits(Trim(s)) ==> r == Finite(DecValue(Trim(s)))
    ensures SignedBy(Trim(s), '+') ==> r == Finite(DecValue(Trim(s)[1..]))
    ensures SignedBy(Trim(s), '-') ==> r == Finite(-(DecValue(Trim(s)[1..]) as int))
    ensures r.NaN? <==> Trim(s) != [] && !DecimalText(Trim(s))
  {
    var t := Trim(s);
    if t == [] then Finite(0)
    else if SignedBy(t, '-') then Finite(-(DecValue(t[1..]) as int))
    else if SignedBy(t, '+') then Finite(DecValue(t[1..]))
    else if AllDigits(t) then Finite(DecValue(t))
    else NaN
  }

  /** Unary plus reads back a decimal rendering. */
  lemma NumberOfDec(n: nat)
    ensures ToNumber(Dec(n)) == Finite(n)
  {
    var t := Dec(n);
    assert IsDigit(t[0]) && IsDigit(t[|t| - 1]);
    TrimUnchanged(t);
    assert Trim(t) == t;
    assert t[0] != '-' && t[0] != '+';
    assert AllDigits(t);
  }

  /** What follows an optional leading sign. */
  function Unsigned(t: String): String {
    if |t| > 0 && (t[0] == '-' || t[0] == '+') then t[1..] else t
  }

  /** `parseInt(s)` on decimal text: leading white space skipped, an optional
      sign, then the longest run of digits; NaN when there is none. */
  function ParseInt(s: String): (r: Num)
    ensures r == NaN <==> LeadingDigits(Unsigned(TrimStart(s))) == []
    ensures r.Finite? && (TrimStart(s) == [] || TrimStart(s)[0] != '-') ==> r.value >= 0
  {
    var t := TrimStart(s);
    var digits := LeadingDigits(Unsigned(t));
    if digits == [] then NaN
    else if t[0] == '-' then Finite(-(DecValue(digits) as int))
    else Finite(DecValue(digits))
  }

  /** parseInt reads a run of decimal digits as their value. */
  lemma ParseIntDigits(d: String)
    requires d != [] && AllDigits(d)
    ensures ParseInt(d) == Finite(DecValue(d))
  {
    assert IsDigit(d[0]) && !IsSpace(d[0]) && !IsDigit('-') && !IsDigit('+');
    assert TrimStart(d) == d;
    assert Unsigned(d) == d;
    assert d[..|d|] == d;
    LeadingDigitsAt(d, |d|);
  }
}
