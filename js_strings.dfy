/** The JavaScript string built-ins the page applies to sheet cells:
    `split` on one separator character, `trim`, and `Number` on decimal digit
    strings. Whitespace is an explicit, small set of characters. */
module JsStrings {
  import opened Wrappers
  import opened Seqs

  /** `s.split(sep)` for a one-character separator: the pieces between the
      separators, with an empty piece wherever two separators touch or the
      string begins or ends with one. `"".split(sep)` is `[""]`. */
  function Split(s: string, sep: char): (pieces: seq<string>)
    ensures |pieces| >= 1
    ensures forall i :: 0 <= i < |pieces| ==> sep !in pieces[i]
    decreases |s|
  {
    var i := PieceEnd(s, sep, 0);
    if i == |s| then [s] else [s[..i]] + Split(s[i + 1..], sep)
  }

  /** The index of the first separator at or after `i`, or `|s|` when there
      is none. */
  function PieceEnd(s: string, sep: char, i: nat): (k: nat)
    requires i <= |s|
    ensures i <= k <= |s|
    ensures forall j :: i <= j < k ==> s[j] != sep
    ensures k < |s| ==> s[k] == sep
    decreases |s| - i
  {
    if i == |s| || s[i] == sep then i else PieceEnd(s, sep, i + 1)
  }

  /** `pieces.join(sep)`, the inverse of `Split`. */
  function Join(pieces: seq<string>, sep: char): string
    decreases |pieces|
  {
    if |pieces| == 0 then ""
    else if |pieces| == 1 then pieces[0]
    else pieces[0] + [sep] + Join(pieces[1..], sep)
  }

  /** Joining the pieces of a split gives back the string. */
  lemma {:induction false} JoinSplit(s: string, sep: char)
    ensures Join(Split(s, sep), sep) == s
    decreases |s|
  {
    var i := PieceEnd(s, sep, 0);
    if i < |s| {
      var rest := Split(s[i + 1..], sep);
      JoinSplit(s[i + 1..], sep);
      JoinCons(s[..i], rest, sep);
      assert s == s[..i] + [sep] + s[i + 1..];
    }
  }

  lemma JoinCons(x: string, pieces: seq<string>, sep: char)
    requires |pieces| >= 1
    ensures Join([x] + pieces, sep) == x + [sep] + Join(pieces, sep)
  {
    assert ([x] + pieces)[1..] == pieces;
  }

  /** A separator right after a separator-free prefix ends the first piece. */
  lemma SplitAt(a: string, sep: char, b: string)
    requires sep !in a
    ensures Split(a + [sep] + b, sep) == [a] + Split(b, sep)
  {
    var s := a + [sep] + b;
    var k := PieceEnd(s, sep, 0);
    assert s[|a|] == sep;
    assert forall j :: 0 <= j < |a| ==> s[j] == a[j];
    assert k == |a|;
    assert s[..|a|] == a && s[|a| + 1..] == b;
  }

  /** A string without the separator splits into itself alone. */
  lemma SplitWhole(a: string, sep: char)
    requires sep !in a
    ensures Split(a, sep) == [a]
  {
    assert PieceEnd(a, sep, 0) == |a|;
  }

  /** Splitting a join of separator-free pieces gives back the pieces. */
  lemma {:induction false} SplitJoin(pieces: seq<string>, sep: char)
    requires |pieces| >= 1
    requires forall i :: 0 <= i < |pieces| ==> sep !in pieces[i]
    ensures Split(Join(pieces, sep), sep) == pieces
    decreases |pieces|
  {
    if |pieces| == 1 {
      SplitWhole(pieces[0], sep);
    } else {
      SplitJoin(pieces[1..], sep);
      SplitAt(pieces[0], sep, Join(pieces[1..], sep));
      assert [pieces[0]] + pieces[1..] == pieces;
    }
  }

  /** The characters `trim` removes in this model: space, tab, line feed,
      carriage return, vertical tab, form feed, no-break space and the
      byte-order mark. */
  predicate IsWhitespace(c: char) {
    c == ' ' || c == '\t' || c == '\n' || c == '\r' || c == '\U{000B}' || c == '\U{000C}'
    || c == '\U{00A0}' || c == '\U{FEFF}'
  }

  /** Neither end of `s` is whitespace. */
  predicate IsTrimmed(s: string) {
    s == [] || (!IsWhitespace(s[0]) && !IsWhitespace(s[|s| - 1]))
  }

  predicate AllWhitespace(s: string) {
    forall i :: 0 <= i < |s| ==> IsWhitespace(s[i])
  }

  /** The index of the first character of `s` at or after `i` that is not
      whitespace, or `|s|`. */
  function SpaceEnd(s: string, i: nat): (k: nat)
    requires i <= |s|
    ensures i <= k <= |s|
    ensures forall j :: i <= j < k ==> IsWhitespace(s[j])
    ensures k == |s| || !IsWhitespace(s[k])
    decreases |s| - i
  {
    if i < |s| && IsWhitespace(s[i]) then SpaceEnd(s, i + 1) else i
  }

  /** The length of `s[..n]` without its trailing whitespace. */
  function SpaceStart(s: string, n: nat): (k: nat)
    requires n <= |s|
    ensures k <= n
    ensures forall j :: k <= j < n ==> IsWhitespace(s[j])
    ensures k == 0 || !IsWhitespace(s[k - 1])
    decreases n
  {
    if n > 0 && IsWhitespace(s[n - 1]) then SpaceStart(s, n - 1) else n
  }

  /** `s` without its leading whitespace: a suffix of `s`. */
  function TrimStart(s: string): (r: string)
    ensures |r| <= |s| && r == s[|s| - |r|..]
    ensures AllWhitespace(s[..|s| - |r|])
    ensures r == [] || !IsWhitespace(r[0])
  {
    s[SpaceEnd(s, 0)..]
  }

  /** `s` without its trailing whitespace: a prefix of `s`. */
  function TrimEnd(s: string): (r: string)
    ensures |r| <= |s| && r == s[..|r|]
    ensures AllWhitespace(s[|r|..])
    ensures r == [] || !IsWhitespace(r[|r| - 1])
  {
    s[..SpaceStart(s, |s|)]
  }

  /** `s.trim()`. */
  function Trim(s: string): (r: string)
    ensures IsTrimmed(r)
  {
    TrimEnd(TrimStart(s))
  }

  /** What `trim` removes is whitespace on either side of a trimmed core, and
      that core is exactly what it returns. */
  lemma TrimPadded(a: string, x: string, b: string)
    requires AllWhitespace(a) && AllWhitespace(b) && IsTrimmed(x)
    ensures Trim(a + x + b) == x
  {
    if x == [] {
      assert a + x + b == (a + b) + [];
      TrimStartPadded(a + b, []);
    } else {
      assert a + x + b == a + (x + b);
      TrimStartPadded(a, x + b);
      TrimEndPadded(x, b);
    }
  }

  lemma TrimStartPadded(a: string, y: string)
    requires AllWhitespace(a) && (y == [] || !IsWhitespace(y[0]))
    ensures TrimStart(a + y) == y
  {
    var s := a + y;
    var k := SpaceEnd(s, 0);
    assert forall j :: 0 <= j < |a| ==> s[j] == a[j];
    assert |s| > |a| ==> s[|a|] == y[0];
    assert k == |a|;
    assert s[|a|..] == y;
  }

  lemma TrimEndPadded(x: string, b: string)
    requires AllWhitespace(b) && IsTrimmed(x)
    ensures TrimEnd(x + b) == x
  {
    var s := x + b;
    var k := SpaceStart(s, |s|);
    assert forall j :: |x| <= j < |s| ==> s[j] == b[j - |x|];
    assert |x| > 0 ==> s[|x| - 1] == x[|x| - 1];
    assert k == |x|;
    assert s[..|x|] == x;
  }

  /** The core a trim keeps: `s` is that core with whitespace on both sides. */
  lemma TrimCore(s: string) returns (a: string, b: string)
    ensures AllWhitespace(a) && AllWhitespace(b)
    ensures s == a + Trim(s) + b
  {
    var t := TrimStart(s);
    var r := TrimEnd(t);
    var n := |s| - |t|;
    a := s[..n];
    b := t[|r|..];
    Halves(s, n);
    Halves(t, |r|);
    assert s == a + r + b by {
      Associative(a, r, b);
    }
  }

  /** Trimming twice is trimming once. */
  lemma TrimIdempotent(s: string)
    ensures Trim(Trim(s)) == Trim(s)
  {
    TrimmedUnchanged(Trim(s));
  }

  predicate IsDigit(c: char) {
    '0' <= c <= '9'
  }

  predicate AllDigits(s: string) {
    forall i :: 0 <= i < |s| ==> IsDigit(s[i])
  }

  /** The value of a string of decimal digits; the empty string is 0. */
  function DigitsValue(s: string): nat
    requires AllDigits(s)
    decreases |s|
  {
    if s == [] then 0 else DigitsValue(s[..|s| - 1]) * 10 + (s[|s| - 1] as int - '0' as int)
  }

  /** `Number(s)` when `s`, without surrounding whitespace, is a possibly
      empty string of decimal digits (`Number("")` and `Number("  ")` are 0);
      `None` for every other string. */
  function NumberOf(s: string): (r: Option<nat>)
    ensures AllWhitespace(s) ==> r == Some(0)
    ensures r.Some? ==> forall i :: 0 <= i < |s| ==> IsWhitespace(s[i]) || IsDigit(s[i])
  {
    var t := Trim(s);
    TrimKeepsNonWhitespace(s);
    if AllDigits(t) then Some(DigitsValue(t)) else None
  }

  /** `trim` removes whitespace only: every other character stays. */
  lemma TrimKeepsNonWhitespace(s: string)
    ensures forall i :: 0 <= i < |s| && !IsWhitespace(s[i]) ==> s[i] in Trim(s)
  {
    forall i | 0 <= i < |s| && !IsWhitespace(s[i])
      ensures s[i] in Trim(s)
    {
      KeptAt(s, i);
    }
  }

  lemma KeptAt(s: string, i: nat)
    requires i < |s| && !IsWhitespace(s[i])
    ensures s[i] in Trim(s)
  {
    var r := TrimStart(s);
    var n := |s| - |r|;
    var t := TrimEnd(r);
    assert forall j :: 0 <= j < n ==> s[..n][j] == s[j];
    assert n <= i;
    assert r[i - n] == s[i];
    assert forall j :: |t| <= j < |r| ==> r[|t|..][j - |t|] == r[j];
    assert i - n < |t|;
    assert t[i - n] == s[i];
  }

  /** `trim` adds no character: a character absent from `s` is absent from its trim. */
  lemma TrimKeepsOut(pieces: seq<string>, c: char)
    requires forall i :: 0 <= i < |pieces| ==> c !in pieces[i]
    ensures forall i :: 0 <= i < |pieces| ==> c !in Trim(pieces[i])
  {
    forall i | 0 <= i < |pieces|
      ensures c !in Trim(pieces[i])
    {
      var t := TrimStart(pieces[i]);
      assert forall j :: 0 <= j < |t| ==> t[j] == pieces[i][|pieces[i]| - |t| + j];
      var r := TrimEnd(t);
      assert forall j :: 0 <= j < |r| ==> r[j] == t[j];
    }
  }

  /** A bare digit string is read as its decimal value. */
  lemma NumberOfDigits(s: string)
    requires AllDigits(s)
    ensures NumberOf(s) == Some(DigitsValue(s))
  {
    if s != [] {
      assert IsDigit(s[0]) && IsDigit(s[|s| - 1]);
    }
    TrimmedUnchanged(s);
  }

  /** A string with no whitespace at either end is its own trim. */
  lemma TrimmedUnchanged(s: string)
    requires IsTrimmed(s)
    ensures Trim(s) == s
  {
    assert SpaceEnd(s, 0) == 0;
    assert TrimStart(s) == s;
  }

  function DigitChar(d: nat): char
    requires d < 10
  {
    ('0' as int + d) as char
  }

  /** The decimal numeral of `n`, without leading zeros. */
  function Decimal(n: nat): (s: string)
    ensures |s| >= 1 && AllDigits(s)
    decreases n
  {
    if n < 10 then [DigitChar(n)] else Decimal(n / 10) + [DigitChar(n % 10)]
  }

  /** The decimal numeral of `n`, left-padded with zeros to `width` digits. */
  function PaddedDecimal(n: nat, width: nat): (s: string)
    ensures AllDigits(s) && |s| >= width
  {
    var d := Decimal(n);
    if |d| >= width then d else ZeroPad(width - |d|) + d
  }

  function ZeroPad(k: nat): (s: string)
    ensures |s| == k && AllDigits(s)
  {
    seq(k, _ => '0')
  }

  /** Reading back a numeral gives its number. */
  lemma {:induction false} DecimalValue(n: nat)
    ensures DigitsValue(Decimal(n)) == n
    decreases n
  {
    if n >= 10 {
      DecimalValue(n / 10);
      var s := Decimal(n);
      assert s[..|s| - 1] == Decimal(n / 10);
    }
  }

  /** Leading zeros do not change a numeral's value. */
  lemma {:induction false} LeadingZeros(k: nat, s: string)
    requires AllDigits(s)
    ensures DigitsValue(ZeroPad(k) + s) == DigitsValue(s)
    decreases |s|
  {
    var z := ZeroPad(k);
    if s == [] {
      assert z + s == z;
      AllZeros(k);
    } else {
      var t := z + s;
      assert t[..|t| - 1] == z + s[..|s| - 1];
      LeadingZeros(k, s[..|s| - 1]);
    }
  }

  lemma {:induction false} AllZeros(k: nat)
    ensures DigitsValue(ZeroPad(k)) == 0
    decreases k
  {
    if k > 0 {
      assert ZeroPad(k)[..k - 1] == ZeroPad(k - 1);
      AllZeros(k - 1);
    }
  }

  /** `Number` reads a zero-padded numeral back as its number. */
  lemma NumberOfPadded(n: nat, width: nat)
    ensures NumberOf(PaddedDecimal(n, width)) == Some(n)
  {
    var p := PaddedDecimal(n, width);
    PaddedValue(n, width);
    NumberOfDigits(p);
  }

  lemma PaddedValue(n: nat, width: nat)
    ensures DigitsValue(PaddedDecimal(n, width)) == n
  {
    var d := Decimal(n);
    DecimalValue(n);
    if |d| < width {
      assert PaddedDecimal(n, width) == ZeroPad(width - |d|) + d;
      LeadingZeros(width - |d|, d);
    } else {
      assert PaddedDecimal(n, width) == d;
    }
  }
}
