/**
 The Python 2 built-ins the shell leans on, stated over `string` (a sequence of
 characters, one character per byte of a Python 2 `str`): truthiness of the values
 a handler returns, `int()` on a string, `'%d'` formatting, `str.split`,
 `str.lower`, `str.replace` and `repr()` of a list of strings.
 */
module Builtins {

  datatype Option<T> = None | Some(value: T)

  /** The Python values a validator or a command handler hands back. */
  datatype PyObj = PyNone | PyBool(b: bool)
  {
    /** Python truthiness: `None` and `False` are falsy. */
    predicate Truthy() {
      PyBool? && b
    }
  }

  // ---------------------------------------------------------------------------
  // Whitespace, digits and int()
  // ---------------------------------------------------------------------------

  /** The bytes C's `isspace` accepts in the C locale (blank, \t, \n, \v, \f, \r). */
  predicate IsSpace(c: char) {
    c == ' ' || c == '\t' || c == '\n' || c == '\r' || c as int == 11 || c as int == 12
  }

  predicate IsDigit(c: char) {
    '0' <= c && c <= '9'
  }

  predicate AllSpace(s: string) {
    forall i :: 0 <= i < |s| ==> IsSpace(s[i])
  }

  predicate AllDigits(s: string) {
    forall i :: 0 <= i < |s| ==> IsDigit(s[i])
  }

  /** `s` without its leading whitespace. */
  function LStrip(s: string): (r: string)
    ensures |r| <= |s| && r == s[|s| - |r|..]
    ensures AllSpace(s[..|s| - |r|])
    ensures |r| > 0 ==> !IsSpace(r[0])
    decreases |s|
  {
    if |s| > 0 && IsSpace(s[0]) then
      var r := LStrip(s[1..]);
      assert s[..|s| - |r|] == [s[0]] + s[1..][..|s| - 1 - |r|];
      r
    else s
  }

  /** `s` without its trailing whitespace. */
  function RStrip(s: string): (r: string)
    ensures |r| <= |s| && r == s[..|r|]
    ensures AllSpace(s[|r|..])
    ensures |r| > 0 ==> !IsSpace(r[|r| - 1])
    decreases |s|
  {
    if |s| > 0 && IsSpace(s[|s| - 1]) then
      var r := RStrip(s[..|s| - 1]);
      assert s[|r|..] == s[..|s| - 1][|r|..] + [s[|s| - 1]];
      r
    else s
  }

  function DigitValue(c: char): nat
    requires IsDigit(c)
  {
    (c as int) - ('0' as int)
  }

  /** The number a non-empty run of decimal digits denotes, most significant first. */
  function DecimalValue(d: string): nat
    requires AllDigits(d)
  {
    if |d| == 0 then 0 else 10 * DecimalValue(d[..|d| - 1]) + DigitValue(d[|d| - 1])
  }

  /** `int()` once surrounding whitespace is gone: one optional sign, blanks, then digits. */
  function ParseTrimmed(t: string): Option<int>
  {
    if |t| > 0 && (t[0] == '+' || t[0] == '-') then
      var body := LStrip(t[1..]);
      if |body| > 0 && AllDigits(body) then
        var v: int := DecimalValue(body);
        Some(if t[0] == '-' then -v else v)
      else None
    else if |t| > 0 && AllDigits(t) then
      Some(DecimalValue(t))
    else None
  }

  /**
   Python 2's `int(s)` on a byte string, in base 10; `None` stands for the
   `ValueError` it raises. CPython 2.7 accepts
       blanks* [ ('+' | '-') blanks* ] digit+ blanks*
   that is, surrounding whitespace, one sign, and (unlike Python 3) whitespace
   between the sign and the digits. A NUL byte is refused, as is anything else.
   */
  function ParseInt(s: string): Option<int>
  {
    ParseTrimmed(RStrip(LStrip(s)))
  }

  /** The characters a string `int()` accepts may contain. */
  predicate NumeralChar(c: char) {
    IsSpace(c) || IsDigit(c) || c == '+' || c == '-'
  }

  lemma TrimmedShape(t: string)
    requires ParseTrimmed(t).Some?
    ensures forall i :: 0 <= i < |t| ==> NumeralChar(t[i])
    ensures exists i :: 0 <= i < |t| && IsDigit(t[i])
  {
    if t[0] == '+' || t[0] == '-' {
      var body := LStrip(t[1..]);
      var gap := |t| - 1 - |body|;
      assert body == t[1 + gap..];
      assert forall i :: 1 <= i < 1 + gap ==> t[i] == t[1..][..gap][i - 1];
      assert IsDigit(t[1 + gap]);
    } else {
      assert IsDigit(t[0]);
    }
  }

  lemma ShapeOfPadded(a: string, t: string, b: string)
    requires AllSpace(a) && AllSpace(b)
    requires forall i :: 0 <= i < |t| ==> NumeralChar(t[i])
    requires exists j :: 0 <= j < |t| && IsDigit(t[j])
    ensures forall i :: 0 <= i < |a + (t + b)| ==> NumeralChar((a + (t + b))[i])
    ensures exists i :: 0 <= i < |a + (t + b)| && IsDigit((a + (t + b))[i])
  {
    var j :| 0 <= j < |t| && IsDigit(t[j]);
    assert (a + (t + b))[|a| + j] == t[j];
    forall i | 0 <= i < |a + (t + b)|
      ensures NumeralChar((a + (t + b))[i])
    {
      if i < |a| {
        assert (a + (t + b))[i] == a[i];
      } else if i < |a| + |t| {
        assert (a + (t + b))[i] == t[i - |a|];
      } else {
        assert (a + (t + b))[i] == b[i - |a| - |t|];
      }
    }
  }

  /** What a string `int()` accepts is made only of whitespace, signs and digits, and holds a digit. */
  lemma ParseIntShape(s: string)
    requires ParseInt(s).Some?
    ensures forall i :: 0 <= i < |s| ==> NumeralChar(s[i])
    ensures exists i :: 0 <= i < |s| && IsDigit(s[i])
  {
    var l := LStrip(s);
    var t := RStrip(l);
    assert ParseTrimmed(t).Some?;
    TrimmedShape(t);
    StripSplit(s, l, t);
    ShapeOfPadded(s[..|s| - |l|], t, l[|t|..]);
  }

  /** `s` is the part before its suffix `l`, then the prefix `t` of `l`, then the rest of `l`. */
  lemma StripSplit(s: string, l: string, t: string)
    requires |l| <= |s| && l == s[|s| - |l|..]
    requires |t| <= |l| && t == l[..|t|]
    ensures s == s[..|s| - |l|] + (t + l[|t|..])
  {
    Reassemble(s, |s| - |l|);
    Reassemble(l, |t|);
  }

  lemma Reassemble(s: string, k: nat)
    requires k <= |s|
    ensures s == s[..k] + s[k..]
  {
  }

  function DigitChar(d: nat): (c: char)
    requires d < 10
    ensures IsDigit(c) && DigitValue(c) == d
  {
    ('0' as int + d) as char
  }

  /** `'%d' % n` for a natural number. */
  function NatToString(n: nat): (r: string)
    ensures |r| > 0 && AllDigits(r)
    decreases n
  {
    if n < 10 then [DigitChar(n)] else NatToString(n / 10) + [DigitChar(n % 10)]
  }

  /** `'%d' % k` for any integer. */
  function IntToString(k: int): string
  {
    if k < 0 then "-" + NatToString(-k) else NatToString(k)
  }

  lemma {:induction false} DecimalRoundTrip(n: nat)
    ensures DecimalValue(NatToString(n)) == n
    decreases n
  {
    if n >= 10 {
      var s := NatToString(n);
      DecimalRoundTrip(n / 10);
      assert s[..|s| - 1] == NatToString(n / 10);
    }
  }

  lemma {:induction false} LStripNoSpace(a: string, t: string)
    requires AllSpace(a)
    requires |t| > 0 && !IsSpace(t[0])
    ensures LStrip(a + t) == t
    decreases |a|
  {
    if |a| == 0 {
      assert a + t == t;
    } else {
      assert (a + t)[0] == a[0];
      assert (a + t)[1..] == a[1..] + t;
      LStripNoSpace(a[1..], t);
    }
  }

  lemma {:induction false} RStripNoSpace(t: string, b: string)
    requires AllSpace(b)
    requires |t| > 0 && !IsSpace(t[|t| - 1])
    ensures RStrip(t + b) == t
    decreases |b|
  {
    if |b| == 0 {
      assert t + b == t;
    } else {
      assert (t + b)[|t + b| - 1] == b[|b| - 1];
      assert (t + b)[..|t + b| - 1] == t + b[..|b| - 1];
      RStripNoSpace(t, b[..|b| - 1]);
    }
  }

  /** `int()` reads back any formatted integer, whatever whitespace surrounds it. */
  lemma ParseIntRoundTrip(a: string, k: int, b: string)
    requires AllSpace(a) && AllSpace(b)
    ensures ParseInt(a + IntToString(k) + b) == Some(k)
  {
    StripFormatted(a, k, b);
    ParseFormatted(k);
  }

  /** `int()` reads back any formatted integer. */
  lemma ParseIntFormatted(k: int)
    ensures ParseInt(IntToString(k)) == Some(k)
  {
    var x := IntToString(k);
    assert "" + x + "" == x;
    StripFormatted("", k, "");
    ParseFormatted(k);
  }

  lemma ParseFormatted(k: int)
    ensures ParseTrimmed(IntToString(k)) == Some(k)
  {
    if k < 0 {
      var n: nat := -k;
      var digits := NatToString(n);
      DecimalRoundTrip(n);
      ParseSigned(digits);
      assert IntToString(k) == "-" + digits;
    } else {
      DecimalRoundTrip(k);
      ParseDigits(NatToString(k));
    }
  }

  lemma ParseDigits(t: string)
    requires |t| > 0 && AllDigits(t)
    ensures ParseTrimmed(t) == Some(DecimalValue(t))
  {
    assert IsDigit(t[0]);
  }

  lemma ParseSigned(digits: string)
    requires |digits| > 0 && AllDigits(digits)
    ensures ParseTrimmed("-" + digits) == Some(-(DecimalValue(digits) as int))
  {
    var x := "-" + digits;
    assert x[0] == '-' && x[1..] == digits;
    assert !IsSpace(digits[0]);
    assert LStrip(digits) == digits;
  }

  lemma StripFormatted(a: string, k: int, b: string)
    requires AllSpace(a) && AllSpace(b)
    ensures RStrip(LStrip(a + IntToString(k) + b)) == IntToString(k)
  {
    var x := IntToString(k);
    assert !IsSpace(x[0]) && !IsSpace(x[|x| - 1]);
    assert a + x + b == a + (x + b);
    LStripNoSpace(a, x + b);
    RStripNoSpace(x, b);
  }

  // ---------------------------------------------------------------------------
  // str.split and its inverse str.join
  // ---------------------------------------------------------------------------

  /** `s.split(sep)` for a one-character separator: always at least one field. */
  function Split(s: string, sep: char): (r: seq<string>)
    ensures |r| >= 1
    ensures forall i :: 0 <= i < |r| ==> sep !in r[i]
    decreases |s|
  {
    if |s| == 0 then [""]
    else
      var tail := Split(s[1..], sep);
      if s[0] == sep then [""] + tail else [[s[0]] + tail[0]] + tail[1..]
  }

  /** The first field of a split ends just before the first separator. */
  lemma {:induction false} SplitFirstField(s: string, sep: char, i: nat)
    requires i < |s| && s[i] == sep && sep !in s[..i]
    ensures Split(s, sep)[0] == s[..i]
    decreases i
  {
    if i > 0 {
      assert s[0] in s[..i];
      assert s[1..][i - 1] == sep;
      assert s[1..][..i - 1] == s[1..i];
      assert forall c :: c in s[1..i] ==> c in s[..i];
      SplitFirstField(s[1..], sep, i - 1);
      assert s[..i] == [s[0]] + s[1..i];
    }
  }

  /** `sep.join(fields)`. */
  function Join(fields: seq<string>, sep: char): string
    requires |fields| >= 1
  {
    if |fields| == 1 then fields[0] else fields[0] + [sep] + Join(fields[1..], sep)
  }

  /** Joining the fields of a split gives back the original string. */
  lemma {:induction false} JoinSplit(s: string, sep: char)
    ensures Join(Split(s, sep), sep) == s
    decreases |s|
  {
    if |s| > 0 {
      var tail := Split(s[1..], sep);
      JoinSplit(s[1..], sep);
      if s[0] == sep {
        assert Split(s, sep) == [""] + tail;
      } else {
        var r := Split(s, sep);
        assert r == [[s[0]] + tail[0]] + tail[1..];
        if |tail| == 1 {
          assert Join(r, sep) == [s[0]] + tail[0];
        } else {
          assert r[1..] == tail[1..];
          assert Join(tail, sep) == tail[0] + [sep] + Join(tail[1..], sep);
        }
        assert s == [s[0]] + s[1..];
      }
    }
  }

  lemma {:induction false} SplitNoSep(x: string, z: string, sep: char)
    requires sep !in x
    ensures Split(x + z, sep) == [x + Split(z, sep)[0]] + Split(z, sep)[1..]
    decreases |x|
  {
    if |x| > 0 {
      var sz := Split(z, sep);
      assert x[0] in x;
      assert forall c :: c in x[1..] ==> c in x;
      SplitNoSep(x[1..], z, sep);
      assert (x + z)[0] == x[0] != sep;
      assert (x + z)[1..] == x[1..] + z;
      var tail := Split(x[1..] + z, sep);
      assert tail == [x[1..] + sz[0]] + sz[1..];
      assert Split(x + z, sep) == [[x[0]] + tail[0]] + tail[1..];
      assert [x[0]] + (x[1..] + sz[0]) == x + sz[0];
    } else {
      var r := Split(z, sep);
      assert x + z == z;
      assert x + r[0] == r[0];
      assert r == [r[0]] + r[1..];
    }
  }

  /** Splitting a join of separator-free fields gives back the fields. */
  lemma {:induction false} SplitJoin(fields: seq<string>, sep: char)
    requires |fields| >= 1
    requires forall i :: 0 <= i < |fields| ==> sep !in fields[i]
    ensures Split(Join(fields, sep), sep) == fields
    decreases |fields|
  {
    if |fields| == 1 {
      SplitNoSep(fields[0], "", sep);
      assert Split("", sep) == [""];
      assert fields[0] + "" == fields[0];
      assert fields == [fields[0]];
    } else {
      var z := Join(fields[1..], sep);
      SplitJoin(fields[1..], sep);
      SplitNoSep(fields[0], [sep] + z, sep);
      assert fields[0] + [sep] + z == fields[0] + ([sep] + z);
      assert ([sep] + z)[1..] == z;
      assert Split([sep] + z, sep) == [""] + Split(z, sep);
      assert fields[0] + "" == fields[0];
      assert fields == [fields[0]] + fields[1..];
    }
  }

  /** A split has a second field exactly when the separator occurs. */
  lemma {:induction false} SplitHasSecondField(s: string, sep: char)
    ensures |Split(s, sep)| >= 2 <==> sep in s
    decreases |s|
  {
    if |s| > 0 {
      SplitHasSecondField(s[1..], sep);
      assert sep in s <==> s[0] == sep || sep in s[1..];
    }
  }

  // ---------------------------------------------------------------------------
  // str.lower and str.replace
  // ---------------------------------------------------------------------------

  /** `str.lower()` on one byte in the C locale: only A-Z change. */
  function LowerChar(c: char): char
  {
    if 'A' <= c <= 'Z' then (c as int + 32) as char else c
  }

  function Lower(s: string): string
  {
    seq(|s|, i requires 0 <= i < |s| => LowerChar(s[i]))
  }

  /** `t.lower() == 'y'` holds for exactly the two answers "y" and "Y". */
  lemma LowerIsY(t: string)
    ensures Lower(t) == "y" <==> t == "y" || t == "Y"
  {
    if Lower(t) == "y" {
      assert |t| == 1;
      assert Lower(t)[0] == LowerChar(t[0]) == 'y';
      assert t == [t[0]];
    }
  }

  /** `s.replace(a, b)` for one-character `a` and `b`. */
  function ReplaceChar(s: string, a: char, b: char): (r: string)
    ensures |r| == |s|
    ensures a != b ==> a !in r
    ensures forall i :: 0 <= i < |s| && s[i] != a ==> r[i] == s[i]
    ensures forall i :: 0 <= i < |s| && s[i] == a ==> r[i] == b
    decreases |s|
  {
    if |s| == 0 then "" else [if s[0] == a then b else s[0]] + ReplaceChar(s[1..], a, b)
  }

  // ---------------------------------------------------------------------------
  // repr() of a byte string and of a list of byte strings
  // ---------------------------------------------------------------------------

  predicate Printable(c: char) {
    ' ' <= c <= '~'
  }

  predicate AllPrintable(s: string) {
    forall i :: 0 <= i < |s| ==> Printable(s[i])
  }

  function HexDigit(d: nat): (c: char)
    requires d < 16
    ensures Printable(c)
  {
    if d < 10 then DigitChar(d) else ('a' as int + d - 10) as char
  }

  /** How `repr` writes one byte inside a literal quoted with `quote`. */
  function ReprChar(c: char, quote: char): (r: string)
    requires quote == '\'' || quote == '"'
    ensures AllPrintable(r)
    ensures |r| >= 1
  {
    if c == quote || c == '\\' then ['\\', c]
    else if c == '\t' then "\\t"
    else if c == '\n' then "\\n"
    else if c == '\r' then "\\r"
    else if c < ' ' || c as int >= 0x7f then
      var b := c as int % 256;
      ['\\', 'x', HexDigit(b / 16), HexDigit(b % 16)]
    else [c]
  }

  function ReprBody(s: string, quote: char): (r: string)
    requires quote == '\'' || quote == '"'
    ensures AllPrintable(r)
    ensures |r| >= |s|
    decreases |s|
  {
    if |s| == 0 then "" else ReprChar(s[0], quote) + ReprBody(s[1..], quote)
  }

  /** Python 2 `repr` of a byte string: single quotes unless the text holds a single quote and no double quote. */
  function Repr(s: string): (r: string)
    ensures |r| >= 2 && r[0] == r[|r| - 1] && (r[0] == '\'' || r[0] == '"')
    ensures AllPrintable(r)
  {
    var q := if '\'' in s && '"' !in s then '"' else '\'';
    [q] + ReprBody(s, q) + [q]
  }

  /** A string of ordinary printable characters is shown between single quotes, unchanged. */
  lemma ReprPlain(s: string)
    requires AllPrintable(s)
    requires '\'' !in s && '\\' !in s
    ensures Repr(s) == "'" + s + "'"
  {
    forall i | 0 <= i < |s|
      ensures s[i] != '\'' && s[i] != '\\'
    {
      assert s[i] in s;
    }
    PlainBody(s);
  }

  lemma {:induction false} PlainBody(s: string)
    requires forall i :: 0 <= i < |s| ==> Printable(s[i]) && s[i] != '\'' && s[i] != '\\'
    ensures ReprBody(s, '\'') == s
    decreases |s|
  {
    if |s| > 0 {
      assert ReprChar(s[0], '\'') == [s[0]];
      PlainBody(s[1..]);
      assert s == [s[0]] + s[1..];
    }
  }

  /** The entries of a list repr: `repr(x)` joined by ", ". */
  function ReprItems(xs: seq<string>): string
    decreases |xs|
  {
    if |xs| == 0 then ""
    else if |xs| == 1 then Repr(xs[0])
    else Repr(xs[0]) + ", " + ReprItems(xs[1..])
  }

  /** Python 2 `'%s' % xs` for a list of byte strings, which is `repr(xs)`. */
  function ListRepr(xs: seq<string>): (r: string)
    ensures |r| >= 2 && r[0] == '[' && r[|r| - 1] == ']'
  {
    "[" + ReprItems(xs) + "]"
  }
}
