/** String helpers the widget relies on: JavaScript's `String.prototype.trim`,
    `split` on a one-character separator, `Array.prototype.join`, and the
    decimal digit strings used for numbers, keys and identifiers. */
module Text {

  /** The characters `trim` removes: the ECMAScript WhiteSpace and
      LineTerminator code points (tab, vertical tab, form feed, space,
      no-break space, byte-order mark, the space separators of category Zs,
      line feed, carriage return, line and paragraph separators). */
  const Whitespace: set<char> := {
    '\t', '\n', '\U{000B}', '\U{000C}', '\r', ' ', '\U{00A0}', '\U{1680}',
    '\U{2000}', '\U{2001}', '\U{2002}', '\U{2003}', '\U{2004}', '\U{2005}',
    '\U{2006}', '\U{2007}', '\U{2008}', '\U{2009}', '\U{200A}',
    '\U{2028}', '\U{2029}', '\U{202F}', '\U{205F}', '\U{3000}', '\U{FEFF}'
  }

  predicate IsWhitespace(c: char) {
    c in Whitespace
  }

  predicate AllWhitespace(s: string) {
    forall i :: 0 <= i < |s| ==> IsWhitespace(s[i])
  }

  /** The index of the first non-whitespace character of `s` at or after
      `i`, or `|s|` when there is none. */
  function SkipForward(s: string, i: nat): (n: nat)
    requires i <= |s|
    ensures i <= n <= |s|
    ensures forall k :: i <= k < n ==> IsWhitespace(s[k])
    ensures n < |s| ==> !IsWhitespace(s[n])
    decreases |s| - i
  {
    if i < |s| && IsWhitespace(s[i]) then SkipForward(s, i + 1) else i
  }

  /** The index just past the last non-whitespace character of `s` before
      `j`, or `0` when there is none. */
  function SkipBackward(s: string, j: nat): (n: nat)
    requires j <= |s|
    ensures n <= j
    ensures forall k :: n <= k < j ==> IsWhitespace(s[k])
    ensures n > 0 ==> !IsWhitespace(s[n - 1])
  {
    if j > 0 && IsWhitespace(s[j - 1]) then SkipBackward(s, j - 1) else j
  }

  /** Where the trimmed text of `s` starts. */
  function Start(s: string): nat {
    SkipForward(s, 0)
  }

  /** Where the trimmed text of `s` ends. */
  function End(s: string): nat {
    SkipBackward(s, |s|)
  }

  /** `String.prototype.trim`: empty exactly when `s` is all whitespace, and
      otherwise the part of `s` from its first to its last non-whitespace
      character. */
  function Trim(s: string): (r: string)
    ensures |r| <= |s|
    ensures r == [] <==> AllWhitespace(s)
    ensures |r| > 0 ==> !IsWhitespace(r[0]) && !IsWhitespace(r[|r| - 1])
  {
    if Start(s) == |s| then []
    else
      Bounds(s);
      s[Start(s)..End(s)]
  }

  /** Outside the trimmed text there is only whitespace, and the trimmed text
      is non-empty unless `s` is all whitespace. */
  lemma Bounds(s: string)
    ensures Start(s) == |s| <==> AllWhitespace(s)
    ensures Start(s) < |s| ==> Start(s) < End(s)
  {
    if Start(s) < |s| {
      assert !IsWhitespace(s[Start(s)]);
    }
  }

  /** The trimmed string is the infix of `s` between `Start` and `End`. */
  lemma TrimInfix(s: string)
    ensures Start(s) < |s| ==> Start(s) < End(s) && Trim(s) == s[Start(s)..End(s)]
    ensures Start(s) + |Trim(s)| <= |s|
    ensures Trim(s) == s[Start(s)..Start(s) + |Trim(s)|]
  {
    Bounds(s);
  }

  /** A string without whitespace at either end is its own trim. */
  lemma TrimOfTrimmed(s: string)
    requires |s| > 0 ==> !IsWhitespace(s[0]) && !IsWhitespace(s[|s| - 1])
    ensures Trim(s) == s
  {
    if |s| > 0 {
      SkipForwardAt(s, 0, 0);
      SkipBackwardAt(s, |s|, |s|);
    }
  }

  /** `SkipForward` stops at the first non-whitespace character. */
  lemma {:induction false} SkipForwardAt(s: string, i: nat, n: nat)
    requires i <= n <= |s|
    requires forall k :: i <= k < n ==> IsWhitespace(s[k])
    requires n < |s| ==> !IsWhitespace(s[n])
    ensures SkipForward(s, i) == n
    decreases n - i
  {
    if i < n {
      SkipForwardAt(s, i + 1, n);
    }
  }

  /** `SkipBackward` stops after the last non-whitespace character. */
  lemma {:induction false} SkipBackwardAt(s: string, j: nat, n: nat)
    requires n <= j <= |s|
    requires forall k :: n <= k < j ==> IsWhitespace(s[k])
    requires n > 0 ==> !IsWhitespace(s[n - 1])
    ensures SkipBackward(s, j) == n
    decreases j - n
  {
    if n < j {
      SkipBackwardAt(s, j - 1, n);
    }
  }

  /** Whitespace added at either end does not change the trimmed string. */
  lemma TrimPadded(p: string, x: string, q: string)
    requires AllWhitespace(p) && AllWhitespace(q)
    ensures Trim(p + x + q) == Trim(x)
  {
    if AllWhitespace(x) {
      BlankPadded(p, x, q);
    } else {
      NonBlankPadded(p, x, q);
    }
  }

  lemma NonBlankPadded(p: string, x: string, q: string)
    requires AllWhitespace(p) && AllWhitespace(q) && !AllWhitespace(x)
    ensures Trim(p + x + q) == Trim(x)
  {
    var s := p + x + q;
    Bounds(x);
    StartOfPadded(p, x, q);
    EndOfPadded(p, x, q);
    Bounds(s);
    InnerSlice(p, x, q, Start(x), End(x));
  }

  /** A slice of the middle part of a concatenation. */
  lemma InnerSlice(p: string, x: string, q: string, a: nat, b: nat)
    requires a <= b <= |x|
    ensures (p + x + q)[|p| + a..|p| + b] == x[a..b]
  {
    var s := p + x + q;
    forall k | 0 <= k < b - a ensures s[|p| + a..|p| + b][k] == x[a..b][k] {
      assert s[|p| + a + k] == x[a + k];
    }
  }

  lemma BlankPadded(p: string, x: string, q: string)
    requires AllWhitespace(p) && AllWhitespace(x) && AllWhitespace(q)
    ensures AllWhitespace(p + x + q)
  {
    var s := p + x + q;
    forall i | 0 <= i < |s| ensures IsWhitespace(s[i]) {
      if i < |p| { } else if i < |p| + |x| { assert s[i] == x[i - |p|]; } else { assert s[i] == q[i - |p| - |x|]; }
    }
  }

  lemma StartOfPadded(p: string, x: string, q: string)
    requires AllWhitespace(p) && Start(x) < |x|
    ensures Start(p + x + q) == |p| + Start(x)
  {
    var s := p + x + q;
    var a := Start(x);
    forall k | 0 <= k < |p| + a ensures IsWhitespace(s[k]) {
      if k >= |p| { assert s[k] == x[k - |p|]; }
    }
    assert s[|p| + a] == x[a];
    SkipForwardAt(s, 0, |p| + a);
  }

  lemma EndOfPadded(p: string, x: string, q: string)
    requires AllWhitespace(q) && Start(x) < |x|
    ensures End(p + x + q) == |p| + End(x)
  {
    var s := p + x + q;
    var b := End(x);
    Bounds(x);
    forall k | |p| + b <= k < |s| ensures IsWhitespace(s[k]) {
      if k < |p| + |x| { assert s[k] == x[k - |p|]; } else { assert s[k] == q[k - |p| - |x|]; }
    }
    assert s[|p| + b - 1] == x[b - 1];
    SkipBackwardAt(s, |s|, |p| + b);
  }

  /** `s` does not contain the character `c`. */
  predicate Lacks(s: string, c: char) {
    forall i :: 0 <= i < |s| ==> s[i] != c
  }

  /** `s.split('-')` for the separator `sep`: the pieces between separators,
      including empty ones; the empty string splits into one empty piece. */
  function Split(s: string, sep: char): (parts: seq<string>)
    ensures |parts| >= 1
    ensures forall i :: 0 <= i < |parts| ==> Lacks(parts[i], sep)
  {
    if |s| == 0 then [""]
    else if s[0] == sep then [""] + Split(s[1..], sep)
    else
      var rest := Split(s[1..], sep);
      [[s[0]] + rest[0]] + rest[1..]
  }

  /** `parts.join(sep)`. */
  function Join(parts: seq<string>, sep: string): string {
    if |parts| == 0 then ""
    else if |parts| == 1 then parts[0]
    else parts[0] + sep + Join(parts[1..], sep)
  }

  lemma JoinCons(p: string, rest: seq<string>, sep: string)
    requires |rest| >= 1
    ensures Join([p] + rest, sep) == p + sep + Join(rest, sep)
  {
    assert ([p] + rest)[1..] == rest;
  }

  /** A join starts with the first character of its first part. */
  lemma JoinHead(parts: seq<string>, sep: string)
    requires |parts| > 0 && |parts[0]| > 0
    ensures |Join(parts, sep)| > 0 && Join(parts, sep)[0] == parts[0][0]
  {
  }

  /** Joining with one more part at the end. */
  lemma {:induction false} JoinSnoc(parts: seq<string>, last: string, sep: string)
    requires |parts| > 0
    ensures Join(parts + [last], sep) == Join(parts, sep) + sep + last
  {
    if |parts| == 1 {
      assert (parts + [last])[1..] == [last];
    } else {
      assert (parts + [last])[1..] == parts[1..] + [last];
      JoinSnoc(parts[1..], last, sep);
    }
  }

  /** The join, peeled at its last part. */
  lemma JoinLast(parts: seq<string>, sep: string)
    requires |parts| > 1
    ensures Join(parts, sep) == Join(parts[..|parts| - 1], sep) + sep + parts[|parts| - 1]
  {
    JoinSnoc(parts[..|parts| - 1], parts[|parts| - 1], sep);
    assert parts[..|parts| - 1] + [parts[|parts| - 1]] == parts;
  }

  /** Joining the pieces of a split with the separator gives back the string. */
  lemma {:induction false} JoinSplit(s: string, sep: char)
    ensures Join(Split(s, sep), [sep]) == s
  {
    if |s| == 0 {
    } else if s[0] == sep {
      JoinSplit(s[1..], sep);
      JoinCons("", Split(s[1..], sep), [sep]);
      assert s == [sep] + s[1..];
    } else {
      var rest := Split(s[1..], sep);
      JoinSplit(s[1..], sep);
      if |rest| == 1 {
        assert s == [s[0]] + s[1..];
      } else {
        JoinCons([s[0]] + rest[0], rest[1..], [sep]);
        JoinCons(rest[0], rest[1..], [sep]);
        assert [rest[0]] + rest[1..] == rest;
        assert s == [s[0]] + s[1..];
      }
    }
  }

  /** A separator-free prefix glues onto the first piece. */
  lemma {:induction false} SplitPrefix(a: string, s: string, sep: char)
    requires Lacks(a, sep)
    ensures Split(a + s, sep) == [a + Split(s, sep)[0]] + Split(s, sep)[1..]
  {
    if |a| == 0 {
      assert a + s == s;
      var p := Split(s, sep);
      assert a + p[0] == p[0];
      assert [p[0]] + p[1..] == p;
    } else {
      assert (a + s)[0] == a[0];
      assert (a + s)[1..] == a[1..] + s;
      SplitPrefix(a[1..], s, sep);
      assert [a[0]] + (a[1..] + Split(s, sep)[0]) == a + Split(s, sep)[0];
    }
  }

  /** Splitting the join of separator-free pieces gives back the pieces. */
  lemma {:induction false} SplitJoin(parts: seq<string>, sep: char)
    requires |parts| >= 1
    requires forall i :: 0 <= i < |parts| ==> Lacks(parts[i], sep)
    ensures Split(Join(parts, [sep]), sep) == parts
  {
    if |parts| == 1 {
      SplitPrefix(parts[0], "", sep);
      assert parts[0] + "" == parts[0];
    } else {
      var tail := Join(parts[1..], [sep]);
      SplitJoin(parts[1..], sep);
      assert Join(parts, [sep]) == parts[0] + ([sep] + tail);
      SplitPrefix(parts[0], [sep] + tail, sep);
      assert ([sep] + tail)[1..] == tail;
      assert Split([sep] + tail, sep) == [""] + parts[1..];
      assert parts[0] + "" == parts[0];
      assert [parts[0]] + parts[1..] == parts;
    }
  }

  /** A separator-free suffix glues onto the last piece. */
  lemma {:induction false} SplitSuffix(x: string, q: string, sep: char)
    requires Lacks(q, sep)
    ensures var p, f := Split(x, sep), Split(x + q, sep);
      && |f| == |p|
      && f[|p| - 1] == p[|p| - 1] + q
      && forall i :: 0 <= i < |p| - 1 ==> f[i] == p[i]
  {
    if |x| == 0 {
      SplitPrefix(q, "", sep);
      assert x + q == q + "";
    } else {
      assert (x + q)[0] == x[0];
      assert (x + q)[1..] == x[1..] + q;
      SplitSuffix(x[1..], q, sep);
      var r, rq := Split(x[1..], sep), Split(x[1..] + q, sep);
      if x[0] != sep && |r| == 1 {
        assert [x[0]] + (r[0] + q) == ([x[0]] + r[0]) + q;
      }
    }
  }

  /** Padding a line with separator-free text on both ends only grows its
      first and last pieces. */
  lemma SplitsOfPadded(p: string, m: string, q: string, sep: char)
    requires Lacks(p, sep) && Lacks(q, sep)
    ensures |Split(p + m + q, sep)| == |Split(m, sep)|
    ensures forall i :: 0 <= i < |Split(m, sep)| ==>
      Split(p + m + q, sep)[i] == PadPiece(p, Split(m, sep), q, i)
  {
    var sp, sq, full := Split(m, sep), Split(m + q, sep), Split(p + m + q, sep);
    SplitSuffix(m, q, sep);
    SplitPrefixAt(p, m + q, sep);
    assert p + (m + q) == p + m + q;
    forall i | 0 <= i < |sp| ensures full[i] == PadPiece(p, sp, q, i) {
      if i == 0 && i == |sp| - 1 {
        assert p + (sp[0] + q) == p + sp[0] + q;
      } else if i == 0 {
        assert p + sp[0] == p + sp[0] + "";
      } else if i == |sp| - 1 {
        assert sp[i] + q == "" + sp[i] + q;
      } else {
        assert sp[i] == "" + sp[i] + "";
      }
    }
  }

  /** `SplitPrefix`, piece by piece. */
  lemma SplitPrefixAt(a: string, s: string, sep: char)
    requires Lacks(a, sep)
    ensures |Split(a + s, sep)| == |Split(s, sep)|
    ensures Split(a + s, sep)[0] == a + Split(s, sep)[0]
    ensures forall i :: 0 < i < |Split(s, sep)| ==> Split(a + s, sep)[i] == Split(s, sep)[i]
  {
    SplitPrefix(a, s, sep);
  }

  /** Piece `i` of `pieces` with `p` in front of the first piece and `q`
      after the last. */
  function PadPiece(p: string, pieces: seq<string>, q: string, i: nat): string
    requires i < |pieces|
  {
    (if i == 0 then p else "") + pieces[i] + (if i == |pieces| - 1 then q else "")
  }

  // ---------------------------------------------------------------------
  // Decimal digits
  // ---------------------------------------------------------------------

  /** A character the regular-expression class `\d` matches (ASCII only). */
  predicate IsDigit(c: char) {
    '0' <= c <= '9'
  }

  /** The regular expression `^\d+$`: one or more ASCII digits and nothing else. */
  predicate IsAllDigits(s: string) {
    |s| > 0 && forall i :: 0 <= i < |s| ==> IsDigit(s[i])
  }

  function DigitValue(c: char): nat
    requires IsDigit(c)
  {
    (c as int - '0' as int) as nat
  }

  function DigitChar(d: nat): (c: char)
    requires d < 10
    ensures IsDigit(c) && DigitValue(c) == d
  {
    ('0' as int + d) as char
  }

  /** The exact value of a decimal digit string (what `Number(s)` computes
      when no precision is lost). */
  function DigitsValue(s: string): nat
    requires forall i :: 0 <= i < |s| ==> IsDigit(s[i])
  {
    if |s| == 0 then 0
    else DigitsValue(s[..|s| - 1]) * 10 + DigitValue(s[|s| - 1])
  }

  /** Decimal rendering of a natural number, as `String(n)` or a template
      literal `${n}` writes it: digits only, no leading zero, and it reads
      back as `n`. */
  function NatToString(n: nat): (r: string)
    ensures IsAllDigits(r)
    ensures DigitsValue(r) == n
    ensures r[0] == '0' ==> r == "0"
  {
    if n < 10 then [DigitChar(n)]
    else
      var r := NatToString(n / 10) + [DigitChar(n % 10)];
      assert r[..|r| - 1] == NatToString(n / 10);
      r
  }

  /** Distinct numbers have distinct decimal renderings. */
  lemma NatToStringInjective(a: nat, b: nat)
    requires NatToString(a) == NatToString(b)
    ensures a == b
  {
    assert DigitsValue(NatToString(a)) == a;
  }

  /** The numbers from 100 to 999 are written with three digits. */
  lemma ThreeDigits(n: nat)
    requires 100 <= n < 1000
    ensures |NatToString(n)| == 3
  {
    assert |NatToString(n / 100)| == 1;
    assert |NatToString(n / 10)| == |NatToString(n / 10 / 10)| + 1;
    assert n / 10 / 10 == n / 100;
  }
}
