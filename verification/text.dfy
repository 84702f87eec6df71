/**
 * The string routines the exporter relies on: JavaScript's `parseInt`
 * (decimal only), `Number.prototype.toString` for naturals, and
 * `title.replace(/\s+/g, '_')` for export file names.
 */
module Text {
  import opened Wrappers

  /** The characters JavaScript counts as white space in `\s` and in `parseInt`. */
  predicate IsSpace(c: char) {
    c in {'\t', '\n', '\U{B}', '\U{C}', '\r', ' ', '\U{A0}', '\U{1680}', '\U{2028}',
          '\U{2029}', '\U{202F}', '\U{205F}', '\U{3000}', '\U{FEFF}'}
    || '\U{2000}' <= c <= '\U{200A}'
  }

  predicate NoSpaces(s: string) {
    forall i :: 0 <= i < |s| ==> !IsSpace(s[i])
  }

  predicate IsDigit(c: char) {
    '0' <= c <= '9'
  }

  function DigitValue(c: char): nat
    requires IsDigit(c)
  {
    c as nat - '0' as nat
  }

  function DigitChar(d: nat): (c: char)
    requires d < 10
    ensures IsDigit(c) && DigitValue(c) == d
  {
    ('0' as nat + d) as char
  }

  predicate AllDigits(s: string) {
    forall i :: 0 <= i < |s| ==> IsDigit(s[i])
  }

  /** The value of a string of decimal digits, most significant first. */
  function DigitsValue(s: string): nat
    requires AllDigits(s)
  {
    if s == [] then 0 else 10 * DigitsValue(s[..|s| - 1]) + DigitValue(s[|s| - 1])
  }

  /** Decimal rendering of a natural number, without leading zeros. */
  function Decimal(n: nat): (s: string)
    ensures |s| > 0 && AllDigits(s)
    ensures DigitsValue(s) == n
  {
    if n < 10 then [DigitChar(n)]
    else
      var s := Decimal(n / 10) + [DigitChar(n % 10)];
      assert s[..|s| - 1] == Decimal(n / 10);
      s
  }

  /** The input with its leading white space removed. */
  function TrimStart(s: string): (r: string)
    ensures |r| <= |s|
    ensures r == [] || !IsSpace(r[0])
  {
    if s != [] && IsSpace(s[0]) then TrimStart(s[1..]) else s
  }

  /** Trimming removes a prefix: what is left is a suffix of the input. */
  lemma {:induction false} TrimStartSuffix(s: string)
    ensures TrimStart(s) == s[|s| - |TrimStart(s)|..]
  {
    if s != [] && IsSpace(s[0]) {
      TrimStartSuffix(s[1..]);
    }
  }

  /** The length of the longest prefix made of decimal digits. */
  function DigitRun(s: string): (k: nat)
    ensures k <= |s| && AllDigits(s[..k])
    ensures k < |s| ==> !IsDigit(s[k])
  {
    if s != [] && IsDigit(s[0]) then
      var k := 1 + DigitRun(s[1..]);
      assert s[..k] == [s[0]] + s[1..][..k - 1];
      k
    else 0
  }

  /**
   * `parseInt(s)` in base 10: leading white space and one sign are skipped,
   * then the longest run of digits is read; with no digit the result is NaN,
   * here None.
   */
  function ParseInt(s: string): (r: Option<int>)
    ensures r.None? <==> DigitRun(UnsignedPart(s)) == 0
  {
    var body := UnsignedPart(s);
    var k := DigitRun(body);
    if k == 0 then None
    else Some(SignOf(s) * DigitsValue(body[..k]))
  }

  /** After leading white space, the text following an optional sign. */
  function UnsignedPart(s: string): string {
    var t := TrimStart(s);
    if t != [] && (t[0] == '-' || t[0] == '+') then t[1..] else t
  }

  function SignOf(s: string): int {
    var t := TrimStart(s);
    if t != [] && t[0] == '-' then -1 else 1
  }

  lemma DigitIsNotSpace(c: char)
    requires IsDigit(c)
    ensures !IsSpace(c) && c != '-' && c != '+'
  {
  }

  /** The rendering of a natural number parses back to that number. */
  lemma ParseDecimal(n: nat)
    ensures ParseInt(Decimal(n)) == Some(n)
  {
    var s := Decimal(n);
    DigitIsNotSpace(s[0]);
    assert TrimStart(s) == s;
    assert UnsignedPart(s) == s;
    assert SignOf(s) == 1;
    DigitRunOfDigits(s);
    assert s[..|s|] == s;
  }

  lemma {:induction false} DigitRunOfDigits(s: string)
    requires AllDigits(s)
    ensures DigitRun(s) == |s|
  {
    if s != [] {
      DigitRunOfDigits(s[1..]);
    }
  }

  /**
   * The value `parseInt` reads from any input of the shape it accepts: white
   * space, an optional sign, a non-empty run of digits (leading zeros
   * allowed), then anything that does not start with a digit.
   */
  lemma ParseIntValue(w: string, sign: string, d: string, rest: string)
    requires AllSpaces(w)
    requires sign == "" || sign == "+" || sign == "-"
    requires d != [] && AllDigits(d)
    requires rest == [] || !IsDigit(rest[0])
    ensures ParseInt(w + sign + d + rest) == Some((if sign == "-" then -1 else 1) * DigitsValue(d))
  {
    var s := w + sign + d + rest;
    var t := sign + d + rest;
    assert s == w + t;
    DigitIsNotSpace(d[0]);
    assert t != [] && !IsSpace(t[0]) by {
      if sign == "" { assert t[0] == d[0]; } else { assert t[0] == sign[0]; }
    }
    TrimStartSpaces(w, t);
    assert UnsignedPart(s) == d + rest by {
      if sign == "" {
        assert t == d + rest;
        assert t[0] != '-' && t[0] != '+' by { assert t[0] == d[0]; }
      } else {
        assert t[1..] == d + rest;
      }
    }
    assert SignOf(s) == if sign == "-" then -1 else 1 by {
      if sign == "" { assert t[0] == d[0]; }
    }
    DigitRunPrefix(d, rest);
    assert (d + rest)[..|d|] == d;
  }

  /** The digit run of a digit string followed by a non-digit is that whole digit string. */
  lemma {:induction false} DigitRunPrefix(d: string, rest: string)
    requires AllDigits(d)
    requires rest == [] || !IsDigit(rest[0])
    ensures DigitRun(d + rest) == |d|
  {
    if d == [] {
      assert d + rest == rest;
    } else {
      assert (d + rest)[1..] == d[1..] + rest;
      DigitRunPrefix(d[1..], rest);
    }
  }

  /** `s.replace(/\s+/g, '_')`: every maximal run of white space becomes one underscore. */
  function CollapseSpaces(s: string): (r: string)
    ensures |r| <= |s|
    decreases |s|
  {
    if s == [] then []
    else if IsSpace(s[0]) then "_" + CollapseSpaces(TrimStart(s))
    else [s[0]] + CollapseSpaces(s[1..])
  }

  /** The collapsed string holds no white space at all. */
  lemma {:induction false} CollapseHasNoSpaces(s: string)
    ensures NoSpaces(CollapseSpaces(s))
    decreases |s|
  {
    if s == [] {
    } else if IsSpace(s[0]) {
      CollapseHasNoSpaces(TrimStart(s));
    } else {
      CollapseHasNoSpaces(s[1..]);
    }
  }

  /** Collapsing leaves a string unchanged exactly when it holds no white space. */
  lemma {:induction false} CollapseFixedPoint(s: string)
    ensures CollapseSpaces(s) == s <==> NoSpaces(s)
  {
    CollapseHasNoSpaces(s);
    if NoSpaces(s) && s != [] {
      assert NoSpaces(s[1..]) by {
        forall i | 0 <= i < |s[1..]| ensures !IsSpace(s[1..][i]) {
          assert s[1..][i] == s[i + 1];
        }
      }
      CollapseFixedPoint(s[1..]);
    }
  }

  /** Replacing again changes nothing. */
  lemma CollapseIdempotent(s: string)
    ensures CollapseSpaces(CollapseSpaces(s)) == CollapseSpaces(s)
  {
    CollapseHasNoSpaces(s);
    CollapseFixedPoint(CollapseSpaces(s));
  }

  predicate AllSpaces(s: string) {
    forall i :: 0 <= i < |s| ==> IsSpace(s[i])
  }

  lemma {:induction false} TrimStartAppend(a: string, b: string)
    requires !AllSpaces(a)
    ensures TrimStart(a + b) == TrimStart(a) + b
  {
    assert a != [];
    if IsSpace(a[0]) {
      assert (a + b)[1..] == a[1..] + b;
      assert !AllSpaces(a[1..]) by {
        var i :| 0 <= i < |a| && !IsSpace(a[i]);
        assert i > 0 && a[1..][i - 1] == a[i];
      }
      TrimStartAppend(a[1..], b);
    }
  }

  lemma {:induction false} TrimStartSpaces(w: string, b: string)
    requires AllSpaces(w)
    requires b == [] || !IsSpace(b[0])
    ensures TrimStart(w + b) == b
  {
    if w != [] {
      assert (w + b)[1..] == w[1..] + b;
      TrimStartSpaces(w[1..], b);
    } else {
      assert w + b == b;
    }
  }

  lemma CollapseHeadSpace(a: string, b: string)
    requires a != [] && IsSpace(a[0]) && !AllSpaces(a)
    ensures CollapseSpaces(a + b) == "_" + CollapseSpaces(TrimStart(a) + b)
  {
    assert (a + b)[0] == a[0];
    TrimStartAppend(a, b);
  }

  lemma CollapseHeadOther(a: string, b: string)
    requires a != [] && !IsSpace(a[0])
    ensures CollapseSpaces(a + b) == [a[0]] + CollapseSpaces(a[1..] + b)
  {
    assert (a + b)[0] == a[0];
    assert (a + b)[1..] == a[1..] + b;
  }

  /**
   * Collapsing distributes over a split that does not cut a white-space run:
   * the left part ends with a non-space character.
   */
  lemma {:induction false} CollapseAppend(a: string, b: string)
    requires a == [] || !IsSpace(a[|a| - 1])
    ensures CollapseSpaces(a + b) == CollapseSpaces(a) + CollapseSpaces(b)
    decreases |a|
  {
    if a == [] {
      assert a + b == b;
    } else if IsSpace(a[0]) {
      RunBeforeNonSpace(a);
      CollapseHeadSpace(a, b);
      CollapseAppend(TrimStart(a), b);
    } else {
      CollapseHeadOther(a, b);
      CollapseAppend(a[1..], b);
    }
  }

  /** Dropping the leading run of a string that ends in a non-space keeps that last character. */
  lemma RunBeforeNonSpace(a: string)
    requires a != [] && !IsSpace(a[|a| - 1])
    ensures !AllSpaces(a)
    ensures var rest := TrimStart(a); rest != [] && rest[|rest| - 1] == a[|a| - 1]
  {
    TrimStartOfNonSpace(a);
    TrimStartSuffix(a);
    var rest := TrimStart(a);
    assert rest == a[|a| - |rest|..];
  }

  /** Trimming stops at the first non-space character, so only an all-space string trims to nothing. */
  lemma {:induction false} TrimStartOfNonSpace(a: string)
    requires a != [] && !IsSpace(a[|a| - 1])
    ensures TrimStart(a) != []
  {
    if IsSpace(a[0]) {
      TrimStartOfNonSpace(a[1..]);
    }
  }

  /**
   * A maximal white-space run between two non-space neighbours turns into
   * exactly one underscore.
   */
  lemma RunBecomesUnderscore(a: string, w: string, b: string)
    requires a == [] || !IsSpace(a[|a| - 1])
    requires w != [] && AllSpaces(w)
    requires b == [] || !IsSpace(b[0])
    ensures CollapseSpaces(a + w + b) == CollapseSpaces(a) + "_" + CollapseSpaces(b)
  {
    assert a + w + b == a + (w + b);
    CollapseAppend(a, w + b);
    CollapseLeadingRun(w, b);
  }

  lemma CollapseLeadingRun(w: string, b: string)
    requires w != [] && AllSpaces(w)
    requires b == [] || !IsSpace(b[0])
    ensures CollapseSpaces(w + b) == "_" + CollapseSpaces(b)
  {
    assert IsSpace((w + b)[0]) by { assert (w + b)[0] == w[0]; }
    TrimStartSpaces(w, b);
  }
}
