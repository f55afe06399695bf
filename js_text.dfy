/**
  The host text operations the handler depends on, as ECMAScript defines
  them: `parseInt(s, 10)`, the decimal text of an integer (`String(n)`, used
  by `Array.prototype.join` and by the default comparator of
  `Array.prototype.sort`), and the code-unit order of strings behind `<`.
 */
module JsText {
  import opened Wrappers

  predicate IsDigit(c: char) {
    '0' <= c <= '9'
  }

  function DigitValue(c: char): (d: nat)
    requires IsDigit(c)
    ensures d < 10
  {
    (c as int) - ('0' as int)
  }

  function DigitChar(d: nat): (c: char)
    requires d < 10
    ensures IsDigit(c) && DigitValue(c) == d
  {
    ('0' as int + d) as char
  }

  predicate AllDigits(s: string) {
    forall i :: 0 <= i < |s| ==> IsDigit(s[i])
  }

  /**
    StrWhiteSpaceChar of ECMAScript: TAB, VT, FF, ZWNBSP, the space
    separators (category Zs) and the line terminators LF, CR, LS and PS.
   */
  predicate IsWhiteSpace(c: char) {
    || c == '\t' || c == '\U{000B}' || c == '\U{000C}' || c == '\U{FEFF}'
    || c == ' ' || c == '\U{00A0}' || c == '\U{1680}'
    || ('\U{2000}' <= c <= '\U{200A}')
    || c == '\U{202F}' || c == '\U{205F}' || c == '\U{3000}'
    || c == '\n' || c == '\r' || c == '\U{2028}' || c == '\U{2029}'
  }

  predicate AllWhiteSpace(s: string) {
    forall i :: 0 <= i < |s| ==> IsWhiteSpace(s[i])
  }

  /** Length of the leading run of white space. */
  function LeadingWhiteSpace(s: string): (n: nat)
    ensures n <= |s| && AllWhiteSpace(s[..n])
    ensures n == |s| || !IsWhiteSpace(s[n])
  {
    if |s| > 0 && IsWhiteSpace(s[0]) then
      var m := LeadingWhiteSpace(s[1..]);
      assert s[..m + 1] == [s[0]] + s[1..][..m];
      m + 1
    else 0
  }

  /** Length of the leading run of decimal digits. */
  function LeadingDigits(s: string): (n: nat)
    ensures n <= |s| && AllDigits(s[..n])
    ensures n == |s| || !IsDigit(s[n])
  {
    if |s| > 0 && IsDigit(s[0]) then
      var m := LeadingDigits(s[1..]);
      assert s[..m + 1] == [s[0]] + s[1..][..m];
      m + 1
    else 0
  }

  /** The number a string of decimal digits denotes, most significant first. */
  function DigitsValue(ds: string): nat
    requires AllDigits(ds)
  {
    if |ds| == 0 then 0
    else DigitsValue(ds[..|ds| - 1]) * 10 + DigitValue(ds[|ds| - 1])
  }

  /**
    `parseInt(s, 10)`: skip leading white space, read an optional sign, then
    the longest run of decimal digits; everything after that run is ignored.
    `None` stands for NaN, the result when the run is empty.
   */
  function ParseInt(s: string): Option<int> {
    var t := s[LeadingWhiteSpace(s)..];
    var negative := |t| > 0 && t[0] == '-';
    var u := if |t| > 0 && (t[0] == '+' || t[0] == '-') then t[1..] else t;
    var n := LeadingDigits(u);
    if n == 0 then None
    else
      var v: int := DigitsValue(u[..n]);
      if negative then Some(-v) else Some(v)
  }

  /**
    A recogniser, written independently of `ParseInt`, for the strings that
    begin (after white space and an optional sign) with a decimal digit.
   */
  predicate HasLeadingInteger(s: string) {
    if |s| == 0 then false
    else if IsWhiteSpace(s[0]) then HasLeadingInteger(s[1..])
    else if s[0] == '+' || s[0] == '-' then |s| > 1 && IsDigit(s[1])
    else IsDigit(s[0])
  }

  lemma {:induction false} SkipWhiteSpace(s: string)
    requires |s| > 0 && IsWhiteSpace(s[0])
    ensures ParseInt(s) == ParseInt(s[1..])
  {
    assert s[LeadingWhiteSpace(s)..] == s[1..][LeadingWhiteSpace(s[1..])..];
  }

  /** `Number.isInteger(parseInt(s, 10))` holds exactly for those strings. */
  lemma {:induction false} ParseIntDefinedIff(s: string)
    ensures ParseInt(s).Some? <==> HasLeadingInteger(s)
  {
    if |s| > 0 && IsWhiteSpace(s[0]) {
      ParseIntDefinedIff(s[1..]);
      SkipWhiteSpace(s);
    }
  }

  lemma {:induction false} ParseIntUnspaced(sign: string, ds: string, rest: string)
    requires sign == "" || sign == "+" || sign == "-"
    requires |ds| > 0 && AllDigits(ds)
    requires |rest| == 0 || !IsDigit(rest[0])
    ensures var v: int := DigitsValue(ds);
      ParseInt(sign + ds + rest) == Some(if sign == "-" then -v else v)
  {
    var u := ds + rest;
    LeadingDigitsOf(ds, rest);
    assert u[..|ds|] == ds;
    if sign == "" {
      assert sign + ds + rest == u;
      ParseIntDigitsFirst(u);
    } else {
      assert sign + ds + rest == [sign[0]] + u;
      ParseIntSignFirst(sign[0], u);
    }
  }

  lemma {:induction false} ParseIntDigitsFirst(u: string)
    requires |u| > 0 && IsDigit(u[0])
    ensures var v: int := DigitsValue(u[..LeadingDigits(u)]); ParseInt(u) == Some(v)
  {
    assert !IsWhiteSpace(u[0]);
    assert LeadingWhiteSpace(u) == 0;
    assert u[0..] == u;
  }

  lemma {:induction false} ParseIntSignFirst(c: char, u: string)
    requires c == '+' || c == '-'
    requires |u| > 0 && IsDigit(u[0])
    ensures var v: int := DigitsValue(u[..LeadingDigits(u)]);
      ParseInt([c] + u) == Some(if c == '-' then -v else v)
  {
    var s := [c] + u;
    assert !IsWhiteSpace(s[0]);
    assert LeadingWhiteSpace(s) == 0;
    assert s[0..] == s;
    assert s[1..] == u;
  }

  /**
    What `parseInt` returns: for white space `w`, a sign, a non-empty digit
    run `ds` and a tail `rest` that does not continue the run, the value of
    `ds` with the sign applied; `rest` is ignored, leading zeros are allowed.
   */
  lemma {:induction false} ParseIntValue(w: string, sign: string, ds: string, rest: string)
    requires AllWhiteSpace(w)
    requires sign == "" || sign == "+" || sign == "-"
    requires |ds| > 0 && AllDigits(ds)
    requires |rest| == 0 || !IsDigit(rest[0])
    ensures var v: int := DigitsValue(ds);
      ParseInt(w + sign + ds + rest) == Some(if sign == "-" then -v else v)
  {
    if |w| == 0 {
      assert w + sign + ds + rest == sign + ds + rest;
      ParseIntUnspaced(sign, ds, rest);
    } else {
      var s := w + sign + ds + rest;
      assert s[1..] == w[1..] + sign + ds + rest;
      assert AllWhiteSpace(w[1..]) by {
        forall i | 0 <= i < |w[1..]| ensures IsWhiteSpace(w[1..][i]) {
          assert w[1..][i] == w[i + 1];
        }
      }
      ParseIntValue(w[1..], sign, ds, rest);
      SkipWhiteSpace(s);
    }
  }

  lemma {:induction false} LeadingDigitsOf(ds: string, rest: string)
    requires AllDigits(ds)
    requires |rest| == 0 || !IsDigit(rest[0])
    ensures LeadingDigits(ds + rest) == |ds|
  {
    if |ds| > 0 {
      assert (ds + rest)[1..] == ds[1..] + rest;
      LeadingDigitsOf(ds[1..], rest);
    } else {
      assert ds + rest == rest;
    }
  }

  /** Decimal text of a natural number, without leading zeros. */
  function NatText(n: nat): (s: string)
    ensures |s| > 0 && AllDigits(s)
    ensures DigitsValue(s) == n
    ensures ',' !in s && '-' !in s
    ensures n > 0 ==> s[0] != '0'
  {
    if n < 10 then [DigitChar(n)]
    else
      var s := NatText(n / 10) + [DigitChar(n % 10)];
      assert s[..|s| - 1] == NatText(n / 10);
      s
  }

  /** `String(n)` for an integer `n`: its decimal text, `-` first when negative. */
  function Decimal(n: int): (s: string)
    ensures ',' !in s && |s| > 0
  {
    if n < 0 then "-" + NatText(-n) else NatText(n)
  }

  /** `parseInt` inverts `String` on integers; so `Decimal` is injective. */
  lemma {:induction false} ParseIntDecimal(n: int)
    ensures ParseInt(Decimal(n)) == Some(n)
  {
    var ds := NatText(if n < 0 then -n else n);
    if n < 0 {
      ParseIntValue("", "-", ds, "");
      assert "" + "-" + ds + "" == Decimal(n);
    } else {
      ParseIntValue("", "", ds, "");
      assert "" + "" + ds + "" == Decimal(n);
    }
  }

  lemma {:induction false} DecimalInjective(a: int, b: int)
    requires Decimal(a) == Decimal(b)
    ensures a == b
  {
    ParseIntDecimal(a);
    ParseIntDecimal(b);
  }

  /**
    `!(b < a)` on strings: compare code unit by code unit; a proper prefix
    comes first. This is the relation the default `.sort()` orders by.
   */
  predicate TextLe(a: string, b: string)
    decreases |a|
  {
    |a| == 0 || (|b| > 0 && (a[0] < b[0] || (a[0] == b[0] && TextLe(a[1..], b[1..]))))
  }

  lemma {:induction false} TextLeTotal(a: string, b: string)
    ensures TextLe(a, b) || TextLe(b, a)
    decreases |a|
  {
    if |a| > 0 && |b| > 0 && a[0] == b[0] {
      TextLeTotal(a[1..], b[1..]);
    }
  }

  lemma {:induction false} TextLeTransitive(a: string, b: string, c: string)
    requires TextLe(a, b) && TextLe(b, c)
    ensures TextLe(a, c)
    decreases |a|
  {
    if |a| > 0 && a[0] == b[0] && b[0] == c[0] {
      TextLeTransitive(a[1..], b[1..], c[1..]);
    }
  }

  lemma {:induction false} TextLeAntisymmetric(a: string, b: string)
    requires TextLe(a, b) && TextLe(b, a)
    ensures a == b
    decreases |a|
  {
    if |a| > 0 {
      TextLeAntisymmetric(a[1..], b[1..]);
      assert a == [a[0]] + a[1..] && b == [b[0]] + b[1..];
    }
  }

  /**
    `ids.join(',')` with each id written by `String`: the `films` query
    parameter of the outbound review request.
   */
  function JoinIds(ids: seq<int>): string {
    if |ids| == 0 then ""
    else if |ids| == 1 then Decimal(ids[0])
    else Decimal(ids[0]) + "," + JoinIds(ids[1..])
  }

  /** Splits a string at every comma, as `s.split(',')` does. */
  function SplitCommas(s: string): (parts: seq<string>)
    ensures |parts| > 0
  {
    if |s| == 0 then [""]
    else
      var rest := SplitCommas(s[1..]);
      if s[0] == ',' then [""] + rest
      else [[s[0]] + rest[0]] + rest[1..]
  }

  lemma {:induction false} SplitWithoutComma(a: string)
    requires ',' !in a
    ensures SplitCommas(a) == [a]
  {
    if |a| > 0 {
      assert ',' !in a[1..] by {
        forall i | 0 <= i < |a[1..]| ensures a[1..][i] != ',' {
          assert a[1..][i] == a[i + 1];
        }
      }
      SplitWithoutComma(a[1..]);
      assert [a[0]] + a[1..] == a;
    }
  }

  lemma {:induction false} SplitAfterField(a: string, b: string)
    requires ',' !in a
    ensures SplitCommas(a + "," + b) == [a] + SplitCommas(b)
  {
    if |a| == 0 {
      assert a + "," + b == [','] + b;
      assert ([','] + b)[1..] == b;
    } else {
      assert ',' !in a[1..] by {
        forall i | 0 <= i < |a[1..]| ensures a[1..][i] != ',' {
          assert a[1..][i] == a[i + 1];
        }
      }
      assert (a + "," + b)[1..] == a[1..] + "," + b;
      SplitAfterField(a[1..], b);
      assert [a[0]] + a[1..] == a;
    }
  }

  /** Each of `parts` is read back by `parseInt` as the id at its position. */
  predicate ParsesTo(parts: seq<string>, ids: seq<int>) {
    |parts| == |ids| && forall i :: 0 <= i < |ids| ==> ParseInt(parts[i]) == Some(ids[i])
  }

  lemma {:induction false} ParsesToCons(p: string, ps: seq<string>, x: int, xs: seq<int>)
    requires ParseInt(p) == Some(x) && ParsesTo(ps, xs)
    ensures ParsesTo([p] + ps, [x] + xs)
  {
    var all, vals := [p] + ps, [x] + xs;
    forall i | 0 < i < |vals| ensures ParseInt(all[i]) == Some(vals[i]) {
      assert all[i] == ps[i - 1] && vals[i] == xs[i - 1];
    }
  }

  /**
    The review service can recover the candidate ids from the query:
    splitting at the commas gives one field per id, and `parseInt` of each
    field gives back that id.
   */
  lemma {:induction false} JoinIdsRoundTrip(ids: seq<int>)
    requires |ids| > 0
    ensures ParsesTo(SplitCommas(JoinIds(ids)), ids)
  {
    ParseIntDecimal(ids[0]);
    if |ids| == 1 {
      SplitWithoutComma(Decimal(ids[0]));
    } else {
      JoinIdsRoundTrip(ids[1..]);
      SplitJoinStep(ids);
      ParsesToCons(Decimal(ids[0]), SplitCommas(JoinIds(ids[1..])), ids[0], ids[1..]);
      assert [ids[0]] + ids[1..] == ids;
    }
  }

  /** Splitting a join of two or more ids peels off the first id's text. */
  lemma {:induction false} SplitJoinStep(ids: seq<int>)
    requires |ids| > 1
    ensures SplitCommas(JoinIds(ids)) == [Decimal(ids[0])] + SplitCommas(JoinIds(ids[1..]))
  {
    SplitAfterField(Decimal(ids[0]), JoinIds(ids[1..]));
  }

  /** The decimal text of a few small numbers, evaluated. */
  lemma {:induction false} DecimalOfSmall()
    ensures Decimal(1) == "1" && Decimal(2) == "2" && Decimal(3) == "3"
    ensures Decimal(4) == "4" && Decimal(5) == "5" && Decimal(6) == "6"
    ensures Decimal(7) == "7" && Decimal(8) == "8" && Decimal(9) == "9"
    ensures Decimal(10) == "10" && Decimal(100) == "100"
  {
    assert DigitChar(0) == '0' && DigitChar(1) == '1' && DigitChar(2) == '2';
    assert DigitChar(3) == '3' && DigitChar(4) == '4' && DigitChar(5) == '5';
    assert DigitChar(6) == '6' && DigitChar(7) == '7' && DigitChar(8) == '8';
    assert DigitChar(9) == '9';
    assert NatText(1) == "1";
    assert NatText(10) == NatText(1) + "0";
    assert NatText(100) == NatText(10) + "0";
  }
}
