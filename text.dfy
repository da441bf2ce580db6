/**
 * The string primitives the catalog code leans on, after their ECMAScript
 * definitions but on strings of characters (not UTF-16 code units):
 * `toLowerCase` (restricted to ASCII), `trim`, `split` with a one-character
 * separator, `includes`, `replace(/,/g, '')`, `parseInt`, and the code-unit
 * order that `Array.prototype.sort` uses when no comparator is given.
 */
module Text {
  import opened Wrappers
  import Seqs

  // ---------------------------------------------------------------- case

  predicate IsAsciiUpper(c: char) { 'A' <= c <= 'Z' }

  function LowerChar(c: char): (r: char)
    ensures IsAsciiUpper(c) ==> r as int == c as int + 32
    ensures !IsAsciiUpper(c) ==> r == c
  {
    if IsAsciiUpper(c) then (c as int + 32) as char else c
  }

  /** `s.toLowerCase()` on the ASCII letters; every other character is kept. */
  function Lower(s: string): (r: string)
    ensures |r| == |s|
    ensures forall i :: 0 <= i < |s| ==> r[i] == LowerChar(s[i])
  {
    if s == [] then [] else [LowerChar(s[0])] + Lower(s[1..])
  }

  lemma {:induction false} LowerIsIdempotent(s: string)
    ensures Lower(Lower(s)) == Lower(s)
  {
    var l := Lower(s);
    assert forall i :: 0 <= i < |s| ==> LowerChar(l[i]) == l[i];
  }

  // ---------------------------------------------------------- whitespace

  /** ECMAScript WhiteSpace and LineTerminator code points: what `trim` strips. */
  predicate IsWhitespace(c: char) {
    c == ' ' || c == '\t' || c == '\n' || c == '\r' || c == '\U{000B}' || c == '\U{000C}'
    || c == '\U{00A0}' || c == '\U{FEFF}' || c == '\U{1680}'
    || ('\U{2000}' <= c <= '\U{200A}')
    || c == '\U{2028}' || c == '\U{2029}' || c == '\U{202F}' || c == '\U{205F}' || c == '\U{3000}'
  }

  predicate AllWhitespace(s: string) {
    forall i :: 0 <= i < |s| ==> IsWhitespace(s[i])
  }

  /** The number of whitespace characters `s` starts with. */
  function LeadingSpace(s: string): (n: nat)
    ensures n <= |s|
    ensures forall k :: 0 <= k < n ==> IsWhitespace(s[k])
    ensures n == |s| || !IsWhitespace(s[n])
  {
    if s != [] && IsWhitespace(s[0]) then 1 + LeadingSpace(s[1..]) else 0
  }

  /** The number of whitespace characters `s` ends with. */
  function TrailingSpace(s: string): (n: nat)
    ensures n <= |s|
    ensures forall k :: |s| - n <= k < |s| ==> IsWhitespace(s[k])
    ensures n == |s| || !IsWhitespace(s[|s| - n - 1])
  {
    if s != [] && IsWhitespace(s[|s| - 1]) then 1 + TrailingSpace(s[..|s| - 1]) else 0
  }

  /** Drops leading whitespace. */
  function TrimStart(s: string): (r: string)
    ensures |r| <= |s| && r == s[|s| - |r|..]
    ensures forall k :: 0 <= k < |s| - |r| ==> IsWhitespace(s[k])
    ensures r == [] || !IsWhitespace(r[0])
  {
    s[LeadingSpace(s)..]
  }

  /** Drops trailing whitespace. */
  function TrimEnd(s: string): (r: string)
    ensures |r| <= |s| && r == s[..|r|]
    ensures forall k :: |r| <= k < |s| ==> IsWhitespace(s[k])
    ensures r == [] || !IsWhitespace(r[|r| - 1])
  {
    s[..|s| - TrailingSpace(s)]
  }

  /** `s.trim()`: the slice of `s` left after stripping whitespace at both ends. */
  function Trim(s: string): (r: string)
    ensures |r| <= |s|
    ensures r == [] || (!IsWhitespace(r[0]) && !IsWhitespace(r[|r| - 1]))
    ensures LeadingSpace(s) + |r| <= |s| && r == s[LeadingSpace(s)..LeadingSpace(s) + |r|]
    ensures forall k :: LeadingSpace(s) + |r| <= k < |s| ==> IsWhitespace(s[k])
  {
    var i := LeadingSpace(s);
    var t := s[i..];
    var r := TrimEnd(t);
    assert r == s[i..i + |r|];
    forall k | i + |r| <= k < |s| ensures IsWhitespace(s[k]) {
      assert s[k] == t[k - i];
    }
    r
  }

  /** `s.trim() === ''` exactly when `s` is all whitespace. */
  lemma TrimEmptyIff(s: string)
    ensures Trim(s) == [] <==> AllWhitespace(s)
  {
  }

  // --------------------------------------------------------------- split

  /** Joins pieces with `sep` between them: the inverse of `Split`. */
  function Join(pieces: seq<string>, sep: char): string
    requires |pieces| >= 1
  {
    if |pieces| == 1 then pieces[0] else pieces[0] + [sep] + Join(pieces[1..], sep)
  }

  /**
   * `s.split(sep)` for a one-character separator: the maximal pieces between
   * separators; an empty string gives one empty piece.
   */
  function Split(s: string, sep: char): (r: seq<string>)
    ensures |r| >= 1
    ensures forall k :: 0 <= k < |r| ==> sep !in r[k]
    ensures Join(r, sep) == s
  {
    if s == [] then [[]]
    else if s[0] == sep then [[]] + Split(s[1..], sep)
    else
      var rest := Split(s[1..], sep);
      [[s[0]] + rest[0]] + rest[1..]
  }

  /** Splitting what `Join` produced gives the pieces back. */
  lemma {:induction false} SplitJoin(pieces: seq<string>, sep: char)
    requires |pieces| >= 1
    requires forall k :: 0 <= k < |pieces| ==> sep !in pieces[k]
    ensures Split(Join(pieces, sep), sep) == pieces
  {
    if |pieces| == 1 {
      SplitOfSeparatorFree(pieces[0], sep);
    } else {
      SplitJoin(pieces[1..], sep);
      SplitPrefix(pieces[0], Join(pieces[1..], sep), sep);
      assert [pieces[0]] + pieces[1..] == pieces;
    }
  }

  lemma {:induction false} SplitOfSeparatorFree(p: string, sep: char)
    requires sep !in p
    ensures Split(p, sep) == [p]
  {
    if p != [] {
      SplitOfSeparatorFree(p[1..], sep);
      assert [p[0]] + p[1..] == p;
    }
  }

  /** Splitting `p + [sep] + t` with a separator-free `p` yields `p` then the pieces of `t`. */
  lemma {:induction false} SplitPrefix(p: string, t: string, sep: char)
    requires sep !in p
    ensures Split(p + [sep] + t, sep) == [p] + Split(t, sep)
  {
    var s := p + [sep] + t;
    if p == [] {
      assert s[1..] == t;
    } else {
      assert s[1..] == p[1..] + [sep] + t;
      SplitPrefix(p[1..], t, sep);
      assert [p[0]] + p[1..] == p;
    }
  }

  /** `s.split(sep)[0]`: the text before the first `sep`, or all of `s`. */
  lemma {:induction false} FirstPieceIsPrefix(s: string, sep: char)
    ensures Split(s, sep)[0] == s[..|Split(s, sep)[0]|]
    ensures sep !in Split(s, sep)[0]
    ensures |Split(s, sep)[0]| == |s| || s[|Split(s, sep)[0]|] == sep
  {
    if s != [] && s[0] != sep {
      FirstPieceIsPrefix(s[1..], sep);
    }
  }

  // -------------------------------------------------- substring and removal

  predicate StartsWith(s: string, prefix: string) {
    |prefix| <= |s| && s[..|prefix|] == prefix
  }

  /** `sub` occurs in `s` starting at index `i`. */
  predicate OccursAt(s: string, sub: string, i: int) {
    0 <= i <= |s| - |sub| && s[i..i + |sub|] == sub
  }

  /** `s.includes(sub)`: `sub` occurs somewhere in `s`. */
  function Contains(s: string, sub: string): (r: bool)
    ensures r <==> exists i :: OccursAt(s, sub, i)
  {
    if StartsWith(s, sub) then
      assert OccursAt(s, sub, 0);
      true
    else if |s| == 0 then
      false
    else
      var r := Contains(s[1..], sub);
      assert forall i :: OccursAt(s[1..], sub, i) ==> OccursAt(s, sub, i + 1);
      assert forall i :: OccursAt(s, sub, i) ==> i >= 1 && OccursAt(s[1..], sub, i - 1);
      r
  }

  /** `s.replace(/c/g, '')`: every occurrence of `c` deleted, the rest kept in order. */
  function RemoveAll(s: string, c: char): (r: string)
    ensures c !in r
    ensures |r| <= |s|
    ensures multiset(r) == multiset(s)[c := 0]
    ensures Seqs.IsSubsequence(r, s)
  {
    if s == [] then []
    else
      var rest := RemoveAll(s[1..], c);
      assert s == [s[0]] + s[1..];
      if s[0] == c then rest
      else
        assert ([s[0]] + rest)[1..] == rest;
        [s[0]] + rest
  }

  // ------------------------------------------------------------ numbers

  predicate IsDigit(c: char) { '0' <= c <= '9' }

  /** The base `parseInt` reads in: 16 after a `0x` prefix, otherwise 10. */
  function Base(hex: bool): nat { if hex then 16 else 10 }

  /** A digit of base 16 (when `hex`) or of base 10; hex letters in either case. */
  predicate IsDigitIn(c: char, hex: bool) {
    IsDigit(c) || (hex && ('a' <= c <= 'f' || 'A' <= c <= 'F'))
  }

  function DigitValue(c: char, hex: bool): (v: nat)
    requires IsDigitIn(c, hex)
    ensures v < Base(hex)
    ensures IsDigit(c) ==> v == c as int - '0' as int
  {
    if IsDigit(c) then c as int - '0' as int
    else if 'a' <= c <= 'f' then c as int - 'a' as int + 10
    else c as int - 'A' as int + 10
  }

  /** The longest prefix of `s` made of digits of the base. */
  function LeadingDigits(s: string, hex: bool): (r: string)
    ensures |r| <= |s| && r == s[..|r|]
    ensures forall i :: 0 <= i < |r| ==> IsDigitIn(r[i], hex)
    ensures |r| == |s| || !IsDigitIn(s[|r|], hex)
  {
    if s != [] && IsDigitIn(s[0], hex) then [s[0]] + LeadingDigits(s[1..], hex) else []
  }

  /** The number a run of digits denotes, most significant first. */
  function DigitsValue(ds: string, hex: bool): nat
    requires forall i :: 0 <= i < |ds| ==> IsDigitIn(ds[i], hex)
  {
    if ds == [] then 0 else DigitsValue(ds[..|ds| - 1], hex) * Base(hex) + DigitValue(ds[|ds| - 1], hex)
  }

  /** The shortest decimal numeral of `n`. */
  function Decimal(n: nat): (r: string)
    ensures |r| >= 1
    ensures forall i :: 0 <= i < |r| ==> IsDigit(r[i])
  {
    if n < 10 then [('0' as int + n) as char] else Decimal(n / 10) + [('0' as int + n % 10) as char]
  }

  lemma {:induction false} DecimalValueOfDecimal(n: nat)
    ensures DigitsValue(Decimal(n), false) == n
  {
    if n >= 10 {
      var d := Decimal(n);
      assert d[..|d| - 1] == Decimal(n / 10);
      DecimalValueOfDecimal(n / 10);
    }
  }

  /** What `parseInt` looks at after skipping leading whitespace and one sign. */
  function Unsigned(s: string): (u: string)
    ensures |u| <= |s|
  {
    var t := TrimStart(s);
    if t != [] && (t[0] == '+' || t[0] == '-') then t[1..] else t
  }

  /** `0x` or `0X`: with no radix given, `parseInt` then reads the rest in base 16. */
  predicate HasHexPrefix(u: string) {
    |u| >= 2 && u[0] == '0' && (u[1] == 'x' || u[1] == 'X')
  }

  /**
   * `parseInt(s)` with no radix: leading whitespace is skipped, one sign is
   * accepted, a `0x`/`0X` prefix switches to base 16, then the longest run of
   * digits of the base is read; `None` stands for NaN (no digit where one is
   * needed, as in `parseInt("0x")`).
   */
  function ParseInt(s: string): (r: Option<int>)
    ensures r.None? <==> var u := Unsigned(s);
      var w := if HasHexPrefix(u) then u[2..] else u;
      w == [] || !IsDigitIn(w[0], HasHexPrefix(u))
  {
    var t := TrimStart(s);
    var negative := t != [] && t[0] == '-';
    var u := Unsigned(s);
    var hex := HasHexPrefix(u);
    var w := if hex then u[2..] else u;
    var ds := LeadingDigits(w, hex);
    var v: int := if ds == [] then 0 else DigitsValue(ds, hex);
    if ds == [] then None else Some(if negative then -v else v)
  }

  /**
   * Reading back a numeral, whatever text follows that does not extend it,
   * gives the number; after `"0"` an `x` would start a hex prefix instead.
   */
  lemma ParseIntOfDecimal(n: nat, rest: string)
    requires rest == [] || !IsDigit(rest[0])
    requires n == 0 ==> rest == [] || (rest[0] != 'x' && rest[0] != 'X')
    ensures ParseInt(Decimal(n) + rest) == Some(n)
  {
    var s := Decimal(n) + rest;
    assert s[0] == Decimal(n)[0] && IsDigit(s[0]);
    assert LeadingSpace(s) == 0;
    assert TrimStart(s) == s;
    assert Unsigned(s) == s;
    if |Decimal(n)| >= 2 {
      assert s[1] == Decimal(n)[1] && IsDigit(s[1]);
    } else if n > 0 {
      assert s[0] != '0';
    }
    assert !HasHexPrefix(s);
    LeadingDigitsOfDigitsThen(Decimal(n), rest);
    DecimalValueOfDecimal(n);
  }

  /** The hex prefix in action: `parseInt("0x1A")` is 26 and `parseInt("0x")` is NaN. */
  lemma ParseIntReadsHexPrefix()
    ensures ParseInt("0x1A") == Some(26)
    ensures ParseInt("0x") == None
    ensures ParseInt("-0Xff") == Some(-255)
  {
    assert LeadingSpace("0x1A") == 0 && LeadingSpace("0x") == 0 && LeadingSpace("-0Xff") == 0;
    assert Unsigned("0x1A") == "0x1A" && "0x1A"[2..] == "1A";
    assert LeadingDigits("1A", true) == "1A";
    assert "1A"[..1] == "1" && "1"[..0] == "";
    assert DigitsValue("1", true) == 1;
    assert LeadingDigits("ff", true) == "ff";
    assert "ff"[..1] == "f";
  }

  lemma {:induction false} LeadingDigitsOfDigitsThen(ds: string, rest: string)
    requires forall i :: 0 <= i < |ds| ==> IsDigit(ds[i])
    requires rest == [] || !IsDigit(rest[0])
    ensures LeadingDigits(ds + rest, false) == ds
  {
    if ds != [] {
      assert (ds + rest)[1..] == ds[1..] + rest;
      LeadingDigitsOfDigitsThen(ds[1..], rest);
      assert [ds[0]] + ds[1..] == ds;
    }
  }

  // ------------------------------------------------------------ ordering

  /**
   * The order `Array.prototype.sort()` uses without a comparator (and the
   * model's stand-in for `localeCompare`): character by character, a proper
   * prefix first.
   */
  predicate LexLeq(a: string, b: string) {
    a == [] || (b != [] && (a[0] < b[0] || (a[0] == b[0] && LexLeq(a[1..], b[1..]))))
  }

  lemma {:induction false} LexLeqTotal(a: string, b: string)
    ensures LexLeq(a, b) || LexLeq(b, a)
  {
    if a != [] && b != [] && a[0] == b[0] {
      LexLeqTotal(a[1..], b[1..]);
    }
  }

  lemma {:induction false} LexLeqTransitive(a: string, b: string, c: string)
    requires LexLeq(a, b) && LexLeq(b, c)
    ensures LexLeq(a, c)
  {
    if a != [] && a[0] == b[0] && b[0] == c[0] {
      LexLeqTransitive(a[1..], b[1..], c[1..]);
    }
  }

  lemma {:induction false} LexLeqAntisymmetric(a: string, b: string)
    requires LexLeq(a, b) && LexLeq(b, a)
    ensures a == b
  {
    if a != [] {
      LexLeqAntisymmetric(a[1..], b[1..]);
      assert a == [a[0]] + a[1..] && b == [b[0]] + b[1..];
    }
  }
}
