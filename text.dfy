/** String operations of the Python runtime that the bot relies on: character
    classes, `str.startswith`, `in`, `str.replace`, `str.split`, `str.strip`,
    `str.lower`, and the `str(int)` / `int(str)` conversions. */
module Text {
  import opened Wrappers

  // ---------------------------------------------------------------------------
  // Character classes

  predicate IsDigit(c: char) { '0' <= c <= '9' }

  /** Word character of the regular-expression `\b` assertion, restricted to ASCII. */
  predicate IsWordChar(c: char) {
    IsDigit(c) || ('a' <= c <= 'z') || ('A' <= c <= 'Z') || c == '_'
  }

  /** The characters for which Python's `str.isspace()` holds. */
  predicate IsSpace(c: char) {
    c == ' ' || ('\t' <= c <= '\r') || ('\U{1C}' <= c <= '\U{1F}')
    || c == '\U{85}' || c == '\U{A0}' || c == '\U{1680}'
    || ('\U{2000}' <= c <= '\U{200A}') || c == '\U{2028}' || c == '\U{2029}'
    || c == '\U{202F}' || c == '\U{205F}' || c == '\U{3000}'
  }

  predicate AllDigits(s: string) { forall i :: 0 <= i < |s| ==> IsDigit(s[i]) }

  /** ASCII case folding of one character. */
  function Lower(c: char): (r: char)
    ensures IsWordChar(r) <==> IsWordChar(c)
    ensures 'A' <= c <= 'Z' ==> 'a' <= r <= 'z'
    ensures !('A' <= c <= 'Z') ==> r == c
  {
    if 'A' <= c <= 'Z' then (c as int + 32) as char else c
  }

  function LowerString(s: string): (r: string)
    ensures |r| == |s|
    ensures forall i :: 0 <= i < |s| ==> r[i] == Lower(s[i])
  {
    seq(|s|, i requires 0 <= i < |s| => Lower(s[i]))
  }

  /** Case-insensitive equality under ASCII folding. */
  predicate EqualsIgnoreCase(a: string, b: string) {
    LowerString(a) == LowerString(b)
  }

  // ---------------------------------------------------------------------------
  // Prefixes, substrings, replacement

  predicate StartsWith(s: string, p: string) {
    |p| <= |s| && s[..|p|] == p
  }

  /** Python's `p in s` for strings. */
  predicate Contains(s: string, p: string)
    decreases |s|
  {
    StartsWith(s, p) || (s != [] && Contains(s[1..], p))
  }

  lemma {:induction false} ContainsAt(s: string, p: string, i: nat)
    requires i + |p| <= |s| && s[i..i + |p|] == p
    ensures Contains(s, p)
    decreases i
  {
    if i > 0 {
      assert s[1..][i - 1..i - 1 + |p|] == s[i..i + |p|];
      ContainsAt(s[1..], p, i - 1);
    } else {
      assert s[..|p|] == p;
    }
  }

  /** Where a contained text occurs. */
  lemma {:induction false} ContainsWitness(s: string, p: string) returns (i: nat)
    requires Contains(s, p)
    ensures i + |p| <= |s| && s[i..i + |p|] == p
    decreases |s|
  {
    if StartsWith(s, p) {
      i := 0;
    } else {
      var j := ContainsWitness(s[1..], p);
      i := j + 1;
      assert s[i..i + |p|] == s[1..][j..j + |p|];
    }
  }

  lemma {:induction false} ContainsConcatLeft(a: string, b: string, p: string)
    requires Contains(a, p)
    ensures Contains(a + b, p)
    decreases |a|
  {
    if StartsWith(a, p) {
      assert (a + b)[..|p|] == a[..|p|];
    } else {
      assert (a + b)[1..] == a[1..] + b;
      ContainsConcatLeft(a[1..], b, p);
    }
  }

  lemma {:induction false} ContainsConcatRight(a: string, b: string, p: string)
    requires Contains(b, p)
    ensures Contains(a + b, p)
    decreases |a|
  {
    if a != [] {
      assert (a + b)[1..] == a[1..] + b;
      ContainsConcatRight(a[1..], b, p);
    } else {
      assert a + b == b;
    }
  }

  /** A text that lacks the first character of `p` does not contain `p`. */
  lemma {:induction false} NotContainsWithoutFirstChar(s: string, p: string)
    requires |p| > 0 && forall k :: 0 <= k < |s| ==> s[k] != p[0]
    ensures !Contains(s, p)
    decreases |s|
  {
    if s != [] {
      assert s[0] != p[0];
      NotContainsWithoutFirstChar(s[1..], p);
    }
  }

  /** Python's `s.replace(pat, rep)`: every non-overlapping occurrence of `pat`,
      scanning left to right, is replaced by `rep`. */
  function ReplaceAll(s: string, pat: string, rep: string): (r: string)
    requires |pat| > 0
    decreases |s|
  {
    if s == [] then []
    else if StartsWith(s, pat) then rep + ReplaceAll(s[|pat|..], pat, rep)
    else [s[0]] + ReplaceAll(s[1..], pat, rep)
  }

  lemma {:induction false} ReplaceAbsent(s: string, pat: string, rep: string)
    requires |pat| > 0 && !Contains(s, pat)
    ensures ReplaceAll(s, pat, rep) == s
    decreases |s|
  {
    if s != [] {
      ReplaceAbsent(s[1..], pat, rep);
    }
  }

  /** A replacement whose text avoids `pat`'s first character leaves no
      occurrence of `pat` that starts inside the replacement. */
  lemma {:induction false} ReplacePlaceholderSubstituted(pre: string, pat: string, rep: string, post: string)
    requires |pat| > 0 && !Contains(pre, pat)
    requires forall k :: 0 <= k < |pre| ==> pre[k] != pat[0]
    ensures ReplaceAll(pre + pat + post, pat, rep) == pre + rep + ReplaceAll(post, pat, rep)
    decreases |pre|
  {
    var s := pre + pat + post;
    if pre == [] {
      assert s == pat + post;
      assert s[..|pat|] == pat;
      assert s[|pat|..] == post;
    } else {
      assert s[0] == pre[0] && pre[0] != pat[0];
      assert !StartsWith(s, pat);
      assert s[1..] == pre[1..] + pat + post;
      ReplacePlaceholderSubstituted(pre[1..], pat, rep, post);
    }
  }

  // ---------------------------------------------------------------------------
  // Splitting and joining on one separator character

  /** Python's `s.split(sep)` for a one-character separator: never empty. */
  function Split(s: string, sep: char): (r: seq<string>)
    ensures |r| >= 1
    decreases |s|
  {
    if s == [] then [[]]
    else if s[0] == sep then [[]] + Split(s[1..], sep)
    else
      var rest := Split(s[1..], sep);
      [[s[0]] + rest[0]] + rest[1..]
  }

  function Join(parts: seq<string>, sep: char): (r: string)
    requires |parts| >= 1
    decreases |parts|
  {
    if |parts| == 1 then parts[0] else parts[0] + [sep] + Join(parts[1..], sep)
  }

  /** Splitting and rejoining gives back the original text. */
  lemma {:induction false} JoinSplit(s: string, sep: char)
    ensures Join(Split(s, sep), sep) == s
    decreases |s|
  {
    if s != [] {
      JoinSplit(s[1..], sep);
      var rest := Split(s[1..], sep);
      if s[0] == sep {
        assert Split(s, sep)[1..] == rest;
      } else {
        var r := Split(s, sep);
        assert r[1..] == rest[1..];
        if |rest| == 1 {
          assert Join(r, sep) == [s[0]] + rest[0];
        } else {
          assert Join(r, sep) == [s[0]] + rest[0] + [sep] + Join(rest[1..], sep);
          assert Join(rest, sep) == rest[0] + [sep] + Join(rest[1..], sep);
        }
      }
    }
  }

  /** No piece of a split contains the separator. */
  lemma {:induction false} SplitPiecesFree(s: string, sep: char)
    ensures forall k :: 0 <= k < |Split(s, sep)| ==> sep !in Split(s, sep)[k]
    decreases |s|
  {
    if s != [] {
      SplitPiecesFree(s[1..], sep);
    }
  }

  /** Text without the separator splits into itself. */
  lemma {:induction false} SplitWithoutSep(a: string, sep: char)
    requires sep !in a
    ensures Split(a, sep) == [a]
    decreases |a|
  {
    if a != [] {
      assert a[0] in a && a == [a[0]] + a[1..];
      SplitWithoutSep(a[1..], sep);
    }
  }

  /** The first separator ends the first piece. */
  lemma {:induction false} SplitAtSep(a: string, sep: char, b: string)
    requires sep !in a
    ensures Split(a + [sep] + b, sep) == [a] + Split(b, sep)
    decreases |a|
  {
    var s := a + [sep] + b;
    if a == [] {
      assert s[0] == sep && s[1..] == b;
    } else {
      assert a[0] in a && s[0] == a[0];
      assert s[1..] == a[1..] + [sep] + b;
      SplitAtSep(a[1..], sep, b);
      var rest := Split(s[1..], sep);
      assert rest[0] == a[1..] && rest[1..] == Split(b, sep);
      assert [a[0]] + a[1..] == a;
    }
  }

  /** Splitting at a separator splits each side independently. */
  lemma {:induction false} SplitConcat(a: string, sep: char, b: string)
    ensures Split(a + [sep] + b, sep) == Split(a, sep) + Split(b, sep)
    decreases |a|
  {
    var s := a + [sep] + b;
    if a == [] {
      assert s[0] == sep && s[1..] == b;
    } else {
      assert s[0] == a[0] && s[1..] == a[1..] + [sep] + b;
      SplitConcat(a[1..], sep, b);
      if a[0] != sep {
        var rest := Split(s[1..], sep);
        assert rest[0] == Split(a[1..], sep)[0];
        assert rest[1..] == Split(a[1..], sep)[1..] + Split(b, sep);
      }
    }
  }

  /** The last piece of a split is the text after the last separator. */
  lemma LastPieceAfterSep(a: string, sep: char, b: string)
    requires sep !in b
    ensures var r := Split(a + [sep] + b, sep); r[|r| - 1] == b
  {
    SplitConcat(a, sep, b);
    SplitWithoutSep(b, sep);
  }

  /** Python's `s.split(sep, 1)`: the text before and after the first separator. */
  function SplitOnce(s: string, sep: char): (r: Option<(string, string)>)
    ensures r.None? <==> sep !in s
    ensures r.Some? ==> r.value.0 + [sep] + r.value.1 == s && sep !in r.value.0
    decreases |s|
  {
    if s == [] then None
    else if s[0] == sep then Some(([], s[1..]))
    else match SplitOnce(s[1..], sep)
      case None => None
      case Some((a, b)) => Some(([s[0]] + a, b))
  }

  /** Python's `s.rsplit(sep, 1)` when it yields two pieces: the text before
      and after the last separator. */
  function RSplitOnce(s: string, sep: char): (r: Option<(string, string)>)
    ensures r.None? <==> sep !in s
    ensures r.Some? ==> r.value.0 + [sep] + r.value.1 == s && sep !in r.value.1
    decreases |s|
  {
    if s == [] then None
    else if s[|s| - 1] == sep then Some((s[..|s| - 1], []))
    else match RSplitOnce(s[..|s| - 1], sep)
      case None =>
        assert s == s[..|s| - 1] + [s[|s| - 1]];
        None
      case Some((a, b)) => Some((a, b + [s[|s| - 1]]))
  }

  /** Joining pieces that avoid the separator and splitting again gives the pieces back. */
  lemma {:induction false} SplitJoin(parts: seq<string>, sep: char)
    requires |parts| >= 1
    requires forall i :: 0 <= i < |parts| ==> sep !in parts[i]
    ensures Split(Join(parts, sep), sep) == parts
    decreases |parts|
  {
    if |parts| == 1 {
      SplitWithoutSep(parts[0], sep);
    } else {
      SplitJoin(parts[1..], sep);
      SplitAtSep(parts[0], sep, Join(parts[1..], sep));
    }
  }

  /** `split(sep, 1)` cuts at the first separator. */
  lemma {:induction false} SplitOnceAt(a: string, sep: char, b: string)
    requires sep !in a
    ensures SplitOnce(a + [sep] + b, sep) == Some((a, b))
    decreases |a|
  {
    var s := a + [sep] + b;
    if a == [] {
      assert s[0] == sep && s[1..] == b;
    } else {
      assert a[0] in a && s[0] == a[0];
      assert s[1..] == a[1..] + [sep] + b;
      SplitOnceAt(a[1..], sep, b);
      assert [a[0]] + a[1..] == a;
    }
  }

  /** `rsplit(sep, 1)` cuts at the last separator. */
  lemma {:induction false} RSplitOnceAt(a: string, sep: char, b: string)
    requires sep !in b
    ensures RSplitOnce(a + [sep] + b, sep) == Some((a, b))
    decreases |b|
  {
    var s := a + [sep] + b;
    if b == [] {
      assert s[|s| - 1] == sep && s[..|s| - 1] == a;
    } else {
      var n := |b| - 1;
      assert b[n] in b && s[|s| - 1] == b[n];
      assert s[..|s| - 1] == a + [sep] + b[..n];
      RSplitOnceAt(a, sep, b[..n]);
      assert b[..n] + [b[n]] == b;
    }
  }

  // ---------------------------------------------------------------------------
  // Whitespace stripping

  function LStrip(s: string): (r: string)
    ensures |r| <= |s| && r == s[|s| - |r|..]
    ensures r == [] || !IsSpace(r[0])
    decreases |s|
  {
    if s != [] && IsSpace(s[0]) then LStrip(s[1..]) else s
  }

  function RStrip(s: string): (r: string)
    ensures |r| <= |s| && r == s[..|r|]
    ensures r == [] || !IsSpace(r[|r| - 1])
    decreases |s|
  {
    if s != [] && IsSpace(s[|s| - 1]) then RStrip(s[..|s| - 1]) else s
  }

  /** `lstrip` removes white space only. */
  lemma {:induction false} LStripRemovesSpace(s: string)
    ensures forall k :: 0 <= k < |s| - |LStrip(s)| ==> IsSpace(s[k])
    decreases |s|
  {
    if s != [] && IsSpace(s[0]) {
      LStripRemovesSpace(s[1..]);
      forall k | 1 <= k < |s| - |LStrip(s)| ensures IsSpace(s[k]) {
        assert s[k] == s[1..][k - 1];
      }
    }
  }

  /** `rstrip` removes white space only. */
  lemma {:induction false} RStripRemovesSpace(s: string)
    ensures forall k :: |RStrip(s)| <= k < |s| ==> IsSpace(s[k])
    decreases |s|
  {
    if s != [] && IsSpace(s[|s| - 1]) {
      RStripRemovesSpace(s[..|s| - 1]);
    }
  }

  /** Python's `s.strip()`: the text without leading or trailing whitespace. */
  function Strip(s: string): (r: string)
    ensures r == [] || (!IsSpace(r[0]) && !IsSpace(r[|r| - 1]))
  {
    var l := LStrip(s);
    RStrip(l)
  }

  /** Every character of `s.strip()` is a character of `s`. */
  lemma StripKeepsChars(s: string)
    ensures forall k :: 0 <= k < |Strip(s)| ==> Strip(s)[k] in s
  {
    var l := LStrip(s);
    var r := RStrip(l);
    forall k | 0 <= k < |r| ensures r[k] in s {
      assert r[k] == l[k] == s[|s| - |l| + k];
    }
  }

  lemma StripNoSpaceEnds(s: string)
    requires s == [] || (!IsSpace(s[0]) && !IsSpace(s[|s| - 1]))
    ensures Strip(s) == s
  {
    assert LStrip(s) == s;
    assert RStrip(s) == s;
  }

  lemma StripIdempotent(s: string)
    ensures Strip(Strip(s)) == Strip(s)
  {
    StripNoSpaceEnds(Strip(s));
  }

  // ---------------------------------------------------------------------------
  // Decimal conversions

  function DigitChar(d: nat): (c: char)
    requires d < 10
    ensures IsDigit(c)
  {
    ('0' as int + d) as char
  }

  function DigitValue(c: char): (d: nat)
    requires IsDigit(c)
    ensures d < 10 && DigitChar(d) == c
  {
    c as int - '0' as int
  }

  /** Python's `str(n)` for a natural number. */
  function NatToString(n: nat): (r: string)
    ensures |r| >= 1 && AllDigits(r)
    ensures r[0] == '0' ==> n == 0 && r == "0"
    decreases n
  {
    if n < 10 then [DigitChar(n)] else NatToString(n / 10) + [DigitChar(n % 10)]
  }

  /** The number a non-empty string of decimal digits denotes. */
  function DigitsValue(s: string): nat
    requires AllDigits(s)
    decreases |s|
  {
    if s == [] then 0 else DigitsValue(s[..|s| - 1]) * 10 + DigitValue(s[|s| - 1])
  }

  lemma {:induction false} DigitsOfNat(n: nat)
    ensures DigitsValue(NatToString(n)) == n
    decreases n
  {
    var s := NatToString(n);
    if n >= 10 {
      DigitsOfNat(n / 10);
      assert s[..|s| - 1] == NatToString(n / 10);
    }
  }

  lemma {:induction false} DigitsValuePositive(s: string)
    requires AllDigits(s) && s != [] && s[0] != '0'
    ensures DigitsValue(s) >= 1
    decreases |s|
  {
    if |s| > 1 {
      DigitsValuePositive(s[..|s| - 1]);
    }
  }

  /** A digit string without a leading zero is the decimal form of its value. */
  lemma {:induction false} NatOfDigits(s: string)
    requires AllDigits(s) && s != [] && (s[0] != '0' || |s| == 1)
    ensures NatToString(DigitsValue(s)) == s
    decreases |s|
  {
    if |s| > 1 {
      var p := s[..|s| - 1];
      DigitsValuePositive(p);
      NatOfDigits(p);
      var v := DigitsValue(s);
      assert v / 10 == DigitsValue(p) && v % 10 == DigitValue(s[|s| - 1]);
      assert s == p + [s[|s| - 1]];
    }
  }

  /** Python's `str(i)`. */
  function IntToString(i: int): (r: string)
    ensures |r| >= 1 && (r[0] == '-' <==> i < 0)
  {
    if i < 0 then "-" + NatToString(-i) else NatToString(i)
  }

  /** Python's `int(s)` on text: surrounding whitespace, an optional sign and
      at least one decimal digit; anything else raises `ValueError` (`None`). */
  function ParseInt(s: string): (r: Option<int>)
  {
    ParseSigned(Strip(s))
  }

  /** An optional sign followed by at least one decimal digit. */
  function ParseSigned(t: string): (r: Option<int>)
  {
    if t != [] && (t[0] == '-' || t[0] == '+') then
      var ds := t[1..];
      if ds != [] && AllDigits(ds) then
        var v: int := DigitsValue(ds);
        Some(if t[0] == '-' then -v else v)
      else None
    else if t != [] && AllDigits(t) then Some(DigitsValue(t))
    else None
  }

  lemma ParseSignedToString(i: int)
    ensures ParseSigned(IntToString(i)) == Some(i)
  {
    var s := IntToString(i);
    if i < 0 {
      var n := NatToString(-i);
      assert s == "-" + n && s[1..] == n;
      DigitsOfNat(-i);
    } else {
      var n := NatToString(i);
      assert s == n && IsDigit(n[0]);
      DigitsOfNat(i);
    }
  }

  /** `int(ds)` of a non-empty digit string is the number it denotes. */
  lemma ParseDigits(ds: string)
    requires ds != [] && AllDigits(ds)
    ensures ParseInt(ds) == Some(DigitsValue(ds) as int)
  {
    assert IsDigit(ds[0]) && IsDigit(ds[|ds| - 1]);
    StripNoSpaceEnds(ds);
  }

  /** `int("-" + ds)` of a digit string without a leading zero is the
      negated value, and `str` gives the same text back. */
  lemma NegativeDigits(ds: string)
    requires ds != [] && AllDigits(ds) && ds[0] != '0'
    ensures ParseInt("-" + ds) == Some(-(DigitsValue(ds) as int))
    ensures IntToString(-(DigitsValue(ds) as int)) == "-" + ds
  {
    NegativeDigitsParse(ds);
    NegativeDigitsText(ds);
  }

  lemma NegativeDigitsParse(ds: string)
    requires ds != [] && AllDigits(ds)
    ensures ParseInt("-" + ds) == Some(-(DigitsValue(ds) as int))
  {
    SignedDigits(ds);
  }

  lemma NegativeDigitsText(ds: string)
    requires ds != [] && AllDigits(ds) && ds[0] != '0'
    ensures IntToString(-(DigitsValue(ds) as int)) == "-" + ds
  {
    DigitsValuePositive(ds);
    NatOfDigits(ds);
    NegativeToString(DigitsValue(ds));
  }

  /** `str(-n)` for a positive `n` is a minus sign before `str(n)`. */
  lemma NegativeToString(n: nat)
    requires n > 0
    ensures IntToString(-(n as int)) == "-" + NatToString(n)
  {
    var i := -(n as int);
    assert i < 0 && -i == n;
  }

  /** `"-" + ds` is already stripped and reads as the negated value. */
  lemma SignedDigits(ds: string)
    requires ds != [] && AllDigits(ds)
    ensures Strip("-" + ds) == "-" + ds
    ensures ParseSigned("-" + ds) == Some(-(DigitsValue(ds) as int))
  {
    SignedDigitsStripped(ds);
    SignedDigitsValue(ds);
  }

  lemma SignedDigitsStripped(ds: string)
    requires ds != [] && AllDigits(ds)
    ensures Strip("-" + ds) == "-" + ds
  {
    var t := "-" + ds;
    assert t[|t| - 1] == ds[|ds| - 1];
    assert IsDigit(ds[|ds| - 1]);
    StripNoSpaceEnds(t);
  }

  lemma SignedDigitsValue(ds: string)
    requires ds != [] && AllDigits(ds)
    ensures ParseSigned("-" + ds) == Some(-(DigitsValue(ds) as int))
  {
    var t := "-" + ds;
    assert t[1..] == ds && t[0] == '-';
  }

  /** `int(str(i)) == i`. */
  lemma ParseIntToString(i: int)
    ensures ParseInt(IntToString(i)) == Some(i)
  {
    var s := IntToString(i);
    assert IsDigit(s[|s| - 1]);
    StripNoSpaceEnds(s);
    ParseSignedToString(i);
  }

  /** `str` is injective on integers. */
  lemma IntToStringInjective(a: int, b: int)
    requires IntToString(a) == IntToString(b)
    ensures a == b
  {
    ParseIntToString(a);
    ParseIntToString(b);
  }

  /** After its first character, `str(i)` is all digits. */
  lemma IntToStringTailDigits(i: int)
    ensures forall k :: 1 <= k < |IntToString(i)| ==> IsDigit(IntToString(i)[k])
  {
    var r := IntToString(i);
    forall k | 1 <= k < |r| ensures IsDigit(r[k]) {
      if i < 0 {
        assert r[k] == NatToString(-i)[k - 1];
      } else {
        assert r[k] == NatToString(i)[k];
      }
    }
  }

  lemma {:induction false} FirstDifference(a: string, b: string) returns (k: nat)
    requires |a| == |b| && a != b
    ensures k < |a| && a[k] != b[k]
    decreases |a|
  {
    if a[0] != b[0] {
      k := 0;
    } else {
      assert a == [a[0]] + a[1..] && b == [b[0]] + b[1..];
      var k' := FirstDifference(a[1..], b[1..]);
      k := k' + 1;
    }
  }

  /** Texts that differ only in an embedded number, each number followed by
      a non-digit, differ. */
  lemma NumberedTextsDiffer(pre: string, i: int, j: int, x: string, y: string)
    requires i != j
    requires x != [] && !IsDigit(x[0]) && y != [] && !IsDigit(y[0])
    ensures pre + IntToString(i) + x != pre + IntToString(j) + y
  {
    var a := IntToString(i);
    var b := IntToString(j);
    var u := pre + a + x;
    var v := pre + b + y;
    var m := |pre|;
    IntToStringTailDigits(i);
    IntToStringTailDigits(j);
    if |a| == |b| {
      if a == b {
        IntToStringInjective(i, j);
      }
      var k := FirstDifference(a, b);
      assert u[m + k] == a[k] && v[m + k] == b[k];
    } else if |a| < |b| {
      assert u[m + |a|] == x[0] && v[m + |a|] == b[|a|];
    } else {
      assert v[m + |b|] == y[0] && u[m + |b|] == a[|b|];
    }
  }

  /** Repeating one character: Python's `c * n`, empty when `n <= 0`. */
  function Repeat(c: char, n: int): (r: string)
    ensures |r| == if n > 0 then n else 0
    ensures forall k :: 0 <= k < |r| ==> r[k] == c
    decreases if n > 0 then n else 0
  {
    if n <= 0 then [] else [c] + Repeat(c, n - 1)
  }
}
