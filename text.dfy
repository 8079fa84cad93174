/** The Python `str` operations the ledger tools rely on, over `seq<char>`.
    Case folding and `\d` cover ASCII; `\w` and `str.isdigit` cover the
    characters up to U+017F (see README, "Left out"). */
module Text {
  import opened Wrappers

  // ---------------------------------------------------------------------
  // Characters

  function LowerChar(c: char): char {
    if 'A' <= c <= 'Z' then (c as int + 32) as char else c
  }

  /** `s.lower()` */
  function Lower(s: string): (r: string)
    ensures |r| == |s|
    ensures forall i :: 0 <= i < |s| ==> r[i] == LowerChar(s[i])
  {
    if s == [] then [] else [LowerChar(s[0])] + Lower(s[1..])
  }

  /** Lower-casing changes only the capital letters: a capital followed by
      text without capitals loses only its own capital. */
  lemma LowerCapitalised(c: char, t: string)
    requires forall i :: 0 <= i < |t| ==> !('A' <= t[i] <= 'Z')
    ensures Lower([c] + t) == [LowerChar(c)] + t
  {
    assert ([c] + t)[1..] == t;
    LowerUnchanged(t);
  }

  lemma {:induction false} LowerUnchanged(t: string)
    requires forall i :: 0 <= i < |t| ==> !('A' <= t[i] <= 'Z')
    ensures Lower(t) == t
  {
    if t != [] {
      LowerUnchanged(t[1..]);
    }
  }

  predicate IsDigit(c: char) {
    '0' <= c <= '9'
  }

  function DigitValue(c: char): nat
    requires IsDigit(c)
  {
    c as int - '0' as int
  }

  predicate AllDigits(s: string) {
    forall i :: 0 <= i < |s| ==> IsDigit(s[i])
  }

  /** The characters for which Python's `str.isspace()` holds; they are also
      what the `\s` class of `re` matches in a str pattern. */
  predicate IsSpace(c: char) {
    var k := c as int;
    (9 <= k <= 13) || (28 <= k <= 32) || k == 0x85 || k == 0xA0 || k == 0x1680 ||
    (0x2000 <= k <= 0x200A) || k == 0x2028 || k == 0x2029 || k == 0x202F ||
    k == 0x205F || k == 0x3000
  }

  /** `str.isdigit()` of one character, up to U+017F: the ASCII digits and
      the superscripts '¹', '²' and '³'. */
  predicate IsStrDigit(c: char) {
    IsDigit(c) || c == '¹' || c == '²' || c == '³'
  }

  /** The `\w` class of `re` up to U+017F: '_' and the characters for which
      `str.isalnum()` holds, i.e. the ASCII letters and digits, 'ª', '²', '³',
      'µ', '¹', 'º', '¼', '½', '¾', the letters of Latin-1 and all of
      Latin Extended-A. */
  predicate IsWordChar(c: char) {
    ('a' <= c <= 'z') || ('A' <= c <= 'Z') || IsDigit(c) || c == '_' ||
    c == 'ª' || c == 'µ' || c == 'º' || IsStrDigit(c) || ('¼' <= c <= '¾') ||
    ('À' <= c <= 'ſ' && c != '×' && c != '÷')
  }

  // ---------------------------------------------------------------------
  // Substrings

  predicate StartsWith(s: string, p: string) {
    |p| <= |s| && s[..|p|] == p
  }

  /** `p in s` */
  predicate Contains(s: string, p: string)
    decreases |s|
  {
    StartsWith(s, p) || (|s| > 0 && Contains(s[1..], p))
  }

  lemma {:induction false} ContainsAt(s: string, p: string, i: nat)
    requires i + |p| <= |s| && s[i..i + |p|] == p
    ensures Contains(s, p)
    decreases i
  {
    if i > 0 {
      assert s[1..][i - 1..i - 1 + |p|] == s[i..i + |p|];
      ContainsAt(s[1..], p, i - 1);
    }
  }

  lemma {:induction false} ContainsWitness(s: string, p: string) returns (i: nat)
    requires Contains(s, p)
    ensures i + |p| <= |s| && s[i..i + |p|] == p
    decreases |s|
  {
    if StartsWith(s, p) {
      i := 0;
    } else {
      var j := ContainsWitness(s[1..], p);
      assert s[1..][j..j + |p|] == s[j + 1..j + 1 + |p|];
      i := j + 1;
    }
  }

  /** A string contains a character exactly when that character occurs in it. */
  lemma ContainsChar(s: string, c: char)
    ensures Contains(s, [c]) <==> c in s
  {
    if Contains(s, [c]) {
      var i := ContainsWitness(s, [c]);
      assert s[i] == s[i..i + 1][0];
    }
    if c in s {
      var i :| 0 <= i < |s| && s[i] == c;
      assert s[i..i + 1] == [c];
      ContainsAt(s, [c], i);
    }
  }

  /** Every character of a contained string occurs in the containing one. */
  lemma ContainedChars(s: string, p: string, c: char)
    requires Contains(s, p) && c in p
    ensures c in s
  {
    var i := ContainsWitness(s, p);
    var k :| 0 <= k < |p| && p[k] == c;
    assert s[i + k] == s[i..i + |p|][k];
  }

  /** `s.replace(pat, rep)` for a non-empty literal pattern: non-overlapping
      occurrences, scanned left to right. */
  function ReplaceAll(s: string, pat: string, rep: string): string
    requires |pat| > 0
    decreases |s|
  {
    if |s| < |pat| then s
    else if s[..|pat|] == pat then rep + ReplaceAll(s[|pat|..], pat, rep)
    else [s[0]] + ReplaceAll(s[1..], pat, rep)
  }

  /** The replacement leaves a string without the pattern as it is. */
  lemma {:induction false} ReplaceAllAbsent(s: string, pat: string, rep: string)
    requires |pat| > 0 && !Contains(s, pat)
    ensures ReplaceAll(s, pat, rep) == s
    decreases |s|
  {
    if |s| >= |pat| {
      assert !StartsWith(s, pat);
      ReplaceAllAbsent(s[1..], pat, rep);
    }
  }

  /** `s.replace(a, b)` for single characters */
  function ReplaceChar(s: string, a: char, b: char): (r: string)
    ensures |r| == |s|
    ensures forall i :: 0 <= i < |s| ==> r[i] == (if s[i] == a then b else s[i])
  {
    if s == [] then [] else [if s[0] == a then b else s[0]] + ReplaceChar(s[1..], a, b)
  }

  /** After replacing `a` by another character no `a` is left. */
  lemma ReplaceCharRemoves(s: string, a: char, b: char)
    requires a != b
    ensures a !in ReplaceChar(s, a, b)
  {
    var r := ReplaceChar(s, a, b);
    assert forall i :: 0 <= i < |r| ==> r[i] != a;
  }

  /** Removes every occurrence of a character: `s.replace(c, '')`. */
  function RemoveChar(s: string, c: char): (r: string)
    ensures c !in r
    ensures forall x :: x in r <==> x in s && x != c
  {
    if s == [] then [] else (if s[0] == c then [] else [s[0]]) + RemoveChar(s[1..], c)
  }

  /** Text made only of `c` is removed entirely. */
  lemma {:induction false} RemoveOnly(s: string, c: char)
    requires forall i :: 0 <= i < |s| ==> s[i] == c
    ensures RemoveChar(s, c) == []
  {
    if s != [] {
      RemoveOnly(s[1..], c);
    }
  }

  function Zeros(n: nat): (r: string)
    ensures |r| == n && forall i :: 0 <= i < n ==> r[i] == '0'
  {
    if n == 0 then [] else ['0'] + Zeros(n - 1)
  }

  /** `s.zfill(width)`: left-pad with '0' to `width`, keeping a leading sign
      in front of the padding. */
  function ZFill(s: string, width: nat): (r: string)
    ensures |r| == if |s| >= width then |s| else width
    ensures |s| >= width ==> r == s
    ensures |s| < width && (s == [] || (s[0] != '+' && s[0] != '-')) ==> r == Zeros(width - |s|) + s
    ensures |s| < width && s != [] && (s[0] == '+' || s[0] == '-') ==>
              r == [s[0]] + Zeros(width - |s|) + s[1..]
  {
    if |s| >= width then s
    else if s != [] && (s[0] == '+' || s[0] == '-') then [s[0]] + Zeros(width - |s|) + s[1..]
    else Zeros(width - |s|) + s
  }

  // ---------------------------------------------------------------------
  // Whitespace

  function StripLeft(s: string): (r: string)
    ensures r == [] || !IsSpace(r[0])
    ensures |r| <= |s| && r == s[|s| - |r|..]
  {
    if s != [] && IsSpace(s[0]) then StripLeft(s[1..]) else s
  }

  function StripRight(s: string): (r: string)
    ensures r == [] || !IsSpace(r[|r| - 1])
    ensures |r| <= |s| && r == s[..|r|]
  {
    if s != [] && IsSpace(s[|s| - 1]) then StripRight(s[..|s| - 1]) else s
  }

  /** `s.strip()` */
  function Strip(s: string): (r: string)
    ensures r == [] || (!IsSpace(r[0]) && !IsSpace(r[|r| - 1]))
  {
    StripRight(StripLeft(s))
  }

  // ---------------------------------------------------------------------
  // Numbers

  /** The longest prefix made of digits. */
  function TakeDigits(s: string): (r: string)
    ensures AllDigits(r) && StartsWith(s, r)
    ensures |r| < |s| ==> !IsDigit(s[|r|])
  {
    if s != [] && IsDigit(s[0]) then [s[0]] + TakeDigits(s[1..]) else []
  }

  lemma {:induction false} TakeDigitsOf(ds: string, rest: string)
    requires AllDigits(ds) && (rest == [] || !IsDigit(rest[0]))
    ensures TakeDigits(ds + rest) == ds
  {
    if ds != [] {
      assert (ds + rest)[1..] == ds[1..] + rest;
      TakeDigitsOf(ds[1..], rest);
    } else {
      assert ds + rest == rest;
    }
  }

  /** The text `re.search(r'(\d+)', s)` captures, or "" when there is none. */
  function FirstDigitRun(s: string): (r: string)
    ensures AllDigits(r)
    ensures r == [] <==> forall i :: 0 <= i < |s| ==> !IsDigit(s[i])
  {
    if s == [] then []
    else if IsDigit(s[0]) then TakeDigits(s)
    else FirstDigitRun(s[1..])
  }

  function DigitsValue(ds: string): nat
    requires AllDigits(ds)
  {
    if ds == [] then 0
    else DigitsValue(ds[..|ds| - 1]) * 10 + DigitValue(ds[|ds| - 1])
  }

  function DigitChar(d: nat): (c: char)
    requires d < 10
    ensures IsDigit(c) && DigitValue(c) == d
  {
    ('0' as int + d) as char
  }

  /** `str(n)` for a non-negative integer. */
  function NatToString(n: nat): (r: string)
    ensures r != [] && AllDigits(r)
    ensures DigitsValue(r) == n
    ensures r[0] == '0' ==> n == 0
  {
    if n < 10 then [DigitChar(n)]
    else
      var r := NatToString(n / 10) + [DigitChar(n % 10)];
      assert r[..|r| - 1] == NatToString(n / 10);
      r
  }

  /** `str(i)` */
  function IntToString(i: int): string {
    if i < 0 then "-" + NatToString(-i) else NatToString(i)
  }

  function Pow10(k: nat): (p: nat)
    ensures p >= 1
  {
    if k == 0 then 1 else 10 * Pow10(k - 1)
  }

  /** `int(s)`: optional surrounding whitespace, an optional sign and at least
      one digit; anything else raises ValueError (here: None). */
  function ParseInt(s: string): (r: Option<int>)
    ensures AllDigits(s) && s != [] ==> r == Some(DigitsValue(s) as int)
  {
    var t := Strip(s);
    StripDigits(s);
    if t != [] && (t[0] == '+' || t[0] == '-') then
      var ds := t[1..];
      if ds != [] && AllDigits(ds) then Some(if t[0] == '-' then -(DigitsValue(ds) as int) else DigitsValue(ds) as int)
      else None
    else if t != [] && AllDigits(t) then Some(DigitsValue(t))
    else None
  }

  lemma StripDigits(s: string)
    ensures AllDigits(s) && s != [] ==> Strip(s) == s
  {
    if AllDigits(s) && s != [] {
      assert !IsSpace(s[0]) by { DigitIsNotSpace(s[0]); }
      assert StripLeft(s) == s;
      assert !IsSpace(s[|s| - 1]) by { DigitIsNotSpace(s[|s| - 1]); }
    }
  }

  lemma DigitIsNotSpace(c: char)
    requires IsDigit(c)
    ensures !IsSpace(c)
  {
  }

  /** Text that neither starts nor ends with whitespace is its own strip. */
  lemma StripUnpadded(s: string)
    requires s != [] && !IsSpace(s[0]) && !IsSpace(s[|s| - 1])
    ensures Strip(s) == s
  {
    assert StripLeft(s) == s;
  }

  /** The unsigned part of a decimal literal: digits, optionally a '.' and
      more digits, with at least one digit in all. */
  function ParseUnsignedDecimal(t: string): Option<real> {
    var whole := TakeDigits(t);
    var rest := t[|whole|..];
    if rest == [] then
      if whole != [] then Some(DigitsValue(whole) as real) else None
    else if rest[0] == '.' && AllDigits(rest[1..]) && (whole != [] || |rest| > 1) then
      Some(DecimalValue(whole, rest[1..]))
    else None
  }

  /** The value of the digits `whole` '.' `frac`. */
  function DecimalValue(whole: string, frac: string): real
    requires AllDigits(whole) && AllDigits(frac)
  {
    DigitsValue(whole) as real + DigitsValue(frac) as real / Pow10(|frac|) as real
  }

  /** `float(s)` on plain decimal literals (surrounding whitespace, a sign,
      digits with an optional fraction); any other text is treated as
      unparsable. */
  function ParseDecimal(s: string): (r: Option<real>)
  {
    var t := Strip(s);
    if t != [] && (t[0] == '+' || t[0] == '-') then
      match ParseUnsignedDecimal(t[1..])
      case Some(v) => Some(if t[0] == '-' then -v else v)
      case None => None
    else ParseUnsignedDecimal(t)
  }

  /** `float()` of an unsigned literal with digits on both sides of '.'. */
  lemma DecimalLiteral(s: string, ds: string, fs: string)
    requires ds != [] && fs != [] && AllDigits(ds) && AllDigits(fs) && s == ds + ['.'] + fs
    ensures ParseDecimal(s) == Some(DecimalValue(ds, fs))
  {
    assert s[0] == ds[0] && s[|s| - 1] == fs[|fs| - 1];
    DigitIsNotSpace(s[0]);
    DigitIsNotSpace(s[|s| - 1]);
    StripUnpadded(s);
    assert !(s[0] == '+' || s[0] == '-');
    UnsignedDecimalLiteral(ds, fs);
  }

  lemma UnsignedDecimalLiteral(ds: string, fs: string)
    requires ds != [] && fs != [] && AllDigits(ds) && AllDigits(fs)
    ensures ParseUnsignedDecimal(ds + ['.'] + fs) == Some(DecimalValue(ds, fs))
  {
    var t := ds + ['.'] + fs;
    var rest := ['.'] + fs;
    assert t == ds + rest;
    TakeDigitsOf(ds, rest);
    assert t[|ds|..] == rest;
    assert rest[1..] == fs;
  }

  /** Text holding a character that is no digit, sign, '.' or whitespace
      (a decimal comma, a letter) is not a decimal literal. */
  lemma ParseDecimalRejects(s: string, c: char)
    requires c in s && !IsDigit(c) && c != '.' && c != '+' && c != '-' && !IsSpace(c)
    ensures ParseDecimal(s) == None
  {
    var t := Strip(s);
    assert c in t by {
      StripKeepsInner(s, c);
    }
    if t != [] && (t[0] == '+' || t[0] == '-') {
      assert c in t[1..];
      UnsignedRejects(t[1..], c);
    } else {
      UnsignedRejects(t, c);
    }
  }

  /** A replacement of a character that does not occur changes nothing. */
  lemma {:induction false} ReplaceCharAbsent(s: string, a: char, b: char)
    requires a !in s
    ensures ReplaceChar(s, a, b) == s
  {
    if s != [] {
      ReplaceCharAbsent(s[1..], a, b);
    }
  }

  lemma StripKeepsInner(s: string, c: char)
    requires c in s && !IsSpace(c)
    ensures c in Strip(s)
  {
    var i :| 0 <= i < |s| && s[i] == c;
    StripLeftKeeps(s, i);
    var l := StripLeft(s);
    var k := |s| - |l|;
    assert l == s[k..];
    assert l[i - k] == c;
    StripRightKeeps(l, i - k);
    var r := StripRight(l);
    assert r == l[..|r|];
    assert r[i - k] == c;
  }

  lemma {:induction false} StripLeftKeeps(s: string, i: nat)
    requires i < |s| && !IsSpace(s[i])
    ensures |s| - |StripLeft(s)| <= i
    decreases |s|
  {
    if s != [] && IsSpace(s[0]) {
      StripLeftKeeps(s[1..], i - 1);
    }
  }

  lemma {:induction false} StripRightKeeps(s: string, i: nat)
    requires i < |s| && !IsSpace(s[i])
    ensures i < |StripRight(s)|
    decreases |s|
  {
    if s != [] && IsSpace(s[|s| - 1]) {
      StripRightKeeps(s[..|s| - 1], i);
    }
  }

  lemma UnsignedRejects(t: string, c: char)
    requires c in t && !IsDigit(c) && c != '.'
    ensures ParseUnsignedDecimal(t) == None
  {
    var whole := TakeDigits(t);
    var rest := t[|whole|..];
    var i :| 0 <= i < |t| && t[i] == c;
    assert i >= |whole|;
    assert rest[i - |whole|] == c;
    if rest != [] && rest[0] == '.' {
      assert i - |whole| > 0;
      assert rest[1..][i - |whole| - 1] == c;
    }
  }

  // ---------------------------------------------------------------------
  // Ordering of strings

  /** Python's `<` on str: code-point lexicographic, a proper prefix first. */
  predicate Less(a: string, b: string) {
    if a == [] then b != []
    else if b == [] then false
    else if a[0] != b[0] then a[0] < b[0]
    else Less(a[1..], b[1..])
  }

  lemma {:induction false} LessIrreflexive(a: string)
    ensures !Less(a, a)
  {
    if a != [] { LessIrreflexive(a[1..]); }
  }

  lemma {:induction false} LessTransitive(a: string, b: string, c: string)
    requires Less(a, b) && Less(b, c)
    ensures Less(a, c)
  {
    if a != [] && b != [] && c != [] && a[0] == b[0] && b[0] == c[0] {
      LessTransitive(a[1..], b[1..], c[1..]);
    }
  }

  lemma {:induction false} LessTotal(a: string, b: string)
    requires a != b
    ensures Less(a, b) || Less(b, a)
  {
    if a != [] && b != [] && a[0] == b[0] {
      assert a == [a[0]] + a[1..] && b == [b[0]] + b[1..];
      LessTotal(a[1..], b[1..]);
    }
  }

  // ---------------------------------------------------------------------
  // Joining and splitting fields

  /** `sep.join(cells)` */
  function Join(cells: seq<string>, sep: char): string {
    if cells == [] then []
    else if |cells| == 1 then cells[0]
    else cells[0] + [sep] + Join(cells[1..], sep)
  }

  /** `s.split(sep)`: the pieces between separators, at least one. */
  function Split(s: string, sep: char): (pieces: seq<string>)
    ensures |pieces| >= 1
  {
    if s == [] then [[]]
    else
      var rest := Split(s[1..], sep);
      if s[0] == sep then [[]] + rest else [[s[0]] + rest[0]] + rest[1..]
  }

  lemma {:induction false} SplitPlain(c: string, sep: char)
    requires sep !in c
    ensures Split(c, sep) == [c]
  {
    if c != [] {
      SplitPlain(c[1..], sep);
      assert [c[0]] + c[1..] == c;
    }
  }

  lemma {:induction false} SplitAfterField(c: string, sep: char, t: string)
    requires sep !in c
    ensures Split(c + [sep] + t, sep) == [c] + Split(t, sep)
  {
    if c == [] {
      assert c + [sep] + t == [sep] + t;
      assert ([sep] + t)[1..] == t;
    } else {
      assert (c + [sep] + t)[1..] == c[1..] + [sep] + t;
      SplitAfterField(c[1..], sep, t);
      assert [c[0]] + c[1..] == c;
    }
  }

  /** Splitting a joined line gives back its cells when no cell holds the
      separator. */
  lemma {:induction false} SplitJoin(cells: seq<string>, sep: char)
    requires |cells| >= 1
    requires forall i :: 0 <= i < |cells| ==> sep !in cells[i]
    ensures Split(Join(cells, sep), sep) == cells
  {
    if |cells| == 1 {
      SplitPlain(cells[0], sep);
    } else {
      SplitJoin(cells[1..], sep);
      SplitAfterField(cells[0], sep, Join(cells[1..], sep));
      assert [cells[0]] + cells[1..] == cells;
    }
  }
}
