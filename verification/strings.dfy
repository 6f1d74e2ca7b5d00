/** Character classes and string helpers shared by every parser in the model.

    Python's `str` methods and regular-expression classes are Unicode-aware;
    this model restricts them to ASCII: `\w` is `[A-Za-z0-9_]`, `\s` is the six
    ASCII whitespace characters, and lower/upper/casefold only touch `A-Z`/`a-z`. */
module Strings {

  predicate IsDigit(c: char) { '0' <= c <= '9' }
  predicate IsUpper(c: char) { 'A' <= c <= 'Z' }
  predicate IsLower(c: char) { 'a' <= c <= 'z' }
  predicate IsAlpha(c: char) { IsUpper(c) || IsLower(c) }
  predicate IsAlnum(c: char) { IsAlpha(c) || IsDigit(c) }
  /** Python's `\w` restricted to ASCII. */
  predicate IsWordChar(c: char) { IsAlnum(c) || c == '_' }
  /** Python's `\s` (and `str.strip()` without arguments) restricted to ASCII. */
  predicate IsSpace(c: char) {
    c == ' ' || c == '\t' || c == '\n' || c == '\r' || c == '\U{B}' || c == '\U{C}'
  }

  function Lower(c: char): (r: char)
    ensures IsUpper(c) ==> IsLower(r)
    ensures !IsUpper(c) ==> r == c
    ensures !IsUpper(r)
  {
    if IsUpper(c) then (c as int + 32) as char else c
  }

  function Upper(c: char): (r: char)
    ensures IsLower(c) ==> IsUpper(r)
    ensures !IsLower(c) ==> r == c
    ensures !IsLower(r)
  {
    if IsLower(c) then (c as int - 32) as char else c
  }

  function LowerStr(s: string): (r: string)
    ensures |r| == |s|
    ensures forall i :: 0 <= i < |s| ==> r[i] == Lower(s[i])
  {
    if |s| == 0 then "" else [Lower(s[0])] + LowerStr(s[1..])
  }

  function UpperStr(s: string): (r: string)
    ensures |r| == |s|
    ensures forall i :: 0 <= i < |s| ==> r[i] == Upper(s[i])
  {
    if |s| == 0 then "" else [Upper(s[0])] + UpperStr(s[1..])
  }

  lemma LowerStrConcat(a: string, b: string)
    ensures LowerStr(a + b) == LowerStr(a) + LowerStr(b)
  {
  }

  predicate StartsWith(s: string, p: string) {
    |p| <= |s| && s[..|p|] == p
  }

  predicate EndsWith(s: string, p: string) {
    |p| <= |s| && s[|s| - |p|..] == p
  }

  /** `sub` occurs in `s` starting at index `i`. */
  predicate OccursAt(s: string, sub: string, i: int) {
    0 <= i && i + |sub| <= |s| && s[i..i + |sub|] == sub
  }

  /** Python's `sub in s`. */
  predicate Contains(s: string, sub: string)
    decreases |s|
  {
    if StartsWith(s, sub) then true
    else if |s| == 0 then false
    else Contains(s[1..], sub)
  }

  lemma ContainsIff(s: string, sub: string)
    ensures Contains(s, sub) <==> exists i :: OccursAt(s, sub, i)
    decreases |s|
  {
    if StartsWith(s, sub) {
      assert OccursAt(s, sub, 0);
    } else if |s| == 0 {
    } else {
      ContainsIff(s[1..], sub);
      if Contains(s[1..], sub) {
        var i :| OccursAt(s[1..], sub, i);
        assert s[1..][i..i + |sub|] == s[i + 1..i + 1 + |sub|];
        assert OccursAt(s, sub, i + 1);
      }
      if exists i :: OccursAt(s, sub, i) {
        var i :| OccursAt(s, sub, i);
        assert i != 0;
        assert s[1..][i - 1..i - 1 + |sub|] == s[i..i + |sub|];
        assert OccursAt(s[1..], sub, i - 1);
      }
    }
  }

  /** A text in which the first character of `sub` never occurs does not contain `sub`. */
  lemma {:induction false} NoFirstCharNoOccurrence(s: string, sub: string)
    requires |sub| > 0
    requires forall i :: 0 <= i < |s| ==> s[i] != sub[0]
    ensures !Contains(s, sub)
    decreases |s|
  {
    if |s| > 0 {
      assert !StartsWith(s, sub) by {
        assert |sub| <= |s| ==> s[..|sub|][0] == s[0];
      }
      NoFirstCharNoOccurrence(s[1..], sub);
    }
  }

  lemma ContainsAt(s: string, sub: string, i: int)
    requires OccursAt(s, sub, i)
    ensures Contains(s, sub)
  {
    ContainsIff(s, sub);
  }

  lemma ContainsSelf(s: string)
    ensures Contains(s, s)
  {
    assert StartsWith(s, s);
  }

  lemma ContainsInPrefix(a: string, b: string, sub: string)
    requires Contains(a, sub)
    ensures Contains(a + b, sub)
  {
    ContainsIff(a, sub);
    var i :| OccursAt(a, sub, i);
    assert (a + b)[i..i + |sub|] == a[i..i + |sub|];
    ContainsAt(a + b, sub, i);
  }

  lemma ContainsInSuffix(a: string, b: string, sub: string)
    requires Contains(b, sub)
    ensures Contains(a + b, sub)
  {
    ContainsIff(b, sub);
    var i :| OccursAt(b, sub, i);
    assert (a + b)[|a| + i..|a| + i + |sub|] == b[i..i + |sub|];
    ContainsAt(a + b, sub, |a| + i);
  }

  lemma OccursShift(s: string, sub: string)
    requires |s| > 0
    ensures forall j :: 1 <= j ==> (OccursAt(s, sub, j) <==> OccursAt(s[1..], sub, j - 1))
  {
    forall j | 1 <= j
      ensures OccursAt(s, sub, j) <==> OccursAt(s[1..], sub, j - 1)
    {
      if j + |sub| <= |s| {
        assert s[1..][j - 1..j - 1 + |sub|] == s[j..j + |sub|];
      }
    }
  }

  /** Index of the first occurrence of `sub` in `s`, or -1 (Python's `str.find`). */
  function Find(s: string, sub: string): (r: int)
    ensures r == -1 || OccursAt(s, sub, r)
    ensures r == -1 ==> !Contains(s, sub)
    ensures r >= 0 ==> forall j :: 0 <= j < r ==> !OccursAt(s, sub, j)
    decreases |s|
  {
    if StartsWith(s, sub) then 0
    else if |s| == 0 then -1
    else
      var k := Find(s[1..], sub);
      if k == -1 then -1
      else
        OccursShift(s, sub);
        k + 1
  }

  /** Strips characters of `cs` from the front of `s` (Python's `lstrip(cs)`). */
  function LStrip(s: string, cs: set<char>): (r: string)
    ensures |r| <= |s| && r == s[|s| - |r|..]
    ensures |r| == 0 || r[0] !in cs
    ensures forall i :: 0 <= i < |s| - |r| ==> s[i] in cs
  {
    if |s| > 0 && s[0] in cs then LStrip(s[1..], cs) else s
  }

  /** Strips characters of `cs` from the back of `s` (Python's `rstrip(cs)`). */
  function RStrip(s: string, cs: set<char>): (r: string)
    ensures |r| <= |s| && r == s[..|r|]
    ensures |r| == 0 || r[|r| - 1] !in cs
    ensures forall i :: |r| <= i < |s| ==> s[i] in cs
  {
    if |s| > 0 && s[|s| - 1] in cs then RStrip(s[..|s| - 1], cs) else s
  }

  function StripChars(s: string, cs: set<char>): (r: string)
    ensures |r| == 0 || (r[0] !in cs && r[|r| - 1] !in cs)
  {
    RStrip(LStrip(s, cs), cs)
  }

  /** Stripping keeps only characters of the input. */
  lemma StripCharsKeeps(c: string, cs: set<char>, P: char -> bool)
    requires forall i :: 0 <= i < |c| ==> P(c[i])
    ensures forall i :: 0 <= i < |StripChars(c, cs)| ==> P(StripChars(c, cs)[i])
  {
    var l := LStrip(c, cs);
    var r := RStrip(l, cs);
    forall i | 0 <= i < |r|
      ensures P(r[i])
    {
      assert r[i] == l[i] == c[|c| - |l| + i];
    }
  }

  /** The ASCII whitespace characters. */
  const Whitespace: set<char> := {' ', '\t', '\n', '\r', '\U{B}', '\U{C}'}

  lemma WhitespaceIsSpace(c: char)
    ensures c in Whitespace <==> IsSpace(c)
  {
  }

  /** Python's `str.strip()`. */
  function Strip(s: string): (r: string)
    ensures |r| == 0 || (!IsSpace(r[0]) && !IsSpace(r[|r| - 1]))
  {
    StripChars(s, Whitespace)
  }

  lemma StripNoop(s: string)
    requires |s| == 0 || (!IsSpace(s[0]) && !IsSpace(s[|s| - 1]))
    ensures Strip(s) == s
  {
    assert LStrip(s, Whitespace) == s by {
      if |s| > 0 {
        WhitespaceIsSpace(s[0]);
      }
    }
    assert RStrip(s, Whitespace) == s by {
      if |s| > 0 {
        WhitespaceIsSpace(s[|s| - 1]);
      }
    }
    assert StripChars(s, Whitespace) == RStrip(LStrip(s, Whitespace), Whitespace);
  }

  /** What `str.strip()` keeps is a contiguous slice of its input. */
  lemma StripSlice(s: string) returns (a: nat, b: nat)
    ensures a <= b <= |s|
    ensures Strip(s) == s[a..b]
  {
    var l := LStrip(s, Whitespace);
    var r := RStrip(l, Whitespace);
    a := |s| - |l|;
    b := a + |r|;
    SliceOfSuffix(s, a, |r|);
  }

  /** `str.strip()` never lengthens, and keeps the text whole only when it
      changes nothing. */
  lemma StripShortens(s: string)
    ensures |Strip(s)| <= |s| && (|Strip(s)| == |s| ==> Strip(s) == s)
  {
    var a, b := StripSlice(s);
  }

  lemma SliceOfSuffix(s: string, a: nat, n: nat)
    requires a + n <= |s|
    ensures s[a..][..n] == s[a..a + n]
  {
  }

  /** `strip()` drops one trailing space after text that already ends in a letter. */
  lemma StripTrailingSpace(t: string)
    requires |t| > 0 && IsAlpha(t[0]) && IsAlpha(t[|t| - 1])
    ensures Strip(t + " ") == t
  {
    var u := t + " ";
    WhitespaceIsSpace(t[0]);
    WhitespaceIsSpace(t[|t| - 1]);
    assert u[0] !in Whitespace;
    assert LStrip(u, Whitespace) == u;
    assert u[..|u| - 1] == t;
    assert RStrip(t, Whitespace) == t;
    assert RStrip(u, Whitespace) == RStrip(t, Whitespace);
  }

  /** A string is blank when `str.strip()` leaves nothing. */
  predicate IsBlank(s: string) {
    forall i :: 0 <= i < |s| ==> IsSpace(s[i])
  }

  lemma StripEmptyIffBlank(s: string)
    ensures Strip(s) == "" <==> IsBlank(s)
  {
    var l := LStrip(s, Whitespace);
    if IsBlank(s) {
      if |l| > 0 {
        assert l[0] == s[|s| - |l|];
      }
    } else {
      var i :| 0 <= i < |s| && !IsSpace(s[i]);
      assert i >= |s| - |l|;
      assert l[i - (|s| - |l|)] == s[i];
    }
  }

  /** Removes every character of `cs` (Python's `"".join(c for c in s if c not in cs)`). */
  function RemoveChars(s: string, cs: set<char>): (r: string)
    ensures |r| <= |s|
    ensures forall i :: 0 <= i < |r| ==> r[i] !in cs
    ensures forall c :: c !in cs ==> multiset(r)[c] == multiset(s)[c]
  {
    if |s| == 0 then ""
    else
      var rest := RemoveChars(s[1..], cs);
      assert s == [s[0]] + s[1..];
      if s[0] in cs then rest else [s[0]] + rest
  }

  lemma {:induction false} RemoveCharsConcat(a: string, b: string, cs: set<char>)
    ensures RemoveChars(a + b, cs) == RemoveChars(a, cs) + RemoveChars(b, cs)
    decreases |a|
  {
    if |a| == 0 {
      assert a + b == b;
    } else {
      assert (a + b)[1..] == a[1..] + b;
      RemoveCharsConcat(a[1..], b, cs);
    }
  }

  lemma {:induction false} RemoveCharsIdempotent(s: string, cs: set<char>)
    ensures RemoveChars(RemoveChars(s, cs), cs) == RemoveChars(s, cs)
    decreases |s|
  {
    if |s| > 0 {
      RemoveCharsIdempotent(s[1..], cs);
      var rest := RemoveChars(s[1..], cs);
      if s[0] !in cs {
        assert ([s[0]] + rest)[1..] == rest;
      }
    }
  }

  lemma {:induction false} RemoveCharsNoop(s: string, cs: set<char>)
    requires forall i :: 0 <= i < |s| ==> s[i] !in cs
    ensures RemoveChars(s, cs) == s
    decreases |s|
  {
    if |s| > 0 {
      RemoveCharsNoop(s[1..], cs);
      assert s == [s[0]] + s[1..];
    }
  }

  /** Python's `re.sub(r"\s+", " ", s)`: every maximal whitespace run becomes one space. */
  function CollapseSpaces(s: string): (r: string)
    ensures |r| <= |s|
    ensures forall i :: 0 <= i < |r| - 1 ==> !(IsSpace(r[i]) && IsSpace(r[i + 1]))
    ensures forall i :: 0 <= i < |r| ==> (IsSpace(r[i]) ==> r[i] == ' ')
    ensures |s| > 0 ==> |r| > 0 && (IsSpace(s[0]) <==> r[0] == ' ')
    decreases |s|
  {
    if |s| == 0 then ""
    else if IsSpace(s[0]) then " " + CollapseSpaces(LStrip(s[1..], Whitespace))
    else [s[0]] + CollapseSpaces(s[1..])
  }

  /** Text whose whitespace is already single plain spaces is left alone. */
  lemma {:induction false} CollapseSpacesNoop(s: string)
    requires forall i :: 0 <= i < |s| ==> IsSpace(s[i]) ==> s[i] == ' '
    requires forall i :: 0 <= i < |s| - 1 ==> !(IsSpace(s[i]) && IsSpace(s[i + 1]))
    ensures CollapseSpaces(s) == s
    decreases |s|
  {
    if |s| > 0 {
      var t := s[1..];
      forall i | 0 <= i < |t|
        ensures IsSpace(t[i]) ==> t[i] == ' '
      {
        assert t[i] == s[i + 1];
      }
      forall i | 0 <= i < |t| - 1
        ensures !(IsSpace(t[i]) && IsSpace(t[i + 1]))
      {
        assert t[i] == s[i + 1] && t[i + 1] == s[i + 2];
      }
      CollapseSpacesNoop(t);
      assert s == [s[0]] + t;
      if IsSpace(s[0]) {
        assert |t| == 0 || !IsSpace(t[0]) by {
          if |t| > 0 {
            assert t[0] == s[1];
          }
        }
        if |t| > 0 {
          WhitespaceIsSpace(t[0]);
        }
        assert LStrip(t, Whitespace) == t;
        assert CollapseSpaces(s) == " " + CollapseSpaces(t);
      } else {
        assert CollapseSpaces(s) == [s[0]] + CollapseSpaces(t);
      }
    }
  }

  /** Python's `str.split()` without arguments: the maximal non-whitespace runs. */
  function Words(s: string): (r: seq<string>)
    ensures forall k :: 0 <= k < |r| ==> |r[k]| > 0
    decreases |s|
  {
    if |s| == 0 then []
    else if IsSpace(s[0]) then Words(s[1..])
    else
      var w := TakeWord(s);
      [w] + Words(s[|w|..])
  }

  /** The longest non-whitespace prefix of `s`. */
  function TakeWord(s: string): (r: string)
    ensures |r| <= |s| && r == s[..|r|]
    ensures forall i :: 0 <= i < |r| ==> !IsSpace(s[i])
    ensures |r| == |s| || IsSpace(s[|r|])
    ensures |s| > 0 && !IsSpace(s[0]) ==> |r| > 0
  {
    if |s| == 0 || IsSpace(s[0]) then "" else [s[0]] + TakeWord(s[1..])
  }

  /** `sep.join(parts)`. */
  function Join(sep: string, parts: seq<string>): (r: string)
    ensures |parts| == 0 ==> r == ""
    ensures |parts| == 1 ==> r == parts[0]
  {
    if |parts| == 0 then ""
    else if |parts| == 1 then parts[0]
    else parts[0] + sep + Join(sep, parts[1..])
  }

  lemma JoinFirst(sep: string, parts: seq<string>)
    requires |parts| > 0 && |parts[0]| > 0
    ensures |Join(sep, parts)| > 0 && Join(sep, parts)[0] == parts[0][0]
  {
  }

  lemma {:induction false} JoinLast(sep: string, parts: seq<string>)
    requires |parts| > 0 && |parts[|parts| - 1]| > 0
    ensures var j := Join(sep, parts);
            |j| > 0 && j[|j| - 1] == parts[|parts| - 1][|parts[|parts| - 1]| - 1]
    decreases |parts|
  {
    if |parts| > 1 {
      JoinLast(sep, parts[1..]);
    }
  }

  /** Python's `s.split(sep)` for a one-character separator. */
  function SplitOn(s: string, sep: char): (r: seq<string>)
    ensures |r| >= 1
    ensures forall k, i :: 0 <= k < |r| && 0 <= i < |r[k]| ==> r[k][i] != sep
    decreases |s|
  {
    if |s| == 0 then [""]
    else if s[0] == sep then [""] + SplitOn(s[1..], sep)
    else
      var rest := SplitOn(s[1..], sep);
      [[s[0]] + rest[0]] + rest[1..]
  }

  lemma {:induction false} JoinSplitOn(s: string, sep: char)
    ensures Join([sep], SplitOn(s, sep)) == s
    decreases |s|
  {
    if |s| > 0 {
      JoinSplitOn(s[1..], sep);
      var rest := SplitOn(s[1..], sep);
      if s[0] == sep {
        assert s == [sep] + s[1..];
      } else {
        if |rest| == 1 {
          assert s == [s[0]] + rest[0];
        } else {
          assert rest == [rest[0]] + rest[1..];
          assert Join([sep], rest) == rest[0] + [sep] + Join([sep], rest[1..]);
          assert s == [s[0]] + s[1..];
        }
      }
    }
  }

  lemma {:induction false} SplitOnPlain(a: string, sep: char)
    requires forall i :: 0 <= i < |a| ==> a[i] != sep
    ensures SplitOn(a, sep) == [a]
    decreases |a|
  {
    if |a| > 0 {
      SplitOnPlain(a[1..], sep);
      assert a == [a[0]] + a[1..];
    }
  }

  lemma {:induction false} SplitOnJoin(a: string, sep: char, b: string)
    requires forall i :: 0 <= i < |a| ==> a[i] != sep
    ensures SplitOn(a + [sep] + b, sep) == [a] + SplitOn(b, sep)
    decreases |a|
  {
    var s := a + [sep] + b;
    if |a| == 0 {
      assert s == [sep] + b;
      assert s[1..] == b;
    } else {
      assert s[1..] == a[1..] + [sep] + b;
      SplitOnJoin(a[1..], sep, b);
      assert a == [a[0]] + a[1..];
    }
  }

  /** Joining separator-free parts and splitting again gives the parts back. */
  lemma {:induction false} SplitOnJoinAll(parts: seq<string>, sep: char)
    requires |parts| > 0
    requires forall k, i :: 0 <= k < |parts| && 0 <= i < |parts[k]| ==> parts[k][i] != sep
    ensures SplitOn(Join([sep], parts), sep) == parts
    decreases |parts|
  {
    if |parts| == 1 {
      SplitOnPlain(parts[0], sep);
    } else {
      SplitOnJoinAll(parts[1..], sep);
      SplitOnJoin(parts[0], sep, Join([sep], parts[1..]));
    }
  }

  /** Replaces every non-overlapping occurrence of `pat` (scanning left to right) by `rep`. */
  function ReplaceAll(s: string, pat: string, rep: string): (r: string)
    requires |pat| > 0
    ensures !Contains(s, pat) ==> r == s
    decreases |s|
  {
    if |s| == 0 then ""
    else if StartsWith(s, pat) then rep + ReplaceAll(s[|pat|..], pat, rep)
    else
      var rest := ReplaceAll(s[1..], pat, rep);
      [s[0]] + rest
  }

  predicate AllDigits(s: string) {
    forall i :: 0 <= i < |s| ==> IsDigit(s[i])
  }

  /** Python's `s.isdigit()` on ASCII: non-empty and all digits. */
  predicate IsDigitString(s: string) {
    |s| > 0 && AllDigits(s)
  }

  function DigitValue(c: char): nat
    requires IsDigit(c)
  {
    c as int - '0' as int
  }

  /** The decimal value of a digit string (Python's `int(s)`). */
  function DigitsValue(s: string): (r: nat)
    requires AllDigits(s)
    ensures |s| == 0 ==> r == 0
  {
    if |s| == 0 then 0 else DigitsValue(s[..|s| - 1]) * 10 + DigitValue(s[|s| - 1])
  }

  /** One or two digits never spell a number of three digits. */
  lemma DigitsBelow100(s: string)
    requires AllDigits(s) && |s| <= 2
    ensures DigitsValue(s) < 100
  {
    if |s| == 2 {
      assert DigitsValue(s[..1][..0]) == 0;
    }
  }

  function DigitChar(d: nat): (c: char)
    requires d < 10
    ensures IsDigit(c) && DigitValue(c) == d
  {
    ('0' as int + d) as char
  }

  /** Decimal rendering of a natural number (`str(n)`). */
  function NatToString(n: nat): (r: string)
    ensures |r| > 0 && AllDigits(r)
    ensures DigitsValue(r) == n
    ensures n < 10 ==> |r| == 1
    ensures n >= 10 ==> |r| >= 2
    ensures n < 100 ==> |r| <= 2
    decreases n
  {
    if n < 10 then [DigitChar(n)]
    else
      var p := NatToString(n / 10);
      var r := p + [DigitChar(n % 10)];
      assert r[..|r| - 1] == p;
      r
  }

  /** Decimal rendering of an integer (`str(n)`). */
  function IntToString(n: int): (r: string)
    ensures n >= 0 ==> r == NatToString(n)
    ensures n < 0 ==> r == "-" + NatToString(-n)
  {
    if n >= 0 then NatToString(n) else "-" + NatToString(-n)
  }

  /** Python's `f"{n:02d}"`: zero-padded to at least two digits (the sign counts as a digit place). */
  function Pad2(n: int): (r: string)
    ensures |r| >= 2
    ensures 0 <= n ==> AllDigits(r) && DigitsValue(r) == n
    ensures 0 <= n < 100 ==> |r| == 2
  {
    if 0 <= n < 10 then
      var r := "0" + NatToString(n);
      assert r[..1] == "0";
      r
    else if -10 < n < 0 then "-" + NatToString(-n)
    else IntToString(n)
  }

  // ---------------------------------------------------------------------------
  // Backslash escaping

  /** Puts a backslash before every character of `special`. */
  function Escape(s: string, special: set<char>): (r: string)
    ensures |r| >= |s|
    ensures (forall k :: 0 <= k < |s| ==> s[k] !in special) ==> r == s
  {
    if |s| == 0 then ""
    else (if s[0] in special then ['\\', s[0]] else [s[0]]) + Escape(s[1..], special)
  }

  /** Reads escaped text back: a backslash before a special character is dropped. */
  function Unescape(t: string, special: set<char>): (r: string)
    ensures |r| <= |t|
  {
    if |t| >= 2 && t[0] == '\\' && t[1] in special then [t[1]] + Unescape(t[2..], special)
    else if |t| == 0 then ""
    else [t[0]] + Unescape(t[1..], special)
  }

  /** Escaping loses nothing: the escaped text reads back as the original. */
  lemma {:induction false} UnescapeEscape(s: string, special: set<char>)
    ensures Unescape(Escape(s, special), special) == s
    decreases |s|
  {
    if |s| > 0 {
      UnescapeEscape(s[1..], special);
      var rest := Escape(s[1..], special);
      if s[0] in special {
        assert Escape(s, special) == ['\\', s[0]] + rest;
        assert (['\\', s[0]] + rest)[2..] == rest;
      } else {
        assert Escape(s, special) == [s[0]] + rest;
        assert ([s[0]] + rest)[1..] == rest;
        if s[0] == '\\' && |rest| > 0 {
          EscapeHead(s[1..], special);
        }
      }
      assert s == [s[0]] + s[1..];
    }
  }

  /** Escaped text never starts with a bare special character. */
  lemma EscapeHead(s: string, special: set<char>)
    requires |Escape(s, special)| > 0
    ensures Escape(s, special)[0] !in special || Escape(s, special)[0] == '\\'
  {
  }

  /** In escaped text every special character other than a backslash is
      preceded by a backslash. */
  predicate Guarded(r: string, special: set<char>) {
    forall k :: 0 <= k < |r| && r[k] in special && r[k] != '\\' ==> k > 0 && r[k - 1] == '\\'
  }

  lemma {:induction false} EscapedIsGuarded(s: string, special: set<char>)
    ensures Guarded(Escape(s, special), special)
    decreases |s|
  {
    if |s| > 0 {
      EscapedIsGuarded(s[1..], special);
      var rest := Escape(s[1..], special);
      var head: string := if s[0] in special then ['\\', s[0]] else [s[0]];
      var r := head + rest;
      assert Escape(s, special) == r;
      forall k | 0 <= k < |r| && r[k] in special && r[k] != '\\'
        ensures k > 0 && r[k - 1] == '\\'
      {
        if k < |head| {
          assert r[k] == head[k];
          if s[0] in special {
            assert k == 1 && r[0] == '\\';
          }
        } else {
          assert r[k] == rest[k - |head|];
          if k - |head| > 0 {
            assert r[k - 1] == rest[k - |head| - 1];
          } else {
            assert false;
          }
        }
      }
    }
  }
}
