/** The parts of Python's text built-ins that the colouring checker relies on: `str.isspace`,
    `str.strip()`, `str.split()`, `str.split(sep)`, `str.startswith`, `int(text)` and `str(n)`.
    Python strings are sequences of code points, modelled as `seq<char>`; Python integers are
    unbounded, like Dafny's `int`. */
module PyText {
  datatype Option<T> = None | Some(value: T)

  /** `c.isspace()`: the code points Python classes as whitespace. */
  predicate IsSpace(c: char): (r: bool)
    ensures c == ' ' || c == '\t' || c == '\n' || c == '\r' ==> r
    ensures r ==> !IsDigit(c) && c != '-' && c != '+' && c != '_'
  {
    c == ' ' || '\t' <= c <= '\r' || '\U{1c}' <= c <= '\U{1f}' || c == '\U{85}' || c == '\U{a0}' ||
    c == '\U{1680}' || '\U{2000}' <= c <= '\U{200a}' || c == '\U{2028}' || c == '\U{2029}' ||
    c == '\U{202f}' || c == '\U{205f}' || c == '\U{3000}'
  }

  predicate AllSpace(s: string)
  {
    forall i :: 0 <= i < |s| ==> IsSpace(s[i])
  }

  predicate NoSpace(s: string)
  {
    forall i :: 0 <= i < |s| ==> !IsSpace(s[i])
  }

  /** `s.startswith(c)` for a one-character prefix. */
  predicate StartsWith(s: string, c: char)
  {
    |s| > 0 && s[0] == c
  }

  // ---------------------------------------------------------------------------------------
  // strip

  /** The end of the run of whitespace that starts at i. */
  function SpaceFrom(s: string, i: nat): (j: nat)
    requires i <= |s|
    ensures i <= j <= |s| && (j == |s| || !IsSpace(s[j]))
    decreases |s| - i
  {
    if i < |s| && IsSpace(s[i]) then SpaceFrom(s, i + 1) else i
  }

  /** The start of the run of whitespace that ends just before j. */
  function SpaceBefore(s: string, j: nat): (i: nat)
    requires j <= |s|
    ensures i <= j && (i == 0 || !IsSpace(s[i - 1]))
  {
    if j > 0 && IsSpace(s[j - 1]) then SpaceBefore(s, j - 1) else j
  }

  /** Everything `SpaceFrom` skips is whitespace. */
  lemma {:induction false} SpaceFromRun(s: string, i: nat)
    requires i <= |s|
    ensures forall t :: i <= t < SpaceFrom(s, i) ==> IsSpace(s[t])
    decreases |s| - i
  {
    if i < |s| && IsSpace(s[i]) {
      SpaceFromRun(s, i + 1);
    }
  }

  /** Everything `SpaceBefore` skips is whitespace. */
  lemma {:induction false} SpaceBeforeRun(s: string, j: nat)
    requires j <= |s|
    ensures forall t :: SpaceBefore(s, j) <= t < j ==> IsSpace(s[t])
  {
    if j > 0 && IsSpace(s[j - 1]) {
      SpaceBeforeRun(s, j - 1);
    }
  }

  /** `s.lstrip()`: the suffix of s left after dropping the leading whitespace. */
  function StripLeft(s: string): (r: string)
    ensures |r| <= |s| && r == s[|s| - |r|..]
    ensures |r| == 0 || !IsSpace(r[0])
  {
    s[SpaceFrom(s, 0)..]
  }

  /** `s.rstrip()`: the prefix of s left after dropping the trailing whitespace. */
  function StripRight(s: string): (r: string)
    ensures |r| <= |s| && r == s[..|r|]
    ensures |r| == 0 || !IsSpace(r[|r| - 1])
  {
    s[..SpaceBefore(s, |s|)]
  }

  /** `lstrip` drops only whitespace. */
  lemma StripLeftDrops(s: string)
    ensures AllSpace(s[..|s| - |StripLeft(s)|])
  {
    SpaceFromRun(s, 0);
  }

  /** `rstrip` drops only whitespace. */
  lemma StripRightDrops(s: string)
    ensures AllSpace(s[|StripRight(s)|..])
  {
    SpaceBeforeRun(s, |s|);
  }

  /** `s.strip()`: s without its leading and trailing whitespace. */
  function Strip(s: string): (r: string)
    ensures |r| <= |s|
    ensures |r| == 0 || (!IsSpace(r[0]) && !IsSpace(r[|r| - 1]))
  {
    StripRight(StripLeft(s))
  }

  /** A string that starts and ends with non-whitespace is its own `strip()`. */
  lemma StripKeeps(s: string)
    requires |s| == 0 || (!IsSpace(s[0]) && !IsSpace(s[|s| - 1]))
    ensures Strip(s) == s
  {
    StripLeftKeeps(s);
    StripRightKeeps(s);
  }

  lemma StripLeftKeeps(s: string)
    requires |s| == 0 || !IsSpace(s[0])
    ensures StripLeft(s) == s
  {
  }

  lemma StripRightKeeps(s: string)
    requires |s| == 0 || !IsSpace(s[|s| - 1])
    ensures StripRight(s) == s
  {
  }

  // ---------------------------------------------------------------------------------------
  // split()

  /** The length of the longest prefix of s without whitespace. */
  function WordLength(s: string): (k: nat)
    ensures k <= |s| && NoSpace(s[..k]) && (k == |s| || IsSpace(s[k]))
  {
    if |s| == 0 || IsSpace(s[0]) then 0
    else
      var k := WordLength(s[1..]);
      assert s[..1 + k] == [s[0]] + s[1..][..k];
      1 + k
  }

  /** `s.split()`: the maximal runs of non-whitespace characters of s, in order. */
  function Split(s: string): (r: seq<string>)
    ensures forall i :: 0 <= i < |r| ==> |r[i]| > 0 && NoSpace(r[i])
    decreases |s|
  {
    if |s| == 0 then []
    else if IsSpace(s[0]) then Split(s[1..])
    else
      var k := WordLength(s);
      [s[..k]] + Split(s[k..])
  }

  /** `sep.join(parts)`. */
  function Join(parts: seq<string>, sep: string): string
  {
    if |parts| == 0 then ""
    else if |parts| == 1 then parts[0]
    else parts[0] + sep + Join(parts[1..], sep)
  }

  /** Text after a word's end does not change where the word ends. */
  lemma {:induction false} WordLengthAppend(a: string, t: string)
    requires WordLength(a) < |a| || (|t| > 0 && IsSpace(t[0]))
    ensures WordLength(a + t) == WordLength(a)
  {
    if |a| > 0 && !IsSpace(a[0]) {
      assert (a + t)[1..] == a[1..] + t;
      WordLengthAppend(a[1..], t);
    }
  }

  /** Whitespace alone splits into nothing. */
  lemma {:induction false} SplitAllSpace(s: string)
    requires AllSpace(s)
    ensures Split(s) == []
    decreases |s|
  {
    if |s| > 0 {
      SplitAllSpace(s[1..]);
    }
  }

  /** `Split` on a string that starts with a word of length k: that word, then the words of
      the rest. */
  lemma SplitWord(s: string, k: nat)
    requires |s| > 0 && !IsSpace(s[0]) && k == WordLength(s)
    ensures Split(s) == [s[..k]] + Split(s[k..])
  {
  }

  lemma SliceAppend<T>(a: seq<T>, t: seq<T>, k: nat)
    requires k <= |a|
    ensures (a + t)[..k] == a[..k] && (a + t)[k..] == a[k..] + t
  {
  }

  lemma ConcatAssoc<T>(x: seq<T>, y: seq<T>, z: seq<T>)
    ensures x + (y + z) == (x + y) + z
  {
  }

  /** The step of `SplitAround` for an a that starts with a word of length k. */
  lemma SplitAroundWord(a: string, t: string, k: nat)
    requires |t| > 0 && IsSpace(t[0]) && |a| > 0 && !IsSpace(a[0]) && k == WordLength(a)
    requires Split(a[k..] + t) == Split(a[k..]) + Split(t[1..])
    ensures Split(a + t) == Split(a) + Split(t[1..])
  {
    WordLengthAppend(a, t);
    SliceAppend(a, t, k);
    SplitWord(a + t, k);
    SplitWord(a, k);
    ConcatAssoc([a[..k]], Split(a[k..]), Split(t[1..]));
  }

  /** A whitespace character separates: the words of a, then those after the character. */
  lemma {:induction false} SplitAround(a: string, t: string)
    requires |t| > 0 && IsSpace(t[0])
    ensures Split(a + t) == Split(a) + Split(t[1..])
    decreases |a|
  {
    if |a| == 0 {
      assert a + t == t;
    } else if IsSpace(a[0]) {
      assert (a + t)[1..] == a[1..] + t;
      SplitAround(a[1..], t);
    } else {
      var k := WordLength(a);
      SplitAround(a[k..], t);
      SplitAroundWord(a, t, k);
    }
  }

  /** Leading whitespace does not change the words. */
  lemma {:induction false} SplitLeading(sp: string, y: string)
    requires AllSpace(sp)
    ensures Split(sp + y) == Split(y)
    decreases |sp|
  {
    if |sp| > 0 {
      assert (sp + y)[0] == sp[0];
      assert (sp + y)[1..] == sp[1..] + y;
      SplitLeading(sp[1..], y);
    } else {
      assert sp + y == y;
    }
  }

  /** Trailing whitespace does not change the words. */
  lemma SplitTrailing(y: string, sp: string)
    requires AllSpace(sp)
    ensures Split(y + sp) == Split(y)
  {
    if |sp| > 0 {
      SplitAround(y, sp);
      SplitAllSpace(sp[1..]);
    } else {
      assert y + sp == y;
    }
  }

  /** `s.lstrip().split()` is `s.split()`. */
  lemma SplitStripLeft(s: string)
    ensures Split(StripLeft(s)) == Split(s)
  {
    var l := StripLeft(s);
    StripLeftDrops(s);
    assert s == s[..|s| - |l|] + l;
    SplitLeading(s[..|s| - |l|], l);
  }

  /** `s.rstrip().split()` is `s.split()`. */
  lemma SplitStripRight(s: string)
    ensures Split(StripRight(s)) == Split(s)
  {
    var r := StripRight(s);
    StripRightDrops(s);
    assert s == r + s[|r|..];
    SplitTrailing(r, s[|r|..]);
  }

  /** `s.strip().split()` is `s.split()`. */
  lemma SplitStrip(s: string)
    ensures Split(Strip(s)) == Split(s)
  {
    SplitStripLeft(s);
    SplitStripRight(StripLeft(s));
  }

  /** Words joined by single spaces split back into the same words. */
  lemma {:induction false} SplitJoin(ws: seq<string>)
    requires forall i :: 0 <= i < |ws| ==> |ws[i]| > 0 && NoSpace(ws[i])
    ensures Split(Join(ws, " ")) == ws
  {
    if |ws| == 1 {
      var w := ws[0];
      assert Join(ws, " ") == w;
      assert WordLength(w) == |w|;
      assert w[..|w|] == w && w[|w|..] == "";
      assert Split(w) == [w[..|w|]] + Split(w[|w|..]);
    } else if |ws| > 1 {
      var w, rest := ws[0], Join(ws[1..], " ");
      SplitJoin(ws[1..]);
      assert Join(ws, " ") == w + (" " + rest);
      SplitAround(w, " " + rest);
      assert (" " + rest)[1..] == rest;
      assert WordLength(w) == |w|;
      assert w[..|w|] == w && w[|w|..] == "";
      assert Split(w) == [w[..|w|]] + Split(w[|w|..]);
    }
  }

  /** Nonempty parts joined: the text starts with the first part's first character and ends
      with the last part's last character. */
  lemma {:induction false} JoinEnds(parts: seq<string>, sep: string)
    requires |parts| > 0 && forall i :: 0 <= i < |parts| ==> |parts[i]| > 0
    ensures var j := Join(parts, sep);
      |j| > 0 && j[0] == parts[0][0] && j[|j| - 1] == parts[|parts| - 1][|parts[|parts| - 1]| - 1]
  {
    if |parts| > 1 {
      var rest := parts[1..];
      var last := parts[|parts| - 1];
      assert rest[|rest| - 1] == last;
      assert forall i :: 0 <= i < |rest| ==> rest[i] == parts[i + 1];
      JoinEnds(rest, sep);
      var j, jr := Join(parts, sep), Join(rest, sep);
      assert j == parts[0] + sep + jr;
      assert j[0] == parts[0][0];
      assert j[|j| - 1] == jr[|jr| - 1];
    }
  }

  /** Words joined by single spaces: the text is its own `strip()`, starts with the first
      word's first character, and splits back into the words. */
  lemma JoinedWords(ws: seq<string>)
    requires |ws| > 0 && forall i :: 0 <= i < |ws| ==> |ws[i]| > 0 && NoSpace(ws[i])
    ensures var line := Join(ws, " ");
      Strip(line) == line && |line| > 0 && line[0] == ws[0][0] && Split(line) == ws
  {
    var line := Join(ws, " ");
    JoinEnds(ws, " ");
    var last := ws[|ws| - 1];
    assert !IsSpace(last[|last| - 1]);
    StripKeeps(line);
    SplitJoin(ws);
  }

  // ---------------------------------------------------------------------------------------
  // split(sep)

  /** The index of the first sep in s, or |s| if there is none. */
  function IndexOf(s: string, sep: char): (k: nat)
    ensures k <= |s| && sep !in s[..k] && (k == |s| || s[k] == sep)
  {
    if |s| == 0 || s[0] == sep then 0
    else
      var k := IndexOf(s[1..], sep);
      assert s[..1 + k] == [s[0]] + s[1..][..k];
      1 + k
  }

  /** `s.split(sep)` for a one-character separator: the pieces between the separators, empty
      pieces included, so there is always one more piece than there are separators. */
  function SplitOn(s: string, sep: char): (r: seq<string>)
    ensures |r| >= 1
    ensures forall i :: 0 <= i < |r| ==> sep !in r[i]
    decreases |s|
  {
    var k := IndexOf(s, sep);
    if k == |s| then [s] else [s[..k]] + SplitOn(s[k + 1..], sep)
  }

  /** Joining the pieces with the separator gives back the string. */
  lemma {:induction false} JoinSplitOn(s: string, sep: char)
    ensures Join(SplitOn(s, sep), [sep]) == s
    decreases |s|
  {
    var k := IndexOf(s, sep);
    if k < |s| {
      var rest := SplitOn(s[k + 1..], sep);
      JoinSplitOn(s[k + 1..], sep);
      assert SplitOn(s, sep) == [s[..k]] + rest;
      JoinCons(s[..k], rest, [sep]);
      SliceAround(s, k);
    } else {
      assert s[..k] == s;
    }
  }

  /** `sep.join([x] + parts)` for at least one more part. */
  lemma JoinCons(x: string, parts: seq<string>, sep: string)
    requires |parts| >= 1
    ensures Join([x] + parts, sep) == x + sep + Join(parts, sep)
  {
    assert ([x] + parts)[1..] == parts;
  }

  lemma SliceAround<T>(s: seq<T>, k: nat)
    requires k < |s|
    ensures s == s[..k] + [s[k]] + s[k + 1..]
  {
  }

  /** A string without the separator is a single piece. */
  lemma SplitOnNone(s: string, sep: char)
    requires sep !in s
    ensures SplitOn(s, sep) == [s]
  {
    assert s[..|s|] == s;
  }

  // ---------------------------------------------------------------------------------------
  // int() and str()

  predicate IsDigit(c: char)
  {
    '0' <= c <= '9'
  }

  /** Decimal digits with single underscores allowed between two digits, as `int` accepts. */
  predicate DigitGroups(s: string)
  {
    |s| > 0 && IsDigit(s[0]) && IsDigit(s[|s| - 1]) &&
    forall i :: 0 <= i < |s| ==> IsDigit(s[i]) || (s[i] == '_' && i + 1 < |s| && IsDigit(s[i + 1]))
  }

  /** The value of a digit string, underscores skipped. */
  function DigitsValue(s: string): (v: nat)
  {
    if |s| == 0 then 0
    else if IsDigit(s[|s| - 1]) then DigitsValue(s[..|s| - 1]) * 10 + (s[|s| - 1] - '0') as int
    else DigitsValue(s[..|s| - 1])
  }

  /** `int(text)` in base 10: surrounding whitespace is ignored, then an optional sign and the
      digits; anything else raises `ValueError`, modelled as `None`. */
  function ParseInt(text: string): (r: Option<int>)
    ensures r.Some? ==> |Strip(text)| > 0 && NoSpace(Strip(text))
  {
    AcceptedNoSpace(Strip(text));
    ParseStripped(Strip(text))
  }

  /** Text that `int` accepts is one word: a sign, digits and underscores. */
  lemma AcceptedNoSpace(b: string)
    ensures ParseStripped(b).Some? ==> |b| > 0 && NoSpace(b)
  {
    if |b| > 0 && (b[0] == '-' || b[0] == '+') {
      if DigitGroups(b[1..]) {
        forall i | 0 <= i < |b|
          ensures !IsSpace(b[i])
        {
          if i > 0 {
            DigitGroupsChar(b[1..], i - 1);
            assert b[i] == b[1..][i - 1];
          }
        }
      }
    } else if DigitGroups(b) {
      forall i | 0 <= i < |b|
        ensures !IsSpace(b[i])
      {
        DigitGroupsChar(b, i);
      }
    }
  }

  /** Every character of a digit string is a digit or an underscore. */
  lemma DigitGroupsChar(s: string, i: int)
    requires DigitGroups(s) && 0 <= i < |s|
    ensures IsDigit(s[i]) || s[i] == '_'
  {
    if i + 1 < |s| {
      assert IsDigit(s[i]) || (s[i] == '_' && IsDigit(s[i + 1]));
    }
  }

  /** `int` on text without surrounding whitespace. */
  function ParseStripped(b: string): Option<int>
  {
    if |b| > 0 && (b[0] == '-' || b[0] == '+') then
      if DigitGroups(b[1..]) then
        var v: int := DigitsValue(b[1..]);
        Some(if b[0] == '-' then -v else v)
      else None
    else if DigitGroups(b) then
      Some(DigitsValue(b))
    else None
  }

  /** The decimal digits of n, most significant first, without leading zeros. */
  function Digits(n: nat): (s: string)
    ensures |s| > 0 && forall i :: 0 <= i < |s| ==> IsDigit(s[i])
    ensures |s| > 1 ==> s[0] != '0'
  {
    var d := ['0' + (n % 10) as char];
    if n < 10 then d else Digits(n / 10) + d
  }

  /** `str(n)`. */
  function IntToString(n: int): (s: string)
    ensures |s| > 0 && NoSpace(s) && !IsSpace(s[0]) && IsDigit(s[|s| - 1])
  {
    if n < 0 then "-" + Digits(-n) else Digits(n)
  }

  /** Reading the digits of n back gives n. */
  lemma {:induction false} DigitsValueOf(n: nat)
    ensures DigitGroups(Digits(n)) && DigitsValue(Digits(n)) == n
  {
    var s := Digits(n);
    if n >= 10 {
      DigitsValueOf(n / 10);
      assert s[..|s| - 1] == Digits(n / 10);
    }
  }

  lemma ParseIntUnsigned(b: string)
    requires DigitGroups(b)
    ensures ParseStripped(b) == Some(DigitsValue(b))
  {
    assert IsDigit(b[0]);
  }

  lemma ParseIntNegative(b: string, v: int)
    requires |b| > 0 && b[0] == '-' && DigitGroups(b[1..]) && v == DigitsValue(b[1..])
    ensures ParseStripped(b) == Some(-v)
  {
  }

  lemma ParseIntPositive(b: string)
    requires |b| > 0 && b[0] == '+' && DigitGroups(b[1..])
    ensures ParseStripped(b) == Some(DigitsValue(b[1..]))
  {
  }

  /** `int(str(n)) == n` for every integer n. */
  lemma ParseIntToString(n: int)
    ensures ParseInt(IntToString(n)) == Some(n)
  {
    var s := IntToString(n);
    StripKeeps(s);
    if n < 0 {
      DigitsValueOf(-n);
      assert s[1..] == Digits(-n);
      ParseIntNegative(s, -n);
    } else {
      DigitsValueOf(n);
      ParseIntUnsigned(s);
    }
  }

  /** A digit string has no surrounding whitespace. */
  lemma DigitsStripped(d: string)
    requires DigitGroups(d)
    ensures Strip(d) == d
  {
    StripKeeps(d);
  }

  lemma {:induction false} DigitsValueZero(d: string)
    ensures DigitsValue("0" + d) == DigitsValue(d)
  {
    var t := "0" + d;
    if |d| == 0 {
      assert t[..0] == "";
    } else {
      assert t[..|t| - 1] == "0" + d[..|d| - 1];
      DigitsValueZero(d[..|d| - 1]);
    }
  }

  lemma {:induction false} DigitsValueUnderscore(a: string, b: string)
    ensures DigitsValue(a + "_" + b) == DigitsValue(a + b)
  {
    var t := a + "_" + b;
    if |b| == 0 {
      assert t[..|t| - 1] == a && a + b == a;
    } else {
      assert t[..|t| - 1] == a + "_" + b[..|b| - 1];
      assert (a + b)[..|a + b| - 1] == a + b[..|b| - 1];
      DigitsValueUnderscore(a, b[..|b| - 1]);
    }
  }

  /** `int` accepts leading zeros: they do not change the value. */
  lemma ParseIntLeadingZero(d: string)
    requires DigitGroups(d)
    ensures ParseInt("0" + d) == ParseInt(d) == Some(DigitsValue(d))
  {
    var t := "0" + d;
    forall i | 0 <= i < |t|
      ensures IsDigit(t[i]) || (t[i] == '_' && i + 1 < |t| && IsDigit(t[i + 1]))
    {
      if i > 0 {
        assert t[i] == d[i - 1];
        assert i + 1 < |t| ==> t[i + 1] == d[i];
      }
    }
    assert t[|t| - 1] == d[|d| - 1];
    DigitsStripped(d);
    DigitsStripped(t);
    DigitsValueZero(d);
    ParseIntUnsigned(d);
    ParseIntUnsigned(t);
  }

  /** `int` accepts a minus sign in front of the digits. */
  lemma ParseIntMinus(d: string)
    requires DigitGroups(d)
    ensures ParseInt("-" + d) == Some(-(DigitsValue(d) as int))
  {
    var m := "-" + d;
    assert m[1..] == d;
    assert m[|m| - 1] == d[|d| - 1];
    StripKeeps(m);
    ParseIntNegative(m, DigitsValue(d));
  }

  /** `int` accepts a plus sign in front of the digits. */
  lemma ParseIntPlus(d: string)
    requires DigitGroups(d)
    ensures ParseInt("+" + d) == Some(DigitsValue(d))
  {
    var p := "+" + d;
    assert p[1..] == d;
    assert p[|p| - 1] == d[|d| - 1];
    StripKeeps(p);
    ParseIntPositive(p);
  }

  lemma DigitGroupsUnderscore(a: string, b: string)
    requires DigitGroups(a) && DigitGroups(b)
    ensures DigitGroups(a + "_" + b)
  {
    var t := a + "_" + b;
    forall i | 0 <= i < |t|
      ensures IsDigit(t[i]) || (t[i] == '_' && i + 1 < |t| && IsDigit(t[i + 1]))
    {
      if i < |a| {
        assert t[i] == a[i];
        assert i + 1 < |a| ==> t[i + 1] == a[i + 1];
      } else if i == |a| {
        assert t[i] == '_' && t[i + 1] == b[0];
      } else {
        assert t[i] == b[i - |a| - 1];
        assert i + 1 < |t| ==> t[i + 1] == b[i - |a|];
      }
    }
    assert t[0] == a[0] && t[|t| - 1] == b[|b| - 1];
  }

  lemma DigitGroupsConcat(a: string, b: string)
    requires DigitGroups(a) && DigitGroups(b)
    ensures DigitGroups(a + b)
  {
    var u := a + b;
    forall i | 0 <= i < |u|
      ensures IsDigit(u[i]) || (u[i] == '_' && i + 1 < |u| && IsDigit(u[i + 1]))
    {
      if i < |a| {
        assert u[i] == a[i];
        assert i + 1 < |a| ==> u[i + 1] == a[i + 1];
      } else {
        assert u[i] == b[i - |a|];
        assert i + 1 < |u| ==> u[i + 1] == b[i - |a| + 1];
      }
    }
    assert u[0] == a[0] && u[|u| - 1] == b[|b| - 1];
  }

  /** `int` accepts a single underscore between two digits and skips it. */
  lemma ParseIntUnderscore(a: string, b: string)
    requires DigitGroups(a) && DigitGroups(b)
    ensures ParseInt(a + "_" + b) == ParseInt(a + b) == Some(DigitsValue(a + b))
  {
    var t, u := a + "_" + b, a + b;
    DigitGroupsUnderscore(a, b);
    DigitGroupsConcat(a, b);
    DigitsStripped(t);
    DigitsStripped(u);
    DigitsValueUnderscore(a, b);
    ParseIntUnsigned(t);
    ParseIntUnsigned(u);
  }

  /** `int` rejects a doubled underscore. */
  lemma ParseIntRejectsDouble()
    ensures ParseInt("1__0") == None
  {
    StripKeeps("1__0");
    assert !IsDigit("1__0"[1]) && !IsDigit("1__0"[2]);
  }

  /** `int` rejects a bare sign. */
  lemma ParseIntRejectsSign()
    ensures ParseInt("-") == None
  {
    StripKeeps("-");
    assert "-"[1..] == "";
  }
}
