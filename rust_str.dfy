/**
 * The `str` operations of Rust's standard library that the registry codec,
 * the script injection and the mermaid post-processing rely on: `trim`,
 * `split(char)`, `parse::<uN>`, integer `Display`, `contains`, `replace`
 * and `lines`.
 */
module RustStr {
  import opened RustCore

  // ---------------------------------------------------------------------------
  // trim

  /** Unicode White_Space, the class of characters `str::trim` removes. */
  predicate IsWhitespace(c: char) {
    ('\t' <= c <= '\r') || c == ' ' || c == '\U{85}' || c == '\U{A0}' || c == '\U{1680}'
    || ('\U{2000}' <= c <= '\U{200A}') || c == '\U{2028}' || c == '\U{2029}'
    || c == '\U{202F}' || c == '\U{205F}' || c == '\U{3000}'
  }

  predicate AllWhitespace(s: string) {
    forall i :: 0 <= i < |s| ==> IsWhitespace(s[i])
  }

  /** `str::trim_start`: the longest suffix of `s` that does not begin with whitespace. */
  function TrimStart(s: string): (r: string)
    ensures |r| <= |s| && r == s[|s| - |r|..]
    ensures forall i :: 0 <= i < |s| - |r| ==> IsWhitespace(s[i])
    ensures r == [] || !IsWhitespace(r[0])
  {
    if s != [] && IsWhitespace(s[0]) then
      var r := TrimStart(s[1..]);
      assert s[1..][|s| - 1 - |r|..] == s[|s| - |r|..];
      assert forall i :: 1 <= i < |s| ==> s[i] == s[1..][i - 1];
      r
    else
      s
  }

  /** `str::trim_end`: the longest prefix of `s` that does not end with whitespace. */
  function TrimEnd(s: string): (r: string)
    ensures |r| <= |s| && r == s[..|r|]
    ensures forall i :: |r| <= i < |s| ==> IsWhitespace(s[i])
    ensures r == [] || !IsWhitespace(r[|r| - 1])
  {
    if s != [] && IsWhitespace(s[|s| - 1]) then
      var r := TrimEnd(s[..|s| - 1]);
      assert s[..|s| - 1][..|r|] == s[..|r|];
      assert forall i :: 0 <= i < |s| - 1 ==> s[i] == s[..|s| - 1][i];
      r
    else
      s
  }

  /** `str::trim`: `s` with its leading and trailing whitespace removed. */
  function Trim(s: string): (r: string)
    ensures r == [] || (!IsWhitespace(r[0]) && !IsWhitespace(r[|r| - 1]))
  {
    var t := TrimStart(s);
    var r := TrimEnd(t);
    assert r != [] ==> r[0] == t[0];
    r
  }

  /**
   * What `Trim` keeps is a middle part of `s`, and what it drops on either
   * side is all whitespace.
   */
  lemma TrimIsMiddle(s: string)
    ensures var r, k := Trim(s), |s| - |TrimStart(s)|;
      && k + |r| <= |s| && r == s[k..k + |r|]
      && (forall i :: 0 <= i < k ==> IsWhitespace(s[i]))
      && (forall i :: k + |r| <= i < |s| ==> IsWhitespace(s[i]))
  {
    hide TrimStart, TrimEnd, IsWhitespace;
    var t := TrimStart(s);
    var r := TrimEnd(t);
    var k := |s| - |t|;
    assert t == s[k..];
    assert r == t[..|r|];
    forall i | k + |r| <= i < |s|
      ensures IsWhitespace(s[i])
    {
      assert s[i] == t[i - k];
    }
  }

  /** Surrounding whitespace is exactly what `Trim` strips. */
  lemma {:induction false} TrimStartPadded(w: string, x: string)
    requires AllWhitespace(w)
    requires x == [] || !IsWhitespace(x[0])
    ensures TrimStart(w + x) == x
  {
    if w != [] {
      assert (w + x)[1..] == w[1..] + x;
      TrimStartPadded(w[1..], x);
    } else {
      assert w + x == x;
    }
  }

  lemma {:induction false} TrimEndPadded(x: string, w: string)
    requires AllWhitespace(w)
    requires x == [] || !IsWhitespace(x[|x| - 1])
    ensures TrimEnd(x + w) == x
  {
    if w != [] {
      assert (x + w)[..|x + w| - 1] == x + w[..|w| - 1];
      TrimEndPadded(x, w[..|w| - 1]);
    } else {
      assert x + w == x;
    }
  }

  lemma TrimPadded(a: string, x: string, b: string)
    requires AllWhitespace(a) && AllWhitespace(b)
    requires x == [] || (!IsWhitespace(x[0]) && !IsWhitespace(x[|x| - 1]))
    ensures Trim(a + x + b) == x
  {
    if x == [] {
      assert AllWhitespace(a + b);
      TrimStartPadded(a + b, []);
      assert a + x + b == (a + b) + [];
      assert TrimStart(a + x + b) == [];
    } else {
      assert a + x + b == a + (x + b);
      TrimStartPadded(a, x + b);
      TrimEndPadded(x, b);
    }
  }

  // ---------------------------------------------------------------------------
  // split on a character

  function IndexOf(s: string, c: char): (r: Option<nat>)
    ensures r.None? <==> c !in s
    ensures r.Some? ==> r.value < |s| && s[r.value] == c && c !in s[..r.value]
  {
    if s == [] then None
    else if s[0] == c then Some(0)
    else match IndexOf(s[1..], c)
      case None => None
      case Some(i) =>
        assert s[..i + 1] == [s[0]] + s[1..][..i];
        Some(i + 1)
  }

  /**
   * `str::split(sep)`: the pieces between the separators, one more piece than
   * there are separators, none containing the separator.
   */
  function Split(s: string, sep: char): (parts: seq<string>)
    ensures |parts| == multiset(s)[sep] + 1
    ensures forall i :: 0 <= i < |parts| ==> sep !in parts[i]
    decreases |s|
  {
    match IndexOf(s, sep)
    case None => [s]
    case Some(i) =>
      assert s == s[..i] + [sep] + s[i + 1..];
      [s[..i]] + Split(s[i + 1..], sep)
  }

  lemma SplitAround(a: string, sep: char, b: string)
    requires sep !in a && sep !in b
    ensures Split(a + [sep] + b, sep) == [a, b]
  {
    var s := a + [sep] + b;
    var k := IndexOf(s, sep);
    assert s[|a|] == sep;
    assert forall j :: 0 <= j < |a| ==> s[j] == a[j];
    assert k == Some(|a|);
    assert s[..|a|] == a;
    assert s[|a| + 1..] == b;
  }

  /** Two pieces means the text is the first piece, the separator, and the second piece. */
  lemma SplitPair(s: string, sep: char)
    requires |Split(s, sep)| == 2
    ensures s == Split(s, sep)[0] + [sep] + Split(s, sep)[1]
  {
    var i := IndexOf(s, sep).value;
    assert s == s[..i] + [sep] + s[i + 1..];
    assert IndexOf(s[i + 1..], sep).None?;
  }

  // ---------------------------------------------------------------------------
  // decimal integers

  predicate IsDigit(c: char) { '0' <= c <= '9' }

  predicate AllDigits(s: string) {
    forall i :: 0 <= i < |s| ==> IsDigit(s[i])
  }

  function DigitChar(d: nat): char
    requires d < 10
  {
    (d + '0' as int) as char
  }

  function DigitValue(c: char): nat
    requires IsDigit(c)
  {
    c as int - '0' as int
  }

  /** The value of a string of decimal digits, most significant first. */
  function DigitsValue(s: string): nat
    requires AllDigits(s)
  {
    if s == [] then 0 else 10 * DigitsValue(s[..|s| - 1]) + DigitValue(s[|s| - 1])
  }

  /**
   * `n.to_string()` for an unsigned integer: the shortest decimal numeral,
   * which denotes `n` and has no leading zero.
   */
  function DecimalString(n: nat): (s: string)
    ensures s != [] && AllDigits(s) && DigitsValue(s) == n
    ensures s[0] == '0' ==> s == "0"
    decreases n
  {
    if n < 10 then
      [DigitChar(n)]
    else
      var prefix := DecimalString(n / 10);
      var s := prefix + [DigitChar(n % 10)];
      assert s[..|s| - 1] == prefix;
      s
  }

  /**
   * `s.parse::<uN>()` where `limit` is 2^N: an optional `+`, then one or more
   * ASCII digits, denoting a value below `limit`. Leading zeros are accepted;
   * a `-`, whitespace or any other character is not.
   */
  function ParseUnsigned(s: string, limit: nat): (r: Option<nat>)
    ensures r.Some? ==> r.value < limit
    ensures s != [] && AllDigits(s) ==> r == if DigitsValue(s) < limit then Some(DigitsValue(s)) else None
    ensures s == [] || s == "+" ==> r.None?
    ensures r.Some? ==> forall i :: 0 <= i < |s| ==> IsDigit(s[i]) || (i == 0 && s[i] == '+')
  {
    var digits := if s != [] && s[0] == '+' then s[1..] else s;
    if digits != [] && AllDigits(digits) && DigitsValue(digits) < limit then
      assert forall i :: 0 < i < |s| ==> s[i] == digits[i - (|s| - |digits|)];
      Some(DigitsValue(digits))
    else
      None
  }

  /** `k` zero digits. */
  function Zeros(k: nat): (z: string)
    ensures |z| == k && AllDigits(z)
  {
    seq(k, _ => '0')
  }

  /** Leading zeros do not change the value of a numeral. */
  lemma {:induction false} LeadingZerosValue(k: nat, d: string)
    requires AllDigits(d)
    ensures AllDigits(Zeros(k) + d) && DigitsValue(Zeros(k) + d) == DigitsValue(d)
    decreases |d|
  {
    var s := Zeros(k) + d;
    assert AllDigits(s) by {
      assert forall i :: 0 <= i < |s| ==> s[i] == (if i < k then '0' else d[i - k]);
    }
    if d == [] {
      assert s == Zeros(k);
      ZerosValue(k);
    } else {
      LeadingZerosValue(k, d[..|d| - 1]);
      assert s[..|s| - 1] == Zeros(k) + d[..|d| - 1];
    }
  }

  lemma {:induction false} ZerosValue(k: nat)
    ensures DigitsValue(Zeros(k)) == 0
  {
    if k > 0 {
      ZerosValue(k - 1);
      assert Zeros(k)[..k - 1] == Zeros(k - 1);
    }
  }

  /**
   * `parse::<uN>` on an optional `+`, any number of leading zeros and the
   * numeral of `n`: the value `n` when it is below the limit, and an error
   * (overflow) otherwise. So "+04000" parses as 4000 and "70000" is no u16.
   */
  lemma ParseSignedZeros(sign: string, k: nat, n: nat, limit: nat)
    requires sign == "" || sign == "+"
    ensures ParseUnsigned(sign + Zeros(k) + DecimalString(n), limit) == if n < limit then Some(n) else None
  {
    hide DigitsValue, DecimalString, Zeros;
    var d := DecimalString(n);
    var s := sign + Zeros(k) + d;
    LeadingZerosValue(k, d);
    var digits := Zeros(k) + d;
    assert s[0] == '+' <==> sign == "+" by {
      if sign == "" {
        assert s[0] == digits[0];
      }
    }
    if sign == "+" {
      assert s[1..] == digits;
    } else {
      assert s == digits;
    }
  }

  /** Display and parse are inverse on every value below the limit. */
  lemma ParseDecimal(n: nat, limit: nat)
    requires n < limit
    ensures ParseUnsigned(DecimalString(n), limit) == Some(n)
  {
    var s := DecimalString(n);
    assert s[0] != '+';
  }

  // ---------------------------------------------------------------------------
  // substring search and replace

  predicate StartsWith(s: string, p: string) {
    |p| <= |s| && s[..|p|] == p
  }

  /** `str::contains(&str)`. */
  predicate Contains(s: string, p: string)
    decreases |s|
  {
    StartsWith(s, p) || (s != [] && Contains(s[1..], p))
  }

  /** `str::find(&str)`: the index of the leftmost occurrence of `p` in `s`. */
  function Find(s: string, p: string): (r: Option<nat>)
    ensures r.None? <==> !Contains(s, p)
    ensures r.Some? ==> r.value + |p| <= |s| && s[r.value..r.value + |p|] == p
    ensures r.Some? ==> forall j {:trigger StartsWith(s[j..], p)} :: 0 <= j < r.value ==> !StartsWith(s[j..], p)
    decreases |s|
  {
    if StartsWith(s, p) then Some(0)
    else if s == [] then None
    else match Find(s[1..], p)
      case None => None
      case Some(i) =>
        assert forall j :: 0 < j <= i ==> s[j..] == s[1..][j - 1..];
        Some(i + 1)
  }

  /**
   * `str::replace(from, to)`: scanning from the left, every match of `from`
   * that does not overlap an earlier match is replaced by `to`.
   */
  function ReplaceAll(s: string, from: string, to: string): string
    requires from != []
    decreases |s|
  {
    if |s| < |from| then s
    else if s[..|from|] == from then to + ReplaceAll(s[|from|..], from, to)
    else [s[0]] + ReplaceAll(s[1..], from, to)
  }

  /** A text without the pattern comes back unchanged. */
  lemma {:induction false} ReplaceAllNoMatch(s: string, from: string, to: string)
    requires from != []
    requires !Contains(s, from)
    ensures ReplaceAll(s, from, to) == s
    decreases |s|
  {
    if |s| >= |from| {
      ReplaceAllNoMatch(s[1..], from, to);
    }
  }

  /**
   * The leftmost occurrence is the first one replaced: everything before it
   * is copied, it becomes `to`, and the scan resumes right after it.
   */
  lemma {:induction false} ReplaceAllFirstMatch(s: string, from: string, to: string)
    requires from != [] && Find(s, from).Some?
    ensures var i := Find(s, from).value;
      ReplaceAll(s, from, to) == s[..i] + to + ReplaceAll(s[i + |from|..], from, to)
    decreases |s|
  {
    hide *;
    var i := Find(s, from).value;
    if i == 0 {
      ReplaceAllAtStart(s, from, to);
      assert s[..i] + to == to;
    } else {
      FindSkips(s, from, to);
      ReplaceAllFirstMatch(s[1..], from, to);
      FirstMatchStep(s, from, to, i);
    }
  }

  /** The inductive step: a match further right is reached by copying the first character. */
  lemma FirstMatchStep(s: string, from: string, to: string, i: nat)
    requires from != [] && 0 < i && i + |from| <= |s|
    requires ReplaceAll(s, from, to) == [s[0]] + ReplaceAll(s[1..], from, to)
    requires ReplaceAll(s[1..], from, to) == s[1..][..i - 1] + to + ReplaceAll(s[1..][i - 1 + |from|..], from, to)
    ensures ReplaceAll(s, from, to) == s[..i] + to + ReplaceAll(s[i + |from|..], from, to)
  {
    hide ReplaceAll;
    assert s[1..][i - 1 + |from|..] == s[i + |from|..];
    ShiftPrefix(s, i, to, ReplaceAll(s[i + |from|..], from, to));
  }

  /** Putting back the first character in front of a split of the rest. */
  lemma ShiftPrefix(s: string, i: nat, to: string, rest: string)
    requires 0 < i <= |s|
    ensures [s[0]] + (s[1..][..i - 1] + to + rest) == s[..i] + to + rest
  {
    assert s[1..][..i - 1] == s[1..i];
    assert [s[0]] + s[1..i] == s[..i];
  }

  /** A match at the very start is replaced first. */
  lemma ReplaceAllAtStart(s: string, from: string, to: string)
    requires from != [] && |from| <= |s| && s[..|from|] == from
    ensures ReplaceAll(s, from, to) == to + ReplaceAll(s[|from|..], from, to)
  {
  }

  /** Before the leftmost match, the scan copies one character and moves on. */
  lemma FindSkips(s: string, from: string, to: string)
    requires from != [] && Find(s, from).Some? && Find(s, from).value != 0
    ensures Find(s[1..], from) == Some(Find(s, from).value - 1)
    ensures ReplaceAll(s, from, to) == [s[0]] + ReplaceAll(s[1..], from, to)
  {
    assert !StartsWith(s, from);
  }

  lemma {:induction false} ContainsInfix(a: string, p: string, b: string)
    ensures Contains(a + p + b, p)
    decreases |a|
  {
    if a == [] {
      assert (a + p + b)[..|p|] == p;
    } else {
      assert (a + p + b)[1..] == a[1..] + p + b;
      ContainsInfix(a[1..], p, b);
    }
  }

  /** A pattern found in a slice of a text is found in the text. */
  lemma ContainsWithin(s: string, a: nat, t: string, p: string)
    requires a + |t| <= |s| && s[a..a + |t|] == t
    ensures Contains(t, p) ==> Contains(s, p)
  {
    hide Contains, Find;
    if Contains(t, p) {
      var j := Find(t, p).value;
      assert s[a + j..a + j + |p|] == t[j..j + |p|] == p;
      assert s == s[..a + j] + p + s[a + j + |p|..];
      ContainsInfix(s[..a + j], p, s[a + j + |p|..]);
    }
  }

  /** Whenever the pattern occurs, the replacement text shows up in the result. */
  lemma ReplaceAllInserts(s: string, from: string, to: string)
    requires from != [] && Contains(s, from)
    ensures Contains(ReplaceAll(s, from, to), to)
  {
    var i := Find(s, from).value;
    ReplaceAllFirstMatch(s, from, to);
    ContainsInfix(s[..i], to, ReplaceAll(s[i + |from|..], from, to));
  }

  /** A replacement at least as long as the pattern never shortens the text. */
  lemma {:induction false} ReplaceAllLength(s: string, from: string, to: string)
    requires from != [] && |from| <= |to|
    ensures |ReplaceAll(s, from, to)| >= |s|
    ensures |from| < |to| && Contains(s, from) ==> |ReplaceAll(s, from, to)| > |s|
    decreases |s|
  {
    if |s| >= |from| {
      if s[..|from|] == from {
        ReplaceAllLength(s[|from|..], from, to);
      } else {
        ReplaceAllLength(s[1..], from, to);
        if Contains(s, from) {
          assert Contains(s[1..], from);
        }
      }
    } else if Contains(s, from) {
      ContainsShort(s, from);
    }
  }

  lemma {:induction false} ContainsShort(s: string, p: string)
    requires |s| < |p|
    ensures !Contains(s, p)
    decreases |s|
  {
    if s != [] {
      ContainsShort(s[1..], p);
    }
  }

  /** A character in neither the text nor the replacement is not in the result. */
  lemma {:induction false} ReplaceAllAvoids(s: string, from: string, to: string, c: char)
    requires from != [] && c !in s && c !in to
    ensures c !in ReplaceAll(s, from, to)
    decreases |s|
  {
    if |s| >= |from| {
      if s[..|from|] == from {
        ReplaceAllAvoids(s[|from|..], from, to, c);
      } else {
        ReplaceAllAvoids(s[1..], from, to, c);
      }
    }
  }

  /** A character in neither the pattern nor the replacement occurs as often after the replacement as before. */
  lemma {:induction false} ReplaceAllKeepsCount(s: string, from: string, to: string, c: char)
    requires from != [] && c !in from && c !in to
    ensures multiset(ReplaceAll(s, from, to))[c] == multiset(s)[c]
    decreases |s|
  {
    if |s| >= |from| {
      if s[..|from|] == from {
        ReplaceAllKeepsCount(s[|from|..], from, to, c);
        assert s == s[..|from|] + s[|from|..];
        assert multiset(to)[c] == 0 && multiset(from)[c] == 0;
      } else {
        ReplaceAllKeepsCount(s[1..], from, to, c);
        assert s == [s[0]] + s[1..];
      }
    }
  }

  // ---------------------------------------------------------------------------
  // lines

  /** Drops one `'\r'` before a line feed, as `str::lines` does. */
  function StripCarriageReturn(line: string): (r: string)
    ensures r == line || line == r + "\r"
    ensures r == line <==> line == [] || line[|line| - 1] != '\r'
  {
    if line != [] && line[|line| - 1] == '\r' then line[..|line| - 1] else line
  }

  /**
   * `str::lines`: the text split at `'\n'` (a `"\r\n"` pair counts as one
   * line ending), where a final line ending is optional and adds no empty
   * line. There is one line per line feed, plus one for an unterminated last
   * line.
   */
  function Lines(s: string): (lines: seq<string>)
    ensures forall i :: 0 <= i < |lines| ==> '\n' !in lines[i]
    ensures |lines| == multiset(s)['\n'] + (if s != [] && s[|s| - 1] != '\n' then 1 else 0)
    decreases |s|
  {
    if s == [] then []
    else match IndexOf(s, '\n')
      case None => [s]
      case Some(i) =>
        LineBreakSplit(s, i);
        [StripCarriageReturn(s[..i])] + Lines(s[i + 1..])
  }

  /** Splitting at the first line feed: the line before it holds none, and the count moves to the rest. */
  lemma LineBreakSplit(s: string, i: nat)
    requires i < |s| && s[i] == '\n' && '\n' !in s[..i]
    ensures '\n' !in StripCarriageReturn(s[..i])
    ensures multiset(s)['\n'] == 1 + multiset(s[i + 1..])['\n']
    ensures s[|s| - 1] == '\n' <==> (s[i + 1..] == [] || s[i + 1..][|s| - i - 2] == '\n')
  {
    assert s == s[..i] + ['\n'] + s[i + 1..];
    assert multiset(s[..i])['\n'] == 0;
    if i + 1 < |s| {
      assert s[|s| - 1] == s[i + 1..][|s| - i - 2];
    }
  }

  /** Splitting at the first separator. */
  lemma SplitStep(s: string, sep: char, i: nat)
    requires IndexOf(s, sep) == Some(i)
    ensures Split(s, sep) == [s[..i]] + Split(s[i + 1..], sep)
  {
  }

  /** The first line ends at the first line feed. */
  lemma LinesStep(s: string, i: nat)
    requires IndexOf(s, '\n') == Some(i)
    ensures Lines(s) == [StripCarriageReturn(s[..i])] + Lines(s[i + 1..])
  {
  }

  /** A text without line feeds is one line, and one piece; an empty text has no lines. */
  lemma LinesSingle(s: string)
    requires IndexOf(s, '\n').None?
    ensures s != [] ==> Lines(s) == [s]
    ensures Split(s, '\n') == [s]
    ensures s == [] ==> Lines(s) == []
  {
  }

  /**
   * The lines are the pieces of `split('\n')`, without the empty piece after
   * a final line feed; a piece that a line feed ends loses one `'\r'`.
   */
  lemma {:induction false} LinesAreSegments(s: string)
    ensures var parts := Split(s, '\n');
      var kept := if s == [] || s[|s| - 1] == '\n' then |parts| - 1 else |parts|;
      && |Lines(s)| == kept
      && forall i :: 0 <= i < kept ==> Lines(s)[i] == if i < |parts| - 1 then StripCarriageReturn(parts[i]) else parts[i]
    decreases |s|
  {
    hide *;
    match IndexOf(s, '\n')
    case None =>
      LinesSingle(s);
    case Some(i) =>
      var t := s[i + 1..];
      LinesAreSegments(t);
      LineBreakSplit(s, i);
      SplitStep(s, '\n', i);
      LinesStep(s, i);
      var ps, pt := Split(s, '\n'), Split(t, '\n');
      var ls, lt := Lines(s), Lines(t);
      assert |pt| >= 1;
      var keptT := if t == [] || t[|t| - 1] == '\n' then |pt| - 1 else |pt|;
      var keptS := if s[|s| - 1] == '\n' then |ps| - 1 else |ps|;
      assert keptS == keptT + 1;
      forall j | 0 <= j < keptS
        ensures ls[j] == if j < |ps| - 1 then StripCarriageReturn(ps[j]) else ps[j]
      {
        if j > 0 {
          assert ls[j] == lt[j - 1] && ps[j] == pt[j - 1];
        }
      }
  }

  /** Each line followed by a line feed, the way a loop of `push_str(line); push('\n')` joins them. */
  function Unlines(lines: seq<string>): string
    decreases |lines|
  {
    if lines == [] then []
    else Unlines(lines[..|lines| - 1]) + lines[|lines| - 1] + "\n"
  }

  lemma {:induction false} UnlinesCons(line: string, rest: seq<string>)
    ensures Unlines([line] + rest) == line + "\n" + Unlines(rest)
    ensures Unlines([]) == []
    decreases |rest|
  {
    if rest != [] {
      var n := |rest| - 1;
      UnlinesCons(line, rest[..n]);
      assert ([line] + rest)[..|rest|] == [line] + rest[..n];
    }
  }

  lemma KeepsLine(line: string)
    requires '\r' !in line
    ensures StripCarriageReturn(line) == line
  {
  }

  /**
   * Joining the lines of a text without carriage returns gives the text
   * back, with a line feed added when its last line had none.
   */
  lemma {:induction false} LinesRejoin(s: string)
    requires '\r' !in s
    ensures Unlines(Lines(s)) == if s == [] || s[|s| - 1] == '\n' then s else s + "\n"
    decreases |s|
  {
    hide *;
    match IndexOf(s, '\n')
    case None =>
      LinesSingle(s);
      UnlinesCons(s, []);
      assert [s] + [] == [s];
      assert s + "\n" + [] == s + "\n";
    case Some(i) =>
      var t := s[i + 1..];
      assert '\r' !in t;
      LinesRejoin(t);
      LineBreakSplit(s, i);
      LinesStep(s, i);
      assert '\r' !in s[..i];
      KeepsLine(s[..i]);
      UnlinesCons(s[..i], Lines(t));
      assert s == s[..i] + "\n" + t;
  }

  /** In a text without carriage returns, every line is a slice of the text. */
  lemma {:induction false} LineInText(s: string, k: nat) returns (a: nat)
    requires '\r' !in s && k < |Lines(s)|
    ensures a + |Lines(s)[k]| <= |s| && s[a..a + |Lines(s)[k]|] == Lines(s)[k]
    decreases |s|
  {
    hide *;
    match IndexOf(s, '\n')
    case None =>
      LinesSingle(s);
      a := 0;
      assert s[0..|s|] == s;
    case Some(i) =>
      LinesStep(s, i);
      assert '\r' !in s[..i];
      KeepsLine(s[..i]);
      if k == 0 {
        a := 0;
        assert s[0..i] == s[..i];
      } else {
        var t := s[i + 1..];
        assert '\r' !in t;
        var b := LineInText(t, k - 1);
        a := b + i + 1;
        var n := |Lines(t)[k - 1]|;
        assert b + n <= |t| == |s| - i - 1;
        var u, v := s[a..a + n], t[b..b + n];
        assert forall j :: 0 <= j < n ==> u[j] == v[j];
        assert u == v;
        assert Lines(s)[k] == Lines(t)[k - 1];
      }
  }

  /** A pattern that a text without carriage returns does not contain is in none of its lines. */
  lemma LinesAvoid(s: string, p: string)
    requires '\r' !in s && !Contains(s, p)
    ensures forall k :: 0 <= k < |Lines(s)| ==> !Contains(Lines(s)[k], p)
  {
    hide Contains;
    forall k | 0 <= k < |Lines(s)|
      ensures !Contains(Lines(s)[k], p)
    {
      var a := LineInText(s, k);
      ContainsWithin(s, a, Lines(s)[k], p);
    }
  }
}
