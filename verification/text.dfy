/** Characters and strings as the extractor's JavaScript sees them: the
    character classes its regular expressions use, the case fold of the `/i`
    flag, and the string helpers it calls (`trim`, `padStart`, `replace`). */
module Text {

  datatype Option<+T> = None | Some(value: T)

  /** `\d`: ASCII digits only. */
  predicate IsDigit(c: char) {
    '0' <= c <= '9'
  }

  /** `\s`, which is also the set `String.prototype.trim` removes: the
      WhiteSpace and LineTerminator code points of ECMAScript. */
  predicate IsSpace(c: char) {
    || c == '\t' || c == '\n' || c == '\U{000B}' || c == '\U{000C}' || c == '\r'
    || c == ' ' || c == '\U{00A0}' || c == '\U{1680}'
    || ('\U{2000}' <= c <= '\U{200A}')
    || c == '\U{2028}' || c == '\U{2029}' || c == '\U{202F}' || c == '\U{205F}'
    || c == '\U{3000}' || c == '\U{FEFF}'
  }

  predicate IsLineBreak(c: char) {
    c == '\n' || c == '\r'
  }

  predicate IsDigits(x: string) {
    AllIn(x, Digit)
  }

  /** A non-empty run of digits: what `\d+` captures. */
  predicate IsNumber(x: string) {
    |x| > 0 && IsDigits(x)
  }

  predicate NoLineBreak(x: string) {
    forall k | 0 <= k < |x| :: !IsLineBreak(x[k])
  }

  /** `x` occurs in `s` as a contiguous piece. */
  ghost predicate IsInfix(x: string, s: string) {
    exists a, b | 0 <= a <= b <= |s| :: x == s[a..b]
  }

  lemma InfixOfSlice(s: string, a: nat, b: nat, lo: nat, hi: nat)
    requires a <= b <= |s| && lo <= hi <= b - a
    ensures IsInfix(s[a..b][lo..hi], s)
  {
    var x := s[a..b][lo..hi];
    assert |x| == hi - lo;
    assert forall k | 0 <= k < |x| :: x[k] == s[a + lo + k];
    assert x == s[a + lo..a + hi];
  }

  /** Where the first entry present stands: the shape of a loop that
      returns from its body on the first success and otherwise goes on to the
      next step. */
  function FirstSomeAt<T>(cs: seq<Option<T>>): (r: Option<nat>)
    ensures r.None? <==> forall k | 0 <= k < |cs| :: cs[k].None?
    ensures r.Some? ==> r.value < |cs| && cs[r.value].Some? && forall j | 0 <= j < r.value :: cs[j].None?
    decreases |cs|
  {
    if |cs| == 0 then None
    else if cs[0].Some? then Some(0)
    else
      var r := FirstSomeAt(cs[1..]);
      assert forall k | 1 <= k < |cs| :: cs[k] == cs[1..][k - 1];
      if r.Some? then Some(r.value + 1) else None
  }

  /** An entry present with none before it is the first. */
  lemma FirstSomeAtIs<T>(cs: seq<Option<T>>, j: nat)
    requires j < |cs| && cs[j].Some? && forall i | 0 <= i < j :: cs[i].None?
    ensures FirstSomeAt(cs) == Some(j)
  {
  }

  /** The first entry present. */
  function FirstSome<T>(cs: seq<Option<T>>): (r: Option<T>)
    ensures r.None? <==> forall k | 0 <= k < |cs| :: cs[k].None?
    ensures r.Some? ==> exists k | 0 <= k < |cs| :: cs[k] == r && forall j | 0 <= j < k :: cs[j].None?
  {
    match FirstSomeAt(cs)
    case None => None
    case Some(k) => cs[k]
  }

  /** An entry present at the head decides. */
  lemma FirstSomeHead<T>(cs: seq<Option<T>>)
    requires |cs| > 0 && cs[0].Some?
    ensures FirstSome(cs) == cs[0]
  {
  }

  /** The last four of five parts of a concatenation, cut back out. */
  lemma ConcatParts(a: string, b: string, c: string, d: string, e: string)
    ensures var s := a + b + c + d + e;
            var i, j, k := |a| + |b|, |a| + |b| + |c|, |a| + |b| + |c| + |d|;
            s[|a|..i] == b && s[i..j] == c && s[j..k] == d && s[k..] == e
  {
    var s := a + b + c + d + e;
    var i, j, k := |a| + |b|, |a| + |b| + |c|, |a| + |b| + |c| + |d|;
    assert forall n | 0 <= n < |b| :: s[|a| + n] == b[n];
    assert forall n | 0 <= n < |c| :: s[i + n] == c[n];
    assert forall n | 0 <= n < |d| :: s[j + n] == d[n];
    assert forall n | 0 <= n < |e| :: s[k + n] == e[n];
  }

  lemma InfixTransitive(x: string, y: string, z: string)
    requires IsInfix(x, y) && IsInfix(y, z)
    ensures IsInfix(x, z)
  {
    var a, b :| 0 <= a <= b <= |y| && x == y[a..b];
    var c, d :| 0 <= c <= d <= |z| && y == z[c..d];
    InfixOfSlice(z, c, d, a, b);
  }

  lemma InfixNoLineBreak(x: string, y: string)
    requires IsInfix(x, y) && NoLineBreak(y)
    ensures NoLineBreak(x)
  {
    var a, b :| 0 <= a <= b <= |y| && x == y[a..b];
    assert forall k | 0 <= k < |x| :: x[k] == y[a + k];
  }

  // ---------------------------------------------------------------------------
  // Character classes of the regular expressions

  /** The bracketed classes and escapes the patterns use. None of them holds
      a letter, so the `/i` flag does not change what they accept. */
  datatype CharClass =
    | Digit                // \d
    | Space                // \s
    | ColonOrSpace         // [:\s]
    | DotOrSpace           // [.\s]
    | NotLineBreak         // [^\n\r]
    | NotCommaOrLineBreak  // [^,\n\r]
    | AmountChar           // [\d\s.,]
    | FilenameAmountChar   // [\d.,]

  predicate AllIn(x: string, cls: CharClass) {
    forall k | 0 <= k < |x| :: InClass(x[k], cls)
  }

  predicate InClass(c: char, cls: CharClass) {
    match cls
    case Digit => IsDigit(c)
    case Space => IsSpace(c)
    case ColonOrSpace => c == ':' || IsSpace(c)
    case DotOrSpace => c == '.' || IsSpace(c)
    case NotLineBreak => !IsLineBreak(c)
    case NotCommaOrLineBreak => c != ',' && !IsLineBreak(c)
    case AmountChar => IsDigit(c) || IsSpace(c) || c == '.' || c == ','
    case FilenameAmountChar => IsDigit(c) || c == '.' || c == ','
  }

  /** End of the longest run of `cls` characters starting at `i`: where a
      greedy `cls*` stops. */
  function RunEnd(s: string, i: nat, cls: CharClass): (j: nat)
    requires i <= |s|
    ensures i <= j <= |s|
    ensures forall k | i <= k < j :: InClass(s[k], cls)
    ensures AllIn(s[i..j], cls)
    ensures j == |s| || !InClass(s[j], cls)
    decreases |s| - i
  {
    if i < |s| && InClass(s[i], cls) then RunEnd(s, i + 1, cls) else i
  }

  /** Where a greedy `cls{1,n}` stops: at most `n` characters of the run. */
  function BoundedRunEnd(s: string, i: nat, cls: CharClass, n: nat): (j: nat)
    requires i <= |s|
    ensures i <= j <= i + n && j <= |s|
    ensures forall k | i <= k < j :: InClass(s[k], cls)
    ensures AllIn(s[i..j], cls)
    ensures j < i + n ==> j == |s| || !InClass(s[j], cls)
  {
    var e := RunEnd(s, i, cls);
    if e - i > n then i + n else e
  }

  /** A run of `cls` characters from `i` to `j` with none after it is where
      the greedy run from `i` stops. */
  lemma {:induction false} RunEndIs(s: string, i: nat, j: nat, cls: CharClass)
    requires i <= j <= |s|
    requires forall k | i <= k < j :: InClass(s[k], cls)
    requires j == |s| || !InClass(s[j], cls)
    ensures RunEnd(s, i, cls) == j
    decreases j - i
  {
    if i < j {
      RunEndIs(s, i + 1, j, cls);
    }
  }

  /** Where a run of `cls` characters ending at `j` starts, read backwards. */
  function RunStart(s: string, j: nat, cls: CharClass): (i: nat)
    requires j <= |s|
    ensures i <= j
    ensures forall k | i <= k < j :: InClass(s[k], cls)
    ensures i == 0 || !InClass(s[i - 1], cls)
  {
    if j > 0 && InClass(s[j - 1], cls) then RunStart(s, j - 1, cls) else j
  }

  /** A run of `cls` characters from `i` to `j` with none before it is where
      the backward run from `j` stops. */
  lemma {:induction false} RunStartIs(s: string, i: nat, j: nat, cls: CharClass)
    requires i <= j <= |s|
    requires forall k | i <= k < j :: InClass(s[k], cls)
    requires i == 0 || !InClass(s[i - 1], cls)
    ensures RunStart(s, j, cls) == i
    decreases j - i
  {
    if i < j {
      RunStartIs(s, i, j - 1, cls);
    }
  }

  /** A slice of `cls` characters, position by position. */
  lemma AllInSlice(s: string, i: nat, j: nat, cls: CharClass)
    requires i <= j <= |s| && AllIn(s[i..j], cls)
    ensures forall k | i <= k < j :: InClass(s[k], cls)
  {
    forall k | i <= k < j
      ensures InClass(s[k], cls)
    {
      assert s[i..j][k - i] == s[k];
    }
  }

  /** A run of at most `n` `cls` characters from `i` to `j`, stopped by the
      bound or by a character outside the class, is where the greedy
      `cls{1,n}` from `i` stops. */
  lemma BoundedRunEndIs(s: string, i: nat, j: nat, cls: CharClass, n: nat)
    requires i <= j <= i + n && j <= |s|
    requires forall k | i <= k < j :: InClass(s[k], cls)
    requires j == i + n || j == |s| || !InClass(s[j], cls)
    ensures BoundedRunEnd(s, i, cls, n) == j
  {
    if j < i + n {
      RunEndIs(s, i, j, cls);
    }
  }

  /** The first position at or after `i` holding a `cls` character: where a
      lazy `[\s\S]*?` followed by `cls+` stops. */
  function FirstInClass(s: string, i: nat, cls: CharClass): (r: Option<nat>)
    requires i <= |s|
    ensures r.Some? ==> i <= r.value < |s| && InClass(s[r.value], cls)
    ensures forall k | i <= k < |s| && (r.None? || k < r.value) :: !InClass(s[k], cls)
    decreases |s| - i
  {
    if i == |s| then None
    else if InClass(s[i], cls) then Some(i)
    else FirstInClass(s, i + 1, cls)
  }

  /** The first `cls` character from `i` is the one at `j` when none comes
      before it. */
  lemma {:induction false} FirstInClassIs(s: string, i: nat, j: nat, cls: CharClass)
    requires i <= j < |s| && InClass(s[j], cls)
    requires forall k | i <= k < j :: !InClass(s[k], cls)
    ensures FirstInClass(s, i, cls) == Some(j)
    decreases j - i
  {
    if i < j {
      FirstInClassIs(s, i + 1, j, cls);
    }
  }

  /** `n` digits at position `i`. */
  predicate DigitsAt(s: string, i: nat, n: nat) {
    i + n <= |s| && IsDigits(s[i..i + n])
  }

  /** The first position at or after `i` where four digits stand: where a
      lazy `[^]*?` followed by `\d{4}` stops. */
  function FirstFourDigits(s: string, i: nat): (r: Option<nat>)
    requires i <= |s|
    ensures r.Some? ==> i <= r.value && DigitsAt(s, r.value, 4)
    ensures forall k | i <= k <= |s| && (r.None? || k < r.value) :: !DigitsAt(s, k, 4)
    decreases |s| - i
  {
    if i + 4 > |s| then None
    else if DigitsAt(s, i, 4) then Some(i)
    else FirstFourDigits(s, i + 1)
  }

  /** Four digits at `j`, with no four digits in a row between `i` and `j`,
      are the first the lazy gap reaches. */
  lemma FirstFourDigitsIs(s: string, i: nat, j: nat)
    requires i <= j && DigitsAt(s, j, 4)
    requires forall k | i <= k < j :: !DigitsAt(s, k, 4)
    ensures FirstFourDigits(s, i) == Some(j)
  {
  }

  // ---------------------------------------------------------------------------
  // The `/i` flag

  /** The canonical form the `/i` flag compares (JavaScript upper-cases both
      sides): ASCII and the Cyrillic block U+0400-U+045F. */
  function Upper(c: char): char {
    if 'a' <= c <= 'z' then (c as int - 32) as char
    else if '\U{0430}' <= c <= '\U{044F}' then (c as int - 0x20) as char
    else if '\U{0450}' <= c <= '\U{045F}' then (c as int - 0x50) as char
    else c
  }

  /** `toLowerCase` on the same two alphabets. */
  function Lower(c: char): char {
    if 'A' <= c <= 'Z' then (c as int + 32) as char
    else if '\U{0410}' <= c <= '\U{042F}' then (c as int + 0x20) as char
    else if '\U{0400}' <= c <= '\U{040F}' then (c as int + 0x50) as char
    else c
  }

  function LowerString(x: string): (r: string)
    ensures |r| == |x|
    ensures forall k | 0 <= k < |x| :: r[k] == Lower(x[k])
  {
    seq(|x|, k requires 0 <= k < |x| => Lower(x[k]))
  }

  predicate CharEq(c: char, l: char, ci: bool) {
    if ci then Upper(c) == Upper(l) else c == l
  }

  /** Text `x` equals the pattern literal `lit`, up to case when `ci`. */
  predicate StrEq(x: string, lit: string, ci: bool)
    decreases |lit|
  {
    |x| == |lit| && (|lit| == 0 || (CharEq(x[0], lit[0], ci) && StrEq(x[1..], lit[1..], ci)))
  }

  /** The pattern literal `lit` stands at position `i` of `s`. */
  predicate LitAt(s: string, i: nat, lit: string, ci: bool) {
    i + |lit| <= |s| && StrEq(s[i..i + |lit|], lit, ci)
  }

  /** A letter of the folded alphabets written in lower case. */
  predicate IsLowerLetter(l: char) {
    ('a' <= l <= 'z') || ('\U{0430}' <= l <= '\U{045F}')
  }

  /** Upper-casing maps letters to letters and leaves every other character
      alone, so a character equal up to case to a non-letter is that
      non-letter. */
  lemma UpperOfNonLetter(c: char, l: char)
    requires Upper(c) == Upper(l)
    requires !IsLowerLetter(l) && !('A' <= l <= 'Z') && !('\U{0400}' <= l <= '\U{042F}')
    ensures c == l
  {
  }

  /** Text that matched a lower-case literal under `/i` lower-cases back to
      that literal: the reason `months[match.toLowerCase()]` finds its key. */
  lemma {:induction false} LowerOfFoldedMatch(x: string, lit: string)
    requires StrEq(x, lit, true)
    requires forall k | 0 <= k < |lit| :: IsLowerLetter(lit[k])
    ensures LowerString(x) == lit
    decreases |lit|
  {
    if |lit| > 0 {
      LowerOfFoldedMatch(x[1..], lit[1..]);
      assert LowerString(x[1..]) == lit[1..];
      forall k | 0 <= k < |x|
        ensures LowerString(x)[k] == lit[k]
      {
        if k > 0 {
          assert LowerString(x[1..])[k - 1] == Lower(x[k]);
        }
      }
    }
  }

  /** Equality up to case, character by character. */
  lemma {:induction false} StrEqPointwise(x: string, lit: string, ci: bool)
    requires StrEq(x, lit, ci)
    ensures |x| == |lit| && forall k | 0 <= k < |x| :: CharEq(x[k], lit[k], ci)
    decreases |lit|
  {
    if |lit| > 0 {
      StrEqPointwise(x[1..], lit[1..], ci);
      assert forall k | 1 <= k < |x| :: x[k] == x[1..][k - 1] && lit[k] == lit[1..][k - 1];
    }
  }

  /** Text that matched, up to case, a literal of upper-case Cyrillic
      letters holds no white space. */
  lemma FoldedMatchHasNoSpace(x: string, lit: string)
    requires StrEq(x, lit, true)
    requires forall k | 0 <= k < |lit| :: '\U{0410}' <= lit[k] <= '\U{042F}'
    ensures forall k | 0 <= k < |x| :: !IsSpace(x[k]) && x[k] != ','
  {
    StrEqPointwise(x, lit, true);
  }

  /** Characters that matched a literal without line breaks under `/i` are
      not line breaks either. */
  lemma {:induction false} FoldedMatchKeepsLineBreaks(x: string, lit: string, ci: bool)
    requires StrEq(x, lit, ci)
    requires NoLineBreak(lit)
    ensures NoLineBreak(x)
    decreases |lit|
  {
    if |lit| > 0 {
      FoldedMatchKeepsLineBreaks(x[1..], lit[1..], ci);
      assert !IsLineBreak(x[0]) by {
        if IsLineBreak(x[0]) && ci {
          UpperOfNonLetter(lit[0], x[0]);
        }
      }
      forall k | 0 <= k < |x|
        ensures !IsLineBreak(x[k])
      {
        if k > 0 {
          assert x[k] == x[1..][k - 1];
        }
      }
    }
  }

  /** Every text equals itself, up to case or not. */
  lemma {:induction false} StrEqRefl(x: string, ci: bool)
    ensures StrEq(x, x, ci)
    decreases |x|
  {
    if |x| > 0 {
      StrEqRefl(x[1..], ci);
    }
  }

  /** A literal written verbatim at `i` stands there. */
  lemma LitAtVerbatim(s: string, i: nat, lit: string, ci: bool)
    requires i + |lit| <= |s| && s[i..i + |lit|] == lit
    ensures LitAt(s, i, lit, ci)
  {
    StrEqRefl(lit, ci);
  }

  /** A character equal up to case to a lower-case letter is itself a
      letter of the folded alphabets: no digit, white space or punctuation. */
  lemma FoldedLetter(c: char, l: char)
    requires IsLowerLetter(l) && Upper(c) == Upper(l)
    ensures ('A' <= c <= 'Z') || ('a' <= c <= 'z') || ('\U{0400}' <= c <= '\U{045F}')
  {
  }

  /** Lower-casing a character equal up to case to a lower-case letter
      gives that letter. */
  lemma LowerOfFolded(c: char, l: char)
    requires IsLowerLetter(l) && Upper(c) == Upper(l)
    ensures Lower(c) == l
  {
  }

  /** Lower-casing text equal up to case to a lower-case word gives the word. */
  lemma LowerStringOfFolded(x: string, word: string)
    requires StrEq(x, word, true)
    requires forall k | 0 <= k < |word| :: IsLowerLetter(word[k])
    ensures LowerString(x) == word
  {
    StrEqPointwise(x, word, true);
    forall k | 0 <= k < |x|
      ensures LowerString(x)[k] == word[k]
    {
      LowerOfFolded(x[k], word[k]);
    }
  }

  /** Two lower-case literals that both stand at `w` up to case agree on
      their common length: the shorter is a prefix of the longer. */
  lemma FoldedPrefix(s: string, w: nat, a: string, b: string)
    requires LitAt(s, w, a, true) && LitAt(s, w, b, true) && |a| <= |b|
    requires forall k | 0 <= k < |a| :: IsLowerLetter(a[k])
    requires forall k | 0 <= k < |b| :: IsLowerLetter(b[k])
    ensures b[..|a|] == a
  {
    StrEqPointwise(s[w..w + |a|], a, true);
    StrEqPointwise(s[w..w + |b|], b, true);
    forall k | 0 <= k < |a|
      ensures b[k] == a[k]
    {
      assert s[w..w + |a|][k] == s[w..w + |b|][k];
    }
  }

  // ---------------------------------------------------------------------------
  // String helpers of the JavaScript standard library

  /** Leading `\s` removed. */
  function TrimStart(x: string): (r: string)
    ensures |r| <= |x| && r == x[|x| - |r|..]
    ensures r == [] || !IsSpace(r[0])
    ensures forall k | 0 <= k < |x| - |r| :: IsSpace(x[k])
  {
    x[RunEnd(x, 0, Space)..]
  }

  /** Trailing `\s` removed. */
  function TrimEnd(x: string): (r: string)
    ensures |r| <= |x| && r == x[..|r|]
    ensures r == [] || !IsSpace(r[|r| - 1])
    ensures forall k | |r| <= k < |x| :: IsSpace(x[k])
  {
    x[..RunStart(x, |x|, Space)]
  }

  /** `r` is `x` with white space, and only white space, cut from both
      ends: it neither starts nor ends with white space, and what lies
      around it in `x` is white space. */
  ghost predicate Trimmed(x: string, r: string) {
    && (r == [] || (!IsSpace(r[0]) && !IsSpace(r[|r| - 1])))
    && exists a | 0 <= a <= |x| - |r| ::
         && r == x[a..a + |r|]
         && AllIn(x[..a], Space)
         && AllIn(x[a + |r|..], Space)
  }

  /** `String.prototype.trim`. */
  function Trim(x: string): (r: string)
    ensures Trimmed(x, r)
    ensures IsInfix(r, x)
  {
    TrimCuts(x);
    TrimEnd(TrimStart(x))
  }

  /** Where the white space cut by `TrimStart` and `TrimEnd` lies. */
  lemma TrimCuts(x: string)
    ensures Trimmed(x, TrimEnd(TrimStart(x)))
    ensures IsInfix(TrimEnd(TrimStart(x)), x)
  {
    var a := TrimCut(x);
    var r := TrimEnd(TrimStart(x));
    assert r == x[a..a + |r|];
  }

  lemma TrimCut(x: string) returns (a: nat)
    ensures var r := TrimEnd(TrimStart(x));
            && a <= |x| - |r|
            && r == x[a..a + |r|]
            && AllIn(x[..a], Space)
            && AllIn(x[a + |r|..], Space)
  {
    var t := TrimStart(x);
    var r := TrimEnd(t);
    a := |x| - |t|;
    assert r == x[a..a + |r|];
    assert AllIn(x[..a], Space);
    assert x[a + |r|..] == t[|r|..];
    assert AllIn(t[|r|..], Space) by {
      forall k | 0 <= k < |t| - |r| ensures IsSpace(t[|r|..][k]) {
        assert t[|r|..][k] == t[|r| + k];
      }
    }
  }

  /** Text made of white space, then a piece that neither starts nor ends
      with white space, then white space trims to that piece: `trim` cuts
      exactly the white space at the two ends. */
  lemma TrimOfPadded(u: string, y: string, v: string)
    requires AllIn(u, Space) && AllIn(v, Space)
    requires y == [] || (!IsSpace(y[0]) && !IsSpace(y[|y| - 1]))
    ensures Trim(u + y + v) == y
  {
    if y == [] {
      assert u + y + v == (u + v) + [];
      TrimStartSkips(u + v, []);
    } else {
      assert u + y + v == u + (y + v);
      TrimStartSkips(u, y + v);
      TrimEndSkips(y, v);
    }
  }

  lemma TrimStartSkips(u: string, z: string)
    requires AllIn(u, Space)
    requires z == [] || !IsSpace(z[0])
    ensures TrimStart(u + z) == z
  {
    var s := u + z;
    assert forall k | 0 <= k < |u| :: s[k] == u[k];
    assert |u| < |s| ==> s[|u|] == z[0];
    RunEndIs(s, 0, |u|, Space);
  }

  lemma TrimEndSkips(z: string, v: string)
    requires AllIn(v, Space)
    requires z == [] || !IsSpace(z[|z| - 1])
    ensures TrimEnd(z + v) == z
  {
    var s := z + v;
    assert forall k | |z| <= k < |s| :: s[k] == v[k - |z|];
    assert 0 < |z| ==> s[|z| - 1] == z[|z| - 1];
    RunStartIs(s, |z|, |s|, Space);
  }

  /** `x.padStart(n, '0')`. */
  function PadZeros(x: string, n: nat): (r: string)
    ensures |r| == if |x| >= n then |x| else n
    ensures r[|r| - |x|..] == x
    ensures forall k | 0 <= k < |r| - |x| :: r[k] == '0'
  {
    if |x| >= n then x
    else
      var r := seq(n - |x|, _ => '0') + x;
      assert r[|r| - |x|..] == x;
      r
  }

  /** Text without a comma. */
  predicate NoComma(x: string) {
    forall k | 0 <= k < |x| :: x[k] != ','
  }

  /** `x.replace(',', '.')`: the FIRST comma only. */
  function ReplaceFirstComma(x: string): (r: string)
    ensures |r| == |x|
    ensures forall k | 0 <= k < |x| :: r[k] == if x[k] == ',' && NoComma(x[..k]) then '.' else x[k]
  {
    if |x| == 0 then x
    else if x[0] == ',' then
      assert forall k | 0 < k < |x| :: !NoComma(x[..k]) by {
        assert forall k | 0 < k < |x| :: x[..k][0] == ',';
      }
      ['.'] + x[1..]
    else
      NoCommaShift(x);
      [x[0]] + ReplaceFirstComma(x[1..])
  }

  /** Without a comma at the front, "no comma before position k" means the
      same for `x` and for `x` without its first character. */
  lemma NoCommaShift(x: string)
    requires |x| > 0 && x[0] != ','
    ensures forall k | 0 < k <= |x| :: NoComma(x[..k]) == NoComma(x[1..][..k - 1])
  {
    forall k | 0 < k <= |x|
      ensures NoComma(x[..k]) == NoComma(x[1..][..k - 1])
    {
      assert forall j | 0 < j < k :: x[..k][j] == x[1..][..k - 1][j - 1];
    }
  }

  /** `x.replace(/\s/g, '')`. */
  function RemoveSpaces(x: string): (r: string)
    ensures |r| <= |x|
    ensures forall k | 0 <= k < |r| :: !IsSpace(r[k])
    ensures forall c | c in r :: c in x
    ensures (forall k | 0 <= k < |x| :: !IsSpace(x[k])) ==> r == x
    ensures |x| == 1 ==> (r == [] <==> IsSpace(x[0]))
  {
    if |x| == 0 then x
    else if IsSpace(x[0]) then RemoveSpaces(x[1..])
    else [x[0]] + RemoveSpaces(x[1..])
  }

  lemma {:induction false} RemoveSpacesAppend(x: string, y: string)
    ensures RemoveSpaces(x + y) == RemoveSpaces(x) + RemoveSpaces(y)
    decreases |x|
  {
    if |x| > 0 {
      assert (x + y)[1..] == x[1..] + y;
      RemoveSpacesAppend(x[1..], y);
    } else {
      assert x + y == y;
    }
  }

  /** White space alone is removed entirely. */
  lemma {:induction false} RemoveSpacesOfBlank(x: string)
    requires forall k | 0 <= k < |x| :: IsSpace(x[k])
    ensures RemoveSpaces(x) == []
    decreases |x|
  {
    if |x| > 0 {
      RemoveSpacesOfBlank(x[1..]);
    }
  }

  /** Text of digits and white space loses exactly its white space: what is
      left is a digit string. */
  lemma RemoveSpacesOfDigits(x: string)
    requires forall k | 0 <= k < |x| :: IsDigit(x[k]) || IsSpace(x[k])
    ensures IsDigits(RemoveSpaces(x))
  {
    var r := RemoveSpaces(x);
    forall k | 0 <= k < |r| ensures IsDigit(r[k]) {
      assert r[k] in x;
    }
  }

  /** With no comma before it, the comma after `d` is the one replaced. */
  lemma {:induction false} ReplaceCommaAfter(d: string, rest: string)
    requires forall k | 0 <= k < |d| :: d[k] != ','
    ensures ReplaceFirstComma(d + "," + rest) == d + "." + rest
    decreases |d|
  {
    if |d| > 0 {
      assert (d + "," + rest)[1..] == d[1..] + "," + rest;
      ReplaceCommaAfter(d[1..], rest);
      assert [d[0]] + (d[1..] + "." + rest) == d + "." + rest;
    } else {
      assert d + "," + rest == [','] + rest;
      assert d + "." + rest == ['.'] + rest;
    }
  }

  /** Without a comma, `replace(',', '.')` changes nothing. */
  lemma {:induction false} ReplaceNoComma(d: string)
    requires forall k | 0 <= k < |d| :: d[k] != ','
    ensures ReplaceFirstComma(d) == d
    decreases |d|
  {
    if |d| > 0 {
      ReplaceNoComma(d[1..]);
    }
  }

  /** `x.replace(/,$/, '')`: one comma at the very end is dropped. Either
      the input is the result with a comma put back, or the input does not
      end in a comma and is the result itself. */
  function DropTrailingComma(x: string): (r: string)
    ensures x == r + "," || (r == x && (x == [] || x[|x| - 1] != ','))
  {
    if |x| > 0 && x[|x| - 1] == ',' then
      assert x == x[..|x| - 1] + ",";
      x[..|x| - 1]
    else x
  }
}
