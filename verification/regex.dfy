/** The regular expressions of the extractor, each written out as a matcher
    at one position, and `String.prototype.match` without the `g` flag on
    top of them: the leftmost position where the pattern matches wins, and
    later occurrences are never looked at.

    A greedy run followed by a token whose first character cannot belong to
    the run's class never gives characters back during backtracking (a
    shorter run would leave a run character where that token must start), so
    such runs are written as maximal spans. Where the classes overlap,
    `[:\s]+([^\n\r]+)` and `([\d\s.,]+)\s*руб`, the backtracking is written
    out. */
module Regex {
  import opened Text

  datatype Span = Span(lo: nat, hi: nat)

  /** The array `match` returns: `groups[0]` is the whole match and
      `groups[k]` capture group `k`, each as a span of the subject string. */
  datatype Match = Match(groups: seq<Span>)

  predicate ValidIn(s: string, m: Match) {
    && |m.groups| >= 1
    && forall k | 0 <= k < |m.groups| :: m.groups[k].lo <= m.groups[k].hi <= |s|
  }

  /** `match.index`. */
  function Start(m: Match): nat
    requires |m.groups| >= 1
  {
    m.groups[0].lo
  }

  function Group(s: string, m: Match, k: nat): (g: string)
    requires ValidIn(s, m) && k < |m.groups|
    ensures IsInfix(g, s)
  {
    var g := s[m.groups[k].lo..m.groups[k].hi];
    assert g == s[m.groups[k].lo..m.groups[k].hi];
    g
  }

  /** `match[k]`, with `None` for `undefined` (a group the pattern lacks). */
  function Capture(s: string, m: Match, k: nat): (r: Option<string>)
    requires ValidIn(s, m)
    ensures r.Some? <==> k < |m.groups|
    ensures r.Some? ==> IsInfix(r.value, s)
  {
    if k < |m.groups| then Some(Group(s, m, k)) else None
  }

  // ---------------------------------------------------------------------------
  // The patterns

  /** The month alternation of the date pattern, in the order written. */
  const MonthAlternatives: seq<string> :=
    ["ноября", "января", "февраля", "марта", "апреля", "мая", "июня", "июля",
     "августа", "сентября", "октября", "ноября", "декабря"]

  const Rouble := "руб"
  const IncomingMark := "вх"
  const Account := "Счет"
  const Offer := "Оферта"

  /** What stands before the number in the numbered patterns. */
  datatype Head =
    | Labelled(name: string)   // name\s*[№N]?\s*      (case-insensitive)
    | Marked                   // [№N]\s*              (case-sensitive)
    | Unlabelled               // nothing
    | IncomingRef              // вх[.\s]*[№N]?\s*      (case-insensitive)

  /** The captured number of the numbered patterns. */
  datatype Body =
    | SlashNumber              // (\d+\/\d+)
    | PlainNumber              // (\d+)
    | DashedNumber             // (\d+)-(\d+)

  /** The two labels before a lazily found four-digit group. */
  datatype OfferLabel =
    | AccountOffer             // Счет[-\s]Оферта
    | OfferOnly                // Оферта

  /** Each regular expression of the extractor; `/i` marks the
      case-insensitive ones. */
  datatype Pattern =
    | MonthNameDate                 // (\d{1,2})\s+(ноября|…|декабря)\s+(\d{4})\s*г?  /i
    | NumericDate                   // (\d{1,2})\.(\d{1,2})\.(\d{4})
    | FilenameDate                  // (\d{2})\.(\d{2})\.(\d{2,4})
    | LabelLine(name: string)       // name[:\s]+([^\n\r]+)                    /i
    | LegalForm(prefix: string)     // prefix[^,\n\r]+                         /i
    | FilenameAmount                // =\s*([\d.,]+)
    | LabelledAmount(name: string)  // name[\s\S]*?([\d\s.,]+)                 /i
    | RoubleAmount                  // ([\d\s.,]+)\s*руб                       /i
    | Numbered(head: Head, body: Body)
    | FourDigitsAfter(offer: OfferLabel) // label[^]*?(\d{4})              /i

  // ---------------------------------------------------------------------------
  // What each pattern captures

  predicate NumberOfLength(x: string, lo: nat, hi: nat) {
    IsNumber(x) && lo <= |x| <= hi
  }

  /** `\d+\/\d+`. */
  predicate IsSlashNumber(x: string) {
    exists k | 0 < k < |x| - 1 :: x[k] == '/' && IsNumber(x[..k]) && IsNumber(x[k + 1..])
  }

  /** Text the month alternation matched: lower-cased, it is one of the
      alternatives. */
  predicate IsMonthName(x: string) {
    LowerString(x) in MonthAlternatives
  }

  /** Every alternative is written in lower-case letters. */
  predicate LowerWords(alts: seq<string>) {
    forall k | 0 <= k < |alts| :: LowerWord(alts[k])
  }

  predicate LowerWord(a: string) {
    forall j | 0 <= j < |a| :: IsLowerLetter(a[j])
  }

  lemma MonthAlternativesLower()
    ensures LowerWords(MonthAlternatives)
  {
    forall k | 0 <= k < |MonthAlternatives|
      ensures LowerWord(MonthAlternatives[k])
    {
    }
  }

  /** The language of each pattern's capture groups. */
  ghost predicate Shaped(p: Pattern, s: string, m: Match)
    requires ValidIn(s, m)
  {
    match p
    case MonthNameDate =>
      && |m.groups| == 4
      && NumberOfLength(Group(s, m, 1), 1, 2)
      && IsMonthName(Group(s, m, 2))
      && NumberOfLength(Group(s, m, 3), 4, 4)
    case NumericDate =>
      && |m.groups| == 4
      && NumberOfLength(Group(s, m, 1), 1, 2)
      && NumberOfLength(Group(s, m, 2), 1, 2)
      && NumberOfLength(Group(s, m, 3), 4, 4)
    case FilenameDate =>
      && |m.groups| == 4
      && NumberOfLength(Group(s, m, 1), 2, 2)
      && NumberOfLength(Group(s, m, 2), 2, 2)
      && NumberOfLength(Group(s, m, 3), 2, 4)
    case LabelLine(_) =>
      && |m.groups| == 2
      && |Group(s, m, 1)| > 0 && NoLineBreak(Group(s, m, 1))
      && (m.groups[1].hi == |s| || IsLineBreak(s[m.groups[1].hi]))
    case LegalForm(prefix) =>
      && |m.groups| == 1
      && |Group(s, m, 0)| > |prefix|
      && StrEq(Group(s, m, 0)[..|prefix|], prefix, true)
      && AllIn(Group(s, m, 0)[|prefix|..], NotCommaOrLineBreak)
      && (m.groups[0].hi == |s| || !InClass(s[m.groups[0].hi], NotCommaOrLineBreak))
    case FilenameAmount =>
      && |m.groups| == 2
      && |Group(s, m, 1)| > 0 && AllIn(Group(s, m, 1), FilenameAmountChar)
    case LabelledAmount(_) =>
      && |m.groups| == 2
      && |Group(s, m, 1)| > 0 && AllIn(Group(s, m, 1), AmountChar)
    case RoubleAmount =>
      && |m.groups| == 2
      && |Group(s, m, 1)| > 0 && AllIn(Group(s, m, 1), AmountChar)
    case Numbered(_, body) =>
      BodyShaped(body, s, m)
    case FourDigitsAfter(_) =>
      && |m.groups| == 2
      && NumberOfLength(Group(s, m, 1), 4, 4)
  }

  ghost predicate BodyShaped(body: Body, s: string, m: Match)
    requires ValidIn(s, m)
  {
    match body
    case SlashNumber =>
      && |m.groups| == 2
      && IsSlashNumber(Group(s, m, 1))
    case PlainNumber =>
      && |m.groups| == 2
      && IsNumber(Group(s, m, 1))
    case DashedNumber =>
      && |m.groups| == 3
      && IsNumber(Group(s, m, 1)) && IsNumber(Group(s, m, 2))
  }

  /** A match of `p` starting at `i`. */
  ghost predicate Found(p: Pattern, s: string, i: nat, r: Option<Match>) {
    r.Some? ==> ValidIn(s, r.value) && Start(r.value) == i && Shaped(p, s, r.value)
  }

  // ---------------------------------------------------------------------------
  // Matching at one position

  /** Where the first of the lower-case alternatives `alts[k..]` written at
      `w` (up to case) ends. */
  function AlternativeAt(s: string, w: nat, alts: seq<string>, k: nat): (r: Option<nat>)
    requires w <= |s| && k <= |alts| && LowerWords(alts)
    ensures r.Some? ==> w <= r.value <= |s| && LowerString(s[w..r.value]) in alts
    decreases |alts| - k
  {
    if k == |alts| then None
    else if LitAt(s, w, alts[k], true) then
      LowerOfFoldedMatch(s[w..w + |alts[k]|], alts[k]);
      Some(w + |alts[k]|)
    else AlternativeAt(s, w, alts, k + 1)
  }

  /** Where the month alternation matches at `w`. No alternative is a prefix
      of another, so at most one distinct name can stand there and trying the
      later ones after a failure changes nothing. */
  function MonthAt(s: string, w: nat): (r: Option<nat>)
    requires w <= |s|
    ensures r.Some? ==> w <= r.value <= |s| && IsMonthName(s[w..r.value])
  {
    MonthAlternativesLower();
    AlternativeAt(s, w, MonthAlternatives, 0)
  }

  /** `\s*г?` after the year, which only lengthens the whole match. */
  function YearSuffixEnd(s: string, j: nat): (e: nat)
    requires j <= |s|
    ensures j <= e <= |s|
  {
    var t := RunEnd(s, j, Space);
    if t < |s| && CharEq(s[t], 'г', true) then t + 1 else t
  }

  /** The match of the month-name date pattern, given where its parts stand. */
  function MonthNameDateMatch(s: string, i: nat, d: nat, w: nat, e: nat, y: nat): (m: Match)
    requires i < d <= i + 2 && d <= w <= e <= y && y + 4 <= |s|
    requires AllIn(s[i..d], Digit) && IsMonthName(s[w..e]) && DigitsAt(s, y, 4)
    ensures ValidIn(s, m) && Start(m) == i && Shaped(MonthNameDate, s, m)
  {
    var m := Match([Span(i, YearSuffixEnd(s, y + 4)), Span(i, d), Span(w, e), Span(y, y + 4)]);
    assert ValidIn(s, m);
    assert NumberOfLength(Group(s, m, 1), 1, 2);
    assert Group(s, m, 2) == s[w..e];
    assert NumberOfLength(Group(s, m, 3), 4, 4);
    m
  }

  /** The groups of that match: the day, the month name and the year. */
  lemma MonthNameDateMatchIs(s: string, i: nat, d: nat, w: nat, e: nat, y: nat)
    requires i < d <= i + 2 && d <= w <= e <= y && y + 4 <= |s|
    requires AllIn(s[i..d], Digit) && IsMonthName(s[w..e]) && DigitsAt(s, y, 4)
    ensures MonthNameDateMatch(s, i, d, w, e, y) == Match([Span(i, YearSuffixEnd(s, y + 4)), Span(i, d), Span(w, e), Span(y, y + 4)])
  {
  }

  function MonthNameDateAt(s: string, i: nat): (r: Option<Match>)
    requires i <= |s|
    ensures Found(MonthNameDate, s, i, r)
  {
    var d := BoundedRunEnd(s, i, Digit, 2);
    var w := RunEnd(s, d, Space);
    if d == i || w == d then None
    else match MonthAt(s, w)
      case None => None
      case Some(e) =>
        var y := RunEnd(s, e, Space);
        if y == e || !DigitsAt(s, y, 4) then None
        else Some(MonthNameDateMatch(s, i, d, w, e, y))
  }

  function NumericDateAt(s: string, i: nat): (r: Option<Match>)
    requires i <= |s|
    ensures Found(NumericDate, s, i, r)
  {
    var a := BoundedRunEnd(s, i, Digit, 2);
    if a == i || a >= |s| || s[a] != '.' then None
    else
      var b := BoundedRunEnd(s, a + 1, Digit, 2);
      if b == a + 1 || b >= |s| || s[b] != '.' || !DigitsAt(s, b + 1, 4) then None
      else
        NumericDateShaped(s, i, a, b);
        Some(Match([Span(i, b + 5), Span(i, a), Span(a + 1, b), Span(b + 1, b + 5)]))
  }

  /** Day and month digits around two points, then four digits, make a
      well-shaped numeric-date match. */
  lemma NumericDateShaped(s: string, i: nat, a: nat, b: nat)
    requires i < a <= i + 2 && a + 1 < b <= a + 3 && DigitsAt(s, b + 1, 4)
    requires AllIn(s[i..a], Digit) && AllIn(s[a + 1..b], Digit)
    ensures Found(NumericDate, s, i, Some(Match([Span(i, b + 5), Span(i, a), Span(a + 1, b), Span(b + 1, b + 5)])))
  {
    var m := Match([Span(i, b + 5), Span(i, a), Span(a + 1, b), Span(b + 1, b + 5)]);
    assert ValidIn(s, m);
    assert NumberOfLength(Group(s, m, 1), 1, 2);
    assert NumberOfLength(Group(s, m, 2), 1, 2);
  }

  function FilenameDateAt(s: string, i: nat): (r: Option<Match>)
    requires i <= |s|
    ensures Found(FilenameDate, s, i, r)
  {
    if !DigitsAt(s, i, 2) || i + 6 > |s| || s[i + 2] != '.' || !DigitsAt(s, i + 3, 2) || s[i + 5] != '.' then None
    else
      var y := BoundedRunEnd(s, i + 6, Digit, 4);
      if y < i + 8 then None
      else Some(Match([Span(i, y), Span(i, i + 2), Span(i + 3, i + 5), Span(i + 6, y)]))
  }

  /** Backtracking of `[:\s]+` whose run spans `p..e`: the longest run that
      leaves a character `[^\n\r]+` can start with. */
  function LineStart(s: string, p: nat, e: nat): (r: Option<nat>)
    requires p <= e <= |s|
    ensures r.Some? ==> p < r.value <= e && r.value < |s| && !IsLineBreak(s[r.value])
    ensures r.Some? ==> forall k | r.value < k <= e :: k == |s| || IsLineBreak(s[k])
    ensures r.None? ==> forall k | p < k <= e :: k == |s| || IsLineBreak(s[k])
    decreases e
  {
    if e <= p then None
    else if e < |s| && !IsLineBreak(s[e]) then Some(e)
    else LineStart(s, p, e - 1)
  }

  /** The backtracking point is the last position up to `q` that a line
      can start from. */
  lemma {:induction false} LineStartIs(s: string, p: nat, e: nat, q: nat)
    requires p < e <= q <= |s| && e < |s| && !IsLineBreak(s[e])
    requires forall k | e < k <= q :: k == |s| || IsLineBreak(s[k])
    ensures LineStart(s, p, q) == Some(e)
    decreases q
  {
    if e < q {
      assert q == |s| || IsLineBreak(s[q]);
      LineStartIs(s, p, e, q - 1);
    }
  }

  function LabelLineAt(name: string, s: string, i: nat): (r: Option<Match>)
    requires i <= |s|
    ensures Found(LabelLine(name), s, i, r)
  {
    if !LitAt(s, i, name, true) then None
    else
      var p := i + |name|;
      var q := RunEnd(s, p, ColonOrSpace);
      match LineStart(s, p, q)
      case None => None
      case Some(e) =>
        var f := RunEnd(s, e, NotLineBreak);
        Some(Match([Span(i, f), Span(e, f)]))
  }

  function LegalFormAt(prefix: string, s: string, i: nat): (r: Option<Match>)
    requires i <= |s|
    ensures Found(LegalForm(prefix), s, i, r)
  {
    if !LitAt(s, i, prefix, true) then None
    else
      var p := i + |prefix|;
      var q := RunEnd(s, p, NotCommaOrLineBreak);
      if q == p then None
      else
        var m := Match([Span(i, q)]);
        assert Group(s, m, 0)[..|prefix|] == s[i..p];
        assert Group(s, m, 0)[|prefix|..] == s[p..q];
        Some(m)
  }

  function FilenameAmountAt(s: string, i: nat): (r: Option<Match>)
    requires i <= |s|
    ensures Found(FilenameAmount, s, i, r)
  {
    if i == |s| || s[i] != '=' then None
    else
      var q := RunEnd(s, i + 1, Space);
      var e := RunEnd(s, q, FilenameAmountChar);
      if e == q then None
      else Some(Match([Span(i, e), Span(q, e)]))
  }

  function LabelledAmountAt(name: string, s: string, i: nat): (r: Option<Match>)
    requires i <= |s|
    ensures Found(LabelledAmount(name), s, i, r)
  {
    if !LitAt(s, i, name, true) then None
    else match FirstInClass(s, i + |name|, AmountChar)
      case None => None
      case Some(j) =>
        var q := RunEnd(s, j, AmountChar);
        Some(Match([Span(i, q), Span(j, q)]))
  }

  /** Backtracking of a greedy group spanning `i..e` followed by `\s*lit`,
      as in `([\d\s.,]+)\s*руб`: the longest group after which `\s*`
      reaches `lit`. */
  function GroupEndBefore(s: string, i: nat, e: nat, lit: string): (r: Option<nat>)
    requires i <= e <= |s|
    ensures r.Some? ==> i < r.value <= e && LitAt(s, RunEnd(s, r.value, Space), lit, true)
    ensures r.Some? ==> forall k | r.value < k <= e :: !LitAt(s, RunEnd(s, k, Space), lit, true)
    ensures r.None? ==> forall k | i < k <= e :: !LitAt(s, RunEnd(s, k, Space), lit, true)
    decreases e
  {
    if e <= i then None
    else if LitAt(s, RunEnd(s, e, Space), lit, true) then Some(e)
    else GroupEndBefore(s, i, e - 1, lit)
  }

  function RoubleAmountAt(s: string, i: nat): (r: Option<Match>)
    requires i <= |s|
    ensures Found(RoubleAmount, s, i, r)
  {
    if i == |s| || !InClass(s[i], AmountChar) then None
    else
      var q := RunEnd(s, i, AmountChar);
      match GroupEndBefore(s, i, q, Rouble)
      case None => None
      case Some(e) =>
        var t := RunEnd(s, e, Space);
        RoubleShaped(s, i, e, t);
        Some(Match([Span(i, t + |Rouble|), Span(i, e)]))
  }

  /** Amount characters from `i` to `e` and "руб" at `t` make a well-shaped
      match from `i` to past the literal. */
  lemma RoubleShaped(s: string, i: nat, e: nat, t: nat)
    requires i < e <= t && LitAt(s, t, Rouble, true)
    requires forall k | i <= k < e :: InClass(s[k], AmountChar)
    ensures Found(RoubleAmount, s, i, Some(Match([Span(i, t + |Rouble|), Span(i, e)])))
  {
    assert forall k | 0 <= k < e - i :: s[i..e][k] == s[i + k];
  }

  predicate IsMarker(c: char, ci: bool) {
    c == '№' || CharEq(c, 'N', ci)
  }

  /** `[№N]?\s*` from `q`. */
  function OptionalMarker(s: string, q: nat, ci: bool): (h: nat)
    requires q <= |s|
    ensures q <= h <= |s|
  {
    RunEnd(s, if q < |s| && IsMarker(s[q], ci) then q + 1 else q, Space)
  }

  /** Where the number of a numbered pattern starts, if its head matches. */
  function HeadEnd(head: Head, s: string, i: nat): (r: Option<nat>)
    requires i <= |s|
    ensures r.Some? ==> i <= r.value <= |s|
  {
    match head
    case Labelled(name) =>
      if LitAt(s, i, name, true) then Some(OptionalMarker(s, RunEnd(s, i + |name|, Space), true)) else None
    case Marked =>
      if i < |s| && IsMarker(s[i], false) then Some(RunEnd(s, i + 1, Space)) else None
    case Unlabelled =>
      Some(i)
    case IncomingRef =>
      if LitAt(s, i, IncomingMark, true) then Some(OptionalMarker(s, RunEnd(s, i + |IncomingMark|, DotOrSpace), true)) else None
  }

  /** The number of a numbered pattern, starting at `h`, for a match that
      starts at `i`. */
  function BodyAt(body: Body, s: string, i: nat, h: nat): (r: Option<Match>)
    requires i <= h <= |s|
    ensures r.Some? ==> ValidIn(s, r.value) && Start(r.value) == i && BodyShaped(body, s, r.value)
  {
    var a := RunEnd(s, h, Digit);
    if a == h then None
    else match body
      case PlainNumber =>
        var m := Match([Span(i, a), Span(h, a)]);
        assert Group(s, m, 1) == s[h..a];
        Some(m)
      case SlashNumber =>
        if a == |s| || s[a] != '/' then None
        else
          var b := RunEnd(s, a + 1, Digit);
          if b == a + 1 then None else Some(SlashMatch(s, i, h, a, b))
      case DashedNumber =>
        if a == |s| || s[a] != '-' then None
        else
          var b := RunEnd(s, a + 1, Digit);
          if b == a + 1 then None
          else
            var m := Match([Span(i, b), Span(h, a), Span(a + 1, b)]);
            assert Group(s, m, 1) == s[h..a];
            assert Group(s, m, 2) == s[a + 1..b];
            Some(m)
  }

  function SlashMatch(s: string, i: nat, h: nat, a: nat, b: nat): (m: Match)
    requires i <= h < a < b <= |s| && s[a] == '/'
    requires AllIn(s[h..a], Digit) && AllIn(s[a + 1..b], Digit) && a + 1 < b
    ensures ValidIn(s, m) && Start(m) == i && BodyShaped(SlashNumber, s, m)
  {
    var m := Match([Span(i, b), Span(h, b)]);
    var g := Group(s, m, 1);
    assert g == s[h..b];
    assert g[a - h] == '/';
    assert g[..a - h] == s[h..a];
    assert g[a - h + 1..] == s[a + 1..b];
    m
  }

  function NumberedAt(head: Head, body: Body, s: string, i: nat): (r: Option<Match>)
    requires i <= |s|
    ensures Found(Numbered(head, body), s, i, r)
  {
    match HeadEnd(head, s, i)
    case None => None
    case Some(h) => BodyAt(body, s, i, h)
  }

  /** Whether the number of a numbered pattern matches depends only on where
      it starts, not on where the whole match starts. */
  lemma BodyIgnoresStart(body: Body, s: string, i: nat, h: nat)
    requires i <= h <= |s|
    ensures BodyAt(body, s, i, h).Some? <==> BodyAt(body, s, h, h).Some?
  {
  }

  /** Wherever a slash number follows some head, the bare slash-number
      pattern matches too, no later than that number. */
  lemma SlashNumberAlsoBare(head: Head, s: string, i: nat)
    requires i <= |s| && NumberedAt(head, SlashNumber, s, i).Some?
    ensures Exec(Numbered(Unlabelled, SlashNumber), s).Some?
  {
    var h := HeadEnd(head, s, i).value;
    BodyIgnoresStart(SlashNumber, s, i, h);
    UnlabelledAt(SlashNumber, s, h);
    ExecFinds(Numbered(Unlabelled, SlashNumber), s, h);
  }

  /** A bare numbered pattern is its number alone. */
  lemma UnlabelledAt(body: Body, s: string, h: nat)
    requires h <= |s|
    ensures MatchAt(Numbered(Unlabelled, body), s, h) == BodyAt(body, s, h, h)
  {
    assert HeadEnd(Unlabelled, s, h) == Some(h);
  }

  /** Where the label of a four-digit pattern ends, if it stands at `i`. */
  function OfferEnd(offer: OfferLabel, s: string, i: nat): (r: Option<nat>)
    requires i <= |s|
    ensures r.Some? ==> i <= r.value <= |s|
  {
    match offer
    case AccountOffer =>
      var j := i + |Account|;
      if LitAt(s, i, Account, true) && j < |s| && (s[j] == '-' || IsSpace(s[j])) && LitAt(s, j + 1, Offer, true)
      then Some(j + 1 + |Offer|) else None
    case OfferOnly =>
      if LitAt(s, i, Offer, true) then Some(i + |Offer|) else None
  }

  function FourDigitsAfterAt(offer: OfferLabel, s: string, i: nat): (r: Option<Match>)
    requires i <= |s|
    ensures Found(FourDigitsAfter(offer), s, i, r)
  {
    match OfferEnd(offer, s, i)
    case None => None
    case Some(p) =>
      match FirstFourDigits(s, p)
      case None => None
      case Some(j) =>
        FourDigitsShaped(offer, s, i, j);
        Some(Match([Span(i, j + 4), Span(j, j + 4)]))
  }

  /** Four digits at `j` make a well-shaped match from `i` to past them. */
  lemma FourDigitsShaped(offer: OfferLabel, s: string, i: nat, j: nat)
    requires i <= j && DigitsAt(s, j, 4)
    ensures Found(FourDigitsAfter(offer), s, i, Some(Match([Span(i, j + 4), Span(j, j + 4)])))
  {
  }

  /** Pattern `p` matched against `s` with the match starting at `i`. */
  function MatchAt(p: Pattern, s: string, i: nat): (r: Option<Match>)
    requires i <= |s|
    ensures Found(p, s, i, r)
  {
    match p
    case MonthNameDate => MonthNameDateAt(s, i)
    case NumericDate => NumericDateAt(s, i)
    case FilenameDate => FilenameDateAt(s, i)
    case LabelLine(name) => LabelLineAt(name, s, i)
    case LegalForm(prefix) => LegalFormAt(prefix, s, i)
    case FilenameAmount => FilenameAmountAt(s, i)
    case LabelledAmount(name) => LabelledAmountAt(name, s, i)
    case RoubleAmount => RoubleAmountAt(s, i)
    case Numbered(head, body) => NumberedAt(head, body, s, i)
    case FourDigitsAfter(offer) => FourDigitsAfterAt(offer, s, i)
  }

  // ---------------------------------------------------------------------------
  // `String.prototype.match`

  /** What `p` finds at each position of `s`, from the first to past the
      last. */
  function Attempts(p: Pattern, s: string): (ms: seq<Option<Match>>)
    ensures |ms| == |s| + 1
    ensures forall j | 0 <= j <= |s| :: ms[j] == MatchAt(p, s, j)
  {
    seq(|s| + 1, j requires 0 <= j <= |s| => MatchAt(p, s, j))
  }

  /** `s.match(p)`: the match at the leftmost position where `p` matches. */
  function Exec(p: Pattern, s: string): (r: Option<Match>)
    ensures r.None? <==> forall j | 0 <= j <= |s| :: MatchAt(p, s, j).None?
    ensures r.Some? ==> ValidIn(s, r.value) && Shaped(p, s, r.value)
    ensures r.Some? ==> MatchAt(p, s, Start(r.value)) == r && forall j | 0 <= j < Start(r.value) :: MatchAt(p, s, j).None?
  {
    var ms := Attempts(p, s);
    match FirstSomeAt(ms)
    case None => None
    case Some(i) =>
      assert Found(p, s, i, MatchAt(p, s, i));
      ms[i]
  }

  /** A pattern that matches somewhere is found, no later than there. */
  lemma ExecFinds(p: Pattern, s: string, j: nat)
    requires j <= |s| && MatchAt(p, s, j).Some?
    ensures Exec(p, s).Some? && Start(Exec(p, s).value) <= j
  {
  }

  /** A match at `j` with none before it is the one `match` returns. */
  lemma ExecAt(p: Pattern, s: string, j: nat)
    requires j <= |s| && MatchAt(p, s, j).Some?
    requires forall i | 0 <= i < j :: MatchAt(p, s, i).None?
    ensures Exec(p, s) == MatchAt(p, s, j)
  {
    var ms := Attempts(p, s);
    FirstSomeAtIs(ms, j);
  }

  /** The first pattern of an ordered list that matches, with its match:
      the shape of every `for (let pattern of patterns)` loop that returns
      on the first match. */
  datatype Hit = Hit(index: nat, m: Match)

  function FirstMatch(ps: seq<Pattern>, s: string): (r: Option<Hit>)
    ensures r.None? <==> forall k | 0 <= k < |ps| :: Exec(ps[k], s).None?
    ensures r.Some? ==> && r.value.index < |ps|
                        && Exec(ps[r.value.index], s) == Some(r.value.m)
                        && forall k | 0 <= k < r.value.index :: Exec(ps[k], s).None?
  {
    var cs := Execs(ps, s);
    match FirstSomeAt(cs)
    case None => None
    case Some(k) => Some(Hit(k, cs[k].value))
  }

  /** When the first pattern of the list matches, it decides. */
  lemma FirstPatternDecides(ps: seq<Pattern>, s: string)
    requires |ps| > 0 && Exec(ps[0], s).Some?
    ensures FirstMatch(ps, s) == Some(Hit(0, Exec(ps[0], s).value))
  {
  }

  /** The result of each pattern, in order. */
  function Execs(ps: seq<Pattern>, s: string): (cs: seq<Option<Match>>)
    ensures |cs| == |ps| && forall k | 0 <= k < |ps| :: cs[k] == Exec(ps[k], s)
  {
    seq(|ps|, k requires 0 <= k < |ps| => Exec(ps[k], s))
  }

  // ---------------------------------------------------------------------------
  // Text of a pattern's form is matched, with the groups the form fixes

  /** No alternative is a proper prefix of another, so at most one distinct
      alternative can stand at a position. */
  predicate PrefixFree(alts: seq<string>) {
    forall k, j | 0 <= k < |alts| && 0 <= j < |alts| && |alts[k]| < |alts[j]| :: alts[j][..|alts[k]|] != alts[k]
  }

  lemma MonthAlternativesPrefixFree()
    ensures PrefixFree(MonthAlternatives)
  {
    var a := MonthAlternatives;
    forall k, j | 0 <= k < |a| && 0 <= j < |a| && |a[k]| < |a[j]|
      ensures a[j][..|a[k]|] != a[k]
    {
      assert a[j][..|a[k]|][0] == a[j][0] && a[j][..|a[k]|][1] == a[j][1] && a[j][..|a[k]|][2] == a[j][2];
      assert a[j][0] != a[k][0] || a[j][1] != a[k][1] || a[j][2] != a[k][2];
    }
  }

  /** When alternative `j` stands at `w` up to case, the alternation tried
      from `k` on ends where that alternative ends. */
  lemma {:induction false} AlternativeFound(s: string, w: nat, alts: seq<string>, k: nat, j: nat)
    requires w <= |s| && LowerWords(alts) && PrefixFree(alts)
    requires k <= j < |alts| && LitAt(s, w, alts[j], true)
    ensures AlternativeAt(s, w, alts, k) == Some(w + |alts[j]|)
    decreases j - k
  {
    if k < j {
      if LitAt(s, w, alts[k], true) {
        if |alts[k]| < |alts[j]| {
          FoldedPrefix(s, w, alts[k], alts[j]);
          assert false;
        } else if |alts[j]| < |alts[k]| {
          FoldedPrefix(s, w, alts[j], alts[k]);
          assert false;
        }
      } else {
        AlternativeFound(s, w, alts, k + 1, j);
      }
    }
  }

  /** A month name written at `w`, in any case, is found by the month
      alternation and ends where the name ends. */
  lemma MonthFound(s: string, w: nat, k: nat, e: nat)
    requires w <= |s| && k < |MonthAlternatives| && LitAt(s, w, MonthAlternatives[k], true)
    requires e == w + |MonthAlternatives[k]|
    ensures MonthAt(s, w) == Some(e)
  {
    MonthAlternativesLower();
    MonthAlternativesPrefixFree();
    AlternativeEnd(s, w, MonthAlternatives, k, e);
  }

  lemma AlternativeEnd(s: string, w: nat, alts: seq<string>, j: nat, e: nat)
    requires w <= |s| && LowerWords(alts) && PrefixFree(alts)
    requires j < |alts| && LitAt(s, w, alts[j], true) && e == w + |alts[j]|
    ensures AlternativeAt(s, w, alts, 0) == Some(e)
  {
    AlternativeFound(s, w, alts, 0, j);
  }

  /** `(\d{1,2})\s+(month)\s+(\d{4})` written at `i`: a day of one or two
      digits up to `d`, white space up to `w`, month name `k` in any case,
      white space up to `y`, four digits. */
  ghost predicate MonthNameDateForm(s: string, i: nat, d: nat, w: nat, k: nat, e: nat, y: nat) {
    && k < |MonthAlternatives| && e == w + |MonthAlternatives[k]|
    && i < d <= i + 2 && d < w < e < y && y + 4 <= |s|
    && AllIn(s[i..d], Digit) && AllIn(s[d..w], Space)
    && LitAt(s, w, MonthAlternatives[k], true)
    && AllIn(s[e..y], Space) && DigitsAt(s, y, 4)
  }

  lemma MonthNameDateFound(s: string, i: nat, d: nat, w: nat, k: nat, e: nat, y: nat)
    requires MonthNameDateForm(s, i, d, w, k, e, y)
    ensures MonthNameDateAt(s, i) == Some(Match([Span(i, YearSuffixEnd(s, y + 4)), Span(i, d), Span(w, e), Span(y, y + 4)]))
  {
    MonthWordStart(s, w, k);
    MonthFound(s, w, k, e);
    MonthNamePartsFound(s, i, d, w, e, y);
  }

  /** A month name starts with a letter, so no white space run crosses it. */
  lemma MonthWordStart(s: string, w: nat, k: nat)
    requires k < |MonthAlternatives| && w <= |s| && LitAt(s, w, MonthAlternatives[k], true)
    ensures w < |s| && !IsSpace(s[w])
  {
    var alt := MonthAlternatives[k];
    MonthAlternativesLower();
    assert IsLowerLetter(alt[0]);
    WordStart(s, w, alt);
  }

  /** The runs around a month name the alternation has found at `w`. */
  lemma MonthNamePartsFound(s: string, i: nat, d: nat, w: nat, e: nat, y: nat)
    requires i < d <= i + 2 && d < w < e < y && y + 4 <= |s|
    requires AllIn(s[i..d], Digit) && AllIn(s[d..w], Space) && !IsSpace(s[w])
    requires MonthAt(s, w) == Some(e) && AllIn(s[e..y], Space) && DigitsAt(s, y, 4)
    ensures MonthNameDateAt(s, i) == Some(Match([Span(i, YearSuffixEnd(s, y + 4)), Span(i, d), Span(w, e), Span(y, y + 4)]))
  {
    AllInSlice(s, i, d, Digit);
    AllInSlice(s, d, w, Space);
    AllInSlice(s, e, y, Space);
    BoundedRunEndIs(s, i, d, Digit, 2);
    RunEndIs(s, d, w, Space);
    assert s[y..y + 4][0] == s[y];
    RunEndIs(s, e, y, Space);
  }

  /** A day, white space, a word equal up to case to `alt`, white space and
      a year written after text without digits, `pre`: where the parts
      stand. */
  lemma MonthNameDateLayout(s: string, pre: string, day: string, sp1: string, name: string, sp2: string, year: string, post: string, alt: string)
    returns (d: nat, w: nat, e: nat, y: nat)
    requires s == pre + day + sp1 + name + sp2 + year + post
    requires forall j | 0 <= j < |pre| :: !IsDigit(pre[j])
    requires 0 < |day| <= 2 && IsDigits(day) && 0 < |sp1| && AllIn(sp1, Space)
    requires StrEq(name, alt, true) && 0 < |sp2| && AllIn(sp2, Space) && |year| == 4 && IsDigits(year)
    ensures d == |pre| + |day| && w == d + |sp1| && e == w + |alt| && y == e + |sp2|
    ensures y + 4 <= |s| && s[|pre|..d] == day && s[w..e] == name && s[y..y + 4] == year
    ensures forall j | 0 <= j < |pre| :: !IsDigit(s[j])
    ensures AllIn(s[|pre|..d], Digit) && AllIn(s[d..w], Space) && LitAt(s, w, alt, true)
    ensures AllIn(s[e..y], Space) && DigitsAt(s, y, 4)
  {
    var u := pre + day + sp1;
    var v := name + sp2 + year + post;
    assert s == u + v;
    d, w := MonthNameDateHead(s, pre, day, sp1, v);
    e, y := MonthNameDateTail(s, u, name, sp2, year, post, alt);
  }

  lemma MonthNameDateHead(s: string, pre: string, day: string, sp1: string, v: string)
    returns (d: nat, w: nat)
    requires s == (pre + day + sp1) + v
    requires forall j | 0 <= j < |pre| :: !IsDigit(pre[j])
    requires IsDigits(day) && AllIn(sp1, Space)
    ensures d == |pre| + |day| && w == d + |sp1| && w == |pre + day + sp1|
    ensures s[|pre|..d] == day
    ensures forall j | 0 <= j < |pre| :: !IsDigit(s[j])
    ensures AllIn(s[|pre|..d], Digit) && AllIn(s[d..w], Space)
  {
    d, w := |pre| + |day|, |pre| + |day| + |sp1|;
    assert forall j | 0 <= j < |pre| :: s[j] == pre[j];
    assert s[|pre|..d] == day;
    assert s[d..w] == sp1;
  }

  lemma MonthNameDateTail(s: string, u: string, name: string, sp2: string, year: string, post: string, alt: string)
    returns (e: nat, y: nat)
    requires s == u + (name + sp2 + year + post)
    requires StrEq(name, alt, true)
    requires AllIn(sp2, Space) && |year| == 4 && IsDigits(year)
    ensures e == |u| + |alt| && y == e + |sp2| && y + 4 <= |s|
    ensures s[|u|..e] == name && s[y..y + 4] == year
    ensures LitAt(s, |u|, alt, true)
    ensures AllIn(s[e..y], Space) && DigitsAt(s, y, 4)
  {
    StrEqPointwise(name, alt, true);
    e := |u| + |name|;
    y := |u| + |name| + |sp2|;
    assert s[|u|..|u| + |name|] == name;
    assert s[|u| + |name|..y] == sp2;
    assert s[y..y + 4] == year;
  }

  /** Text without a digit before `i` holds no month-name date there, so a
      month-name date written at `i` is the one `match` returns. */
  lemma FirstMonthNameDate(s: string, i: nat, d: nat, w: nat, k: nat, e: nat, y: nat)
    requires MonthNameDateForm(s, i, d, w, k, e, y)
    requires forall j | 0 <= j < i :: !IsDigit(s[j])
    ensures Exec(MonthNameDate, s) == Some(Match([Span(i, YearSuffixEnd(s, y + 4)), Span(i, d), Span(w, e), Span(y, y + 4)]))
  {
    MonthNameDateFound(s, i, d, w, k, e, y);
    forall j | 0 <= j < i
      ensures MatchAt(MonthNameDate, s, j).None?
    {
      assert BoundedRunEnd(s, j, Digit, 2) == j;
    }
    ExecAt(MonthNameDate, s, i);
  }

  /** A lower-case word standing at `w` up to case starts with a letter. */
  lemma WordStart(s: string, w: nat, word: string)
    requires LitAt(s, w, word, true) && |word| > 0 && IsLowerLetter(word[0])
    ensures ('A' <= s[w] <= 'Z') || ('a' <= s[w] <= 'z') || ('\U{0400}' <= s[w] <= '\U{045F}')
  {
    StrEqPointwise(s[w..w + |word|], word, true);
    assert s[w..w + |word|][0] == s[w];
    FoldedLetter(s[w], word[0]);
  }

  /** `(\d{1,2})\.(\d{1,2})\.(\d{4})` written at `i`: the day up to `a`, the
      month up to `b`, four digits after the second point. */
  ghost predicate NumericDateForm(s: string, i: nat, a: nat, b: nat) {
    && i < a <= i + 2 && a + 1 < b <= a + 3 && b < |s|
    && AllIn(s[i..a], Digit) && s[a] == '.'
    && AllIn(s[a + 1..b], Digit) && s[b] == '.'
    && DigitsAt(s, b + 1, 4)
  }

  lemma NumericDateFound(s: string, i: nat, a: nat, b: nat)
    requires NumericDateForm(s, i, a, b)
    ensures NumericDateAt(s, i) == Some(Match([Span(i, b + 5), Span(i, a), Span(a + 1, b), Span(b + 1, b + 5)]))
  {
    NumericDateRuns(s, i, a, b);
  }

  /** Where the day and the month runs of such a date end. */
  lemma NumericDateRuns(s: string, i: nat, a: nat, b: nat)
    requires NumericDateForm(s, i, a, b)
    ensures BoundedRunEnd(s, i, Digit, 2) == a && BoundedRunEnd(s, a + 1, Digit, 2) == b
  {
    AllInSlice(s, i, a, Digit);
    BoundedRunEndIs(s, i, a, Digit, 2);
    AllInSlice(s, a + 1, b, Digit);
    BoundedRunEndIs(s, a + 1, b, Digit, 2);
  }

  /** Text holding a numeric date after `pre`: a day and a month of one or
      two digits and a four-digit year, separated by points, with no other
      digit in the text. */
  ghost predicate NumericDateText(s: string, pre: string, day: string, month: string, year: string, post: string) {
    && s == pre + day + "." + month + "." + year + post
    && (forall j | 0 <= j < |pre| :: !IsDigit(pre[j]))
    && (forall j | 0 <= j < |post| :: !IsDigit(post[j]))
    && 0 < |day| <= 2 && IsDigits(day) && 0 < |month| <= 2 && IsDigits(month)
    && |year| == 4 && IsDigits(year)
  }

  /** Where the parts of such a date stand; the date holds no white space
      and the text no digit outside it. */
  lemma NumericDateLayout(s: string, pre: string, day: string, month: string, year: string, post: string)
    returns (a: nat, b: nat)
    requires NumericDateText(s, pre, day, month, year, post)
    ensures a == |pre| + |day| && b == a + 1 + |month| && b + 5 <= |s|
    ensures NumericDateForm(s, |pre|, a, b)
    ensures s[|pre|..a] == day && s[a + 1..b] == month && s[b + 1..b + 5] == year
    ensures forall j | 0 <= j < |s| && (j < |pre| || b + 5 <= j) :: !IsDigit(s[j])
    ensures forall j | |pre| <= j < b + 5 :: !IsSpace(s[j])
  {
    var i := |pre|;
    a := i + |day|;
    b := a + 1 + |month|;
    var _, _ := NumericDateChars(s, pre, day, month, year, post);
    assert s[i..a] == day;
    assert s[a + 1..b] == month;
    assert s[b + 1..b + 5] == year;
    forall j | i <= j < b + 5
      ensures !IsSpace(s[j])
    {
      if j < a {
        assert IsDigit(day[j - i]);
      } else if a < j < b {
        assert IsDigit(month[j - a - 1]);
      } else if b < j {
        assert IsDigit(year[j - b - 1]);
      }
    }
  }

  /** Where each character of a date `day.month.year` between `pre` and
      `post` comes from. */
  lemma NumericDateChars(s: string, pre: string, day: string, month: string, year: string, post: string)
    returns (a: nat, b: nat)
    requires s == pre + day + "." + month + "." + year + post
    ensures a == |pre| + |day| && b == a + 1 + |month| && |s| == b + 1 + |year| + |post|
    ensures forall j | 0 <= j < |pre| :: s[j] == pre[j]
    ensures forall j | |pre| <= j < a :: s[j] == day[j - |pre|]
    ensures s[a] == '.' && s[b] == '.'
    ensures forall j | a < j < b :: s[j] == month[j - a - 1]
    ensures forall j | b < j <= b + |year| :: s[j] == year[j - b - 1]
    ensures forall j | b + 1 + |year| <= j < |s| :: s[j] == post[j - b - 1 - |year|]
  {
    a := |pre| + |day|;
    b := a + 1 + |month|;
    var u := pre + day + ".";
    var v := month + "." + year;
    assert s == u + v + post;
    NumericDateTail(v, month, year);
  }

  /** The month, a point and the year: where each character comes from. */
  lemma NumericDateTail(v: string, month: string, year: string)
    requires v == month + "." + year
    ensures forall j | 0 <= j < |month| :: v[j] == month[j]
    ensures v[|month|] == '.'
    ensures forall j | |month| < j < |v| :: v[j] == year[j - |month| - 1]
  {
  }

  /** A month-name date starts with a digit and has white space after its
      day and a digit in its year. */
  lemma MonthNameDateSpaced(s: string, i: nat) returns (d: nat, y: nat)
    requires i <= |s| && MonthNameDateAt(s, i).Some?
    ensures i < d < y < |s| && IsDigit(s[i]) && IsSpace(s[d]) && IsDigit(s[y])
  {
    var w, k, e;
    d, w, k, e, y := MonthNameDateSound(s, i);
    AllInSlice(s, i, d, Digit);
    AllInSlice(s, d, w, Space);
    assert s[y..y + 4][0] == s[y];
  }

  /** A text whose digits all lie in a stretch `lo..hi` without white space
      holds no month-name date. */
  lemma NoMonthNameDate(s: string, lo: nat, hi: nat)
    requires forall j | 0 <= j < |s| && (j < lo || hi <= j) :: !IsDigit(s[j])
    requires forall j | lo <= j < hi && j < |s| :: !IsSpace(s[j])
    ensures Exec(MonthNameDate, s).None?
  {
    forall j | 0 <= j <= |s|
      ensures MatchAt(MonthNameDate, s, j).None?
    {
      if MonthNameDateAt(s, j).Some? {
        var d, y := MonthNameDateSpaced(s, j);
        assert false;
      }
    }
  }

  /** `(\d{2})\.(\d{2})\.(\d{2,4})` written at `i`, the year running to `y`:
      as many digits as there are, up to four. */
  ghost predicate FilenameDateForm(s: string, i: nat, y: nat) {
    && i + 8 <= y <= i + 10 && y <= |s|
    && DigitsAt(s, i, 2) && s[i + 2] == '.' && DigitsAt(s, i + 3, 2) && s[i + 5] == '.'
    && AllIn(s[i + 6..y], Digit)
    && (y == i + 10 || y == |s| || !IsDigit(s[y]))
  }

  lemma FilenameDateFound(s: string, i: nat, y: nat)
    requires FilenameDateForm(s, i, y)
    ensures FilenameDateAt(s, i) == Some(Match([Span(i, y), Span(i, i + 2), Span(i + 3, i + 5), Span(i + 6, y)]))
  {
    BoundedRunEndIs(s, i + 6, y, Digit, 4);
  }

  /** `=\s*([\d.,]+)` written at `i`: white space up to `q`, then digits,
      points and commas up to `e`, where the run ends. */
  ghost predicate FilenameAmountForm(s: string, i: nat, q: nat, e: nat) {
    && i < q < e <= |s| && s[i] == '='
    && AllIn(s[i + 1..q], Space) && AllIn(s[q..e], FilenameAmountChar)
    && (e == |s| || !InClass(s[e], FilenameAmountChar))
  }

  lemma FilenameAmountFound(s: string, i: nat, q: nat, e: nat)
    requires FilenameAmountForm(s, i, q, e)
    ensures FilenameAmountAt(s, i) == Some(Match([Span(i, e), Span(q, e)]))
  {
    AllInSlice(s, i + 1, q, Space);
    AllInSlice(s, q, e, FilenameAmountChar);
    assert !IsSpace(s[q]);
    RunEndIs(s, i + 1, q, Space);
    RunEndIs(s, q, e, FilenameAmountChar);
  }

  /** `name[:\s]+([^\n\r]+)` written at `i`: the label, separators up to
      `e`, and the rest of the line from `e` to `f`. The separator run stops
      short of its greedy end only to leave a character the group can take:
      every later position up to that end is a line break or the end of the
      text. */
  ghost predicate LabelLineForm(name: string, s: string, i: nat, e: nat, f: nat) {
    && LitAt(s, i, name, true)
    && i + |name| < e < f <= |s|
    && AllIn(s[i + |name|..e], ColonOrSpace)
    && (forall k | e < k <= RunEnd(s, i + |name|, ColonOrSpace) :: k == |s| || IsLineBreak(s[k]))
    && AllIn(s[e..f], NotLineBreak)
    && (f == |s| || IsLineBreak(s[f]))
  }

  lemma LabelLineFound(name: string, s: string, i: nat, e: nat, f: nat)
    requires LabelLineForm(name, s, i, e, f)
    ensures LabelLineAt(name, s, i) == Some(Match([Span(i, f), Span(e, f)]))
  {
    var p := i + |name|;
    var q := RunEnd(s, p, ColonOrSpace);
    AllInSlice(s, p, e, ColonOrSpace);
    AllInSlice(s, e, f, NotLineBreak);
    assert e <= q;
    assert s[e..f][0] == s[e];
    LineStartIs(s, p, e, q);
    RunEndIs(s, e, f, NotLineBreak);
  }

  /** A label line whose label stands nowhere before `i` is the match
      `match` returns. */
  lemma FirstLabelLine(name: string, s: string, i: nat, e: nat, f: nat)
    requires LabelLineForm(name, s, i, e, f)
    requires forall k | 0 <= k < i :: !LitAt(s, k, name, true)
    ensures Exec(LabelLine(name), s) == Some(Match([Span(i, f), Span(e, f)]))
  {
    LabelLineFound(name, s, i, e, f);
    ExecAt(LabelLine(name), s, i);
  }

  /** Text holding a label line after `pre`: the label `name` written in
      any case, colons and white space, then the rest of the line `x`,
      which starts with neither and runs to a line break or the end. */
  ghost predicate LabelLineText(name: string, s: string, pre: string, written: string, sep: string, x: string, post: string) {
    && s == pre + written + sep + x + post
    && StrEq(written, name, true)
    && 0 < |sep| && AllIn(sep, ColonOrSpace)
    && 0 < |x| && NoLineBreak(x) && !InClass(x[0], ColonOrSpace)
    && (post == [] || IsLineBreak(post[0]))
  }

  /** Where the rest of such a line stands. */
  lemma LabelLineLayout(name: string, s: string, pre: string, written: string, sep: string, x: string, post: string)
    returns (e: nat, f: nat)
    requires LabelLineText(name, s, pre, written, sep, x, post)
    ensures LabelLineForm(name, s, |pre|, e, f) && s[e..f] == x
  {
    StrEqPointwise(written, name, true);
    var i := |pre|;
    var p := i + |written|;
    e := p + |sep|;
    f := e + |x|;
    ConcatParts(pre, written, sep, x, post);
    assert s[e] == s[e..f][0];
    assert f < |s| ==> s[f] == s[f..][0];
    AllInSlice(s, p, e, ColonOrSpace);
    RunEndIs(s, p, e, ColonOrSpace);
    assert AllIn(s[e..f], NotLineBreak);
  }

  /** Such a line, with its label standing nowhere earlier, is what the
      label pattern's `match` returns, its group being the rest of the line. */
  lemma LabelLineInText(name: string, s: string, pre: string, written: string, sep: string, x: string, post: string)
    returns (m: Match)
    requires LabelLineText(name, s, pre, written, sep, x, post)
    requires forall j | 0 <= j < |pre| :: !LitAt(s, j, name, true)
    ensures Exec(LabelLine(name), s) == Some(m) && ValidIn(s, m)
    ensures |m.groups| == 2 && Group(s, m, 1) == x
  {
    var e, f := LabelLineLayout(name, s, pre, written, sep, x, post);
    FirstLabelLine(name, s, |pre|, e, f);
    m := Match([Span(|pre|, f), Span(e, f)]);
  }

  /** `prefix[^,\n\r]+` written at `i`, running to the first comma or line
      break at `q`, or to the end. */
  ghost predicate LegalFormForm(prefix: string, s: string, i: nat, q: nat) {
    && LitAt(s, i, prefix, true)
    && i + |prefix| < q <= |s|
    && AllIn(s[i + |prefix|..q], NotCommaOrLineBreak)
    && (q == |s| || !InClass(s[q], NotCommaOrLineBreak))
  }

  lemma LegalFormFound(prefix: string, s: string, i: nat, q: nat)
    requires LegalFormForm(prefix, s, i, q)
    ensures LegalFormAt(prefix, s, i) == Some(Match([Span(i, q)]))
  {
    AllInSlice(s, i + |prefix|, q, NotCommaOrLineBreak);
    RunEndIs(s, i + |prefix|, q, NotCommaOrLineBreak);
  }

  /** `name[\s\S]*?([\d\s.,]+)` written at `i`: the label, then characters
      that are no amount characters up to `j`, then amount characters up to
      `q`, where the run ends. */
  ghost predicate LabelledAmountForm(name: string, s: string, i: nat, j: nat, q: nat) {
    && LitAt(s, i, name, true)
    && i + |name| <= j < q <= |s|
    && (forall k | i + |name| <= k < j :: !InClass(s[k], AmountChar))
    && AllIn(s[j..q], AmountChar)
    && (q == |s| || !InClass(s[q], AmountChar))
  }

  lemma LabelledAmountFound(name: string, s: string, i: nat, j: nat, q: nat)
    requires LabelledAmountForm(name, s, i, j, q)
    ensures LabelledAmountAt(name, s, i) == Some(Match([Span(i, q), Span(j, q)]))
  {
    AllInSlice(s, j, q, AmountChar);
    assert s[j..q][0] == s[j];
    FirstInClassIs(s, i + |name|, j, AmountChar);
    RunEndIs(s, j, q, AmountChar);
  }

  /** A label, a gap without amount characters and a run of amount
      characters written after `pre`: where the run stands. */
  lemma LabelledAmountLayout(s: string, pre: string, name: string, gap: string, g: string, post: string)
    returns (j: nat, q: nat)
    requires s == pre + name + gap + g + post
    requires forall k | 0 <= k < |gap| :: !InClass(gap[k], AmountChar)
    requires 0 < |g| && AllIn(g, AmountChar)
    requires post == [] || !InClass(post[0], AmountChar)
    ensures j == |pre| + |name| + |gap| && q == j + |g| && s[j..q] == g
    ensures LabelledAmountForm(name, s, |pre|, j, q)
  {
    var u := pre + name + gap;
    assert s == u + (g + post);
    j, q := |u|, |u| + |g|;
    assert s[|pre|..|pre| + |name|] == name;
    LitAtVerbatim(s, |pre|, name, true);
    assert forall k | |pre| + |name| <= k < j :: s[k] == gap[k - |pre| - |name|];
    assert s[j..q] == g;
    assert q < |s| ==> s[q] == post[0];
  }

  /** A labelled amount whose label stands nowhere before `i` is the match
      `match` returns. */
  lemma FirstLabelledAmount(name: string, s: string, i: nat, j: nat, q: nat)
    requires LabelledAmountForm(name, s, i, j, q)
    requires forall k | 0 <= k < i :: !LitAt(s, k, name, true)
    ensures Exec(LabelledAmount(name), s) == Some(Match([Span(i, q), Span(j, q)]))
  {
    LabelledAmountFound(name, s, i, j, q);
    ExecAt(LabelledAmount(name), s, i);
  }

  /** `([\d\s.,]+)\s*руб` written at `i`: amount characters up to `e`,
      white space up to `t`, "руб" in any case at `t`, and no longer run of
      amount characters from `i` reaches "руб" over white space, so the
      backtracking of the greedy group stops at `e`. */
  ghost predicate RoubleAmountForm(s: string, i: nat, e: nat, t: nat) {
    && i < e <= t && LitAt(s, t, Rouble, true)
    && AllIn(s[i..e], AmountChar) && AllIn(s[e..t], Space)
    && forall k | e < k <= RunEnd(s, i, AmountChar) :: !LitAt(s, RunEnd(s, k, Space), Rouble, true)
  }

  lemma RoubleAmountFound(s: string, i: nat, e: nat, t: nat)
    requires RoubleAmountForm(s, i, e, t)
    ensures RoubleAmountAt(s, i) == Some(Match([Span(i, t + |Rouble|), Span(i, e)]))
  {
    WordStart(s, t, Rouble);
    AllInSlice(s, i, e, AmountChar);
    AllInSlice(s, e, t, Space);
    RunEndIs(s, e, t, Space);
    var q := RunEnd(s, i, AmountChar);
    assert e <= q;
    GroupEndBeforeIs(s, i, e, q, Rouble);
  }

  /** The backtracking point is the last group end up to `q` after which
      white space reaches the literal. */
  lemma {:induction false} GroupEndBeforeIs(s: string, i: nat, e: nat, q: nat, lit: string)
    requires i < e <= q <= |s| && LitAt(s, RunEnd(s, e, Space), lit, true)
    requires forall k | e < k <= q :: !LitAt(s, RunEnd(s, k, Space), lit, true)
    ensures GroupEndBefore(s, i, q, lit) == Some(e)
    decreases q
  {
    if e < q {
      GroupEndBeforeIs(s, i, e, q - 1, lit);
    }
  }

  /** "руб" right after a run of amount characters: the group is the whole
      run, trailing white space included. */
  lemma RoubleRightAfter(s: string, i: nat, q: nat)
    requires LitAt(s, q, Rouble, true) && i < q && AllIn(s[i..q], AmountChar)
    ensures RoubleAmountAt(s, i) == Some(Match([Span(i, q + |Rouble|), Span(i, q)]))
  {
    WordStart(s, q, Rouble);
    AllInSlice(s, i, q, AmountChar);
    RunEndIs(s, i, q, AmountChar);
    assert AllIn(s[q..q], Space);
    RoubleAmountFound(s, i, q, q);
  }

  /** `cls*[№N]?\s*` from `p` up to a digit at `h`: characters of `cls`,
      then at most one number sign, then white space. */
  ghost predicate SignGap(s: string, p: nat, h: nat, cls: CharClass, ci: bool) {
    && p <= h < |s| && IsDigit(s[h])
    && (|| AllIn(s[p..h], cls)
        || exists m | p <= m < h :: AllIn(s[p..m], cls) && IsMarker(s[m], ci) && AllIn(s[m + 1..h], Space))
  }

  lemma SignGapEnd(s: string, p: nat, h: nat, cls: CharClass, ci: bool)
    requires cls == Space || cls == DotOrSpace
    requires SignGap(s, p, h, cls, ci)
    ensures OptionalMarker(s, RunEnd(s, p, cls), ci) == h
  {
    if AllIn(s[p..h], cls) {
      UnmarkedGapEnd(s, p, h, cls, ci);
    } else {
      var m :| p <= m < h && AllIn(s[p..m], cls) && IsMarker(s[m], ci) && AllIn(s[m + 1..h], Space);
      MarkedGapEnd(s, p, m, h, cls, ci);
    }
  }

  /** A gap of `cls` characters only, with a digit after it. */
  lemma UnmarkedGapEnd(s: string, p: nat, h: nat, cls: CharClass, ci: bool)
    requires cls == Space || cls == DotOrSpace
    requires p <= h < |s| && IsDigit(s[h]) && AllIn(s[p..h], cls)
    ensures OptionalMarker(s, RunEnd(s, p, cls), ci) == h
  {
    AllInSlice(s, p, h, cls);
    RunEndIs(s, p, h, cls);
    RunEndIs(s, h, h, Space);
  }

  /** A gap of `cls` characters, a number sign at `m`, white space, and a
      digit at `h`. */
  lemma MarkedGapEnd(s: string, p: nat, m: nat, h: nat, cls: CharClass, ci: bool)
    requires cls == Space || cls == DotOrSpace
    requires p <= m < h < |s| && IsDigit(s[h])
    requires AllIn(s[p..m], cls) && IsMarker(s[m], ci) && AllIn(s[m + 1..h], Space)
    ensures OptionalMarker(s, RunEnd(s, p, cls), ci) == h
  {
    MarkerOutsideGap(s[m], ci);
    AllInSlice(s, p, m, cls);
    AllInSlice(s, m + 1, h, Space);
    RunEndIs(s, p, m, cls);
    RunEndIs(s, m + 1, h, Space);
  }

  /** A number sign is neither white space, nor a point, nor a digit. */
  lemma MarkerOutsideGap(c: char, ci: bool)
    requires IsMarker(c, ci)
    ensures !IsSpace(c) && c != '.' && !IsDigit(c)
  {
  }

  /** The head of a numbered pattern written from `i`, with the number
      starting at `h`. */
  ghost predicate HeadForm(head: Head, s: string, i: nat, h: nat) {
    match head
    case Labelled(name) => LitAt(s, i, name, true) && SignGap(s, i + |name|, h, Space, true)
    case Marked => i < h < |s| && IsMarker(s[i], false) && AllIn(s[i + 1..h], Space) && IsDigit(s[h])
    case Unlabelled => h == i
    case IncomingRef => LitAt(s, i, IncomingMark, true) && SignGap(s, i + |IncomingMark|, h, DotOrSpace, true)
  }

  lemma HeadFound(head: Head, s: string, i: nat, h: nat)
    requires i <= |s| && HeadForm(head, s, i, h)
    ensures HeadEnd(head, s, i) == Some(h)
  {
    match head
    case Labelled(name) => LabelledHeadFound(name, s, i, h);
    case Marked => MarkedHeadFound(s, i, h);
    case Unlabelled =>
    case IncomingRef => IncomingHeadFound(s, i, h);
  }

  lemma LabelledHeadFound(name: string, s: string, i: nat, h: nat)
    requires i <= |s| && LitAt(s, i, name, true) && SignGap(s, i + |name|, h, Space, true)
    ensures HeadEnd(Labelled(name), s, i) == Some(h)
  {
    var p := i + |name|;
    assert HeadEnd(Labelled(name), s, i) == Some(OptionalMarker(s, RunEnd(s, p, Space), true));
    SignGapEnd(s, p, h, Space, true);
  }

  lemma MarkedHeadFound(s: string, i: nat, h: nat)
    requires i < h < |s| && IsMarker(s[i], false) && AllIn(s[i + 1..h], Space) && IsDigit(s[h])
    ensures HeadEnd(Marked, s, i) == Some(h)
  {
    AllInSlice(s, i + 1, h, Space);
    RunEndIs(s, i + 1, h, Space);
  }

  lemma IncomingHeadFound(s: string, i: nat, h: nat)
    requires i <= |s| && LitAt(s, i, IncomingMark, true) && SignGap(s, i + |IncomingMark|, h, DotOrSpace, true)
    ensures HeadEnd(IncomingRef, s, i) == Some(h)
  {
    SignGapEnd(s, i + |IncomingMark|, h, DotOrSpace, true);
  }

  /** A digit run from `h` to `a` with no digit after it. */
  ghost predicate DigitRun(s: string, h: nat, a: nat) {
    h < a <= |s| && AllIn(s[h..a], Digit) && (a == |s| || !IsDigit(s[a]))
  }

  /** The number of a numbered pattern written from `h`: digits up to `a`,
      and for a slash or dashed number the separator and digits up to `b`. */
  ghost predicate BodyForm(body: Body, s: string, h: nat, a: nat, b: nat) {
    && DigitRun(s, h, a)
    && (body.PlainNumber? || (a < |s| && s[a] == (if body.SlashNumber? then '/' else '-') && DigitRun(s, a + 1, b)))
  }

  /** The match array of a numbered pattern for those positions. */
  function BodyMatch(body: Body, i: nat, h: nat, a: nat, b: nat): Match {
    match body
    case PlainNumber => Match([Span(i, a), Span(h, a)])
    case SlashNumber => Match([Span(i, b), Span(h, b)])
    case DashedNumber => Match([Span(i, b), Span(h, a), Span(a + 1, b)])
  }

  lemma NumberedFound(head: Head, body: Body, s: string, i: nat, h: nat, a: nat, b: nat)
    requires i <= h <= |s| && HeadForm(head, s, i, h) && BodyForm(body, s, h, a, b)
    ensures NumberedAt(head, body, s, i) == Some(BodyMatch(body, i, h, a, b))
  {
    HeadFound(head, s, i, h);
    BodyFound(body, s, i, h, a, b);
  }

  lemma BodyFound(body: Body, s: string, i: nat, h: nat, a: nat, b: nat)
    requires i <= h <= |s| && BodyForm(body, s, h, a, b)
    ensures BodyAt(body, s, i, h) == Some(BodyMatch(body, i, h, a, b))
  {
    DigitRunEnd(s, h, a);
    match body
    case PlainNumber =>
      PlainBodyFound(s, i, h, a);
    case SlashNumber =>
      DigitRunEnd(s, a + 1, b);
      SeparatedBodyFound(SlashNumber, s, i, h, a, b);
    case DashedNumber =>
      DigitRunEnd(s, a + 1, b);
      SeparatedBodyFound(DashedNumber, s, i, h, a, b);
  }

  lemma PlainBodyFound(s: string, i: nat, h: nat, a: nat)
    requires i <= h < a <= |s| && RunEnd(s, h, Digit) == a
    ensures BodyAt(PlainNumber, s, i, h) == Some(Match([Span(i, a), Span(h, a)]))
  {
  }

  /** A slash or dashed number: digits up to `a`, the separator, digits up
      to `b`. */
  lemma SeparatedBodyFound(body: Body, s: string, i: nat, h: nat, a: nat, b: nat)
    requires !body.PlainNumber? && i <= h < a < |s| && s[a] == Separator(body)
    requires a + 1 < b <= |s| && RunEnd(s, h, Digit) == a && RunEnd(s, a + 1, Digit) == b
    ensures BodyAt(body, s, i, h) == Some(BodyMatch(body, i, h, a, b))
  {
  }

  /** A digit run is where the digit run from its start ends. */
  lemma DigitRunEnd(s: string, h: nat, a: nat)
    requires DigitRun(s, h, a)
    ensures RunEnd(s, h, Digit) == a
  {
    AllInSlice(s, h, a, Digit);
    RunEndIs(s, h, a, Digit);
  }

  /** The label of a four-digit pattern written at `i` and ending at `p`. */
  ghost predicate OfferForm(offer: OfferLabel, s: string, i: nat, p: nat) {
    match offer
    case AccountOffer =>
      && LitAt(s, i, Account, true) && i + |Account| < |s|
      && (s[i + |Account|] == '-' || IsSpace(s[i + |Account|]))
      && LitAt(s, i + |Account| + 1, Offer, true)
      && p == i + |Account| + 1 + |Offer|
    case OfferOnly =>
      LitAt(s, i, Offer, true) && p == i + |Offer|
  }

  /** `label[^]*?(\d{4})` written at `i`: the label up to `p`, then the
      first four digits in a row at or after `p`, at `j`. */
  ghost predicate FourDigitsAfterForm(offer: OfferLabel, s: string, i: nat, p: nat, j: nat) {
    && OfferForm(offer, s, i, p)
    && p <= j && DigitsAt(s, j, 4)
    && forall k | p <= k < j :: !DigitsAt(s, k, 4)
  }

  lemma FourDigitsAfterFound(offer: OfferLabel, s: string, i: nat, p: nat, j: nat)
    requires i <= |s| && FourDigitsAfterForm(offer, s, i, p, j)
    ensures FourDigitsAfterAt(offer, s, i) == Some(Match([Span(i, j + 4), Span(j, j + 4)]))
  {
    OfferFound(offer, s, i, p);
    FirstFourDigitsIs(s, p, j);
  }

  lemma OfferFound(offer: OfferLabel, s: string, i: nat, p: nat)
    requires i <= |s| && OfferForm(offer, s, i, p)
    ensures OfferEnd(offer, s, i) == Some(p)
  {
  }

  /** The separator a slash or dashed number has between its two runs. */
  function Separator(body: Body): char
    requires !body.PlainNumber?
  {
    if body.SlashNumber? then '/' else '-'
  }

  /** At most one number sign, `[№N]?` under the `/i` flag. */
  predicate OptionalSign(mark: string) {
    mark == [] || (|mark| == 1 && IsMarker(mark[0], true))
  }

  /** Text holding a labelled two-part number after `pre`: the label `name`
      written in any case, white space, an optional number sign, white
      space, then `a/b` or `a-b`, and no digit right after it. */
  ghost predicate LabelledNumberText(name: string, body: Body, s: string, pre: string, written: string, sp1: string, mark: string, sp2: string, a: string, b: string, post: string) {
    && !body.PlainNumber?
    && s == pre + written + sp1 + mark + sp2 + a + [Separator(body)] + b + post
    && StrEq(written, name, true) && OptionalSign(mark)
    && AllIn(sp1, Space) && AllIn(sp2, Space) && IsNumber(a) && IsNumber(b)
    && (post == [] || !IsDigit(post[0]))
  }

  /** Where the parts of such a number stand. */
  lemma LabelledNumberLayout(name: string, body: Body, s: string, pre: string, written: string, sp1: string, mark: string, sp2: string, a: string, b: string, post: string)
    returns (h: nat, x: nat, y: nat)
    requires LabelledNumberText(name, body, s, pre, written, sp1, mark, sp2, a, b, post)
    ensures h == |pre| + |written| + |sp1| + |mark| + |sp2| && x == h + |a| && y == x + 1 + |b|
    ensures |pre| <= h <= y <= |s| && s[h..x] == a && s[x + 1..y] == b && s[h..y] == a + [Separator(body)] + b
    ensures HeadForm(Labelled(name), s, |pre|, h) && BodyForm(body, s, h, x, y)
  {
    var sep := [Separator(body)];
    var u := pre + written + sp1 + mark + sp2;
    var v := a + sep + b + post;
    assert s == u + v;
    HeadLayout(name, s, u, pre, written, sp1, mark, sp2, v);
    h, x, y := BodyLayout(body, s, u, a, sep, b, post);
  }

  lemma HeadLayout(name: string, s: string, u: string, pre: string, written: string, sp1: string, mark: string, sp2: string, v: string)
    requires StrEq(written, name, true) && OptionalSign(mark)
    requires AllIn(sp1, Space) && AllIn(sp2, Space) && |v| > 0 && IsDigit(v[0])
    requires u == pre + written + sp1 + mark + sp2 && s == u + v
    ensures HeadForm(Labelled(name), s, |pre|, |u|)
  {
    StrEqPointwise(written, name, true);
    var i := |pre|;
    var p := i + |written|;
    var n := p + |sp1|;
    var o := n + |mark|;
    assert s[i..p] == written;
    assert s[p..n] == sp1;
    assert s[o..|u|] == sp2;
    assert s[|u|] == v[0];
    if mark == [] {
      assert s[p..|u|] == sp1 + sp2;
      assert forall k | 0 <= k < |sp1 + sp2| :: (sp1 + sp2)[k] == if k < |sp1| then sp1[k] else sp2[k - |sp1|];
    } else {
      assert s[n] == mark[0];
    }
    assert SignGap(s, p, |u|, Space, true);
  }

  lemma BodyLayout(body: Body, s: string, u: string, a: string, sep: string, b: string, post: string)
    returns (h: nat, x: nat, y: nat)
    requires !body.PlainNumber? && sep == [Separator(body)]
    requires IsNumber(a) && IsNumber(b)
    requires post == [] || !IsDigit(post[0])
    requires s == u + (a + sep + b + post)
    ensures h == |u| && x == h + |a| && y == x + 1 + |b|
    ensures y <= |s| && s[h..x] == a && s[x + 1..y] == b && s[h..y] == a + sep + b
    ensures BodyForm(body, s, h, x, y)
  {
    h, x, y := |u|, |u| + |a|, |u| + |a| + 1 + |b|;
    assert s[h..x] == a;
    assert s[x] == Separator(body);
    assert s[x + 1..y] == b;
    assert s[h..y] == a + sep + b;
    assert y < |s| ==> s[y] == post[0];
  }

  /** Such a number, with its label standing nowhere earlier, is what the
      labelled pattern's `match` returns: `a/b` as its one group, or `a`
      and `b` as its two. */
  lemma LabelledNumberInText(name: string, body: Body, s: string, pre: string, written: string, sp1: string, mark: string, sp2: string, a: string, b: string, post: string)
    returns (m: Match)
    requires LabelledNumberText(name, body, s, pre, written, sp1, mark, sp2, a, b, post)
    requires forall j | 0 <= j < |pre| :: !LitAt(s, j, name, true)
    ensures Exec(Numbered(Labelled(name), body), s) == Some(m) && ValidIn(s, m)
    ensures body.SlashNumber? ==> |m.groups| == 2 && Group(s, m, 1) == a + "/" + b
    ensures body.DashedNumber? ==> |m.groups| == 3 && Group(s, m, 1) == a && Group(s, m, 2) == b
  {
    var h, x, y := LabelledNumberLayout(name, body, s, pre, written, sp1, mark, sp2, a, b, post);
    FirstLabelledNumber(name, body, s, |pre|, h, x, y);
    m := BodyMatch(body, |pre|, h, x, y);
  }

  /** A numbered pattern written at `i`, whose label stands nowhere before,
      is the match `match` returns. */
  lemma FirstLabelledNumber(name: string, body: Body, s: string, i: nat, h: nat, x: nat, y: nat)
    requires i <= h <= |s| && HeadForm(Labelled(name), s, i, h) && BodyForm(body, s, h, x, y)
    requires forall j | 0 <= j < i :: !LitAt(s, j, name, true)
    ensures Exec(Numbered(Labelled(name), body), s) == Some(BodyMatch(body, i, h, x, y))
  {
    var p := Numbered(Labelled(name), body);
    NumberedFound(Labelled(name), body, s, i, h, x, y);
    assert MatchAt(p, s, i) == Some(BodyMatch(body, i, h, x, y));
    forall j | 0 <= j < i
      ensures MatchAt(p, s, j).None?
    {
      assert HeadEnd(Labelled(name), s, j).None?;
    }
    ExecAt(p, s, i);
  }

  // ---------------------------------------------------------------------------
  // A match at a position is text of the pattern's form, with the groups the
  // form fixes: the converse of the lemmas above

  /** The alternation tried from `k` on succeeds only where one of those
      alternatives stands, and ends where it ends. */
  lemma {:induction false} AlternativeSound(s: string, w: nat, alts: seq<string>, k: nat) returns (j: nat)
    requires w <= |s| && k <= |alts| && LowerWords(alts)
    requires AlternativeAt(s, w, alts, k).Some?
    ensures k <= j < |alts| && LitAt(s, w, alts[j], true)
    ensures AlternativeAt(s, w, alts, k) == Some(w + |alts[j]|)
    decreases |alts| - k
  {
    if LitAt(s, w, alts[k], true) {
      j := k;
    } else {
      j := AlternativeSound(s, w, alts, k + 1);
    }
  }

  lemma MonthAlternativesNonEmpty()
    ensures forall k | 0 <= k < |MonthAlternatives| :: |MonthAlternatives[k]| >= 3
  {
  }

  /** The month alternation succeeds only on a month name, in any case, and
      ends where that name ends. */
  lemma MonthSound(s: string, w: nat) returns (k: nat)
    requires w <= |s| && MonthAt(s, w).Some?
    ensures k < |MonthAlternatives| && LitAt(s, w, MonthAlternatives[k], true)
    ensures MonthAt(s, w) == Some(w + |MonthAlternatives[k]|)
  {
    MonthAlternativesLower();
    k := AlternativeSound(s, w, MonthAlternatives, 0);
  }

  lemma MonthNameDateSound(s: string, i: nat) returns (d: nat, w: nat, k: nat, e: nat, y: nat)
    requires i <= |s| && MonthNameDateAt(s, i).Some?
    ensures MonthNameDateForm(s, i, d, w, k, e, y)
    ensures MonthNameDateAt(s, i) == Some(Match([Span(i, YearSuffixEnd(s, y + 4)), Span(i, d), Span(w, e), Span(y, y + 4)]))
  {
    d := BoundedRunEnd(s, i, Digit, 2);
    w := RunEnd(s, d, Space);
    e := MonthAt(s, w).value;
    y := RunEnd(s, e, Space);
    assert MonthNameDateAt(s, i) == Some(MonthNameDateMatch(s, i, d, w, e, y));
    MonthNameDateMatchIs(s, i, d, w, e, y);
    k := MonthSound(s, w);
    MonthAlternativesNonEmpty();
  }

  lemma NumericDateSound(s: string, i: nat) returns (a: nat, b: nat)
    requires i <= |s| && NumericDateAt(s, i).Some?
    ensures NumericDateForm(s, i, a, b)
    ensures NumericDateAt(s, i) == Some(Match([Span(i, b + 5), Span(i, a), Span(a + 1, b), Span(b + 1, b + 5)]))
  {
    a := BoundedRunEnd(s, i, Digit, 2);
    b := BoundedRunEnd(s, a + 1, Digit, 2);
  }

  lemma FilenameDateSound(s: string, i: nat) returns (y: nat)
    requires i <= |s| && FilenameDateAt(s, i).Some?
    ensures FilenameDateForm(s, i, y)
    ensures FilenameDateAt(s, i) == Some(Match([Span(i, y), Span(i, i + 2), Span(i + 3, i + 5), Span(i + 6, y)]))
  {
    y := BoundedRunEnd(s, i + 6, Digit, 4);
  }

  lemma LabelLineSound(name: string, s: string, i: nat) returns (e: nat, f: nat)
    requires i <= |s| && LabelLineAt(name, s, i).Some?
    ensures LabelLineForm(name, s, i, e, f)
    ensures LabelLineAt(name, s, i) == Some(Match([Span(i, f), Span(e, f)]))
  {
    var p := i + |name|;
    var q := RunEnd(s, p, ColonOrSpace);
    e := LineStart(s, p, q).value;
    f := RunEnd(s, e, NotLineBreak);
    assert InClass(s[e], NotLineBreak);
    assert AllIn(s[p..e], ColonOrSpace) by {
      assert forall k | 0 <= k < e - p :: s[p..e][k] == s[p + k];
    }
  }

  lemma LegalFormSound(prefix: string, s: string, i: nat) returns (q: nat)
    requires i <= |s| && LegalFormAt(prefix, s, i).Some?
    ensures LegalFormForm(prefix, s, i, q)
    ensures LegalFormAt(prefix, s, i) == Some(Match([Span(i, q)]))
  {
    q := RunEnd(s, i + |prefix|, NotCommaOrLineBreak);
  }

  lemma FilenameAmountSound(s: string, i: nat) returns (q: nat, e: nat)
    requires i <= |s| && FilenameAmountAt(s, i).Some?
    ensures FilenameAmountForm(s, i, q, e)
    ensures FilenameAmountAt(s, i) == Some(Match([Span(i, e), Span(q, e)]))
  {
    q := RunEnd(s, i + 1, Space);
    e := RunEnd(s, q, FilenameAmountChar);
  }

  lemma LabelledAmountSound(name: string, s: string, i: nat) returns (j: nat, q: nat)
    requires i <= |s| && LabelledAmountAt(name, s, i).Some?
    ensures LabelledAmountForm(name, s, i, j, q)
    ensures LabelledAmountAt(name, s, i) == Some(Match([Span(i, q), Span(j, q)]))
  {
    j := FirstInClass(s, i + |name|, AmountChar).value;
    q := RunEnd(s, j, AmountChar);
  }

  lemma RoubleAmountSound(s: string, i: nat) returns (e: nat, t: nat)
    requires i <= |s| && RoubleAmountAt(s, i).Some?
    ensures RoubleAmountForm(s, i, e, t)
    ensures RoubleAmountAt(s, i) == Some(Match([Span(i, t + |Rouble|), Span(i, e)]))
  {
    var q := RunEnd(s, i, AmountChar);
    e := GroupEndBefore(s, i, q, Rouble).value;
    t := RunEnd(s, e, Space);
    assert AllIn(s[i..e], AmountChar) by {
      assert forall k | 0 <= k < e - i :: s[i..e][k] == s[i + k];
    }
  }

  /** `cls*[№N]?\s*` from `p`, followed by a digit, is a sign gap. */
  lemma SignGapSound(s: string, p: nat, h: nat, cls: CharClass, ci: bool)
    requires cls == Space || cls == DotOrSpace
    requires p <= |s| && h == OptionalMarker(s, RunEnd(s, p, cls), ci)
    requires h < |s| && IsDigit(s[h])
    ensures SignGap(s, p, h, cls, ci)
  {
    var q := RunEnd(s, p, cls);
    if q < |s| && IsMarker(s[q], ci) {
      assert p <= q < h && AllIn(s[p..q], cls) && IsMarker(s[q], ci) && AllIn(s[q + 1..h], Space);
    } else {
      RunEndIs(s, q, q, Space);
      assert AllIn(s[p..h], cls);
    }
  }

  lemma HeadSound(head: Head, s: string, i: nat, h: nat)
    requires i <= |s| && HeadEnd(head, s, i) == Some(h)
    requires h < |s| && IsDigit(s[h])
    ensures HeadForm(head, s, i, h)
  {
    match head
    case Labelled(name) => SignGapSound(s, i + |name|, h, Space, true);
    case Marked =>
    case Unlabelled =>
    case IncomingRef => SignGapSound(s, i + |IncomingMark|, h, DotOrSpace, true);
  }

  lemma BodySound(body: Body, s: string, i: nat, h: nat) returns (a: nat, b: nat)
    requires i <= h <= |s| && BodyAt(body, s, i, h).Some?
    ensures h < |s| && IsDigit(s[h])
    ensures BodyForm(body, s, h, a, b)
    ensures BodyAt(body, s, i, h) == Some(BodyMatch(body, i, h, a, b))
  {
    a := RunEnd(s, h, Digit);
    b := if body.PlainNumber? then a else RunEnd(s, a + 1, Digit);
  }

  lemma NumberedSound(head: Head, body: Body, s: string, i: nat) returns (h: nat, a: nat, b: nat)
    requires i <= |s| && NumberedAt(head, body, s, i).Some?
    ensures i <= h <= |s| && HeadForm(head, s, i, h) && BodyForm(body, s, h, a, b)
    ensures NumberedAt(head, body, s, i) == Some(BodyMatch(body, i, h, a, b))
  {
    h := HeadEnd(head, s, i).value;
    a, b := BodySound(body, s, i, h);
    HeadSound(head, s, i, h);
  }

  lemma FourDigitsAfterSound(offer: OfferLabel, s: string, i: nat) returns (p: nat, j: nat)
    requires i <= |s| && FourDigitsAfterAt(offer, s, i).Some?
    ensures FourDigitsAfterForm(offer, s, i, p, j)
    ensures FourDigitsAfterAt(offer, s, i) == Some(Match([Span(i, j + 4), Span(j, j + 4)]))
  {
    p := OfferEnd(offer, s, i).value;
    j := FirstFourDigits(s, p).value;
  }
}
