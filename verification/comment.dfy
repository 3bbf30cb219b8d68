/** `extractComment`: the number of a "Счет-Оферта" (account-offer)
    reference, cut down to its last four digits. */
module CommentField {
  import opened Text
  import opened Regex

  const AccountOfferLabel := "Счет-Оферта"

  /** The patterns, in the order they are tried. */
  const CommentPatterns: seq<Pattern> := [
    Numbered(Labelled(AccountOfferLabel), DashedNumber),
    Numbered(Labelled(AccountOfferLabel), PlainNumber),
    Numbered(Labelled(Offer), DashedNumber),
    FourDigitsAfter(AccountOffer),
    FourDigitsAfter(OfferOnly)]

  /** A pattern whose groups capture digit strings. */
  predicate IsCommentPattern(p: Pattern) {
    (p.Numbered? && p.head.Labelled? && !p.body.SlashNumber?) || p.FourDigitsAfter?
  }

  lemma CommentPatternsWellFormed()
    ensures |CommentPatterns| == 5
    ensures forall k | 0 <= k < |CommentPatterns| :: IsCommentPattern(CommentPatterns[k])
  {
  }

  /** JavaScript truthiness of `match[k]`: defined and not empty. */
  predicate Truthy(g: Option<string>) {
    g.Some? && g.value != ""
  }

  /** The three `if`s of the loop body: the second group when present; else
      the last four characters of a first group of four or more; else the
      whole first group; `None` when none applies and the loop goes on. */
  function Selected(s: string, m: Match): (r: Option<string>)
    requires ValidIn(s, m)
    ensures Truthy(Capture(s, m, 2)) ==> r == Capture(s, m, 2)
    ensures !Truthy(Capture(s, m, 2)) && Truthy(Capture(s, m, 1)) ==>
              var g := Capture(s, m, 1).value;
              r.Some? && r.value == g[|g| - if |g| >= 4 then 4 else |g|..]
    ensures r.None? <==> !Truthy(Capture(s, m, 2)) && !Truthy(Capture(s, m, 1))
  {
    var g2 := Capture(s, m, 2);
    var g1 := Capture(s, m, 1);
    if Truthy(g2) then g2
    else if Truthy(g1) && |g1.value| >= 4 then Some(g1.value[|g1.value| - 4..])
    else if Truthy(g1) then g1
    else None
  }

  /** What a pattern contributes: its selection when it matches. */
  function Contribution(p: Pattern, text: string): (r: Option<string>)
    requires IsCommentPattern(p)
    ensures r.Some? ==> IsNumber(r.value) && IsInfix(r.value, text)
    ensures r.None? <==> Exec(p, text).None?
  {
    match Exec(p, text)
    case None => None
    case Some(m) =>
      SelectionIsDigits(p, text, m);
      Selected(text, m)
  }

  /** Every comment pattern captures digits, so a match always selects a
      non-empty digit string and the fall-through to the next pattern never
      happens. */
  lemma SelectionIsDigits(p: Pattern, text: string, m: Match)
    requires IsCommentPattern(p) && ValidIn(text, m) && Shaped(p, text, m)
    ensures Selected(text, m).Some?
    ensures IsNumber(Selected(text, m).value) && IsInfix(Selected(text, m).value, text)
  {
    var g1 := Group(text, m, 1);
    if |m.groups| > 2 {
      assert Truthy(Capture(text, m, 2));
    } else if |g1| >= 4 {
      var a, b :| 0 <= a <= b <= |text| && g1 == text[a..b];
      InfixOfSlice(text, a, b, |g1| - 4, |g1|);
      var t := g1[|g1| - 4..];
      assert forall k | 0 <= k < |t| :: t[k] == g1[|g1| - 4 + k];
    }
  }

  /** The contributions of the patterns, in order. */
  function Contributions(text: string): (cs: seq<Option<string>>)
    ensures |cs| == |CommentPatterns|
    ensures forall k | 0 <= k < |cs| :: IsCommentPattern(CommentPatterns[k]) && cs[k] == Contribution(CommentPatterns[k], text)
  {
    CommentPatternsWellFormed();
    seq(|CommentPatterns|, k requires 0 <= k < |CommentPatterns| => Contribution(CommentPatterns[k], text))
  }

  function ExtractComment(text: string): (r: string)
    ensures r == "" <==> forall k | 0 <= k < |CommentPatterns| :: Exec(CommentPatterns[k], text).None?
    ensures r != "" ==> IsNumber(r) && IsInfix(r, text)
    ensures r != "" ==> exists k | 0 <= k < |CommentPatterns| ::
              && Exec(CommentPatterns[k], text).Some?
              && Selected(text, Exec(CommentPatterns[k], text).value) == Some(r)
              && forall j | 0 <= j < k :: Exec(CommentPatterns[j], text).None?
  {
    match FirstSome(Contributions(text))
    case Some(c) => c
    case None => ""
  }

  /** What a match yields, by the pattern's shape: the part after the dash
      of a dashed number, whatever its length; the last four digits of a
      plain number, or all of a shorter one; the four digits of a lazily
      found group. */
  lemma SelectionByShape(p: Pattern, text: string, m: Match)
    requires IsCommentPattern(p) && ValidIn(text, m) && Shaped(p, text, m)
    ensures p.Numbered? && p.body.DashedNumber? ==> Selected(text, m) == Some(Group(text, m, 2))
    ensures p.Numbered? && p.body.PlainNumber? ==>
              var g := Group(text, m, 1);
              && (|g| >= 4 ==> Selected(text, m) == Some(g[|g| - 4..]))
              && (|g| < 4 ==> Selected(text, m) == Some(g))
    ensures p.FourDigitsAfter? ==> Selected(text, m) == Some(Group(text, m, 1)) && |Group(text, m, 1)| == 4
  {
  }

  /** An account-offer reference `Счет-Оферта № a-b`, with the label in any
      case, any white space around an optional `№` or `N`, and no such label
      earlier in the text, gives the part after the dash, whatever its
      length. */
  lemma AccountOfferDashed(text: string, pre: string, written: string, sp1: string, mark: string, sp2: string, a: string, b: string, post: string)
    requires LabelledNumberText(AccountOfferLabel, DashedNumber, text, pre, written, sp1, mark, sp2, a, b, post)
    requires forall j | 0 <= j < |pre| :: !LitAt(text, j, AccountOfferLabel, true)
    ensures ExtractComment(text) == b
  {
    var m := LabelledNumberInText(AccountOfferLabel, DashedNumber, text, pre, written, sp1, mark, sp2, a, b, post);
    CommentPatternsWellFormed();
    var cs := Contributions(text);
    assert cs[0] == Some(b);
    FirstSomeHead(cs);
  }
}
