/** `extractIncomingNumber`: the number of the first of seven patterns that
    matches, each a head (the invoice label, a number sign, nothing, or an
    incoming-reference mark) followed by a slash number or a plain number. */
module IncomingField {
  import opened Text
  import opened Regex

  const InvoiceLabel := "Счет-фактура"

  /** The patterns, in the order they are tried. */
  const IncomingPatterns: seq<Pattern> := [
    Numbered(Labelled(InvoiceLabel), SlashNumber),
    Numbered(Labelled(InvoiceLabel), PlainNumber),
    Numbered(Marked, SlashNumber),
    Numbered(Marked, PlainNumber),
    Numbered(Unlabelled, SlashNumber),
    Numbered(IncomingRef, SlashNumber),
    Numbered(IncomingRef, PlainNumber)]

  /** A numbered pattern with one capture group. */
  predicate IsIncomingPattern(p: Pattern) {
    p.Numbered? && !p.body.DashedNumber?
  }

  lemma IncomingPatternsWellFormed()
    ensures |IncomingPatterns| == 7
    ensures forall k | 0 <= k < |IncomingPatterns| :: IsIncomingPattern(IncomingPatterns[k])
    ensures IncomingPatterns[4] == Numbered(Unlabelled, SlashNumber)
    ensures IncomingPatterns[5] == Numbered(IncomingRef, SlashNumber)
  {
  }

  /** `match[1]` of a numbered pattern: a plain or a slash number. */
  function CapturedNumber(p: Pattern, text: string, m: Match): (r: string)
    requires IsIncomingPattern(p) && ValidIn(text, m) && Shaped(p, text, m)
    ensures r == Group(text, m, 1) && IsInfix(r, text)
    ensures p.body.SlashNumber? ==> IsSlashNumber(r)
    ensures p.body.PlainNumber? ==> IsNumber(r)
  {
    Group(text, m, 1)
  }

  function ExtractIncomingNumber(text: string): (r: string)
    ensures r == "" <==> FirstMatch(IncomingPatterns, text).None?
    ensures r != "" ==> IsInfix(r, text) && (IsNumber(r) || IsSlashNumber(r))
    ensures r != "" ==> var h := FirstMatch(IncomingPatterns, text).value;
                        Capture(text, h.m, 1) == Some(r)
  {
    match FirstMatch(IncomingPatterns, text)
    case None => ""
    case Some(h) =>
      IncomingPatternsWellFormed();
      CapturedNumber(IncomingPatterns[h.index], text, h.m)
  }

  /** The sixth pattern, a slash number after an incoming-reference mark,
      never decides: wherever it matches, the bare slash-number pattern
      before it matches as well. */
  lemma IncomingSlashNeverDecides(text: string)
    ensures FirstMatch(IncomingPatterns, text).Some? ==> FirstMatch(IncomingPatterns, text).value.index != 5
  {
    IncomingPatternsWellFormed();
    var r := FirstMatch(IncomingPatterns, text);
    if r.Some? && r.value.index == 5 {
      var m := r.value.m;
      assert MatchAt(IncomingPatterns[5], text, Start(m)) == Some(m);
      SlashNumberAlsoBare(IncomingRef, text, Start(m));
      assert false;
    }
  }

  /** An invoice reference `Счет-фактура № a/b`, with the label in any case,
      any white space around an optional `№` or `N`, and no invoice label
      earlier in the text, gives `a/b`: the first pattern decides. */
  lemma InvoiceSlashNumber(text: string, pre: string, written: string, sp1: string, mark: string, sp2: string, a: string, b: string, post: string)
    requires LabelledNumberText(InvoiceLabel, SlashNumber, text, pre, written, sp1, mark, sp2, a, b, post)
    requires forall j | 0 <= j < |pre| :: !LitAt(text, j, InvoiceLabel, true)
    ensures ExtractIncomingNumber(text) == a + "/" + b
  {
    var m := LabelledNumberInText(InvoiceLabel, SlashNumber, text, pre, written, sp1, mark, sp2, a, b, post);
    IncomingPatternsWellFormed();
    FirstPatternDecides(IncomingPatterns, text);
  }
}
