/** `extractAmount`: a number after `=` in the file name wins whenever
    `parseFloat` reads it; otherwise each text pattern in turn proposes the
    digits, white space, dots and commas it finds, and the first proposal
    that reads as a positive number is the amount; otherwise 0. */
module AmountField {
  import opened Text
  import opened Number
  import opened Regex

  /** The label of the first text pattern. */
  const TotalDue := "Всего к оплате"

  /** The text patterns, in the order they are tried. */
  const AmountPatterns: seq<Pattern> :=
    [LabelledAmount(TotalDue), LabelledAmount("Сумма"), LabelledAmount("Итого"),
     LabelledAmount("К оплате"), RoubleAmount]

  /** A pattern whose first group holds amount characters. */
  predicate IsAmountPattern(p: Pattern) {
    p.LabelledAmount? || p.RoubleAmount?
  }

  lemma AmountPatternsWellFormed()
    ensures |AmountPatterns| == 5
    ensures forall k | 0 <= k < |AmountPatterns| :: IsAmountPattern(AmountPatterns[k])
  {
  }

  /** `parseFloat(amountStr.replace(',', '.'))` on the file name's number:
      only the first comma becomes a decimal point. */
  function FilenameAmountValue(filename: string): (r: Option<real>)
    ensures r.Some? ==> Exec(FilenameAmount, filename).Some? && r.value >= 0.0
    ensures Exec(FilenameAmount, filename).Some? ==>
              var g := Group(filename, Exec(FilenameAmount, filename).value, 1);
              (r.None? <==> !StartsNumeral(ReplaceFirstComma(g)))
  {
    match Exec(FilenameAmount, filename)
    case None => None
    case Some(m) =>
      var t := ReplaceFirstComma(Group(filename, m, 1));
      ParseUntrimmed(t);
      ParseFloat(t)
  }

  /** Text that starts with an amount character has nothing for
      `parseFloat` to skip. */
  lemma ParseUntrimmed(t: string)
    requires |t| > 0 && InClass(t[0], FilenameAmountChar)
    ensures ParseFloat(t).None? <==> !StartsNumeral(t)
  {
    assert TrimStart(t) == t;
  }

  /** `parseFloat(match[1].replace(/\s/g, '').replace(',', '.'))`: white
      space is dropped everywhere, then the first comma becomes a point. */
  function Normalized(g: string): (r: Option<real>)
    ensures r.Some? ==> r.value >= 0.0
    ensures r.None? <==> !StartsNumeral(ReplaceFirstComma(RemoveSpaces(g)))
  {
    var t := ReplaceFirstComma(RemoveSpaces(g));
    assert t == [] || !IsSpace(t[0]);
    assert TrimStart(t) == t;
    ParseFloat(t)
  }

  /** What one text pattern proposes: its normalised group, kept only when
      it is a number above zero (`!isNaN(amount) && amount > 0`). */
  function Candidate(p: Pattern, text: string): (r: Option<real>)
    requires IsAmountPattern(p)
    ensures r.Some? <==> Exec(p, text).Some? && Accepted(Normalized(Group(text, Exec(p, text).value, 1)))
    ensures r.Some? ==> r == Normalized(Group(text, Exec(p, text).value, 1)) && r.value > 0.0
  {
    match Exec(p, text)
    case None => None
    case Some(m) =>
      var v := Normalized(Group(text, m, 1));
      if Accepted(v) then v else None
  }

  /** `!isNaN(amount) && amount > 0`. */
  predicate Accepted(v: Option<real>) {
    v.Some? && v.value > 0.0
  }

  /** The proposals of the text patterns, in order. */
  function Proposals(text: string): (cs: seq<Option<real>>)
    ensures |cs| == |AmountPatterns|
    ensures forall k | 0 <= k < |cs| :: IsAmountPattern(AmountPatterns[k]) && cs[k] == Candidate(AmountPatterns[k], text)
    ensures forall k | 0 <= k < |cs| :: cs[k].Some? ==> cs[k].value > 0.0
  {
    AmountPatternsWellFormed();
    seq(|AmountPatterns|, k requires 0 <= k < |AmountPatterns| => Candidate(AmountPatterns[k], text))
  }

  function ExtractAmount(text: string, filename: string): (r: real)
    ensures r >= 0.0
    ensures FilenameAmountValue(filename).Some? ==> r == FilenameAmountValue(filename).value
    ensures FilenameAmountValue(filename).None? ==> (r == 0.0 <==> forall k | 0 <= k < |AmountPatterns| :: Proposals(text)[k].None?)
    ensures FilenameAmountValue(filename).None? && r != 0.0 ==>
              exists k | 0 <= k < |AmountPatterns| ::
                && Candidate(AmountPatterns[k], text) == Some(r)
                && forall j | 0 <= j < k :: Candidate(AmountPatterns[j], text).None?
  {
    match FilenameAmountValue(filename)
    case Some(v) => v
    case None =>
      match FirstSome(Proposals(text))
      case Some(v) => v
      case None => 0.0
  }

  /** A group of digits and white space reads as its digits once the white
      space is gone: thousands separated by spaces add up. */
  lemma SpacedWholeAmount(x: string)
    requires forall k | 0 <= k < |x| :: IsDigit(x[k]) || IsSpace(x[k])
    requires |RemoveSpaces(x)| > 0
    ensures IsDigits(RemoveSpaces(x))
    ensures Normalized(x) == Some(DigitsValue(RemoveSpaces(x)) as real)
  {
    RemoveSpacesOfDigits(x);
    var d := RemoveSpaces(x);
    ReplaceNoComma(d);
    assert d + [] == d;
    ParseWhole(d, []);
  }

  /** The same with a decimal comma: `1 234,56` reads as 1234.56. */
  lemma SpacedDecimalAmount(x: string, frac: string)
    requires forall k | 0 <= k < |x| :: IsDigit(x[k]) || IsSpace(x[k])
    requires IsDigits(frac) && |RemoveSpaces(x)| + |frac| > 0
    ensures IsDigits(RemoveSpaces(x))
    ensures Normalized(x + "," + frac) == Some(DecimalValue(RemoveSpaces(x), frac))
  {
    RemoveSpacesOfDigits(x);
    var d := RemoveSpaces(x);
    SpacesBeforeComma(x, frac);
    ReplaceCommaAfter(d, frac);
    assert d + "." + frac + [] == d + "." + frac;
    ParseDecimal(d, frac, []);
  }

  lemma SpacesBeforeComma(x: string, frac: string)
    requires IsDigits(frac)
    ensures RemoveSpaces(x + "," + frac) == RemoveSpaces(x) + "," + frac
  {
    var t := "," + frac;
    assert x + "," + frac == x + t;
    RemoveSpacesAppend(x, t);
    assert forall k | 0 <= k < |t| :: !IsSpace(t[k]) by {
      assert forall k | 1 <= k < |t| :: t[k] == frac[k - 1];
    }
  }

  /** A group of white space alone, which `[\d\s.,]+` captures when a label
      is followed by a word, is NaN and is rejected. */
  lemma BlankGroupRejected(x: string)
    requires forall k | 0 <= k < |x| :: IsSpace(x[k])
    ensures Normalized(x) == None
  {
    RemoveSpacesOfBlank(x);
  }

  /** A label followed by white space and then a word proposes nothing: the
      lazy gap stops at the first white-space character, the group is that
      white space, and the value is rejected. */
  lemma WordAfterLabel(name: string, s: string, i: nat)
    requires i <= |s| && LitAt(s, i, name, true)
    requires i + |name| < |s| && IsSpace(s[i + |name|])
    requires var e := RunEnd(s, i + |name|, Space); e < |s| && !InClass(s[e], AmountChar)
    ensures MatchAt(LabelledAmount(name), s, i).Some?
    ensures Normalized(Group(s, MatchAt(LabelledAmount(name), s, i).value, 1)) == None
  {
    var j := i + |name|;
    var m := MatchAt(LabelledAmount(name), s, i).value;
    assert FirstInClass(s, j, AmountChar) == Some(j);
    assert RunEnd(s, j, AmountChar) == RunEnd(s, j, Space) by {
      RunEndIs(s, j, RunEnd(s, j, Space), AmountChar);
    }
    BlankGroupRejected(Group(s, m, 1));
  }

  /** A file name `…=1500,50…` gives its number, whatever the text says: the
      first `=` is followed by digits, a decimal comma and digits, and the
      comma becomes the decimal point. */
  lemma FilenameAmountFirst(text: string, pre: string, whole: string, frac: string, post: string)
    requires forall k | 0 <= k < |pre| :: pre[k] != '='
    requires IsNumber(whole) && IsDigits(frac)
    requires post == [] || !InClass(post[0], FilenameAmountChar)
    ensures ExtractAmount(text, pre + "=" + whole + "," + frac + post) == DecimalValue(whole, frac)
  {
    var s := pre + "=" + whole + "," + frac + post;
    var g := whole + "," + frac;
    assert s == pre + "=" + g + post;
    assert g[0] == whole[0];
    assert AllIn(g, FilenameAmountChar) by {
      forall k | 0 <= k < |g| ensures InClass(g[k], FilenameAmountChar) {
        if k < |whole| { assert g[k] == whole[k]; }
        else if k > |whole| { assert g[k] == frac[k - |whole| - 1]; }
      }
    }
    var m := FilenameNumberFound(pre, g, post);
    assert forall k | 0 <= k < |whole| :: whole[k] != ',';
    ReplaceCommaAfter(whole, frac);
    assert whole + "." + frac + [] == whole + "." + frac;
    ParseDecimal(whole, frac, []);
    assert FilenameAmountValue(s) == Some(DecimalValue(whole, frac));
  }

  /** Where the file-name pattern finds `=` followed by amount characters. */
  lemma FilenameNumberFound(pre: string, g: string, post: string) returns (m: Match)
    requires forall k | 0 <= k < |pre| :: pre[k] != '='
    requires |g| > 0 && IsDigit(g[0]) && AllIn(g, FilenameAmountChar)
    requires post == [] || !InClass(post[0], FilenameAmountChar)
    ensures Exec(FilenameAmount, pre + "=" + g + post) == Some(m)
    ensures ValidIn(pre + "=" + g + post, m) && |m.groups| == 2 && Group(pre + "=" + g + post, m, 1) == g
  {
    var s := pre + "=" + g + post;
    var i := |pre|;
    var e := i + 1 + |g|;
    assert forall k | 0 <= k < i :: s[k] == pre[k];
    assert s[i] == '=';
    assert s[i + 1..e] == g;
    assert e < |s| ==> s[e] == post[0];
    FilenameAmountFound(s, i, i + 1, e);
    m := Match([Span(i, e), Span(i + 1, e)]);
    assert MatchAt(FilenameAmount, s, i) == Some(m);
    ExecAt(FilenameAmount, s, i);
  }

  /** Unlike a text proposal, a zero in the file name is accepted: `=0`
      (or `=00`, …) gives 0 whatever amount the text names. */
  lemma FilenameZeroKept(text: string, pre: string, zeros: string, post: string)
    requires forall k | 0 <= k < |pre| :: pre[k] != '='
    requires |zeros| > 0 && forall k | 0 <= k < |zeros| :: zeros[k] == '0'
    requires post == [] || !InClass(post[0], FilenameAmountChar)
    ensures ExtractAmount(text, pre + "=" + zeros + post) == 0.0
  {
    var s := pre + "=" + zeros + post;
    ZerosValue(zeros);
    var m := FilenameNumberFound(pre, zeros, post);
    ReplaceNoComma(zeros);
    assert zeros + [] == zeros;
    ParseWhole(zeros, []);
  }

  /** `text` is `pre`, the first label, a gap without digits, white space,
      points or commas, an amount in the spaced decimal form `1 234,56`
      starting with a non-zero digit, and `post`, which does not continue
      the amount; the label stands nowhere earlier. */
  ghost predicate TotalDueText(text: string, pre: string, gap: string, whole: string, frac: string, post: string) {
    && text == pre + TotalDue + gap + (whole + "," + frac) + post
    && (forall j | 0 <= j < |pre| :: !LitAt(text, j, TotalDue, true))
    && (forall k | 0 <= k < |gap| :: !InClass(gap[k], AmountChar))
    && 0 < |whole| && '1' <= whole[0] <= '9'
    && (forall k | 0 <= k < |whole| :: IsDigit(whole[k]) || IsSpace(whole[k]))
    && IsDigits(frac)
    && (post == [] || !InClass(post[0], AmountChar))
  }

  /** "Всего к оплате:1 234,56", or any gap after the label that holds no
      digit, white space, point or comma: with no number after `=` in the
      file name, the amount is the labelled number read without its white
      space. */
  lemma TotalDueInText(text: string, filename: string, pre: string, gap: string, whole: string, frac: string, post: string)
    requires TotalDueText(text, pre, gap, whole, frac, post)
    requires FilenameAmountValue(filename).None?
    ensures IsDigits(RemoveSpaces(whole))
    ensures ExtractAmount(text, filename) == DecimalValue(RemoveSpaces(whole), frac)
  {
    TotalDueProposal(text, pre, gap, whole, frac, post);
    FirstProposalDecides(text, filename);
  }

  /** Without a file-name amount, a proposal of the first text pattern is
      the amount. */
  lemma FirstProposalDecides(text: string, filename: string)
    requires FilenameAmountValue(filename).None? && Candidate(AmountPatterns[0], text).Some?
    ensures ExtractAmount(text, filename) == Candidate(AmountPatterns[0], text).value
  {
    AmountPatternsWellFormed();
    FirstSomeHead(Proposals(text));
  }

  /** What the first text pattern proposes for such a text. */
  lemma TotalDueProposal(text: string, pre: string, gap: string, whole: string, frac: string, post: string)
    requires TotalDueText(text, pre, gap, whole, frac, post)
    ensures IsDigits(RemoveSpaces(whole))
    ensures Candidate(AmountPatterns[0], text) == Some(DecimalValue(RemoveSpaces(whole), frac))
  {
    var m := TotalDueMatch(text, pre, gap, whole, frac, post);
    SpacedDecimalAmount(whole, frac);
    var d := RemoveSpaces(whole);
    assert d == [whole[0]] + RemoveSpaces(whole[1..]);
    LeadingDigitValue(d);
    assert AmountPatterns[0] == LabelledAmount(TotalDue);
  }

  /** Where the first text pattern matches such a text, and what its group
      holds. */
  lemma TotalDueMatch(text: string, pre: string, gap: string, whole: string, frac: string, post: string) returns (m: Match)
    requires TotalDueText(text, pre, gap, whole, frac, post)
    ensures Exec(LabelledAmount(TotalDue), text) == Some(m)
    ensures ValidIn(text, m) && |m.groups| == 2 && Group(text, m, 1) == whole + "," + frac
  {
    var g := whole + "," + frac;
    assert AllIn(g, AmountChar) by {
      forall k | 0 <= k < |g| ensures InClass(g[k], AmountChar) {
        if k < |whole| { assert g[k] == whole[k]; }
        else if k > |whole| { assert g[k] == frac[k - |whole| - 1]; }
      }
    }
    var j, q := LabelledAmountLayout(text, pre, TotalDue, gap, g, post);
    FirstLabelledAmount(TotalDue, text, |pre|, j, q);
    m := Match([Span(|pre|, q), Span(j, q)]);
  }
}
