/** `extractContractor`: the rest of the line after a "Продавец" or
    "Поставщик" label, else the text from a legal-form abbreviation to the
    next comma or line break, trimmed and without one trailing comma. */
module ContractorField {
  import opened Text
  import opened Regex

  const SellerLabel := "Продавец"

  /** The patterns, in the order they are tried. */
  const ContractorPatterns: seq<Pattern> :=
    [LabelLine(SellerLabel), LabelLine("Поставщик"), LegalForm("ООО"), LegalForm("ИП"), LegalForm("АО")]

  /** `match[1] || match[0]`: the first group when the pattern has one and it
      is not empty, else the whole match. */
  function Chosen(s: string, m: Match): (r: string)
    requires ValidIn(s, m)
    ensures IsInfix(r, s)
    ensures if |m.groups| > 1 && Group(s, m, 1) != "" then r == Group(s, m, 1) else r == Group(s, m, 0)
  {
    match Capture(s, m, 1)
    case Some(g) => if g != "" then g else Group(s, m, 0)
    case None => Group(s, m, 0)
  }

  /** `contractor.trim().replace(/,$/, '')`. */
  function Tidy(x: string): (r: string)
    ensures Trim(x) == r + "," || (r == Trim(x) && (r == [] || r[|r| - 1] != ','))
    ensures IsInfix(r, x)
    ensures r == [] || !IsSpace(r[0])
    ensures NoLineBreak(x) ==> NoLineBreak(r)
  {
    var t := Trim(x);
    var r := DropTrailingComma(t);
    assert IsInfix(r, t) by {
      assert r == t[0..|r|];
    }
    InfixTransitive(r, t, x);
    if NoLineBreak(x) then InfixNoLineBreak(r, x); r else r
  }

  /** A label pattern, or a legal form spelled in upper-case Cyrillic. */
  predicate IsContractorPattern(p: Pattern) {
    || p.LabelLine?
    || (p.LegalForm? && forall k | 0 <= k < |p.prefix| :: '\U{0410}' <= p.prefix[k] <= '\U{042F}')
  }

  /** The first two patterns are labels, the other three legal forms. */
  lemma ContractorPatternsWellFormed()
    ensures |ContractorPatterns| == 5
    ensures forall k | 0 <= k < |ContractorPatterns| :: IsContractorPattern(ContractorPatterns[k])
    ensures forall k | 0 <= k < 2 :: ContractorPatterns[k].LabelLine?
    ensures ContractorPatterns[0] == LabelLine(SellerLabel)
    ensures forall k | 2 <= k < 5 :: ContractorPatterns[k].LegalForm? && |ContractorPatterns[k].prefix| > 0
  {
  }

  function ExtractContractor(text: string): (r: string)
    ensures r == "" || (IsInfix(r, text) && !IsSpace(r[0]))
    ensures NoLineBreak(r)
    ensures FirstMatch(ContractorPatterns, text).None? ==> r == ""
  {
    match FirstMatch(ContractorPatterns, text)
    case None => ""
    case Some(h) =>
      var c := Chosen(text, h.m);
      ContractorPatternsWellFormed();
      ChosenOnOneLine(ContractorPatterns[h.index], text, h.m);
      InfixTransitive(Tidy(c), c, text);
      Tidy(c)
  }

  /** Whatever a contractor pattern picks lies on one line. */
  lemma ChosenOnOneLine(p: Pattern, text: string, m: Match)
    requires IsContractorPattern(p) && ValidIn(text, m) && Shaped(p, text, m)
    ensures NoLineBreak(Chosen(text, m))
  {
    var g := Group(text, m, 0);
    if p.LegalForm? {
      var n := |p.prefix|;
      FoldedMatchHasNoSpace(g[..n], p.prefix);
      assert forall k | 0 <= k < |g| :: (k < n ==> g[k] == g[..n][k]) && (k >= n ==> g[k] == g[n..][k - n]);
    }
  }

  /** A "Продавец" or "Поставщик" label decides with the rest of its line:
      the group runs to the line break or the end of the text, and the result
      is that group trimmed, without one trailing comma. */
  lemma LabelTakesRestOfLine(text: string)
    requires FirstMatch(ContractorPatterns, text).Some?
    requires FirstMatch(ContractorPatterns, text).value.index < 2
    ensures var m := FirstMatch(ContractorPatterns, text).value.m;
            && |m.groups| == 2
            && (m.groups[1].hi == |text| || IsLineBreak(text[m.groups[1].hi]))
            && ExtractContractor(text) == Tidy(Group(text, m, 1))
  {
    var h := FirstMatch(ContractorPatterns, text).value;
    ContractorPatternsWellFormed();
    var p := ContractorPatterns[h.index];
    assert p.LabelLine?;
    assert Shaped(p, text, h.m);
    assert Chosen(text, h.m) == Group(text, h.m, 1);
  }

  /** "Продавец" written in any case, with no such label earlier in the
      text, then colons and white space, then the rest of the line `x`
      starting with neither: the contractor is `x` trimmed and without one
      trailing comma. */
  lemma SellerLabelInText(text: string, pre: string, written: string, sep: string, x: string, post: string)
    requires LabelLineText(SellerLabel, text, pre, written, sep, x, post)
    requires forall j | 0 <= j < |pre| :: !LitAt(text, j, SellerLabel, true)
    ensures ExtractContractor(text) == Tidy(x)
  {
    var m := LabelLineInText(SellerLabel, text, pre, written, sep, x, post);
    SellerDecides(text, m);
  }

  /** A match of the seller label decides with its group, when it has one. */
  lemma SellerDecides(text: string, m: Match)
    requires Exec(LabelLine(SellerLabel), text) == Some(m) && ValidIn(text, m)
    requires |m.groups| == 2 && Group(text, m, 1) != ""
    ensures ExtractContractor(text) == Tidy(Group(text, m, 1))
  {
    ContractorPatternsWellFormed();
    FirstPatternDecides(ContractorPatterns, text);
  }

  /** A legal form decides with the abbreviation and what follows it up to
      the next comma or line break, with trailing white space removed: the
      result is never empty, starts with the abbreviation up to case and
      holds no comma. */
  lemma LegalFormKeepsAbbreviation(text: string, h: Hit, prefix: string)
    requires FirstMatch(ContractorPatterns, text) == Some(h)
    requires ContractorPatterns[h.index] == LegalForm(prefix)
    ensures var r := ExtractContractor(text);
            && r == TrimEnd(Group(text, h.m, 0))
            && |r| >= |prefix| > 0
            && StrEq(r[..|prefix|], prefix, true)
            && forall k | 0 <= k < |r| :: r[k] != ','
  {
    ContractorPatternsWellFormed();
    assert ExtractContractor(text) == Tidy(Chosen(text, h.m));
    LegalFormText(LegalForm(prefix), text, h.m);
  }

  lemma LegalFormText(p: Pattern, text: string, m: Match)
    requires IsContractorPattern(p) && p.LegalForm? && |p.prefix| > 0
    requires ValidIn(text, m) && Shaped(p, text, m)
    ensures var r := Tidy(Chosen(text, m));
            && r == TrimEnd(Group(text, m, 0))
            && |r| >= |p.prefix|
            && StrEq(r[..|p.prefix|], p.prefix, true)
            && forall k | 0 <= k < |r| :: r[k] != ','
  {
    var g := Group(text, m, 0);
    var n := |p.prefix|;
    assert Chosen(text, m) == g;
    forall k | n <= k < |g| ensures g[k] != ',' {
      assert g[k] == g[n..][k - n];
    }
    TidyKeepsAbbreviation(g, p.prefix);
  }

  /** Trimming text that starts with an upper-case Cyrillic abbreviation
      (up to case) and holds no comma after it only cuts white space at its
      end. */
  lemma TidyKeepsAbbreviation(g: string, prefix: string)
    requires 0 < |prefix| <= |g| && StrEq(g[..|prefix|], prefix, true)
    requires forall k | 0 <= k < |prefix| :: '\U{0410}' <= prefix[k] <= '\U{042F}'
    requires forall k | |prefix| <= k < |g| :: g[k] != ','
    ensures var r := Tidy(g);
            && r == TrimEnd(g)
            && |r| >= |prefix|
            && StrEq(r[..|prefix|], prefix, true)
            && forall k | 0 <= k < |r| :: r[k] != ','
  {
    var n := |prefix|;
    FoldedMatchHasNoSpace(g[..n], prefix);
    assert forall k | 0 <= k < n :: g[k] == g[..n][k];
    var t := TidyOfUnpadded(g, n);
  }

  /** Comma-free text that starts with something other than white space,
      and has something other than white space at `n - 1`, only loses the
      white space at its end. */
  lemma TidyOfUnpadded(g: string, n: nat) returns (t: string)
    requires 0 < n <= |g| && !IsSpace(g[0]) && !IsSpace(g[n - 1])
    requires forall k | 0 <= k < |g| :: g[k] != ','
    ensures t == TrimEnd(g) && Tidy(g) == t && n <= |t| && t == g[..|t|] && t[..n] == g[..n]
    ensures forall k | 0 <= k < |t| :: t[k] != ','
  {
    RunEndIs(g, 0, 0, Space);
    assert TrimStart(g) == g;
    t := TrimEnd(g);
    assert Trim(g) == t;
    assert forall k | 0 <= k < |t| :: t[k] == g[k];
    assert DropTrailingComma(t) == t;
  }
}
