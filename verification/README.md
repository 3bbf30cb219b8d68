# pdf-analytics-backend field extractor, in Dafny

The backend reads the text of a PDF payment document (an invoice, a
"счёт-оферта", a "счёт-фактура") and extracts five fields:
- the document date;
- the contractor (the seller);
- the amount to pay;
- the incoming invoice number;
- a short comment: the last four digits of the account-offer number.

`extractDataFromText` calls one extractor per field. Each extractor tries a
fixed list of JavaScript regular expressions in order. The first one that
matches decides, except for the amount, which skips a match whose number does
not read as positive. The date and the amount also look at the uploaded file
name.

This project models those extractors on strings of Unicode characters:
- `text.dfy` (`Text`) holds the character classes of the regular
  expressions, the `/i` case fold, and the string helpers the code calls
  (`trim`, `padStart`, `replace`).
- `number.dfy` (`Number`) holds `parseFloat`, with exact rational values.
- `regex.dfy` (`Regex`) holds one matcher per regular expression and
  `String.prototype.match` on top of them: the leftmost position where a
  pattern matches wins. Each matcher states the language of its capture
  groups, and a companion lemma (`NumericDateFound`, `LabelLineFound`, …)
  states that text written in the pattern's form is matched, with the
  groups exactly where the form puts them, and a `…Sound` lemma
  (`NumericDateSound`, `LabelLineSound`, …) states that a match is text of
  that form, with exactly those groups. Greedy runs are maximal wherever giving characters back cannot
  help. The two places where it can help,
  `Продавец[:\s]+([^\n\r]+)` and `([\d\s.,]+)\s*руб`, backtrack explicitly.
- `date.dfy`, `contractor.dfy`, `amount.dfy`, `incoming.dfy` and
  `comment.dfy` hold one extractor each. `extractor.dfy` combines them.

Two consequences of the code as written:
- A file-name date with a three-digit year (`01.02.123`) gives a nine-character
  date.
- Any legal-form match is accepted as the contractor, however short.

## Model

| member | source | states |
|---|---|---|
| Text.Trim | server.js:142 | `trim` removes exactly the white space at the two ends: the result neither starts nor ends with white space, and it is the input with nothing but white space before and after it |
| Text.TrimOfPadded | server.js:142 | white space, then a piece that neither starts nor ends with white space, then white space trims to exactly that piece |
| Text.TrimStart | server.js:170 | the white space `parseFloat` skips: the result is a suffix, everything removed is white space, and it does not start with white space |
| Text.PadZeros | server.js:101 | `padStart(n, '0')`: as long as the longer of n and x, ends with x, and holds only zeros before it |
| Text.ReplaceFirstComma | server.js:153 | `replace(',', '.')` turns the first comma into a point and keeps every other character, later commas included |
| Text.RemoveSpaces | server.js:169 | `replace(/\s/g, '')` leaves no white space, adds no character, keeps text without white space unchanged, and deletes a single character exactly when it is white space |
| Text.RemoveSpacesAppend | server.js:169 | removing white space from two strings joined is removing it from each and joining the results; with the single-character case this fixes `replace(/\s/g, '')` completely |
| Text.DropTrailingComma | server.js:142 | `replace(/,$/, '')` removes the final comma when there is one and returns any other text unchanged |
| Text.LowerOfFoldedMatch | server.js:102 | text that matched a lower-case month name under `/i` lower-cases back to that name |
| Text.FoldedMatchHasNoSpace | server.js:133-135 | text that matched an upper-case Cyrillic abbreviation under `/i` holds no white space and no comma |
| Text.RemoveSpacesOfDigits | server.js:169 | digits and white space lose the white space and leave a digit string |
| Text.ReplaceCommaAfter | server.js:169 | with no comma before it, the comma after a digit run is the one that becomes a point |
| Text.FirstSomeAt | server.js:166-173 | a loop that returns on the first success: the position of the first success, with none before it; absent exactly when nothing succeeds |
| Text.FirstSome | server.js:210-218 | the same loop, returning the first success itself |
| Number.DigitsValueAppend | server.js:169 | the value of digits followed by digits is the first value shifted by the second's length plus the second value |
| Number.LeadingZerosValue | server.js:101 | leading zeros do not change a digit string's value |
| Number.ParseFloat | server.js:170 | `parseFloat` is NaN exactly when, after leading white space, no numeral starts; otherwise a value ≥ 0 |
| Number.ParseDecimal | server.js:170 | reading back `whole.frac` followed by a non-digit gives exactly its decimal value |
| Number.ParseWhole | server.js:170 | reading back a digit run followed by neither a digit nor a point gives its integer value |
| Regex.MonthAt | server.js:94 | the month alternation consumes text that lower-cases to one of its alternatives |
| Regex.MonthFound | server.js:94 | a month name written in any case is found by the alternation, which ends exactly where the name ends |
| Regex.AlternativeSound | server.js:94 | the alternation succeeds only where one of its alternatives stands, in any case, and ends exactly where that alternative ends |
| Regex.MonthSound | server.js:94 | the month alternation succeeds only on a month name written in any case, and ends where that name ends |
| Regex.MonthNameDateAt | server.js:94 | a match captures 1-2 digits, a month name, and 4 digits |
| Regex.MonthNameDateFound | server.js:94 | a day of one or two digits, white space, a month name in any case, white space and four digits written at a position match there, with the groups exactly the day, the name and the year |
| Regex.FirstMonthNameDate | server.js:94 | with no digit before it, such a date is the match `match` returns |
| Regex.MonthNameDateSound | server.js:94 | a match at a position is a day of one or two digits, white space, a month name, white space and four digits written there, with the groups exactly those parts |
| Regex.MonthNameDateSpaced | server.js:94 | a month-name date starts with a digit and has white space after its day, so it cannot stand in a stretch without white space |
| Regex.NoMonthNameDate | server.js:94 | a text whose digits all lie in one stretch without white space holds no month-name date |
| Regex.NumericDateAt | server.js:108 | a match captures 1-2 digits, 1-2 digits, and 4 digits |
| Regex.NumericDateFound | server.js:108 | `d.m.yyyy` with a day and month of one or two digits written at a position matches there, with the groups exactly the day, the month and the four year digits |
| Regex.NumericDateSound | server.js:108 | a match at a position is `d.m.yyyy` written there, the day and month taking every digit up to two, with the groups exactly the day, the month and the year |
| Regex.NumericDateLayout | server.js:108 | in a text with no other digit, `day.month.year` after `pre` is in the pattern's form, its parts are where the text puts them, and it holds no white space |
| Regex.FilenameDateAt | server.js:117 | a match captures 2 digits, 2 digits, and 2-4 digits |
| Regex.FilenameDateFound | server.js:117 | `dd.mm.yy` written at a position matches there, the year group taking every digit that follows, up to four |
| Regex.FilenameDateSound | server.js:117 | a match at a position is `dd.mm.` and a year of two to four digits written there, the year taking every digit up to four |
| Regex.LineStart | server.js:131-132 | backtracking of `[:\s]+`: the group starts after at least one separator on a character that is not a line break, and no later position of the separator run could start it; when none exists, no position of the run can |
| Regex.LineStartIs | server.js:131-132 | the last position of the separator run from which a line can start is the one chosen |
| Regex.LabelLineAt | server.js:131-132 | a match captures a non-empty piece of one line that runs to the line break or the end of the text |
| Regex.LabelLineFound | server.js:131-132 | a label, separators and the rest of a line match, with the group exactly the rest of the line from the last separator position that a line can start from |
| Regex.LabelLineSound | server.js:131-132 | a match at a position is the label in any case, separators and the rest of a line, the group starting at the last separator position a line can start from |
| Regex.FirstLabelLine | server.js:131-132 | a label line whose label stands nowhere before it is the match `match` returns |
| Regex.LabelLineLayout | server.js:131-132 | the label, colons and white space, then a line that starts with neither, is in the pattern's form with the rest of the line as the group |
| Regex.LabelLineInText | server.js:131-132 | such a line, with its label nowhere earlier, is what `match` returns, its group being exactly the rest of the line |
| Regex.LegalFormAt | server.js:133-135 | a match is the abbreviation (up to case) followed by at least one character, running to the next comma, line break or end |
| Regex.LegalFormFound | server.js:133-135 | the abbreviation in any case followed by a character other than a comma or line break matches, up to the next comma, line break or end |
| Regex.LegalFormSound | server.js:133-135 | a match at a position is the abbreviation in any case and everything up to the next comma, line break or end |
| Regex.FilenameAmountAt | server.js:151 | a match captures a non-empty run of digits, points and commas |
| Regex.FilenameAmountFound | server.js:151 | `=`, optional white space, then a run of digits, points and commas match, with the group exactly that run |
| Regex.FilenameAmountSound | server.js:151 | a match at a position is `=`, white space and the longest run of digits, points and commas, the group exactly that run |
| Regex.LabelledAmountAt | server.js:159-162 | a match captures a non-empty run of digits, white space, points and commas |
| Regex.LabelledAmountFound | server.js:159-162 | a label, characters that are not amount characters, then an amount run match, the lazy gap stopping at the first amount character and the group taking the whole run |
| Regex.FirstLabelledAmount | server.js:159-162 | with the label nowhere before it, such a labelled amount is the match `match` returns |
| Regex.LabelledAmountSound | server.js:159-162 | a match at a position is the label, a gap up to the first amount character, and the whole amount run as the group |
| Regex.GroupEndBefore | server.js:163 | backtracking of `([\d\s.,]+)` before `\s*руб`: the longest group after which optional white space reaches the literal, and none when no group end does |
| Regex.RoubleAmountAt | server.js:163 | a match captures a non-empty run of digits, white space, points and commas |
| Regex.RoubleAmountFound | server.js:163 | an amount run, with the group ending at the last point of the run after which white space reaches "руб" in any case, matches with exactly that group |
| Regex.GroupEndBeforeIs | server.js:163 | the last group end after which white space reaches the literal is the one the backtracking chooses |
| Regex.RoubleRightAfter | server.js:163 | "руб" right after a run of amount characters: the group is the whole run |
| Regex.RoubleAmountSound | server.js:163 | a match at a position is an amount run whose group is cut at the last end that white space and "руб" can follow |
| Regex.NumberedAt | server.js:181-187 | a match captures a slash number, a plain number, or two numbers around a dash, as the pattern says |
| Regex.NumberedFound | server.js:181-187 | a head (a label, a number sign, nothing, or the incoming mark, each with its optional sign and white space) followed by a number matches, with the groups exactly its digit runs |
| Regex.SignGapSound | server.js:181-187 | what the head skips before the digits is its separators, at most one number sign, and white space |
| Regex.HeadSound | server.js:181-187 | a head that ends on a digit is the label, sign or incoming mark in the pattern's form |
| Regex.BodySound | server.js:181-187 | a number body that matches starts on a digit and is a digit run, a slash number or a dashed number as the pattern says |
| Regex.NumberedSound | server.js:181-187 | a match at a position is a head followed by a number in the pattern's form, with the groups exactly its digit runs |
| Regex.FirstLabelledNumber | server.js:181-182 | a labelled number whose label stands nowhere before it is the match `match` returns |
| Regex.LabelledNumberInText | server.js:181-182 | a label in any case, white space, an optional № or N, white space and a slash or dashed number, with the label nowhere earlier, is what `match` returns, with the number's parts as its groups |
| Regex.FourDigitsAfterAt | server.js:206-207 | a match captures exactly four digits |
| Regex.FourDigitsAfterFound | server.js:206-207 | the label followed, at or after its end, by four digits in a row matches, with the group the first four digits in a row after the label |
| Regex.FourDigitsAfterSound | server.js:206-207 | a match at a position is the label followed by the first four digits in a row after it, which are the group |
| Regex.Exec | server.js:139 | `text.match(pattern)`: the leftmost match, with the capture groups its pattern promises; absent exactly when it matches nowhere |
| Regex.ExecAt | server.js:139 | a match at a position with none before it is the one `match` returns |
| Regex.FirstMatch | server.js:138-144 | the first pattern of a list that matches, and its match; absent exactly when none matches |
| Regex.SlashNumberAlsoBare | server.js:185-186 | wherever a slash number follows any head, the bare slash-number pattern matches too |
| DateField.ExtractDate | server.js:92-126 | the result is the not-found sentinel or a `DD.MM.YYYY` date (`DD.MM.YYY` for a three-digit file-name year) |
| DateField.MonthNameHasNumber | server.js:96-102 | every month name the pattern accepts is a key of the month table, so the lookup never yields "undefined" (under the modelled case fold) |
| DateField.MonthNumber | server.js:102 | the table lookup gives a two-digit month number exactly when the lower-cased name is a key, and "undefined" exactly when it is not |
| DateField.MonthNumberOfFolded | server.js:102 | a month name written in any case gets the number of its lower-case spelling |
| DateField.PaddedDigits | server.js:101 | padding one or two digits gives two digits of the same value |
| DateField.FromMonthName | server.js:101-104 | the month-name date: day padded to the same value, month from the table, year copied |
| DateField.FromNumeric | server.js:110-113 | the numeric date: day and month padded to the same values, year copied |
| DateField.FromFilename | server.js:119-122 | the file-name date: day and month copied, a two-digit year prefixed with "20", a longer one kept |
| DateField.MonthNameFormFirst | server.js:94-105 | a month-name date in the text decides, whatever the numeric form and the file name hold |
| DateField.NumericFormSecond | server.js:107-114 | without a month-name date, a numeric date in the text decides, whatever the file name holds |
| DateField.FilenameFormLast | server.js:116-123 | only when the text holds no date is the file name read |
| DateField.NotFoundExactlyWhenNothingMatches | server.js:125 | the sentinel comes back exactly when none of the three patterns matches |
| DateField.MonthNameDateInText | server.js:92-105 | `day month year` after text without digits gives `DD.MM.YYYY`: the day zero-padded, the month's number from the table, the year as written, whatever the file name |
| DateField.NumericDateInText | server.js:107-114 | `d.m.yyyy` in a text with no other digit gives `DD.MM.YYYY`, day and month zero-padded, whatever the file name |
| DateField.NumericDateInTextMatch | server.js:94-114 | in such a text the month-name pattern finds nothing and the numeric pattern finds exactly the day, the month and the year |
| DateField.NoNumericDateBefore | server.js:108 | no numeric date starts where there is no digit |
| ContractorField.Tidy | server.js:142 | the trimmed text with one final comma removed when there is one, otherwise the trimmed text itself; a piece of the input that does not start with white space and adds no line break |
| ContractorField.Chosen | server.js:141 | `match[1] \|\| match[0]`: the first group when the pattern has one and it is not empty, else the whole match |
| ContractorField.ExtractContractor | server.js:128-147 | the result is empty, or a piece of the text on one line that does not start with white space; it is empty when no pattern matches |
| ContractorField.ChosenOnOneLine | server.js:131-141 | whatever a contractor pattern picks contains no line break |
| ContractorField.LabelTakesRestOfLine | server.js:131-142 | a seller or supplier label decides with the rest of its line, trimmed |
| ContractorField.SellerDecides | server.js:131-142 | a match of the seller label decides with its group, trimmed and without one final comma |
| ContractorField.SellerLabelInText | server.js:128-147 | `Продавец` in any case, colons and white space, then the rest of the line, with no such label earlier, gives that rest trimmed and without one final comma |
| ContractorField.LegalFormKeepsAbbreviation | server.js:133-142 | a legal form decides with a non-empty result that starts with the abbreviation up to case, holds no comma, and is the match with trailing white space removed |
| ContractorField.TidyKeepsAbbreviation | server.js:142 | trimming text that starts with an abbreviation and holds no comma only cuts white space at its end |
| AmountField.FilenameAmountValue | server.js:151-155 | the file-name amount is NaN exactly when its digits, with the first comma made a point, start no numeral |
| AmountField.Normalized | server.js:169-170 | NaN exactly when the group, with white space dropped and the first comma made a point, starts no numeral; otherwise a value ≥ 0 |
| AmountField.Candidate | server.js:167-171 | a text pattern proposes a number exactly when it matches and its normalised first group is a number above zero, and then proposes that number |
| AmountField.ExtractAmount | server.js:149-176 | the amount is never negative; a readable file-name amount wins, zero included; otherwise it is 0 exactly when no text pattern proposes a number, and else the proposal of the first pattern that proposes one |
| AmountField.SpacedWholeAmount | server.js:169-170 | digits separated by white space read as the digits joined |
| AmountField.SpacedDecimalAmount | server.js:169-170 | `1 234,56` reads as 1234.56: spaces dropped, the comma made the decimal point |
| AmountField.BlankGroupRejected | server.js:169-171 | a group of white space alone is NaN |
| AmountField.WordAfterLabel | server.js:159-162 | a label followed by white space and a word matches with a blank group, which is rejected |
| AmountField.FilenameAmountFirst | server.js:151-154 | a file name `…=1500,50…` gives 1500.50 whatever the text says |
| AmountField.FilenameZeroKept | server.js:151-154 | a file name `…=0…` gives 0 whatever the text says |
| AmountField.FirstProposalDecides | server.js:166-171 | without a file-name amount, a proposal of the first text pattern is the amount |
| AmountField.TotalDueInText | server.js:149-176 | "Всего к оплате", a gap without amount characters, then `1 234,56`: with no file-name amount, the amount is the joined digits with the decimal fraction |
| IncomingField.CapturedNumber | server.js:193 | `match[1]`: exactly the first group, a slash number or a plain number as the pattern says, and a piece of the text |
| IncomingField.ExtractIncomingNumber | server.js:178-198 | the result is empty exactly when no pattern matches; otherwise it is exactly the first group of the first pattern that matches, a plain or slash number from the text |
| IncomingField.IncomingSlashNeverDecides | server.js:185-186 | the sixth pattern never decides, because the bare slash-number pattern before it matches wherever it does |
| IncomingField.InvoiceSlashNumber | server.js:178-198 | `Счет-фактура`, written in any case, then any white space around an optional `№` or `N`, then `a/b`, with no invoice label before it, gives `a/b` |
| CommentField.SelectionIsDigits | server.js:212-216 | every match of a comment pattern selects a non-empty digit string from the text, so the loop never falls through after a match |
| CommentField.Selected | server.js:213-216 | the second group when it is not empty; else the last four characters of a first group of four or more, or the whole of a shorter one; nothing when neither group is there |
| CommentField.SelectionByShape | server.js:203-216 | a dashed number gives its part after the dash, a plain number its last four digits (or all, if shorter), a lazily found group its four digits |
| CommentField.Contribution | server.js:211-217 | a pattern contributes a digit string exactly when it matches |
| CommentField.ExtractComment | server.js:200-221 | the result is empty exactly when no pattern matches; otherwise it is the selection of the first pattern that matches, a digit string from the text |
| CommentField.AccountOfferDashed | server.js:200-221 | `Счет-Оферта`, written in any case, then any white space around an optional `№` or `N`, then `a-b`, with no such label before it, gives `b`, whatever its length |
| Extractor.ExtractDataFromText | server.js:81-90 | the five fields together keep each field's guarantees: a date or the sentinel, a one-line contractor, an amount ≥ 0, a number from the text, digits from the text |
| Extractor.FilenameOnlyAffectsDateAndAmount | server.js:81-90 | the file name can change only the date and the amount |

## Left out

- The HTTP server, the S3 download and the PDF-to-text step (server.js:1-79, 223-227) are I/O. The text and the file name are parameters.
- Number.ParseFloat: values are exact rationals, not IEEE-754 doubles, so rounding of long digit strings is not modelled. Signs, exponents and `Infinity` are not read, because every string the extractor hands to `parseFloat` holds only digits, points, commas and white space.
- The `/i` flag folds ASCII and the Cyrillic block U+0400-U+045F. Other letters whose upper case falls into these alphabets are not folded; the rounded and tall Cyrillic letters of U+1C80-U+1C88 are an example. In JavaScript "16 нᲂября 2025" (U+1C82 in place of "о") matches the month pattern under `/i`, yet `toLowerCase` leaves U+1C82 as it is, so the lookup misses and the date reads "16.undefined.2025"; the model rejects that month name instead. DateField.MonthNameHasNumber ("the lookup never yields undefined") therefore holds under the modelled fold only.
- JavaScript strings are sequences of UTF-16 code units; here they are sequences of Unicode characters. Every match and every group starts and ends at an end of the text or next to a label letter, digit, separator, comma or line break, none of which is a surrogate, so no group starts or ends inside a surrogate pair; only the numbering of positions differs, not any extracted value.
- `extractDataFromText` returns a JavaScript object; here it is a datatype with the same five fields.
