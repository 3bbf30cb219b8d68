/** `extractDataFromText`: the five fields of a payment document, each
    found on its own in the same text (and, for the date and the amount, the
    file name). */
module Extractor {
  import opened Text
  import opened Regex
  import DateField
  import ContractorField
  import AmountField
  import IncomingField
  import CommentField

  /** The object the extractor returns. */
  datatype ExtractedData = ExtractedData(
    date: string,
    contractor: string,
    amount: real,
    incomingNumber: string,
    comment: string)

  function ExtractDataFromText(text: string, filename: string): (d: ExtractedData)
    ensures d.date == DateField.DateNotFound || DateField.IsDottedDate(d.date, 4) || DateField.IsDottedDate(d.date, 3)
    ensures d.contractor == "" || (IsInfix(d.contractor, text) && NoLineBreak(d.contractor) && !IsSpace(d.contractor[0]))
    ensures d.amount >= 0.0
    ensures d.incomingNumber == "" || (IsInfix(d.incomingNumber, text) && (IsNumber(d.incomingNumber) || IsSlashNumber(d.incomingNumber)))
    ensures d.comment == "" || (IsInfix(d.comment, text) && IsNumber(d.comment))
  {
    ExtractedData(
      DateField.ExtractDate(text, filename),
      ContractorField.ExtractContractor(text),
      AmountField.ExtractAmount(text, filename),
      IncomingField.ExtractIncomingNumber(text),
      CommentField.ExtractComment(text))
  }

  /** The fields that read only the text do not depend on the file name:
      renaming the file can change the date and the amount, nothing else. */
  lemma FilenameOnlyAffectsDateAndAmount(text: string, f1: string, f2: string)
    ensures var d1 := ExtractDataFromText(text, f1);
            var d2 := ExtractDataFromText(text, f2);
            d1.contractor == d2.contractor && d1.incomingNumber == d2.incomingNumber && d1.comment == d2.comment
  {
  }
}
