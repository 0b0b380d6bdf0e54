/** `processSummary`: the three extraction steps run on one OCR text and
    fill the review form's store, date and total fields. */
module Receipt {
  import opened Optional
  import Brands
  import Dates
  import Totals

  /** The values the form is filled with, and the two badges of the date field */
  datatype Summary = Summary(store: string, date: Dates.DateField, total: nat, totalText: string)

  /** `processSummary(rawText)` with the clock reading `today` and the host date parser `parse` */
  function ProcessSummary(rawText: string, today: Dates.JsDate, parse: string -> Option<Dates.JsDate>): (r: Summary)
    ensures r.store == Brands.Other || exists k :: 0 <= k < |Brands.BrandData| && Brands.BrandData[k].name == r.store
    ensures Totals.TrailingPrice(r.totalText) == Some(r.total)
    ensures var lines := Totals.CleanLines(rawText);
            || r.total == 0
            || exists k :: 0 <= k < |lines| && !Totals.IsSavings(lines[k])
                           && Totals.TrailingPrice(lines[k]) == Some(r.total)
    ensures r.date.defaulted ==> r.date.text == Dates.FormatShortDate(today) && !r.date.isToday
    ensures r.date.isToday ==> r.date.text == Dates.FormatShortDate(today) && !r.date.defaulted
  {
    var total := Totals.ReceiptTotal(rawText);
    Totals.TotalIsALinePrice(rawText);
    Totals.ToFixed2RoundTrip(total);
    Summary(Brands.AutoDetectStore(rawText), Dates.ExtractDate(rawText, today, parse), total, Totals.ToFixed2(total))
  }
}
