/**
 * One iteration's view of a results page: whether it is a block page and which
 * tag it gets, the single error row written for a page without dropdowns, and
 * the rows built from a page with dropdowns.
 */
module Page {
  import opened Results
  import opened PyStr
  import opened Dropdown
  import opened Columns

  /** A fetched results page, reduced to the texts the scraper reads from it:
      the whole response text, then the texts of the `multibook-dropdown` divs,
      the departure and arrival time spans and the `bottom` divs, in page order. */
  datatype Page = Page(
    text: string,
    dropdowns: seq<string>,
    departs: seq<string>,
    arrivals: seq<string>,
    bottoms: seq<string>)

  /** The only route the scraper asks for. */
  const Route: string := "LAX-ATL"

  /** The phrase that only the site's "are you a real user" page contains. */
  const Marker: string := "real KAYAK user"

  const UrlHead: string := "https://www.kayak.com/flights/"
  const UrlTail: string := "?sort=bestflight_a&fs=stops=0"

  /** The search address for a route and an ISO date: direct flights, best first. */
  function Url(route: string, date: string): string {
    UrlHead + route + "/" + date + UrlTail
  }

  /** For a fixed route, the address names the date: two dates give the same
      address only when they are the same date. */
  lemma UrlDeterminesDate(route: string, d1: string, d2: string)
    requires Url(route, d1) == Url(route, d2)
    ensures d1 == d2
  {
    var n := |UrlHead + route + "/"|;
    var u1, u2 := Url(route, d1), Url(route, d2);
    assert |d1| == |d2|;
    assert u1[n..n + |d1|] == d1;
    assert u2[n..n + |d2|] == d2;
  }

  /** Why a page had no dropdowns. */
  datatype Tag = Recaptcha | DropdownsMissing

  /** The text written into every data cell of the error row. */
  function TagText(tag: Tag): string {
    match tag
    case Recaptcha => "RECAPTCHA"
    case DropdownsMissing => "DROPDOWNS MISSING"
  }

  /** The tag of a page without dropdowns: a block page when the marker occurs. */
  function Classify(text: string): Tag {
    if Contains(text, Marker) then Recaptcha else DropdownsMissing
  }

  /** A page is tagged RECAPTCHA exactly when the marker occurs somewhere in it,
      and the two tags are written differently. */
  lemma ClassifySpec(text: string)
    ensures Classify(text) == Recaptcha <==> exists i :: OccursAt(text, Marker, i)
    ensures TagText(Classify(text)) == "RECAPTCHA" <==> Classify(text) == Recaptcha
  {
    ContainsSpec(text, Marker);
  }

  /** The `is_best_flight` cell: a flag on scraped rows, the tag on an error row. */
  datatype BestCell = Flag(best: bool) | Tagged(tag: string)

  /** One row of the table. */
  datatype Row = Row(
    price: string,
    website: string,
    isBestFlight: BestCell,
    departure: string,
    arrival: string,
    carrier: string,
    retrievedOn: string,
    flightDate: string,
    route: string,
    url: string)

  /** The one row written for a page without dropdowns. */
  function ErrorRow(tag: Tag, now: string, date: string): Row {
    var t := TagText(tag);
    Row(t, t, Tagged(t), t, t, t, now, date, Route, Url(Route, date))
  }

  /** The error row carries its tag in all six data columns, so the tag can be
      read back from any of them, and it never looks like a scraped row. */
  lemma ErrorRowSpec(tag: Tag, now: string, date: string)
    ensures var r := ErrorRow(tag, now, date);
      r.price == r.website == r.departure == r.arrival == r.carrier == TagText(tag) &&
      r.isBestFlight == Tagged(TagText(tag)) && !r.isBestFlight.Flag?
    ensures ErrorRow(tag, now, date).carrier == "RECAPTCHA" <==> tag == Recaptcha
    ensures var r := ErrorRow(tag, now, date);
      r.retrievedOn == now && r.flightDate == date && r.route == Route && r.url == Url(Route, date)
  {
    if tag == DropdownsMissing {
      assert TagText(tag)[0] == 'D';
    }
  }

  /** `pd.concat([existing, new])`: the new rows after the existing ones. */
  function Append(existing: seq<Row>, added: seq<Row>): (r: seq<Row>)
    ensures |r| == |existing| + |added|
    ensures r[..|existing|] == existing && r[|existing|..] == added
  {
    existing + added
  }

  /** The dropdown loop as a value: the offers of all dropdowns in order, or the
      exception of the first that fails. */
  function Offers(dropdowns: seq<string>): Result<seq<Offer>, Crash>
    decreases |dropdowns|
  {
    if dropdowns == [] then Ok([])
    else match SplitDropdown(dropdowns[0])
      case Err(e) => Err(e)
      case Ok(o) =>
        match Offers(dropdowns[1..])
        case Err(e) => Err(e)
        case Ok(os) => Ok([o] + os)
  }

  /** The loop fails exactly when some dropdown fails, always with the missing
      letter; otherwise it yields each dropdown's offer at that dropdown's index. */
  lemma {:induction false} OffersSpec(dropdowns: seq<string>)
    ensures Offers(dropdowns).Ok? <==> forall i :: 0 <= i < |dropdowns| ==> SplitDropdown(dropdowns[i]).Ok?
    ensures Offers(dropdowns).Err? ==> Offers(dropdowns).error == NoLetterAfterPrice
    ensures Offers(dropdowns).Ok? ==>
      |Offers(dropdowns).value| == |dropdowns| &&
      forall i :: 0 <= i < |dropdowns| ==> Offers(dropdowns).value[i] == SplitDropdown(dropdowns[i]).value
    decreases |dropdowns|
  {
    if dropdowns != [] {
      SplitDropdownSpec(dropdowns[0]);
      OffersSpec(dropdowns[1..]);
      assert forall i :: 1 <= i < |dropdowns| ==> dropdowns[i] == dropdowns[1..][i - 1];
    }
  }

  /** The rows a page with dropdowns yields, or the exception it raises: the
      dropdown loop runs first, then the table is built from six columns that
      must all have one entry per dropdown. */
  function PageRows(page: Page, now: string, date: string): Result<seq<Row>, Crash> {
    match Offers(page.dropdowns)
    case Err(e) => Err(e)
    case Ok(offers) =>
      var n := |offers|;
      var carrier := Carriers(page.bottoms);
      if |page.departs| != n || |page.arrivals| != n || |carrier| != n then Err(ColumnsDiffer)
      else Ok(seq(n, i requires 0 <= i < n =>
        Row(offers[i].price, offers[i].website, Flag(i == 0), page.departs[i], page.arrivals[i],
            carrier[i], now, date, Route, Url(Route, date))))
  }

  /** What the rows of a scraped page promise: one row per dropdown, in
      dropdown order, holding that dropdown's offer and the time and carrier
      entries at the same index; only the first flagged best, no label holding "View Deal", no empty carrier, and
      every row stamped with the iteration's time, date, route and address. */
  lemma PageRowsSpec(page: Page, now: string, date: string)
    ensures PageRows(page, now, date).Ok? ==>
      var rows := PageRows(page, now, date).value;
      |rows| == |page.dropdowns| &&
      (forall i :: 0 <= i < |rows| ==>
         SplitDropdown(page.dropdowns[i]).Ok? &&
         rows[i].price == SplitDropdown(page.dropdowns[i]).value.price &&
         rows[i].website == SplitDropdown(page.dropdowns[i]).value.website &&
         rows[i].departure == page.departs[i] && rows[i].arrival == page.arrivals[i] &&
         rows[i].carrier == Carriers(page.bottoms)[i]) &&
      (forall i :: 0 <= i < |rows| ==> rows[i].isBestFlight == Flag(i == 0)) &&
      (forall i :: 0 <= i < |rows| ==> !Contains(rows[i].website, "View Deal")) &&
      (forall i :: 0 <= i < |rows| ==> rows[i].carrier != "") &&
      (forall i :: 0 <= i < |rows| ==>
         rows[i].retrievedOn == now && rows[i].flightDate == date &&
         rows[i].route == Route && rows[i].url == Url(Route, date))
  {
    if PageRows(page, now, date).Ok? {
      var rows := PageRows(page, now, date).value;
      OffersSpec(page.dropdowns);
      forall i | 0 <= i < |rows| ensures !Contains(rows[i].website, "View Deal") {
        SplitDropdownSpec(page.dropdowns[i]);
      }
      CarriersSpec(page.bottoms);
      forall i | 0 <= i < |rows| ensures rows[i].carrier != "" {
        assert rows[i].carrier == Carriers(page.bottoms)[i];
      }
    }
  }

  /** A page fails in the dropdown loop exactly when one of its `$` dropdowns
      normalises to a text without a letter-like character; otherwise it fails
      only when the columns differ in length. */
  lemma PageRowsErrors(page: Page, now: string, date: string)
    ensures PageRows(page, now, date) == Err(NoLetterAfterPrice) <==>
      exists i :: 0 <= i < |page.dropdowns| && '$' in page.dropdowns[i] &&
        forall j :: 0 <= j < |Normalize(page.dropdowns[i])| ==> !IsLetterLike(Normalize(page.dropdowns[i])[j])
    ensures PageRows(page, now, date) == Err(ColumnsDiffer) <==>
      (forall i :: 0 <= i < |page.dropdowns| ==> SplitDropdown(page.dropdowns[i]).Ok?) &&
      (|page.departs| != |page.dropdowns| || |page.arrivals| != |page.dropdowns| ||
       |Carriers(page.bottoms)| != |page.dropdowns|)
  {
    OffersSpec(page.dropdowns);
    forall i | 0 <= i < |page.dropdowns| {
      SplitDropdownSpec(page.dropdowns[i]);
    }
  }

  /** The `else` branch of `if len(dropdowns) == 0`, for a page with at least
      one dropdown: the dropdown loop, the flags, the time and carrier columns,
      and the table. */
  method ScrapePage(page: Page, now: string, date: string) returns (r: Result<seq<Row>, Crash>)
    requires |page.dropdowns| > 0
    ensures r == PageRows(page, now, date)
  {
    var n := |page.dropdowns|;
    var split := SplitAll(page.dropdowns);
    OffersSpec(page.dropdowns);
    if split.Err? {
      return Err(split.error);
    }
    var price, website := split.value.0, split.value.1;
    var flags := BestFlags(n);
    var carrier := CleanCarriers(page.bottoms);
    if |page.departs| != n || |page.arrivals| != n || |carrier| != n {
      return Err(ColumnsDiffer);
    }
    var url := Url(Route, date);
    var rows := seq(n, i requires 0 <= i < n =>
      Row(price[i], website[i], Flag(flags[i]), page.departs[i], page.arrivals[i],
          carrier[i], now, date, Route, url));
    assert rows == PageRows(page, now, date).value;
    r := Ok(rows);
  }
}
