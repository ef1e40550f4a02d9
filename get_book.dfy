/**
 * The book lookup handler: read `title` from the query string, reject an
 * empty one, scan the catalogue with an equality filter on `Title`, and
 * answer 404 when nothing matches or 200 with the first match.
 */
module GetBook {
  import opened Wrappers
  import opened Catalog
  import opened Responses

  /** The part of the incoming event the handler reads; `None` is an absent or null parameter map. */
  datatype LookupEvent = LookupEvent(queryStringParameters: Option<map<string, string>>)

  /** The one kind of backend call this handler makes: a read-only scan with an equality filter. */
  datatype ScanRequest = ScanRequest(attribute: string, value: string)

  /** The response together with the backend calls issued while producing it, in order. */
  datatype Outcome = Outcome(response: Response, scans: seq<ScanRequest>)

  const TitleRequiredMessage: string := "Title parameter is required"
  const NotFoundMessage: string := "Book not found"
  const AllowedOrigin: string := "https://d31opzenb97zag.cloudfront.net"

  /** The header map every response of this handler carries. */
  function BookHeaders(): (h: Headers)
    ensures h.Keys == {"Content-Type", "Access-Control-Allow-Origin"}
    ensures h["Content-Type"] == "application/json"
    ensures h["Access-Control-Allow-Origin"] == AllowedOrigin
  {
    map["Content-Type" := "application/json", "Access-Control-Allow-Origin" := AllowedOrigin]
  }

  /** The title the request asks for; an absent parameter map or an absent key both give "". */
  function RequestedTitle(e: LookupEvent): (title: string)
    ensures title == "" <==> TitleMissing(e)
    ensures !TitleMissing(e) ==> title == e.queryStringParameters.value["title"]
  {
    MapGet(e.queryStringParameters.GetOr(map[]), "title", "")
  }

  /** The request names no title: no parameters, no `title` key, or an empty value. */
  predicate TitleMissing(e: LookupEvent) {
    || e.queryStringParameters.None?
    || "title" !in e.queryStringParameters.value
    || e.queryStringParameters.value["title"] == ""
  }

  /**
   * The handler.  `table` is the catalogue as the store holds it; the handler
   * only reads it, through at most one scan.
   */
  function HandleLookup(e: LookupEvent, table: seq<Record>): (o: Outcome)
    ensures o.response.headers == BookHeaders()
    ensures o.response.statusCode in {StatusBadRequest, StatusNotFound, StatusOk}
    // missing title: 400 with a fixed message, and no scan is issued
    ensures o.response.statusCode == StatusBadRequest <==> TitleMissing(e)
    ensures TitleMissing(e) ==>
      o.response.body == Message(TitleRequiredMessage) && o.scans == []
    // a title is given: exactly one scan, filtered on that title
    ensures !TitleMissing(e) ==>
      o.scans == [ScanRequest(TitleAttribute, e.queryStringParameters.value["title"])]
    // 404 exactly when no stored item carries the title
    ensures o.response.statusCode == StatusNotFound <==>
      !TitleMissing(e) && forall i :: 0 <= i < |table| ==> !table[i].HasTitle(RequestedTitle(e))
    ensures o.response.statusCode == StatusNotFound ==> o.response.body == Message(NotFoundMessage)
    // 200 with the first matching item in store order
    ensures o.response.statusCode == StatusOk ==>
      exists i :: IsFirstMatch(table, RequestedTitle(e), i) && o.response.body == Book(table[i])
  {
    var title := RequestedTitle(e);
    if title == "" then
      Outcome(Response(StatusBadRequest, Message(TitleRequiredMessage), BookHeaders()), [])
    else
      var scans := [ScanRequest(TitleAttribute, title)];
      var items := Scan(table, title);
      ScanEmptyIff(table, title);
      if items == [] then
        Outcome(Response(StatusNotFound, Message(NotFoundMessage), BookHeaders()), scans)
      else
        ScanHeadIsFirstMatch(table, title);
        Outcome(Response(StatusOk, Book(items[0]), BookHeaders()), scans)
  }
}
