/** A CSV file as the scripts see it through csv.DictReader: a header list
    and one map from column name to cell text per data row. */
module Csv {
  import opened Text

  type Row = map<string, string>

  /** next((h for h in headers if h.lower() == 'email'), None), as the
      position of that header. */
  function EmailColumn(headers: seq<string>): (col: Option<nat>)
    ensures col.Some? ==> col.value < |headers| && Lower(headers[col.value]) == "email"
    ensures col.Some? ==> forall j :: 0 <= j < col.value ==> Lower(headers[j]) != "email"
    ensures col.None? <==> forall j :: 0 <= j < |headers| ==> Lower(headers[j]) != "email"
  {
    if headers == [] then None
    else if Lower(headers[0]) == "email" then Some(0)
    else match EmailColumn(headers[1..])
      case None => None
      case Some(j) => Some(j + 1)
  }
}
