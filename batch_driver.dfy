/** The batch driver of llm_sentiment.py: check that the table has the two
    required columns, then classify every row in order and collect one result
    record per row. Reading and writing the CSV files is not modelled: the
    table arrives as its header and its rows, each row a map from column name
    to cell text. */
module BatchDriver {
  import opened LabelParsing

  const PRODUCT_ID: string := "ProductID"
  const REVIEW_TEXT: string := "ReviewText"

  /** One entry of `results`: the dictionary with keys ProductID, ReviewText
      and Sentiment. */
  datatype Record = Record(productId: string, reviewText: string, sentiment: string)

  /** Why a run stops before producing output: the header lacks a required
      column (the ValueError of the header check), or a row has no cell for
      one (a KeyError, caught by the catch-all handler). Both end the process. */
  datatype Failure = MissingColumn | MissingCell(row: nat)

  datatype Outcome = Aborted(failure: Failure) | Completed(results: seq<Record>)

  predicate HasRequiredColumns(header: set<string>) {
    PRODUCT_ID in header && REVIEW_TEXT in header
  }

  predicate HasRequiredCells(row: map<string, string>) {
    PRODUCT_ID in row && REVIEW_TEXT in row
  }

  /** The record the driver appends for `row` once its review is classified as
      `sentiment`: both cells copied verbatim. */
  function ResultFor(row: map<string, string>, sentiment: string): (r: Record)
    requires HasRequiredCells(row)
  {
    Record(row[PRODUCT_ID], row[REVIEW_TEXT], sentiment)
  }

  /** The main block. The classifier is a parameter: `classify(i, text)` is
      what `get_llm_sentiment(text)` returns when it is called for row i (the
      server may answer the same review differently on different calls).
      Besides the outcome, the number of classifier calls is returned: none
      when the header check fails, one per row classified otherwise. */
  method ProcessReviews(header: set<string>, rows: seq<map<string, string>>, classify: (nat, string) -> string)
    returns (outcome: Outcome, calls: nat)
    ensures !HasRequiredColumns(header) ==> outcome == Aborted(MissingColumn) && calls == 0
    ensures HasRequiredColumns(header) ==>
      match outcome
      case Completed(results) =>
        && calls == |rows| == |results|
        && forall i :: 0 <= i < |rows| ==>
             HasRequiredCells(rows[i])
             && results[i] == ResultFor(rows[i], classify(i, rows[i][REVIEW_TEXT]))
      case Aborted(failure) =>
        && failure.MissingCell? && failure.row < |rows|
        && calls == failure.row
        && !HasRequiredCells(rows[failure.row])
        && forall i :: 0 <= i < failure.row ==> HasRequiredCells(rows[i])
  {
    if !HasRequiredColumns(header) {
      return Aborted(MissingColumn), 0;
    }
    var results: seq<Record> := [];
    calls := 0;
    for i := 0 to |rows|
      invariant |results| == i && calls == i
      invariant forall j :: 0 <= j < i ==>
        HasRequiredCells(rows[j])
        && results[j] == ResultFor(rows[j], classify(j, rows[j][REVIEW_TEXT]))
    {
      if !HasRequiredCells(rows[i]) {
        return Aborted(MissingCell(i)), calls;
      }
      var productId := rows[i][PRODUCT_ID];
      var reviewText := rows[i][REVIEW_TEXT];
      var sentiment := classify(i, reviewText);
      calls := calls + 1;
      results := results + [Record(productId, reviewText, sentiment)];
    }
    outcome := Completed(results);
  }

  /** Two well-formed rows and a classifier that answers Neutral every time
      (what `get_llm_sentiment` does against a server answering "Neutral",
      by SentimentClient.NeutralServer): two results, in input order, cells
      copied verbatim, both Neutral; a column beyond the two required ones is
      ignored. */
  method TwoRowExample() {
    var rows := [map[PRODUCT_ID := "p1", REVIEW_TEXT := "Great value"],
                 map[PRODUCT_ID := "p2", REVIEW_TEXT := "Broke in a week", "Stars" := "1"]];
    var outcome, calls := ProcessReviews({PRODUCT_ID, REVIEW_TEXT, "Stars"}, rows, (i, text) => NEUTRAL);
    assert outcome == Completed([Record("p1", "Great value", NEUTRAL), Record("p2", "Broke in a week", NEUTRAL)]);
    assert calls == 2;
  }

  /** A table without a ReviewText column is rejected before the classifier
      is called once. */
  method MissingColumnExample(classify: (nat, string) -> string) {
    var rows := [map[PRODUCT_ID := "p1", "Review" := "Great value"]];
    var outcome, calls := ProcessReviews({PRODUCT_ID, "Review"}, rows, classify);
    assert outcome == Aborted(MissingColumn) && calls == 0;
  }
}
