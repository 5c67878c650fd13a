/** The rows of the blog corpus table, reduced to the columns the tasks read. */
module Corpus {

  datatype Row = Row(text: string, gender: string, age: int)

  /** `data['text'].tolist()`: every text, in row order, with no filtering. */
  function AllTexts(rows: seq<Row>): (texts: seq<string>)
    ensures |texts| == |rows|
    ensures forall k :: 0 <= k < |rows| ==> texts[k] == rows[k].text
  {
    seq(|rows|, k requires 0 <= k < |rows| => rows[k].text)
  }
}
