/**
 * The spreadsheet as the page sees it after `pd.read_excel`: a sequence of
 * rows, each a map from column name to cell. A cell is either missing
 * (pandas NaN) or holds text.
 */
module Frame {

  datatype Cell = Missing | Value(text: string)

  type Row = map<string, Cell>

  type Table = seq<Row>

  datatype Option<T> = None | Some(value: T)
}
