/** The records of an exported board, as the filtering pipeline sees them once
    the export has been parsed, and the failures the pipeline can raise. */
module Board {

  /** A list (column) of the board; "active" means not closed. */
  datatype List = List(id: string, name: string, closed: bool)

  /** A card; `idList` refers to a List, `idLabels` to Labels. */
  datatype Card = Card(name: string, desc: string, closed: bool, idLabels: seq<string>, idList: string)

  /** A label of the board. */
  datatype Label = Label(id: string, name: string)

  /** The parsed export: its `cards`, `labels` and `lists` arrays. */
  datatype Dump = Dump(cards: seq<Card>, labels: seq<Label>, lists: seq<List>)

  /** A record of the active-lists view: a list id and the list's name. */
  datatype ListOption = ListOption(idList: string, listName: string)

  /** A row of the active-cards view. */
  datatype ActiveCard = ActiveCard(name: string, desc: string, idLabels: seq<string>, idList: string)

  /** A card joined to its selected list: `idList` dropped, `listName` added. */
  datatype JoinedRow = JoinedRow(name: string, desc: string, idLabels: seq<string>, listName: string)

  /** A row of the final table: label ids replaced by label names. */
  datatype Row = Row(name: string, desc: string, labels: seq<string>, listName: string)

  /** The lookup failures of the pipeline: a `KeyError` in the program, or
      an `AttributeError` for a column read off a table that has none. */
  datatype Error =
    | MissingColumn(column: string)     // a column looked up on a table built from no records
    | UnknownLabel(id: string)          // a card carries a label id that is not in the label map
    | MissingAttribute(column: string)  // a column read as an attribute of a table with no columns

  datatype Result<T> = Ok(value: T) | Err(error: Error)
}
