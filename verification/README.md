# trello-export: a verified model of the card filter and CSV download link

trello-export is a small web app over an exported project board (lists,
cards, labels). The user picks lists and labels, sees the matching cards as a
table, and downloads that table as CSV through a Base64 `data:` link. This
project models, in Dafny, the deterministic part under the UI:

- **Views** (`views.dfy`): `active_lists` (open lists projected to
  `(idList, listName)`), `active_cards` (open cards projected to
  `(name, desc, idLabels, idList)`), and `labels_map` (label id to name,
  later label wins).
- **Filter pipeline** (`pipeline.dfy`): the inner join of the active cards to
  the selected lists on `idList`, the AND label filter, and the renaming of
  label ids to label names, as one function `Filter`. `Run` chains them in
  the order the script evaluates them.
- **Base64** (`base64.dfy`): the standard-alphabet encoder with `=` padding
  of section 4 of RFC 4648. It comes with a strict decoder, and the two are
  proved to be inverse in both directions.
- **Download link** (`download.dfy`): the `<a href="data:file/txt;base64,…"
  download="…">…</a>` markup. It is proved to carry exactly the content's
  bytes.

The records are datatypes (`board.dfy`). Strings are `seq<char>` and bytes
are integers 0..255.

Failures are values, not preconditions. Each of them is an exception the
program raises, a `KeyError` or an `AttributeError`:
- A table built from an empty JSON array has no columns. So `active_lists`
  and `active_cards` on an empty array fail with `MissingColumn("closed")`.
- An empty list selection has no `idList` column to index by, so `Filter`
  fails with `MissingColumn("idList")`.
- When no open card is on a selected list, the join is empty. The label mask
  over an empty column is then an empty object-typed series, which selects
  columns rather than rows and so selects none. Reading `idLabels` off the
  resulting table fails with `MissingAttribute("idLabels")`.
- A surviving card that carries a label id missing from the label map fails
  with `UnknownLabel(id)`, naming the first such id in row order.

## Model

| member | source | states |
|---|---|---|
| `Views.ActiveLists` | trello_export/__main__.py:47-54 | fails exactly on an empty list array; otherwise a record is in the result iff it is the `(id, name)` of some list with `closed == false` |
| `Views.OpenListsAppend` | trello_export/__main__.py:49-54 | order: the result for `a + b` is the result for `a` followed by that for `b`; one list gives its record iff it is open |
| `Views.ActiveCards` | trello_export/__main__.py:58-63 | fails exactly on an empty card array; otherwise a row is in the result iff it is the `(name, desc, idLabels, idList)` of some open card |
| `Views.OpenCardsAppend` | trello_export/__main__.py:59-63 | order: the result for `a + b` is the result for `a` followed by that for `b`; one card gives its row iff it is open |
| `Views.LabelsMap` | trello_export/__main__.py:67-69 | the key set is exactly the set of label ids |
| `Views.LabelsMapLastWins` | trello_export/__main__.py:69 | a label whose id does not occur later in the array gives its name to that id, so the later of two labels with the same id wins |
| `Pipeline.RowsFor` | trello_export/__main__.py:101 | the rows one card yields are exactly its joins with the selected lists that have its `idList` |
| `Pipeline.JoinEmpty` | trello_export/__main__.py:101 | the join is empty iff no card's `idList` is the id of a selected list |
| `Pipeline.Join` | trello_export/__main__.py:99-101 | a row is in the join iff it is some card joined to some selected list with the same `idList`: that list's `listName` is added and `idList` dropped |
| `Pipeline.RowsForUnique` | trello_export/__main__.py:99-101 | with distinct selected list ids, a card whose list is selected yields exactly one row, and any other card yields none |
| `Pipeline.JoinAppend` | trello_export/__main__.py:101 | the join keeps card order: the join of `a + b` is the join of `a` followed by that of `b` |
| `Pipeline.KeepLabelled` | trello_export/__main__.py:103 | a row is kept iff it is an input row and every selected label's id is among its `idLabels`; no more rows come out than go in |
| `Pipeline.KeepLabelledNone` | trello_export/__main__.py:103 | an empty label selection keeps every row |
| `Pipeline.KeepLabelledAppend` | trello_export/__main__.py:103 | the label filter keeps row order across concatenation |
| `Pipeline.KeepLabelledNarrows` | trello_export/__main__.py:103 | if the ids of one selection include those of another, the rows it keeps are a subsequence of those the other keeps |
| `Pipeline.LookupNames` | trello_export/__main__.py:104 | succeeds iff every id is a key; then it has the same length, and element i is the name of id i; otherwise it fails with the first missing id |
| `Pipeline.RenameLabels` | trello_export/__main__.py:104-105 | succeeds iff every row's label ids are keys; then row k keeps its name, desc and listName and gets `labels[i] == labelMap[idLabels[i]]`; a failure names a missing id of some row |
| `Pipeline.RenameLabelsFirstError` | trello_export/__main__.py:104 | a failure is the failure of the first row (in row order) whose label ids are not all keys; every earlier row's ids are keys |
| `Pipeline.RenameLabelsExact` | trello_export/__main__.py:104 | a row-by-row renaming of the rows is the one and only successful result |
| `Pipeline.RenameLabelsAppend` | trello_export/__main__.py:104 | renaming keeps row order across concatenation |
| `Pipeline.RenameLabelsSubseq` | trello_export/__main__.py:104 | renaming a subsequence of rows succeeds when renaming the rows does, and gives a subsequence of the result |
| `Pipeline.Filter` | trello_export/__main__.py:99-105 | fails with `MissingColumn("idList")` on an empty list selection, and with `MissingAttribute("idLabels")` when no card's list is selected; every output row comes from a card that joins a selected list and carries every selected label, renamed |
| `Pipeline.FilterComplete` | trello_export/__main__.py:99-105 | every card that joins a selected list and carries every selected label yields a row of a successful result |
| `Pipeline.FilterFails` | trello_export/__main__.py:99-104 | with lists selected, the pipeline fails iff no card's list is selected, or a card that survives the join and the label filter carries an unknown label id; in the second case the error is `UnknownLabel` of an id missing from the map that some card carries |
| `Pipeline.FilterNoLabels` | trello_export/__main__.py:103 | with no labels selected, the result is the renamed join, or the `idLabels` failure when the join is empty |
| `Pipeline.FilterNarrows` | trello_export/__main__.py:103-105 | selecting more labels keeps a successful run successful and returns a subsequence of its rows |
| `Pipeline.FilterAppend` | trello_export/__main__.py:100-105 | the result keeps the original card order: for cards `a + b` it is the result for `a` followed by that for `b` |
| `Pipeline.Run` | trello_export/__main__.py:84-105 | fails on an export without lists; every output row comes from an open card, a selected list and the export's label map |
| `Pipeline.RunSucceeds` | trello_export/__main__.py:84-105 | on an export with lists whose card labels all resolve, with a list selected, the run succeeds iff some open card is on a selected list; otherwise it fails with `MissingColumn("closed")` when there are no cards and with `MissingAttribute("idLabels")` when there are |
| `Pipeline.RunExample` | trello_export/__main__.py:99-105 | one open card "Fix bug" on list "Todo" with label "Bug", with both selected, gives the single row `("Fix bug", "", ["Bug"], "Todo")` |
| `Base64.Encode` | trello_export/__main__.py:26 | the encoding of n bytes has length `4 * ceil(n / 3)` |
| `Base64.AlphabetSpelled` | trello_export/__main__.py:26 | the 64-character alphabet is A-Z, a-z, 0-9, `+`, `/`, in value order |
| `Base64.AlphabetValues` | trello_export/__main__.py:26 | the decoder's character table accepts exactly the alphabet's characters, and `=` is not one of them |
| `Base64.EncodeEmpty` | trello_export/__main__.py:26 | the empty input encodes to the empty string (RFC 4648, section 10) |
| `Base64.EncodeF` | trello_export/__main__.py:26 | `"f"` encodes to `"Zg=="` (RFC 4648, section 10) |
| `Base64.EncodeFo` | trello_export/__main__.py:26 | `"fo"` encodes to `"Zm8="` (RFC 4648, section 10) |
| `Base64.EncodeFoo` | trello_export/__main__.py:26 | `"foo"` encodes to `"Zm9v"` (RFC 4648, section 10) |
| `Base64.UnpackPack` | trello_export/__main__.py:26 | regrouping bytes into 6-bit values (four per three bytes, two or three zero-filled for a final one or two) loses nothing: ungrouping gives the bytes back |
| `Base64.PackUnpack` | trello_export/__main__.py:26 | every sequence of 6-bit values that ungroups is the grouping of what it ungroups to |
| `Base64.EncodeAlphabet` | trello_export/__main__.py:26 | every output character is in the alphabet, except `=` in the last two positions (so at most two `=`) |
| `Base64.EncodePadding` | trello_export/__main__.py:26 | the last character is `=` iff n is not a multiple of 3; the second to last iff n mod 3 is 1 |
| `Base64.DecodeEncode` | trello_export/__main__.py:26 | decoding the encoding of any bytes gives back those bytes |
| `Base64.EncodeDecode` | trello_export/__main__.py:26 | any string the strict decoder accepts is the encoding of what it decodes to |
| `Download.DownloadLink` | trello_export/__main__.py:9-28 | the link is the template filled in: the `data:` prefix, the Base64 text, then `" download="`, the file name and `">`, then the link text and `</a>`, with exactly the template's length |
| `Download.LinkRoundTrip` | trello_export/__main__.py:22-28 | the text between the prefix and the first quote decodes to exactly the content's bytes (the CSV of a table, the text otherwise), whatever the file name and link text |
| `Download.ExportLink` | trello_export/__main__.py:110 | the export link is the download link of the result table with file name `trello.csv` and link text `Export CSV`, and it carries exactly the CSV bytes of the table |

## Left out

- The web UI: page setup, sidebar text, the file uploader, the multi-select widgets, and displaying the table and link. The user's selections are parameters of `Filter` and `Run`.
- Reading and parsing the JSON export (`load_data`). The model starts from parsed records and keeps only the fields the pipeline reads.
- The memoisation decorator on the loaders. It does not change what they return.
- The CSV writer. `to_csv` is a function parameter `toCsv` of the download link. Its quoting and the way it writes list-valued cells are not modelled.
- UTF-8 encoding of text before Base64. Text content is modelled as its bytes.
- Index renumbering (`reset_index`). It has no effect on the records.
- Checklists and the card fields the pipeline never reads.
- A label filter that keeps no rows of a non-empty join. The mask is then boolean, so the model yields an empty table, as the program does.
- Join, JoinAppend, FilterAppend: the model orders an inner join with repeated keys by the left table's order (card order), as pandas documents from version 2.2 on. Earlier versions group the rows by key, in order of first appearance, which differs when cards on different lists interleave.
- The longer test vectors of section 10 of RFC 4648 (`"foob"`, `"fooba"`, `"foobar"`) are not stated as lemmas. Unrolling the encoder over six literal bytes is too costly for the solver. The round-trip lemmas cover all inputs.
- `Base64.Decode`: the program has no decoder. The model adds a strict one (no characters outside the alphabet, zero padding bits) so that the round trip can be stated. The lenient decoder of the Python library is not modelled.
