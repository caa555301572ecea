/** The filter pipeline run on every selection change: join the active cards
    to the selected lists, keep the cards that carry every selected label,
    and replace label ids by label names. */
module Pipeline {
  import opened Board
  import opened Views

  /** `xs` is `ys` with some elements removed, the rest kept in order. */
  predicate IsSubseq<T(==)>(xs: seq<T>, ys: seq<T>) {
    if ys == [] then xs == []
    else IsSubseq(xs, ys[1..]) || (xs != [] && xs[0] == ys[0] && IsSubseq(xs[1..], ys[1..]))
  }

  // ---------------------------------------------------------------- join

  /** The row a card yields when joined to a list: `idList` dropped, the
      list's `listName` added. */
  function JoinRow(c: ActiveCard, l: ListOption): JoinedRow {
    JoinedRow(c.name, c.desc, c.idLabels, l.listName)
  }

  /** The rows one card yields: one per selected list whose id is the card's list id. */
  function RowsFor(c: ActiveCard, lists: seq<ListOption>): (r: seq<JoinedRow>)
    ensures forall x :: x in r <==> exists j :: 0 <= j < |lists| && lists[j].idList == c.idList && x == JoinRow(c, lists[j])
  {
    if lists == [] then []
    else
      var rest := RowsFor(c, lists[1..]);
      assert forall j :: 0 < j < |lists| ==> lists[j] == lists[1..][j - 1];
      (if lists[0].idList == c.idList then [JoinRow(c, lists[0])] else []) + rest
  }

  /** Inner join of the cards to the selected lists on `idList`, in card order. */
  function Join(cards: seq<ActiveCard>, lists: seq<ListOption>): (r: seq<JoinedRow>)
    ensures forall x :: x in r <==>
      exists i, j :: 0 <= i < |cards| && 0 <= j < |lists| && cards[i].idList == lists[j].idList && x == JoinRow(cards[i], lists[j])
  {
    if cards == [] then []
    else
      var rest := Join(cards[1..], lists);
      assert forall i :: 0 < i < |cards| ==> cards[i] == cards[1..][i - 1];
      RowsFor(cards[0], lists) + rest
  }

  /** The selected lists carry pairwise distinct ids. */
  predicate DistinctIds(lists: seq<ListOption>) {
    forall i, j :: 0 <= i < j < |lists| ==> lists[i].idList != lists[j].idList
  }

  /** With distinct list ids a card joins at most one list: exactly one row
      when its list is selected, none otherwise. */
  lemma {:induction false} RowsForUnique(c: ActiveCard, lists: seq<ListOption>)
    requires DistinctIds(lists)
    ensures forall j :: 0 <= j < |lists| && lists[j].idList == c.idList ==> RowsFor(c, lists) == [JoinRow(c, lists[j])]
    ensures (forall j :: 0 <= j < |lists| ==> lists[j].idList != c.idList) ==> RowsFor(c, lists) == []
  {
    if lists != [] {
      var tail := lists[1..];
      assert forall j :: 0 < j < |lists| ==> lists[j] == tail[j - 1];
      RowsForUnique(c, tail);
      if lists[0].idList == c.idList {
        assert forall j :: 0 <= j < |tail| ==> tail[j].idList != c.idList;
      }
    }
  }

  /** Card order: the join of a concatenation is the join of each part, in turn. */
  lemma {:induction false} JoinAppend(a: seq<ActiveCard>, b: seq<ActiveCard>, lists: seq<ListOption>)
    ensures Join(a + b, lists) == Join(a, lists) + Join(b, lists)
  {
    if a == [] {
      assert a + b == b;
    } else {
      assert (a + b)[1..] == a[1..] + b;
      JoinAppend(a[1..], b, lists);
    }
  }

  // ---------------------------------------------------------------- label filter

  /** Every selected label's id is among the card's label ids. */
  predicate CarriesAll(idLabels: seq<string>, selected: seq<Label>) {
    forall k :: 0 <= k < |selected| ==> selected[k].id in idLabels
  }

  /** The rows that carry every selected label, in their original order. */
  function KeepLabelled(rows: seq<JoinedRow>, selected: seq<Label>): (r: seq<JoinedRow>)
    ensures |r| <= |rows|
    ensures forall x :: x in r <==> x in rows && CarriesAll(x.idLabels, selected)
  {
    if rows == [] then []
    else
      var rest := KeepLabelled(rows[1..], selected);
      assert forall x :: x in rows <==> x == rows[0] || x in rows[1..];
      if CarriesAll(rows[0].idLabels, selected) then [rows[0]] + rest else rest
  }

  /** Selecting no label keeps every row. */
  lemma {:induction false} KeepLabelledNone(rows: seq<JoinedRow>)
    ensures KeepLabelled(rows, []) == rows
  {
    if rows != [] {
      KeepLabelledNone(rows[1..]);
    }
  }

  /** Row order: the kept rows of a concatenation are those of each part, in turn. */
  lemma {:induction false} KeepLabelledAppend(a: seq<JoinedRow>, b: seq<JoinedRow>, selected: seq<Label>)
    ensures KeepLabelled(a + b, selected) == KeepLabelled(a, selected) + KeepLabelled(b, selected)
  {
    if a == [] {
      assert a + b == b;
    } else {
      assert (a + b)[1..] == a[1..] + b;
      KeepLabelledAppend(a[1..], b, selected);
    }
  }

  /** Selecting more labels can only narrow the result: the rows kept for a
      larger selection are a subsequence of those kept for a smaller one (and
      so, for the empty selection, of the input). */
  lemma {:induction false} KeepLabelledNarrows(rows: seq<JoinedRow>, fewer: seq<Label>, more: seq<Label>)
    requires LabelIds(fewer) <= LabelIds(more)
    ensures IsSubseq(KeepLabelled(rows, more), KeepLabelled(rows, fewer))
  {
    if rows == [] {
    } else {
      KeepLabelledNarrows(rows[1..], fewer, more);
      var x := rows[0];
      if CarriesAll(x.idLabels, more) {
        forall k | 0 <= k < |fewer| ensures fewer[k].id in x.idLabels {
          assert fewer[k].id in LabelIds(fewer);
          var m :| m in more && m.id == fewer[k].id;
          var q :| 0 <= q < |more| && more[q] == m;
        }
      }
    }
  }

  // ---------------------------------------------------------------- renaming

  /** Every label id is a key of the label map. */
  predicate AllKnown(ids: seq<string>, labelMap: map<string, string>) {
    forall i :: 0 <= i < |ids| ==> ids[i] in labelMap
  }

  /** The label names of a sequence of label ids, in the same order; fails on
      the first id that is not a key of the map. */
  function LookupNames(ids: seq<string>, labelMap: map<string, string>): (r: Result<seq<string>>)
    ensures r.Ok? <==> AllKnown(ids, labelMap)
    ensures r.Ok? ==> |r.value| == |ids| && forall i :: 0 <= i < |ids| ==> ids[i] in labelMap && r.value[i] == labelMap[ids[i]]
    ensures r.Err? ==> (r.error.UnknownLabel? &&
      exists k :: 0 <= k < |ids| && ids[k] == r.error.id && ids[k] !in labelMap && AllKnown(ids[..k], labelMap))
  {
    if ids == [] then Ok([])
    else if ids[0] !in labelMap then
      assert ids[..0] == [];
      Err(UnknownLabel(ids[0]))
    else
      var tail := ids[1..];
      assert forall i :: 0 < i < |ids| ==> ids[i] == tail[i - 1];
      match LookupNames(tail, labelMap)
      case Err(e) =>
        assert forall k :: 0 <= k < |tail| ==> ids[..k + 1] == [ids[0]] + tail[..k];
        Err(e)
      case Ok(names) => Ok([labelMap[ids[0]]] + names)
  }

  /** `row` is `joined` with its label ids replaced by their names from the map. */
  predicate Renamed(joined: JoinedRow, row: Row, labelMap: map<string, string>) {
    && row.name == joined.name
    && row.desc == joined.desc
    && row.listName == joined.listName
    && |row.labels| == |joined.idLabels|
    && forall i :: 0 <= i < |joined.idLabels| ==> joined.idLabels[i] in labelMap && row.labels[i] == labelMap[joined.idLabels[i]]
  }

  /** Rename the label ids of every row, in row order; fails with the first
      unknown id of the first row that has one. */
  function RenameLabels(rows: seq<JoinedRow>, labelMap: map<string, string>): (r: Result<seq<Row>>)
    ensures r.Ok? <==> forall k :: 0 <= k < |rows| ==> AllKnown(rows[k].idLabels, labelMap)
    ensures r.Ok? ==> |r.value| == |rows| && forall k :: 0 <= k < |rows| ==> Renamed(rows[k], r.value[k], labelMap)
    ensures r.Err? ==> (r.error.UnknownLabel? &&
      exists k :: 0 <= k < |rows| && r.error.id in rows[k].idLabels && r.error.id !in labelMap)
  {
    if rows == [] then Ok([])
    else
      var tail := rows[1..];
      assert forall k :: 0 < k < |rows| ==> rows[k] == tail[k - 1];
      match LookupNames(rows[0].idLabels, labelMap)
      case Err(e) => Err(e)
      case Ok(names) =>
        match RenameLabels(tail, labelMap)
        case Err(e) => Err(e)
        case Ok(rest) =>
          var head := Row(rows[0].name, rows[0].desc, names, rows[0].listName);
          assert Renamed(rows[0], head, labelMap);
          Ok([head] + rest)
  }

  /** The failure of a renaming is that of the first row whose ids do not
      all resolve: the first unknown id of that row. */
  lemma {:induction false} RenameLabelsFirstError(rows: seq<JoinedRow>, labelMap: map<string, string>)
    requires RenameLabels(rows, labelMap).Err?
    ensures exists k :: (0 <= k < |rows| && LookupNames(rows[k].idLabels, labelMap) == Err(RenameLabels(rows, labelMap).error) &&
      forall k' :: 0 <= k' < k ==> AllKnown(rows[k'].idLabels, labelMap))
  {
    var e := RenameLabels(rows, labelMap).error;
    if LookupNames(rows[0].idLabels, labelMap).Ok? {
      var tail := rows[1..];
      RenameLabelsFirstError(tail, labelMap);
      var k :| 0 <= k < |tail| && LookupNames(tail[k].idLabels, labelMap) == Err(e) &&
        (forall k' :: 0 <= k' < k ==> AllKnown(tail[k'].idLabels, labelMap));
      assert rows[k + 1] == tail[k];
      forall k' | 0 <= k' < k + 1 ensures AllKnown(rows[k'].idLabels, labelMap) {
        if k' > 0 {
          assert rows[k'] == tail[k' - 1];
        }
      }
    }
  }

  /** A renamed row is determined by the joined row and the map. */
  lemma RenamedUnique(joined: JoinedRow, x: Row, y: Row, labelMap: map<string, string>)
    requires Renamed(joined, x, labelMap) && Renamed(joined, y, labelMap)
    ensures x == y
  {
    assert x.labels == y.labels;
  }

  /** Renaming succeeds with `r` whenever `r` renames the rows one by one. */
  lemma RenameLabelsExact(rows: seq<JoinedRow>, r: seq<Row>, labelMap: map<string, string>)
    requires |r| == |rows| && forall k :: 0 <= k < |rows| ==> Renamed(rows[k], r[k], labelMap)
    ensures RenameLabels(rows, labelMap) == Ok(r)
  {
    forall k | 0 <= k < |rows| ensures AllKnown(rows[k].idLabels, labelMap) {
      assert Renamed(rows[k], r[k], labelMap);
    }
    var renamed := RenameLabels(rows, labelMap).value;
    forall k | 0 <= k < |rows| ensures renamed[k] == r[k] {
      RenamedUnique(rows[k], renamed[k], r[k], labelMap);
    }
    assert renamed == r;
  }

  /** Renaming a concatenation renames each part, in turn. */
  lemma RenameLabelsAppend(a: seq<JoinedRow>, b: seq<JoinedRow>, labelMap: map<string, string>)
    requires RenameLabels(a, labelMap).Ok? && RenameLabels(b, labelMap).Ok?
    ensures RenameLabels(a + b, labelMap) == Ok(RenameLabels(a, labelMap).value + RenameLabels(b, labelMap).value)
  {
    var ra, rb := RenameLabels(a, labelMap).value, RenameLabels(b, labelMap).value;
    forall k | 0 <= k < |a + b| ensures Renamed((a + b)[k], (ra + rb)[k], labelMap) {
      if k < |a| {
        assert (a + b)[k] == a[k] && (ra + rb)[k] == ra[k];
      } else {
        assert (a + b)[k] == b[k - |a|] && (ra + rb)[k] == rb[k - |a|];
      }
    }
    RenameLabelsExact(a + b, ra + rb, labelMap);
  }

  /** Renaming a subsequence of rows succeeds whenever renaming the rows does,
      and gives a subsequence of the renamed rows. */
  lemma {:induction false} RenameLabelsSubseq(xs: seq<JoinedRow>, ys: seq<JoinedRow>, labelMap: map<string, string>)
    requires IsSubseq(xs, ys)
    requires RenameLabels(ys, labelMap).Ok?
    ensures RenameLabels(xs, labelMap).Ok?
    ensures IsSubseq(RenameLabels(xs, labelMap).value, RenameLabels(ys, labelMap).value)
  {
    if ys == [] {
    } else if IsSubseq(xs, ys[1..]) {
      RenameLabelsSubseq(xs, ys[1..], labelMap);
    } else {
      RenameLabelsSubseq(xs[1..], ys[1..], labelMap);
    }
  }

  // ---------------------------------------------------------------- the pipeline

  /** Some card's list is one of the selected lists. */
  predicate Matches(cards: seq<ActiveCard>, lists: seq<ListOption>) {
    exists i, j :: 0 <= i < |cards| && 0 <= j < |lists| && cards[i].idList == lists[j].idList
  }

  lemma FirstIn<T>(s: seq<T>)
    requires s != []
    ensures s[0] in s
  {
  }

  /** The join is empty exactly when no card's list is selected. */
  lemma JoinEmpty(cards: seq<ActiveCard>, lists: seq<ListOption>)
    ensures Join(cards, lists) == [] <==> !Matches(cards, lists)
  {
    var joined := Join(cards, lists);
    if Matches(cards, lists) {
      var i, j :| 0 <= i < |cards| && 0 <= j < |lists| && cards[i].idList == lists[j].idList;
      assert JoinRow(cards[i], lists[j]) in joined;
    } else if joined != [] {
      FirstIn(joined);
    }
  }

  /** The filter pipeline: a table of no selected lists has no `idList`
      column to index by, so the join fails. An empty join makes the label
      mask an empty untyped series, which selects no columns, so reading the
      `idLabels` column afterwards fails. Otherwise: join, keep the cards that
      carry every selected label, and rename their labels. */
  function Filter(cards: seq<ActiveCard>, selectedLists: seq<ListOption>, selectedLabels: seq<Label>,
                  labelMap: map<string, string>): (r: Result<seq<Row>>)
    ensures selectedLists == [] ==> r == Err(MissingColumn("idList"))
    ensures selectedLists != [] && !Matches(cards, selectedLists) ==> r == Err(MissingAttribute("idLabels"))
    ensures r.Ok? ==> forall row :: row in r.value ==>
      exists i, j :: 0 <= i < |cards| && 0 <= j < |selectedLists| && cards[i].idList == selectedLists[j].idList &&
        CarriesAll(cards[i].idLabels, selectedLabels) && Renamed(JoinRow(cards[i], selectedLists[j]), row, labelMap)
  {
    JoinEmpty(cards, selectedLists);
    if selectedLists == [] then Err(MissingColumn("idList"))
    else if Join(cards, selectedLists) == [] then Err(MissingAttribute("idLabels"))
    else
      FilterSound(cards, selectedLists, selectedLabels, labelMap);
      RenameLabels(KeepLabelled(Join(cards, selectedLists), selectedLabels), labelMap)
  }

  /** Each renamed row comes from a joined card that carries every selected label. */
  lemma FilterSound(cards: seq<ActiveCard>, selectedLists: seq<ListOption>, selectedLabels: seq<Label>,
                    labelMap: map<string, string>)
    ensures var r := RenameLabels(KeepLabelled(Join(cards, selectedLists), selectedLabels), labelMap);
      r.Ok? ==> forall row :: row in r.value ==>
        exists i, j :: 0 <= i < |cards| && 0 <= j < |selectedLists| && cards[i].idList == selectedLists[j].idList &&
          CarriesAll(cards[i].idLabels, selectedLabels) && Renamed(JoinRow(cards[i], selectedLists[j]), row, labelMap)
  {
    var kept := KeepLabelled(Join(cards, selectedLists), selectedLabels);
    var r := RenameLabels(kept, labelMap);
    if r.Ok? {
      forall row | row in r.value
        ensures exists i, j :: (0 <= i < |cards| && 0 <= j < |selectedLists| && cards[i].idList == selectedLists[j].idList &&
          CarriesAll(cards[i].idLabels, selectedLabels) && Renamed(JoinRow(cards[i], selectedLists[j]), row, labelMap))
      {
        var k :| 0 <= k < |r.value| && r.value[k] == row;
        assert kept[k] in kept;
      }
    }
  }

  /** Completeness: every card that joins a selected list and carries every
      selected label yields a row of the result, with that list's name and
      its labels renamed. */
  lemma FilterComplete(cards: seq<ActiveCard>, selectedLists: seq<ListOption>, selectedLabels: seq<Label>,
                       labelMap: map<string, string>, i: nat, j: nat)
    requires i < |cards| && j < |selectedLists| && cards[i].idList == selectedLists[j].idList
    requires CarriesAll(cards[i].idLabels, selectedLabels)
    requires Filter(cards, selectedLists, selectedLabels, labelMap).Ok?
    ensures exists row :: (row in Filter(cards, selectedLists, selectedLabels, labelMap).value &&
      Renamed(JoinRow(cards[i], selectedLists[j]), row, labelMap))
  {
    var x := JoinRow(cards[i], selectedLists[j]);
    var kept := KeepLabelled(Join(cards, selectedLists), selectedLabels);
    assert x in kept;
    var k :| 0 <= k < |kept| && kept[k] == x;
    var out := RenameLabels(kept, labelMap).value;
    assert out[k] in out;
  }

  /** With lists selected, the pipeline fails exactly when no card's list
      is selected, or when a card that survives the join and the label
      filter carries a label id the map does not know; the second failure
      names such an id. */
  lemma FilterFails(cards: seq<ActiveCard>, selectedLists: seq<ListOption>, selectedLabels: seq<Label>,
                    labelMap: map<string, string>)
    requires selectedLists != []
    ensures Filter(cards, selectedLists, selectedLabels, labelMap).Err? <==>
      !Matches(cards, selectedLists) ||
      exists i, j :: 0 <= i < |cards| && 0 <= j < |selectedLists| && cards[i].idList == selectedLists[j].idList &&
        CarriesAll(cards[i].idLabels, selectedLabels) && !AllKnown(cards[i].idLabels, labelMap)
    ensures Matches(cards, selectedLists) && Filter(cards, selectedLists, selectedLabels, labelMap).Err? ==>
      var e := Filter(cards, selectedLists, selectedLabels, labelMap).error;
      e.UnknownLabel? && e.id !in labelMap &&
      exists i :: 0 <= i < |cards| && e.id in cards[i].idLabels
  {
    JoinEmpty(cards, selectedLists);
    var kept := KeepLabelled(Join(cards, selectedLists), selectedLabels);
    var r := Filter(cards, selectedLists, selectedLabels, labelMap);
    if !Matches(cards, selectedLists) {
    } else if r.Err? {
      var k :| 0 <= k < |kept| && !AllKnown(kept[k].idLabels, labelMap);
      assert kept[k] in kept;
      var k' :| 0 <= k' < |kept| && r.error.id in kept[k'].idLabels;
      assert kept[k'] in kept;
    } else {
      forall i, j | 0 <= i < |cards| && 0 <= j < |selectedLists| && cards[i].idList == selectedLists[j].idList &&
        CarriesAll(cards[i].idLabels, selectedLabels)
        ensures AllKnown(cards[i].idLabels, labelMap)
      {
        var x := JoinRow(cards[i], selectedLists[j]);
        assert x in kept;
        var k :| 0 <= k < |kept| && kept[k] == x;
      }
    }
  }

  /** An empty label selection makes the label filter a no-op: the result is
      the join, renamed (or the failure on an empty join). */
  lemma FilterNoLabels(cards: seq<ActiveCard>, selectedLists: seq<ListOption>, labelMap: map<string, string>)
    requires selectedLists != []
    ensures Filter(cards, selectedLists, [], labelMap) ==
      if Join(cards, selectedLists) == [] then Err(MissingAttribute("idLabels"))
      else RenameLabels(Join(cards, selectedLists), labelMap)
  {
    KeepLabelledNone(Join(cards, selectedLists));
  }

  /** Monotonic narrowing: selecting more labels cannot make the pipeline
      fail where it succeeded, and its rows are a subsequence of the rows of
      the smaller selection. */
  lemma FilterNarrows(cards: seq<ActiveCard>, selectedLists: seq<ListOption>, fewer: seq<Label>, more: seq<Label>,
                      labelMap: map<string, string>)
    requires LabelIds(fewer) <= LabelIds(more)
    requires Filter(cards, selectedLists, fewer, labelMap).Ok?
    ensures Filter(cards, selectedLists, more, labelMap).Ok?
    ensures IsSubseq(Filter(cards, selectedLists, more, labelMap).value, Filter(cards, selectedLists, fewer, labelMap).value)
  {
    var joined := Join(cards, selectedLists);
    KeepLabelledNarrows(joined, fewer, more);
    RenameLabelsSubseq(KeepLabelled(joined, more), KeepLabelled(joined, fewer), labelMap);
  }

  /** Card order: the result for a concatenation of cards is the result for
      each part, in turn. */
  lemma FilterAppend(a: seq<ActiveCard>, b: seq<ActiveCard>, selectedLists: seq<ListOption>, selectedLabels: seq<Label>,
                     labelMap: map<string, string>)
    requires Filter(a, selectedLists, selectedLabels, labelMap).Ok?
    requires Filter(b, selectedLists, selectedLabels, labelMap).Ok?
    ensures Filter(a + b, selectedLists, selectedLabels, labelMap) ==
      Ok(Filter(a, selectedLists, selectedLabels, labelMap).value + Filter(b, selectedLists, selectedLabels, labelMap).value)
  {
    JoinAppend(a, b, selectedLists);
    KeepLabelledAppend(Join(a, selectedLists), Join(b, selectedLists), selectedLabels);
    RenameLabelsAppend(KeepLabelled(Join(a, selectedLists), selectedLabels),
                       KeepLabelled(Join(b, selectedLists), selectedLabels), labelMap);
  }

  // ---------------------------------------------------------------- one interaction

  /** One run of the script on a parsed export and the user's selections, in
      the order the script evaluates: the active lists offered for selection,
      the selected-lists table, the active cards, then the pipeline with the
      export's label map. */
  function Run(dump: Dump, selectedLists: seq<ListOption>, selectedLabels: seq<Label>): (r: Result<seq<Row>>)
    ensures dump.lists == [] ==> r == Err(MissingColumn("closed"))
    ensures r.Ok? ==> forall row :: row in r.value ==>
      exists i, j :: 0 <= i < |dump.cards| && 0 <= j < |selectedLists| && !dump.cards[i].closed &&
        dump.cards[i].idList == selectedLists[j].idList && CarriesAll(dump.cards[i].idLabels, selectedLabels) &&
        Renamed(JoinRow(CardRecord(dump.cards[i]), selectedLists[j]), row, LabelsMap(dump.labels))
  {
    if ActiveLists(dump.lists).Err? then Err(ActiveLists(dump.lists).error)
    else if selectedLists == [] then Err(MissingColumn("idList"))
    else
      match ActiveCards(dump.cards)
      case Err(e) => Err(e)
      case Ok(active) =>
        var r := Filter(active, selectedLists, selectedLabels, LabelsMap(dump.labels));
        assert r.Ok? ==> forall row :: row in r.value ==>
          exists a, j :: a in active && 0 <= j < |selectedLists| && a.idList == selectedLists[j].idList &&
            CarriesAll(a.idLabels, selectedLabels) && Renamed(JoinRow(a, selectedLists[j]), row, LabelsMap(dump.labels));
        r
  }

  /** Every label id a card carries is the id of a label of the export. */
  predicate LabelsResolve(dump: Dump) {
    forall i :: 0 <= i < |dump.cards| ==> forall id :: id in dump.cards[i].idLabels ==> id in LabelIds(dump.labels)
  }

  /** Some open card's list is one of the selected lists. */
  predicate OpenCardSelected(dump: Dump, selectedLists: seq<ListOption>) {
    exists i, j :: 0 <= i < |dump.cards| && 0 <= j < |selectedLists| && !dump.cards[i].closed &&
      dump.cards[i].idList == selectedLists[j].idList
  }

  /** On an export with at least one list, whose cards' labels all resolve,
      a run with at least one selected list succeeds exactly when some open
      card is on a selected list; otherwise it fails on the missing `closed`
      column (no cards at all) or on the empty join. */
  lemma RunSucceeds(dump: Dump, selectedLists: seq<ListOption>, selectedLabels: seq<Label>)
    requires dump.lists != [] && selectedLists != []
    requires LabelsResolve(dump)
    ensures Run(dump, selectedLists, selectedLabels).Ok? <==> OpenCardSelected(dump, selectedLists)
    ensures Run(dump, selectedLists, selectedLabels).Err? ==>
      Run(dump, selectedLists, selectedLabels).error ==
        if dump.cards == [] then MissingColumn("closed") else MissingAttribute("idLabels")
  {
    if dump.cards != [] {
      var active := OpenCards(dump.cards);
      OpenCardsMatch(dump, selectedLists);
      OpenCardsKnown(dump);
      FilterFails(active, selectedLists, selectedLabels, LabelsMap(dump.labels));
    }
  }

  /** The open cards join a selected list exactly when some open card of the
      export is on a selected list. */
  lemma OpenCardsMatch(dump: Dump, selectedLists: seq<ListOption>)
    ensures Matches(OpenCards(dump.cards), selectedLists) <==> OpenCardSelected(dump, selectedLists)
  {
    var active := OpenCards(dump.cards);
    if OpenCardSelected(dump, selectedLists) {
      var i, j :| 0 <= i < |dump.cards| && 0 <= j < |selectedLists| && !dump.cards[i].closed &&
        dump.cards[i].idList == selectedLists[j].idList;
      assert CardRecord(dump.cards[i]) in active;
      var k :| 0 <= k < |active| && active[k] == CardRecord(dump.cards[i]);
    }
    if Matches(active, selectedLists) {
      var k, j :| 0 <= k < |active| && 0 <= j < |selectedLists| && active[k].idList == selectedLists[j].idList;
      assert active[k] in active;
    }
  }

  /** When the export's labels resolve, every label id of an open card is in
      the label map. */
  lemma OpenCardsKnown(dump: Dump)
    requires LabelsResolve(dump)
    ensures forall k :: 0 <= k < |OpenCards(dump.cards)| ==> AllKnown(OpenCards(dump.cards)[k].idLabels, LabelsMap(dump.labels))
  {
    var active := OpenCards(dump.cards);
    forall k | 0 <= k < |active| ensures AllKnown(active[k].idLabels, LabelsMap(dump.labels)) {
      assert active[k] in active;
      var i :| 0 <= i < |dump.cards| && !dump.cards[i].closed && active[k] == CardRecord(dump.cards[i]);
    }
  }

  /** The example export of one open list, one label and one open card. */
  lemma RunExample()
    ensures Run(Dump([Card("Fix bug", "", false, ["B1"], "L1")], [Label("B1", "Bug")], [List("L1", "Todo", false)]),
                [ListOption("L1", "Todo")], [Label("B1", "Bug")])
         == Ok([Row("Fix bug", "", ["Bug"], "Todo")])
  {
    var card := Card("Fix bug", "", false, ["B1"], "L1");
    var bug := Label("B1", "Bug");
    var todo := ListOption("L1", "Todo");
    assert [bug][..0] == [];
    var labelMap := LabelsMap([bug]);
    assert labelMap == map["B1" := "Bug"];
    var active := OpenCards([card]);
    assert active == [CardRecord(card)];
    var joined := Join(active, [todo]);
    assert RowsFor(active[0], [todo]) == [JoinRow(active[0], todo)];
    assert active[1..] == [];
    assert Join(active[1..], [todo]) == [];
    assert joined == [JoinRow(active[0], todo)];
    assert CarriesAll(joined[0].idLabels, [bug]);
    assert KeepLabelled(joined, [bug]) == joined;
    assert AllKnown(joined[0].idLabels, labelMap);
    var out := RenameLabels(joined, labelMap).value;
    var expected := Row("Fix bug", "", ["Bug"], "Todo");
    assert Renamed(joined[0], expected, labelMap);
    RenamedUnique(joined[0], out[0], expected, labelMap);
    assert out == [expected];
  }
}
