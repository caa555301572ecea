/** The views derived from a parsed export: the active lists offered for
    selection, the active cards, and the label-id to label-name lookup. */
module Views {
  import opened Board

  /** The projection of one list onto the active-lists record. */
  function ListRecord(l: List): ListOption {
    ListOption(l.id, l.name)
  }

  /** The projection of one card onto the active-cards row. */
  function CardRecord(c: Card): ActiveCard {
    ActiveCard(c.name, c.desc, c.idLabels, c.idList)
  }

  /** The open lists, in their original order, projected to (idList, listName). */
  function OpenLists(lists: seq<List>): (r: seq<ListOption>)
    ensures |r| <= |lists|
    ensures forall o :: o in r <==> exists i :: 0 <= i < |lists| && !lists[i].closed && o == ListRecord(lists[i])
  {
    if lists == [] then []
    else
      var rest := OpenLists(lists[1..]);
      assert forall i :: 0 < i < |lists| ==> lists[i] == lists[1..][i - 1];
      if lists[0].closed then rest else [ListRecord(lists[0])] + rest
  }

  /** `active_lists`: a table built from no lists has no `closed` column, so
      filtering on it fails; otherwise the open lists, projected. */
  function ActiveLists(lists: seq<List>): (r: Result<seq<ListOption>>)
    ensures r.Err? <==> lists == []
    ensures r.Err? ==> r.error == MissingColumn("closed")
    ensures r.Ok? ==> forall o :: o in r.value <==> exists i :: 0 <= i < |lists| && !lists[i].closed && o == ListRecord(lists[i])
  {
    if lists == [] then Err(MissingColumn("closed")) else Ok(OpenLists(lists))
  }

  /** Order: the open lists of a concatenation are the open lists of each part,
      in turn, and one list contributes its record exactly when it is open. */
  lemma {:induction false} OpenListsAppend(a: seq<List>, b: seq<List>)
    ensures OpenLists(a + b) == OpenLists(a) + OpenLists(b)
    ensures forall l: List :: OpenLists([l]) == if l.closed then [] else [ListRecord(l)]
  {
    if a != [] {
      assert (a + b)[1..] == a[1..] + b;
      OpenListsAppend(a[1..], b);
    } else {
      assert a + b == b;
    }
  }

  /** The open cards, in their original order, projected to (name, desc, idLabels, idList). */
  function OpenCards(cards: seq<Card>): (r: seq<ActiveCard>)
    ensures |r| <= |cards|
    ensures forall a :: a in r <==> exists i :: 0 <= i < |cards| && !cards[i].closed && a == CardRecord(cards[i])
  {
    if cards == [] then []
    else
      var rest := OpenCards(cards[1..]);
      assert forall i :: 0 < i < |cards| ==> cards[i] == cards[1..][i - 1];
      if cards[0].closed then rest else [CardRecord(cards[0])] + rest
  }

  /** `active_cards`: fails on a table built from no cards (no `closed`
      column); otherwise the open cards, projected. */
  function ActiveCards(cards: seq<Card>): (r: Result<seq<ActiveCard>>)
    ensures r.Err? <==> cards == []
    ensures r.Err? ==> r.error == MissingColumn("closed")
    ensures r.Ok? ==> forall a :: a in r.value <==> exists i :: 0 <= i < |cards| && !cards[i].closed && a == CardRecord(cards[i])
  {
    if cards == [] then Err(MissingColumn("closed")) else Ok(OpenCards(cards))
  }

  /** Order: as for lists, the open cards of a concatenation are those of each
      part, in turn, and one card contributes its row exactly when it is open. */
  lemma {:induction false} OpenCardsAppend(a: seq<Card>, b: seq<Card>)
    ensures OpenCards(a + b) == OpenCards(a) + OpenCards(b)
    ensures forall c: Card :: OpenCards([c]) == if c.closed then [] else [CardRecord(c)]
  {
    if a != [] {
      assert (a + b)[1..] == a[1..] + b;
      OpenCardsAppend(a[1..], b);
    } else {
      assert a + b == b;
    }
  }

  /** The ids of a sequence of labels. */
  function LabelIds(labels: seq<Label>): set<string> {
    set l | l in labels :: l.id
  }

  /** `labels_map`: label id to label name, one key per label id. */
  function LabelsMap(labels: seq<Label>): (r: map<string, string>)
    ensures r.Keys == LabelIds(labels)
  {
    if labels == [] then map[]
    else
      var n := |labels| - 1;
      assert labels == labels[..n] + [labels[n]];
      LabelsMap(labels[..n])[labels[n].id := labels[n].name]
  }

  /** Where an id repeats, the later label wins, as in a dict comprehension:
      each label whose id does not occur after it gives its name to that id. */
  lemma {:induction false} LabelsMapLastWins(labels: seq<Label>, i: nat)
    requires i < |labels|
    requires forall j :: i < j < |labels| ==> labels[j].id != labels[i].id
    ensures labels[i].id in LabelsMap(labels) && LabelsMap(labels)[labels[i].id] == labels[i].name
  {
    var n := |labels| - 1;
    var init := labels[..n];
    assert LabelsMap(labels) == LabelsMap(init)[labels[n].id := labels[n].name];
    if i < n {
      assert labels[n].id != labels[i].id;
      assert init[i] == labels[i];
      forall j | i < j < n ensures init[j].id != init[i].id {
        assert init[j] == labels[j];
      }
      LabelsMapLastWins(init, i);
    }
  }
}
