/** The element catalog as the page sees it: element records, the cards the
    page renders for those that have a grid position, the lookups the event
    handlers perform, and the search and filter predicates. */
module Elements {
  import opened Wrappers
  import opened JsString

  /** The fields of an element record that the page's logic reads. */
  datatype ElementRecord = ElementRecord(atomicNumber: nat, symbol: string, name: string, category: string)

  /** A rendered card, as its data attributes hold it: the atomic number as
      text and the category. */
  datatype Card = Card(atomicNumber: string, category: string)

  /** The text a card stores for an element's atomic number (and the text a
      selector uses to find that card). */
  function NumberKey(e: ElementRecord): string
  {
    NatToString(e.atomicNumber)
  }

  function CardOf(e: ElementRecord): Card
  {
    Card(NumberKey(e), e.category)
  }

  predicate DistinctNumbers(elements: seq<ElementRecord>)
  {
    forall i, j :: 0 <= i < j < |elements| ==> elements[i].atomicNumber != elements[j].atomicNumber
  }

  // ---------------------------------------------------------------------
  // Building the table

  /** The records that get a card, in catalog order: those whose atomic
      number has a grid position. */
  function RenderedRecords(elements: seq<ElementRecord>, positions: set<nat>): (r: seq<ElementRecord>)
    ensures |r| <= |elements|
    ensures forall e :: e in r <==> e in elements && e.atomicNumber in positions
    decreases |elements|
  {
    if |elements| == 0 then []
    else
      var rest := RenderedRecords(elements[1..], positions);
      assert forall e :: e in elements <==> e == elements[0] || e in elements[1..];
      if elements[0].atomicNumber in positions then [elements[0]] + rest else rest
  }

  /** The catalog indices from `from` on whose records get a card, in
      increasing order: every positioned index, each once. */
  function PositionedIndices(elements: seq<ElementRecord>, positions: set<nat>, from: nat): (idx: seq<nat>)
    requires from <= |elements|
    ensures forall k :: 0 <= k < |idx| ==> from <= idx[k] < |elements| && elements[idx[k]].atomicNumber in positions
    ensures forall k, l :: 0 <= k < l < |idx| ==> idx[k] < idx[l]
    ensures forall i :: from <= i < |elements| && elements[i].atomicNumber in positions ==> i in idx
    decreases |elements| - from
  {
    if from == |elements| then []
    else
      var rest := PositionedIndices(elements, positions, from + 1);
      if elements[from].atomicNumber in positions then [from] + rest else rest
  }

  /** The cards follow the catalog: the k-th rendered record is the record
      at the k-th positioned index. */
  lemma RenderedRecordsInOrder(elements: seq<ElementRecord>, positions: set<nat>)
    ensures |RenderedRecords(elements, positions)| == |PositionedIndices(elements, positions, 0)|
    ensures forall k :: 0 <= k < |PositionedIndices(elements, positions, 0)| ==>
              RenderedRecords(elements, positions)[k] == elements[PositionedIndices(elements, positions, 0)[k]]
  {
    RenderedRecordsInOrderFrom(elements, positions, 0);
    assert elements[0..] == elements;
  }

  lemma {:induction false} RenderedRecordsInOrderFrom(elements: seq<ElementRecord>, positions: set<nat>, from: nat)
    requires from <= |elements|
    ensures |RenderedRecords(elements[from..], positions)| == |PositionedIndices(elements, positions, from)|
    ensures forall k :: 0 <= k < |PositionedIndices(elements, positions, from)| ==>
              RenderedRecords(elements[from..], positions)[k] == elements[PositionedIndices(elements, positions, from)[k]]
    decreases |elements| - from
  {
    if from < |elements| {
      RenderedRecordsInOrderFrom(elements, positions, from + 1);
      RenderedRecordsStep(elements, positions, from);
      PrependInOrder(elements, RenderedRecords(elements[from..], positions), RenderedRecords(elements[from + 1..], positions),
                     PositionedIndices(elements, positions, from), PositionedIndices(elements, positions, from + 1),
                     elements[from].atomicNumber in positions, from);
    }
  }

  /** Putting the same record (or nothing) in front of a list of records and
      of the list of their indices keeps the two lists aligned. */
  lemma PrependInOrder(elements: seq<ElementRecord>, rendered: seq<ElementRecord>, tail: seq<ElementRecord>,
                       idx: seq<nat>, rest: seq<nat>, keep: bool, from: nat)
    requires from < |elements|
    requires |tail| == |rest|
    requires forall k :: 0 <= k < |rest| ==> rest[k] < |elements| && tail[k] == elements[rest[k]]
    requires rendered == (if keep then [elements[from]] else []) + tail
    requires idx == (if keep then [from] else []) + rest
    ensures |rendered| == |idx|
    ensures forall k :: 0 <= k < |idx| ==> idx[k] < |elements| && rendered[k] == elements[idx[k]]
  {
  }

  /** One unfolding of the rendering of the catalog from index `from` on. */
  lemma RenderedRecordsStep(elements: seq<ElementRecord>, positions: set<nat>, from: nat)
    requires from < |elements|
    ensures RenderedRecords(elements[from..], positions) ==
            (if elements[from].atomicNumber in positions then [elements[from]] else [])
            + RenderedRecords(elements[from + 1..], positions)
  {
    assert elements[from..][1..] == elements[from + 1..];
  }

  /** One card per occurrence of a positioned record, none for the others. */
  lemma {:induction false} RenderedRecordsCount(elements: seq<ElementRecord>, positions: set<nat>, e: ElementRecord)
    ensures multiset(RenderedRecords(elements, positions))[e] ==
            if e.atomicNumber in positions then multiset(elements)[e] else 0
    decreases |elements|
  {
    if |elements| > 0 {
      RenderedRecordsCount(elements[1..], positions, e);
      assert elements == [elements[0]] + elements[1..];
    }
  }

  /** The cards of the table, one per rendered record, in the same order:
      each carries its record's number text and category as data
      attributes. */
  function Cards(elements: seq<ElementRecord>, positions: set<nat>): (r: seq<Card>)
    ensures |r| == |RenderedRecords(elements, positions)|
    ensures forall i :: 0 <= i < |r| ==>
              r[i].atomicNumber == NumberKey(RenderedRecords(elements, positions)[i])
              && r[i].category == RenderedRecords(elements, positions)[i].category
  {
    var recs := RenderedRecords(elements, positions);
    seq(|recs|, i requires 0 <= i < |recs| => CardOf(recs[i]))
  }

  // ---------------------------------------------------------------------
  // Lookups

  /** elements.find(e => e.atomicNumber === n): the first record with that
      atomic number. */
  function FindByNumber(elements: seq<ElementRecord>, n: nat): (r: Option<ElementRecord>)
    ensures r.Some? <==> exists i :: 0 <= i < |elements| && elements[i].atomicNumber == n
    ensures r.Some? ==> r.value in elements && r.value.atomicNumber == n
    decreases |elements|
  {
    if |elements| == 0 then None
    else if elements[0].atomicNumber == n then Some(elements[0])
    else
      var r := FindByNumber(elements[1..], n);
      assert forall i :: 1 <= i < |elements| ==> elements[i] == elements[1..][i - 1];
      r
  }

  /** With distinct atomic numbers, the lookup finds each record itself. */
  lemma FindByNumberDistinct(elements: seq<ElementRecord>, e: ElementRecord)
    requires DistinctNumbers(elements)
    requires e in elements
    ensures FindByNumber(elements, e.atomicNumber) == Some(e)
  {
  }

  /** The lookup returns the FIRST record with the number, as find does. */
  lemma {:induction false} FindByNumberFirst(elements: seq<ElementRecord>, n: nat)
    ensures FindByNumber(elements, n).Some? ==>
              exists i :: 0 <= i < |elements| && elements[i] == FindByNumber(elements, n).value
                          && forall j :: 0 <= j < i ==> elements[j].atomicNumber != n
    decreases |elements|
  {
    if |elements| > 0 && elements[0].atomicNumber != n && FindByNumber(elements, n).Some? {
      var tail := elements[1..];
      FindByNumberFirst(tail, n);
      var i :| 0 <= i < |tail| && tail[i] == FindByNumber(tail, n).value
               && forall j :: 0 <= j < i ==> tail[j].atomicNumber != n;
      assert forall j :: 1 <= j < i + 1 ==> elements[j] == tail[j - 1];
      assert elements[i + 1] == FindByNumber(elements, n).value;
    }
  }

  /** The record a card stands for, found the way the search handler does
      it: parse the card's number attribute and look it up in the catalog.
      A card whose number parses to nothing in the catalog has no record. */
  function CardRecord(elements: seq<ElementRecord>, card: Card): (r: Option<ElementRecord>)
    ensures r.Some? ==> r.value in elements && ParseInt(card.atomicNumber) == Some(r.value.atomicNumber)
    ensures r.None? <==> ParseInt(card.atomicNumber).None?
                         || forall e :: e in elements ==> Some(e.atomicNumber) != ParseInt(card.atomicNumber)
  {
    match ParseInt(card.atomicNumber)
    case None => None
    case Some(n) => FindByNumber(elements, n)
  }

  /** Every card of a table built from a catalog with distinct atomic
      numbers leads the search handler back to the record it was rendered
      from. */
  lemma RenderedCardRecord(elements: seq<ElementRecord>, positions: set<nat>, i: nat)
    requires DistinctNumbers(elements)
    requires i < |RenderedRecords(elements, positions)|
    ensures CardRecord(elements, Cards(elements, positions)[i]) == Some(RenderedRecords(elements, positions)[i])
  {
    var e := RenderedRecords(elements, positions)[i];
    ParseIntOfNatToString(e.atomicNumber);
    FindByNumberDistinct(elements, e);
  }

  /** Every rendered record has a card a selector on its number finds. */
  lemma RenderedHasCard(elements: seq<ElementRecord>, positions: set<nat>, i: nat)
    requires i < |RenderedRecords(elements, positions)|
    ensures CardIndex(Cards(elements, positions), NumberKey(RenderedRecords(elements, positions)[i])).Some?
  {
    assert Cards(elements, positions)[i].atomicNumber == NumberKey(RenderedRecords(elements, positions)[i]);
  }

  /** querySelector('.element[data-atomic-number="key"]'): the first card
      in document order whose number attribute is key. */
  function CardIndex(cards: seq<Card>, key: string): (r: Option<nat>)
    ensures r.Some? ==> r.value < |cards| && cards[r.value].atomicNumber == key
    ensures r.Some? ==> forall j :: 0 <= j < r.value ==> cards[j].atomicNumber != key
    ensures r.None? ==> forall j :: 0 <= j < |cards| ==> cards[j].atomicNumber != key
  {
    CardIndexFrom(cards, key, 0)
  }

  function CardIndexFrom(cards: seq<Card>, key: string, from: nat): (r: Option<nat>)
    requires from <= |cards|
    requires forall j :: 0 <= j < from ==> cards[j].atomicNumber != key
    ensures r.Some? ==> from <= r.value < |cards| && cards[r.value].atomicNumber == key
    ensures r.Some? ==> forall j :: 0 <= j < r.value ==> cards[j].atomicNumber != key
    ensures r.None? ==> forall j :: 0 <= j < |cards| ==> cards[j].atomicNumber != key
    decreases |cards| - from
  {
    if from == |cards| then None
    else if cards[from].atomicNumber == key then Some(from)
    else CardIndexFrom(cards, key, from + 1)
  }

  // ---------------------------------------------------------------------
  // Search and filter predicates

  /** The search handler's match: the (already lower-cased) term occurs in
      the lower-cased name, the lower-cased symbol or the atomic number. */
  predicate MatchesSearch(term: string, e: ElementRecord)
    ensures term == "" ==> MatchesSearch(term, e)
    ensures MatchesSearch(term, e) ==> |term| <= |e.name| || |term| <= |e.symbol| || |term| <= |NatToString(e.atomicNumber)|
  {
    IncludesEmpty(ToLower(e.name));
    Includes(ToLower(e.name), term) || Includes(ToLower(e.symbol), term)
      || Includes(NatToString(e.atomicNumber), term)
  }

  /** The category filter: 'all' lets everything through, any other value
      only its own category. */
  predicate MatchesFilter(filter: string, category: string)
    ensures filter == "all" ==> MatchesFilter(filter, category)
    ensures filter != "all" ==> (MatchesFilter(filter, category) <==> category == filter)
  {
    filter == "all" || category == filter
  }
}
