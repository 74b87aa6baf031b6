/**
 * The document extractor (`parse_html_file`): one record per product item
 * whose data script decodes to an object, in item order.
 *
 * The document's product items (`li.productgrid--item`) arrive already
 * located; each carries what the search for its data script found.
 */
module Extractor {
  import opened Wrappers
  import opened Records
  import Sections

  /** What `json.loads` made of the script's text. */
  datatype Decoded =
    | Malformed              // a JSON decode error
    | NotObject              // valid JSON that is not an object, so `.get` raises `AttributeError`
    | Object(payload: Payload)

  /**
   * The item's data script. `NoString` is a tag whose `.string` is `None`
   * (empty, or more than one child); `json.loads(None)` raises a `TypeError`.
   */
  datatype Script = NoString | Json(decoded: Decoded)

  /**
   * A product item: the first script the item's data-script search returns,
   * if it returns one.
   */
  datatype Item = Item(script: Option<Script>)

  /**
   * What one item does to the file's result: contributes nothing (`Skip`:
   * no script, a decode error or a non-object, all caught), contributes one
   * record, or raises an error the item handler does not catch, which ends
   * the whole file (`Raise`).
   */
  datatype ItemOutcome = Skip | Emit(product: Product) | Raise

  /**
   * The item cases: no script skips; a script without a single string
   * raises; a decode error or a non-object skips; an object yields a record
   * unless its price or its tag list is `null`, which raises.
   */
  function Outcome(item: Item): (r: ItemOutcome)
    ensures item.script.None? ==> r.Skip?
    ensures item.script == Some(NoString) ==> r.Raise?
    ensures item.script == Some(Json(Malformed)) || item.script == Some(Json(NotObject)) ==> r.Skip?
    ensures r.Emit? <==>
      item.script.Some? && item.script.value.Json? && item.script.value.decoded.Object? &&
      !item.script.value.decoded.payload.price.Null? && !item.script.value.decoded.payload.tags.Null?
  {
    match item.script
    case None => Skip
    case Some(NoString) => Raise
    case Some(Json(Malformed)) => Skip
    case Some(Json(NotObject)) => Skip
    case Some(Json(Object(p))) => ObjectOutcome(p)
  }

  /**
   * An object item: its record, built from its payload and its description's
   * sections. It yields a record unless its price or its tag list is `null`,
   * and is never skipped silently.
   */
  function ObjectOutcome(p: Payload): (r: ItemOutcome)
    ensures r.Emit? <==> !p.price.Null? && !p.tags.Null?
    ensures !r.Skip?
  {
    match Normalize(p, Sections.SectionMap(Get(p.description)))
    case None => Raise
    case Some(record) => Emit(record)
  }

  /** The outcome of each item, in item order. */
  function Outcomes(items: seq<Item>): (r: seq<ItemOutcome>)
    ensures |r| == |items|
  {
    if items == [] then [] else Outcomes(items[..|items| - 1]) + [Outcome(items[|items| - 1])]
  }

  /** Each entry of `Outcomes` is the outcome of the item at that position. */
  lemma {:induction false} OutcomesAt(items: seq<Item>, i: nat)
    requires i < |items|
    ensures Outcomes(items)[i] == Outcome(items[i])
    decreases |items|
  {
    if i < |items| - 1 {
      var init := items[..|items| - 1];
      OutcomesAt(init, i);
    }
  }

  /** The records an item with this outcome adds to the list. */
  function Contribution(outcome: ItemOutcome): (r: seq<Product>)
    ensures |r| <= 1
    ensures r != [] <==> outcome.Emit?
  {
    if outcome.Emit? then [outcome.product] else []
  }

  /** The records of a run of item outcomes, in order; errors that would end the file are ignored here. */
  function RecordsOf(outcomes: seq<ItemOutcome>): (r: seq<Product>)
    ensures |r| <= |outcomes|
  {
    if outcomes == [] then [] else RecordsOf(outcomes[..|outcomes| - 1]) + Contribution(outcomes[|outcomes| - 1])
  }

  /** Whether some item raises an error that ends the file. */
  predicate Raises(outcomes: seq<ItemOutcome>) {
    exists i :: 0 <= i < |outcomes| && outcomes[i].Raise?
  }

  /** Every entry of `Outcomes` is the outcome of the item at that position. */
  lemma OutcomesAll(items: seq<Item>)
    ensures forall i :: 0 <= i < |items| ==> Outcomes(items)[i] == Outcome(items[i])
  {
    forall i | 0 <= i < |items|
      ensures Outcomes(items)[i] == Outcome(items[i])
    {
      OutcomesAt(items, i);
    }
  }

  /**
   * The file's result: its records, or `None` when an error escapes the item
   * loop, which happens exactly when some item raises; there is at most one
   * record per item.
   */
  function ExtractItems(items: seq<Item>): (r: Option<seq<Product>>)
    ensures r.None? <==> exists i :: 0 <= i < |items| && Outcome(items[i]).Raise?
    ensures r.Some? ==> |r.value| <= |items|
  {
    var outcomes := Outcomes(items);
    OutcomesAll(items);
    if Raises(outcomes) then None else Some(RecordsOf(outcomes))
  }

  /** The body of the item loop: what one item yields, running the section parser on its description. */
  method ExtractItem(item: Item) returns (outcome: ItemOutcome)
    ensures outcome == Outcome(item)
  {
    if item.script.None? {
      return Skip;
    }
    match item.script.value
    case NoString =>
      outcome := Raise;
    case Json(decoded) =>
      if !decoded.Object? {
        return Skip;
      }
      var p := decoded.payload;
      var sections := Sections.ParseProductDetails(Get(p.description));
      var record := Normalize(p, sections);
      outcome := if record.None? then Raise else Emit(record.value);
  }

  /** `parse_html_file`: visits the items in order, skipping the ones it cannot use. */
  method ParseHtmlFile(items: seq<Item>) returns (result: Option<seq<Product>>)
    ensures result == ExtractItems(items)
  {
    ghost var outcomes := Outcomes(items);
    var products: seq<Product> := [];
    var i := 0;
    while i < |items|
      invariant 0 <= i <= |items|
      invariant !Raises(outcomes[..i])
      invariant products == RecordsOf(outcomes[..i])
    {
      var outcome := ExtractItem(items[i]);
      OutcomesAt(items, i);
      PrefixSnoc(outcomes, i);
      if outcome.Raise? {
        return None;
      }
      if outcome.Emit? {
        products := products + [outcome.product];
      }
      i := i + 1;
    }
    assert outcomes[..|items|] == outcomes;
    return Some(products);
  }

  /** The first `i + 1` outcomes: the first `i` and then outcome `i`. */
  lemma PrefixSnoc(outcomes: seq<ItemOutcome>, i: nat)
    requires i < |outcomes|
    ensures Raises(outcomes[..i + 1]) <==> Raises(outcomes[..i]) || outcomes[i].Raise?
    ensures outcomes[i].Raise? ==> Raises(outcomes)
    ensures RecordsOf(outcomes[..i + 1]) == RecordsOf(outcomes[..i]) + Contribution(outcomes[i])
  {
    assert outcomes[..i + 1] == outcomes[..i] + [outcomes[i]];
    OutcomeSnoc(outcomes[..i], outcomes[i]);
  }

  /** One more outcome raises if it or an earlier one does, and appends its contribution. */
  lemma OutcomeSnoc(done: seq<ItemOutcome>, outcome: ItemOutcome)
    ensures Raises(done + [outcome]) <==> Raises(done) || outcome.Raise?
    ensures RecordsOf(done + [outcome]) == RecordsOf(done) + Contribution(outcome)
  {
    assert (done + [outcome])[..|done|] == done;
    assert (done + [outcome])[|done|] == outcome;
    if Raises(done) {
      var j :| 0 <= j < |done| && done[j].Raise?;
      assert (done + [outcome])[j] == done[j];
    }
    if Raises(done + [outcome]) && !outcome.Raise? {
      var j :| 0 <= j < |done| + 1 && (done + [outcome])[j].Raise?;
      assert done[j] == (done + [outcome])[j];
    }
  }

  /** Extraction distributes over splitting the item list. */
  lemma {:induction false} RecordsAppend(a: seq<ItemOutcome>, b: seq<ItemOutcome>)
    ensures RecordsOf(a + b) == RecordsOf(a) + RecordsOf(b)
    decreases |b|
  {
    if b == [] {
      assert a + b == a;
    } else {
      var b' := b[..|b| - 1];
      assert (a + b)[..|a + b| - 1] == a + b';
      assert (a + b)[|a + b| - 1] == b[|b| - 1];
      RecordsAppend(a, b');
    }
  }

  /** A skipped item contributes nothing and does not stop the items after it. */
  lemma SkipContributesNothing(a: seq<ItemOutcome>, skipped: ItemOutcome, b: seq<ItemOutcome>)
    requires skipped.Skip?
    ensures RecordsOf(a + [skipped] + b) == RecordsOf(a + b)
  {
    RecordsAppend(a + [skipped], b);
    assert (a + [skipped])[..|a|] == a;
    RecordsAppend(a, b);
  }

  /** The number of items that produce a record. */
  function EmitCount(outcomes: seq<ItemOutcome>): nat {
    if outcomes == [] then 0 else EmitCount(outcomes[..|outcomes| - 1]) + |Contribution(outcomes[|outcomes| - 1])|
  }

  /**
   * Exactly one record per item that produces one: the list is as long as
   * the count of such items, and item `i`'s record sits right after the
   * records of the items before it.
   */
  lemma {:induction false} OneRecordPerItem(outcomes: seq<ItemOutcome>)
    ensures |RecordsOf(outcomes)| == EmitCount(outcomes)
    ensures forall i :: 0 <= i < |outcomes| && outcomes[i].Emit? ==>
      EmitCount(outcomes[..i]) < |RecordsOf(outcomes)| && RecordsOf(outcomes)[EmitCount(outcomes[..i])] == outcomes[i].product
  {
    if outcomes != [] {
      var n := |outcomes| - 1;
      var init := outcomes[..n];
      OneRecordPerItem(init);
      var records := RecordsOf(outcomes);
      assert records == RecordsOf(init) + Contribution(outcomes[n]);
      forall i | 0 <= i < |outcomes| && outcomes[i].Emit?
        ensures EmitCount(outcomes[..i]) < |records|
        ensures records[EmitCount(outcomes[..i])] == outcomes[i].product
      {
        if i < n {
          assert outcomes[..i] == init[..i];
          assert outcomes[i] == init[i];
          assert records[EmitCount(init[..i])] == RecordsOf(init)[EmitCount(init[..i])];
        }
      }
    }
  }
}
