/**
 * The catalog aggregator and column selection (`main`): runs the document
 * extractor over the sources in order, keeps the first record seen for each
 * product id, and picks the output columns.
 *
 * Reading files is not modelled: each source arrives already read, or as
 * unreadable. CSV writing is not modelled; only the header's column list is.
 */
module Catalog {
  import opened Wrappers
  import opened Records
  import Extractor

  /** One input file: its product items, or a file that could not be opened or read. */
  datatype Source = Unreadable | Readable(items: seq<Extractor.Item>)

  /**
   * The records a file adds before deduplication: none from an unreadable
   * file or from a file in which some item raises, and at most one per item.
   */
  function FileProducts(source: Source): (r: seq<Product>)
    ensures source.Unreadable? ==> r == []
    ensures source.Readable? ==> |r| <= |source.items|
    ensures source.Readable? && (exists i :: 0 <= i < |source.items| && Extractor.Outcome(source.items[i]).Raise?) ==> r == []
  {
    match source
    case Unreadable => []
    case Readable(items) =>
      match Extractor.ExtractItems(items)
      case None => []
      case Some(products) => products
  }

  /** Every record of every file, in processing order, duplicates included. */
  function Collected(sources: seq<Source>): seq<Product> {
    if sources == [] then [] else Collected(sources[..|sources| - 1]) + FileProducts(sources[|sources| - 1])
  }

  /** Collecting two runs of files in a row is collecting each in turn. */
  lemma {:induction false} CollectedAppend(a: seq<Source>, b: seq<Source>)
    ensures Collected(a + b) == Collected(a) + Collected(b)
    decreases |b|
  {
    if b == [] {
      assert a + b == a;
    } else {
      var b' := b[..|b| - 1];
      var last := FileProducts(b[|b| - 1]);
      assert (a + b)[..|a + b| - 1] == a + b';
      assert (a + b)[|a + b| - 1] == b[|b| - 1];
      assert Collected(a + b) == Collected(a + b') + last;
      CollectedAppend(a, b');
      ProductsAssoc(Collected(a), Collected(b'), last);
    }
  }

  lemma ProductsAssoc(x: seq<Product>, y: seq<Product>, z: seq<Product>)
    ensures (x + y) + z == x + (y + z)
  {
  }

  /** Collecting a single file gives that file's records. */
  lemma CollectedSingle(source: Source)
    ensures Collected([source]) == FileProducts(source)
  {
    assert [source][..0] == [];
  }

  /** The ids of a list of records. */
  function Ids(products: seq<Product>): set<ProductId> {
    set i | 0 <= i < |products| :: products[i].productId
  }

  predicate DistinctIds(products: seq<Product>) {
    forall i, j :: 0 <= i < j < |products| ==> products[i].productId != products[j].productId
  }

  lemma IdsSnoc(products: seq<Product>, p: Product)
    ensures Ids(products + [p]) == Ids(products) + {p.productId}
  {
    var q := products + [p];
    assert forall i :: 0 <= i < |products| ==> q[i] == products[i];
    assert q[|products|] == p;
  }

  /**
   * The records kept by the dedup loop: a record is kept when no earlier
   * record had its id. The result has pairwise distinct ids and exactly the
   * ids of its input.
   */
  function Dedup(products: seq<Product>): (r: seq<Product>)
    ensures DistinctIds(r)
    ensures Ids(r) == Ids(products)
    ensures |r| <= |products|
  {
    if products == [] then []
    else
      var init := products[..|products| - 1];
      var p := products[|products| - 1];
      var kept := Dedup(init);
      IdsSnoc(init, p);
      assert init + [p] == products;
      if p.productId in Ids(kept) then kept
      else
        IdsSnoc(kept, p);
        kept + [p]
  }

  /** One more record: kept exactly when its id is new. */
  lemma DedupSnoc(products: seq<Product>, p: Product)
    ensures Dedup(products + [p]) == if p.productId in Ids(products) then Dedup(products) else Dedup(products) + [p]
  {
    assert (products + [p])[..|products|] == products;
  }

  /** The position of the first record with a given id. */
  function FirstIndex(products: seq<Product>, id: ProductId): (i: nat)
    requires id in Ids(products)
    ensures i < |products| && products[i].productId == id
    ensures forall j :: 0 <= j < i ==> products[j].productId != id
  {
    if products[0].productId == id then 0
    else
      assert id in Ids(products[1..]) by {
        var k :| 0 <= k < |products| && products[k].productId == id;
        assert products[1..][k - 1] == products[k];
      }
      1 + FirstIndex(products[1..], id)
  }

  /** Appending a record does not move the first occurrence of an id already present. */
  lemma FirstIndexSnoc(products: seq<Product>, p: Product, id: ProductId)
    requires id in Ids(products)
    ensures id in Ids(products + [p]) && FirstIndex(products + [p], id) == FirstIndex(products, id)
  {
    IdsSnoc(products, p);
    var a, b := FirstIndex(products + [p], id), FirstIndex(products, id);
    assert (products + [p])[b] == products[b];
  }

  /** The record kept for an id is its first occurrence. */
  lemma {:induction false} DedupKeepsFirstSeen(products: seq<Product>)
    ensures forall k :: 0 <= k < |Dedup(products)| ==>
      Dedup(products)[k].productId in Ids(products) &&
      Dedup(products)[k] == products[FirstIndex(products, Dedup(products)[k].productId)]
  {
    if products != [] {
      var init := products[..|products| - 1];
      var p := products[|products| - 1];
      assert init + [p] == products;
      DedupKeepsFirstSeen(init);
      var kept := Dedup(init);
      forall k | 0 <= k < |kept|
        ensures kept[k] == products[FirstIndex(products, kept[k].productId)]
      {
        FirstIndexSnoc(init, p, kept[k].productId);
      }
      if p.productId !in Ids(kept) {
        IdsSnoc(init, p);
        assert FirstIndex(products, p.productId) == |init|;
      }
    }
  }

  /** The kept records are in the order their ids were first seen. */
  lemma {:induction false} DedupFirstSeenOrder(products: seq<Product>)
    ensures forall k :: 0 <= k < |Dedup(products)| ==> Dedup(products)[k].productId in Ids(products)
    ensures forall k, l :: 0 <= k < l < |Dedup(products)| ==>
      FirstIndex(products, Dedup(products)[k].productId) < FirstIndex(products, Dedup(products)[l].productId)
  {
    if products != [] {
      var init := products[..|products| - 1];
      var p := products[|products| - 1];
      assert init + [p] == products;
      DedupFirstSeenOrder(init);
      var kept := Dedup(init);
      forall k | 0 <= k < |kept|
        ensures kept[k].productId in Ids(products)
        ensures FirstIndex(products, kept[k].productId) == FirstIndex(init, kept[k].productId) < |init|
      {
        FirstIndexSnoc(init, p, kept[k].productId);
      }
      var r := Dedup(products);
      if p.productId !in Ids(kept) {
        IdsSnoc(init, p);
        assert r == kept + [p];
        assert FirstIndex(products, p.productId) == |init|;
        forall k, l | 0 <= k < l < |r|
          ensures FirstIndex(products, r[k].productId) < FirstIndex(products, r[l].productId)
        {
          assert r[k] == kept[k];
          if l < |kept| {
            assert r[l] == kept[l];
          }
        }
      } else {
        assert r == kept;
      }
    }
  }

  /** Records whose ids are all already kept change nothing: a file seen again adds no rows. */
  lemma {:induction false} DedupSeenIds(products: seq<Product>, more: seq<Product>)
    requires Ids(more) <= Ids(products)
    ensures Dedup(products + more) == Dedup(products)
    decreases |more|
  {
    if more == [] {
      assert products + more == products;
    } else {
      var init := more[..|more| - 1];
      var p := more[|more| - 1];
      assert more == init + [p];
      IdsSnoc(init, p);
      DedupSeenIds(products, init);
      assert products + more == (products + init) + [p];
      DedupSnoc(products + init, p);
      IdsSnoc(products, p);
      assert Ids(products + init) >= Ids(products) by {
        forall id | id in Ids(products) ensures id in Ids(products + init) {
          var k :| 0 <= k < |products| && products[k].productId == id;
          assert (products + init)[k] == products[k];
        }
      }
    }
  }

  /** Processing the same records twice keeps the same catalog. */
  lemma Reprocessing(products: seq<Product>, more: seq<Product>)
    ensures Dedup(products + more + more) == Dedup(products + more)
  {
    assert Ids(more) <= Ids(products + more) by {
      forall id | id in Ids(more) ensures id in Ids(products + more) {
        var k :| 0 <= k < |more| && more[k].productId == id;
        assert (products + more)[|products| + k] == more[k];
      }
    }
    DedupSeenIds(products + more, more);
  }

  /** The output columns, in their fixed order. */
  const ColumnOrder: seq<string> := [
    "product_id", "title", "price ($)", "stock_status", "product_type",
    "vendor", "tags", "description", "benefits", "how_to_use",
    "ingredients", "specifications", "inclusions", "care_instructions",
    "product_url", "primary_image_url"]

  /** The columns of the table built from the records: the union of their dicts' keys. */
  function PresentColumns(catalog: seq<Product>): set<string> {
    if catalog == [] then {}
    else PresentColumns(catalog[..|catalog| - 1]) + RecordColumns(catalog[|catalog| - 1])
  }

  /** With at least one record the table has every key of the record dict, and none without. */
  lemma {:induction false} PresentColumnsKeys(catalog: seq<Product>)
    ensures forall c :: c in PresentColumns(catalog) <==> catalog != [] && c in RecordKeys
  {
    if catalog != [] {
      PresentColumnsKeys(catalog[..|catalog| - 1]);
    }
  }

  /** The record dict and the column order name the same sixteen columns. */
  lemma SameColumns()
    ensures forall c :: c in RecordKeys <==> c in ColumnOrder
  {
    assert ColumnOrder == RecordKeys[..12] + [RecordKeys[13], RecordKeys[12]] + RecordKeys[14..];
  }

  /** With at least one record every column of the fixed order is present, and none without. */
  lemma PresentColumnsOrder(catalog: seq<Product>)
    ensures forall c :: c in PresentColumns(catalog) <==> catalog != [] && c in ColumnOrder
  {
    PresentColumnsKeys(catalog);
    SameColumns();
  }

  /** `s` is `t` with some elements left out, the rest in their order. */
  predicate IsSubsequence(s: seq<string>, t: seq<string>) {
    if s == [] then true
    else if t == [] then false
    else if s[0] == t[0] then IsSubsequence(s[1..], t[1..])
    else IsSubsequence(s, t[1..])
  }

  /** `[col for col in order if col in present]`. */
  function SelectColumns(order: seq<string>, present: set<string>): (r: seq<string>)
    ensures forall c :: c in r <==> c in order && c in present
    ensures IsSubsequence(r, order)
  {
    if order == [] then []
    else
      var rest := SelectColumns(order[1..], present);
      if order[0] in present then [order[0]] + rest else rest
  }

  /** Selection keeps the whole order when every column is present. */
  lemma {:induction false} SelectAllPresent(order: seq<string>, present: set<string>)
    requires forall i :: 0 <= i < |order| ==> order[i] in present
    ensures SelectColumns(order, present) == order
  {
    if order != [] {
      assert forall i :: 0 <= i < |order| - 1 ==> order[1..][i] == order[i + 1];
      SelectAllPresent(order[1..], present);
    }
  }

  /** With at least one record the header is the full fixed column order. */
  lemma FullHeader(catalog: seq<Product>)
    requires catalog != []
    ensures SelectColumns(ColumnOrder, PresentColumns(catalog)) == ColumnOrder
  {
    PresentColumnsOrder(catalog);
    SelectAllPresent(ColumnOrder, PresentColumns(catalog));
  }

  /**
   * The inner loop of `main`: appends each of a file's records whose id has
   * not been seen and records its id. `before` is everything processed so far.
   */
  method MergeFile(kept: seq<Product>, seen: set<ProductId>, ghost before: seq<Product>, fromFile: seq<Product>)
    returns (kept': seq<Product>, seen': set<ProductId>)
    requires kept == Dedup(before) && seen == Ids(kept)
    ensures kept' == Dedup(before + fromFile) && seen' == Ids(kept')
  {
    kept', seen' := kept, seen;
    assert before + fromFile[..0] == before;
    for k := 0 to |fromFile|
      invariant kept' == Dedup(before + fromFile[..k])
      invariant seen' == Ids(kept')
    {
      var product := fromFile[k];
      ghost var done := before + fromFile[..k];
      ExtendPrefix(before, fromFile, k);
      DedupSnoc(done, product);
      if product.productId !in seen' {
        IdsSnoc(kept', product);
        kept' := kept' + [product];
        seen' := seen' + {product.productId};
      }
    }
    assert fromFile[..|fromFile|] == fromFile;
  }

  lemma ExtendPrefix(before: seq<Product>, fromFile: seq<Product>, k: nat)
    requires k < |fromFile|
    ensures before + fromFile[..k + 1] == (before + fromFile[..k]) + [fromFile[k]]
  {
    assert fromFile[..k + 1] == fromFile[..k] + [fromFile[k]];
  }

  /**
   * `main` without the I/O: extracts every readable source in order, keeps
   * the first record per id, and yields the header's columns, or `None` when
   * no record was kept (the run stops with a message instead of writing).
   */
  method RunExtraction(sources: seq<Source>) returns (catalog: seq<Product>, header: Option<seq<string>>)
    ensures catalog == Dedup(Collected(sources))
    ensures DistinctIds(catalog) && Ids(catalog) == Ids(Collected(sources))
    ensures header.None? <==> catalog == []
    ensures header.Some? ==> header.value == ColumnOrder
  {
    var allProducts: seq<Product> := [];
    var processedIds: set<ProductId> := {};
    for f := 0 to |sources|
      invariant allProducts == Dedup(Collected(sources[..f]))
      invariant processedIds == Ids(allProducts)
    {
      assert sources[..f + 1][..f] == sources[..f];
      var parsed: Option<seq<Product>> := None;
      if sources[f].Readable? {
        parsed := Extractor.ParseHtmlFile(sources[f].items);
      }
      var fromFile := if parsed.Some? then parsed.value else [];
      assert Collected(sources[..f + 1]) == Collected(sources[..f]) + fromFile;
      allProducts, processedIds := MergeFile(allProducts, processedIds, Collected(sources[..f]), fromFile);
    }
    assert sources[..|sources|] == sources;
    catalog := allProducts;
    if catalog == [] {
      header := None;
    } else {
      FullHeader(catalog);
      header := Some(SelectColumns(ColumnOrder, PresentColumns(catalog)));
    }
  }
}
