/**
 * The record normaliser: the per-item mapping in `parse_html_file` from a
 * decoded product object and its section map to the fixed 16-field record.
 *
 * JSON decoding is not modelled: a decoded object is a `Payload` whose
 * fields say whether the key was missing, held `null`, or held a value.
 */
module Records {
  import opened Wrappers
  import opened Strings
  import Sections

  /** One key of a decoded JSON object. */
  datatype JsonField<+T> = Absent | Null | Present(value: T)

  /** `obj.get(key)`: `None` for a missing key and for `null` alike. */
  function Get<T>(f: JsonField<T>): (r: Option<T>)
    ensures r.Some? <==> f.Present?
    ensures r.Some? ==> r.value == f.value
  {
    if f.Present? then Some(f.value) else None
  }

  /** `obj.get(key, default)`: the default replaces a missing key only; `null` still gives `None`. */
  function GetOr<T>(f: JsonField<T>, default: T): (r: Option<T>)
    ensures r.None? <==> f.Null?
    ensures f.Absent? ==> r == Some(default)
    ensures f.Present? ==> r == Some(f.value)
  {
    match f
    case Absent => Some(default)
    case Null => None
    case Present(v) => Some(v)
  }

  /** The decoded product object, with the keys the extractor reads. */
  datatype Payload = Payload(
    id: JsonField<int>,
    title: JsonField<string>,
    handle: JsonField<string>,
    price: JsonField<int>,
    available: JsonField<bool>,
    productType: JsonField<string>,
    vendor: JsonField<string>,
    tags: JsonField<seq<string>>,
    description: JsonField<Sections.Fragment>,
    featuredImage: JsonField<string>)

  /** A product's identity as the catalog compares it; a missing id is `None`, which is kept like any other. */
  type ProductId = Option<int>

  /** The exported record; one field per output column. */
  datatype Product = Product(
    productId: ProductId,
    title: Option<string>,
    price: string,
    stockStatus: string,
    productType: Option<string>,
    vendor: Option<string>,
    tags: string,
    description: Option<string>,
    benefits: Option<string>,
    howToUse: Option<string>,
    ingredients: Option<string>,
    specifications: Option<string>,
    careInstructions: Option<string>,
    inclusions: Option<string>,
    productUrl: string,
    primaryImageUrl: Option<string>)

  /** The keys of the record's dict, in the order its literal lists them. */
  const RecordKeys: seq<string> := [
    "product_id", "title", "price ($)", "stock_status", "product_type",
    "vendor", "tags", "description", "benefits", "how_to_use",
    "ingredients", "specifications", "care_instructions", "inclusions",
    "product_url", "primary_image_url"]

  /**
   * The keys of one record's dict. The literal names every key whatever the
   * values, so a `None` value is still a key and every record has the same keys.
   */
  function RecordColumns(p: Product): set<string> {
    set c | c in RecordKeys
  }

  const UrlPrefix: string := "https://beautederm.sg/collections/all/products/"
  const InStock: string := "In Stock"
  const SoldOut: string := "Sold Out"
  const TagSeparator: string := ", "

  /** The alias lists of the narrative fields, highest priority first. */
  const DescriptionAliases: seq<string> := ["description"]
  const BenefitsAliases: seq<string> := ["benefits"]
  const HowToUseAliases: seq<string> := ["how_to_use", "directions_for_use"]
  const IngredientsAliases: seq<string> := ["ingredients"]
  const SpecificationsAliases: seq<string> := ["details", "specification"]
  const CareAliases: seq<string> := ["care"]
  const InclusionsAliases: seq<string> := ["inclusions"]

  /**
   * The price in dollars with two decimals, from integer cents: the sign,
   * the whole dollars, a point and the cents as exactly two digits.
   */
  function FormatPrice(cents: int): (r: string)
    ensures |r| >= 4 && r[|r| - 3] == '.' && IsDigit(r[|r| - 2]) && IsDigit(r[|r| - 1])
    ensures (r[0] == '-') <==> cents < 0
    ensures var w := r[(if cents < 0 then 1 else 0)..|r| - 3];
      w != [] && AllDigits(w) && (|w| > 1 ==> w[0] != '0')
  {
    (if cents < 0 then "-" else "") + AmountText(if cents < 0 then -cents else cents)
  }

  /** A non-negative amount of cents as whole units, `.` and exactly two digits. */
  function AmountText(a: nat): (r: string)
    ensures |r| >= 4 && r[0] != '-'
    ensures r[|r| - 3] == '.' && IsDigit(r[|r| - 2]) && IsDigit(r[|r| - 1])
    ensures var w := r[..|r| - 3];
      w != [] && AllDigits(w) && (|w| > 1 ==> w[0] != '0')
  {
    NatToString(a / 100) + "." + [DigitChar(a % 100 / 10), DigitChar(a % 10)]
  }

  /** Reads a price written as an optional `-`, decimal digits, `.` and two digits back as cents. */
  function ParsePrice(s: string): Option<int> {
    var negative := |s| > 0 && s[0] == '-';
    match ParseAmount(if negative then s[1..] else s)
    case None => None
    case Some(v) =>
      var c: int := v;
      Some(if negative then -c else c)
  }

  /** Reads decimal digits, `.` and two digits back as cents. */
  function ParseAmount(body: string): Option<nat> {
    var n := |body|;
    if n < 4 || body[n - 3] != '.' || !AllDigits(body[..n - 3]) || !IsDigit(body[n - 2]) || !IsDigit(body[n - 1]) then None
    else Some(ParseNat(body[..n - 3]) * 100 + DigitValue(body[n - 2]) * 10 + DigitValue(body[n - 1]))
  }

  lemma AmountRoundTrip(a: nat)
    ensures ParseAmount(AmountText(a)) == Some(a)
  {
    var body := AmountText(a);
    var n := |body|;
    assert body[..n - 3] == NatToString(a / 100);
    ParseNatToString(a / 100);
  }

  /** The formatted price loses nothing: reading it back gives the cents. */
  lemma PriceRoundTrip(cents: int)
    ensures ParsePrice(FormatPrice(cents)) == Some(cents)
  {
    var a: nat := if cents < 0 then -cents else cents;
    var s := FormatPrice(cents);
    assert (if cents < 0 then s[1..] else s) == AmountText(a);
    AmountRoundTrip(a);
  }

  /** 2550 cents is "25.50"; a missing price counts as 0 and gives "0.00". */
  lemma PriceExamples()
    ensures FormatPrice(2550) == "25.50"
    ensures FormatPrice(0) == "0.00"
    ensures FormatPrice(-5) == "-0.05"
  {
    assert NatToString(25) == "25";
  }

  /** The stock status: "In Stock" exactly when `available` is `true`; missing or `null` count as false. */
  function StockStatus(available: JsonField<bool>): (r: string)
    ensures r == InStock <==> available == Present(true)
    ensures r == InStock || r == SoldOut
  {
    match GetOr(available, false)
    case Some(true) => InStock
    case _ => SoldOut
  }

  /** How an f-string renders the handle: the text itself, or `None` when there is none. */
  function HandleText(handle: Option<string>): (r: string)
    ensures handle.Some? ==> r == handle.value
    ensures handle.None? ==> r == "None"
  {
    match handle
    case Some(h) => h
    case None => "None"
  }

  /** The product page: the fixed prefix followed by the rendered handle. */
  function ProductUrl(handle: Option<string>): (r: string)
    ensures |r| >= |UrlPrefix| && r[..|UrlPrefix|] == UrlPrefix
    ensures handle.Some? ==> r[|UrlPrefix|..] == handle.value
    ensures handle.None? ==> r[|UrlPrefix|..] == "None"
  {
    UrlPrefix + HandleText(handle)
  }

  /** The position of the first alias present in `m`, or `|aliases|` when none is. */
  function FirstPresentIndex(m: map<string, string>, aliases: seq<string>): (i: nat)
    ensures i <= |aliases|
    ensures forall j :: 0 <= j < i ==> aliases[j] !in m
    ensures i < |aliases| ==> aliases[i] in m
  {
    if aliases == [] then 0
    else if aliases[0] in m then 0
    else 1 + FirstPresentIndex(m, aliases[1..])
  }

  /**
   * Prioritised alias lookup (`m.get(a, m.get(b))`): the value of the first
   * alias that is a key of `m`, present even when that value is empty, and
   * `None` only when no alias is a key.
   */
  function FirstPresent(m: map<string, string>, aliases: seq<string>): (r: Option<string>)
    ensures r.None? <==> forall j :: 0 <= j < |aliases| ==> aliases[j] !in m
  {
    var i := FirstPresentIndex(m, aliases);
    if i < |aliases| then Some(m[aliases[i]]) else None
  }

  /** `m.get(key)` on the section map. */
  function Lookup(m: map<string, string>, key: string): Option<string> {
    if key in m then Some(m[key]) else None
  }

  /** A one-alias list is a plain lookup. */
  lemma FirstPresentSingle(m: map<string, string>, a: string)
    ensures FirstPresent(m, [a]) == Lookup(m, a)
  {
    var i := FirstPresentIndex(m, [a]);
    assert a in m ==> i == 0;
  }

  /**
   * Alias priority for two aliases: the first is used whenever it is a key,
   * even with an empty value, and the second only when the first is not a key.
   */
  lemma FirstPresentPair(m: map<string, string>, a: string, b: string)
    ensures FirstPresent(m, [a, b]) == if a in m then Some(m[a]) else Lookup(m, b)
  {
    var i := FirstPresentIndex(m, [a, b]);
    assert a in m ==> i == 0;
    assert [a, b][1..] == [b];
    assert a !in m ==> i == 1 + FirstPresentIndex(m, [b]);
  }

  /**
   * The record for one decoded object and its section map, or `None` when
   * the mapping raises an error the item handler does not catch: a `null`
   * price cannot be divided and a `null` tag list cannot be joined.
   */
  function Normalize(p: Payload, sections: map<string, string>): (r: Option<Product>)
    ensures r.None? <==> p.price.Null? || p.tags.Null?
  {
    var price := GetOr(p.price, 0);
    var tags := GetOr(p.tags, []);
    if price.None? || tags.None? then None
    else
      Some(Product(
        productId := Get(p.id),
        title := Get(p.title),
        price := FormatPrice(price.value),
        stockStatus := StockStatus(p.available),
        productType := Get(p.productType),
        vendor := Get(p.vendor),
        tags := Join(TagSeparator, tags.value),
        description := FirstPresent(sections, DescriptionAliases),
        benefits := FirstPresent(sections, BenefitsAliases),
        howToUse := FirstPresent(sections, HowToUseAliases),
        ingredients := FirstPresent(sections, IngredientsAliases),
        specifications := FirstPresent(sections, SpecificationsAliases),
        careInstructions := FirstPresent(sections, CareAliases),
        inclusions := FirstPresent(sections, InclusionsAliases),
        productUrl := ProductUrl(Get(p.handle)),
        primaryImageUrl := Get(p.featuredImage)))
  }

  /**
   * The fields of a record: the id, title, type, vendor and image are copied
   * (missing ones as `None`); the price is the cents as a decimal string, with
   * a missing price as zero; the stock status and URL as their helpers give
   * them; the tags joined by ", "; and each section field is the first of its
   * aliases present in the map.
   */
  lemma NormalizeFields(p: Payload, sections: map<string, string>) returns (r: Product)
    requires !p.price.Null? && !p.tags.Null?
    ensures Normalize(p, sections) == Some(r)
    ensures r.productId == Get(p.id) && r.title == Get(p.title)
    ensures r.productType == Get(p.productType) && r.vendor == Get(p.vendor)
    ensures r.price == FormatPrice(if p.price.Present? then p.price.value else 0)
    ensures r.stockStatus == InStock <==> p.available == Present(true)
    ensures r.stockStatus in {InStock, SoldOut}
    ensures p.tags.Absent? || p.tags == Present([]) ==> r.tags == []
    ensures p.tags.Present? && |p.tags.value| == 1 ==> r.tags == p.tags.value[0]
    ensures p.tags.Present? ==> r.tags == Join(TagSeparator, p.tags.value)
    ensures r.description == Lookup(sections, "description")
    ensures r.benefits == Lookup(sections, "benefits")
    ensures r.howToUse ==
      if "how_to_use" in sections then Some(sections["how_to_use"]) else Lookup(sections, "directions_for_use")
    ensures r.specifications ==
      if "details" in sections then Some(sections["details"]) else Lookup(sections, "specification")
    ensures r.ingredients == Lookup(sections, "ingredients")
    ensures r.careInstructions == Lookup(sections, "care")
    ensures r.inclusions == Lookup(sections, "inclusions")
    ensures |r.productUrl| >= |UrlPrefix| && r.productUrl[..|UrlPrefix|] == UrlPrefix
    ensures p.handle.Present? ==> r.productUrl == UrlPrefix + p.handle.value
    ensures r.primaryImageUrl == Get(p.featuredImage)
  {
    r := Normalize(p, sections).value;
    FirstPresentSingle(sections, "description");
    FirstPresentSingle(sections, "benefits");
    FirstPresentSingle(sections, "ingredients");
    FirstPresentSingle(sections, "care");
    FirstPresentSingle(sections, "inclusions");
    FirstPresentPair(sections, "how_to_use", "directions_for_use");
    FirstPresentPair(sections, "details", "specification");
  }
}
