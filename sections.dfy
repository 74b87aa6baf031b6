/**
 * The section parser (`parse_product_details`): turns a product's
 * description fragment into a map from section key to section text.
 *
 * HTML tokenising and tree search are not modelled; the parser receives the
 * parse tree's relevant parts instead (see `Fragment`).
 */
module Sections {
  import opened Wrappers
  import opened Strings

  /** An element of the description: its tag name and its descendant text nodes, in document order. */
  datatype Element = Element(tag: string, strings: seq<string>)

  /** A `<summary>`: the text nodes of the first `span.headline` inside it, if there is one. */
  datatype Summary = Summary(headline: Option<seq<string>>)

  /**
   * A `<details>` element: its first `<summary>` and, when it has a
   * `div.indent-content`, every element inside the first such div in
   * document order (of any tag; the parser picks the ones it wants).
   */
  datatype Details = Details(summary: Option<Summary>, content: Option<seq<Element>>)

  /**
   * A non-null description value: the markup text itself (only its emptiness
   * matters here), the first `<p>` anywhere in it (inside a `<details>` or not),
   * and every `<details>` element in document order.
   */
  datatype Fragment = Fragment(markup: string, firstParagraph: Option<Element>, details: seq<Details>)

  /** One `<details>` element's contribution to the map. */
  datatype Section = Section(key: string, text: string)

  /** The tags whose text makes up a section's value. */
  const SectionTags: set<string> := {"p", "li", "h3", "h4", "h5", "h6"}

  /** The key used for a section without a headline span. */
  const FallbackKey: string := "general_details"

  /** The key under which the leading paragraph is stored. */
  const DescriptionKey: string := "description"

  /** Every text node is whitespace only. */
  predicate AllBlank(nodes: seq<string>) {
    forall i :: 0 <= i < |nodes| ==> AllSpace(nodes[i])
  }

  lemma AllBlankCons(nodes: seq<string>)
    requires nodes != []
    ensures AllBlank(nodes) <==> AllSpace(nodes[0]) && AllBlank(nodes[1..])
  {
    assert forall i :: 1 <= i < |nodes| ==> nodes[1..][i - 1] == nodes[i];
  }

  /** The text nodes, each stripped, with the ones that strip to nothing dropped. */
  function StrippedStrings(nodes: seq<string>): (r: seq<string>)
    ensures |r| <= |nodes|
  {
    if nodes == [] then []
    else
      var s := Strip(nodes[0]);
      if s == [] then StrippedStrings(nodes[1..]) else [s] + StrippedStrings(nodes[1..])
  }

  /** Every kept text node is non-empty and stripped. */
  lemma {:induction false} StrippedStringsClean(nodes: seq<string>)
    ensures CleanParts(StrippedStrings(nodes))
  {
    if nodes != [] {
      StrippedStringsClean(nodes[1..]);
      var s := Strip(nodes[0]);
      if s != [] {
        CleanPartsCons(s, StrippedStrings(nodes[1..]));
      }
    }
  }

  /** Nothing is kept exactly when every text node is blank. */
  lemma {:induction false} StrippedStringsEmpty(nodes: seq<string>)
    ensures StrippedStrings(nodes) == [] <==> AllBlank(nodes)
  {
    if nodes != [] {
      StrippedStringsEmpty(nodes[1..]);
      AllBlankCons(nodes);
    }
  }

  /** The kept nodes of a concatenation are the kept nodes of each half, in order. */
  lemma {:induction false} StrippedStringsAppend(a: seq<string>, b: seq<string>)
    ensures StrippedStrings(a + b) == StrippedStrings(a) + StrippedStrings(b)
  {
    if a == [] {
      assert a + b == b;
    } else {
      assert (a + b)[0] == a[0];
      assert (a + b)[1..] == a[1..] + b;
      StrippedStringsAppend(a[1..], b);
    }
  }

  /**
   * `get_text(separator=sep, strip=True)`: the stripped, non-blank text
   * nodes joined by `sep`. The result never starts or ends with whitespace and
   * is empty exactly when every text node is blank.
   */
  function GetText(nodes: seq<string>, sep: string): (r: string)
    ensures Stripped(r)
    ensures r == [] <==> AllBlank(nodes)
  {
    var parts := StrippedStrings(nodes);
    StrippedStringsClean(nodes);
    StrippedStringsEmpty(nodes);
    JoinStripped(sep, parts);
    Join(sep, parts)
  }

  /** The text of a single text node is that node, stripped. */
  lemma GetTextSingle(n: string, sep: string)
    ensures GetText([n], sep) == Strip(n)
  {
    assert |[n][1..]| == 0;
    assert StrippedStrings([n]) == if Strip(n) == [] then [] else [Strip(n)];
  }

  /**
   * The text of two runs of text nodes in a row: a blank run adds nothing;
   * otherwise the two texts are joined by the separator.
   */
  lemma GetTextAppend(a: seq<string>, b: seq<string>, sep: string)
    ensures AllBlank(a) ==> GetText(a + b, sep) == GetText(b, sep)
    ensures AllBlank(b) ==> GetText(a + b, sep) == GetText(a, sep)
    ensures !AllBlank(a) && !AllBlank(b) ==> GetText(a + b, sep) == GetText(a, sep) + sep + GetText(b, sep)
  {
    StrippedStringsAppend(a, b);
    StrippedStringsEmpty(a);
    StrippedStringsEmpty(b);
    var sa, sb := StrippedStrings(a), StrippedStrings(b);
    if sa == [] {
      assert sa + sb == sb;
    } else if sb == [] {
      assert sa + sb == sa;
    } else {
      JoinAppend(sep, sa, sb);
    }
  }

  /**
   * The key of a section: the headline's text lowercased with every single
   * space turned into an underscore, or `general_details` when the summary has
   * no headline span. A key never contains a space.
   */
  function HeadlineKey(headline: Option<seq<string>>): (r: string)
    ensures ' ' !in r
    ensures headline.None? ==> r == FallbackKey
    ensures forall i :: 0 <= i < |r| ==> !('A' <= r[i] <= 'Z')
    ensures headline.Some? ==> |r| == |GetText(headline.value, "")|
    ensures headline.Some? ==> forall i :: 0 <= i < |r| ==>
      var t := GetText(headline.value, "");
      r[i] == (if t[i] == ' ' then '_' else LowerChar(t[i]))
  {
    match headline
    case None => FallbackKey
    case Some(nodes) => SpacesToUnderscores(Lower(GetText(nodes, "")))
  }

  /** Whether an element's tag is one whose text goes into a section. */
  predicate IsSectionTag(e: Element) {
    e.tag in SectionTags
  }

  /** The text of every content element whose tag is one of `SectionTags`, in document order. */
  function ContentTexts(content: seq<Element>): (r: seq<string>)
    ensures |r| <= |content|
  {
    if content == [] then []
    else if IsSectionTag(content[0]) then [GetText(content[0].strings, " ")] + ContentTexts(content[1..])
    else ContentTexts(content[1..])
  }

  /** Every element text is stripped. */
  lemma {:induction false} ContentTextsStripped(content: seq<Element>)
    ensures AllStripped(ContentTexts(content))
  {
    if content != [] {
      ContentTextsStripped(content[1..]);
      var rest := ContentTexts(content[1..]);
      if IsSectionTag(content[0]) {
        var t := GetText(content[0].strings, " ");
        forall i | 0 <= i < |rest| + 1
          ensures Stripped(([t] + rest)[i])
        {
          if i > 0 {
            assert ([t] + rest)[i] == rest[i - 1];
          }
        }
      }
    }
  }

  /** The list is empty exactly when no element has one of the section tags. */
  lemma {:induction false} ContentTextsEmpty(content: seq<Element>)
    ensures ContentTexts(content) == [] <==> forall i :: 0 <= i < |content| ==> !IsSectionTag(content[i])
  {
    if content != [] {
      ContentTextsEmpty(content[1..]);
      assert forall i :: 1 <= i < |content| ==> content[1..][i - 1] == content[i];
    }
  }

  /** One element contributes its text exactly when its tag is a section tag. */
  lemma ContentTextsSingle(e: Element)
    ensures ContentTexts([e]) == if IsSectionTag(e) then [GetText(e.strings, " ")] else []
  {
    assert [e][1..] == [];
  }

  /** The texts of two runs of elements are those of the first run followed by those of the second. */
  lemma {:induction false} ContentTextsAppend(a: seq<Element>, b: seq<Element>)
    ensures ContentTexts(a + b) == ContentTexts(a) + ContentTexts(b)
  {
    if a == [] {
      assert a + b == b;
    } else {
      assert (a + b)[0] == a[0];
      assert (a + b)[1..] == a[1..] + b;
      ContentTextsAppend(a[1..], b);
    }
  }

  /**
   * What one `<details>` element adds to the map: nothing without a summary or
   * without a content div; otherwise its key and the newline-joined element
   * texts, stripped. A content div with no text elements still gives a section,
   * with the empty string as its text.
   */
  function SectionOf(d: Details): (r: Option<Section>)
    ensures r.Some? <==> d.summary.Some? && d.content.Some?
    ensures r.Some? ==> ' ' !in r.value.key && Stripped(r.value.text)
    ensures r.Some? ==> r.value.key == HeadlineKey(d.summary.value.headline)
    ensures r.Some? && ContentTexts(d.content.value) == [] ==> r.value.text == []
    ensures r.Some? && (forall i :: 0 <= i < |ContentTexts(d.content.value)| ==> ContentTexts(d.content.value)[i] != []) ==>
      r.value.text == Join("\n", ContentTexts(d.content.value))
    ensures r.Some? ==> r.value.text == Join("\n", TrimEmpties(ContentTexts(d.content.value)))
  {
    if d.summary.None? || d.content.None? then None
    else
      var texts := ContentTexts(d.content.value);
      ContentTextsStripped(d.content.value);
      JoinStripped("\n", texts);
      NewlineIsSpace();
      StripJoin("\n", texts);
      Some(Section(HeadlineKey(d.summary.value.headline), Strip(Join("\n", ContentTexts(d.content.value)))))
  }

  lemma NewlineIsSpace()
    ensures AllSpace("\n")
  {
    assert IsSpace("\n"[0]);
  }

  /** The leading-paragraph entry: the first `<p>`'s text, or the empty string. */
  function LeadText(firstParagraph: Option<Element>): (r: string)
    ensures Stripped(r)
    ensures firstParagraph.None? ==> r == []
  {
    match firstParagraph
    case None => []
    case Some(p) => GetText(p.strings, " ")
  }

  /** Whether `d` contributes a section under `key`. */
  predicate Defines(d: Details, key: string) {
    SectionOf(d).Some? && SectionOf(d).value.key == key
  }

  /**
   * The map after one `<details>` element, given the section it contributes:
   * without one the map is unchanged; with one, its key is added or
   * overwritten with its text and every other key keeps its value.
   */
  function Apply(m: map<string, string>, s: Option<Section>): (r: map<string, string>)
    ensures s.None? ==> r == m
    ensures s.Some? ==> r.Keys == m.Keys + {s.value.key} && r[s.value.key] == s.value.text
    ensures forall k :: k in m && (s.None? || s.value.key != k) ==> r[k] == m[k]
  {
    if s.None? then m else m[s.value.key := s.value.text]
  }

  /** The map after the `<details>` elements `ds`, processed in order. */
  function Fill(m: map<string, string>, ds: seq<Details>): (r: map<string, string>)
    ensures m.Keys <= r.Keys
    decreases |ds|
  {
    if ds == [] then m else Fill(Apply(m, SectionOf(ds[0])), ds[1..])
  }

  /** Whether `desc` is Python-falsy: `None` or the empty string. */
  predicate Blank(desc: Option<Fragment>) {
    desc.None? || desc.value.markup == []
  }

  /**
   * The section map of a description. A blank description gives the empty
   * map; any other always holds the `description` key.
   */
  function SectionMap(desc: Option<Fragment>): (r: map<string, string>)
    ensures r == map[] <==> Blank(desc)
    ensures !Blank(desc) ==> DescriptionKey in r
  {
    if Blank(desc) then map[]
    else
      var r := Fill(map[DescriptionKey := LeadText(desc.value.firstParagraph)], desc.value.details);
      assert DescriptionKey in r;
      r
  }

  /** `parse_product_details`: fills the map one `<details>` element at a time. */
  method ParseProductDetails(desc: Option<Fragment>) returns (sections: map<string, string>)
    ensures sections == SectionMap(desc)
  {
    if desc.None? || desc.value.markup == [] {
      return map[];
    }
    var fragment := desc.value;
    sections := map[DescriptionKey := LeadText(fragment.firstParagraph)];
    var i := 0;
    while i < |fragment.details|
      invariant 0 <= i <= |fragment.details|
      invariant Fill(sections, fragment.details[i..]) == SectionMap(desc)
    {
      var d := fragment.details[i];
      assert fragment.details[i..][1..] == fragment.details[i + 1..];
      if d.summary.Some? {
        var key := HeadlineKey(d.summary.value.headline);
        if d.content.Some? {
          sections := sections[key := Strip(Join("\n", ContentTexts(d.content.value)))];
        }
      }
      i := i + 1;
    }
  }

  /** A key is in the filled map exactly when it was there before or some element defines it. */
  lemma {:induction false} FillKeys(m: map<string, string>, ds: seq<Details>, key: string)
    ensures key in Fill(m, ds) <==> key in m || exists i :: 0 <= i < |ds| && Defines(ds[i], key)
    decreases |ds|
  {
    if ds != [] {
      FillKeys(Apply(m, SectionOf(ds[0])), ds[1..], key);
      assert forall i :: 1 <= i < |ds| ==> ds[1..][i - 1] == ds[i];
      if exists i :: 0 <= i < |ds| && Defines(ds[i], key) {
        var i :| 0 <= i < |ds| && Defines(ds[i], key);
        if i > 0 {
          assert Defines(ds[1..][i - 1], key);
        }
      }
    }
  }

  /** A key no element defines keeps the value it had before. */
  lemma {:induction false} FillKeeps(m: map<string, string>, ds: seq<Details>, key: string)
    requires key in m
    requires forall i :: 0 <= i < |ds| ==> !Defines(ds[i], key)
    ensures Fill(m, ds)[key] == m[key]
    decreases |ds|
  {
    if ds != [] {
      assert !Defines(ds[0], key);
      assert forall i :: 0 <= i < |ds| - 1 ==> ds[1..][i] == ds[i + 1];
      FillKeeps(Apply(m, SectionOf(ds[0])), ds[1..], key);
    }
  }

  /** The last element that defines a key decides its value. */
  lemma {:induction false} FillLastWins(m: map<string, string>, ds: seq<Details>, i: nat)
    requires i < |ds| && SectionOf(ds[i]).Some?
    requires forall j :: i < j < |ds| ==> !Defines(ds[j], SectionOf(ds[i]).value.key)
    ensures SectionOf(ds[i]).value.key in Fill(m, ds)
    ensures Fill(m, ds)[SectionOf(ds[i]).value.key] == SectionOf(ds[i]).value.text
    decreases |ds|
  {
    var s := SectionOf(ds[i]).value;
    if i == 0 {
      assert forall j :: 0 <= j < |ds| - 1 ==> ds[1..][j] == ds[j + 1];
      FillKeeps(Apply(m, SectionOf(ds[0])), ds[1..], s.key);
    } else {
      assert ds[1..][i - 1] == ds[i];
      assert forall j :: i - 1 < j < |ds| - 1 ==> ds[1..][j] == ds[j + 1];
      FillLastWins(Apply(m, SectionOf(ds[0])), ds[1..], i - 1);
    }
  }

  /**
   * The keys of a non-blank description's map: `description` and the key of
   * every `<details>` element that has both a summary and a content div.
   */
  lemma SectionKeys(desc: Option<Fragment>, key: string)
    requires !Blank(desc)
    ensures key in SectionMap(desc) <==>
      key == DescriptionKey || exists i :: 0 <= i < |desc.value.details| && Defines(desc.value.details[i], key)
  {
    FillKeys(map[DescriptionKey := LeadText(desc.value.firstParagraph)], desc.value.details, key);
  }

  /** When two sections share a key, the later one's text is the one kept. */
  lemma SectionLastWins(desc: Option<Fragment>, i: nat)
    requires !Blank(desc)
    requires i < |desc.value.details| && SectionOf(desc.value.details[i]).Some?
    requires forall j :: i < j < |desc.value.details| ==>
      !Defines(desc.value.details[j], SectionOf(desc.value.details[i]).value.key)
    ensures SectionOf(desc.value.details[i]).value.key in SectionMap(desc)
    ensures SectionMap(desc)[SectionOf(desc.value.details[i]).value.key] == SectionOf(desc.value.details[i]).value.text
  {
    FillLastWins(map[DescriptionKey := LeadText(desc.value.firstParagraph)], desc.value.details, i);
  }

  /**
   * Unless a section is itself keyed `description`, the `description` entry
   * holds the first paragraph's text, or the empty string when there is none.
   */
  lemma DescriptionFromFirstParagraph(desc: Option<Fragment>)
    requires !Blank(desc)
    requires forall i :: 0 <= i < |desc.value.details| ==> !Defines(desc.value.details[i], DescriptionKey)
    ensures SectionMap(desc)[DescriptionKey] == LeadText(desc.value.firstParagraph)
    ensures desc.value.firstParagraph.None? ==> SectionMap(desc)[DescriptionKey] == []
  {
    FillKeeps(map[DescriptionKey := LeadText(desc.value.firstParagraph)], desc.value.details, DescriptionKey);
  }

  /**
   * A headline of one text node with no whitespace at either end gives that
   * text, lowercased, with its spaces turned into underscores.
   */
  lemma SingleNodeHeadline(h: string)
    requires h != [] && Stripped(h)
    ensures HeadlineKey(Some([h])) == SpacesToUnderscores(Lower(h))
  {
    assert |[h][1..]| == 0;
    assert StrippedStrings([h]) == [h];
  }

  /** "How To Use" becomes `how_to_use`. */
  lemma HowToUseKey()
    ensures HeadlineKey(Some(["How To Use"])) == "how_to_use"
  {
    var h: string := "How To Use";
    assert Stripped(h) by {
      assert !IsSpace(h[0]) && !IsSpace(h[|h| - 1]);
    }
    SingleNodeHeadline(h);
    LowerHowToUse();
    UnderscoreHowToUse();
  }

  lemma LowerHowToUse()
    ensures Lower("How To Use") == "how to use"
  {
    var l := Lower("How To Use");
    assert l[0] == 'h' && l[4] == 't' && l[7] == 'u';
  }

  lemma UnderscoreHowToUse()
    ensures SpacesToUnderscores("how to use") == "how_to_use"
  {
  }
}
