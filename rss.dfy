/**
 * The feed route's item list: one `<item>` block per activity page, in the order the
 * query returned them, joined with no separator. The clock read and the host's
 * `Date` formatting are parameters: `nowIso` is `new Date().toISOString()` and `utc`
 * stands for `date => new Date(date).toUTCString()`.
 */
module Rss {
  import opened Wrappers
  import opened Strings
  import opened Notion
  import opened XmlEscape

  const ItemOpen := "\n    <item>\n      <title>"
  const TitleClose := "</title>\n      <description>"
  const DescriptionClose := "</description>\n      <pubDate>"
  const PubDateClose := "</pubDate>\n      <guid>"
  const ItemClose := "</guid>\n    </item>"

  /** The item title: the first span of `Activity`, default `Activity`. */
  function ItemTitle(p: ActivityPage): (r: string)
    ensures FirstPlainText(p.activity).Some? && FirstPlainText(p.activity).value != "" ==>
              r == FirstPlainText(p.activity).value
    ensures FirstPlainText(p.activity).None? || FirstPlainText(p.activity).value == "" ==> r == "Activity"
  {
    TitleOr(p.activity, "Activity")
  }

  /** The item description: the `Category` select name, default `Update`. */
  function ItemDescription(p: ActivityPage): (r: string)
    ensures p.category.Some? && p.category.value != "" ==> r == p.category.value
    ensures p.category.None? || p.category.value == "" ==> r == "Update"
  {
    OrElse(p.category, "Update")
  }

  /** The date handed to `new Date(...)`: the `Date` property, else the current ISO timestamp. */
  function ItemDate(p: ActivityPage, nowIso: string): (r: string)
    ensures p.date.Some? && p.date.value != "" ==> r == p.date.value
    ensures p.date.None? || p.date.value == "" ==> r == nowIso
  {
    OrElse(p.date, nowIso)
  }

  /**
   * The template of one item, as the route writes it. It opens with `<item>` and
   * `<title>` and ends with `</item>`. The title and description are embedded escaped:
   * the text between `<title>` and the next `<` is exactly `EscapeXml(title)`, and
   * likewise for the description. When the date and the id hold no `<`, they are read
   * back as written, unescaped, with nothing after the id but the closing tags.
   */
  function ItemText(title: string, description: string, pubDate: string, guid: string): (r: string)
    ensures ItemOpen <= r
    ensures EndsWith(r, ItemClose)
    ensures ItemFields(r) == Some((EscapeXml(title), EscapeXml(description)))
    ensures '<' !in pubDate && '<' !in guid ==>
              ItemParts(r) == Some((EscapeXml(title), EscapeXml(description), pubDate, guid))
  {
    var t, d := EscapeXml(title), EscapeXml(description);
    var r3 := PubDateClose + (guid + ItemClose);
    var r2 := DescriptionClose + (pubDate + r3);
    var r1 := TitleClose + (d + r2);
    assert r3[0] == '<' by { assert r3[0] == PubDateClose[0]; }
    assert r2[0] == '<' by { assert r2[0] == DescriptionClose[0]; }
    assert r1[0] == '<' by { assert r1[0] == TitleClose[0]; }
    var r := ItemOpen + (t + r1);
    FieldAfterMarker(ItemOpen, t, r1);
    FieldAfterMarker(TitleClose, d, r2);
    assert '<' !in pubDate && '<' !in guid ==>
             ItemParts(r) == Some((t, d, pubDate, guid)) by {
      if '<' !in pubDate && '<' !in guid {
        FieldAfterMarker(DescriptionClose, pubDate, r3);
        FieldAfterMarker(PubDateClose, guid, ItemClose);
      }
    }
    EndsWithLast(ItemOpen, t, TitleClose, d, DescriptionClose, pubDate, PubDateClose, guid, ItemClose);
    r
  }

  /** A right-nested concatenation ends with its last part. */
  lemma EndsWithLast(a1: string, a2: string, a3: string, a4: string, a5: string, a6: string,
                     a7: string, a8: string, k: string)
    ensures EndsWith(a1 + (a2 + (a3 + (a4 + (a5 + (a6 + (a7 + (a8 + k))))))), k)
  {
    var r := a1 + (a2 + (a3 + (a4 + (a5 + (a6 + (a7 + (a8 + k)))))));
    assert r == (a1 + a2 + a3 + a4 + a5 + a6 + a7 + a8) + k;
  }

  /**
   * One item: title and description are defaulted and escaped; the date is the host's
   * rendering of the `Date` property or of the clock; the id is not escaped. The item
   * holds the record's defaulted title and description, escaped.
   */
  function Item(p: ActivityPage, nowIso: string, utc: string -> string): (r: string)
    ensures ItemOpen <= r
    ensures ItemFields(r) == Some((EscapeXml(ItemTitle(p)), EscapeXml(ItemDescription(p))))
  {
    ItemText(ItemTitle(p), ItemDescription(p), utc(ItemDate(p, nowIso)), p.id)
  }

  /**
   * The item of a record ends with `</item>` and reads back as the record's fields: when
   * the rendered date and the id hold no `<`, the four parts are the escaped defaulted
   * title and description, the host's rendering of the resolved date, and the id,
   * unescaped.
   */
  lemma ItemReadsBack(p: ActivityPage, nowIso: string, utc: string -> string)
    ensures EndsWith(Item(p, nowIso, utc), ItemClose)
    ensures '<' !in utc(ItemDate(p, nowIso)) && '<' !in p.id ==>
              ItemParts(Item(p, nowIso, utc))
                == Some((EscapeXml(ItemTitle(p)), EscapeXml(ItemDescription(p)), utc(ItemDate(p, nowIso)), p.id))
  {
    var r := ItemText(ItemTitle(p), ItemDescription(p), utc(ItemDate(p, nowIso)), p.id);
    assert Item(p, nowIso, utc) == r;
  }

  /**
   * Escaping keeps an item well delimited whatever markup characters the title and
   * description hold: decoding the fields read back gives exactly the title and
   * description the item was built from.
   */
  lemma ItemTextDecodes(title: string, description: string, pubDate: string, guid: string)
    ensures var f := ItemFields(ItemText(title, description, pubDate, guid));
            f.Some? && UnescapeXml(f.value.0) == title && UnescapeXml(f.value.1) == description
  {
    EscapeXmlRoundTrip(title);
    EscapeXmlRoundTrip(description);
  }

  /** `results.map(item)`: the item of each page, in the order the query returned them. */
  function ItemList(pages: seq<ActivityPage>, nowIso: string, utc: string -> string): (r: seq<string>)
    ensures |r| == |pages|
    ensures forall i :: 0 <= i < |pages| ==> r[i] == Item(pages[i], nowIso, utc)
  {
    seq(|pages|, i requires 0 <= i < |pages| => Item(pages[i], nowIso, utc))
  }

  /**
   * `results.map(item).join('')`: one item per page with no separator and no empty
   * item, so the list is empty exactly when there are no pages; one page gives exactly
   * its item.
   */
  function Items(pages: seq<ActivityPage>, nowIso: string, utc: string -> string): (r: string)
    ensures r == "" <==> pages == []
    ensures |pages| == 1 ==> r == Item(pages[0], nowIso, utc)
  {
    var items := ItemList(pages, nowIso, utc);
    assert pages != [] ==> items[0] != "";
    Join(items)
  }

  /**
   * The `items` binding of the route: empty when no database id is configured or the
   * query failed (`None`), otherwise the joined items of the returned pages.
   */
  function FeedItems(configured: bool, response: Option<seq<ActivityPage>>, nowIso: string,
                     utc: string -> string): (r: string)
    ensures !configured || response.None? ==> r == ""
    ensures configured && response.Some? ==> r == Items(response.value, nowIso, utc)
  {
    if configured && response.Some? then Items(response.value, nowIso, utc) else ""
  }

  /** Joining is order-preserving concatenation: the items of `a + b` are those of `a`, then those of `b`. */
  lemma ItemsAppend(a: seq<ActivityPage>, b: seq<ActivityPage>, nowIso: string,
                    utc: string -> string)
    ensures Items(a + b, nowIso, utc) == Items(a, nowIso, utc) + Items(b, nowIso, utc)
  {
    var l, la, lb := ItemList(a + b, nowIso, utc), ItemList(a, nowIso, utc), ItemList(b, nowIso, utc);
    forall i | 0 <= i < |l|
      ensures l[i] == (la + lb)[i]
    {
      if i < |a| {
        assert (a + b)[i] == a[i];
      } else {
        assert (a + b)[i] == b[i - |a|];
      }
    }
    assert l == la + lb;
    JoinAppend(la, lb);
  }

  /**
   * Reads the text after the marker `open` at the head of `s` up to the next `<`,
   * and returns it with what follows it.
   */
  function FieldAfter(s: string, open: string): (r: Option<(string, string)>)
  {
    if open <= s then
      var text := PrefixBefore(s[|open|..], '<');
      Some((text, s[|open| + |text|..]))
    else None
  }

  /** Reads back the raw text of the title and description of an item. */
  function ItemFields(item: string): (r: Option<(string, string)>)
  {
    match FieldAfter(item, ItemOpen)
    case None => None
    case Some((title, rest)) =>
      match FieldAfter(rest, TitleClose)
      case None => None
      case Some((description, _)) => Some((title, description))
  }

  /**
   * Reads back the raw text of all four fields of an item, requiring nothing but
   * `</guid>` and `</item>` after the id.
   */
  function ItemParts(item: string): (r: Option<(string, string, string, string)>)
  {
    match FieldAfter(item, ItemOpen)
    case None => None
    case Some((title, r1)) =>
      match FieldAfter(r1, TitleClose)
      case None => None
      case Some((description, r2)) =>
        match FieldAfter(r2, DescriptionClose)
        case None => None
        case Some((pubDate, r3)) =>
          match FieldAfter(r3, PubDateClose)
          case None => None
          case Some((guid, r4)) =>
            if r4 == ItemClose then Some((title, description, pubDate, guid))
            else None
  }

  lemma FieldAfterMarker(open: string, text: string, rest: string)
    requires '<' !in text
    requires rest != [] && rest[0] == '<'
    ensures FieldAfter(open + (text + rest), open) == Some((text, rest))
  {
    var s := open + (text + rest);
    assert open <= s;
    assert s[|open|..] == text + [rest[0]] + rest[1..];
    PrefixBeforeConcat(text, '<', rest[1..]);
    assert s[|open| + |text|..] == rest;
  }
}
