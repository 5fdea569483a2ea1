/**
 * The parts of a remote database page that the site reads. Each property is an
 * `Option`: `None` stands for every way the optional chain `page.properties.X?.y?.z`
 * can come out undefined or null (missing property, missing select, no date).
 */
module Notion {
  import opened Wrappers
  import opened Strings

  /** One rich-text span of a title property; only its plain text is read. */
  datatype RichText = RichText(plainText: string)

  /** A page of the journal database. `created_time` is always supplied by the API. */
  datatype JournalPage = JournalPage(
    id: string,
    name: Option<seq<RichText>>,   // properties.Name?.title
    date: Option<string>,          // properties.Date?.date?.start
    createdTime: string)           // created_time

  /** A page of the activity database, read both by the home page and by the feed. */
  datatype ActivityPage = ActivityPage(
    id: string,
    activity: Option<seq<RichText>>, // properties.Activity?.title
    category: Option<string>,        // properties.Category?.select?.name
    status: Option<string>,          // properties.Status?.select?.name
    date: Option<string>)            // properties.Date?.date?.start

  /** `title?.[0]?.plain_text`: the first span's text, if there is a first span. */
  function FirstPlainText(title: Option<seq<RichText>>): (r: Option<string>)
    ensures r.Some? <==> title.Some? && |title.value| > 0
    ensures r.Some? ==> r.value == title.value[0].plainText
  {
    if title.Some? && |title.value| > 0 then Some(title.value[0].plainText) else None
  }

  /**
   * `title?.[0]?.plain_text || d`: the first span's text when it is present and
   * non-empty, otherwise the default. Later spans never contribute.
   */
  function TitleOr(title: Option<seq<RichText>>, d: string): (r: string)
    ensures title.Some? && |title.value| > 0 && title.value[0].plainText != "" ==>
              r == title.value[0].plainText
    ensures title.None? || |title.value| == 0 || title.value[0].plainText == "" ==> r == d
    ensures d != "" ==> r != ""
  {
    OrElse(FirstPlainText(title), d)
  }

  /** Spans after the first one are ignored: two titles with the same first span give the same text. */
  lemma TitleOnlyFirstSpan(a: seq<RichText>, b: seq<RichText>, d: string)
    requires |a| > 0 && |b| > 0 && a[0] == b[0]
    ensures TitleOr(Some(a), d) == TitleOr(Some(b), d)
  {
  }
}
