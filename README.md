# zeke-site: projection, grouping and feed escaping, in Dafny

This project models the logic of a small personal site whose content comes from a
hosted document database (Notion). Three pages read database pages and reduce them
to display records:

- the **journal index** (`app/journal/page.js`) projects each journal page to a
  summary (title defaulting to `Untitled`, date taken from the `Date` property or,
  failing that, from the calendar-date part of `created_time`), groups the summaries
  by exact date string, sorts the groups latest first and shows an empty state when
  there are none;
- the **RSS feed** (`app/rss.xml/route.js`) escapes `&`, `<`, `>` and `"` in the title
  and description of every activity, fills in the defaults `Activity` and `Update`,
  and joins one `<item>` block per record;
- the **home page** (`app/page.js`) projects activity pages to summaries with a default
  for every field, shows the part of the category before its first space as the icon,
  derives a CSS class from the status (`Done` before `Progress`), and shows a single
  placeholder row when there are no activities.

Modules, one per file:
`Wrappers` (`Option`), `Strings` (the JavaScript string operations used: `split(c)[0]`,
`includes`, `localeCompare` as lexicographic order, `||` on optional strings),
`Notion` (the page records, each property an `Option`), `Journal`, `IsoDate` (why
string order is date order), `XmlEscape` and `Rss` (the feed route), `Home`.

`groupByDate` changes a dictionary in a loop, so `Journal.GroupByDate` is a method
(its `forEach` pass is `Journal.CollectBuckets`) with a `map<string, seq<JournalSummary>>`, an insertion-ordered key list and loop
invariants; it is proved against the specification `Journal.IsDateGrouping`, and the
properties of the grouping are lemmas about that predicate. The page component
`JournalIndexPage`, which awaits the entries and groups them, is the method
`Journal.JournalIndexPage`. Everything else in the three files is expressions and is
modelled as functions.

Inputs the source gets from the environment are parameters: whether a database id
is configured (`configured`), the query outcome (`Option<seq<...>>`, `None` for a
query that throws), the clock read `new Date().toISOString()` (`nowIso`) and the
host's `new Date(date).toUTCString()` (`utc`, an arbitrary `string -> string`).

The feed escapes four characters; the apostrophe passes through. The home page's
default date is the UTC calendar date of `toISOString()`.

## Model

| member | source | states |
|---|---|---|
| Strings.OrElse | app/page.js:25-27 | `o || d` on an optional string: the string when present and non-empty, otherwise the default; empty only when the default is |
| Strings.Join | app/rss.xml/route.js:30 | `join('')`: one part gives exactly that part; the result is empty exactly when every part is |
| Strings.JoinAppend | app/rss.xml/route.js:30 | joining `a + b` gives the join of `a` followed by the join of `b` |
| Strings.PrefixBefore | app/journal/page.js:21 | `split(c)[0]` is a prefix of the string, holds no `c`, and is followed by `c` unless it is the whole string; it is the whole string when `c` does not occur |
| Strings.Contains | app/page.js:99-100 | `includes(t)` holds exactly when `t` occurs at some index |
| Strings.LexLess | app/journal/page.js:46 | strict code-point lexicographic order, the model of `localeCompare(...) < 0`: a proper prefix sorts first, and a string never sorts before one of its prefixes |
| Strings.LexLessIrreflexive | app/journal/page.js:46 | the comparator order never puts a key before itself |
| Strings.LexLessTransitive | app/journal/page.js:46 | the comparator order is transitive |
| Strings.LexLessTotal | app/journal/page.js:46 | any two different keys are ordered one way or the other |
| Strings.LexLessAsymmetric | app/journal/page.js:46 | two keys are never ordered both ways |
| Notion.FirstPlainText | app/page.js:24 | `title?.[0]?.plain_text` is present exactly when the title has a first span, and is then that span's text |
| Notion.TitleOr | app/page.js:24 | the title is the first span's plain text when present and non-empty, else the default; spans after the first never contribute; non-empty when the default is |
| Notion.TitleOnlyFirstSpan | app/page.js:24 | two titles sharing their first span give the same text |
| Journal.ResolveDate | app/journal/page.js:20-21 | the `Date` property when present and non-empty; otherwise a prefix of `created_time` with no `T`, ending where the first `T` is |
| Journal.Summarize | app/journal/page.js:23-27 | id carried through, date resolved as above, title the first span of `Name` or `Untitled` |
| Journal.SummarizeAll | app/journal/page.js:19-28 | one summary per page, same length and order |
| Journal.GetJournalEntries | app/journal/page.js:9-32 | a failed query gives no entries; otherwise one entry per page, in order, each the page's projection (id, title defaulted to `Untitled`, date resolved) |
| Journal.SortKeysDescending | app/journal/page.js:45-46 | the dictionary keys sorted strictly descending, a permutation of the keys |
| Journal.CollectBuckets | app/journal/page.js:37-44 | after the `forEach`, the dictionary's keys are exactly the dates of the entries, each bucket holds exactly its date's entries in input order, and the key list holds each key once |
| Journal.BucketedStep | app/journal/page.js:39-43 | one step of the `forEach`, creating the bucket when the date is new and then pushing the entry, keeps the dictionary exact for the entries seen so far |
| Journal.GroupByDate | app/journal/page.js:36-48 | the result is the date grouping of the entries: keys strictly descending, keys exactly the dates present, each group exactly the entries of its date in input order |
| Journal.SortedKeysAreBuckets | app/journal/page.js:45-46 | sorting the dictionary's keys keeps exactly the dates that have a bucket |
| Journal.GroupsFromBuckets | app/journal/page.js:45-47 | pairing the sorted keys with their buckets, when each bucket holds exactly its date's entries, yields the date grouping of the entries |
| Journal.EntriesOnAppend | app/journal/page.js:38-43 | within a group, entries from an earlier part of the input precede those from a later part |
| Journal.GroupsNonEmptyAndUniform | app/journal/page.js:38-44 | every group is non-empty and all its entries carry the group's date |
| Journal.GroupKeysDistinct | app/journal/page.js:37-41 | no two groups share a key |
| Journal.EntryInExactlyOneGroup | app/journal/page.js:36-47 | each input entry is in the group of its date and in no other group |
| Journal.GroupingIsPartition | app/journal/page.js:36-47 | the groups' entries taken together are the input as a multiset; the group sizes add up to the input length |
| Journal.GroupingEmptyIff | app/journal/page.js:36-48 | there are no groups exactly when there are no entries |
| Journal.GroupingUnique | app/journal/page.js:36-48 | the grouping is determined by the entries, so the method's result is the only one possible |
| Journal.IndexViewOf | app/journal/page.js:82-99 | the empty-state message shows exactly when there are no groups; otherwise the groups are shown in order |
| Journal.JournalIndexPage | app/journal/page.js:68-99 | the empty state shows exactly when the query failed or returned nothing; otherwise the days shown are the grouping of the projected entries |
| IsoDate.DigitsOrder | app/journal/page.js:46 | on equal-length digit strings string order is numeric order and equality is numeric equality |
| IsoDate.LexLessConcat | app/journal/page.js:46 | string order on concatenations with equal-length heads compares the heads first, then the tails |
| IsoDate.LexLessIsChronological | app/journal/page.js:45-46 | on `YYYY-MM-DD` dates string order is (year, month, day) order |
| IsoDate.GroupsLatestFirst | app/journal/page.js:45-47 | when every entry date is an ISO date, each group is a later day than every group after it |
| XmlEscape.ReplaceAll | app/rss.xml/route.js:56-59 | every character of the output is either a character of the input other than the pattern or a character of the replacement |
| XmlEscape.EscapeXml | app/rss.xml/route.js:55-60 | the output contains no raw `<`, `>` or `"` |
| XmlEscape.EscapeXmlIsPerChar | app/rss.xml/route.js:55-60 | the chain of four global replacements equals replacing each character independently |
| XmlEscape.EscapeXmlConcat | app/rss.xml/route.js:55-60 | escaping a concatenation is the concatenation of the escapes |
| XmlEscape.EscapeXmlAmpersandsAreEntities | app/rss.xml/route.js:56-59 | every `&` in the output begins `&amp;`, `&lt;`, `&gt;` or `&quot;` |
| XmlEscape.EscapeXmlRoundTrip | app/rss.xml/route.js:56-59 | decoding the four entities in the output gives back the input |
| XmlEscape.EscapeXmlLength | app/rss.xml/route.js:56-59 | the output length is the sum of the per-character replacement lengths, never less than the input length, and greater when the input holds a metacharacter |
| XmlEscape.EscapeXmlIdentity | app/rss.xml/route.js:55-60 | the output equals the input exactly when the input holds none of `& < > "`; the apostrophe and all other characters pass through |
| XmlEscape.EscapeXmlIdempotentIff | app/rss.xml/route.js:56 | escaping twice equals escaping once exactly on metacharacter-free input, so `&` gives `&amp;` and then `&amp;amp;` |
| Rss.ItemTitle | app/rss.xml/route.js:19 | the first span of `Activity` when present and non-empty, else `Activity` |
| Rss.ItemDate | app/rss.xml/route.js:20 | the `Date` property when present and non-empty, else the current ISO timestamp |
| Rss.ItemDescription | app/rss.xml/route.js:21 | the `Category` select name when present and non-empty, else `Update` |
| Rss.ItemText | app/rss.xml/route.js:23-29 | the item opens with `<item>` and `<title>` and ends with `</guid>` and `</item>`; reading each field back up to the next `<` yields exactly `escapeXml` of the title and of the description, whatever characters they hold, and, when the date and id hold no `<`, exactly that date and that id between `<pubDate>`/`<guid>` and their closing tags, with nothing after the id but the closing tags |
| Rss.Item | app/rss.xml/route.js:18-29 | the item of a record opens with `<item>` and its title and description fields read back as `escapeXml` of that record's defaulted title and description |
| Rss.ItemReadsBack | app/rss.xml/route.js:18-29 | the item of a record ends with `</item>`; when the rendered date and the id hold no `<`, its four fields read back as `escapeXml` of the defaulted title and description, `utc` of the `Date` property or clock, and the unescaped page id |
| Rss.ItemTextDecodes | app/rss.xml/route.js:25-26 | unescaping the title and description fields read back from an item gives back the title and description themselves |
| Rss.ItemList | app/rss.xml/route.js:18-29 | `map`: one item per record, in order |
| Rss.ItemsAppend | app/rss.xml/route.js:18-30 | the items of `a + b` are the items of `a` followed by those of `b`, with no separator |
| Rss.Items | app/rss.xml/route.js:18-30 | the joined items are empty exactly when there are no records, and one record gives exactly its item |
| Rss.FeedItems | app/rss.xml/route.js:7-33 | the items are `''` when no database id is configured or the query fails, otherwise the joined items of the results |
| Home.Today | app/page.js:27 | the fallback date is a prefix of the ISO timestamp with no `T`, ending at its first `T` |
| Home.Summarize | app/page.js:22-28 | id carried through; activity is the first title span or `Untitled`; category defaults to `🤖`, status to `✓ Done`, date to today's date; activity, category and status are never empty |
| Home.SummarizeAll | app/page.js:22-28 | one summary per page, same length and order |
| Home.GetActivities | app/page.js:6-33 | empty when not configured or the query fails; otherwise one summary per page, in order, each the page's projection with every field defaulted |
| Home.CategoryIcon | app/page.js:92 | the icon is a prefix of the category, holds no space, and is followed by a space unless it is the whole category |
| Home.CategoryIconOfLabel | app/page.js:92 | a category of the form icon, space, name shows as the icon |
| Home.CategoryIconExample | app/page.js:92 | `🎨 Design` shows as `🎨` |
| Home.StatusClass | app/page.js:98-100 | `status-done` exactly when the status contains `Done`; `status-progress` exactly when it contains `Progress` but not `Done`; `''` exactly when it contains neither |
| Home.DefaultStatusIsDone | app/page.js:98-100 | the default status `✓ Done` is styled as done |
| Home.RowOf | app/page.js:89-105 | an activity's row is keyed by its id and shows its title, status and date unchanged, the category's icon (`Home.CategoryIcon`) and the status's class (`Home.StatusClass`) |
| Home.ActivityList | app/page.js:78-107 | no activities give exactly the placeholder row `Initializing systems...`; otherwise one row per activity, in order, each the row of that activity: its id, icon, title, status class, status and date |

## Left out

- Network I/O: constructing the Notion client, `databases.query` with its filters, sorts and page sizes. The query outcome is an input, and a query that throws is `None`.
- `console.error` logging, which has no effect on results; a failure only yields the empty result.
- `revalidate`, the `Content-Type` and `Cache-Control` headers, and the `Response` object, which are framework plumbing.
- The static text of the RSS document around `items`, and all JSX markup except the row and view choices modelled in `Home.ActivityList` and `Journal.IndexViewOf`.
- `formatDate` (`toLocaleDateString`) and `lastUpdated` (`toLocaleString`), which depend on locale and time-zone data.
- `new Date(date).toUTCString()`: an arbitrary function parameter `utc`, because host date parsing is outside the model.
- `new Date().toISOString()`: the parameter `nowIso`. The feed (`app/rss.xml/route.js:20`) and the home page (`app/page.js:27`) read the clock once for each record whose `Date` is missing or empty; `Rss.Items` and `Home.SummarizeAll` use one value for all records of a request.
- Rss.ItemText: the date and the id are read back only when they hold no `<`. They are interpolated unescaped, so a `<` in either would end the field early for any reader; `toUTCString()` never produces one and Notion page ids are UUIDs.
- Rss.ItemReadsBack: the same condition on the rendered date and the page id, for the same reason.
- `app/layout.js`: metadata and the root layout only.
- The block flattening of journal detail pages: `app/journal/[id]/page.js` is not part of this model.
- A journal page without `created_time` would be filed under the key `"undefined"`. The API always supplies `created_time`, so the model makes it a required string.
- A journal date that names a member every JavaScript object inherits, such as `constructor`, `toString` or `__proto__`, makes `groups[date]` (`app/journal/page.js:40`) an inherited, truthy value. The `push` on line 43 then throws a `TypeError`, which no `try`/`catch` around `groupByDate` (line 70) handles, and the page fails to render. Notion dates are ISO dates, so the model uses a plain map and groups such entries like any other.
- The `!journalDbId` check in `getJournalEntries` never fires, because the id has a literal fallback; it is not modelled.
- Journal.SortKeysDescending: requires distinct keys, which dictionary keys always are; the model does not sort arbitrary lists.
- `localeCompare` is modelled as code-point lexicographic order. This agrees with locale collation on the ISO date keys the site produces, but not on arbitrary strings.
- JavaScript strings are UTF-16, and Dafny characters are Unicode scalar values. An emoji is one character here and two code units in JavaScript. Nothing modelled splits or measures at that level.
