/**
 * The home page: activity pages projected to summaries with a default for every
 * field, the category icon, the status class, and the activity list with its
 * placeholder row. `nowIso` is the clock read `new Date().toISOString()`.
 */
module Home {
  import opened Wrappers
  import opened Strings
  import opened Notion

  datatype ActivitySummary = ActivitySummary(
    id: string, activity: string, category: string, status: string, date: string)

  const DefaultActivity := "Untitled"
  const DefaultCategory := "\U{1F916}"       // robot face
  const DefaultStatus := "\U{2713} Done"     // check mark, space, Done

  /** `new Date().toISOString().split('T')[0]`: the calendar-date part of the current time. */
  function Today(nowIso: string): (d: string)
    ensures d <= nowIso && 'T' !in d
    ensures |d| < |nowIso| ==> nowIso[|d|] == 'T'
  {
    PrefixBefore(nowIso, 'T')
  }

  /** The projection of one page inside `getActivities`. */
  function Summarize(p: ActivityPage, nowIso: string): (a: ActivitySummary)
    ensures a.id == p.id
    ensures FirstPlainText(p.activity).Some? && FirstPlainText(p.activity).value != "" ==>
              a.activity == FirstPlainText(p.activity).value
    ensures FirstPlainText(p.activity).None? || FirstPlainText(p.activity).value == "" ==>
              a.activity == DefaultActivity
    ensures p.category.Some? && p.category.value != "" ==> a.category == p.category.value
    ensures p.category.None? || p.category.value == "" ==> a.category == DefaultCategory
    ensures p.status.Some? && p.status.value != "" ==> a.status == p.status.value
    ensures p.status.None? || p.status.value == "" ==> a.status == DefaultStatus
    ensures p.date.Some? && p.date.value != "" ==> a.date == p.date.value
    ensures p.date.None? || p.date.value == "" ==> a.date == Today(nowIso)
    // every displayed text field resolves to something non-empty
    ensures a.activity != "" && a.category != "" && a.status != ""
  {
    ActivitySummary(
      p.id,
      TitleOr(p.activity, DefaultActivity),
      OrElse(p.category, DefaultCategory),
      OrElse(p.status, DefaultStatus),
      OrElse(p.date, Today(nowIso)))
  }

  /** `results.map(...)`: one summary per page, in order. */
  function SummarizeAll(pages: seq<ActivityPage>, nowIso: string): (r: seq<ActivitySummary>)
    ensures |r| == |pages|
    ensures forall i :: 0 <= i < |pages| ==> r[i] == Summarize(pages[i], nowIso)
  {
    seq(|pages|, i requires 0 <= i < |pages| => Summarize(pages[i], nowIso))
  }

  /**
   * `getActivities`: empty when no database id is configured or the query failed
   * (`None`), otherwise one summary per returned page, in order, every field
   * defaulted as `Summarize` states.
   */
  function GetActivities(configured: bool, response: Option<seq<ActivityPage>>, nowIso: string)
    : (r: seq<ActivitySummary>)
    ensures !configured || response.None? ==> r == []
    ensures configured && response.Some? ==>
              |r| == |response.value| &&
              forall i :: 0 <= i < |r| ==> r[i] == Summarize(response.value[i], nowIso)
  {
    if configured && response.Some? then SummarizeAll(response.value, nowIso) else []
  }

  /** `category.split(' ')[0]`: the text before the first space, or the whole category. */
  function CategoryIcon(category: string): (icon: string)
    ensures icon <= category
    ensures ' ' !in icon
    ensures |icon| < |category| ==> category[|icon|] == ' '
  {
    PrefixBefore(category, ' ')
  }

  /** A category such as "🎨 Design" is shown with the icon "🎨". */
  lemma {:induction false} CategoryIconOfLabel(icon: string, name: string)
    requires ' ' !in icon
    ensures CategoryIcon(icon + " " + name) == icon
  {
    PrefixBeforeConcat(icon, ' ', name);
  }

  /** The record "🎨 Design" is shown with the icon "🎨". */
  lemma CategoryIconExample()
    ensures CategoryIcon("\U{1F3A8} Design") == "\U{1F3A8}"
  {
    assert "\U{1F3A8} Design" == "\U{1F3A8}" + " " + "Design";
    CategoryIconOfLabel("\U{1F3A8}", "Design");
  }

  /** The CSS class of a status: `Done` wins over `Progress`; anything else gets none. */
  function StatusClass(status: string): (c: string)
    ensures c == "status-done" <==> Contains(status, "Done")
    ensures c == "status-progress" <==> !Contains(status, "Done") && Contains(status, "Progress")
    ensures c == "" <==> !Contains(status, "Done") && !Contains(status, "Progress")
  {
    if Contains(status, "Done") then "status-done"
    else if Contains(status, "Progress") then "status-progress"
    else ""
  }

  /** One row of the activity list. */
  datatype Row =
    | Placeholder(icon: string, title: string, when: string)
    | ActivityRow(key: string, icon: string, title: string, statusClass: string,
                  status: string, date: string)

  /**
   * The row of one activity: keyed by its id, showing its category's icon, its title,
   * its status with the status's class, and its date.
   */
  function RowOf(a: ActivitySummary): (r: Row)
    ensures r.ActivityRow?
    ensures r.key == a.id && r.title == a.activity && r.status == a.status && r.date == a.date
    ensures r.icon == CategoryIcon(a.category) && r.statusClass == StatusClass(a.status)
  {
    ActivityRow(a.id, CategoryIcon(a.category), a.activity, StatusClass(a.status), a.status, a.date)
  }

  /**
   * The activity list: with no activities exactly the one placeholder row,
   * otherwise one row per activity, in order.
   */
  function ActivityList(activities: seq<ActivitySummary>): (rows: seq<Row>)
    ensures activities == [] <==> rows == [Placeholder("\U{1F680}", "Initializing systems...", "Just now")]
    ensures activities != [] ==>
              |rows| == |activities| && forall i :: 0 <= i < |rows| ==> rows[i] == RowOf(activities[i])
  {
    if activities == [] then [Placeholder("\U{1F680}", "Initializing systems...", "Just now")]
    else
      var rows := seq(|activities|, i requires 0 <= i < |activities| => RowOf(activities[i]));
      assert rows[0].ActivityRow?;
      rows
  }

  /** A page without a status shows the default "✓ Done", styled as done. */
  lemma DefaultStatusIsDone()
    ensures StatusClass(DefaultStatus) == "status-done"
  {
    assert OccursAt(DefaultStatus, "Done", 2);
  }
}
