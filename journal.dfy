/**
 * The journal index page: journal pages projected to summaries, grouped into one
 * group per distinct date string, groups ordered by date descending, and the
 * empty-state branch.
 */
module Journal {
  import opened Wrappers
  import opened Strings
  import opened Notion

  datatype JournalSummary = JournalSummary(id: string, title: string, date: string)

  datatype DateGroup = DateGroup(date: string, entries: seq<JournalSummary>)

  /**
   * `Date?.date?.start || created_time?.split('T')[0]`: the `Date` property when it is
   * present and non-empty, otherwise the calendar-date part of the creation timestamp.
   */
  function ResolveDate(p: JournalPage): (d: string)
    ensures p.date.Some? && p.date.value != "" ==> d == p.date.value
    ensures p.date.None? || p.date.value == "" ==>
              d <= p.createdTime && 'T' !in d &&
              (|d| < |p.createdTime| ==> p.createdTime[|d|] == 'T')
  {
    OrElse(p.date, PrefixBefore(p.createdTime, 'T'))
  }

  /** The projection of one page inside `getJournalEntries`. */
  function Summarize(p: JournalPage): (e: JournalSummary)
    ensures e.id == p.id && e.date == ResolveDate(p)
    ensures FirstPlainText(p.name).Some? && FirstPlainText(p.name).value != "" ==>
              e.title == FirstPlainText(p.name).value
    ensures FirstPlainText(p.name).None? || FirstPlainText(p.name).value == "" ==> e.title == "Untitled"
  {
    JournalSummary(p.id, TitleOr(p.name, "Untitled"), ResolveDate(p))
  }

  /** `results.map(...)`: one summary per page, in order. */
  function SummarizeAll(pages: seq<JournalPage>): (r: seq<JournalSummary>)
    ensures |r| == |pages|
    ensures forall i :: 0 <= i < |pages| ==> r[i] == Summarize(pages[i])
  {
    seq(|pages|, i requires 0 <= i < |pages| => Summarize(pages[i]))
  }

  /**
   * `getJournalEntries`: a failed query (`None`) gives no entries; otherwise one
   * summary per returned page, in order, title and date defaulted as `Summarize` states.
   */
  function GetJournalEntries(response: Option<seq<JournalPage>>): (r: seq<JournalSummary>)
    ensures response.None? ==> r == []
    ensures response.Some? ==>
              |r| == |response.value| &&
              forall i :: 0 <= i < |r| ==> r[i] == Summarize(response.value[i])
  {
    match response
    case None => []
    case Some(pages) => SummarizeAll(pages)
  }

  // ---------------------------------------------------------------------------
  // Specification of grouping

  /** The dates that occur in `es`. */
  ghost function DatesOf(es: seq<JournalSummary>): (r: set<string>)
  {
    set e | e in es :: e.date
  }

  /** The entries of `es` dated `d`, in input order. */
  ghost function EntriesOn(es: seq<JournalSummary>, d: string): (r: seq<JournalSummary>)
  {
    if es == [] then []
    else EntriesOn(es[..|es| - 1], d) + (if es[|es| - 1].date == d then [es[|es| - 1]] else [])
  }

  /** The entries of `es` whose date lies in `ds`, in input order. */
  ghost function EntriesIn(es: seq<JournalSummary>, ds: set<string>): (r: seq<JournalSummary>)
  {
    if es == [] then []
    else EntriesIn(es[..|es| - 1], ds) + (if es[|es| - 1].date in ds then [es[|es| - 1]] else [])
  }

  ghost function Keys(gs: seq<DateGroup>): (r: seq<string>)
  {
    seq(|gs|, j requires 0 <= j < |gs| => gs[j].date)
  }

  /** Strictly descending in the order `localeCompare` gives ISO dates. */
  ghost predicate Descending(ks: seq<string>)
  {
    forall i, j :: 0 <= i < j < |ks| ==> LexLess(ks[j], ks[i])
  }

  ghost predicate Distinct(ks: seq<string>)
  {
    forall i, j :: 0 <= i < j < |ks| ==> ks[i] != ks[j]
  }

  /**
   * `gs` is the grouping of `es` by date: one group per date occurring in `es`,
   * keys descending, and each group holds exactly the entries of that date in
   * input order.
   */
  ghost predicate IsDateGrouping(es: seq<JournalSummary>, gs: seq<DateGroup>)
  {
    && Descending(Keys(gs))
    && (forall d :: d in Keys(gs) <==> d in DatesOf(es))
    && (forall j :: 0 <= j < |gs| ==> gs[j].entries == EntriesOn(es, gs[j].date))
  }

  // ---------------------------------------------------------------------------
  // Sorting the keys: `Object.keys(groups).sort((a, b) => b.localeCompare(a))`

  lemma AboveAll(k: string, ks: seq<string>)
    requires Descending(ks) && |ks| > 0 && LexLess(ks[0], k)
    ensures forall j :: 0 <= j < |ks| ==> LexLess(ks[j], k)
  {
    forall j | 0 < j < |ks| ensures LexLess(ks[j], k) {
      LexLessTransitive(ks[j], ks[0], k);
    }
  }

  function InsertDescending(k: string, ks: seq<string>): (r: seq<string>)
    requires Descending(ks) && k !in ks
    ensures Descending(r)
    ensures multiset(r) == multiset(ks) + multiset{k}
  {
    if ks == [] then [k]
    else if LexLess(ks[0], k) then
      AboveAll(k, ks);
      [k] + ks
    else
      LexLessTotal(k, ks[0]);
      var r' := InsertDescending(k, ks[1..]);
      assert ks == [ks[0]] + ks[1..];
      assert forall j :: 0 <= j < |r'| ==> LexLess(r'[j], ks[0]) by {
        forall j | 0 <= j < |r'| ensures LexLess(r'[j], ks[0]) {
          assert r'[j] in multiset(r');
          if r'[j] != k {
            assert r'[j] in ks[1..];
          }
        }
      }
      [ks[0]] + r'
  }

  /** Sorts the (distinct) keys of the grouping dictionary, latest date first. */
  function SortKeysDescending(ks: seq<string>): (r: seq<string>)
    requires Distinct(ks)
    ensures Descending(r)
    ensures multiset(r) == multiset(ks)
  {
    if ks == [] then []
    else
      var r' := SortKeysDescending(ks[1..]);
      assert ks == [ks[0]] + ks[1..];
      assert ks[0] !in multiset(r');
      InsertDescending(ks[0], r')
  }

  // ---------------------------------------------------------------------------
  // groupByDate

  lemma {:induction false} EntriesOnAbsent(es: seq<JournalSummary>, d: string)
    requires d !in DatesOf(es)
    ensures EntriesOn(es, d) == []
  {
    if es != [] {
      var init := es[..|es| - 1];
      assert DatesOf(init) <= DatesOf(es);
      EntriesOnAbsent(init, d);
    }
  }

  lemma DatesOfSnoc(es: seq<JournalSummary>, e: JournalSummary)
    ensures DatesOf(es + [e]) == DatesOf(es) + {e.date}
  {
    assert forall x :: x in es + [e] <==> x in es || x == e;
  }

  lemma EntriesOnSnoc(es: seq<JournalSummary>, e: JournalSummary, d: string)
    ensures EntriesOn(es + [e], d) == EntriesOn(es, d) + (if e.date == d then [e] else [])
  {
    assert (es + [e])[..|es|] == es;
  }

  /** One step of the `forEach`: pushing `entry` under its date keeps the dictionary exact. */
  lemma PushKeepsBuckets(buckets: map<string, seq<JournalSummary>>, es: seq<JournalSummary>,
                         entry: JournalSummary)
    requires entry.date in buckets
    requires forall d :: d in buckets ==> buckets[d] == EntriesOn(es, d)
    ensures forall d :: d in buckets[entry.date := buckets[entry.date] + [entry]] ==>
              buckets[entry.date := buckets[entry.date] + [entry]][d] == EntriesOn(es + [entry], d)
  {
    forall d | d in buckets ensures
      buckets[entry.date := buckets[entry.date] + [entry]][d] == EntriesOn(es + [entry], d)
    {
      EntriesOnSnoc(es, entry, d);
    }
  }

  /**
   * `groupByDate`: a dictionary from date to the entries pushed under it, built in one
   * pass, then its keys sorted descending and paired with their entries.
   */
  method GroupByDate(entries: seq<JournalSummary>) returns (groups: seq<DateGroup>)
    ensures IsDateGrouping(entries, groups)
  {
    var buckets, keys := CollectBuckets(entries);
    var sorted := SortKeysDescending(keys);
    SortedKeysAreBuckets(keys, sorted, buckets);
    groups := seq(|sorted|, j requires 0 <= j < |sorted| => DateGroup(sorted[j], buckets[sorted[j]]));
    GroupsFromBuckets(entries, buckets, sorted, groups);
  }

  /**
   * The state of the one pass of `groupByDate` after the entries `es`: the dictionary
   * holds, under each date of `es`, that date's entries in order, and the keys list
   * each of its dates once.
   */
  ghost predicate Bucketed(buckets: map<string, seq<JournalSummary>>, keys: seq<string>,
                           es: seq<JournalSummary>)
  {
    && buckets.Keys == DatesOf(es)
    && (forall d :: d in buckets ==> buckets[d] == EntriesOn(es, d))
    && (forall d :: d in keys <==> d in buckets)
    && Distinct(keys)
  }

  /** One step of the `forEach`, a new date or not, keeps the dictionary exact. */
  lemma BucketedStep(buckets: map<string, seq<JournalSummary>>, keys: seq<string>,
                     es: seq<JournalSummary>, entry: JournalSummary,
                     buckets': map<string, seq<JournalSummary>>, keys': seq<string>)
    requires Bucketed(buckets, keys, es)
    requires var b := if entry.date in buckets then buckets else buckets[entry.date := []];
             buckets' == b[entry.date := b[entry.date] + [entry]]
    requires keys' == if entry.date in buckets then keys else keys + [entry.date]
    ensures Bucketed(buckets', keys', es + [entry])
  {
    DatesOfSnoc(es, entry);
    if entry.date in buckets {
      PushKeepsBuckets(buckets, es, entry);
    } else {
      EntriesOnAbsent(es, entry.date);
      var b := buckets[entry.date := []];
      PushKeepsBuckets(b, es, entry);
    }
  }

  /**
   * The one pass of `groupByDate`: each entry is pushed onto the list under its date,
   * and a date seen for the first time is added to the keys.
   */
  method CollectBuckets(entries: seq<JournalSummary>)
    returns (buckets: map<string, seq<JournalSummary>>, keys: seq<string>)
    ensures buckets.Keys == DatesOf(entries)
    ensures forall d :: d in buckets ==> buckets[d] == EntriesOn(entries, d)
    ensures forall d :: d in keys <==> d in buckets
    ensures Distinct(keys)
  {
    buckets := map[];
    keys := [];   // Object.keys(groups), in insertion order
    for i := 0 to |entries|
      invariant Bucketed(buckets, keys, entries[..i])
    {
      var entry := entries[i];
      ghost var (b0, k0) := (buckets, keys);
      if entry.date !in buckets {
        buckets := buckets[entry.date := []];
        keys := keys + [entry.date];
      }
      buckets := buckets[entry.date := buckets[entry.date] + [entry]];
      BucketedStep(b0, k0, entries[..i], entry, buckets, keys);
      assert entries[..i + 1] == entries[..i] + [entry];
    }
    assert entries[..|entries|] == entries;
  }

  /** Sorting the keys of the dictionary loses none of them and adds none. */
  lemma SortedKeysAreBuckets(keys: seq<string>, sorted: seq<string>,
                             buckets: map<string, seq<JournalSummary>>)
    requires multiset(sorted) == multiset(keys)
    requires forall d :: d in keys <==> d in buckets
    ensures forall d :: d in sorted <==> d in buckets
  {
    forall d ensures d in sorted <==> d in buckets {
      assert d in sorted <==> d in multiset(sorted);
      assert d in keys <==> d in multiset(keys);
    }
  }

  /** Pairing the sorted keys with their buckets gives a grouping of the entries. */
  lemma GroupsFromBuckets(entries: seq<JournalSummary>, buckets: map<string, seq<JournalSummary>>,
                          sorted: seq<string>, groups: seq<DateGroup>)
    requires buckets.Keys == DatesOf(entries)
    requires forall d :: d in buckets ==> buckets[d] == EntriesOn(entries, d)
    requires Descending(sorted)
    requires forall d :: d in sorted <==> d in buckets
    requires |groups| == |sorted|
    requires forall j :: 0 <= j < |sorted| ==> groups[j] == DateGroup(sorted[j], buckets[sorted[j]])
    ensures IsDateGrouping(entries, groups)
  {
    assert Keys(groups) == sorted;
  }

  // ---------------------------------------------------------------------------
  // Properties of the grouping

  lemma {:induction false} EntriesOnDated(es: seq<JournalSummary>, d: string)
    ensures forall x :: x in EntriesOn(es, d) ==> x.date == d
  {
    if es != [] {
      EntriesOnDated(es[..|es| - 1], d);
    }
  }

  lemma {:induction false} EntriesOnMember(es: seq<JournalSummary>, e: JournalSummary)
    requires e in es
    ensures e in EntriesOn(es, e.date)
  {
    var init := es[..|es| - 1];
    assert es == init + [es[|es| - 1]];
    if e != es[|es| - 1] {
      EntriesOnMember(init, e);
    }
  }

  /** Entries keep their input order inside a group: the group of `a + b` lists `a`'s entries first. */
  lemma {:induction false} EntriesOnAppend(a: seq<JournalSummary>, b: seq<JournalSummary>, d: string)
    ensures EntriesOn(a + b, d) == EntriesOn(a, d) + EntriesOn(b, d)
  {
    if b == [] {
      assert a + b == a;
    } else {
      var init := b[..|b| - 1];
      assert (a + b)[..|a + b| - 1] == a + init;
      EntriesOnAppend(a, init, d);
    }
  }

  /** Every group is non-empty and holds only entries whose date is the group's key. */
  lemma GroupsNonEmptyAndUniform(es: seq<JournalSummary>, gs: seq<DateGroup>)
    requires IsDateGrouping(es, gs)
    ensures forall j :: 0 <= j < |gs| ==> |gs[j].entries| > 0
    ensures forall j, x :: 0 <= j < |gs| && x in gs[j].entries ==> x.date == gs[j].date
  {
    forall j | 0 <= j < |gs|
      ensures |gs[j].entries| > 0
      ensures forall x :: x in gs[j].entries ==> x.date == gs[j].date
    {
      assert Keys(gs)[j] == gs[j].date;
      assert gs[j].date in Keys(gs);
      assert gs[j].date in DatesOf(es);
      var e :| e in es && e.date == gs[j].date;
      EntriesOnMember(es, e);
      EntriesOnDated(es, gs[j].date);
    }
  }

  /** Group keys are pairwise distinct. */
  lemma GroupKeysDistinct(es: seq<JournalSummary>, gs: seq<DateGroup>)
    requires IsDateGrouping(es, gs)
    ensures forall i, j :: 0 <= i < j < |gs| ==> gs[i].date != gs[j].date
  {
    forall i, j | 0 <= i < j < |gs| ensures gs[i].date != gs[j].date {
      assert LexLess(Keys(gs)[j], Keys(gs)[i]);
      LexLessIrreflexive(gs[i].date);
    }
  }

  /** Every input entry lies in the group of its date, and in no other group. */
  lemma EntryInExactlyOneGroup(es: seq<JournalSummary>, gs: seq<DateGroup>, i: nat)
    requires IsDateGrouping(es, gs) && i < |es|
    ensures exists j :: 0 <= j < |gs| && gs[j].date == es[i].date && es[i] in gs[j].entries
    ensures forall j :: 0 <= j < |gs| ==> (es[i] in gs[j].entries <==> gs[j].date == es[i].date)
  {
    assert es[i].date in DatesOf(es);
    var j :| 0 <= j < |Keys(gs)| && Keys(gs)[j] == es[i].date;
    EntriesOnMember(es, es[i]);
    GroupsNonEmptyAndUniform(es, gs);
    assert gs[j].date == es[i].date && es[i] in gs[j].entries;
  }

  /** All group entries, group after group. */
  ghost function Flatten(gs: seq<DateGroup>): (r: seq<JournalSummary>)
  {
    if gs == [] then [] else gs[0].entries + Flatten(gs[1..])
  }

  lemma {:induction false} EntriesInSplit(es: seq<JournalSummary>, d: string, ds: set<string>)
    requires d !in ds
    ensures multiset(EntriesIn(es, ds + {d})) == multiset(EntriesOn(es, d)) + multiset(EntriesIn(es, ds))
  {
    if es != [] {
      EntriesInSplit(es[..|es| - 1], d, ds);
    }
  }

  lemma {:induction false} EntriesInAll(es: seq<JournalSummary>, ds: set<string>)
    requires DatesOf(es) <= ds
    ensures EntriesIn(es, ds) == es
  {
    if es != [] {
      var init := es[..|es| - 1];
      assert es == init + [es[|es| - 1]];
      assert DatesOf(init) <= DatesOf(es);
      EntriesInAll(init, ds);
    }
  }

  lemma {:induction false} FlattenCollects(es: seq<JournalSummary>, gs: seq<DateGroup>, ds: set<string>)
    requires Distinct(Keys(gs))
    requires forall j :: 0 <= j < |gs| ==> gs[j].entries == EntriesOn(es, gs[j].date)
    requires forall d :: d in ds <==> d in Keys(gs)
    ensures multiset(Flatten(gs)) == multiset(EntriesIn(es, ds))
  {
    if gs == [] {
      assert ds == {};
      assert EntriesIn(es, {}) == [] by { EntriesInNone(es); }
    } else {
      var rest := gs[1..];
      var ds' := ds - {gs[0].date};
      assert Keys(rest) == Keys(gs)[1..];
      forall d ensures d in ds' <==> d in Keys(rest) {
        if d in Keys(rest) {
          var j :| 0 <= j < |rest| && rest[j].date == d;
          assert Keys(gs)[j + 1] == d && Keys(gs)[0] == gs[0].date;
        }
      }
      FlattenCollects(es, rest, ds');
      assert ds == ds' + {gs[0].date};
      EntriesInSplit(es, gs[0].date, ds');
    }
  }

  lemma {:induction false} EntriesInNone(es: seq<JournalSummary>)
    ensures EntriesIn(es, {}) == []
  {
    if es != [] {
      EntriesInNone(es[..|es| - 1]);
    }
  }

  /**
   * The groups partition the input: their entries, taken together, are the input
   * entries with the same multiplicities, so the group sizes add up to the input length.
   */
  lemma GroupingIsPartition(es: seq<JournalSummary>, gs: seq<DateGroup>)
    requires IsDateGrouping(es, gs)
    ensures multiset(Flatten(gs)) == multiset(es)
    ensures |Flatten(gs)| == |es|
  {
    GroupKeysDistinct(es, gs);
    FlattenCollects(es, gs, DatesOf(es));
    EntriesInAll(es, DatesOf(es));
    assert |multiset(Flatten(gs))| == |Flatten(gs)|;
  }

  /** There are no groups exactly when there are no entries. */
  lemma GroupingEmptyIff(es: seq<JournalSummary>, gs: seq<DateGroup>)
    requires IsDateGrouping(es, gs)
    ensures gs == [] <==> es == []
  {
    GroupingIsPartition(es, gs);
    GroupsNonEmptyAndUniform(es, gs);
  }

  lemma {:induction false} DescendingUnique(a: seq<string>, b: seq<string>)
    requires Descending(a) && Descending(b)
    requires forall d :: d in a <==> d in b
    ensures a == b
  {
    assert a != [] ==> a[0] in a;
    assert b != [] ==> b[0] in b;
    if a != [] && b != [] {
      assert a[0] in b && b[0] in a;
      var k :| 0 <= k < |b| && b[k] == a[0];
      var m :| 0 <= m < |a| && a[m] == b[0];
      if k > 0 && m > 0 {
        LexLessAsymmetric(b[k], b[0]);
      }
      assert a[0] == b[0];
      forall d ensures d in a[1..] <==> d in b[1..] {
        if d in a[1..] {
          var i :| 1 <= i < |a| && a[i] == d;
          assert LexLess(a[i], a[0]);
          LexLessIrreflexive(a[0]);
          assert d in a && d in b;
          var l :| 0 <= l < |b| && b[l] == d;
          assert l != 0 && b[1..][l - 1] == d;
        }
        if d in b[1..] {
          var i :| 1 <= i < |b| && b[i] == d;
          assert LexLess(b[i], b[0]);
          LexLessIrreflexive(b[0]);
          assert d in b && d in a;
          var l :| 0 <= l < |a| && a[l] == d;
          assert l != 0 && a[1..][l - 1] == d;
        }
      }
      DescendingUnique(a[1..], b[1..]);
      assert a == [a[0]] + a[1..] && b == [b[0]] + b[1..];
    }
  }

  /** The grouping of a sequence of entries is unique, so `GroupByDate` computes the one grouping. */
  lemma GroupingUnique(es: seq<JournalSummary>, gs: seq<DateGroup>, hs: seq<DateGroup>)
    requires IsDateGrouping(es, gs) && IsDateGrouping(es, hs)
    ensures gs == hs
  {
    DescendingUnique(Keys(gs), Keys(hs));
    assert |gs| == |Keys(gs)|;
    forall j | 0 <= j < |gs| ensures gs[j] == hs[j] {
      assert Keys(gs)[j] == Keys(hs)[j];
    }
  }

  // ---------------------------------------------------------------------------
  // The index page

  const EmptyMessage := "No entries yet. Check back soon!"

  /** What the index shows: the empty-state message, or the day groups in order. */
  datatype IndexView = EmptyState(message: string) | Days(groups: seq<DateGroup>)

  /** `groupedEntries.length === 0 ? <empty-state> : groupedEntries.map(...)`. */
  function IndexViewOf(groups: seq<DateGroup>): (v: IndexView)
    ensures v.EmptyState? <==> groups == []
    ensures v.EmptyState? ==> v.message == EmptyMessage
    ensures v.Days? ==> v.groups == groups
  {
    if |groups| == 0 then EmptyState(EmptyMessage) else Days(groups)
  }

  /**
   * `JournalIndexPage`: fetch, project, group, render. The empty state shows exactly
   * when the query failed or returned no pages; otherwise the days are the grouping
   * of the projected entries.
   */
  method JournalIndexPage(response: Option<seq<JournalPage>>) returns (view: IndexView)
    ensures view.EmptyState? <==> response.None? || response.value == []
    ensures view.EmptyState? ==> view.message == EmptyMessage
    ensures view.Days? ==> IsDateGrouping(GetJournalEntries(response), view.groups)
  {
    var entries := GetJournalEntries(response);
    var grouped := GroupByDate(entries);
    GroupingEmptyIff(entries, grouped);
    view := IndexViewOf(grouped);
  }
}
