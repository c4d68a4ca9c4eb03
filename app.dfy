/**
 * The `App` component: its settings, the state one analysis leaves behind,
 * and the three steps that produce it — `analyze` (scan the lines, then
 * summarise every group), `refreshTimeSeries` and `computeTimeBuckets`.
 * Each step is proved to compute the functions of the Analysis and Buckets
 * modules, whose properties are proved there.
 */
module PercentileApp {
  import opened Wrappers
  import opened Foreign
  import opened Sorting
  import opened Tally
  import opened JsString
  import opened Utils
  import opened Timestamps
  import opened Analysis
  import opened Buckets

  /** The messages `alert` shows. */
  datatype Alert = NoFile | BadBucketLength | BadPercentile

  /** The settings bound to the form. `None` stands for a value whose `Number` is not finite. */
  datatype Settings = Settings(
    fieldName: string, serviceFilter: string, errorFilter: string, fromDate: string, toDate: string,
    percentiles: string, pickerMethod: PickerMethod, timeBucketMinutes: Option<real>, timePercentile: Option<real>)

  /** `getValidTime(text ? new Date(text) : null)`: the time of a date setting, nothing when it is empty or invalid. */
  function DateBound(env: Env, text: string): (ms: Option<int>)
    ensures text == "" ==> ms.None?
    ensures text != "" ==> ms == env.dateParse(text)
  {
    GetValidTime(if text != "" then Some(NewDate(env, text)) else None)
  }

  /** The filters of one pass: trimmed field (default "duration"), trimmed service and error, and the date bounds. */
  function FiltersOf(env: Env, s: Settings): (f: Filters)
    ensures f.field == if s.fieldName == "" then "duration" else Trim(s.fieldName)
    ensures f.service == Trim(s.serviceFilter) && f.error == Trim(s.errorFilter)
    ensures f.fromMs == DateBound(env, s.fromDate) && f.toMs == DateBound(env, s.toDate)
  {
    DefaultFieldTrimmed();
    Filters(Trim(if s.fieldName != "" then s.fieldName else "duration"), Trim(s.serviceFilter), Trim(s.errorFilter),
      DateBound(env, s.fromDate), DateBound(env, s.toDate))
  }

  /** The default field name has no white space to trim. */
  lemma DefaultFieldTrimmed()
    ensures Trim("duration") == "duration"
  {
    TrimOfSpaceFree("duration");
  }

  /** The groups once every array has been sorted in place. */
  function SortGroups(groups: map<string, seq<real>>): (r: map<string, seq<real>>)
    ensures r.Keys == groups.Keys
    ensures forall k :: k in r ==> Sorted(r[k]) && multiset(r[k]) == multiset(groups[k])
  {
    map k | k in groups :: SortAsc(groups[k])
  }

  /** `Object.entries(groups)` in the insertion order `order`, each array as it is once sorted. */
  function SortedEntries(order: seq<string>, groups: map<string, seq<real>>): (es: seq<(string, seq<real>)>)
    requires forall i :: 0 <= i < |order| ==> order[i] in groups
    ensures |es| == |order|
    ensures forall i :: 0 <= i < |order| ==> es[i] == (order[i], SortAsc(groups[order[i]]))
  {
    Entries(order, SortGroups(groups))
  }

  /**
   * The loop of `analyze` over the lines: the matched and valid counts, the
   * groups with their insertion order, and the timeline. The counters are
   * kept in locals and stored by `App.Analyze`; nothing reads them meanwhile.
   */
  method Scan(env: Env, f: Filters, lines: seq<string>)
    returns (matched: nat, valid: nat, groups: map<string, seq<real>>, order: seq<string>, timeline: seq<TimelinePoint>)
    ensures var os := Outcomes(env, f, lines);
      && matched == MatchedCount(os) && valid == ValidCount(os)
      && groups == GroupsOf(os) && order == GroupKeys(os)
      && timeline == Timeline(os)
  {
    ghost var os := Outcomes(env, f, lines);
    matched, valid, groups, order, timeline := 0, 0, map[], [], [];
    ghost var ps: seq<(string, real)> := [];
    var i := 0;
    while i < |lines|
      invariant i <= |lines|
      invariant matched == MatchedCount(os[..i]) && valid == ValidCount(os[..i])
      invariant ps == AcceptedPairs(os[..i])
      invariant groups == GroupBy(ps) && order == FirstOccurrences(KeysOf(ps))
      invariant timeline == Timeline(os[..i])
    {
      ScanStep(os, i);
      var outcome := ClassifyLine(env, f, lines, i);
      matched, valid, timeline := Absorb(outcome, matched, valid, timeline);
      if outcome.Accepted? {
        groups, order := Push(ps, groups, order, outcome.key, outcome.val);
        ps := ps + [(outcome.key, outcome.val)];
      }
      i := i + 1;
    }
    assert os[..i] == os;
  }

  /**
   * The `forEach` over `Object.entries(groups)`: every array is sorted in
   * place, then gives its box, one row per percentile and one median per 50.
   */
  method Summarize(env: Env, m: PickerMethod, pcts: seq<real>, order: seq<string>, groups: map<string, seq<real>>)
    returns (sorted: map<string, seq<real>>, boxes: seq<Box>, rows: seq<Row>, medians: seq<Median>)
    requires forall i :: 0 <= i < |order| ==> order[i] in groups && groups[order[i]] != []
    ensures sorted == SortGroups(groups)
    ensures var es := SortedEntries(order, groups);
      && boxes == BoxesOf(es)
      && rows == RowsOf(env, m, es, pcts)
      && medians == MediansOf(m, es, pcts)
  {
    ghost var es := SortedEntries(order, groups);
    assert forall i :: 0 <= i < |es| ==> es[i].1 != [];
    boxes, rows, medians := [], [], [];
    var g := 0;
    while g < |order|
      invariant g <= |order|
      invariant boxes == BoxesOf(es[..g])
      invariant rows == RowsOf(env, m, es[..g], pcts)
      invariant medians == MediansOf(m, es[..g], pcts)
    {
      var svc := order[g];
      var vals := groups[svc];
      var box, groupRows, groupMedians := SummarizeGroup(env, m, pcts, svc, vals);
      assert es[g] == (svc, SortAsc(vals));
      SummaryStep(env, m, pcts, es, g, svc, SortAsc(vals));
      boxes := boxes + [box];
      rows := rows + groupRows;
      medians := medians + groupMedians;
      g := g + 1;
    }
    assert es[..g] == es;
    // the arrays sorted above are the arrays of the groups themselves
    sorted := SortGroups(groups);
  }

  /** One more entry adds its box, its rows and its medians at the end. */
  lemma SummaryStep(env: Env, m: PickerMethod, pcts: seq<real>, es: seq<(string, seq<real>)>, g: nat, svc: string, arr: seq<real>)
    requires g < |es| && es[g] == (svc, arr)
    requires forall i :: 0 <= i < |es| ==> es[i].1 != []
    ensures BoxesOf(es[..g + 1]) == BoxesOf(es[..g]) + [BoxOf(svc, arr)]
    ensures RowsOf(env, m, es[..g + 1], pcts) == RowsOf(env, m, es[..g], pcts) + GroupRows(env, m, svc, arr, pcts)
    ensures MediansOf(m, es[..g + 1], pcts) == MediansOf(m, es[..g], pcts) + GroupMedians(m, svc, arr, pcts)
  {
    var done := es[..g + 1];
    assert done[..g] == es[..g];
  }

  /**
   * The body of the `forEach` for one group: the array sorted, its box, and
   * the loop over the percentiles giving a row for each and a median for each 50.
   */
  method SummarizeGroup(env: Env, m: PickerMethod, pcts: seq<real>, svc: string, vals: seq<real>)
    returns (box: Box, rows: seq<Row>, medians: seq<Median>)
    requires vals != []
    ensures var arr := SortAsc(vals);
      && box == BoxOf(svc, arr)
      && rows == GroupRows(env, m, svc, arr, pcts)
      && medians == GroupMedians(m, svc, arr, pcts)
  {
    var picker := GetPicker(m);
    var arr := SortAsc(vals);
    box := BoxOf(svc, arr);
    rows, medians := [], [];
    var j := 0;
    while j < |pcts|
      invariant j <= |pcts|
      invariant rows == GroupRows(env, m, svc, arr, pcts[..j])
      invariant medians == GroupMedians(m, svc, arr, pcts[..j])
    {
      var p := pcts[j];
      var v := picker(arr, p);
      PercentileStep(env, m, svc, arr, pcts, j);
      rows := rows + [Row(svc, p, Round(env, v))];
      if p == 50.0 {
        medians := medians + [Median(svc, v)];
      }
      j := j + 1;
    }
    assert pcts[..j] == pcts;
  }

  /** One more percentile adds its row, and its median when it is 50. */
  lemma PercentileStep(env: Env, m: PickerMethod, svc: string, arr: seq<real>, pcts: seq<real>, j: nat)
    requires j < |pcts|
    ensures GroupRows(env, m, svc, arr, pcts[..j + 1]) ==
      GroupRows(env, m, svc, arr, pcts[..j]) + [Row(svc, pcts[j], Round(env, Pick(m, arr, pcts[j])))]
    ensures GroupMedians(m, svc, arr, pcts[..j + 1]) ==
      GroupMedians(m, svc, arr, pcts[..j]) + if pcts[j] == 50.0 then [Median(svc, Pick(m, arr, 50.0))] else []
  {
    var done := pcts[..j + 1];
    assert done[..j] == pcts[..j];
  }

  /** The filters applied to the i-th line decide what becomes of it. */
  method ClassifyLine(env: Env, f: Filters, lines: seq<string>, i: nat) returns (outcome: Outcome)
    requires i < |lines|
    ensures outcome == Outcomes(env, f, lines)[i]
  {
    outcome := Classify(env, f, lines[i]);
  }

  /** The counters and the timeline after one more line with the given outcome. */
  method Absorb(outcome: Outcome, matched: nat, valid: nat, timeline: seq<TimelinePoint>)
    returns (matched': nat, valid': nat, timeline': seq<TimelinePoint>)
    ensures matched' == matched + (if outcome.NoObject? then 0 else 1)
    ensures valid' == valid + (if outcome.Accepted? then 1 else 0)
    ensures timeline' == timeline + if outcome.Accepted? && outcome.ts.Some? then [TimelinePoint(outcome.ts.value, outcome.val)] else []
  {
    matched', valid', timeline' := matched, valid, timeline;
    assert timeline + [] == timeline;
    match outcome {
      case NoObject =>
      case Rejected =>
        matched' := matched + 1;
      case Accepted(_, val, tsMs) =>
        matched' := matched + 1;
        valid' := valid + 1;
        if tsMs.Some? {
          timeline' := timeline + [TimelinePoint(tsMs.value, val)];
        }
    }
  }

  /**
   * `(groups[key] ||= []).push(val)` on groups that fold the pairs ps: the
   * value joins the group of its key, and a new key joins the insertion order.
   */
  method Push<K, V>(ghost ps: seq<(K, V)>, groups: map<K, seq<V>>, order: seq<K>, key: K, val: V)
    returns (groups': map<K, seq<V>>, order': seq<K>)
    requires groups == GroupBy(ps) && order == FirstOccurrences(KeysOf(ps))
    ensures groups' == GroupBy(ps + [(key, val)]) && order' == FirstOccurrences(KeysOf(ps + [(key, val)]))
    ensures groups' == groups[key := (if key in groups then groups[key] else []) + [val]]
    ensures order' == if key in groups then order else order + [key]
  {
    GroupStep(ps, (key, val));
    if key in groups {
      groups', order' := groups[key := groups[key] + [val]], order;
    } else {
      groups', order' := groups[key := [val]], order + [key];
      assert [] + [val] == [val];
    }
  }

  /** How the pass functions grow by one outcome. */
  lemma ScanStep(os: seq<Outcome>, i: nat)
    requires i < |os|
    ensures MatchedCount(os[..i + 1]) == MatchedCount(os[..i]) + (if os[i].NoObject? then 0 else 1)
    ensures ValidCount(os[..i + 1]) == ValidCount(os[..i]) + (if os[i].Accepted? then 1 else 0)
    ensures os[i].Accepted? ==> AcceptedPairs(os[..i + 1]) == AcceptedPairs(os[..i]) + [(os[i].key, os[i].val)]
    ensures !os[i].Accepted? ==> AcceptedPairs(os[..i + 1]) == AcceptedPairs(os[..i])
    ensures Timeline(os[..i + 1]) ==
      Timeline(os[..i]) + (if os[i].Accepted? && os[i].ts.Some? then [TimelinePoint(os[i].ts.value, os[i].val)] else [])
  {
    var done := os[..i + 1];
    assert done[..i] == os[..i];
  }

  // ----- what one analysis leaves behind -----

  /** The counters, the groups (each sorted), the summaries and the timeline that `analyze` stores. */
  datatype Report = Report(
    totalLines: nat, totalMatched: nat, totalValid: nat, groups: map<string, seq<real>>,
    boxes: seq<Box>, rows: seq<Row>, medians: seq<Median>, points: seq<TimelinePoint>)

  /**
   * The report of `analyze` on the lines of a file under settings s. Its
   * counters: the matched lines are exactly those holding an object, every
   * valid record was matched and every timeline point is a valid record.
   */
  function AnalysisReport(env: Env, s: Settings, lines: seq<string>): (r: Report)
    ensures r.totalLines <= |lines| && r.totalMatched <= |lines|
    ensures r.totalMatched == JsonLineCount(env, lines)
    ensures |r.points| <= r.totalValid <= r.totalMatched
  {
    var f := FiltersOf(env, s);
    var os := Outcomes(env, f, lines);
    MatchedCountIsJsonLines(env, f, lines);
    var pcts := ParsePercentiles(t => NumberOfString(env, t), s.percentiles);
    GroupsNonEmpty(AcceptedPairs(os));
    var es := SortedEntries(GroupKeys(os), GroupsOf(os));
    Report(NonBlankCount(lines), MatchedCount(os), ValidCount(os), SortGroups(GroupsOf(os)),
      BoxesOf(es), RowsOf(env, s.pickerMethod, es, pcts), MediansOf(s.pickerMethod, es, pcts), Timeline(os))
  }

  /**
   * The body of `analyze` once the file is read: the non-blank lines are
   * counted, the lines scanned under the filters of s, and the groups summarised.
   */
  method Analyse(env: Env, s: Settings, lines: seq<string>) returns (report: Report)
    ensures report == AnalysisReport(env, s, lines)
  {
    var f := FiltersOf(env, s);
    var pcts := ParsePercentiles(t => NumberOfString(env, t), s.percentiles);
    var matched, valid, found, order, timeline := Scan(env, f, lines);
    ghost var os := Outcomes(env, f, lines);
    GroupsNonEmpty(AcceptedPairs(os));
    var sorted, boxes, rows, medians := Summarize(env, s.pickerMethod, pcts, order, found);
    report := Report(NonBlankCount(lines), matched, valid, sorted, boxes, rows, medians, timeline);
  }

  /**
   * The stored groups are non-empty and sorted; there is one box per group,
   * in insertion order, and each box is the box of its group as stored.
   */
  lemma ReportBoxes(env: Env, s: Settings, lines: seq<string>)
    ensures var r := AnalysisReport(env, s, lines);
      && (forall k :: k in r.groups ==> r.groups[k] != [] && Sorted(r.groups[k]))
      && (forall i :: 0 <= i < |r.boxes| ==>
            r.boxes[i].svc in r.groups && r.boxes[i] == BoxOf(r.boxes[i].svc, r.groups[r.boxes[i].svc]))
      && (forall k :: k in r.groups ==> exists i :: 0 <= i < |r.boxes| && r.boxes[i].svc == k)
      && (forall i, j :: 0 <= i < j < |r.boxes| ==> r.boxes[i].svc != r.boxes[j].svc)
  {
    var os := Outcomes(env, FiltersOf(env, s), lines);
    GroupsNonEmpty(AcceptedPairs(os));
    EntriesBoxes(GroupKeys(os), GroupsOf(os));
  }

  /** The boxes of the sorted entries of groups visited in order, where order lists every group once. */
  lemma EntriesBoxes(order: seq<string>, groups: map<string, seq<real>>)
    requires Distinct(order) && forall k :: k in order <==> k in groups
    requires forall k :: k in groups ==> groups[k] != []
    ensures var sorted, boxes := SortGroups(groups), BoxesOf(SortedEntries(order, groups));
      && (forall k :: k in sorted ==> sorted[k] != [] && Sorted(sorted[k]))
      && (forall i :: 0 <= i < |boxes| ==>
            boxes[i].svc in sorted && boxes[i] == BoxOf(boxes[i].svc, sorted[boxes[i].svc]))
      && (forall k :: k in sorted ==> exists i :: 0 <= i < |boxes| && boxes[i].svc == k)
      && (forall i, j :: 0 <= i < j < |boxes| ==> boxes[i].svc != boxes[j].svc)
  {
    var sorted, boxes := SortGroups(groups), BoxesOf(SortedEntries(order, groups));
    EntriesBoxesAt(order, groups);
    forall k | k in sorted
      ensures sorted[k] != [] && Sorted(sorted[k])
    {
      assert sorted[k] == SortAsc(groups[k]);
    }
    BoxesFollowOrder(order, sorted, boxes);
  }

  /** Boxes that follow an order listing every key once name every key once, each with its own group. */
  lemma BoxesFollowOrder(order: seq<string>, sorted: map<string, seq<real>>, boxes: seq<Box>)
    requires Distinct(order) && forall k :: k in order <==> k in sorted
    requires forall k :: k in sorted ==> sorted[k] != []
    requires |boxes| == |order|
    requires forall i :: 0 <= i < |boxes| ==> boxes[i].svc == order[i] && boxes[i] == BoxOf(order[i], sorted[order[i]])
    ensures forall i :: 0 <= i < |boxes| ==>
      boxes[i].svc in sorted && boxes[i] == BoxOf(boxes[i].svc, sorted[boxes[i].svc])
    ensures forall k :: k in sorted ==> exists i :: 0 <= i < |boxes| && boxes[i].svc == k
    ensures forall i, j :: 0 <= i < j < |boxes| ==> boxes[i].svc != boxes[j].svc
  {
    forall i | 0 <= i < |boxes|
      ensures boxes[i].svc in sorted
    {
      assert order[i] in order;
    }
    forall i, j | 0 <= i < j < |boxes|
      ensures boxes[i].svc != boxes[j].svc
    {
      assert order[i] != order[j];
    }
    forall k | k in sorted
      ensures exists i :: 0 <= i < |boxes| && boxes[i].svc == k
    {
      var i :| 0 <= i < |order| && order[i] == k;
      assert boxes[i].svc == k;
    }
  }

  /** The i-th box is the box of the i-th group in order, as sorted. */
  lemma EntriesBoxesAt(order: seq<string>, groups: map<string, seq<real>>)
    requires forall i :: 0 <= i < |order| ==> order[i] in groups && groups[order[i]] != []
    ensures var sorted, boxes := SortGroups(groups), BoxesOf(SortedEntries(order, groups));
      && |boxes| == |order|
      && forall i :: 0 <= i < |boxes| ==> boxes[i].svc == order[i] && boxes[i] == BoxOf(order[i], sorted[order[i]])
  {
    var es := SortedEntries(order, groups);
    var sorted := SortGroups(groups);
    BoxesOfAt(es);
    forall i | 0 <= i < |order|
      ensures BoxesOf(es)[i] == BoxOf(order[i], sorted[order[i]])
    {
      assert es[i] == (order[i], sorted[order[i]]);
    }
  }

  /** One row per group and percentile, each with a value. */
  lemma ReportRows(env: Env, s: Settings, lines: seq<string>)
    ensures var r := AnalysisReport(env, s, lines);
      && |r.rows| == |r.boxes| * |ParsePercentiles(t => NumberOfString(env, t), s.percentiles)|
      && forall row :: row in r.rows ==> row.value.Some?
  {
    var os := Outcomes(env, FiltersOf(env, s), lines);
    var pcts := ParsePercentiles(t => NumberOfString(env, t), s.percentiles);
    GroupsNonEmpty(AcceptedPairs(os));
    assert forall j :: 0 <= j < |pcts| ==> pcts[j] in pcts;
    EntriesRows(env, s.pickerMethod, pcts, GroupKeys(os), GroupsOf(os));
  }

  /** The rows of the sorted entries: |pcts| per group, each with a value. */
  lemma EntriesRows(env: Env, m: PickerMethod, pcts: seq<real>, order: seq<string>, groups: map<string, seq<real>>)
    requires forall i :: 0 <= i < |order| ==> order[i] in groups && groups[order[i]] != []
    requires forall j :: 0 <= j < |pcts| ==> 0.0 < pcts[j] < 100.0
    ensures var es := SortedEntries(order, groups);
      && |RowsOf(env, m, es, pcts)| == |BoxesOf(es)| * |pcts|
      && forall row :: row in RowsOf(env, m, es, pcts) ==> row.value.Some?
  {
    var es := SortedEntries(order, groups);
    RowsDefined(env, m, es, pcts);
  }

  /** The lengths of the stored groups add up to `totalValid`: every valid value is in exactly one group. */
  lemma ReportGroupSizes(env: Env, s: Settings, lines: seq<string>)
    ensures var r := AnalysisReport(env, s, lines);
      SumLengths(GroupKeys(Outcomes(env, FiltersOf(env, s), lines)), r.groups) == r.totalValid
  {
    var os := Outcomes(env, FiltersOf(env, s), lines);
    ValidIsSumOfGroups(os);
    SortedLengths(GroupKeys(os), GroupsOf(os));
  }

  /** Sorting every group keeps every group's length. */
  lemma {:induction false} SortedLengths(ks: seq<string>, groups: map<string, seq<real>>)
    ensures SumLengths(ks, SortGroups(groups)) == SumLengths(ks, groups)
  {
    if ks != [] {
      SortedLengths(ks[..|ks| - 1], groups);
    }
  }

  // ----- the time series -----

  /** Both time-series settings are usable: a positive bucket length and a percentile in (0, 100]. */
  predicate SeriesSettingsValid(bucketMinutes: Option<real>, percentile: Option<real>)
  {
    bucketMinutes.Some? && bucketMinutes.value > 0.0 && percentile.Some? && 0.0 < percentile.value <= 100.0
  }

  /** The alert `refreshTimeSeries` raises: the bucket length is checked before the percentile. */
  function SeriesAlert(bucketMinutes: Option<real>, percentile: Option<real>): (a: Option<Alert>)
    ensures a.None? <==> SeriesSettingsValid(bucketMinutes, percentile)
    ensures a == Some(BadBucketLength) <==> !(bucketMinutes.Some? && bucketMinutes.value > 0.0)
    ensures a == Some(BadPercentile) <==>
      bucketMinutes.Some? && bucketMinutes.value > 0.0 && !(percentile.Some? && 0.0 < percentile.value <= 100.0)
  {
    if bucketMinutes.None? || bucketMinutes.value <= 0.0 then Some(BadBucketLength)
    else if percentile.None? || percentile.value <= 0.0 || percentile.value > 100.0 then Some(BadPercentile)
    else None
  }

  /**
   * The buckets `refreshTimeSeries` stores: none unless the settings are
   * usable, and then buckets counting every point.
   */
  function TimeSeries(env: Env, m: PickerMethod, points: seq<TimelinePoint>, bucketMinutes: Option<real>, percentile: Option<real>): (r: seq<TimeBucket>)
    ensures !SeriesSettingsValid(bucketMinutes, percentile) ==> r == []
    ensures TotalCount(r) == if SeriesSettingsValid(bucketMinutes, percentile) then |points| else 0
  {
    if SeriesSettingsValid(bucketMinutes, percentile) then
      BucketCountsAddUp(env, m, points, bucketMinutes.value, percentile.value);
      BucketSeries(env, m, points, bucketMinutes.value, percentile.value)
    else []
  }

  /** One more timeline point adds its pair at the end. */
  lemma BucketPairsStep(points: seq<TimelinePoint>, width: real, i: nat)
    requires width > 0.0 && i < |points|
    ensures BucketPairs(points[..i + 1], width) ==
      BucketPairs(points[..i], width) + [(BucketStart(points[i].ts, width), points[i].val)]
  {
    var done := points[..i + 1];
    assert done[..i] == points[..i];
  }

  /** The loop of `computeTimeBuckets`: every point's value is filed under its bucket start, starts in insertion order. */
  method FileIntoBuckets(points: seq<TimelinePoint>, width: real) returns (buckets: map<real, seq<real>>, order: seq<real>)
    requires width > 0.0
    ensures buckets == BucketMap(points, width) && order == BucketOrder(points, width)
  {
    buckets, order := map[], [];
    ghost var ps: seq<(real, real)> := [];
    var i := 0;
    while i < |points|
      invariant i <= |points|
      invariant ps == BucketPairs(points[..i], width)
      invariant buckets == GroupBy(ps) && order == FirstOccurrences(KeysOf(ps))
    {
      var start := BucketStart(points[i].ts, width);
      BucketPairsStep(points, width, i);
      buckets, order := Push(ps, buckets, order, start, points[i].val);
      ps := ps + [(start, points[i].val)];
      i := i + 1;
    }
    assert points[..i] == points;
  }

  /** No points, no buckets. */
  lemma NoPointsNoBuckets(env: Env, m: PickerMethod, bucketMinutes: real, p: real)
    requires bucketMinutes > 0.0 && 0.0 < p <= 100.0
    ensures BucketSeries(env, m, [], bucketMinutes, p) == []
  {
    assert BucketOrder([], BucketWidth(bucketMinutes)) == [];
  }

  // ----- the component -----

  /**
   * The `App` component: the form's settings, the chosen file (as its lines)
   * and what the last analysis stored. `env` supplies the built-ins.
   */
  class App {
    const env: Env
    var fieldName: string
    var serviceFilter: string
    var errorFilter: string
    var fromDate: string
    var toDate: string
    var percentiles: string
    var pickerMethod: PickerMethod
    var timeBucketMinutes: Option<real>
    var timePercentile: Option<real>
    var file: Option<seq<string>>
    var groups: map<string, seq<real>>
    var medians: seq<Median>
    var boxes: seq<Box>
    var rows: seq<Row>
    var timeBuckets: seq<TimeBucket>
    var totalLines: nat
    var totalMatched: nat
    var totalValid: nat
    var filteredPoints: seq<TimelinePoint>

    /** The settings as the form holds them. */
    function Config(): Settings
      reads this
    {
      Settings(fieldName, serviceFilter, errorFilter, fromDate, toDate, percentiles, pickerMethod, timeBucketMinutes, timePercentile)
    }

    /** What the last analysis stored. */
    function Results(): Report
      reads this
    {
      Report(totalLines, totalMatched, totalValid, groups, boxes, rows, medians, filteredPoints)
    }

    /** A fresh component: the default settings, no file and nothing analysed. */
    constructor (env: Env)
      ensures this.env == env && file.None?
      ensures Config() == Settings("duration", "", "", "", "", "50, 80, 90, 95, 99, 99.5, 99.7", Nearest, Some(5.0), Some(99.0))
      ensures Results() == Report(0, 0, 0, map[], [], [], [], []) && timeBuckets == []
    {
      this.env := env;
      fieldName, serviceFilter, errorFilter, fromDate, toDate := "duration", "", "", "", "";
      percentiles := "50, 80, 90, 95, 99, 99.5, 99.7";
      pickerMethod, timeBucketMinutes, timePercentile := Nearest, Some(5.0), Some(99.0);
      file := None;
      groups, medians, boxes, rows, timeBuckets := map[], [], [], [], [];
      totalLines, totalMatched, totalValid, filteredPoints := 0, 0, 0, [];
    }

    /** `setFile`: remembers the chosen file and nothing else. */
    method SetFile(f: Option<seq<string>>)
      modifies this`file
      ensures file == f
    {
      file := f;
    }

    /**
     * `analyze`: without a file, the alert and no change. Otherwise the
     * report of the file's lines under the current settings is stored and
     * the time series refreshed silently.
     */
    method Analyze() returns (shown: Option<Alert>)
      modifies this`totalLines, this`totalMatched, this`totalValid, this`groups, this`boxes, this`rows,
        this`medians, this`filteredPoints, this`timeBuckets
      ensures old(file).None? ==> shown == Some(NoFile) && unchanged(this)
      ensures old(file).Some? ==>
        && shown.None?
        && Results() == AnalysisReport(env, old(Config()), old(file).value)
        && timeBuckets == TimeSeries(env, pickerMethod, filteredPoints, timeBucketMinutes, timePercentile)
    {
      if file.None? {
        return Some(NoFile);
      }
      var report := Analyse(env, Config(), file.value);
      Store(report);
      assert Results() == AnalysisReport(env, old(Config()), old(file).value);
      shown := RefreshTimeSeries(true);
    }

    /** The assignments of `analyze` to the component's fields. */
    method Store(report: Report)
      modifies this`totalLines, this`totalMatched, this`totalValid, this`groups, this`boxes, this`rows,
        this`medians, this`filteredPoints
      ensures Results() == report
    {
      totalLines, totalMatched, totalValid := report.totalLines, report.totalMatched, report.totalValid;
      groups, boxes, rows, medians, filteredPoints := report.groups, report.boxes, report.rows, report.medians, report.points;
    }

    /**
     * `refreshTimeSeries(silent)`: the alert for the first unusable setting
     * (none when silent), and the series of the stored points.
     */
    method RefreshTimeSeries(silent: bool) returns (shown: Option<Alert>)
      modifies this`timeBuckets
      ensures shown == if silent then None else SeriesAlert(timeBucketMinutes, timePercentile)
      ensures timeBuckets == TimeSeries(env, pickerMethod, filteredPoints, timeBucketMinutes, timePercentile)
    {
      shown := None;
      if timeBucketMinutes.None? || timeBucketMinutes.value <= 0.0 {
        if !silent {
          shown := Some(BadBucketLength);
        }
        timeBuckets := [];
        return;
      }
      if timePercentile.None? || timePercentile.value <= 0.0 || timePercentile.value > 100.0 {
        if !silent {
          shown := Some(BadPercentile);
        }
        timeBuckets := [];
        return;
      }
      if |filteredPoints| == 0 {
        NoPointsNoBuckets(env, pickerMethod, timeBucketMinutes.value, timePercentile.value);
        timeBuckets := [];
        return;
      }
      timeBuckets := ComputeTimeBuckets(timeBucketMinutes.value, timePercentile.value);
    }

    /**
     * `computeTimeBuckets`: the points are filed into a `Map` from bucket
     * start to values, then the entries are taken by ascending start and each
     * becomes a bucket.
     */
    method ComputeTimeBuckets(bucketMinutes: real, percentile: real) returns (r: seq<TimeBucket>)
      requires bucketMinutes > 0.0 && 0.0 < percentile <= 100.0
      ensures r == BucketSeries(env, pickerMethod, filteredPoints, bucketMinutes, percentile)
    {
      if |filteredPoints| == 0 {
        NoPointsNoBuckets(env, pickerMethod, bucketMinutes, percentile);
        return [];
      }
      var width := BucketWidth(bucketMinutes);
      var buckets, order := FileIntoBuckets(filteredPoints, width);
      var starts := SortAsc(order);
      assert starts == SortedStarts(filteredPoints, width);
      GroupsNonEmpty(BucketPairs(filteredPoints, width));
      forall k | 0 <= k < |starts|
        ensures starts[k] in buckets && buckets[starts[k]] != []
      {
        assert starts[k] in starts;
      }
      r := Emit(env, pickerMethod, percentile, starts, buckets);
    }
  }
}
