/**
 * What one pass of `App.analyze` computes, stated as functions of the lines:
 * the outcome of each line (no object, filtered out, or accepted into a group),
 * the counters, the groups, the timeline, and the per-group box and rows.
 * The class in app.dfy computes the same values with the source's loops.
 */
module Analysis {
  import opened Wrappers
  import opened Foreign
  import opened Sorting
  import opened Tally
  import opened Utils
  import opened Timestamps

  // ----- the picker -----

  /** The `method` setting. */
  datatype PickerMethod = Nearest | Linear

  /**
   * The picker the method setting selects, applied to sorted and p: the value of
   * `getPicker()(sorted, p)`, which the functions of the model use in its place.
   */
  function Pick(m: PickerMethod, sorted: seq<real>, p: real): (r: Option<real>)
    ensures r.Some? ==> sorted != []
    ensures sorted != [] && 0.0 < p <= 100.0 ==> r.Some?
    ensures Sorted(sorted) && sorted != [] && 0.0 < p <= 100.0 ==> sorted[0] <= r.value <= sorted[|sorted| - 1]
    ensures m == Nearest && r.Some? ==> r.value in sorted
  {
    if m == Nearest then NearestRank(sorted, p)
    else
      assert Sorted(sorted) && sorted != [] && 0.0 < p <= 100.0 ==> sorted[0] <= LinearInterp(sorted, p).value <= sorted[|sorted| - 1] by {
        if Sorted(sorted) && sorted != [] && 0.0 < p <= 100.0 {
          LinearInterpBetween(sorted, p);
        }
      }
      LinearInterp(sorted, p)
  }

  /** `getPicker()`: the function `Pick` applies; the group loop calls it as returned. */
  function GetPicker(m: PickerMethod): (picker: (seq<real>, real) -> Option<real>)
    ensures forall s, p :: picker(s, p) == Pick(m, s, p)
  {
    if m == Nearest then NearestRank else LinearInterp
  }

  // ----- one line -----

  /** The filter settings of one pass, after trimming and date conversion. */
  datatype Filters = Filters(field: string, service: string, error: string, fromMs: Option<int>, toMs: Option<int>)

  /** What became of one line. */
  datatype Outcome =
    | NoObject                                         // no JSON object: counted only as a line
    | Rejected                                         // an object, dropped by a filter or a non-numeric field
    | Accepted(key: string, val: real, ts: Option<real>)  // a valid record: its group, value and time

  /** A point of the timeline: a resolved time and the record's value. */
  datatype TimelinePoint = TimelinePoint(ts: real, val: real)

  /** `obj[key]` used as a property key: a string as it is, anything else through `String`. */
  function PropertyKey(env: Env, v: Value): string
  {
    match v
    case Str(s) => s
    case _ => env.str(Some(v))
  }

  /** `obj.serviceCode || 'unknown'`. */
  function GroupKey(env: Env, serviceCode: Option<Value>): (k: string)
    ensures !Truthy(serviceCode) ==> k == "unknown"
    ensures serviceCode.Some? && serviceCode.value.Str? && serviceCode.value.s != "" ==> k == serviceCode.value.s
  {
    if Truthy(serviceCode) then PropertyKey(env, serviceCode.value) else "unknown"
  }

  /** t lies inside the inclusive time window of f; a missing bound does not restrict. */
  predicate InWindow(f: Filters, t: real)
  {
    (f.fromMs.None? || f.fromMs.value as real <= t) && (f.toMs.None? || t <= f.toMs.value as real)
  }

  /** The body of the loop of `analyze` applied to one line. */
  function Classify(env: Env, f: Filters, line: string): (o: Outcome)
    ensures o.NoObject? <==> ExtractJson(env.decode, line).None?
    ensures o.Accepted? && f.service != "" ==> o.key == f.service
    ensures o.Accepted? && o.ts.Some? ==> InWindow(f, o.ts.value)
  {
    match ExtractJson(env.decode, line)
    case None => NoObject
    case Some(obj) =>
      if f.service != "" && Get(obj, "serviceCode") != Some(Str(f.service)) then Rejected
      else if f.error != "" && env.str(Get(obj, "errorCode")) != f.error then Rejected
      else
        var tsMs := ExtractTimestampMs(env, obj);
        if f.fromMs.Some? && tsMs.Some? && tsMs.value < f.fromMs.value as real then Rejected
        else if f.toMs.Some? && tsMs.Some? && tsMs.value > f.toMs.value as real then Rejected
        else
          match env.number(Get(obj, f.field))
          case None => Rejected
          case Some(val) => Accepted(GroupKey(env, Get(obj, "serviceCode")), val, tsMs)
  }

  /**
   * The records `analyze` accepts: an object passes the service filter, the
   * error-code filter and the time window (a record without a time always
   * passes it) and has a finite number in the chosen field. An accepted record
   * goes to the group `serviceCode || 'unknown'` with that number and its time.
   */
  lemma ClassifyAccepts(env: Env, f: Filters, line: string)
    ensures ExtractJson(env.decode, line).Some? ==>
      var obj := ExtractJson(env.decode, line).value;
      var ts := ExtractTimestampMs(env, obj);
      var o := Classify(env, f, line);
      && (o.Accepted? <==>
            && (f.service == "" || Get(obj, "serviceCode") == Some(Str(f.service)))
            && (f.error == "" || env.str(Get(obj, "errorCode")) == f.error)
            && (ts.None? || InWindow(f, ts.value))
            && env.number(Get(obj, f.field)).Some?)
      && (o.Accepted? ==>
            && o.key == GroupKey(env, Get(obj, "serviceCode"))
            && Some(o.val) == env.number(Get(obj, f.field))
            && o.ts == ts)
  {
  }

  /**
   * The time bounds drop exactly the records whose time is resolved and lies
   * outside the inclusive window: a record without a time is never dropped by
   * them, and everything else is as without bounds.
   */
  lemma TimeWindowFilter(env: Env, f: Filters, line: string)
    ensures var unbounded := Classify(env, f.(fromMs := None, toMs := None), line);
      Classify(env, f, line) ==
        if unbounded.Accepted? && unbounded.ts.Some? && !InWindow(f, unbounded.ts.value) then Rejected else unbounded
  {
  }

  /** The outcome of every line, in file order. */
  function Outcomes(env: Env, f: Filters, lines: seq<string>): (os: seq<Outcome>)
    ensures |os| == |lines|
    ensures forall i :: 0 <= i < |lines| ==> os[i] == Classify(env, f, lines[i])
  {
    seq(|lines|, i requires 0 <= i < |lines| => Classify(env, f, lines[i]))
  }

  // ----- the pass, as functions of the outcomes -----

  /** `totalMatched`: the lines that held an object. */
  function MatchedCount(os: seq<Outcome>): (n: nat)
    ensures n <= |os|
  {
    if os == [] then 0
    else MatchedCount(os[..|os| - 1]) + (if os[|os| - 1].NoObject? then 0 else 1)
  }

  /** `totalValid`: the records accepted. */
  function ValidCount(os: seq<Outcome>): (n: nat)
    ensures n <= MatchedCount(os)
  {
    if os == [] then 0
    else ValidCount(os[..|os| - 1]) + (if os[|os| - 1].Accepted? then 1 else 0)
  }

  /** The group key and value of every accepted record, in file order. */
  function AcceptedPairs(os: seq<Outcome>): seq<(string, real)>
  {
    if os == [] then []
    else
      var o := os[|os| - 1];
      AcceptedPairs(os[..|os| - 1]) + (if o.Accepted? then [(o.key, o.val)] else [])
  }

  /** The timeline: a point for every accepted record whose time resolved, in file order. */
  function Timeline(os: seq<Outcome>): (t: seq<TimelinePoint>)
    ensures |t| <= ValidCount(os)
  {
    if os == [] then []
    else
      var o := os[|os| - 1];
      Timeline(os[..|os| - 1]) + (if o.Accepted? && o.ts.Some? then [TimelinePoint(o.ts.value, o.val)] else [])
  }

  /** `(groups[key] ||= []).push(val)` over the accepted records. */
  function GroupsOf(os: seq<Outcome>): (g: map<string, seq<real>>)
    ensures forall k :: k in g ==> g[k] != []
  {
    GroupsNonEmpty(AcceptedPairs(os));
    GroupBy(AcceptedPairs(os))
  }

  /** The keys of the groups in insertion order, which is the order `Object.entries` visits them in. */
  function GroupKeys(os: seq<Outcome>): (ks: seq<string>)
    ensures Distinct(ks)
    ensures forall k :: k in ks <==> k in GroupsOf(os)
  {
    GroupByHoldsValues(AcceptedPairs(os));
    FirstOccurrences(KeysOf(AcceptedPairs(os)))
  }

  /** The lines from which `extractJson` gets an object. */
  function JsonLineCount(env: Env, lines: seq<string>): nat
  {
    if lines == [] then 0
    else JsonLineCount(env, lines[..|lines| - 1]) + (if ExtractJson(env.decode, lines[|lines| - 1]).Some? then 1 else 0)
  }

  /** `totalMatched` counts exactly the lines holding an object, whatever the filters. */
  lemma {:induction false} MatchedCountIsJsonLines(env: Env, f: Filters, lines: seq<string>)
    ensures MatchedCount(Outcomes(env, f, lines)) == JsonLineCount(env, lines)
  {
    if lines != [] {
      var init := lines[..|lines| - 1];
      MatchedCountIsJsonLines(env, f, init);
      assert Outcomes(env, f, lines)[..|lines| - 1] == Outcomes(env, f, init);
    }
  }

  /** One group entry per valid record. */
  lemma {:induction false} AcceptedPairsCount(os: seq<Outcome>)
    ensures |AcceptedPairs(os)| == ValidCount(os)
  {
    if os != [] {
      AcceptedPairsCount(os[..|os| - 1]);
    }
  }

  /** Every pair of a group entry comes from an accepted record. */
  lemma {:induction false} AcceptedPairsFrom(os: seq<Outcome>)
    ensures forall q :: q in AcceptedPairs(os) ==>
      exists i :: 0 <= i < |os| && os[i].Accepted? && os[i].key == q.0 && os[i].val == q.1
  {
    if os != [] {
      var init := os[..|os| - 1];
      AcceptedPairsFrom(init);
      forall q | q in AcceptedPairs(os)
        ensures exists i :: 0 <= i < |os| && os[i].Accepted? && os[i].key == q.0 && os[i].val == q.1
      {
        if q in AcceptedPairs(init) {
          var i :| 0 <= i < |init| && init[i].Accepted? && init[i].key == q.0 && init[i].val == q.1;
          assert os[i] == init[i];
        } else {
          assert os[|os| - 1].Accepted? && os[|os| - 1].key == q.0 && os[|os| - 1].val == q.1;
        }
      }
    }
  }

  /** Every timeline point is the time and value of an accepted record. */
  lemma {:induction false} TimelineFrom(os: seq<Outcome>)
    ensures forall pt :: pt in Timeline(os) ==>
      exists i :: 0 <= i < |os| && os[i].Accepted? && os[i].ts == Some(pt.ts) && os[i].val == pt.val
  {
    if os != [] {
      var init := os[..|os| - 1];
      TimelineFrom(init);
      forall pt | pt in Timeline(os)
        ensures exists i :: 0 <= i < |os| && os[i].Accepted? && os[i].ts == Some(pt.ts) && os[i].val == pt.val
      {
        if pt in Timeline(init) {
          var i :| 0 <= i < |init| && init[i].Accepted? && init[i].ts == Some(pt.ts) && init[i].val == pt.val;
          assert os[i] == init[i];
        } else {
          assert os[|os| - 1].Accepted? && os[|os| - 1].ts == Some(pt.ts) && os[|os| - 1].val == pt.val;
        }
      }
    }
  }

  /** Every accepted record whose time resolved is on the timeline. */
  lemma {:induction false} AcceptedOnTimeline(os: seq<Outcome>, i: nat)
    requires i < |os| && os[i].Accepted? && os[i].ts.Some?
    ensures TimelinePoint(os[i].ts.value, os[i].val) in Timeline(os)
  {
    if i < |os| - 1 {
      var init := os[..|os| - 1];
      AcceptedOnTimeline(init, i);
      assert init[i] == os[i];
    }
  }

  /** The value of every accepted record is in the group of its key. */
  lemma {:induction false} AcceptedInGroup(os: seq<Outcome>, i: nat)
    requires i < |os| && os[i].Accepted?
    ensures os[i].key in GroupsOf(os) && os[i].val in GroupsOf(os)[os[i].key]
  {
    var init := os[..|os| - 1];
    var ps := AcceptedPairs(os);
    if os[|os| - 1].Accepted? {
      assert ps[..|ps| - 1] == AcceptedPairs(init);
    } else {
      assert ps == AcceptedPairs(init);
    }
    if i < |os| - 1 {
      AcceptedInGroup(init, i);
      assert init[i] == os[i];
    }
  }

  /** With a service filter there is at most one group, named by the filter. */
  lemma ServiceFilterGroups(env: Env, f: Filters, lines: seq<string>)
    requires f.service != ""
    ensures forall k :: k in GroupsOf(Outcomes(env, f, lines)) ==> k == f.service
  {
    var os := Outcomes(env, f, lines);
    var ps := AcceptedPairs(os);
    GroupByHoldsValues(ps);
    AcceptedPairsFrom(os);
    forall k | k in GroupsOf(os)
      ensures k == f.service
    {
      var j :| 0 <= j < |ps| && KeysOf(ps)[j] == k;
      assert ps[j] in ps;
    }
  }

  /** `totalValid` is the sum of the group lengths: every valid record is in exactly one group. */
  lemma ValidIsSumOfGroups(os: seq<Outcome>)
    ensures ValidCount(os) == SumLengths(GroupKeys(os), GroupsOf(os))
  {
    GroupSizesAddUp(AcceptedPairs(os));
    AcceptedPairsCount(os);
  }

  // ----- after the loop: boxes, rows and medians -----

  /** The summary of one group. */
  datatype Box = Box(svc: string, min: real, q1: real, q2: real, q3: real, max: real)
  /** `[svc, p, value]`, the value rounded to six decimals; `None` is NaN. */
  datatype Row = Row(svc: string, pct: real, value: Option<real>)
  /** `{ svc, val }` for percentile 50, the value unrounded. */
  datatype Median = Median(svc: string, val: Option<real>)

  /** `Number(v.toFixed(6))`; NaN stays NaN. */
  function Round(env: Env, v: Option<real>): (r: Option<real>)
    ensures r.Some? <==> v.Some?
  {
    if v.Some? then Some(env.round6(v.value)) else None
  }

  /** The quartile box of a group: its ends and nearest-rank percentiles 25, 50 and 75, whatever the picker. */
  function BoxOf(svc: string, arr: seq<real>): (b: Box)
    requires arr != []
    ensures b.svc == svc && b.min == arr[0] && b.max == arr[|arr| - 1]
    ensures b.q1 in arr && b.q2 in arr && b.q3 in arr
    ensures Sorted(arr) ==> b.min <= b.q1 <= b.q2 <= b.q3 <= b.max
  {
    var q1, q2, q3 := NearestRank(arr, 25.0).value, NearestRank(arr, 50.0).value, NearestRank(arr, 75.0).value;
    assert Sorted(arr) ==> arr[0] <= q1 <= q2 <= q3 <= arr[|arr| - 1] by {
      if Sorted(arr) {
        assert Pick(Nearest, arr, 25.0) == NearestRank(arr, 25.0);
        assert Pick(Nearest, arr, 75.0) == NearestRank(arr, 75.0);
        NearestRankMonotone(arr, 25.0, 50.0);
        NearestRankMonotone(arr, 50.0, 75.0);
      }
    }
    Box(svc, arr[0], q1, q2, q3, arr[|arr| - 1])
  }

  /** The rows of one group: one per percentile of pcts, in that order. */
  function GroupRows(env: Env, m: PickerMethod, svc: string, arr: seq<real>, pcts: seq<real>): (rs: seq<Row>)
    ensures |rs| == |pcts|
  {
    if pcts == [] then []
    else GroupRows(env, m, svc, arr, pcts[..|pcts| - 1]) + [Row(svc, pcts[|pcts| - 1], Round(env, Pick(m, arr, pcts[|pcts| - 1])))]
  }

  /** The j-th row of a group is its picked value at the j-th percentile, rounded. */
  lemma {:induction false} GroupRowsAt(env: Env, m: PickerMethod, svc: string, arr: seq<real>, pcts: seq<real>)
    ensures forall j :: 0 <= j < |pcts| ==>
      GroupRows(env, m, svc, arr, pcts)[j] == Row(svc, pcts[j], Round(env, Pick(m, arr, pcts[j])))
  {
    if pcts != [] {
      var init := pcts[..|pcts| - 1];
      GroupRowsAt(env, m, svc, arr, init);
      forall j | 0 <= j < |init|
        ensures GroupRows(env, m, svc, arr, pcts)[j] == Row(svc, pcts[j], Round(env, Pick(m, arr, pcts[j])))
      {
        assert pcts[j] == init[j];
      }
    }
  }

  /** The medians of one group: one per occurrence of 50 in pcts. */
  function GroupMedians(m: PickerMethod, svc: string, arr: seq<real>, pcts: seq<real>): (ms: seq<Median>)
    ensures |ms| == Occ(pcts, 50.0)
    ensures forall md :: md in ms ==> md == Median(svc, Pick(m, arr, 50.0))
  {
    if pcts == [] then []
    else
      GroupMedians(m, svc, arr, pcts[..|pcts| - 1])
      + (if pcts[|pcts| - 1] == 50.0 then [Median(svc, Pick(m, arr, 50.0))] else [])
  }

  /** `Object.entries(groups)` when the keys were inserted in the order `order`. */
  function Entries(order: seq<string>, groups: map<string, seq<real>>): (es: seq<(string, seq<real>)>)
    requires forall i :: 0 <= i < |order| ==> order[i] in groups
    ensures |es| == |order|
    ensures forall i :: 0 <= i < |order| ==> es[i] == (order[i], groups[order[i]])
  {
    seq(|order|, i requires 0 <= i < |order| => (order[i], groups[order[i]]))
  }

  /** The boxes, one per group in entry order. */
  function BoxesOf(es: seq<(string, seq<real>)>): (bs: seq<Box>)
    requires forall i :: 0 <= i < |es| ==> es[i].1 != []
    ensures |bs| == |es|
  {
    if es == [] then [] else BoxesOf(es[..|es| - 1]) + [BoxOf(es[|es| - 1].0, es[|es| - 1].1)]
  }

  /** The g-th box is the box of the g-th group. */
  lemma {:induction false} BoxesOfAt(es: seq<(string, seq<real>)>)
    requires forall i :: 0 <= i < |es| ==> es[i].1 != []
    ensures forall g :: 0 <= g < |es| ==> BoxesOf(es)[g] == BoxOf(es[g].0, es[g].1)
  {
    if es != [] {
      var init := es[..|es| - 1];
      BoxesOfAt(init);
      forall g | 0 <= g < |init| ensures BoxesOf(es)[g] == BoxOf(es[g].0, es[g].1) {
        assert es[g] == init[g];
      }
    }
  }

  /** The rows of all groups, group after group. */
  function RowsOf(env: Env, m: PickerMethod, es: seq<(string, seq<real>)>, pcts: seq<real>): (rs: seq<Row>)
    ensures |rs| == |es| * |pcts|
  {
    if es == [] then []
    else
      ProductStep(|es| - 1, |pcts|);
      RowsOf(env, m, es[..|es| - 1], pcts) + GroupRows(env, m, es[|es| - 1].0, es[|es| - 1].1, pcts)
  }

  /** The medians of all groups, group after group. */
  function MediansOf(m: PickerMethod, es: seq<(string, seq<real>)>, pcts: seq<real>): (ms: seq<Median>)
    ensures |ms| == |es| * Occ(pcts, 50.0)
  {
    if es == [] then []
    else
      ProductStep(|es| - 1, Occ(pcts, 50.0));
      MediansOf(m, es[..|es| - 1], pcts) + GroupMedians(m, es[|es| - 1].0, es[|es| - 1].1, pcts)
  }

  /** Every median is the picker at 50 applied to the array of some group. */
  lemma {:induction false} MediansFrom(m: PickerMethod, es: seq<(string, seq<real>)>, pcts: seq<real>)
    ensures forall md :: md in MediansOf(m, es, pcts) ==>
      exists g :: 0 <= g < |es| && md == Median(es[g].0, Pick(m, es[g].1, 50.0))
  {
    if es != [] {
      var init, last := es[..|es| - 1], es[|es| - 1];
      MediansFrom(m, init, pcts);
      forall md | md in MediansOf(m, es, pcts)
        ensures exists g :: 0 <= g < |es| && md == Median(es[g].0, Pick(m, es[g].1, 50.0))
      {
        if md in MediansOf(m, init, pcts) {
          var g :| 0 <= g < |init| && md == Median(init[g].0, Pick(m, init[g].1, 50.0));
          assert es[g] == init[g];
        } else {
          assert md in GroupMedians(m, last.0, last.1, pcts);
          assert md == Median(es[|es| - 1].0, Pick(m, es[|es| - 1].1, 50.0));
        }
      }
    }
  }

  lemma ProductStep(n: nat, w: nat)
    ensures (n + 1) * w == n * w + w
  {
  }

  /** On a non-empty group and validated percentiles every row holds a number. */
  lemma {:induction false} RowsDefined(env: Env, m: PickerMethod, es: seq<(string, seq<real>)>, pcts: seq<real>)
    requires forall i :: 0 <= i < |es| ==> es[i].1 != []
    requires forall j :: 0 <= j < |pcts| ==> 0.0 < pcts[j] < 100.0
    ensures forall r :: r in RowsOf(env, m, es, pcts) ==> r.value.Some?
  {
    if es != [] {
      var last := es[|es| - 1];
      RowsDefined(env, m, es[..|es| - 1], pcts);
      GroupRowsAt(env, m, last.0, last.1, pcts);
      assert forall r :: r in GroupRows(env, m, last.0, last.1, pcts) ==> r.value.Some?;
    }
  }
}
