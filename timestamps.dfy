/**
 * Timestamp recognition of the analyser (App.extractTimestampMs,
 * App.normalizeTimestamp, App.normalizeEpoch, App.getValidTime): a field value
 * of unknown type becomes epoch milliseconds, or nothing.
 */
module Timestamps {
  import opened Wrappers
  import opened Foreign

  /** 1e9: numbers above it and up to 1e12 are epoch seconds. */
  const SecondsThreshold: real := 1000000000.0
  /** 1e12: numbers above it are already epoch milliseconds. */
  const MillisThreshold: real := 1000000000000.0

  /** The keys tried for a record's timestamp, in priority order. */
  const Candidates: seq<string> :=
    ["timestamp", "time", "eventTime", "eventTimestamp", "startTime", "endTime", "requestTime", "responseTime"]

  /**
   * `normalizeEpoch(num)`: milliseconds kept, seconds scaled by 1000, and
   * anything up to 1e9 refused. (A non-finite number never reaches it here:
   * numbers are finite reals, and non-finite conversions are `None` before.)
   */
  function NormalizeEpoch(num: real): (r: Option<real>)
    ensures num > MillisThreshold ==> r == Some(num)
    ensures SecondsThreshold < num <= MillisThreshold ==> r == Some(num * 1000.0)
    ensures num <= SecondsThreshold ==> r == None
    ensures r.Some? ==> r.value > MillisThreshold
  {
    if num > MillisThreshold then Some(num)
    else if num > SecondsThreshold then Some(num * 1000.0)
    else None
  }

  /** A normalised epoch is a fixed point: normalising it again changes nothing. */
  lemma NormalizeEpochIdempotent(num: real)
    requires NormalizeEpoch(num).Some?
    ensures NormalizeEpoch(NormalizeEpoch(num).value) == NormalizeEpoch(num)
  {
  }

  /**
   * `normalizeTimestamp(val)`; `val` is `None` when the key holds `undefined`.
   * A number is normalised as an epoch; a string that converts to a finite
   * number is first tried as an epoch, and otherwise handed to `Date.parse`;
   * null, booleans, arrays and objects give nothing.
   */
  function NormalizeTimestamp(env: Env, val: Option<Value>): (r: Option<real>)
    ensures val.None? || val == Some(Null) ==> r == None
    ensures val.Some? && val.value.Num? ==> r == NormalizeEpoch(val.value.n)
    ensures val.Some? && val.value.Str? ==>
      var asNum := NumberOfString(env, val.value.s);
      if asNum.Some? && NormalizeEpoch(asNum.value).Some? then r == NormalizeEpoch(asNum.value)
      else r == (if env.dateParse(val.value.s).Some? then Some(env.dateParse(val.value.s).value as real) else None)
    ensures r.Some? ==> val.Some? && (val.value.Num? || val.value.Str?)
  {
    match val
    case None => None
    case Some(Null) => None
    case Some(Num(x)) => NormalizeEpoch(x)
    case Some(Str(s)) =>
      var asNum := NumberOfString(env, s);
      var normalized := if asNum.Some? then NormalizeEpoch(asNum.value) else None;
      if normalized.Some? then normalized
      else
        var parsed := env.dateParse(s);
        if parsed.None? then None else Some(parsed.value as real)
    case Some(_) => None
  }

  /** key is present in obj and its value normalises to a time. */
  predicate Usable(env: Env, obj: Record, key: string)
  {
    key in obj && NormalizeTimestamp(env, Some(obj[key])).Some?
  }

  /**
   * The candidate loop of `extractTimestampMs`: the value of the first key of
   * `keys` that is present in obj and whose value normalises.
   */
  function FirstTimestamp(env: Env, obj: Record, keys: seq<string>): (r: Option<real>)
    ensures r.None? <==> forall i :: 0 <= i < |keys| ==> !Usable(env, obj, keys[i])
    ensures r.Some? ==>
      (exists i :: 0 <= i < |keys| && Usable(env, obj, keys[i]) && r == NormalizeTimestamp(env, Some(obj[keys[i]]))
         && (forall j :: 0 <= j < i ==> !Usable(env, obj, keys[j])))
  {
    if keys == [] then None
    else if keys[0] !in obj then
      var r := FirstTimestamp(env, obj, keys[1..]);
      assert forall i :: 1 <= i < |keys| ==> keys[i] == keys[1..][i - 1];
      r
    else
      var ms := NormalizeTimestamp(env, Some(obj[keys[0]]));
      if ms.Some? then ms
      else
        var r := FirstTimestamp(env, obj, keys[1..]);
        assert forall i :: 1 <= i < |keys| ==> keys[i] == keys[1..][i - 1];
        r
  }

  /** `extractTimestampMs(obj)`: the candidate keys tried in their fixed order. */
  function ExtractTimestampMs(env: Env, obj: Record): (r: Option<real>)
    ensures r.None? <==> forall i :: 0 <= i < |Candidates| ==> !Usable(env, obj, Candidates[i])
  {
    FirstTimestamp(env, obj, Candidates)
  }

  /** A record whose "timestamp" key normalises takes its time from there, whatever else it holds. */
  lemma TimestampKeyWins(env: Env, obj: Record)
    requires "timestamp" in obj && NormalizeTimestamp(env, Some(obj["timestamp"])).Some?
    ensures ExtractTimestampMs(env, obj) == NormalizeTimestamp(env, Some(obj["timestamp"]))
  {
  }

  /** `getValidTime(date)`: the time of a date, or nothing for no date or an invalid one. */
  function GetValidTime(date: Option<JsDate>): (r: Option<int>)
    ensures r.Some? <==> date.Some? && date.value.time.Some?
    ensures r.Some? ==> r == date.value.time
  {
    match date
    case None => None
    case Some(d) => if d.time.None? then None else Some(d.time.value)
  }
}
