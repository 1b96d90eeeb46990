/** The record shaping inside `CloudflareAnalytics.get_last_30days_analytics`
    (cloudflare_analytics.py:125-163): every `httpRequests1dGroups` entry of the
    GraphQL response becomes one flat daily record, metrics the response leaves out
    count as 0, and the records are returned newest first. The HTTP request and the
    response navigation before line 125 are not part of this model: it starts from
    the list of day groups. */
module Analytics {
  import opened Outcomes
  import opened Records

  /** One entry of `httpRequests1dGroups`. Each of the three parts may be absent
      from the entry (None), in which case indexing it raises KeyError. */
  datatype DayGroup = DayGroup(
    dimensions: Option<map<string, string>>,
    sum: Option<map<string, int>>,
    uniq: Option<map<string, int>>)

  /** `part.get(key, 0)`. */
  function Metric(part: map<string, int>, key: string): (v: int)
    ensures key in part ==> v == part[key]
    ensures key !in part ==> v == 0
  {
    if key in part then part[key] else 0
  }

  /** The cache ratio of lines 151-156: `cached / total * 100` while total requests
      are positive, and 0 otherwise (the rounding to two decimals is left out). */
  function CacheRatio(cached: int, total: int): (r: Ratio)
    ensures r.den > 0
    ensures total > 0 ==> r.num * total == 100 * cached * r.den
    ensures total <= 0 ==> r.num == 0
  {
    if total > 0 then Ratio(100 * cached, total) else Ratio(0, 1)
  }

  /** With no more cached than total requests, the ratio is a percentage. */
  lemma CacheRatioBounds(cached: int, total: int)
    requires 0 <= cached <= total
    ensures 0 <= CacheRatio(cached, total).num <= 100 * CacheRatio(cached, total).den
    ensures CacheRatio(cached, total).num == 0 <==> cached == 0 || total == 0
  {
  }

  /** Lines 134-156 for one day group. The error is the name of the key whose
      lookup raised, in the order the lookups happen. */
  function ShapeDay(g: DayGroup): (r: Result<DayRecord, string>)
    ensures r.Success? <==> g.dimensions.Some? && g.sum.Some? && g.uniq.Some? && "date" in g.dimensions.value
    ensures r.Failure? ==>
              r.error == (if g.dimensions.None? then "dimensions"
                          else if g.sum.None? then "sum"
                          else if g.uniq.None? then "uniq"
                          else "date")
    ensures r.Success? ==> var d := r.value; var s := g.sum.value;
      && d.date == g.dimensions.value["date"]
      && d.uniqueVisitors == Metric(g.uniq.value, "uniques")
      && d.pageViews == Metric(s, "pageViews")
      && d.requests == Metric(s, "requests")
      && d.cachedRequests == Metric(s, "cachedRequests")
      && d.bytes == Metric(s, "bytes")
      && d.cachedBytes == Metric(s, "cachedBytes")
      && d.threats == Metric(s, "threats")
      && d.cacheRatio == CacheRatio(d.cachedRequests, d.requests)
  {
    if g.dimensions.None? then Failure("dimensions")
    else if g.sum.None? then Failure("sum")
    else if g.uniq.None? then Failure("uniq")
    else if "date" !in g.dimensions.value then Failure("date")
    else
      var s := g.sum.value;
      var requests := Metric(s, "requests");
      var cached := Metric(s, "cachedRequests");
      Success(DayRecord(
        g.dimensions.value["date"],
        Metric(g.uniq.value, "uniques"),
        Metric(s, "pageViews"),
        requests,
        cached,
        Metric(s, "bytes"),
        Metric(s, "cachedBytes"),
        Metric(s, "threats"),
        CacheRatio(cached, requests)))
  }

  /** The loop of lines 133-158: one record per group, in order, or the error of the
      first group that raises, with its index. */
  function ShapeAll(groups: seq<DayGroup>): (r: Result<seq<DayRecord>, (string, nat)>)
    ensures r.Success? <==> forall i | 0 <= i < |groups| :: ShapeDay(groups[i]).Success?
    ensures r.Success? ==> |r.value| == |groups|
    ensures r.Success? ==> forall i | 0 <= i < |groups| :: ShapeDay(groups[i]) == Success(r.value[i])
    ensures r.Failure? ==> var (key, i) := r.error;
      && i < |groups|
      && ShapeDay(groups[i]) == Failure(key)
      && forall k | 0 <= k < i :: ShapeDay(groups[k]).Success?
  {
    if |groups| == 0 then Success([])
    else
      match ShapeDay(groups[0])
      case Failure(key) => Failure((key, 0))
      case Success(d) =>
        assert forall i | 1 <= i < |groups| :: groups[1..][i - 1] == groups[i];
        match ShapeAll(groups[1..])
        case Failure((key, i)) => Failure((key, i + 1))
        case Success(rest) => Success([d] + rest)
  }

  /** What `get_last_30days_analytics` hands on: None when the window holds no day
      groups, the shaped records, or the KeyError of a malformed group. */
  datatype Collected = NoData | Days(records: seq<DayRecord>) | MissingKey(key: string, index: nat)

  /** Lines 125-163 from the list of day groups on: every group becomes exactly one
      record, and the list is sorted by date string, newest first. */
  function CollectDays(groups: seq<DayGroup>): (r: Collected)
    ensures r.NoData? <==> |groups| == 0
    ensures r.MissingKey? <==> ShapeAll(groups).Failure?
    ensures r.MissingKey? ==> ShapeAll(groups).error == (r.key, r.index)
    ensures r.Days? ==> ShapeAll(groups).Success? && |r.records| == |groups|
    ensures r.Days? ==> multiset(r.records) == multiset(ShapeAll(groups).value)
    ensures r.Days? ==> SortedByDate(r.records, true)
    ensures r.Days? ==> forall d :: WithDate(r.records, d) == WithDate(ShapeAll(groups).value, d)
  {
    if |groups| == 0 then NoData
    else
      match ShapeAll(groups)
      case Failure((key, i)) => MissingKey(key, i)
      case Success(days) => Days(SortByDate(days, true))
  }

  /** Each shaped record is the record of some group, and each group's record
      appears: the collected list holds exactly the groups' records. */
  lemma CollectDaysCoversGroups(groups: seq<DayGroup>)
    requires CollectDays(groups).Days?
    ensures forall i | 0 <= i < |groups| :: ShapeDay(groups[i]).value in CollectDays(groups).records
    ensures forall d | d in CollectDays(groups).records :: exists i | 0 <= i < |groups| :: ShapeDay(groups[i]) == Success(d)
  {
    var days := ShapeAll(groups).value;
    var out := CollectDays(groups).records;
    forall i | 0 <= i < |groups|
      ensures ShapeDay(groups[i]).value in out
    {
      assert days[i] in multiset(days);
    }
    forall d | d in out
      ensures exists i | 0 <= i < |groups| :: ShapeDay(groups[i]) == Success(d)
    {
      assert d in multiset(out);
      assert d in multiset(days);
      var i :| 0 <= i < |days| && days[i] == d;
    }
  }
}
