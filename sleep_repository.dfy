/**
 * The in-memory repository of sleep advice: a fixed list of three advices,
 * lookup by position with a placeholder fallback, and filtering by optional
 * bounds on the recommended hours.
 */
module SleepRepository {
  import opened Wrappers

  /** One piece of advice and the number of hours of sleep it recommends. */
  datatype SleepAdvice = SleepAdvice(advice: string, recommendedHours: int)

  /** The repository's immutable list of advices. */
  const AdviceList: seq<SleepAdvice> := [
    SleepAdvice("Ложитесь спать до 23:00", 8),
    SleepAdvice("Не используйте телефон перед сном", 7),
    SleepAdvice("Спите в прохладной комнате", 7)
  ]

  /** What a lookup with an unknown id returns ("advice not found", 0 hours). */
  const NotFoundAdvice: SleepAdvice := SleepAdvice("Совет не найден", 0)

  /** The whole list: three advices recommending 8, 7 and 7 hours, with distinct texts. */
  function GetAllAdvices(): (r: seq<SleepAdvice>)
    ensures |r| == 3
    ensures r[0].recommendedHours == 8 && r[1].recommendedHours == 7 && r[2].recommendedHours == 7
    ensures forall i, j :: 0 <= i < j < |r| ==> r[i].advice != r[j].advice
  {
    AdviceList
  }

  /** The advice at position `id`, or the placeholder when `id` is out of range. */
  function GetAdviceById(id: int): (r: SleepAdvice)
    ensures 0 <= id < |AdviceList| ==> r == AdviceList[id]
    ensures !(0 <= id < |AdviceList|) ==> r == NotFoundAdvice
  {
    if id >= 0 && id < |AdviceList| then AdviceList[id] else NotFoundAdvice
  }

  /** The placeholder is returned exactly for out-of-range ids: no stored advice looks like it. */
  lemma PlaceholderIffOutOfRange(id: int)
    ensures GetAdviceById(id) == NotFoundAdvice <==> id < 0 || id >= |AdviceList|
    ensures GetAdviceById(id).recommendedHours == 0 <==> id < 0 || id >= |AdviceList|
  {
  }

  /** An advice passes the filter when it meets each bound that is present. */
  predicate Matches(a: SleepAdvice, minHours: Option<int>, maxHours: Option<int>)
  {
    && (minHours.None? || a.recommendedHours >= minHours.value)
    && (maxHours.None? || a.recommendedHours <= maxHours.value)
  }

  /** `r` can be obtained from `s` by deleting elements, keeping the order of the rest. */
  ghost predicate IsSubsequence<X>(r: seq<X>, s: seq<X>)
    decreases |s|
  {
    if r == [] then true
    else if s == [] then false
    else if r[0] == s[0] then IsSubsequence(r[1..], s[1..])
    else IsSubsequence(r, s[1..])
  }

  /**
   * The stream filter: keeps, in order, the elements of `s` that match.
   * Every kept element matches, each matching element is kept as often as
   * it occurs, and the result is a subsequence of `s`.
   */
  function Filter(s: seq<SleepAdvice>, minHours: Option<int>, maxHours: Option<int>): (r: seq<SleepAdvice>)
    ensures forall a :: a in r ==> Matches(a, minHours, maxHours)
    ensures forall i :: 0 <= i < |s| && Matches(s[i], minHours, maxHours) ==> s[i] in r
    ensures forall a :: multiset(r)[a] == if Matches(a, minHours, maxHours) then multiset(s)[a] else 0
    ensures IsSubsequence(r, s)
    decreases |s|
  {
    if s == [] then []
    else
      assert s == [s[0]] + s[1..];
      var rest := Filter(s[1..], minHours, maxHours);
      if Matches(s[0], minHours, maxHours) then [s[0]] + rest else rest
  }

  /** A filter every element passes returns its input unchanged. */
  lemma {:induction false} FilterKeepsAllMatching(s: seq<SleepAdvice>, minHours: Option<int>, maxHours: Option<int>)
    requires forall i :: 0 <= i < |s| ==> Matches(s[i], minHours, maxHours)
    ensures Filter(s, minHours, maxHours) == s
  {
    if s != [] {
      FilterKeepsAllMatching(s[1..], minHours, maxHours);
    }
  }

  /** The advices whose recommended hours lie within the bounds that are present, in list order. */
  function GetFilteredAdvices(minHours: Option<int>, maxHours: Option<int>): (r: seq<SleepAdvice>)
    ensures forall a :: a in r ==> Matches(a, minHours, maxHours)
    ensures forall i :: 0 <= i < |AdviceList| && Matches(AdviceList[i], minHours, maxHours) ==> AdviceList[i] in r
    ensures IsSubsequence(r, AdviceList)
    ensures minHours.None? && maxHours.None? ==> r == AdviceList
  {
    var r := Filter(AdviceList, minHours, maxHours);
    assert minHours.None? && maxHours.None? ==> r == AdviceList by {
      if minHours.None? && maxHours.None? {
        FilterKeepsAllMatching(AdviceList, minHours, maxHours);
      }
    }
    r
  }
}
