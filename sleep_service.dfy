/**
 * The sleep-advice service: the repository's lookups with validation on
 * top. Each rejection is an `AdviceNotFoundException` in the application;
 * here it is a `Failure` telling which check failed.
 */
module SleepService {
  import opened Wrappers
  import opened SleepRepository

  /** Why a request was rejected. */
  datatype Error =
    | AdviceIdNotFound(id: int)   // no advice at that position
    | InvalidSleepHours           // a bound lies outside 1..24
    | NoAdvicesFound              // the bounds are valid but nothing matches

  /** A bound is acceptable when it is absent or between 1 and 24 hours. */
  predicate IsValidHours(hours: Option<int>)
  {
    hours.None? || 1 <= hours.value <= 24
  }

  /** The repository's whole list, passed through. */
  function GetAllAdvices(): (r: seq<SleepAdvice>)
    ensures r == SleepRepository.AdviceList
  {
    SleepRepository.GetAllAdvices()
  }

  /** The advice at position `id`; an out-of-range id is rejected. */
  function GetAdviceById(id: int): (r: Result<SleepAdvice, Error>)
    ensures r.Failure? <==> id < 0 || id >= |AdviceList|
    ensures r.Failure? ==> r.error == AdviceIdNotFound(id)
    ensures r.Success? ==> r.value == AdviceList[id]
  {
    var advices := SleepRepository.GetAllAdvices();
    if id < 0 || id >= |advices| then Failure(AdviceIdNotFound(id)) else Success(advices[id])
  }

  /**
   * Where the repository falls back to its placeholder the service fails,
   * and everywhere else the two return the same advice.
   */
  lemma GetAdviceByIdAgreesWithRepository(id: int)
    ensures GetAdviceById(id).Failure? <==> SleepRepository.GetAdviceById(id) == NotFoundAdvice
    ensures GetAdviceById(id).Success? ==> GetAdviceById(id).value == SleepRepository.GetAdviceById(id)
  {
    PlaceholderIffOutOfRange(id);
  }

  /**
   * The advices within the given bounds. Bounds outside 1..24 are rejected
   * before the repository is asked; an empty answer is rejected after.
   */
  function GetFilteredAdvices(minHours: Option<int>, maxHours: Option<int>): (r: Result<seq<SleepAdvice>, Error>)
    ensures r == Failure(InvalidSleepHours) <==> !IsValidHours(minHours) || !IsValidHours(maxHours)
    ensures r.Success? ==> r.value == SleepRepository.GetFilteredAdvices(minHours, maxHours) && r.value != []
    ensures r == Failure(NoAdvicesFound) <==>
              IsValidHours(minHours) && IsValidHours(maxHours) && SleepRepository.GetFilteredAdvices(minHours, maxHours) == []
  {
    if !IsValidHours(minHours) || !IsValidHours(maxHours) then
      Failure(InvalidSleepHours)
    else
      var filteredAdvices := SleepRepository.GetFilteredAdvices(minHours, maxHours);
      if filteredAdvices == [] then Failure(NoAdvicesFound) else Success(filteredAdvices)
  }

  /**
   * A filter request succeeds exactly when both bounds are valid and some
   * stored advice lies within them; what it returns then lies within the
   * bounds and within 1..24 hours wherever a bound is given.
   */
  lemma FilteredSucceedsIff(minHours: Option<int>, maxHours: Option<int>)
    ensures GetFilteredAdvices(minHours, maxHours).Success? <==>
              && IsValidHours(minHours) && IsValidHours(maxHours)
              && exists i :: 0 <= i < |AdviceList| && Matches(AdviceList[i], minHours, maxHours)
    ensures GetFilteredAdvices(minHours, maxHours).Success? ==>
              forall a :: a in GetFilteredAdvices(minHours, maxHours).value ==>
                && Matches(a, minHours, maxHours)
                && (minHours.Some? ==> 1 <= a.recommendedHours)
                && (maxHours.Some? ==> a.recommendedHours <= 24)
  {
    var filtered := SleepRepository.GetFilteredAdvices(minHours, maxHours);
    if filtered != [] {
      assert filtered[0] in filtered;
      assert filtered[0] in AdviceList by { SubsequenceMembers(filtered, AdviceList, filtered[0]); }
    }
  }

  /** Every element of a subsequence occurs in the sequence it was taken from. */
  lemma {:induction false} SubsequenceMembers<X>(r: seq<X>, s: seq<X>, x: X)
    requires IsSubsequence(r, s) && x in r
    ensures x in s
    decreases |s|
  {
    if r[0] == s[0] {
      if x != r[0] {
        SubsequenceMembers(r[1..], s[1..], x);
      }
    } else {
      SubsequenceMembers(r, s[1..], x);
    }
  }

  /** Eight hours or more gives only the first advice; nine or more gives nothing; zero is invalid. */
  lemma MinHoursExamples()
    ensures GetFilteredAdvices(Some(8), None) == Success([AdviceList[0]])
    ensures GetFilteredAdvices(Some(9), Some(24)) == Failure(NoAdvicesFound)
    ensures GetFilteredAdvices(Some(0), None) == Failure(InvalidSleepHours)
  {
    var tail1, tail2 := AdviceList[1..], AdviceList[2..];
    assert tail1[1..] == tail2 && tail2[1..] == [];
    assert Filter(tail2, Some(8), None) == [];
    assert Filter(tail1, Some(8), None) == [];
    assert Matches(AdviceList[0], Some(8), None);
    assert Filter(AdviceList, Some(8), None) == [AdviceList[0]] + Filter(tail1, Some(8), None);
    assert Filter(AdviceList, Some(8), None) == [AdviceList[0]];
    assert SleepRepository.GetFilteredAdvices(Some(8), None) == [AdviceList[0]];
  }

  /** At most seven hours gives the second and third advices, in list order. */
  lemma MaxHoursExample()
    ensures GetFilteredAdvices(None, Some(7)) == Success([AdviceList[1], AdviceList[2]])
  {
    var tail1, tail2 := AdviceList[1..], AdviceList[2..];
    assert tail1[1..] == tail2 && tail2[1..] == [];
    assert Filter(tail2, None, Some(7)) == [AdviceList[2]];
    assert Filter(tail1, None, Some(7)) == [AdviceList[1], AdviceList[2]];
  }
}
