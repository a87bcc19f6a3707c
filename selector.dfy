/**
  The best-observation selector of the exoplanet pipeline: given the
  observations a catalog search returned for a target star, pick the one with
  the longest exposure time, the first one found when several share it, and
  report an abort with exit status 1 when the search returned nothing.
 */
module BestObservation {

  /** One catalog entry. Only `exptime` (seconds) takes part in the choice. */
  datatype Observation = Observation(mission: string, targetName: string, exptime: real)

  /** What the selector produces: the chosen entry with its position, or nothing. */
  datatype Selection = NotFound | Found(index: nat, observation: Observation)

  /** What the caller does with a selection: download it, or stop the process. */
  datatype Outcome = Download(observation: Observation) | Abort(status: int, message: string)

  /** Entry `k` has the longest exposure time of `s` and no earlier entry has it. */
  ghost predicate IsFirstMax(s: seq<Observation>, k: int)
  {
    && 0 <= k < |s|
    && (forall j :: 0 <= j < |s| ==> s[j].exptime <= s[k].exptime)
    && (forall j :: 0 <= j < k ==> s[j].exptime < s[k].exptime)
  }

  /** The longest exposure time in a non-empty sequence. */
  function MaxExptime(s: seq<Observation>): (m: real)
    requires |s| > 0
    ensures forall j :: 0 <= j < |s| ==> s[j].exptime <= m
    ensures exists j :: 0 <= j < |s| && s[j].exptime == m
  {
    if |s| == 1 then s[0].exptime
    else
      var rest := MaxExptime(s[1..]);
      assert forall j :: 1 <= j < |s| ==> s[j] == s[1..][j - 1];
      if s[0].exptime >= rest then s[0].exptime else rest
  }

  /**
    The index the selector settles on, as a left-to-right reduction: the best
    of a prefix is replaced by the next entry only when that entry's exposure
    time is strictly longer.
   */
  function BestIndex(s: seq<Observation>): (k: nat)
    requires |s| > 0
    ensures k < |s|
  {
    if |s| == 1 then 0
    else
      var b := BestIndex(s[..|s| - 1]);
      if s[|s| - 1].exptime > s[b].exptime then |s| - 1 else b
  }

  /** The reduction picks the first entry with the longest exposure time. */
  lemma {:induction false} BestIndexIsFirstMax(s: seq<Observation>)
    requires |s| > 0
    ensures IsFirstMax(s, BestIndex(s))
  {
    if |s| > 1 {
      var init := s[..|s| - 1];
      BestIndexIsFirstMax(init);
      assert forall j :: 0 <= j < |init| ==> init[j] == s[j];
    }
  }

  /** At most one index is the first maximum. */
  lemma FirstMaxUnique(s: seq<Observation>, i: int, k: int)
    requires IsFirstMax(s, i) && IsFirstMax(s, k)
    ensures i == k
  {
    // both are maxima, so their exposure times agree; neither is then strictly below the other
    assert s[i].exptime == s[k].exptime;
  }

  /** The first maximum, however it is found, is the index of the reduction. */
  lemma {:induction false} FirstMaxIsBestIndex(s: seq<Observation>, k: int)
    requires IsFirstMax(s, k)
    ensures k == BestIndex(s)
  {
    BestIndexIsFirstMax(s);
    FirstMaxUnique(s, k, BestIndex(s));
  }

  /** The chosen entry carries the longest exposure time of the sequence. */
  lemma BestIndexHasMaxExptime(s: seq<Observation>)
    requires |s| > 0
    ensures s[BestIndex(s)].exptime == MaxExptime(s)
  {
    BestIndexIsFirstMax(s);
    var j :| 0 <= j < |s| && s[j].exptime == MaxExptime(s);
    assert s[j].exptime <= s[BestIndex(s)].exptime;
  }

  /** A lone observation is selected. */
  lemma SingletonIsSelected(o: Observation)
    ensures BestIndex([o]) == 0
  {
  }

  /** When the first entry already has the longest exposure time, it wins whatever follows. */
  lemma {:induction false} HeadMaxIsSelected(s: seq<Observation>)
    requires |s| > 0
    requires forall j :: 0 <= j < |s| ==> s[j].exptime <= s[0].exptime
    ensures BestIndex(s) == 0
  {
    FirstMaxIsBestIndex(s, 0);
  }

  /** Exposure times 30, 1800, 1800, 60: the first 1800 (index 1) is chosen, not the second. */
  lemma TieGoesToFirst(a: Observation, b: Observation, c: Observation, d: Observation)
    requires a.exptime == 30.0 && b.exptime == 1800.0 && c.exptime == 1800.0 && d.exptime == 60.0
    ensures BestIndex([a, b, c, d]) == 1
  {
    FirstMaxIsBestIndex([a, b, c, d], 1);
  }

  /** Exposure times 60, 120, 90: the second entry is chosen. */
  lemma MiddleLongestIsSelected(a: Observation, b: Observation, c: Observation)
    requires a.exptime == 60.0 && b.exptime == 120.0 && c.exptime == 90.0
    ensures BestIndex([a, b, c]) == 1
  {
    FirstMaxIsBestIndex([a, b, c], 1);
  }

  /**
    The scan of `retrieveBestData`: seed with the first result, then walk every
    result and take one over only on a strictly longer exposure time. An empty
    search result yields NotFound.
   */
  method SelectBest(searchResult: seq<Observation>) returns (r: Selection)
    ensures r.NotFound? <==> |searchResult| == 0
    ensures r.Found? ==> IsFirstMax(searchResult, r.index)
    ensures r.Found? ==> r.index == BestIndex(searchResult)
    ensures r.Found? ==> r.observation == searchResult[r.index]
  {
    if |searchResult| > 0 {
      var best := searchResult[0];
      var bestIndex := 0;
      var longestExptime := best.exptime;
      var i := 0;
      while i < |searchResult|
        invariant 0 <= i <= |searchResult|
        invariant 0 <= bestIndex < |searchResult|
        invariant bestIndex < i || (i == 0 && bestIndex == 0)
        invariant best == searchResult[bestIndex]
        invariant longestExptime == best.exptime
        invariant forall j :: 0 <= j < i ==> searchResult[j].exptime <= longestExptime
        invariant forall j :: 0 <= j < bestIndex ==> searchResult[j].exptime < longestExptime
      {
        var exptime := searchResult[i].exptime;
        if exptime > longestExptime {
          best := searchResult[i];
          bestIndex := i;
          longestExptime := exptime;
        }
        i := i + 1;
      }
      FirstMaxIsBestIndex(searchResult, bestIndex);
      r := Found(bestIndex, best);
    } else {
      r := NotFound;
    }
  }

  /** The message printed before the process exits on an empty search result. */
  function NotFoundMessage(target: string): (msg: string)
    ensures |msg| >= |target| && msg[|msg| - |target|..] == target
  {
    "No search results found for " + target
  }

  /**
    What `retrieveBestData` does with the selection: download the chosen
    observation, or stop with exit status 1 and a message naming the target,
    without downloading anything.
   */
  function Conclude(target: string, sel: Selection): (out: Outcome)
    ensures out.Download? <==> sel.Found?
    ensures out.Download? ==> out.observation == sel.observation
    ensures out.Abort? ==> out.status == 1 && out.message == NotFoundMessage(target)
  {
    match sel
    case Found(_, o) => Download(o)
    case NotFound => Abort(1, NotFoundMessage(target))
  }

  /** The whole of `retrieveBestData`: scan the search result, then download or abort. */
  method RetrieveBestData(target: string, searchResult: seq<Observation>) returns (out: Outcome)
    ensures out.Abort? <==> |searchResult| == 0
    ensures out.Abort? ==> out.status == 1 && out.message == NotFoundMessage(target)
    ensures out.Download? ==> out.observation == searchResult[BestIndex(searchResult)]
    ensures out.Download? ==> out.observation.exptime == MaxExptime(searchResult)
  {
    var sel := SelectBest(searchResult);
    if sel.Found? {
      BestIndexHasMaxExptime(searchResult);
    }
    out := Conclude(target, sel);
  }
}
