/** resolveTagDates: dating the tags concurrently into one shared slice. */
module TagDates {
  import opened ForkJoin
  import opened Options
  import opened Versions

  datatype VersionTag = VersionTag(sort: nat, version: string, date: string)

  /** The tag of position i; a failed date lookup leaves the date empty. */
  function Entry(versions: seq<Version>, dates: nat -> Option<string>, i: nat): VersionTag
    requires i < |versions|
  {
    VersionTag(i, versions[i].original, match dates(i) case Some(d) => d case None => "")
  }

  /** One goroutine per version; the WaitGroup is raised by their number before the loop. */
  function Dating(versions: seq<Version>, dates: nat -> Option<string>): Program<seq<VersionTag>> {
    Program(
      |versions|,
      (i: nat, tags: seq<VersionTag>) => if i < |versions| then tags + [Entry(versions, dates, i)] else tags,
      [],
      true)
  }

  lemma {:induction false} ReplayAppends(versions: seq<Version>, dates: nat -> Option<string>, log: seq<nat>)
    requires forall k :: 0 <= k < |log| ==> log[k] < |versions|
    ensures var tags := Dating(versions, dates).Replay(log);
      |tags| == |log| && forall k :: 0 <= k < |log| ==> tags[k] == Entry(versions, dates, log[k])
  {
    if log != [] { ReplayAppends(versions, dates, log[..|log| - 1]); }
  }

  /**
   * For every interleaving, what is returned after the wait has one entry for each version, numbered
   * by its position and carrying its text and date: no append is lost and none happens twice.
   */
  lemma NoAppendIsLost(
    versions: seq<Version>, dates: nat -> Option<string>, steps: seq<Action>, s: State<seq<VersionTag>>)
    requires Dating(versions, dates).Reaches(steps, s) && Dating(versions, dates).Joined(s)
    ensures |s.shared| == |versions|
    ensures forall i :: 0 <= i < |versions| ==> Entry(versions, dates, i) in s.shared
    ensures forall k :: 0 <= k < |s.shared| ==>
      s.shared[k].sort < |versions| && s.shared[k] == Entry(versions, dates, s.shared[k].sort)
    ensures forall k, l :: 0 <= k < l < |s.shared| ==> s.shared[k].sort != s.shared[l].sort
    ensures forall k :: 0 <= k < |s.shared| ==>
      var tag := s.shared[k];
      && tag.version == versions[tag.sort].original
      && (dates(tag.sort).Some? ==> tag.date == dates(tag.sort).value)
      && (dates(tag.sort).None? ==> tag.date == "")
  {
    Dating(versions, dates).JoinIsSequential(steps, s);
    ReplayAppends(versions, dates, s.log);
    forall i | 0 <= i < |versions| ensures Entry(versions, dates, i) in s.shared {
      assert i in s.log;
      var k :| 0 <= k < |s.log| && s.log[k] == i;
      assert s.shared[k] == Entry(versions, dates, i);
    }
  }
}
