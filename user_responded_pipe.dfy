/**
 * The `userResponded` pipe: whether the user completed the latest version of
 * a document, and when. The caller's version array is sorted in place, newest first.
 */
module UserRespondedPipe {
  import opened Wrappers
  import opened Entities
  import opened Seqs
  import opened Sorting

  /** The greatest version number of a non-empty list. */
  function MaxVersion(vs: seq<DocumentVersionDto>): (m: int)
    requires |vs| > 0
    ensures exists k :: 0 <= k < |vs| && vs[k].version == m
    ensures forall k :: 0 <= k < |vs| ==> vs[k].version <= m
  {
    if |vs| == 1 then vs[0].version
    else
      var rest := MaxVersion(vs[1..]);
      if vs[0].version >= rest then vs[0].version else rest
  }

  predicate NewestFirst(vs: seq<DocumentVersionDto>)
  {
    forall i, j :: 0 <= i < j < |vs| ==> vs[i].version >= vs[j].version
  }

  /** The comparator `(a, b) => b.version - a.version`: a positive result puts `a` after `b`. */
  predicate Older(a: DocumentVersionDto, b: DocumentVersionDto)
  {
    b.version - a.version > 0
  }

  /** The test `version.version === k`. */
  function HasVersion(k: int): DocumentVersionDto -> bool
  {
    (v: DocumentVersionDto) => v.version == k
  }

  /**
   * The lookup after sorting: the entries with the first entry's version, whether
   * any of them is completed, and the completion date of the first completed one.
   */
  function LatestResponse(sorted: seq<DocumentVersionDto>, isCompleted: DocumentVersionDto -> bool): (bool, Option<int>)
    requires |sorted| > 0
  {
    var latestVersion := sorted[0];
    var findSameVersions := Filter(sorted, HasVersion(latestVersion.version));
    var completed := Filter(findSameVersions, isCompleted);
    (completed != [], if completed != [] then completed[0].completionDate else None)
  }

  /**
   * The answer the pipe is meant to give, in any order of the entries: whether
   * an entry with the greatest version number is completed, and the date of the
   * first such entry in the given order.
   */
  function ResponseAmongLatest(vs: seq<DocumentVersionDto>, isCompleted: DocumentVersionDto -> bool): (bool, Option<int>)
    requires |vs| > 0
  {
    var completed := Filter(Filter(vs, HasVersion(MaxVersion(vs))), isCompleted);
    (completed != [], if completed != [] then completed[0].completionDate else None)
  }

  /** Completed at the greatest version number. */
  predicate CompletedLatest(v: DocumentVersionDto, latest: int, isCompleted: DocumentVersionDto -> bool)
  {
    v.version == latest && isCompleted(v)
  }

  /**
   * In any order: responded exactly when some entry with the greatest version
   * number is completed (completed older versions do not count); the date is
   * the first such entry's, and absent when not responded.
   */
  lemma ResponseAmongLatestCharacterised(vs: seq<DocumentVersionDto>, isCompleted: DocumentVersionDto -> bool)
    requires |vs| > 0
    ensures var r := ResponseAmongLatest(vs, isCompleted);
      && (r.0 <==> exists v :: v in vs && CompletedLatest(v, MaxVersion(vs), isCompleted))
      && (!r.0 ==> r.1.None?)
      && (r.0 ==> exists k :: (0 <= k < |vs| && CompletedLatest(vs[k], MaxVersion(vs), isCompleted)
            && r.1 == vs[k].completionDate
            && forall j :: 0 <= j < k ==> !CompletedLatest(vs[j], MaxVersion(vs), isCompleted)))
  {
    var latest := MaxVersion(vs);
    var both := (v: DocumentVersionDto) => CompletedLatest(v, latest, isCompleted);
    FilterFilter(vs, HasVersion(latest), isCompleted, both);
    var completed := Filter(vs, both);
    if completed != [] {
      FilterHead(vs, both);
    }
  }

  /** On a newest-first list the first entry has the greatest version, so the lookup gives the intended answer. */
  lemma LatestResponseCharacterised(sorted: seq<DocumentVersionDto>, isCompleted: DocumentVersionDto -> bool)
    requires |sorted| > 0 && NewestFirst(sorted)
    ensures LatestResponse(sorted, isCompleted) == ResponseAmongLatest(sorted, isCompleted)
    ensures var r := LatestResponse(sorted, isCompleted);
      && (r.0 <==> exists v :: v in sorted && CompletedLatest(v, MaxVersion(sorted), isCompleted))
      && (!r.0 ==> r.1.None?)
      && (r.0 ==> exists k :: (0 <= k < |sorted| && CompletedLatest(sorted[k], MaxVersion(sorted), isCompleted)
            && r.1 == sorted[k].completionDate
            && forall j :: 0 <= j < k ==> !CompletedLatest(sorted[j], MaxVersion(sorted), isCompleted)))
  {
    assert sorted[0].version == MaxVersion(sorted);
    ResponseAmongLatestCharacterised(sorted, isCompleted);
  }

  /**
   * `userResponded`: sorts the caller's array newest first (in place, stably)
   * and answers from the entries with the greatest version number; the date is
   * that of the first completed such entry in the caller's original order.
   */
  method UserResponded(versions: array<DocumentVersionDto>, isCompleted: DocumentVersionDto -> bool)
    returns (responded: bool, completionDate: Option<int>)
    requires versions.Length > 0
    modifies versions
    ensures multiset(versions[..]) == multiset(old(versions[..]))
    ensures NewestFirst(versions[..])
    ensures StableFrom(versions[..], old(versions[..]), Older)
    ensures (responded, completionDate) == LatestResponse(versions[..], isCompleted)
    ensures (responded, completionDate) == ResponseAmongLatest(old(versions[..]), isCompleted)
    ensures responded <==> exists v :: v in old(versions[..]) && CompletedLatest(v, MaxVersion(old(versions[..])), isCompleted)
    ensures !responded ==> completionDate.None?
  {
    ghost var original := versions[..];
    InsertionSort(versions, Older);
    AdjacentToOrdered(versions[..], Older);
    var sorted := versions[..];
    responded, completionDate := LatestResponse(sorted, isCompleted).0, LatestResponse(sorted, isCompleted).1;
    LatestResponseCharacterised(sorted, isCompleted);
    SameElementsSameMax(original, sorted);
    forall v ensures v in original <==> v in sorted {
      assert v in original <==> v in multiset(original);
    }
    var latest := MaxVersion(sorted);
    assert sorted[0].version == latest;
    assert EqualRank(HasVersion(latest), Older);
    assert Filter(sorted, HasVersion(latest)) == Filter(original, HasVersion(latest));
  }

  /** Reordering a list leaves its greatest version number unchanged. */
  lemma SameElementsSameMax(a: seq<DocumentVersionDto>, b: seq<DocumentVersionDto>)
    requires |a| > 0 && |b| > 0 && multiset(a) == multiset(b)
    ensures MaxVersion(a) == MaxVersion(b)
  {
    var k :| 0 <= k < |a| && a[k].version == MaxVersion(a);
    assert a[k] in multiset(b);
    var m :| 0 <= m < |b| && b[m].version == MaxVersion(b);
    assert b[m] in multiset(a);
  }
}
