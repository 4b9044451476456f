/**
 * The agreements step of the wizard: the user's document list with each
 * document's versions reordered by the version comparator, the "every
 * document signed" check, and the step's effect on the registration state.
 */
module AgreementsPage {
  import opened Wrappers
  import opened Entities
  import opened Text
  import opened Seqs
  import opened Sorting
  import RS = RegistrationStateService
  import Pipe = UserRespondedPipe

  /** A document counts as signed when any of its versions is completed. */
  predicate Signed(d: DocumentDto, isCompleted: DocumentVersionDto -> bool)
  {
    exists v :: v in d.versions && isCompleted(v)
  }

  /** `isEveryDocumentSigned`: undefined while the list is loading, else whether every document is signed. */
  function EverySigned(list: Option<seq<DocumentDto>>, isCompleted: DocumentVersionDto -> bool): (r: Option<bool>)
    ensures r.None? <==> list.None?
    ensures list == Some([]) ==> r == Some(true)
    ensures r == Some(true) ==> forall d :: d in list.value ==> exists v :: v in d.versions && isCompleted(v)
    ensures r == Some(false) ==> exists d :: d in list.value && forall v :: v in d.versions ==> !isCompleted(v)
  {
    match list
    case None => None
    case Some(documents) => Some(forall d :: d in documents ==> Signed(d, isCompleted))
  }

  /** Reordering each document's versions does not change whether the list is signed. */
  lemma SignedIgnoresVersionOrder(a: seq<DocumentDto>, b: seq<DocumentDto>, isCompleted: DocumentVersionDto -> bool)
    requires |a| == |b|
    requires forall i :: 0 <= i < |a| ==> multiset(a[i].versions) == multiset(b[i].versions)
    ensures EverySigned(Some(a), isCompleted) == EverySigned(Some(b), isCompleted)
  {
    forall i | 0 <= i < |a|
      ensures Signed(a[i], isCompleted) <==> Signed(b[i], isCompleted)
    {
      forall v ensures v in a[i].versions <==> v in b[i].versions {
        assert v in a[i].versions <==> v in multiset(a[i].versions);
        assert v in b[i].versions <==> v in multiset(b[i].versions);
      }
    }
    if EverySigned(Some(a), isCompleted) == Some(true) {
      forall d | d in b ensures Signed(d, isCompleted) {
        var i :| 0 <= i < |b| && b[i] == d;
        assert a[i] in a;
      }
    }
    if EverySigned(Some(b), isCompleted) == Some(true) {
      forall d | d in a ensures Signed(d, isCompleted) {
        var i :| 0 <= i < |a| && a[i] == d;
        assert b[i] in b;
      }
    }
  }

  /** A document the pipe shows as responded counts as signed on the page. */
  lemma RespondedIsSigned(d: DocumentDto, isCompleted: DocumentVersionDto -> bool)
    requires |d.versions| > 0 && Pipe.NewestFirst(d.versions)
    requires Pipe.LatestResponse(d.versions, isCompleted).0
    ensures Signed(d, isCompleted)
  {
    Pipe.LatestResponseCharacterised(d.versions, isCompleted);
  }

  /**
   * The converse fails: a document whose older version is completed counts as
   * signed although the pipe shows its latest version as not responded.
   */
  lemma SignedWithoutLatestResponse()
    ensures var older := DocumentVersionDto(1, 1, 0, true, Some(10));
      var newer := DocumentVersionDto(2, 2, 5, false, None);
      var d := DocumentDto(7, "Terms", [newer, older]);
      var isCompleted := (v: DocumentVersionDto) => v.userResponded;
      && Pipe.NewestFirst(d.versions)
      && EverySigned(Some([d]), isCompleted) == Some(true)
      && !Pipe.LatestResponse(d.versions, isCompleted).0
  {
    var older := DocumentVersionDto(1, 1, 0, true, Some(10));
    var newer := DocumentVersionDto(2, 2, 5, false, None);
    var d := DocumentDto(7, "Terms", [newer, older]);
    var isCompleted := (v: DocumentVersionDto) => v.userResponded;
    assert Signed(d, isCompleted) by {
      assert older in d.versions;
    }
    assert Filter([older], Pipe.HasVersion(2)) == [];
    assert Filter(d.versions, Pipe.HasVersion(2)) == [newer];
    assert Filter([newer], isCompleted) == [];
  }

  /**
   * The comparator of the list mapping: `isNewerVersion(a, b)` on the versions'
   * string forms puts `a` after `b`.
   */
  function VersionAfter(isNewerVersion: (string, string) -> bool): (DocumentVersionDto, DocumentVersionDto) -> bool
  {
    (a: DocumentVersionDto, b: DocumentVersionDto) => isNewerVersion(IntToString(a.version), IntToString(b.version))
  }

  /** Each document's versions reordered in place by the version comparator. */
  method SortVersions(d: DocumentDto, isNewerVersion: (string, string) -> bool) returns (sorted: DocumentDto)
    ensures sorted.id == d.id && sorted.title == d.title
    ensures multiset(sorted.versions) == multiset(d.versions)
    ensures StableFrom(sorted.versions, d.versions, VersionAfter(isNewerVersion))
    ensures Asymmetric(VersionAfter(isNewerVersion)) ==> AdjacentOrdered(sorted.versions, VersionAfter(isNewerVersion))
  {
    var versions := new DocumentVersionDto[|d.versions|](k requires 0 <= k < |d.versions| => d.versions[k]);
    assert versions[..] == d.versions;
    InsertionSort(versions, VersionAfter(isNewerVersion));
    sorted := d.(versions := versions[..]);
  }

  class AgreementsPage {
    const registration: RS.RegistrationStateService
    /** The loaded list; `None` while loading. */
    var documentList: Option<seq<DocumentDto>>

    /** Opening the page puts the wizard at the agreements step; the list starts out loading. */
    constructor(registration: RS.RegistrationStateService)
      requires registration.Persisted()
      modifies registration
      ensures this.registration == registration && documentList.None?
      ensures registration.registrationState == Some(RS.Name(RS.Agreements))
      ensures registration.isRegistering == old(registration.isRegistering)
      ensures registration.allDocumentsReviewed == old(registration.allDocumentsReviewed)
      ensures registration.store == if registration.isBrowser
        then old(registration.store)[RS.RegistrationStateKey := RS.Name(RS.Agreements)]
        else old(registration.store)
      ensures registration.Persisted()
      ensures old(registration.Mirrored()) ==> registration.Mirrored()
    {
      this.registration := registration;
      documentList := None;
      new;
      registration.SetRegistrationState(RS.Agreements);
    }

    /** `onContinue`: only marks the documents reviewed. */
    method OnContinue()
      requires registration.Persisted()
      modifies registration
      ensures registration.allDocumentsReviewed && registration.Persisted()
      ensures registration.isRegistering == old(registration.isRegistering)
      ensures registration.registrationState == old(registration.registrationState)
      ensures registration.store == if registration.isBrowser
        then old(registration.store)[RS.AllDocsReviewedKey := RS.BoolString(true)]
        else old(registration.store)
      ensures old(registration.Mirrored()) ==> registration.Mirrored()
      ensures unchanged(this)
    {
      registration.MarkDocumentsReviewed();
    }

    /**
     * The list mapping: every document kept, in order, with the same id and
     * title and the same versions, only reordered by the comparator.
     */
    method ReceiveDocumentList(documents: seq<DocumentDto>, isNewerVersion: (string, string) -> bool)
      modifies this`documentList
      ensures documentList.Some? && |documentList.value| == |documents|
      ensures forall i :: 0 <= i < |documents| ==>
        && documentList.value[i].id == documents[i].id
        && documentList.value[i].title == documents[i].title
        && multiset(documentList.value[i].versions) == multiset(documents[i].versions)
      ensures Asymmetric(VersionAfter(isNewerVersion)) ==>
        forall i :: 0 <= i < |documents| ==> AdjacentOrdered(documentList.value[i].versions, VersionAfter(isNewerVersion))
    {
      var mapped: seq<DocumentDto> := [];
      for i := 0 to |documents|
        invariant |mapped| == i
        invariant forall k :: 0 <= k < i ==>
          && mapped[k].id == documents[k].id
          && mapped[k].title == documents[k].title
          && multiset(mapped[k].versions) == multiset(documents[k].versions)
        invariant Asymmetric(VersionAfter(isNewerVersion)) ==>
          forall k :: 0 <= k < i ==> AdjacentOrdered(mapped[k].versions, VersionAfter(isNewerVersion))
      {
        var document := SortVersions(documents[i], isNewerVersion);
        mapped := mapped + [document];
      }
      documentList := Some(mapped);
    }

    function IsEveryDocumentSigned(isCompleted: DocumentVersionDto -> bool): Option<bool>
      reads this
    {
      EverySigned(documentList, isCompleted)
    }
  }
}
