/**
 * The two route guards of the registration wizard. Each reads the
 * registration state and decides; neither changes anything.
 */
module Guards {
  import opened Wrappers
  import RS = RegistrationStateService

  const ShiftplanRoute: string := "/shiftplan"

  /** What a guard returns: let the navigation through, a URL tree to redirect to, or the navigation it started instead. */
  datatype GuardResult = Allow | RedirectTo(url: string) | NavigatedTo(url: string)

  /** `reviewedAllDocumentsGuard`: through once the documents were reviewed, otherwise back to the agreements step. */
  function ReviewedAllDocumentsGuard(service: RS.RegistrationStateService): (r: GuardResult)
    reads service
    ensures r == Allow <==> service.allDocumentsReviewed
    ensures r != Allow ==> r == RedirectTo(RS.AgreementsRoute)
  {
    if service.allDocumentsReviewed then Allow else RedirectTo(RS.AgreementsRoute)
  }

  /**
   * `registrationPendingGuard`: when registration may be left, it moves to the
   * current step's route; otherwise it redirects to the shift plan.
   */
  function RegistrationPendingGuard(service: RS.RegistrationStateService): (r: GuardResult)
    reads service
    ensures r.RedirectTo? <==> !service.CanLeaveRegistration()
    ensures r.NavigatedTo? ==> r.url == RS.RouteFor(service.registrationState)
    ensures r.RedirectTo? ==> r.url == ShiftplanRoute
    ensures r != Allow
  {
    if service.CanLeaveRegistration() then NavigatedTo(service.MoveToCurrentState()) else RedirectTo(ShiftplanRoute)
  }

  /** While registering short of the completed step, every guarded route leads to the shift plan. */
  lemma PendingRegistrationGoesToShiftplan(service: RS.RegistrationStateService)
    requires service.isRegistering && service.registrationState != Some(RS.Name(RS.Completed))
    ensures RegistrationPendingGuard(service) == RedirectTo(ShiftplanRoute)
  {
  }

  /** Right after starting registration the review guard redirects to the agreements step. */
  method StartThenReviewGuard(service: RS.RegistrationStateService) returns (r: GuardResult)
    requires service.Persisted()
    modifies service
    ensures r == RedirectTo(RS.AgreementsRoute)
    ensures RegistrationPendingGuard(service) == RedirectTo(ShiftplanRoute)
  {
    service.StartRegistration();
    r := ReviewedAllDocumentsGuard(service);
  }

  /** Right after a reset the review guard redirects, and the pending guard moves to the welcome step. */
  method ResetThenGuards(service: RS.RegistrationStateService) returns (review: GuardResult, pending: GuardResult)
    requires service.Persisted()
    modifies service
    ensures review == RedirectTo(RS.AgreementsRoute)
    ensures pending == NavigatedTo(RS.WelcomeRoute)
  {
    service.ResetRegistration();
    review := ReviewedAllDocumentsGuard(service);
    pending := RegistrationPendingGuard(service);
  }

  /** Right after marking the documents reviewed the review guard lets the navigation through. */
  method MarkThenReviewGuard(service: RS.RegistrationStateService) returns (r: GuardResult)
    requires service.Persisted()
    modifies service
    ensures r == Allow
  {
    service.MarkDocumentsReviewed();
    r := ReviewedAllDocumentsGuard(service);
  }

  /** A registering user who reached the completed step is moved to the completed page. */
  method CompleteThenPendingGuard(service: RS.RegistrationStateService) returns (r: GuardResult)
    requires service.Persisted()
    modifies service
    ensures r == NavigatedTo(RS.CompletedRoute)
  {
    service.SetRegistrationState(RS.Completed);
    r := RegistrationPendingGuard(service);
  }
}
