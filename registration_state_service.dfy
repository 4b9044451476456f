/**
 * The registration wizard's state: whether the user is registering, whether
 * all documents were reviewed, and the wizard step, each mirrored into a
 * browser key/value store under its own key so that a reload restores it.
 */
module RegistrationStateService {
  import opened Wrappers

  const IsRegisteringKey: string := "registration_isRegistering"
  const AllDocsReviewedKey: string := "registration_allDocumentsReviewed"
  const RegistrationStateKey: string := "registration_state"

  const WelcomeRoute: string := "/registration/welcome"
  const AccountInformationRoute: string := "/registration/onboarding/account-information"
  const AgreementsRoute: string := "/registration/onboarding/agreements"
  const CompletedRoute: string := "/registration/onboarding/completed"

  /** The members of the `RegistrationState` union. */
  datatype RegistrationState = Welcome | AccountInformation | Agreements | Completed

  /** The string literal of each member. */
  function Name(s: RegistrationState): string
  {
    match s
    case Welcome => "welcome"
    case AccountInformation => "account-information"
    case Agreements => "agreements"
    case Completed => "completed"
  }

  /** The member a string names, if any. */
  function FromName(name: string): (r: Option<RegistrationState>)
    ensures r.Some? ==> Name(r.value) == name
    ensures r.None? ==> forall s :: Name(s) != name
  {
    if name == "welcome" then Some(Welcome)
    else if name == "account-information" then Some(AccountInformation)
    else if name == "agreements" then Some(Agreements)
    else if name == "completed" then Some(Completed)
    else None
  }

  /** Every member's literal names it back. */
  lemma NameRoundTrip(s: RegistrationState)
    ensures FromName(Name(s)) == Some(s)
  {
  }

  /** `String(value)` of a boolean. */
  function BoolString(b: bool): string
  {
    if b then "true" else "false"
  }

  /** `_loadInitialState`: true only for the exact stored string "true" (not "TRUE", "1", ...); false outside a browser. */
  function LoadFlag(isBrowser: bool, store: map<string, string>, key: string): (b: bool)
    ensures b ==> isBrowser && key in store && store[key] == BoolString(true)
    ensures isBrowser && key in store && store[key] == BoolString(true) ==> b
    ensures isBrowser && key in store && store[key] == BoolString(false) ==> !b
  {
    isBrowser && key in store && store[key] == "true"
  }

  /**
   * `_loadInitialRegistrationState`: in a browser the stored string unchecked
   * (`None` stands for the null of a missing key); "welcome" elsewhere.
   */
  function LoadState(isBrowser: bool, store: map<string, string>, key: string): (r: Option<string>)
    ensures !isBrowser ==> r == Some(Name(Welcome))
    ensures isBrowser ==> (r.Some? <==> key in store) && (r.Some? ==> r.value == store[key])
  {
    if !isBrowser then Some("welcome")
    else if key in store then Some(store[key])
    else None
  }

  /** The route `moveToCurrentState` navigates to for a (possibly unchecked) state value. */
  function RouteFor(state: Option<string>): string
  {
    if state == Some("account-information") then AccountInformationRoute
    else if state == Some("agreements") then AgreementsRoute
    else if state == Some("completed") then CompletedRoute
    else WelcomeRoute
  }

  /**
   * Distinct wizard steps have distinct routes, and a value that names no step
   * (or a missing one) is sent where the welcome step is.
   */
  lemma RoutesOfStates()
    ensures forall s, t :: RouteFor(Some(Name(s))) == RouteFor(Some(Name(t))) ==> s == t
    ensures forall v: Option<string> :: v.None? || FromName(v.value).None? ==> RouteFor(v) == RouteFor(Some(Name(Welcome)))
  {
    forall s, t | RouteFor(Some(Name(s))) == RouteFor(Some(Name(t)))
      ensures s == t
    {
      assert AccountInformationRoute != AgreementsRoute;
      assert AccountInformationRoute[16..] != CompletedRoute[16..];
      assert AgreementsRoute[16..] != CompletedRoute[16..];
      assert WelcomeRoute[14..] != AccountInformationRoute[14..];
      assert WelcomeRoute[14..] != AgreementsRoute[14..];
      assert WelcomeRoute[14..] != CompletedRoute[14..];
    }
  }

  class RegistrationStateService {
    /** `isPlatformBrowser(PLATFORM_ID)`: outside a browser the store is never touched. */
    const isBrowser: bool
    var store: map<string, string>
    var isRegistering: bool
    var allDocumentsReviewed: bool
    var registrationState: Option<string>

    /** In a browser, reloading from the store would give back the current fields. */
    ghost predicate Persisted()
      reads this
    {
      isBrowser ==>
        && isRegistering == LoadFlag(isBrowser, store, IsRegisteringKey)
        && allDocumentsReviewed == LoadFlag(isBrowser, store, AllDocsReviewedKey)
        && registrationState == LoadState(isBrowser, store, RegistrationStateKey)
    }

    /** In a browser, each key holds the string form of its field. */
    ghost predicate Mirrored()
      reads this
    {
      isBrowser ==>
        && IsRegisteringKey in store && store[IsRegisteringKey] == BoolString(isRegistering)
        && AllDocsReviewedKey in store && store[AllDocsReviewedKey] == BoolString(allDocumentsReviewed)
        && registrationState.Some? && RegistrationStateKey in store && store[RegistrationStateKey] == registrationState.value
    }

    /** The fields are initialised from the store. */
    constructor(isBrowser: bool, store: map<string, string>)
      ensures this.isBrowser == isBrowser && this.store == store
      ensures isRegistering == LoadFlag(isBrowser, store, IsRegisteringKey)
      ensures allDocumentsReviewed == LoadFlag(isBrowser, store, AllDocsReviewedKey)
      ensures registrationState == LoadState(isBrowser, store, RegistrationStateKey)
      ensures Persisted()
    {
      this.isBrowser := isBrowser;
      this.store := store;
      isRegistering := LoadFlag(isBrowser, store, IsRegisteringKey);
      allDocumentsReviewed := LoadFlag(isBrowser, store, AllDocsReviewedKey);
      registrationState := LoadState(isBrowser, store, RegistrationStateKey);
    }

    /** `canLeaveRegistration`: not registering, or at the completed step; document review plays no part. */
    function CanLeaveRegistration(): bool
      reads this
    {
      !isRegistering || registrationState == Some(Name(Completed))
    }

    /** `moveToCurrentState`: the route navigated to for the current step. */
    function MoveToCurrentState(): string
      reads this
    {
      RouteFor(registrationState)
    }

    /** `_setState`: writes the key in a browser only. */
    method SetState(key: string, value: string)
      modifies this`store
      ensures store == if isBrowser then old(store)[key := value] else old(store)
    {
      if isBrowser {
        store := store[key := value];
      }
    }

    /** `_clearState`: removes the three keys in a browser only. */
    method ClearState()
      modifies this`store
      ensures store == if isBrowser then old(store) - {IsRegisteringKey, AllDocsReviewedKey, RegistrationStateKey} else old(store)
    {
      if isBrowser {
        store := store - {IsRegisteringKey, AllDocsReviewedKey, RegistrationStateKey};
      }
    }

    /** `startRegistration`: registering, not reviewed, at the welcome step, in fields and store. */
    method StartRegistration()
      requires Persisted()
      modifies this`store, this`isRegistering, this`allDocumentsReviewed, this`registrationState
      ensures isRegistering && !allDocumentsReviewed && registrationState == Some(Name(Welcome))
      ensures store == if isBrowser
        then old(store)[IsRegisteringKey := "true"][AllDocsReviewedKey := "false"][RegistrationStateKey := "welcome"]
        else old(store)
      ensures Mirrored() && Persisted()
      ensures !CanLeaveRegistration()
    {
      SetState(IsRegisteringKey, BoolString(true));
      SetState(AllDocsReviewedKey, BoolString(false));
      SetState(RegistrationStateKey, Name(Welcome));
      isRegistering := true;
      allDocumentsReviewed := false;
      registrationState := Some(Name(Welcome));
    }

    /** `markDocumentsReviewed`: only the review flag (and its key) changes. */
    method MarkDocumentsReviewed()
      requires Persisted()
      modifies this`store, this`allDocumentsReviewed
      ensures allDocumentsReviewed
      ensures store == if isBrowser then old(store)[AllDocsReviewedKey := "true"] else old(store)
      ensures Persisted()
      ensures old(Mirrored()) ==> Mirrored()
    {
      SetState(AllDocsReviewedKey, BoolString(true));
      allDocumentsReviewed := true;
    }

    /** `setRegistrationState`: only the step (and its key) changes; any step may follow any other. */
    method SetRegistrationState(state: RegistrationState)
      requires Persisted()
      modifies this`store, this`registrationState
      ensures registrationState == Some(Name(state))
      ensures store == if isBrowser then old(store)[RegistrationStateKey := Name(state)] else old(store)
      ensures Persisted()
      ensures old(Mirrored()) ==> Mirrored()
    {
      SetState(RegistrationStateKey, Name(state));
      registrationState := Some(Name(state));
    }

    /** `resetRegistration`: not registering, not reviewed, at the welcome step, so leaving is allowed. */
    method ResetRegistration()
      requires Persisted()
      modifies this`store, this`isRegistering, this`allDocumentsReviewed, this`registrationState
      ensures !isRegistering && !allDocumentsReviewed && registrationState == Some(Name(Welcome))
      ensures store == if isBrowser
        then old(store)[IsRegisteringKey := "false"][AllDocsReviewedKey := "false"][RegistrationStateKey := "welcome"]
        else old(store)
      ensures Mirrored() && Persisted()
      ensures CanLeaveRegistration()
    {
      ClearState();
      SetState(IsRegisteringKey, BoolString(false));
      SetState(AllDocsReviewedKey, BoolString(false));
      SetState(RegistrationStateKey, Name(Welcome));
      isRegistering := false;
      allDocumentsReviewed := false;
      registrationState := Some(Name(Welcome));
      ClearThenWrite(old(store), "false", "false", "welcome");
    }
  }

  /** Writing all three keys after removing them is the same as writing them. */
  lemma ClearThenWrite(m: map<string, string>, registering: string, reviewed: string, state: string)
    ensures (m - {IsRegisteringKey, AllDocsReviewedKey, RegistrationStateKey})
        [IsRegisteringKey := registering][AllDocsReviewedKey := reviewed][RegistrationStateKey := state]
      == m[IsRegisteringKey := registering][AllDocsReviewedKey := reviewed][RegistrationStateKey := state]
  {
  }

  /** What is written is what a reload reads: a mirrored store restores every field. */
  lemma MirroredIsPersisted(service: RegistrationStateService)
    requires service.Mirrored()
    ensures service.Persisted()
  {
  }
}
