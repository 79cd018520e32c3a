/**
 Lazy authentication of a request (insanic/request.py): four slots filled by one run of
 the authenticator chain when any of them is first read, and the task context that
 follows the user.
 */
module RequestAuth {
  import opened Wrappers
  import opened UserHeader
  import opened Authentication

  datatype Slot<T> = Unset | Held(value: T)

  /** `runs` counts how often the chain has been run. */
  datatype State = State(authenticator: Slot<Option<Authenticator>>, user: Slot<User>, service: Slot<Service>,
                         auth: Slot<Option<string>>, context: Option<Context>, runs: nat)

  const NEW: State := State(Unset, Unset, Unset, Unset, None, 0)

  const ANONYMOUS_USER: User := User("", -1, Flag(false))
  const ANONYMOUS_CONTEXT: Context := Context("", -1, 0)
  const ANONYMOUS_SERVICE: Service := Service("", "")

  datatype Field = TheUser | TheService | TheAuth | TheAuthenticator

  datatype Value = IsUser(user: User) | IsService(service: Service) | IsAuth(auth: Option<string>)
                 | IsAuthenticator(authenticator: Option<Authenticator>)

  datatype Raised = Nothing | ApiException(error: string) | OtherException(error: string)

  datatype Answer = Returned(value: Value) | Failed(raised: Raised)

  // ----- one run of the chain -----

  function NotAuthenticated(s: State): State {
    s.(authenticator := Held(None), user := Held(ANONYMOUS_USER), service := Held(ANONYMOUS_SERVICE),
       auth := Held(None), context := Some(ANONYMOUS_CONTEXT))
  }

  /**
   What `_authenticate` does with the chain's result. The user setter stores the user
   before it converts it for the context; if that conversion raises, the assignments
   after it do not happen.
   */
  function Absorb(s: State, r: Result): (State, Raised) {
    var s1 := s.(runs := s.runs + 1);
    match r
    case Success(a, user, service, token) =>
      var s2 := s1.(authenticator := Held(Some(a)), user := Held(user));
      var c := ToContext(user);
      if c.None? then (s2, OtherException("ValueError"))
      else (s2.(context := c, service := Held(service), auth := Held(Some(token))), Nothing)
    case Anonymous => (NotAuthenticated(s1), Nothing)
    case ApiError(error) => (NotAuthenticated(s1), ApiException(error))
    case Crash(error) => (s1, OtherException(error))
  }

  predicate Holds(s: State, f: Field) {
    match f
    case TheUser => s.user.Held?
    case TheService => s.service.Held?
    case TheAuth => s.auth.Held?
    case TheAuthenticator => s.authenticator.Held?
  }

  function ValueOf(s: State, f: Field): Value
    requires Holds(s, f)
  {
    match f
    case TheUser => IsUser(s.user.value)
    case TheService => IsService(s.service.value)
    case TheAuth => IsAuth(s.auth.value)
    case TheAuthenticator => IsAuthenticator(s.authenticator.value)
  }

  lemma AbsorbFills(s: State, r: Result, f: Field)
    ensures Absorb(s, r).1.Nothing? ==> Holds(Absorb(s, r).0, f)
  {
  }

  /** Reading a field: run the chain if its slot is empty. `chain` gives the result of each run. */
  function Read(s: State, f: Field, chain: nat -> Result): (State, Answer) {
    if Holds(s, f) then (s, Returned(ValueOf(s, f)))
    else
      var (s', raised) := Absorb(s, chain(s.runs));
      AbsorbFills(s, chain(s.runs), f);
      if raised.Nothing? then (s', Returned(ValueOf(s', f))) else (s', Failed(raised))
  }

  function ReadAll(s: State, fs: seq<Field>, chain: nat -> Result): (State, seq<Answer>)
    decreases |fs|
  {
    if fs == [] then (s, [])
    else
      var (s1, a) := Read(s, fs[0], chain);
      var (s2, rest) := ReadAll(s1, fs[1..], chain);
      (s2, [a] + rest)
  }

  // ----- over any sequence of reads -----

  /** A result that fills all four slots: anything but a crash or a user that cannot be put in the context. */
  predicate Settles(r: Result) {
    match r
    case Success(_, user, _, _) => ToContext(user).Some?
    case Anonymous => true
    case ApiError(_) => true
    case Crash(_) => false
  }

  predicate AllSet(s: State) {
    s.authenticator.Held? && s.user.Held? && s.service.Held? && s.auth.Held?
  }

  /** All slots and the context as one settling result leaves them. */
  ghost predicate SettledBy(s: State, r: Result) {
    && AllSet(s)
    && s.context == ToContext(s.user.value) && s.context.Some?
    && match r
       case Success(a, user, service, token) =>
         s.authenticator.value == Some(a) && s.user.value == user && s.service.value == service && s.auth.value == Some(token)
       case _ =>
         s.authenticator.value == None && s.user.value == ANONYMOUS_USER
         && s.service.value == ANONYMOUS_SERVICE && s.auth.value == None
  }

  /** Before the chain settles only the authenticator and an unprintable user can be stored. */
  ghost predicate Unsettled(s: State) {
    && s.service.Unset? && s.auth.Unset? && s.context.None?
    && (s.user.Held? <==> s.authenticator.Held?)
    && (s.user.Held? ==> ToContext(s.user.value).None?)
  }

  /** The chain stops being run with its first settling result, which decides everything. */
  ghost predicate Follows(s: State, chain: nat -> Result) {
    || (Unsettled(s) && forall j: nat :: j < s.runs ==> !Settles(chain(j)))
    || (s.runs > 0 && SettledBy(s, chain(s.runs - 1)) && Settles(chain(s.runs - 1))
        && forall j: nat :: j < s.runs - 1 ==> !Settles(chain(j)))
  }

  lemma AbsorbFollows(s: State, r: Result)
    requires Unsettled(s)
    ensures Settles(r) <==> SettledBy(Absorb(s, r).0, r)
    ensures !Settles(r) ==> Unsettled(Absorb(s, r).0) && Absorb(s, r).1.OtherException?
  {
  }

  lemma ReadFollows(s: State, f: Field, chain: nat -> Result)
    requires Follows(s, chain)
    ensures Follows(Read(s, f, chain).0, chain)
  {
    hide ToContext, IsAuthenticated;
    if !Holds(s, f) {
      assert Unsettled(s);
      AbsorbFollows(s, chain(s.runs));
    }
  }

  /**
   Over any reads in any order: the chain runs until its first settling result and never
   again, and then all four slots and the task context are exactly that result's.
   */
  lemma {:induction false} ReadsFollow(s: State, fs: seq<Field>, chain: nat -> Result)
    requires Follows(s, chain)
    ensures Follows(ReadAll(s, fs, chain).0, chain)
    decreases |fs|
  {
    hide Follows, Read;
    if fs != [] {
      ReadFollows(s, fs[0], chain);
      ReadsFollow(Read(s, fs[0], chain).0, fs[1..], chain);
    }
  }

  lemma {:induction false} SettledReads(s: State, fs: seq<Field>, chain: nat -> Result)
    requires AllSet(s)
    ensures ReadAll(s, fs, chain).0 == s
    ensures |ReadAll(s, fs, chain).1| == |fs|
    ensures forall i :: 0 <= i < |fs| ==> ReadAll(s, fs, chain).1[i] == Returned(ValueOf(s, fs[i]))
    decreases |fs|
  {
    if fs != [] {
      SettledReads(s, fs[1..], chain);
      forall i | 0 <= i < |fs| ensures ReadAll(s, fs, chain).1[i] == Returned(ValueOf(s, fs[i])) {
        if i > 0 {
          assert ReadAll(s, fs, chain).1[i] == ReadAll(s, fs[1..], chain).1[i - 1];
        }
      }
    }
  }

  /**
   When the first run settles, it is the only one: any non-empty sequence of reads ends
   in the same state, an API error is raised by the first read alone, and every later
   read returns that result's value (the anonymous one after an API error).
   */
  lemma RunsOnce(fs: seq<Field>, chain: nat -> Result)
    requires fs != [] && Settles(chain(0))
    ensures var (s, answers) := ReadAll(NEW, fs, chain);
            && s == Absorb(NEW, chain(0)).0 && s.runs == 1 && SettledBy(s, chain(0))
            && |answers| == |fs|
            && answers[0] == (if chain(0).ApiError? then Failed(ApiException(chain(0).error)) else Returned(ValueOf(s, fs[0])))
            && forall i :: 1 <= i < |fs| ==> answers[i] == Returned(ValueOf(s, fs[i]))
  {
    var s := Absorb(NEW, chain(0)).0;
    AbsorbFollows(NEW, chain(0));
    assert Read(NEW, fs[0], chain).0 == s;
    SettledReads(s, fs[1..], chain);
    forall i | 1 <= i < |fs| ensures ReadAll(NEW, fs, chain).1[i] == Returned(ValueOf(s, fs[i])) {
      assert ReadAll(NEW, fs, chain).1[i] == ReadAll(s, fs[1..], chain).1[i - 1];
    }
  }

  /** The slots are filled together, with the context in step, exactly when the run settles. */
  lemma SetTogetherIff(r: Result)
    ensures var s := Absorb(NEW, r).0;
            && (Settles(r) <==> AllSet(s) && s.context == ToContext(s.user.value))
            && (!Settles(r) && r.Success? ==> s.user.Held? && s.authenticator.Held? && s.service.Unset? && s.context.None?)
  {
  }

  // ----- what the first read of a request answers -----

  ghost predicate DistinctSchemes(auths: seq<Authenticator>) {
    forall i, j :: 0 <= i < j < |auths| ==> auths[i].prefix != auths[j].prefix
  }

  /** The answer of an authenticated request for this field. */
  ghost predicate AnswersAs(answer: Answer, f: Field, who: Option<Authenticator>, user: User, service: Service, token: Option<string>) {
    match f
    case TheUser => answer == Returned(IsUser(user))
    case TheService => answer == Returned(IsService(service))
    case TheAuth => answer == Returned(IsAuth(token))
    case TheAuthenticator => answer == Returned(IsAuthenticator(who))
  }

  ghost predicate AnswersAnonymous(answer: Answer, f: Field) {
    AnswersAs(answer, f, None, User("", -1, Flag(false)), Service("", ""), None)
  }

  /**
   The answer in terms of the headers alone. Without an authenticator whose scheme is the
   first word the request is anonymous. Otherwise, anything but two words is an error; the
   gateway's anonymous consumer, or an empty one, makes the request anonymous; and the
   verdict on the second word decides the rest.
   */
  ghost predicate AnswersFromHeaders(auths: seq<Authenticator>, verdicts: Verdicts, h: Headers, f: Field, answer: Answer) {
    if h.authorization == [] then AnswersAnonymous(answer, f)
    else if forall a :: a in auths ==> a.prefix != Lower(h.authorization[0]) then AnswersAnonymous(answer, f)
    else forall a :: a in auths && a.prefix == Lower(h.authorization[0]) ==> AnswersFromToken(a, verdicts, h, f, answer)
  }

  ghost predicate AnswersFromToken(a: Authenticator, verdicts: Verdicts, h: Headers, f: Field, answer: Answer) {
    if |h.authorization| != 2 then answer == Failed(ApiException("invalid_authorization_header"))
    else if h.consumer == Some("") then AnswersAnonymous(answer, f)
    else if h.anonymousConsumer == Some("true") && (h.consumer == None || h.consumer == Some("anonymous")) then AnswersAnonymous(answer, f)
    else
      var token := h.authorization[1];
      if (a, token) !in verdicts then answer == Failed(ApiException("invalid_token"))
      else match verdicts[(a, token)]
           case Accepted(user, service) =>
             if ToContext(user).Some? then AnswersAs(answer, f, Some(a), user, service, Some(token))
             else answer == Failed(OtherException("ValueError"))
           case Denied(error) => answer == Failed(ApiException(error))
           case Broken(error) => answer == Failed(OtherException(error))
  }

  lemma AnonymousAnswer(f: Field, chain: nat -> Result)
    requires chain(0) == Anonymous
    ensures AnswersAnonymous(Read(NEW, f, chain).1, f)
  {
  }

  lemma ClaimedAnswer(a: Authenticator, verdicts: Verdicts, h: Headers, f: Field, chain: nat -> Result)
    requires Claims(a, h) && chain(0) == Authentication.Authenticate(a, verdicts, h)
    ensures AnswersFromToken(a, verdicts, h, f, Read(NEW, f, chain).1)
  {
    hide ToContext, Claims;
  }

  /** The first read of a new request, for any list of authenticators with distinct schemes. */
  lemma FirstReadFromHeaders(auths: seq<Authenticator>, verdicts: Verdicts, h: Headers, f: Field, chain: nat -> Result)
    requires DistinctSchemes(auths) && chain(0) == Chain(auths, verdicts, h)
    ensures AnswersFromHeaders(auths, verdicts, h, f, Read(NEW, f, chain).1)
  {
    hide Read, AnswersAnonymous, AnswersFromToken, Chain, Authentication.Authenticate;
    if exists a :: a in auths && Claims(a, h) {
      var a :| a in auths && Claims(a, h);
      forall b | b in auths && Claims(b, h) ensures b == a {
        var i :| 0 <= i < |auths| && auths[i] == a;
        var j :| 0 <= j < |auths| && auths[j] == b;
      }
      ClaimantDecides(auths, verdicts, h, a);
      ClaimedAnswer(a, verdicts, h, f, chain);
    } else {
      NobodyClaims(auths, verdicts, h);
      AnonymousAnswer(f, chain);
    }
  }

  /** Once the first run settles, every read in any order answers what a first read of its field would, errors aside. */
  lemma EveryReadAgrees(fs: seq<Field>, chain: nat -> Result, i: nat)
    requires i < |fs| && Settles(chain(0))
    ensures |ReadAll(NEW, fs, chain).1| == |fs|
    ensures var answer := ReadAll(NEW, fs, chain).1[i];
            if chain(0).ApiError? && i > 0 then AnswersAnonymous(answer, fs[i])
            else answer == Read(NEW, fs[i], chain).1
  {
    RunsOnce(fs, chain);
    var s := Absorb(NEW, chain(0)).0;
    hide ReadAll, ToContext;
    assert chain(0).ApiError? && i > 0 ==> AnswersAnonymous(Returned(ValueOf(s, fs[i])), fs[i]);
  }

  // ----- the object -----

  class Request {
    const authenticators: seq<Authenticator>
    const headers: Headers
    var authenticator: Slot<Option<Authenticator>>
    var user: Slot<User>
    var service: Slot<Service>
    var auth: Slot<Option<string>>
    var context: Option<Context>
    var runs: nat

    constructor (authenticators: seq<Authenticator>, headers: Headers)
      ensures this.authenticators == authenticators && this.headers == headers
      ensures Now() == NEW
    {
      this.authenticators, this.headers := authenticators, headers;
      authenticator, user, service, auth, context, runs := Unset, Unset, Unset, Unset, None, 0;
    }

    function Now(): State
      reads this
    {
      State(authenticator, user, service, auth, context, runs)
    }

    /** The user setter: the slot first, then the task context, which may raise. */
    method SetUser(value: User) returns (ok: bool)
      modifies this`user, this`context
      ensures user == Held(value)
      ensures ok == ToContext(value).Some?
      ensures context == if ok then ToContext(value) else old(context)
    {
      user := Held(value);
      var c := ToContext(value);
      ok := c.Some?;
      if ok {
        context := c;
      }
    }

    method ClearAuthentication()
      modifies this
      ensures Now() == NotAuthenticated(old(Now()))
    {
      authenticator := Held(None);
      var ok := SetUser(ANONYMOUS_USER);
      service := Held(ANONYMOUS_SERVICE);
      auth := Held(None);
    }

    /** The loop over the authenticators with its early return. */
    method RunChain(verdicts: Verdicts) returns (raised: Raised)
      modifies this
      ensures (Now(), raised) == Absorb(old(Now()), Chain(authenticators, verdicts, headers))
    {
      runs := runs + 1;
      for i := 0 to |authenticators|
        invariant Chain(authenticators, verdicts, headers) == Chain(authenticators[i..], verdicts, headers)
        invariant Now() == old(Now()).(runs := old(runs) + 1)
      {
        match Authenticate(authenticators[i], verdicts, headers) {
          case ApiError(error) =>
            ClearAuthentication();
            return ApiException(error);
          case Crash(error) =>
            return OtherException(error);
          case Success(who, u, s, token) =>
            authenticator := Held(Some(who));
            var ok := SetUser(u);
            if !ok {
              return OtherException("ValueError");
            }
            service, auth := Held(s), Held(Some(token));
            return Nothing;
          case Anonymous =>
        }
      }
      ClearAuthentication();
      return Nothing;
    }

    /** The four property getters. */
    method Get(f: Field, verdicts: Verdicts) returns (answer: Answer)
      modifies this
      ensures (Now(), answer) == Read(old(Now()), f, _ => Chain(authenticators, verdicts, headers))
      ensures old(Now()) == NEW && DistinctSchemes(authenticators) ==>
                AnswersFromHeaders(authenticators, verdicts, headers, f, answer)
    {
      ghost var chain: nat -> Result := _ => Chain(authenticators, verdicts, headers);
      if DistinctSchemes(authenticators) {
        FirstReadFromHeaders(authenticators, verdicts, headers, f, chain);
      }
      if !Holds(Now(), f) {
        ghost var before := Now();
        var raised := RunChain(verdicts);
        AbsorbFills(before, Chain(authenticators, verdicts, headers), f);
        if !raised.Nothing? {
          return Failed(raised);
        }
      }
      return Returned(ValueOf(Now(), f));
    }
  }
}
