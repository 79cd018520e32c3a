/**
 The chain of JWT authenticators (insanic/authentication/__init__.py): each one looks at
 the scheme word of the Authorization header before it looks at the token.
 */
module Authentication {
  import opened Wrappers
  import opened UserHeader

  /** An authentication class and its lower-cased scheme. */
  datatype Authenticator = Authenticator(name: string, prefix: string)

  /** The headers read here; the Authorization header is already split at whitespace, none if absent. */
  datatype Headers = Headers(authorization: seq<string>, consumer: Option<string>, anonymousConsumer: Option<string>)

  /** What decoding a token and loading its credentials gives. */
  datatype Verdict = Accepted(user: User, service: Service) | Denied(error: string) | Broken(error: string)

  /** Decoding is outside the model: any table of verdicts may apply. */
  type Verdicts = map<(Authenticator, string), Verdict>

  function Verify(verdicts: Verdicts, a: Authenticator, token: string): Verdict {
    if (a, token) in verdicts then verdicts[(a, token)] else Denied("invalid_token")
  }

  datatype Result =
    | Success(who: Authenticator, user: User, service: Service, token: string)
    | Anonymous
    | ApiError(error: string)
    | Crash(error: string)

  function LowerChar(c: char): char {
    if 'A' <= c <= 'Z' then c - 'A' + 'a' else c
  }

  function Lower(s: string): string {
    seq(|s|, i requires 0 <= i < |s| => LowerChar(s[i]))
  }

  /** Lower-casing leaves no capital and changes nothing else. */
  lemma LowerIsCaseless(s: string, i: nat)
    requires i < |s|
    ensures |Lower(s)| == |s|
    ensures 'A' <= s[i] <= 'Z' ==> 'a' <= Lower(s)[i] <= 'z' && Lower(s)[i] as int - s[i] as int == 32
    ensures !('A' <= s[i] <= 'Z') ==> Lower(s)[i] == s[i]
  {
  }

  /** The scheme word is this authenticator's. */
  predicate Claims(a: Authenticator, h: Headers) {
    h.authorization != [] && Lower(h.authorization[0]) == a.prefix
  }

  /** The gateway's consumer; None for its anonymous consumer. */
  function ConsumerHeader(h: Headers): Option<string> {
    var id := if h.consumer.Some? then h.consumer.value else "anonymous";
    if id == "anonymous" && h.anonymousConsumer == Some("true") then None else Some(id)
  }

  /** `authenticate`; `Anonymous` stands for returning None. */
  function Authenticate(a: Authenticator, verdicts: Verdicts, h: Headers): Result {
    if !Claims(a, h) then Anonymous
    else if |h.authorization| != 2 then ApiError("invalid_authorization_header")
    else if ConsumerHeader(h).None? || ConsumerHeader(h).value == "" then Anonymous
    else match Verify(verdicts, a, h.authorization[1])
         case Accepted(user, service) => Success(a, user, service, h.authorization[1])
         case Denied(error) => ApiError(error)
         case Broken(error) => Crash(error)
  }

  /** Each authenticator in turn until one settles the request. */
  function Chain(auths: seq<Authenticator>, verdicts: Verdicts, h: Headers): Result {
    if auths == [] then Anonymous
    else
      var r := Authenticate(auths[0], verdicts, h);
      if r.Anonymous? then Chain(auths[1..], verdicts, h) else r
  }

  /** No two different authenticators share a scheme. */
  ghost predicate Unambiguous(auths: seq<Authenticator>) {
    forall i, j :: 0 <= i < j < |auths| && auths[i].prefix == auths[j].prefix ==> auths[i] == auths[j]
  }

  /** At most one authenticator claims or rejects a header, and it alone decides. */
  lemma {:induction false} ClaimantDecides(auths: seq<Authenticator>, verdicts: Verdicts, h: Headers, a: Authenticator)
    requires forall b :: b in auths && Claims(b, h) ==> b == a
    ensures Chain(auths, verdicts, h) == if a in auths then Authenticate(a, verdicts, h) else Anonymous
  {
    if auths != [] {
      assert auths[0] in auths && forall b :: b in auths[1..] ==> b in auths;
      assert auths == [auths[0]] + auths[1..];
      ClaimantDecides(auths[1..], verdicts, h, a);
    }
  }

  lemma {:induction false} NobodyClaims(auths: seq<Authenticator>, verdicts: Verdicts, h: Headers)
    requires forall b :: b in auths ==> !Claims(b, h)
    ensures Chain(auths, verdicts, h) == Anonymous
  {
    if auths != [] {
      assert auths[0] in auths && forall b :: b in auths[1..] ==> b in auths;
      NobodyClaims(auths[1..], verdicts, h);
    }
  }

  /** Every permutation of an unambiguous list gives the same result, whatever the header and the tokens. */
  lemma OrderDoesNotMatter(auths: seq<Authenticator>, other: seq<Authenticator>, verdicts: Verdicts, h: Headers)
    requires Unambiguous(auths) && multiset(auths) == multiset(other)
    ensures Chain(auths, verdicts, h) == Chain(other, verdicts, h)
  {
    assert forall a :: a in other ==> a in multiset(auths);
    assert forall a :: a in auths ==> a in multiset(other);
    if exists a :: a in auths && Claims(a, h) {
      var a :| a in auths && Claims(a, h);
      forall b | b in auths && Claims(b, h) ensures b == a {
        var i :| 0 <= i < |auths| && auths[i] == a;
        var j :| 0 <= j < |auths| && auths[j] == b;
      }
      ClaimantDecides(auths, verdicts, h, a);
      ClaimantDecides(other, verdicts, h, a);
    } else {
      NobodyClaims(auths, verdicts, h);
      NobodyClaims(other, verdicts, h);
    }
  }

  ghost predicate Commute(a: Authenticator, b: Authenticator, verdicts: Verdicts, h: Headers) {
    Chain([a, b], verdicts, h) == Chain([b, a], verdicts, h)
  }

  /** Two authenticators commute on every request exactly when their schemes differ (or they are the same). */
  lemma PairCommutesIff(a: Authenticator, b: Authenticator)
    requires Lower(a.prefix) == a.prefix
    ensures (forall verdicts, h :: Commute(a, b, verdicts, h)) <==> a.prefix != b.prefix || a == b
  {
    if a.prefix != b.prefix || a == b {
      forall verdicts, h ensures Commute(a, b, verdicts, h) {
        assert multiset([a, b]) == multiset([b, a]);
        OrderDoesNotMatter([a, b], [b, a], verdicts, h);
      }
    } else {
      hide Lower;
      var h := Headers([a.prefix, "token"], Some("consumer"), None);
      var verdicts: Verdicts := map[(a, "token") := Denied("a"), (b, "token") := Denied("b")];
      FirstRejects([a, b], verdicts, h, "a");
      FirstRejects([b, a], verdicts, h, "b");
      assert !Commute(a, b, verdicts, h);
    }
  }

  lemma FirstRejects(auths: seq<Authenticator>, verdicts: Verdicts, h: Headers, error: string)
    requires auths != [] && Claims(auths[0], h) && |h.authorization| == 2
    requires ConsumerHeader(h).Some? && ConsumerHeader(h).value != ""
    requires Verify(verdicts, auths[0], h.authorization[1]) == Denied(error)
    ensures Chain(auths, verdicts, h) == ApiError(error)
  {
    hide Claims;
  }
}
