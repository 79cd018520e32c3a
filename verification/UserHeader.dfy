/**
 The user carried between services: printed into a request header
 (insanic/models.py), parsed by the receiver (insanic/authentication/__init__.py),
 kept in the task context as a dictionary (insanic/request.py) and printed again
 for the next service (insanic/services/client.py).
 */
module UserHeader {
  import opened Wrappers
  import opened Text

  const ACTIVE: int := 100

  /** `_is_authenticated` as it was given to the constructor; the parser gives text. */
  datatype RawAuth = Flag(flag: bool) | Number(number: int) | Written(text: string)

  datatype User = User(id: string, level: int, raw: RawAuth)

  /** `dict(user)`, as the task context keeps it. */
  datatype Context = Context(id: string, level: int, isAuthenticated: int)

  predicate IsActive(u: User) {
    u.level >= ACTIVE
  }

  /** `int(self.is_active and self._is_authenticated)`; None is the ValueError on text that is not a number. */
  function IsAuthenticated(u: User): Option<int> {
    if !IsActive(u) then Some(0)
    else match u.raw
         case Flag(flag) => Some(if flag then 1 else 0)
         case Number(number) => Some(number)
         case Written(text) => ParseInt(text)
  }

  function ToContext(u: User): Option<Context> {
    var a := IsAuthenticated(u);
    if a.None? then None else Some(Context(u.id, u.level, a.value))
  }

  /** `to_header_value` */
  function HeaderOf(c: Context): string {
    Join(["id=" + c.id, "level=" + Decimal(c.level), "is_authenticated=" + Decimal(c.isAuthenticated)], ';')
  }

  datatype Failure = BadPair | BadKeyword | BadLevel | InvalidServiceToken

  datatype Parsed<T> = Ok(value: T) | Err(error: Failure)

  type Params = map<string, string>

  /** The parser's starting dictionary; its integer level -1 is written as the text that converts to it. */
  const DEFAULTS: Params := map["id" := "", "level" := "-1"]

  /** One non-empty piece must split into exactly a key and a value. */
  function Bind(piece: string, params: Params): Parsed<Params> {
    var kv := Split(piece, '=');
    if piece == "" then Ok(params)
    else if |kv| != 2 then Err(BadPair)
    else Ok(params[kv[0] := kv[1]])
  }

  function BindAll(pieces: seq<string>, params: Params): Parsed<Params> {
    if pieces == [] then Ok(params)
    else
      var p := Bind(pieces[0], params);
      if p.Err? then p else BindAll(pieces[1..], p.value)
  }

  /** `User(**params)`: other keywords are swallowed, but `self` clashes with the receiver. */
  function Construct(params: Params): Parsed<User>
    requires "id" in params && "level" in params
  {
    if "self" in params then Err(BadKeyword)
    else
      var level := ParseInt(params["level"]);
      if level.None? then Err(BadLevel)
      else Ok(User(params["id"], level.value,
                   if "is_authenticated" in params then Written(params["is_authenticated"]) else Flag(false)))
  }

  lemma {:induction false} KeysStay(pieces: seq<string>, params: Params)
    ensures BindAll(pieces, params).Ok? ==> params.Keys <= BindAll(pieces, params).value.Keys
  {
    if pieces != [] && Bind(pieces[0], params).Ok? {
      KeysStay(pieces[1..], Bind(pieces[0], params).value);
    }
  }

  function ParseUser(header: string): Parsed<User> {
    var params := BindAll(Split(header, ';'), DEFAULTS);
    if params.Err? then Err(params.error)
    else
      KeysStay(Split(header, ';'), DEFAULTS);
      Construct(params.value)
  }

  datatype Service = Service(source: string, aud: string)

  /** `ServiceJWTAuthentication.authenticate_credentials`: the piece loop, then the service check. */
  method AuthenticateCredentials(header: Option<string>, service: Service, serviceName: string)
    returns (result: Parsed<(User, Service)>)
    ensures var user := ParseUser(if header.Some? then header.value else "");
            result == if user.Err? then Err(user.error)
                      else if service.aud != serviceName then Err(InvalidServiceToken)
                      else Ok((user.value, service))
  {
    var pieces := Split(if header.Some? then header.value else "", ';');
    var params := DEFAULTS;
    for i := 0 to |pieces|
      invariant "id" in params && "level" in params
      invariant BindAll(pieces, DEFAULTS) == BindAll(pieces[i..], params)
    {
      if pieces[i] != "" {
        var kv := Split(pieces[i], '=');
        if |kv| != 2 {
          return Err(BadPair);
        }
        params := params[kv[0] := kv[1]];
      }
    }
    var user := Construct(params);
    if user.Err? {
      return Err(user.error);
    }
    if service.aud != serviceName {
      return Err(InvalidServiceToken);
    }
    return Ok((user.value, service));
  }

  // ----- later bindings win -----

  lemma {:induction false} BindConcat(a: seq<string>, b: seq<string>, params: Params)
    ensures BindAll(a + b, params) ==
            if BindAll(a, params).Err? then BindAll(a, params) else BindAll(b, BindAll(a, params).value)
  {
    if a == [] {
      assert a + b == b;
    } else {
      assert (a + b)[1..] == a[1..] + b;
      if Bind(a[0], params).Ok? {
        BindConcat(a[1..], b, Bind(a[0], params).value);
      }
    }
  }

  lemma SplitPair(key: string, value: string)
    requires '=' !in key && '=' !in value
    ensures Split(key + "=" + value, '=') == [key, value]
  {
    SplitAt(key, '=', value);
    SplitWhole(key, '=');
    SplitWhole(value, '=');
  }

  /** The header's pieces: whatever the id falls apart into, then the level, then the flag. */
  lemma HeaderPieces(c: Context)
    ensures Split(HeaderOf(c), ';') == Split("id=" + c.id, ';')
              + ["level=" + Decimal(c.level), "is_authenticated=" + Decimal(c.isAuthenticated)]
  {
    var a, b, d := "id=" + c.id, "level=" + Decimal(c.level), "is_authenticated=" + Decimal(c.isAuthenticated);
    hide Split, Join, Decimal;
    DecimalIsPlain(c.level);
    DecimalIsPlain(c.isAuthenticated);
    JoinThree(a, b, d, ';');
    SplitAt(a, ';', b + [';'] + d);
    SplitAt(b, ';', d);
    SplitWhole(b, ';');
    SplitWhole(d, ';');
    assert Split("id=" + c.id, ';') + ([b] + [d]) == Split("id=" + c.id, ';') + [b, d];
  }

  /** What the parser ends up with: the id's own bindings, overridden by the printed level and flag. */
  lemma HeaderBindings(c: Context)
    ensures var own := BindAll(Split("id=" + c.id, ';'), DEFAULTS);
            BindAll(Split(HeaderOf(c), ';'), DEFAULTS) ==
            if own.Err? then own
            else Ok(own.value["level" := Decimal(c.level)]["is_authenticated" := Decimal(c.isAuthenticated)])
  {
    var b, d := "level=" + Decimal(c.level), "is_authenticated=" + Decimal(c.isAuthenticated);
    HeaderPieces(c);
    hide Split, Decimal, HeaderOf, BindAll;
    BindConcat(Split("id=" + c.id, ';'), [b, d], DEFAULTS);
    var own := BindAll(Split("id=" + c.id, ';'), DEFAULTS);
    if own.Ok? {
      assert "level" + "=" == "level=" && "is_authenticated" + "=" == "is_authenticated=";
      DecimalIsPlain(c.level);
      DecimalIsPlain(c.isAuthenticated);
      BindPair("level", Decimal(c.level), "is_authenticated", Decimal(c.isAuthenticated), own.value);
    }
  }

  lemma BindPair(k1: string, v1: string, k2: string, v2: string, params: Params)
    requires '=' !in k1 && '=' !in v1 && '=' !in k2 && '=' !in v2
    ensures BindAll([k1 + "=" + v1], params) == Ok(params[k1 := v1])
    ensures BindAll([k1 + "=" + v1, k2 + "=" + v2], params) == Ok(params[k1 := v1][k2 := v2])
  {
    hide Split;
    var a, b := k1 + "=" + v1, k2 + "=" + v2;
    SplitPair(k1, v1);
    SplitPair(k2, v2);
    var none: seq<string> := [];
    assert [a][1..] == none && [a, b][1..] == [b] && [b][1..] == none;
    assert a[|k1|] == '=' && b[|k2|] == '=';
    assert BindAll([b], params[k1 := v1]) == Ok(params[k1 := v1][k2 := v2]);
  }

  /** Whatever the id contains: if the header parses, the level and the flag are the sender's. */
  lemma LevelAndFlagSurvive(c: Context)
    ensures ParseUser(HeaderOf(c)).Ok? ==>
              var u := ParseUser(HeaderOf(c)).value;
              u.level == c.level && u.raw == Written(Decimal(c.isAuthenticated))
  {
    HeaderBindings(c);
    ParseOfDecimal(c.level);
  }

  /** A piece the parser accepts: empty, or a key other than `self` with a value. */
  predicate Acceptable(piece: string) {
    piece == "" || (|Split(piece, '=')| == 2 && Split(piece, '=')[0] != "self")
  }

  lemma BindIff(piece: string, params: Params)
    requires "self" !in params
    ensures Acceptable(piece) <==> Bind(piece, params).Ok? && "self" !in Bind(piece, params).value
  {
    hide Split;
  }

  lemma {:induction false} BindsIff(pieces: seq<string>, params: Params)
    requires "self" !in params
    ensures (forall p :: p in pieces ==> Acceptable(p)) <==>
            BindAll(pieces, params).Ok? && "self" !in BindAll(pieces, params).value
  {
    hide Split, Bind, Acceptable;
    if pieces != [] {
      var b := Bind(pieces[0], params);
      BindIff(pieces[0], params);
      assert pieces[0] in pieces;
      assert (forall p :: p in pieces ==> Acceptable(p)) <==>
             Acceptable(pieces[0]) && forall p :: p in pieces[1..] ==> Acceptable(p) by {
        assert pieces == [pieces[0]] + pieces[1..];
      }
      if b.Ok? {
        KeysStay(pieces[1..], b.value);
        if "self" !in b.value {
          BindsIff(pieces[1..], b.value);
        }
      }
    }
  }

  /** Not exactly one "=" in a non-empty piece. */
  predicate Malformed(piece: string) {
    piece != "" && |Split(piece, '=')| != 2
  }

  lemma {:induction false} BindAllFails(pieces: seq<string>, params: Params)
    ensures BindAll(pieces, params).Err? <==> exists p :: p in pieces && Malformed(p)
    ensures BindAll(pieces, params).Err? ==> BindAll(pieces, params).error == BadPair
  {
    hide Split;
    if pieces != [] {
      assert pieces[0] in pieces && forall p :: p in pieces <==> p == pieces[0] || p in pieces[1..];
      assert Malformed(pieces[0]) <==> Bind(pieces[0], params).Err?;
      if Bind(pieces[0], params).Ok? {
        BindAllFails(pieces[1..], Bind(pieces[0], params).value);
        assert BindAll(pieces, params) == BindAll(pieces[1..], Bind(pieces[0], params).value);
      }
    }
  }

  /**
   How an arbitrary header fails: a malformed piece first of all, then the keyword `self`,
   then a last-bound level that is not a number; any other header parses.
   */
  lemma FailureKinds(header: string)
    ensures var pieces := Split(header, ';');
            if exists p :: p in pieces && Malformed(p) then ParseUser(header) == Err(BadPair)
            else if exists p :: p in pieces && p != "" && Split(p, '=')[0] == "self" then ParseUser(header) == Err(BadKeyword)
            else var bound := BindAll(pieces, DEFAULTS);
                 && bound.Ok? && "level" in bound.value
                 && if ParseInt(bound.value["level"]) == None then ParseUser(header) == Err(BadLevel) else ParseUser(header).Ok?
  {
    hide Split, BindAll, ParseInt;
    var pieces := Split(header, ';');
    BindAllFails(pieces, DEFAULTS);
    KeysStay(pieces, DEFAULTS);
    BindsIff(pieces, DEFAULTS);
    if exists p :: p in pieces && Malformed(p) {
    } else if exists p :: p in pieces && p != "" && Split(p, '=')[0] == "self" {
      var p :| p in pieces && p != "" && Split(p, '=')[0] == "self";
      assert !Acceptable(p);
    } else {
      assert forall p :: p in pieces ==> Acceptable(p);
    }
  }

  /** A printed user is accepted exactly when every piece its id falls apart into is acceptable. */
  lemma HeaderParsesIff(c: Context)
    ensures ParseUser(HeaderOf(c)).Ok? <==> forall p :: p in Split("id=" + c.id, ';') ==> Acceptable(p)
  {
    hide Split, Decimal, HeaderOf, BindAll, ParseInt, Acceptable;
    HeaderBindings(c);
    BindsIff(Split("id=" + c.id, ';'), DEFAULTS);
    ParseOfDecimal(c.level);
  }

  /** Some headers parse to an active user whose flag is not a number, so its dictionary form raises. */
  lemma HeaderCanBeUnprintable() returns (header: string)
    ensures ParseUser(header).Ok? && ToContext(ParseUser(header).value).None?
  {
    hide Split, Decimal, BindAll;
    var a, b := "level" + "=" + Decimal(ACTIVE), "is_authenticated" + "=" + "x";
    header := a + [';'] + b;
    DecimalIsPlain(ACTIVE);
    SplitAt(a, ';', b);
    SplitWhole(a, ';');
    SplitWhole(b, ';');
    assert [a] + [b] == [a, b];
    BindPair("level", Decimal(ACTIVE), "is_authenticated", "x", DEFAULTS);
    ParseOfDecimal(ACTIVE);
    assert Strip("x") == "x";
    assert ParseInt("x").None?;
  }

  // ----- hops between services -----

  /** A dictionary that some user has: inactive users are never authenticated. */
  predicate FromUser(c: Context) {
    c.level < ACTIVE ==> c.isAuthenticated == 0
  }

  lemma ContextIsFromUser(u: User)
    ensures ToContext(u).Some? ==> FromUser(ToContext(u).value)
  {
  }

  /** Context, header, parsed user, context again; None is a failed request. */
  function Hop(c: Context): Option<Context> {
    var u := ParseUser(HeaderOf(c));
    if u.Err? then None else ToContext(u.value)
  }

  function Hops(c: Context, n: nat): Option<Context>
    decreases n
  {
    if n == 0 then Some(c)
    else
      var next := Hop(c);
      if next.None? then None else Hops(next.value, n - 1)
  }

  predicate Plain(id: string) {
    ';' !in id && '=' !in id
  }

  lemma PlainHop(c: Context)
    requires FromUser(c) && Plain(c.id)
    ensures Hop(c) == Some(c)
  {
    hide Split, Decimal, HeaderOf, BindAll, ParseInt;
    SplitWhole("id=" + c.id, ';');
    assert "id" + "=" == "id=";
    BindPair("id", c.id, "", "", DEFAULTS);
    HeaderBindings(c);
    ParseOfDecimal(c.level);
    ParseOfDecimal(c.isAuthenticated);
  }

  ghost predicate AllPlain(params: Params) {
    forall k :: k in params ==> Plain(params[k])
  }

  lemma BoundValueIsPlain(piece: string, params: Params)
    requires ';' !in piece && AllPlain(params)
    ensures Bind(piece, params).Ok? ==> AllPlain(Bind(piece, params).value)
  {
    hide Split;
    PiecesAreClean(piece, '=');
    var kv := Split(piece, '=');
    if |kv| == 2 {
      assert kv[1] in kv;
    }
  }

  /** Values bound from separator-free pieces are separator-free. */
  lemma {:induction false} BoundValuesArePlain(pieces: seq<string>, params: Params)
    requires forall p :: p in pieces ==> ';' !in p
    requires AllPlain(params)
    ensures BindAll(pieces, params).Ok? ==> AllPlain(BindAll(pieces, params).value)
  {
    hide AllPlain, Bind;
    if pieces != [] {
      assert pieces[0] in pieces && forall p :: p in pieces[1..] ==> p in pieces;
      BoundValueIsPlain(pieces[0], params);
      if Bind(pieces[0], params).Ok? {
        BoundValuesArePlain(pieces[1..], Bind(pieces[0], params).value);
      }
    }
  }

  lemma HopGivesPlainId(c: Context)
    requires FromUser(c) && Hop(c).Some?
    ensures Plain(Hop(c).value.id)
    ensures Hop(c).value.level == c.level && Hop(c).value.isAuthenticated == c.isAuthenticated
    ensures FromUser(Hop(c).value)
  {
    hide Split, Decimal, HeaderOf, BindAll, ParseInt;
    LevelAndFlagSurvive(c);
    ParseOfDecimal(c.isAuthenticated);
    KeysStay(Split(HeaderOf(c), ';'), DEFAULTS);
    PiecesAreClean(HeaderOf(c), ';');
    BoundValuesArePlain(Split(HeaderOf(c), ';'), DEFAULTS);
  }

  /** A user arrives unchanged exactly when the id contains neither separator. */
  lemma RoundTripIff(c: Context)
    requires FromUser(c)
    ensures Hop(c) == Some(c) <==> ';' !in c.id && '=' !in c.id
  {
    if Plain(c.id) {
      PlainHop(c);
    } else if Hop(c).Some? {
      HopGivesPlainId(c);
    }
  }

  /**
   Over any number of hops: a plain user never changes, and any user that survives the
   first hop is from then on a fixed point with the original level and flag.
   */
  lemma {:induction false} HopsSettle(c: Context, n: nat)
    requires FromUser(c)
    ensures Plain(c.id) ==> Hops(c, n) == Some(c)
    ensures n >= 1 ==> Hops(c, n) == Hop(c)
    ensures Hops(c, n).Some? ==> Hops(c, n).value.level == c.level && Hops(c, n).value.isAuthenticated == c.isAuthenticated
    decreases n
  {
    if n > 0 && Hop(c).Some? {
      HopGivesPlainId(c);
      HopsSettle(Hop(c).value, n - 1);
      if Plain(c.id) {
        PlainHop(c);
      }
    } else if n > 0 && Plain(c.id) {
      PlainHop(c);
    }
  }

  // ----- users as they are constructed -----

  /** The dictionary form of a user: an inactive one is never authenticated, an active one is as constructed. */
  lemma ContextOfUser(id: string, level: int, raw: RawAuth)
    ensures level < 100 ==> ToContext(User(id, level, raw)) == Some(Context(id, level, 0))
    ensures level >= 100 && raw == Flag(true) ==> ToContext(User(id, level, raw)) == Some(Context(id, level, 1))
    ensures level >= 100 && raw == Flag(false) ==> ToContext(User(id, level, raw)) == Some(Context(id, level, 0))
    ensures level >= 100 && raw.Number? ==> ToContext(User(id, level, raw)) == Some(Context(id, level, raw.number))
    ensures forall n: int :: level >= 100 && raw == Written(Decimal(n)) ==> ToContext(User(id, level, raw)) == Some(Context(id, level, n))
  {
    forall n: int | level >= 100 && raw == Written(Decimal(n))
      ensures ToContext(User(id, level, raw)) == Some(Context(id, level, n))
    {
      ParseOfDecimal(n);
    }
  }

  /**
   A signed-in user with a plain id stays signed in: after any number of hops the context
   still says 1, and the next service parses a user with the same id and level that answers 1.
   A user constructed as not authenticated, or below level 100, answers 0 everywhere.
   */
  lemma ConstructedUserTravels(id: string, level: int, flag: bool, n: nat)
    requires ';' !in id && '=' !in id
    ensures var answer := if flag && level >= 100 then 1 else 0;
            && ToContext(User(id, level, Flag(flag))) == Some(Context(id, level, answer))
            && Hops(Context(id, level, answer), n) == Some(Context(id, level, answer))
            && var parsed := ParseUser(HeaderOf(Context(id, level, answer)));
               && parsed.Ok? && parsed.value.id == id && parsed.value.level == level
               && IsAuthenticated(parsed.value) == Some(answer)
  {
    hide Decimal, HeaderOf, ParseInt;
    ContextOfUser(id, level, Flag(flag));
    var c := ToContext(User(id, level, Flag(flag))).value;
    HopsSettle(c, n);
    PlainHop(c);
    LevelAndFlagSurvive(c);
    ParseOfDecimal(c.isAuthenticated);
  }

  lemma DefaultLevel()
    ensures ParseInt("-1") == Some(-1)
  {
    assert "-1" == Decimal(-1) by {
      assert Decimal(-1) == "-" + Digits(1) && Digits(1) == ['1'];
    }
    ParseOfDecimal(-1);
  }

  /** Without a header the user is anonymous; a header that binds only a plain id leaves level -1 and no authentication. */
  lemma UnboundIsAnonymous(id: string)
    requires ';' !in id && '=' !in id
    ensures ParseUser("") == Ok(User("", -1, Flag(false)))
    ensures ParseUser("id=" + id) == Ok(User(id, -1, Flag(false)))
  {
    DefaultLevel();
    hide Split, Decimal, ParseInt;
    SplitWhole("", ';');
    var none: seq<string> := [];
    assert [""][1..] == none;
    assert BindAll([""], DEFAULTS) == Ok(DEFAULTS);
    SplitWhole("id=" + id, ';');
    assert "id" + "=" == "id=";
    BindPair("id", id, "", "", DEFAULTS);
  }
}
