/**
 openid_credential authorization details: their form and their narrowing (authorization_details_rar.go,
 metadata.go), and what a Credential Request gets under a token that carries them
 (issuer/credential_endpoint.go).

 An absent list means everything: a detail without locations is good at any Credential Issuer, one
 without claims asks for every claim, and one without identifiers names a configuration's credentials
 whole. The lemmas give narrowing its meaning: what the narrower token resolves, the wider one does.
 */
module AuthorizationDetails {
  import opened Wrappers

  const OPENID_CREDENTIAL := "openid_credential"

  /** A step of a claims path; Malformed is any JSON value a path can't have. */
  datatype Element = Name(name: string) | Index(index: nat) | Every | Malformed

  datatype Description = Description(path: seq<Element>, mandatory: Option<bool>, display: Option<seq<string>>)

  /** A list that is absent is None, which is not the empty list. */
  datatype Detail = Detail(
    kind: string, configuration: string, identifiers: Option<seq<string>>, locations: Option<seq<string>>,
    claims: Option<seq<Description>>)

  function Items<T>(list: Option<seq<T>>): seq<T> {
    if list.Some? then list.value else []
  }

  // ---- The form of a detail ----

  predicate PathValid(path: seq<Element>) {
    path != [] && Malformed !in path
  }

  predicate Distinct<T(==)>(s: seq<T>) {
    forall i, j | 0 <= i < j < |s| :: s[i] != s[j]
  }

  function Paths(claims: seq<Description>): seq<seq<Element>> {
    seq(|claims|, i requires 0 <= i < |claims| => claims[i].path)
  }

  /** Every path is a claims path and none is described twice. */
  ghost predicate Described(claims: seq<Description>) {
    Distinct(Paths(claims)) && forall c | c in claims :: PathValid(c.path)
  }

  method ValidateClaimsDescriptions(claims: seq<Description>) returns (ok: bool)
    ensures ok <==> Described(claims)
    ensures ok <==> forall i | 0 <= i < |claims| ::
              && claims[i].path != [] && (forall e | e in claims[i].path :: !e.Malformed?)
              && forall j | 0 <= j < i :: claims[j].path != claims[i].path
  {
    var paths: set<seq<Element>> := {};
    for i := 0 to |claims|
      invariant forall p :: p in paths <==> exists j | 0 <= j < i :: claims[j].path == p
      invariant forall j | 0 <= j < i :: PathValid(claims[j].path)
      invariant forall j, k | 0 <= j < k < i :: claims[j].path != claims[k].path
    {
      var path := claims[i].path;
      if path == [] || Malformed in path {
        assert !PathValid(claims[i].path) && claims[i] in claims;
        return false;
      }
      if path in paths {
        var j :| 0 <= j < i && claims[j].path == path;
        assert Paths(claims)[j] == Paths(claims)[i];
        return false;
      }
      paths := paths + {path};
    }
    return true;
  }

  /** A configuration is named, what is present is not empty, and nothing is empty or listed twice in it. */
  ghost predicate WellFormed(d: Detail) {
    && d.configuration != ""
    && d.identifiers != Some([]) && d.locations != Some([]) && d.claims != Some([])
    && "" !in Items(d.locations)
    && Described(Items(d.claims))
    && "" !in Items(d.identifiers) && Distinct(Items(d.identifiers))
  }

  method Validate(d: Detail) returns (ok: bool)
    ensures ok <==> WellFormed(d)
    ensures ok ==>
              && d.configuration != ""
              && (d.identifiers.Some? ==> |d.identifiers.value| > 0) && (d.locations.Some? ==> |d.locations.value| > 0)
              && (d.claims.Some? ==> |d.claims.value| > 0)
              && !Listed(d.identifiers, "") && !Listed(d.locations, "")
              && (d.identifiers.Some? ==>
                    forall i, j | 0 <= i < j < |d.identifiers.value| :: d.identifiers.value[i] != d.identifiers.value[j])
              && (forall c | Listed(d.claims, c) :: c.path != [] && forall e | e in c.path :: !e.Malformed?)
              && (d.claims.Some? ==>
                    forall i, j | 0 <= i < j < |d.claims.value| :: d.claims.value[i].path != d.claims.value[j].path)
    ensures !ok ==>
              || d.configuration == "" || d.identifiers == Some([]) || d.locations == Some([]) || d.claims == Some([])
              || Listed(d.identifiers, "") || Listed(d.locations, "")
              || (exists i, j | 0 <= i < j < |Items(d.identifiers)| :: Items(d.identifiers)[i] == Items(d.identifiers)[j])
              || (exists c | Listed(d.claims, c) :: c.path == [] || exists e | e in c.path :: e.Malformed?)
              || (exists i, j | 0 <= i < j < |Items(d.claims)| :: Items(d.claims)[i].path == Items(d.claims)[j].path)
  {
    if d.configuration == "" || d.identifiers == Some([]) || d.locations == Some([]) || d.claims == Some([]) {
      return false;
    }
    var locations, identifiers := Items(d.locations), Items(d.identifiers);
    for i := 0 to |locations|
      invariant "" !in locations[..i]
    {
      if locations[i] == "" {
        return false;
      }
    }
    assert locations[..|locations|] == locations;
    var described := ValidateClaimsDescriptions(Items(d.claims));
    if !described {
      return false;
    }
    for i := 0 to |identifiers|
      invariant "" !in identifiers[..i] && Distinct(identifiers[..i])
    {
      if identifiers[i] == "" || identifiers[i] in identifiers[..i] {
        return false;
      }
      assert identifiers[..i + 1] == identifiers[..i] + [identifiers[i]];
    }
    assert identifiers[..|identifiers|] == identifiers;
    return true;
  }

  // ---- Narrowing ----

  predicate SubsetOf<T(==)>(sub: seq<T>, super: seq<T>) {
    forall x | x in sub :: x in super
  }

  /** Where wider lists some, narrower keeps at least one of them, and no others. */
  predicate Keeps<T(==)>(narrower: seq<T>, wider: seq<T>) {
    !(|wider| > 0 && |narrower| == 0) && SubsetOf(narrower, wider)
  }

  /** validateNarrowerAuthorizationDetail accepts; both objects are of the definition's one type. */
  predicate Narrower(wider: Detail, narrower: Detail, mayAddIdentifiers: bool) {
    && narrower.kind == wider.kind
    && narrower.configuration == wider.configuration
    && Keeps(Items(narrower.locations), Items(wider.locations))
    && Keeps(Items(narrower.claims), Items(wider.claims))
    && (mayAddIdentifiers || Keeps(Items(narrower.identifiers), Items(wider.identifiers)))
  }

  /** What a granted object may be, against the requested one. */
  predicate GrantValid(requested: Detail, granted: Detail) {
    Narrower(requested, granted, |Items(requested.identifiers)| == 0)
  }

  /** What a token request's object may be, against the granted one. */
  predicate NarrowingValid(granted: Detail, narrowed: Detail) {
    Narrower(granted, narrowed, false)
  }

  predicate Listed<T(==)>(list: Option<seq<T>>, x: T) {
    list.Some? && x in list.value
  }

  /** narrower lists nothing wider doesn't, and something where wider does. */
  ghost predicate ListsWithin<T(!new)>(narrower: Option<seq<T>>, wider: Option<seq<T>>) {
    && (forall x | Listed(narrower, x) :: Listed(wider, x))
    && ((exists x :: Listed(wider, x)) ==> exists x :: Listed(narrower, x))
  }

  lemma KeepsIff<T(!new)>(narrower: Option<seq<T>>, wider: Option<seq<T>>)
    ensures Keeps(Items(narrower), Items(wider)) <==> ListsWithin(narrower, wider)
  {
    if |Items(narrower)| > 0 {
      assert Listed(narrower, Items(narrower)[0]);
    }
    if |Items(wider)| > 0 {
      assert Listed(wider, Items(wider)[0]);
    }
    assert forall x :: x in Items(narrower) <==> Listed(narrower, x);
    assert forall x :: x in Items(wider) <==> Listed(wider, x);
  }

  /**
   A token request's object is accepted exactly when it is of the granted one's type and configuration and
   of each list keeps some members, whichever, or has none where the granted one has none. A granted object
   is exactly when it is so related to the requested one, but for identifiers where none were requested.
   */
  lemma NarrowingIff(wider: Detail, narrower: Detail)
    ensures NarrowingValid(wider, narrower) <==>
              && narrower.kind == wider.kind && narrower.configuration == wider.configuration
              && ListsWithin(narrower.locations, wider.locations) && ListsWithin(narrower.claims, wider.claims)
              && ListsWithin(narrower.identifiers, wider.identifiers)
    ensures GrantValid(wider, narrower) <==>
              && narrower.kind == wider.kind && narrower.configuration == wider.configuration
              && ListsWithin(narrower.locations, wider.locations) && ListsWithin(narrower.claims, wider.claims)
              && ((exists x :: Listed(wider.identifiers, x)) ==> ListsWithin(narrower.identifiers, wider.identifiers))
  {
    hide ListsWithin, Keeps;
    KeepsIff(narrower.locations, wider.locations);
    KeepsIff(narrower.claims, wider.claims);
    KeepsIff(narrower.identifiers, wider.identifiers);
    if |Items(wider.identifiers)| > 0 {
      assert Listed(wider.identifiers, wider.identifiers.value[0]);
    }
  }

  /** Narrowing is reflexive and transitive, and what narrows a grant is a grant of the request too. */
  lemma NarrowingIsAPreorder(requested: Detail, a: Detail, b: Detail, c: Detail)
    ensures NarrowingValid(a, a) && GrantValid(a, a)
    ensures NarrowingValid(a, b) && NarrowingValid(b, c) ==> NarrowingValid(a, c)
    ensures GrantValid(requested, a) && NarrowingValid(a, b) ==> GrantValid(requested, b)
  {
  }

  // ---- What a token lets a Credential Request have ----

  /** A Credential Issuer: its identifier, whether it lists authorization_servers, its configurations' scopes. */
  datatype Issuer = Issuer(name: string, listsServers: bool, scopes: map<string, string>)

  datatype Token = Token(details: seq<Detail>, scopes: seq<string>)

  /** An identifier or a configuration asked for, "" one that isn't. */
  datatype Request = Request(identifier: string, configuration: string)

  datatype Error = InvalidRequest | UnknownIdentifier | UnknownConfiguration | UseIdentifier | InsufficientScope

  /** d grants something here. */
  predicate ForIssuer(me: Issuer, d: Detail) {
    && d.kind == OPENID_CREDENTIAL
    && if |Items(d.locations)| == 0 then !me.listsServers else me.name in Items(d.locations)
  }

  /** d, an openid_credential object, locates this issuer, or none, which serves one that lists no servers. */
  ghost predicate Here(me: Issuer, d: Detail) {
    && d.kind == "openid_credential"
    && (Listed(d.locations, me.name) || (!me.listsServers && forall l :: !Listed(d.locations, l)))
  }

  lemma HereIff(me: Issuer, d: Detail)
    ensures Here(me, d) <==> ForIssuer(me, d)
    ensures forall x :: Listed(d.identifiers, x) <==> x in Items(d.identifiers)
  {
    if |Items(d.locations)| > 0 {
      assert Listed(d.locations, Items(d.locations)[0]);
    }
  }

  function ByIdentifier(me: Issuer, details: seq<Detail>, identifier: string): (r: Result<string, Error>)
    ensures r.Success? <==> exists d | d in details :: ForIssuer(me, d) && identifier in Items(d.identifiers)
    ensures r.Success? ==>
              exists d | d in details :: ForIssuer(me, d) && identifier in Items(d.identifiers) && d.configuration == r.value
  {
    if details == [] then Failure(UnknownIdentifier)
    else if ForIssuer(me, details[0]) && identifier in Items(details[0].identifiers) then Success(details[0].configuration)
    else ByIdentifier(me, details[1..], identifier)
  }

  /** The first detail for this issuer naming the configuration decides, and otherwise the scope. */
  function Authorized(me: Issuer, details: seq<Detail>, scopes: seq<string>, configuration: string): (r: Option<Error>)
    requires configuration in me.scopes
    ensures r == Some(UseIdentifier) ==>
              exists d | d in details :: Names(me, d, configuration) && |Items(d.identifiers)| > 0
    ensures r.None? ==>
              || (exists d | d in details :: Names(me, d, configuration) && |Items(d.identifiers)| == 0)
              || ((forall d | d in details :: !Names(me, d, configuration)) && me.scopes[configuration] in scopes)
    ensures r.Some? ==> r.value == UseIdentifier || r.value == InsufficientScope
    ensures r == Some(InsufficientScope) ==> forall d | d in details :: !Names(me, d, configuration)
  {
    if details == [] then
      if me.scopes[configuration] != "" && me.scopes[configuration] in scopes then None else Some(InsufficientScope)
    else if !Names(me, details[0], configuration) then Authorized(me, details[1..], scopes, configuration)
    else if |Items(details[0].identifiers)| > 0 then Some(UseIdentifier)
    else None
  }

  predicate Names(me: Issuer, d: Detail, configuration: string) {
    ForIssuer(me, d) && d.configuration == configuration
  }

  /** resolveCredentialConfiguration. */
  function Resolve(me: Issuer, token: Token, request: Request): Result<string, Error> {
    if request.identifier != "" && request.configuration != "" then Failure(InvalidRequest)
    else if request.identifier != "" then
      match ByIdentifier(me, token.details, request.identifier)
      case Failure(e) => Failure(e)
      case Success(c) => if c in me.scopes then Success(c) else Failure(UnknownConfiguration)
    else if request.configuration != "" then
      if request.configuration !in me.scopes then Failure(UnknownConfiguration)
      else
        match Authorized(me, token.details, token.scopes, request.configuration)
        case Some(e) => Failure(e)
        case None => Success(request.configuration)
    else Failure(InvalidRequest)
  }

  /** d is one of the details that grant request its configuration. */
  predicate Grants(me: Issuer, d: Detail, request: Request, configuration: string) {
    && Names(me, d, configuration)
    && (request.identifier != "" ==> request.identifier in Items(d.identifiers))
  }

  /** Whether claim is one the token lets request have: of a granting detail, or any if one names none. */
  ghost predicate MayHave(me: Issuer, token: Token, request: Request, configuration: string, claim: Description) {
    || (forall d | d in token.details :: !Grants(me, d, request, configuration))
    || (exists d | d in token.details :: Grants(me, d, request, configuration) && |Items(d.claims)| == 0)
    || (exists d | d in token.details :: Grants(me, d, request, configuration) && claim in Items(d.claims))
  }

  /** d is here for configuration and lists the identifier asked for, if one is. */
  ghost predicate GrantsHere(me: Issuer, d: Detail, request: Request, configuration: string) {
    && Here(me, d) && d.configuration == configuration
    && (request.identifier == "" || Listed(d.identifiers, request.identifier))
  }

  lemma GrantsIff(me: Issuer, d: Detail, request: Request, configuration: string)
    ensures Grants(me, d, request, configuration) <==> GrantsHere(me, d, request, configuration)
    ensures |Items(d.claims)| == 0 <==> forall c :: !Listed(d.claims, c)
    ensures forall c :: Listed(d.claims, c) <==> c in Items(d.claims)
  {
    HereIff(me, d);
    if |Items(d.claims)| > 0 {
      assert Listed(d.claims, Items(d.claims)[0]);
    }
  }

  lemma GrantsAllIff(me: Issuer, details: seq<Detail>, request: Request, configuration: string)
    ensures forall d | d in details ::
              && (Grants(me, d, request, configuration) <==> GrantsHere(me, d, request, configuration))
              && (|Items(d.claims)| == 0 <==> forall c :: !Listed(d.claims, c))
              && (forall c :: Listed(d.claims, c) <==> c in Items(d.claims))
  {
    hide Grants, GrantsHere, Items, Listed;
    forall d | d in details
      ensures Grants(me, d, request, configuration) <==> GrantsHere(me, d, request, configuration)
      ensures |Items(d.claims)| == 0 <==> forall c :: !Listed(d.claims, c)
      ensures forall c :: Listed(d.claims, c) <==> c in Items(d.claims)
    {
      GrantsIff(me, d, request, configuration);
    }
  }

  /** authorizedClaims; None is every claim. */
  method AuthorizedClaims(me: Issuer, token: Token, request: Request, configuration: string)
    returns (claims: Option<seq<Description>>)
    ensures forall c :: (claims.Some? ==> c in claims.value) <==> MayHave(me, token, request, configuration, c)
    ensures claims.None? <==>
              || (exists d | d in token.details :: GrantsHere(me, d, request, configuration) && forall c :: !Listed(d.claims, c))
              || (forall d | d in token.details :: !GrantsHere(me, d, request, configuration))
    ensures claims.Some? ==> forall c :: c in claims.value <==>
              exists d | d in token.details :: GrantsHere(me, d, request, configuration) && Listed(d.claims, c)
  {
    GrantsAllIff(me, token.details, request, configuration);
    hide GrantsHere, Listed;
    var granting := false;
    var listed: seq<Description> := [];
    for i := 0 to |token.details|
      invariant granting <==> exists j | 0 <= j < i :: Grants(me, token.details[j], request, configuration)
      invariant granting <==> listed != []
      invariant forall j | 0 <= j < i && Grants(me, token.details[j], request, configuration) :: |Items(token.details[j].claims)| > 0
      invariant forall c :: c in listed <==>
                  exists j | 0 <= j < i :: Grants(me, token.details[j], request, configuration) && c in Items(token.details[j].claims)
    {
      var d := token.details[i];
      if !ForIssuer(me, d) || d.configuration != configuration {
        continue;
      }
      if request.identifier != "" && request.identifier !in Items(d.identifiers) {
        continue;
      }
      if |Items(d.claims)| == 0 {
        assert d in token.details && Grants(me, d, request, configuration);
        return None;
      }
      granting := true;
      listed := listed + Items(d.claims);
    }
    claims := if listed == [] then None else Some(listed);
  }

  // ---- Narrowing never widens ----

  /** Each of narrower's details narrows one of wider's. */
  ghost predicate TokenNarrower(wider: Token, narrower: Token) {
    forall n | n in narrower.details :: exists w | w in wider.details :: NarrowingValid(w, n)
  }

  lemma TokenNarrowingReflexive(a: Token)
    ensures TokenNarrower(a, a)
  {
    forall d | d in a.details ensures exists w | w in a.details :: NarrowingValid(w, d) {
      assert NarrowingValid(d, d);
    }
  }

  /** However often a token is narrowed, it narrows the grant. */
  lemma TokenNarrowingTransitive(a: Token, b: Token, c: Token)
    requires TokenNarrower(a, b) && TokenNarrower(b, c)
    ensures TokenNarrower(a, c)
  {
    hide NarrowingValid;
    forall z | z in c.details ensures exists x | x in a.details :: NarrowingValid(x, z) {
      var y :| y in b.details && NarrowingValid(y, z);
      var x :| x in a.details && NarrowingValid(x, y);
      NarrowingIsAPreorder(x, x, y, z);
      assert NarrowingValid(x, z);
    }
  }

  /** What grants in a narrower detail grants in the wider one, and what it asks for the wider one does. */
  lemma NarrowerGrantsLess(me: Issuer, wider: Detail, narrower: Detail, request: Request, configuration: string)
    requires NarrowingValid(wider, narrower) && Grants(me, narrower, request, configuration)
    ensures Grants(me, wider, request, configuration)
    ensures |Items(narrower.claims)| == 0 ==> |Items(wider.claims)| == 0
    ensures forall c | c in Items(narrower.claims) :: c in Items(wider.claims)
    ensures |Items(narrower.identifiers)| == 0 <==> |Items(wider.identifiers)| == 0
  {
    assert forall x | x in Items(narrower.identifiers) :: x in Items(wider.identifiers);
    if |Items(narrower.identifiers)| > 0 {
      assert Items(narrower.identifiers)[0] in Items(wider.identifiers);
    }
  }

  /**
   The details for this issuer don't get in each other's way: those of one configuration all carry
   identifiers or none does, and those holding one identifier are of one configuration. So it is with one
   detail for each configuration and every identifier in one of them.
   */
  ghost predicate Orderly(me: Issuer, details: seq<Detail>) {
    forall d, e | d in details && e in details && ForIssuer(me, d) && ForIssuer(me, e) ::
      && (d.configuration == e.configuration ==> (|Items(d.identifiers)| == 0 <==> |Items(e.identifiers)| == 0))
      && (forall x | x in Items(d.identifiers) && x in Items(e.identifiers) :: d.configuration == e.configuration)
  }

  lemma OnePerConfigurationIsOrderly(me: Issuer, details: seq<Detail>)
    requires forall i, j | 0 <= i < j < |details| :: details[i].configuration != details[j].configuration
    requires forall i, j | 0 <= i < j < |details| :: forall x | x in Items(details[i].identifiers) :: x !in Items(details[j].identifiers)
    ensures Orderly(me, details)
  {
  }

  /** request was not granted by a scope. */
  ghost predicate ByDetail(me: Issuer, token: Token, request: Request, configuration: string) {
    exists d | d in token.details :: Grants(me, d, request, configuration)
  }

  lemma ResolvedIsGranted(me: Issuer, token: Token, request: Request)
    requires Resolve(me, token, request).Success?
    ensures var c := Resolve(me, token, request).value;
            && c in me.scopes
            && (request.identifier == "") != (request.configuration == "")
            && (request.configuration != "" ==> request.configuration == c)
            && (ByDetail(me, token, request, c) || (request.configuration == c && me.scopes[c] in token.scopes))
            && (request.configuration != "" && ByDetail(me, token, request, c) ==>
                  exists d | d in token.details :: Grants(me, d, request, c) && |Items(d.identifiers)| == 0)
  {
    hide Grants, ForIssuer, Names;
    var c := Resolve(me, token, request).value;
    if request.identifier != "" {
      var d :| d in token.details && ForIssuer(me, d) && request.identifier in Items(d.identifiers) && d.configuration == c;
      assert Grants(me, d, request, c) by { NamesMeans(me, d, request, c); }
    } else {
      forall d | d in token.details ensures Grants(me, d, request, c) <==> Names(me, d, c) {
        NamesMeans(me, d, request, c);
      }
    }
  }

  lemma NamesMeans(me: Issuer, d: Detail, request: Request, configuration: string)
    ensures Grants(me, d, request, configuration) <==>
            ForIssuer(me, d) && d.configuration == configuration && (request.identifier != "" ==> request.identifier in Items(d.identifiers))
    ensures Names(me, d, configuration) <==> ForIssuer(me, d) && d.configuration == configuration
  {
  }

  lemma NarrowerHasLess(me: Issuer, wider: Token, narrower: Token, request: Request, configuration: string)
    requires TokenNarrower(wider, narrower) && ByDetail(me, narrower, request, configuration)
    ensures forall claim | MayHave(me, narrower, request, configuration, claim) :: MayHave(me, wider, request, configuration, claim)
  {
    hide NarrowingValid, Grants;
    forall claim | MayHave(me, narrower, request, configuration, claim)
      ensures MayHave(me, wider, request, configuration, claim)
    {
      var m :|
        && m in narrower.details && Grants(me, m, request, configuration)
        && (|Items(m.claims)| == 0 || claim in Items(m.claims));
      var v :| v in wider.details && NarrowingValid(v, m);
      NarrowerGrantsLess(me, v, m, request, configuration);
    }
  }

  // ---- Exactly when narrowing never widens ----

  /** details[i] is the first for this issuer naming configuration. */
  ghost predicate FirstNaming(me: Issuer, details: seq<Detail>, configuration: string, i: nat) {
    && i < |details| && Names(me, details[i], configuration)
    && forall k | 0 <= k < i :: !Names(me, details[k], configuration)
  }

  predicate Holds(me: Issuer, d: Detail, identifier: string) {
    ForIssuer(me, d) && identifier in Items(d.identifiers)
  }

  /** details[i] is the first for this issuer holding identifier. */
  ghost predicate FirstHolding(me: Issuer, details: seq<Detail>, identifier: string, i: nat) {
    && i < |details| && Holds(me, details[i], identifier)
    && forall k | 0 <= k < i :: !Holds(me, details[k], identifier)
  }

  /**
   What a token's details are so that no narrowing of it widens: where the first detail naming a
   configuration has identifiers every other one naming it has, and whoever holds an identifier names
   the configuration its first holder does. Configurations the issuer doesn't support are of no account.
   */
  ghost predicate InOrder(me: Issuer, details: seq<Detail>) {
    && (forall c, i: nat, j: nat | c != "" && c in me.scopes && FirstNaming(me, details, c, i) && i < j < |details|
                         && Names(me, details[j], c) && |Items(details[i].identifiers)| > 0 ::
          |Items(details[j].identifiers)| > 0)
    && (forall x, i: nat, j: nat | x != "" && FirstHolding(me, details, x, i) && j < |details| && Holds(me, details[j], x)
                         && details[j].configuration in me.scopes ::
          details[j].configuration == details[i].configuration)
  }

  /** Nothing narrower than wider gets a request that a detail grants resolved otherwise, or with more claims. */
  ghost predicate NeverWidens(me: Issuer, wider: Token) {
    forall narrower, request | TokenNarrower(wider, narrower) && GrantedByDetail(me, narrower, request) ::
      WithinWider(me, wider, narrower, request)
  }

  ghost predicate GrantedByDetail(me: Issuer, token: Token, request: Request) {
    Resolve(me, token, request).Success? && ByDetail(me, token, request, Resolve(me, token, request).value)
  }

  ghost predicate WithinWider(me: Issuer, wider: Token, narrower: Token, request: Request) {
    && Resolve(me, wider, request) == Resolve(me, narrower, request)
    && (Resolve(me, narrower, request).Success? ==>
          var c := Resolve(me, narrower, request).value;
          forall claim | MayHave(me, narrower, request, c, claim) :: MayHave(me, wider, request, c, claim))
  }

  lemma {:induction false} FirstNamingDecides(me: Issuer, details: seq<Detail>, scopes: seq<string>, configuration: string, i: nat)
    requires configuration in me.scopes && FirstNaming(me, details, configuration, i)
    ensures Authorized(me, details, scopes, configuration)
         == if |Items(details[i].identifiers)| > 0 then Some(UseIdentifier) else None
  {
    hide Names;
    if i > 0 {
      assert FirstNaming(me, details[1..], configuration, i - 1);
      FirstNamingDecides(me, details[1..], scopes, configuration, i - 1);
    }
  }

  lemma {:induction false} FirstHoldingDecides(me: Issuer, details: seq<Detail>, identifier: string, i: nat)
    requires FirstHolding(me, details, identifier, i)
    ensures ByIdentifier(me, details, identifier) == Success(details[i].configuration)
  {
    hide ForIssuer;
    if i > 0 {
      assert !Holds(me, details[0], identifier);
      assert FirstHolding(me, details[1..], identifier, i - 1);
      FirstHoldingDecides(me, details[1..], identifier, i - 1);
    } else {
      assert Holds(me, details[0], identifier);
    }
  }

  lemma {:induction false} SomeFirstNaming(me: Issuer, details: seq<Detail>, configuration: string, j: nat) returns (i: nat)
    requires j < |details| && Names(me, details[j], configuration)
    ensures i <= j && FirstNaming(me, details, configuration, i)
  {
    hide Names;
    if k: nat :| k < j && Names(me, details[k], configuration) {
      i := SomeFirstNaming(me, details, configuration, k);
    } else {
      i := j;
    }
  }

  lemma {:induction false} SomeFirstHolding(me: Issuer, details: seq<Detail>, identifier: string, j: nat) returns (i: nat)
    requires j < |details| && Holds(me, details[j], identifier)
    ensures i <= j && FirstHolding(me, details, identifier, i)
  {
    hide Holds;
    if k: nat :| k < j && Holds(me, details[k], identifier) {
      i := SomeFirstHolding(me, details, identifier, k);
    } else {
      i := j;
    }
  }

  /** In order, a request some detail grants, with no identifiers if none was asked for, resolves to its configuration. */
  lemma GrantedInOrder(me: Issuer, token: Token, request: Request, configuration: string, d: Detail)
    requires InOrder(me, token.details) && configuration in me.scopes
    requires d in token.details && Grants(me, d, request, configuration)
    requires (request.identifier == "") != (request.configuration == "")
    requires request.configuration != "" ==> request.configuration == configuration && |Items(d.identifiers)| == 0
    ensures Resolve(me, token, request) == Success(configuration)
  {
    NamesMeans(me, d, request, configuration);
    hide Authorized, ByIdentifier, Grants, ForIssuer, Items;
    var j: nat :| j < |token.details| && token.details[j] == d;
    if request.configuration != "" {
      var i := SomeFirstNaming(me, token.details, configuration, j);
      FirstNamingDecides(me, token.details, token.scopes, configuration, i);
    } else {
      var i := SomeFirstHolding(me, token.details, request.identifier, j);
      FirstHoldingDecides(me, token.details, request.identifier, i);
    }
  }

  lemma InOrderNeverWidens(me: Issuer, wider: Token)
    requires InOrder(me, wider.details)
    ensures NeverWidens(me, wider)
  {
    hide InOrder, NarrowingValid, Grants, Resolve, MayHave;
    forall narrower, request | TokenNarrower(wider, narrower) && GrantedByDetail(me, narrower, request)
      ensures WithinWider(me, wider, narrower, request)
    {
      var c := Resolve(me, narrower, request).value;
      ResolvedIsGranted(me, narrower, request);
      var n :| n in narrower.details && Grants(me, n, request, c) && (request.configuration != "" ==> |Items(n.identifiers)| == 0);
      var w :| w in wider.details && NarrowingValid(w, n);
      NarrowerGrantsLess(me, w, n, request, c);
      GrantedInOrder(me, wider, request, c, w);
      NarrowerHasLess(me, wider, narrower, request, c);
    }
  }

  /** One detail of a token alone narrows it, and what it grants it resolves. */
  lemma DetailAlone(me: Issuer, wider: Token, j: nat, request: Request)
    requires j < |wider.details| && wider.details[j].configuration in me.scopes
    requires Grants(me, wider.details[j], request, wider.details[j].configuration)
    requires (request.identifier == "") != (request.configuration == "")
    requires request.configuration != "" ==>
               request.configuration == wider.details[j].configuration && |Items(wider.details[j].identifiers)| == 0
    ensures var alone := Token([wider.details[j]], []);
            && TokenNarrower(wider, alone) && GrantedByDetail(me, alone, request)
            && Resolve(me, alone, request) == Success(wider.details[j].configuration)
  {
    var d := wider.details[j];
    var alone := Token([d], []);
    NarrowingIsAPreorder(d, d, d, d);
    NamesMeans(me, d, request, d.configuration);
    hide NarrowingValid, Grants, ForIssuer, Names, Authorized, ByIdentifier;
    assert d in wider.details && alone.details[0] == d;
    if request.configuration != "" {
      FirstNamingDecides(me, alone.details, [], d.configuration, 0);
    } else {
      assert Holds(me, d, request.identifier);
      FirstHoldingDecides(me, alone.details, request.identifier, 0);
    }
    assert Resolve(me, alone, request) == Success(d.configuration);
    assert d in alone.details;
  }

  lemma NeverWidensInOrder(me: Issuer, wider: Token)
    requires NeverWidens(me, wider)
    ensures InOrder(me, wider.details)
  {
    hide NeverWidens, ForIssuer, MayHave, Authorized, ByIdentifier, TokenNarrower, GrantedByDetail, Items;
    var details := wider.details;
    forall c, i: nat, j: nat | c != "" && c in me.scopes && FirstNaming(me, details, c, i) && i < j < |details|
                     && Names(me, details[j], c) && |Items(details[i].identifiers)| > 0
      ensures |Items(details[j].identifiers)| > 0
    {
      if |Items(details[j].identifiers)| == 0 {
        DetailAlone(me, wider, j, Request("", c));
        Applied(me, wider, Token([details[j]], []), Request("", c));
        FirstNamingDecides(me, details, wider.scopes, c, i);
      }
    }
    forall x, i: nat, j: nat | x != "" && FirstHolding(me, details, x, i) && j < |details| && Holds(me, details[j], x)
                     && details[j].configuration in me.scopes
      ensures details[j].configuration == details[i].configuration
    {
      DetailAlone(me, wider, j, Request(x, ""));
      Applied(me, wider, Token([details[j]], []), Request(x, ""));
      FirstHoldingDecides(me, details, x, i);
    }
  }

  lemma Applied(me: Issuer, wider: Token, narrower: Token, request: Request)
    requires NeverWidens(me, wider) && TokenNarrower(wider, narrower) && GrantedByDetail(me, narrower, request)
    ensures Resolve(me, wider, request) == Resolve(me, narrower, request)
  {
    assert WithinWider(me, wider, narrower, request);
  }

  /**
   No token narrower than wider gets a request that one of its details grants resolved otherwise than
   wider does, or with a claim more, if and only if wider's details are in order.
   */
  lemma NeverWidensIffInOrder(me: Issuer, wider: Token)
    ensures NeverWidens(me, wider) <==> InOrder(me, wider.details)
  {
    if InOrder(me, wider.details) {
      InOrderNeverWidens(me, wider);
    }
    if NeverWidens(me, wider) {
      NeverWidensInOrder(me, wider);
    }
  }

  lemma OrderlyIsInOrder(me: Issuer, details: seq<Detail>)
    requires Orderly(me, details)
    ensures InOrder(me, details)
  {
    hide ForIssuer, Items;
  }

  /** Details can be in order without being orderly: the first decides, and it has no identifiers. */
  lemma InOrderNotOrderly(me: Issuer)
    requires !me.listsServers
    ensures var mixed := [PID, PID.(identifiers := Some(["a"]))];
            InOrder(me, mixed) && !Orderly(me, mixed)
  {
    var mixed := [PID, PID.(identifiers := Some(["a"]))];
    assert mixed[0] in mixed && mixed[1] in mixed;
  }

  /**
   So under a wider token whose details are orderly, a request a narrower token's detail grants resolves to
   the same configuration, and every claim it may have under the narrower token it may have under the wider.
   */
  lemma NarrowingNeverWidens(me: Issuer, wider: Token, narrower: Token, request: Request)
    requires TokenNarrower(wider, narrower) && Orderly(me, wider.details)
    requires Resolve(me, narrower, request).Success?
    requires ByDetail(me, narrower, request, Resolve(me, narrower, request).value)
    ensures Resolve(me, wider, request) == Resolve(me, narrower, request)
    ensures var c := Resolve(me, narrower, request).value;
            forall claim | MayHave(me, narrower, request, c, claim) :: MayHave(me, wider, request, c, claim)
  {
    OrderlyIsInOrder(me, wider.details);
    InOrderNeverWidens(me, wider);
    hide Orderly, InOrder, Resolve, MayHave, TokenNarrower, ByDetail;
    assert GrantedByDetail(me, narrower, request);
    assert WithinWider(me, wider, narrower, request);
  }

  /** However often a token was narrowed, what remains of it stays within a grant whose details are in order. */
  lemma NarrowedAgainStaysWithin(me: Issuer, tokens: seq<Token>, request: Request)
    requires tokens != [] && InOrder(me, tokens[0].details)
    requires forall i | 0 <= i < |tokens| - 1 :: TokenNarrower(tokens[i], tokens[i + 1])
    requires GrantedByDetail(me, tokens[|tokens| - 1], request)
    ensures WithinWider(me, tokens[0], tokens[|tokens| - 1], request)
  {
    NarrowedAgain(tokens);
    InOrderNeverWidens(me, tokens[0]);
    hide TokenNarrower, GrantedByDetail, WithinWider, InOrder;
  }

  lemma {:induction false} NarrowedAgain(tokens: seq<Token>)
    requires tokens != [] && forall i | 0 <= i < |tokens| - 1 :: TokenNarrower(tokens[i], tokens[i + 1])
    ensures TokenNarrower(tokens[0], tokens[|tokens| - 1])
  {
    hide TokenNarrower;
    if |tokens| == 1 {
      TokenNarrowingReflexive(tokens[0]);
    } else {
      var before := tokens[..|tokens| - 1];
      NarrowedAgain(before);
      TokenNarrowingTransitive(tokens[0], before[|before| - 1], tokens[|tokens| - 1]);
    }
  }

  // ---- A request a scope grants ----

  function LongestPath(claims: seq<Description>): (n: nat)
    ensures forall c | c in claims :: |c.path| <= n
  {
    if claims == [] then 0
    else
      var rest := LongestPath(claims[1..]);
      if |claims[0].path| > rest then |claims[0].path| else rest
  }

  function LongestOf(details: seq<Detail>): (n: nat)
    ensures forall d, c | d in details && c in Items(d.claims) :: |c.path| <= n
  {
    if details == [] then 0
    else
      var first, rest := LongestPath(Items(details[0].claims)), LongestOf(details[1..]);
      if first > rest then first else rest
  }

  /** A claim none of details lists. */
  function Unlisted(details: seq<Detail>): (claim: Description)
    ensures forall d | d in details :: claim !in Items(d.claims)
  {
    Description(seq(LongestOf(details) + 1, _ => Every), None, None)
  }

  /** The first of details here that lists identifier. */
  ghost predicate FirstListing(me: Issuer, details: seq<Detail>, identifier: string, i: nat) {
    && i < |details| && Here(me, details[i]) && Listed(details[i].identifiers, identifier)
    && forall k | 0 <= k < i :: !(Here(me, details[k]) && Listed(details[k].identifiers, identifier))
  }

  /** The first of details here for configuration. */
  ghost predicate FirstFor(me: Issuer, details: seq<Detail>, configuration: string, i: nat) {
    && i < |details| && Here(me, details[i]) && details[i].configuration == configuration
    && forall k | 0 <= k < i :: !(Here(me, details[k]) && details[k].configuration == configuration)
  }

  lemma FirstsAre(me: Issuer, details: seq<Detail>, x: string, i: nat)
    ensures FirstListing(me, details, x, i) <==> FirstHolding(me, details, x, i)
    ensures FirstFor(me, details, x, i) <==> FirstNaming(me, details, x, i)
  {
    hide ForIssuer, Here, Listed, Items;
    forall d ensures Here(me, d) <==> ForIssuer(me, d)
             ensures forall y :: Listed(d.identifiers, y) <==> y in Items(d.identifiers) {
      HereIff(me, d);
    }
  }

  /**
   What a Credential Request gets, each way it may be put: by an identifier, the configuration of the first
   detail here that lists it, if supported; by a configuration, what the first detail here for it says, which
   must have no identifiers, and where there is none what the configuration's own scope does.
   */
  lemma ResolveIs(me: Issuer, token: Token, request: Request)
    ensures (request.identifier == "") == (request.configuration == "") ==> Resolve(me, token, request) == Failure(InvalidRequest)
    ensures request.identifier != "" && request.configuration == "" ==>
              && (forall i: nat | FirstListing(me, token.details, request.identifier, i) ::
                    var c := token.details[i].configuration;
                    Resolve(me, token, request) == if c in me.scopes then Success(c) else Failure(UnknownConfiguration))
              && ((forall i: nat :: !FirstListing(me, token.details, request.identifier, i)) ==>
                    Resolve(me, token, request) == Failure(UnknownIdentifier))
    ensures request.identifier == "" && request.configuration != "" ==>
              var c := request.configuration;
              && (c !in me.scopes ==> Resolve(me, token, request) == Failure(UnknownConfiguration))
              && (forall i: nat | c in me.scopes && FirstFor(me, token.details, c, i) ::
                    Resolve(me, token, request)
                    == if exists x :: Listed(token.details[i].identifiers, x) then Failure(UseIdentifier) else Success(c))
              && (c in me.scopes && (forall i: nat :: !FirstFor(me, token.details, c, i)) ==>
                    Resolve(me, token, request)
                    == if me.scopes[c] != "" && me.scopes[c] in token.scopes then Success(c) else Failure(InsufficientScope))
  {
    hide Listed, Items, FirstListing, FirstFor, FirstHolding, FirstNaming, Authorized, ByIdentifier;
    if request.identifier != "" {
      forall i: nat ensures FirstListing(me, token.details, request.identifier, i)
                       <==> FirstHolding(me, token.details, request.identifier, i) {
        FirstsAre(me, token.details, request.identifier, i);
      }
      ByIdentifierDecides(me, token.details, request.identifier);
    } else if request.configuration in me.scopes {
      var c := request.configuration;
      forall i: nat ensures FirstFor(me, token.details, c, i) <==> FirstNaming(me, token.details, c, i) {
        FirstsAre(me, token.details, c, i);
      }
      ScopeDecides(me, token, c);
      forall i: nat | FirstNaming(me, token.details, c, i)
        ensures i < |token.details|
        ensures Authorized(me, token.details, token.scopes, c)
             == if exists x :: Listed(token.details[i].identifiers, x) then Some(UseIdentifier) else None
      {
        FirstNamingDecides(me, token.details, token.scopes, c, i);
        ListsSome(me, token.details, c, i);
      }
    }
  }

  lemma ListsSome(me: Issuer, details: seq<Detail>, c: string, i: nat)
    requires FirstNaming(me, details, c, i)
    ensures i < |details| && ((exists x :: Listed(details[i].identifiers, x)) <==> |Items(details[i].identifiers)| > 0)
  {
    if |Items(details[i].identifiers)| > 0 {
      assert Listed(details[i].identifiers, Items(details[i].identifiers)[0]);
    }
  }

  lemma ByIdentifierDecides(me: Issuer, details: seq<Detail>, identifier: string)
    ensures forall i: nat | FirstHolding(me, details, identifier, i) ::
              i < |details| && ByIdentifier(me, details, identifier) == Success(details[i].configuration)
    ensures (forall i: nat :: !FirstHolding(me, details, identifier, i)) ==>
              ByIdentifier(me, details, identifier) == Failure(UnknownIdentifier)
  {
    forall i: nat | FirstHolding(me, details, identifier, i)
      ensures i < |details| && ByIdentifier(me, details, identifier) == Success(details[i].configuration)
    {
      FirstHoldingDecides(me, details, identifier, i);
    }
    hide ForIssuer, Items;
    if j: nat :| j < |details| && Holds(me, details[j], identifier) {
      var i := SomeFirstHolding(me, details, identifier, j);
    } else {
      NoneHolding(me, details, identifier);
    }
  }

  lemma {:induction false} NoneHolding(me: Issuer, details: seq<Detail>, identifier: string)
    requires forall d | d in details :: !Holds(me, d, identifier)
    ensures ByIdentifier(me, details, identifier) == Failure(UnknownIdentifier)
  {
    if details != [] {
      assert details[0] in details;
      NoneHolding(me, details[1..], identifier);
    }
  }

  /** Where no detail here is for it, a configuration's scope decides. */
  lemma ScopeDecides(me: Issuer, token: Token, configuration: string)
    requires configuration in me.scopes
    ensures (forall i: nat :: !FirstNaming(me, token.details, configuration, i)) ==>
              Authorized(me, token.details, token.scopes, configuration)
              == if me.scopes[configuration] != "" && me.scopes[configuration] in token.scopes then None else Some(InsufficientScope)
  {
    hide Names;
    if j: nat :| j < |token.details| && Names(me, token.details[j], configuration) {
      var i := SomeFirstNaming(me, token.details, configuration, j);
    } else {
      NoneFor(me, token.details, token.scopes, configuration);
    }
  }

  lemma {:induction false} NoneFor(me: Issuer, details: seq<Detail>, scopes: seq<string>, configuration: string)
    requires configuration in me.scopes && forall d | d in details :: !Names(me, d, configuration)
    ensures Authorized(me, details, scopes, configuration)
         == if me.scopes[configuration] != "" && me.scopes[configuration] in scopes then None else Some(InsufficientScope)
  {
    hide Names;
    if details != [] {
      assert details[0] in details;
      NoneFor(me, details[1..], scopes, configuration);
    }
  }

  // ---- Narrowing is granting no more ----

  function Alone(d: Detail): Token {
    Token([d], [])
  }

  /** Whatever the issuer, what narrower gets a request wider does, with every claim it may have. */
  ghost predicate GrantsNoMore(wider: Detail, narrower: Detail) {
    forall me, request | Resolve(me, Alone(narrower), request).Success? :: WithinWider(me, Alone(wider), Alone(narrower), request)
  }

  lemma AloneMayHave(me: Issuer, d: Detail, request: Request, configuration: string, claim: Description)
    requires Grants(me, d, request, configuration)
    ensures MayHave(me, Alone(d), request, configuration, claim) <==> |Items(d.claims)| == 0 || claim in Items(d.claims)
  {
    hide Grants, Items;
    assert Alone(d).details[0] == d;
  }

  /** A detail alone grants what it resolves. */
  lemma AloneGrants(me: Issuer, d: Detail, request: Request)
    requires Resolve(me, Alone(d), request).Success?
    ensures Grants(me, d, request, Resolve(me, Alone(d), request).value)
    ensures request.identifier == "" ==> |Items(d.identifiers)| == 0
    ensures d.configuration == Resolve(me, Alone(d), request).value && ForIssuer(me, d)
  {
    ResolvedIsGranted(me, Alone(d), request);
    NamesMeans(me, d, request, Resolve(me, Alone(d), request).value);
    hide Grants, Resolve, ForIssuer;
  }

  lemma NarrowerGrantsNoMore(wider: Detail, narrower: Detail)
    requires NarrowingValid(wider, narrower)
    ensures GrantsNoMore(wider, narrower)
  {
    forall me, request | Resolve(me, Alone(narrower), request).Success?
      ensures WithinWider(me, Alone(wider), Alone(narrower), request)
    {
      hide NarrowingValid, Resolve, Grants, MayHave;
      AloneGrants(me, narrower, request);
      assert Alone(wider).details[0] == wider && Alone(narrower).details[0] == narrower;
      assert Orderly(me, [wider]);
      NarrowingNeverWidens(me, Alone(wider), Alone(narrower), request);
    }
  }

  /** A request d grants at an issuer it is for: by its first identifier, if it has any, or its configuration. */
  function AskFor(d: Detail): Request {
    if |Items(d.identifiers)| > 0 then Request(Items(d.identifiers)[0], "") else Request("", d.configuration)
  }

  lemma AskedIsGranted(me: Issuer, d: Detail, request: Request)
    requires d.configuration != "" && d.configuration in me.scopes && ForIssuer(me, d)
    requires || (request.configuration == "" && request.identifier != "" && request.identifier in Items(d.identifiers))
             || (request == Request("", d.configuration) && |Items(d.identifiers)| == 0)
    ensures Resolve(me, Alone(d), request) == Success(d.configuration)
  {
  }

  /** Where narrower resolves a request at me, wider grants it too. */
  lemma WiderGrants(me: Issuer, wider: Detail, narrower: Detail, request: Request)
    requires GrantsNoMore(wider, narrower) && Resolve(me, Alone(narrower), request).Success?
    ensures var c := Resolve(me, Alone(narrower), request).value;
            && c == narrower.configuration == wider.configuration && ForIssuer(me, wider)
            && Grants(me, wider, request, c) && Grants(me, narrower, request, c)
            && (request.identifier == "" ==> |Items(wider.identifiers)| == 0)
            && (forall claim | MayHave(me, Alone(narrower), request, c, claim) :: MayHave(me, Alone(wider), request, c, claim))
  {
    hide Resolve, ForIssuer, MayHave, Grants;
    assert WithinWider(me, Alone(wider), Alone(narrower), request);
    AloneGrants(me, narrower, request);
    AloneGrants(me, wider, request);
  }

  /** An issuer narrower is for: one it locates, or else any by that name, listing no servers. */
  function SomeIssuer(d: Detail, name: string): Issuer {
    Issuer(if |Items(d.locations)| > 0 then Items(d.locations)[0] else name, |Items(d.locations)| > 0,
           map[d.configuration := ""])
  }

  function Longest(names: seq<string>): (n: nat)
    ensures forall name | name in names :: |name| <= n
  {
    if names == [] then 0
    else
      var rest := Longest(names[1..]);
      if |names[0]| > rest then |names[0]| else rest
  }

  function Elsewhere(names: seq<string>): (name: string)
    ensures name !in names
  {
    seq(Longest(names) + 1, _ => 'x')
  }

  lemma NoMoreKeepsLocations(wider: Detail, narrower: Detail)
    requires GrantsNoMore(wider, narrower) && WellFormed(narrower)
    requires narrower.kind == OPENID_CREDENTIAL
    ensures Keeps(Items(narrower.locations), Items(wider.locations)) && narrower.configuration == wider.configuration
  {
    hide GrantsNoMore, Resolve, MayHave;
    var request := AskFor(narrower);
    forall location | location in Items(narrower.locations) ensures location in Items(wider.locations) {
      var me := Issuer(location, true, map[narrower.configuration := ""]);
      AskedIsGranted(me, narrower, request);
      WiderGrants(me, wider, narrower, request);
    }
    var me := SomeIssuer(narrower, Elsewhere(Items(wider.locations)));
    AskedIsGranted(me, narrower, request);
    WiderGrants(me, wider, narrower, request);
  }

  lemma NoMoreKeepsIdentifiers(wider: Detail, narrower: Detail)
    requires GrantsNoMore(wider, narrower) && WellFormed(narrower)
    requires narrower.kind == OPENID_CREDENTIAL
    ensures Keeps(Items(narrower.identifiers), Items(wider.identifiers))
  {
    hide GrantsNoMore, Resolve, MayHave;
    var me := SomeIssuer(narrower, "");
    forall x | x in Items(narrower.identifiers) ensures x in Items(wider.identifiers) {
      AskedIsGranted(me, narrower, Request(x, ""));
      WiderGrants(me, wider, narrower, Request(x, ""));
    }
    if |Items(narrower.identifiers)| == 0 {
      AskedIsGranted(me, narrower, AskFor(narrower));
      WiderGrants(me, wider, narrower, AskFor(narrower));
    }
  }

  lemma NoMoreKeepsClaims(wider: Detail, narrower: Detail)
    requires GrantsNoMore(wider, narrower) && WellFormed(narrower)
    requires narrower.kind == OPENID_CREDENTIAL && |Items(wider.claims)| > 0
    ensures Keeps(Items(narrower.claims), Items(wider.claims))
  {
    var me, request := SomeIssuer(narrower, ""), AskFor(narrower);
    AskedIsGranted(me, narrower, request);
    hide GrantsNoMore, Resolve, MayHave, Grants;
    WiderGrants(me, wider, narrower, request);
    forall claim | |Items(narrower.claims)| == 0 || claim in Items(narrower.claims) ensures claim in Items(wider.claims) {
      AloneMayHave(me, narrower, request, narrower.configuration, claim);
      AloneMayHave(me, wider, request, narrower.configuration, claim);
    }
    assert Alone(wider).details[0] == wider;
    assert Unlisted(Alone(wider).details) !in Items(wider.claims);
  }

  /**
   An object of the same type that gets no request more than the granted one does at any issuer is
   accepted, and nothing else is, but where the granted object asks for every claim: then one that lists
   some is refused, though it gets no more.
   */
  lemma NarrowingIsGrantingNoMore(wider: Detail, narrower: Detail)
    requires narrower.kind == wider.kind == OPENID_CREDENTIAL && WellFormed(narrower)
    ensures NarrowingValid(wider, narrower) <==>
              GrantsNoMore(wider, narrower) && !(|Items(wider.claims)| == 0 && |Items(narrower.claims)| > 0)
  {
    hide GrantsNoMore, WellFormed;
    if NarrowingValid(wider, narrower) {
      NarrowerGrantsNoMore(wider, narrower);
      if |Items(narrower.claims)| > 0 {
        assert Items(narrower.claims)[0] in Items(wider.claims);
      }
    }
    if GrantsNoMore(wider, narrower) && !(|Items(wider.claims)| == 0 && |Items(narrower.claims)| > 0) {
      NoMoreKeepsLocations(wider, narrower);
      NoMoreKeepsIdentifiers(wider, narrower);
      if |Items(wider.claims)| > 0 {
        NoMoreKeepsClaims(wider, narrower);
      }
    }
  }

  /** So it is refused, of such a pair: claims listed where the grant asks for every claim, and no more granted. */
  lemma ListingClaimsIsRefused(wider: Detail, claim: Description)
    requires |Items(wider.claims)| == 0
    ensures var narrower := wider.(claims := Some([claim]));
            GrantsNoMore(wider, narrower) && !NarrowingValid(wider, narrower)
  {
    var narrower := wider.(claims := Some([claim]));
    assert claim in Items(narrower.claims);
    forall me, request | Resolve(me, Alone(narrower), request).Success?
      ensures WithinWider(me, Alone(wider), Alone(narrower), request)
    {
      AloneGrants(me, narrower, request);
      var c := narrower.configuration;
      SameResolve(me, wider, narrower, request);
      NamesMeans(me, wider, request, c);
      NamesMeans(me, narrower, request, c);
      forall other ensures MayHave(me, Alone(wider), request, c, other) {
        AloneMayHave(me, wider, request, c, other);
      }
    }
  }

  lemma SameResolve(me: Issuer, a: Detail, b: Detail, request: Request)
    requires a.(claims := b.claims) == b
    ensures Resolve(me, Alone(a), request) == Resolve(me, Alone(b), request)
  {
    assert [a][1..] == [b][1..] == [];
    assert ForIssuer(me, a) == ForIssuer(me, b);
    assert ByIdentifier(me, [a], request.identifier) == ByIdentifier(me, [b], request.identifier);
    if request.configuration in me.scopes {
      assert Authorized(me, [a], [], request.configuration) == Authorized(me, [b], [], request.configuration);
    }
  }

  /**
   Where no detail of the narrower token names a configuration its scope grants, whatever the details
   it gave up, the wider token lets the request have as much if and only if it has none naming it
   either, or the first has no identifiers and some one asks for every claim.
   */
  lemma ScopeWithinIff(me: Issuer, wider: Token, narrower: Token, configuration: string)
    requires configuration != "" && configuration in me.scopes && me.scopes[configuration] != ""
    requires me.scopes[configuration] in narrower.scopes && me.scopes[configuration] in wider.scopes
    requires forall d | d in narrower.details :: !Names(me, d, configuration)
    ensures WithinWider(me, wider, narrower, Request("", configuration)) <==>
            || (forall d | d in wider.details :: !Names(me, d, configuration))
            || ((exists i: nat :: FirstNaming(me, wider.details, configuration, i) && |Items(wider.details[i].identifiers)| == 0)
                && exists d | d in wider.details :: Names(me, d, configuration) && |Items(d.claims)| == 0)
  {
    var request := Request("", configuration);
    forall d: Detail ensures Grants(me, d, request, configuration) <==> Names(me, d, configuration) {
      NamesMeans(me, d, request, configuration);
    }
    hide Grants, Names, Items, LongestOf, Unlisted;
    NoneNamed(me, narrower, configuration);
    NoneNamed(me, wider, configuration);
    if j: nat :| j < |wider.details| && Names(me, wider.details[j], configuration) {
      var i := SomeFirstNaming(me, wider.details, configuration, j);
      FirstNamingDecides(me, wider.details, wider.scopes, configuration, i);
      assert MayHave(me, narrower, request, configuration, Unlisted(wider.details));
      assert wider.details[j] in wider.details;
    }
  }

  lemma {:induction false} NoneNamed(me: Issuer, token: Token, configuration: string)
    requires configuration in me.scopes && me.scopes[configuration] != "" && me.scopes[configuration] in token.scopes
    ensures (forall d | d in token.details :: !Names(me, d, configuration)) ==>
              Authorized(me, token.details, token.scopes, configuration) == None
    decreases |token.details|
  {
    if token.details != [] && forall d | d in token.details :: !Names(me, d, configuration) {
      var rest := Token(token.details[1..], token.scopes);
      NoneNamed(me, rest, configuration);
      assert token.details[0] in token.details;
    }
  }

  // ---- Details that are not in order, and a scope ----

  const PID := Detail(OPENID_CREDENTIAL, "pid", None, None, None)

  lemma ScopeMayHave(me: Issuer, claim: Description, other: Description)
    requires !me.listsServers && claim != other
    ensures var mdl, pid, request := PID.(configuration := "mdl"), PID.(claims := Some([claim])), Request("", "pid");
            && MayHave(me, Token([mdl], ["p"]), request, "pid", other)
            && !MayHave(me, Token([pid, mdl], ["p"]), request, "pid", other)
  {
    var mdl, pid := PID.(configuration := "mdl"), PID.(claims := Some([claim]));
    assert forall d | d in [mdl] :: d == mdl;
    assert [pid, mdl][0] == pid && Grants(me, pid, Request("", "pid"), "pid");
  }

  /** Narrowed to another configuration, a token whose scope still grants the first asks for every claim of it. */
  lemma ScopeWidens(me: Issuer, claim: Description, other: Description)
    requires !me.listsServers && "pid" in me.scopes && me.scopes["pid"] == "p" && claim != other
    ensures var mdl := PID.(configuration := "mdl");
            var wider := Token([PID.(claims := Some([claim])), mdl], ["p"]);
            var narrower := Token([mdl], ["p"]);
            var request := Request("", "pid");
            && TokenNarrower(wider, narrower) && Orderly(me, wider.details)
            && Resolve(me, narrower, request) == Success("pid")
            && MayHave(me, narrower, request, "pid", other) && !MayHave(me, wider, request, "pid", other)
  {
    hide MayHave;
    ScopeMayHave(me, claim, other);
    var mdl, pid := PID.(configuration := "mdl"), PID.(claims := Some([claim]));
    var wider, narrower := Token([pid, mdl], ["p"]), Token([mdl], ["p"]);
    assert wider.details[1] == mdl && NarrowingValid(mdl, mdl);
    assert narrower.details[1..] == [] && !Names(me, mdl, "pid");
    assert Authorized(me, narrower.details, ["p"], "pid") == None;
  }

  /** Of two details for one configuration, the first deciding, dropping the one with identifiers frees the other. */
  lemma SeveralDetailsWiden(me: Issuer)
    requires !me.listsServers && "pid" in me.scopes && me.scopes["pid"] == ""
    ensures var wider := Token([PID.(identifiers := Some(["a"])), PID], []);
            var narrower := Token([PID], []);
            var request := Request("", "pid");
            && TokenNarrower(wider, narrower)
            && Resolve(me, narrower, request) == Success("pid") && Resolve(me, wider, request) == Failure(UseIdentifier)
  {
    var wider := Token([PID.(identifiers := Some(["a"])), PID], []);
    assert wider.details[1] == PID && PID in wider.details && NarrowingValid(PID, PID);
  }

  /** An identifier two details share names another configuration once the first is dropped. */
  lemma SharedIdentifierSwitches(me: Issuer)
    requires !me.listsServers && "pid" in me.scopes && "mdl" in me.scopes
    ensures var pid := PID.(identifiers := Some(["a"]));
            var mdl := pid.(configuration := "mdl");
            var request := Request("a", "");
            && TokenNarrower(Token([pid, mdl], []), Token([mdl], []))
            && Resolve(me, Token([mdl], []), request) == Success("mdl")
            && Resolve(me, Token([pid, mdl], []), request) == Success("pid")
  {
    var pid := PID.(identifiers := Some(["a"]));
    var mdl := pid.(configuration := "mdl");
    var wider := Token([pid, mdl], []);
    assert wider.details[1] == mdl && mdl in wider.details && NarrowingValid(mdl, mdl);
  }
}
