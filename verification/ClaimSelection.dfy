/**
 Selecting claims (dcql/meta.go, dcql/values.go, OpenID4VP 1.0 sections 6.3 and 6.4.1).

 The Wallet selects paths on the credential it holds; the Verifier evaluates the same query on what a
 presentation discloses, in which array elements are missing, so it reads each index as a Wildcard.
 Disclosed says what a presentation is: the credential, less the members and elements not kept. What
 the Wallet selected satisfies the Verifier exactly when the disclosed elements beside it are of the
 kinds the path selects from.
 */
module ClaimSelection {
  import opened Wrappers
  import opened ClaimsPaths

  datatype ClaimsQuery = ClaimsQuery(id: string, path: Path, values: seq<Json>)

  /** A Credential Query for an SD-JWT VC: its meta's vct_values, claims and claim_sets. */
  datatype CredentialQuery =
    CredentialQuery(vctValues: seq<string>, claims: seq<ClaimsQuery>, claimSets: seq<seq<string>>)

  datatype SelectionError =
    | NotPresent(path: Path)
    | NoRequestedValue(path: Path)
    | UnknownClaim(id: string)
    | NoOptionSatisfied(last: SelectionError)
    | WrongType

  type Presence = Path -> Result<seq<Json>, PathError>

  // ---- One claim ----

  predicate ValueEquals(got: Json, want: Json) {
    (want.String? || want.Bool? || want.Number?) && got == want
  }

  predicate AnyValueMatches(selected: seq<Json>, want: seq<Json>) {
    exists got, w | got in selected && w in want :: ValueEquals(got, w)
  }

  /** Why cl isn't there, if it isn't. */
  function PresentAt(cl: ClaimsQuery, present: Presence): Option<SelectionError> {
    match present(cl.path)
    case Failure(_) => Some(NotPresent(cl.path))
    case Success(selected) =>
      if cl.values != [] && !AnyValueMatches(selected, cl.values) then Some(NoRequestedValue(cl.path)) else None
  }

  // ---- The selection, without loops or memo ----

  function AllPaths(claims: seq<ClaimsQuery>, present: Presence): Result<seq<Path>, SelectionError> {
    if claims == [] then Success([])
    else
      match AllPaths(claims[..|claims| - 1], present)
      case Failure(error) => Failure(error)
      case Success(paths) =>
        var cl := claims[|claims| - 1];
        match PresentAt(cl, present)
        case Some(error) => Failure(error)
        case None => Success(paths + [cl.path])
  }

  /** The claims by their ids, the last of several with one id. */
  function ById(claims: seq<ClaimsQuery>): (byId: map<string, ClaimsQuery>)
    ensures forall id | id in byId :: byId[id].id == id && byId[id] in claims
  {
    if claims == [] then map[]
    else
      var cl := claims[|claims| - 1];
      ById(claims[..|claims| - 1])[cl.id := cl]
  }

  /** The claims option names, or why they can't be had. */
  function OptionClaims(option: seq<string>, byId: map<string, ClaimsQuery>, present: Presence)
    : Result<seq<ClaimsQuery>, SelectionError>
  {
    if option == [] then Success([])
    else
      match OptionClaims(option[..|option| - 1], byId, present)
      case Failure(error) => Failure(error)
      case Success(claims) =>
        var id := option[|option| - 1];
        if id !in byId then Failure(UnknownClaim(id))
        else
          match PresentAt(byId[id], present)
          case Some(error) => Failure(error)
          case None => Success(claims + [byId[id]])
  }

  function PathsOf(claims: seq<ClaimsQuery>): seq<Path> {
    seq(|claims|, i requires 0 <= i < |claims| => claims[i].path)
  }

  /** The paths of the first option that can be had whole. */
  function FirstOption(options: seq<seq<string>>, byId: map<string, ClaimsQuery>, present: Presence)
    : Option<seq<Path>>
  {
    if options == [] then None
    else
      match OptionClaims(options[0], byId, present)
      case Success(claims) => Some(PathsOf(claims))
      case Failure(_) => FirstOption(options[1..], byId, present)
  }

  function SelectedPaths(c: CredentialQuery, present: Presence): Option<seq<Path>> {
    if c.claimSets == [] then
      match AllPaths(c.claims, present)
      case Success(paths) => Some(paths)
      case Failure(_) => None
    else FirstOption(c.claimSets, ById(c.claims), present)
  }

  /** An SD-JWT VC's types: its vct, then its aka_vcts, of those that are non-empty strings. */
  function TypeOf(v: Json): seq<string> {
    if v.String? && v.s != "" then [v.s] else []
  }

  function TypesOf(items: seq<Json>): seq<string> {
    if items == [] then [] else TypesOf(items[..|items| - 1]) + TypeOf(items[|items| - 1])
  }

  function CredentialTypes(claims: map<string, Json>): seq<string> {
    (if "vct" in claims then TypeOf(claims["vct"]) else [])
    + (if "aka_vcts" in claims && claims["aka_vcts"].Array? then TypesOf(claims["aka_vcts"].items) else [])
  }

  predicate TypeAccepted(c: CredentialQuery, claims: map<string, Json>) {
    c.vctValues == [] || exists t | t in CredentialTypes(claims) :: t in c.vctValues
  }

  function Evaluated(claims: map<string, Json>): Presence {
    (p: Path) => Select(p, Object(claims))
  }

  function EvaluatedWidened(claims: map<string, Json>): Presence {
    (p: Path) => Select(Widen(p), Object(claims))
  }

  /** What the Wallet selects on the credential it holds. */
  function WalletSelection(c: CredentialQuery, claims: map<string, Json>): Option<seq<Path>> {
    if TypeAccepted(c, claims) then SelectedPaths(c, Evaluated(claims)) else None
  }

  /** Whether the Verifier accepts what a presentation discloses. */
  predicate VerifierSatisfied(c: CredentialQuery, claims: map<string, Json>) {
    TypeAccepted(c, claims) && SelectedPaths(c, EvaluatedWidened(claims)).Some?
  }

  // ---- What is selected, said of the credential itself ----

  /** cl's path is there and, where it lists values, a string, boolean or number there is one of them. */
  ghost predicate Had(cl: ClaimsQuery, present: Presence) {
    && present(cl.path).Success?
    && (cl.values == [] || exists v | v in present(cl.path).value :: v in cl.values && (v.String? || v.Bool? || v.Number?))
  }

  /** p's evaluation in root succeeds and, where values are listed, some location it selects holds one of them. */
  ghost predicate Holds(p: Path, values: seq<Json>, root: Json) {
    && Select(p, root).Success?
    && (values == [] || exists at | Selects(p, root, at) ::
          exists v | v in values :: ValueAt(root, at) == Some(v) && (v.String? || v.Bool? || v.Number?))
  }

  /** The claim that id names: the last of claims with that id. */
  ghost predicate NamedBy(claims: seq<ClaimsQuery>, id: string, i: nat) {
    i < |claims| && claims[i].id == id && forall j | i < j < |claims| :: claims[j].id != id
  }

  /** Every id of option names a claim, and that claim is had. */
  ghost predicate AllHad(claims: seq<ClaimsQuery>, option: seq<string>, present: Presence) {
    forall id | id in option :: exists i: nat :: NamedBy(claims, id, i) && Had(claims[i], present)
  }

  /** Of options, the kth is the first all of whose claims are had. */
  ghost predicate FirstHad(c: CredentialQuery, present: Presence, k: nat) {
    && k < |c.claimSets| && AllHad(c.claims, c.claimSets[k], present)
    && forall j | 0 <= j < k :: !AllHad(c.claims, c.claimSets[j], present)
  }

  /** paths are those of the claims that option's ids name, in its order. */
  ghost predicate PathsNamed(claims: seq<ClaimsQuery>, option: seq<string>, paths: seq<Path>) {
    |paths| == |option| && forall k | 0 <= k < |option| :: PathNamed(claims, option[k], paths[k])
  }

  ghost predicate PathNamed(claims: seq<ClaimsQuery>, id: string, path: Path) {
    exists i: nat :: NamedBy(claims, id, i) && claims[i].path == path
  }

  /** One of a credential's types, its vct or one of its aka_vcts, is among those asked for, if any are. */
  ghost predicate HasType(c: CredentialQuery, claims: map<string, Json>) {
    c.vctValues == []
    || exists t | t in c.vctValues && t != "" ::
         || ("vct" in claims && claims["vct"] == String(t))
         || ("aka_vcts" in claims && claims["aka_vcts"].Array? && String(t) in claims["aka_vcts"].items)
  }

  lemma PresentIffHad(cl: ClaimsQuery, present: Presence)
    ensures PresentAt(cl, present).None? <==> Had(cl, present)
  {
    if Had(cl, present) && cl.values != [] {
      var v :| v in present(cl.path).value && v in cl.values && (v.String? || v.Bool? || v.Number?);
      assert ValueEquals(v, v);
    }
  }

  lemma HadIffHolds(cl: ClaimsQuery, claims: map<string, Json>)
    ensures Had(cl, Evaluated(claims)) <==> Holds(cl.path, cl.values, Object(claims))
    ensures Had(cl, EvaluatedWidened(claims)) <==> Holds(Widen(cl.path), cl.values, Object(claims))
  {
    hide Select, Selects, ValueAt, Widen;
    SelectMeaning(cl.path, Object(claims));
    SelectMeaning(Widen(cl.path), Object(claims));
  }

  lemma {:induction false} ByIdFinds(claims: seq<ClaimsQuery>, id: string, i: nat)
    requires NamedBy(claims, id, i)
    ensures id in ById(claims) && ById(claims)[id] == claims[i]
  {
    if i < |claims| - 1 {
      ByIdFinds(claims[..|claims| - 1], id, i);
    }
  }

  lemma {:induction false} ByIdNamed(claims: seq<ClaimsQuery>, id: string) returns (i: nat)
    requires id in ById(claims)
    ensures NamedBy(claims, id, i)
  {
    if claims[|claims| - 1].id == id {
      i := |claims| - 1;
    } else {
      i := ByIdNamed(claims[..|claims| - 1], id);
    }
  }

  /** Looked up by its id, a claim is the last of those with that id. */
  lemma ByIdNames(claims: seq<ClaimsQuery>, id: string)
    ensures id in ById(claims) <==> exists i: nat :: NamedBy(claims, id, i)
    ensures forall i: nat | NamedBy(claims, id, i) :: id in ById(claims) && i < |claims| && ById(claims)[id] == claims[i]
  {
    hide ById;
    if id in ById(claims) {
      var i := ByIdNamed(claims, id);
    }
    forall i: nat | NamedBy(claims, id, i) ensures id in ById(claims) && i < |claims| && ById(claims)[id] == claims[i] {
      ByIdFinds(claims, id, i);
    }
  }

  lemma {:induction false} TypesOfMeaning(items: seq<Json>, t: string)
    ensures t in TypesOf(items) <==> t != "" && String(t) in items
  {
    if items != [] {
      var init, last := items[..|items| - 1], items[|items| - 1];
      TypesOfMeaning(init, t);
      assert items == init + [last];
    }
  }

  lemma TypeAcceptedIff(c: CredentialQuery, claims: map<string, Json>)
    ensures TypeAccepted(c, claims) <==> HasType(c, claims)
  {
    TypesAre(claims);
  }

  /** A credential's types are its vct and the strings of its aka_vcts, less the empty string. */
  lemma TypesAre(claims: map<string, Json>)
    ensures forall t :: t in CredentialTypes(claims) <==>
              t != "" && (("vct" in claims && claims["vct"] == String(t))
                          || ("aka_vcts" in claims && claims["aka_vcts"].Array? && String(t) in claims["aka_vcts"].items))
  {
    if "aka_vcts" in claims && claims["aka_vcts"].Array? {
      forall t ensures t in TypesOf(claims["aka_vcts"].items) <==> t != "" && String(t) in claims["aka_vcts"].items {
        TypesOfMeaning(claims["aka_vcts"].items, t);
      }
    }
  }

  // ---- What a presentation discloses ----

  /** keep's locations at or within step, from there. */
  function Below(keep: set<Location>, step: Step): set<Location> {
    set at | at in keep && at != [] && at[0] == step :: at[1..]
  }

  /** v with only the members and elements at locations keep holds, within those it holds. */
  function Disclosed(v: Json, keep: set<Location>): Json
    decreases v, 0
  {
    match v
    case Object(members) =>
      Object(map k | k in members && [Member(k)] in keep :: Disclosed(members[k], Below(keep, Member(k))))
    case Array(items) => Array(DisclosedItems(v, keep, |items|))
    case _ => v
  }

  /** The disclosed ones of v's first n elements. */
  function DisclosedItems(v: Json, keep: set<Location>, n: nat): seq<Json>
    requires v.Array? && n <= |v.items|
    decreases v, 0, n
  {
    if n == 0 then []
    else
      DisclosedItems(v, keep, n - 1)
      + if [Item(n - 1)] in keep then [Disclosed(v.items[n - 1], Below(keep, Item(n - 1)))] else []
  }

  /** What a presentation of a credential's claims that keeps keep discloses. */
  function Presented(claims: map<string, Json>, keep: set<Location>): map<string, Json> {
    Disclosed(Object(claims), keep).members
  }

  /** keep holds at and every location around it. */
  predicate KeptThrough(keep: set<Location>, at: Location) {
    forall k | 0 < k <= |at| :: at[..k] in keep
  }

  ghost predicate Keeps(keep: set<Location>, p: Path, root: Json) {
    forall at | Selects(p, root, at) :: KeptThrough(keep, at)
  }

  lemma KeptBelow(keep: set<Location>, at: Location)
    requires at != [] && KeptThrough(keep, at)
    ensures [at[0]] in keep && KeptThrough(Below(keep, at[0]), at[1..])
  {
    assert at[..1] == [at[0]];
    forall k | 0 < k <= |at[1..]| ensures at[1..][..k] in Below(keep, at[0]) {
      assert at[..k + 1] in keep && at[..k + 1][1..] == at[1..][..k];
    }
  }

  /** Where a kept element went: after the kept ones before it. */
  lemma {:induction false} DisclosedItemAt(v: Json, keep: set<Location>, i: nat, n: nat)
    requires v.Array? && i < n <= |v.items| && [Item(i)] in keep
    ensures |DisclosedItems(v, keep, i)| < |DisclosedItems(v, keep, n)|
    ensures DisclosedItems(v, keep, n)[|DisclosedItems(v, keep, i)|] == Disclosed(v.items[i], Below(keep, Item(i)))
  {
    if i < n - 1 {
      DisclosedItemAt(v, keep, i, n - 1);
    }
  }

  /** How many elements before the ith keep keeps. */
  function Rank(keep: set<Location>, i: nat): nat {
    |set j: nat | j < i && [Item(j)] in keep|
  }

  /** Where what keep keeps at a location goes: an element after the kept ones before it. */
  function Place(keep: set<Location>, at: Location): Location
    decreases at
  {
    if at == [] then []
    else [if at[0].Item? then Item(Rank(keep, at[0].index)) else at[0]] + Place(Below(keep, at[0]), at[1..])
  }

  lemma RankNext(keep: set<Location>, i: nat)
    ensures Rank(keep, i + 1) == Rank(keep, i) + if [Item(i)] in keep then 1 else 0
  {
    var before, now := set j: nat | j < i && [Item(j)] in keep, set j: nat | j < i + 1 && [Item(j)] in keep;
    assert now == if [Item(i)] in keep then before + {i} else before;
  }

  lemma {:induction false} DisclosedCount(v: Json, keep: set<Location>, n: nat)
    requires v.Array? && n <= |v.items|
    ensures |DisclosedItems(v, keep, n)| == Rank(keep, n)
  {
    hide Disclosed, Rank;
    if n > 0 {
      DisclosedCount(v, keep, n - 1);
      RankNext(keep, n - 1);
    } else {
      assert Rank(keep, 0) == 0 by { RankOfNone(keep); }
    }
  }

  lemma RankOfNone(keep: set<Location>)
    ensures Rank(keep, 0) == 0
  {
    assert (set j: nat | j < 0 && [Item(j)] in keep) == {};
  }

  lemma {:induction false} ElementCameFrom(v: Json, keep: set<Location>, j: nat, n: nat) returns (i: nat)
    requires v.Array? && n <= |v.items| && j < |DisclosedItems(v, keep, n)|
    ensures i < n && [Item(i)] in keep && Rank(keep, i) == j
    ensures DisclosedItems(v, keep, n)[j] == Disclosed(v.items[i], Below(keep, Item(i)))
  {
    hide Disclosed, Rank;
    if j < |DisclosedItems(v, keep, n - 1)| {
      i := ElementCameFrom(v, keep, j, n - 1);
    } else {
      i := n - 1;
      DisclosedCount(v, keep, n - 1);
    }
  }

  /**
   A presentation discloses nothing else: whatever it has anywhere was in the credential, of the same kind
   and the same if a scalar, at a location kept with all around it, and the kept elements keep their order.
   */
  lemma {:induction false} OnlyKeptDisclosed(v: Json, keep: set<Location>, image: Location) returns (at: Location)
    requires ValueAt(Disclosed(v, keep), image).Some?
    ensures ValueAt(v, at).Some? && KeptThrough(keep, at) && Place(keep, at) == image
    ensures var was, now := ValueAt(v, at).value, ValueAt(Disclosed(v, keep), image).value;
            if was.Array? then now.Array? else if was.Object? then now.Object? else now == was
    decreases image
  {
    if image == [] {
      at := [];
    } else {
      var step := image[0];
      if step.Item? {
        var i := ElementCameFrom(v, keep, step.index, |v.items|);
        step := Item(i);
      }
      var below := OnlyKeptDisclosed(Child(v, step).value, Below(keep, step), image[1..]);
      at := [step] + below;
      assert at[1..] == below;
      KeptAround(keep, step, below);
    }
  }

  lemma KeptAround(keep: set<Location>, step: Step, below: Location)
    requires [step] in keep && KeptThrough(Below(keep, step), below)
    ensures KeptThrough(keep, [step] + below)
  {
    var at := [step] + below;
    forall k | 0 < k <= |at| ensures at[..k] in keep {
      if k > 1 {
        assert below[..k - 1] in Below(keep, step);
        var kept :| kept in keep && kept != [] && kept[0] == step && kept[1..] == below[..k - 1];
        assert at[..k] == [step] + below[..k - 1] == kept;
      } else {
        assert at[..k] == [step];
      }
    }
  }

  /** The value a kept step reaches is disclosed, where the step goes. */
  lemma ChildDisclosed(v: Json, keep: set<Location>, step: Step)
    requires Child(v, step).Some? && [step] in keep
    ensures Child(Disclosed(v, keep), if step.Item? then Item(Rank(keep, step.index)) else step)
         == Some(Disclosed(Child(v, step).value, Below(keep, step)))
  {
    hide Rank, Below;
    if step.Item? {
      DisclosedItemAt(v, keep, step.index, |v.items|);
      DisclosedCount(v, keep, step.index);
    }
  }

  /** A kept location is disclosed, at one the widened path means, and a scalar there as it was. */
  lemma {:induction false} KeptIsDisclosed(p: Path, v: Json, keep: set<Location>, at: Location) returns (image: Location)
    requires Selects(p, v, at) && KeptThrough(keep, at)
    ensures Selects(Widen(p), Disclosed(v, keep), image) && image == Place(keep, at)
    ensures var was, now := ValueAt(v, at).value, ValueAt(Disclosed(v, keep), image).value;
            !was.Array? && !was.Object? ==> now == was
    decreases at
  {
    hide Rank, Below;
    if at == [] {
      image := [];
    } else {
      hide Disclosed, KeptThrough;
      KeptBelow(keep, at);
      var child := Child(v, at[0]).value;
      var below := KeptIsDisclosed(p[1..], child, Below(keep, at[0]), at[1..]);
      ChildDisclosed(v, keep, at[0]);
      var step := if at[0].Item? then Item(Rank(keep, at[0].index)) else at[0];
      image := [step] + below;
      assert image[1..] == below && Widen(p)[1..] == Widen(p[1..]);
    }
  }

  /** A selected path that was kept is present to the Verifier exactly when what it crosses is of the right kinds. */
  lemma KeptPathPresent(cl: ClaimsQuery, claims: map<string, Json>, keep: set<Location>)
    requires PresentAt(cl, Evaluated(claims)).None? && Keeps(keep, cl.path, Object(claims))
    ensures var presented := Presented(claims, keep);
            PresentAt(cl, EvaluatedWidened(presented)).None? <==> WellShaped(Widen(cl.path), Object(presented))
  {
    hide Select, WellShaped, Disclosed, Place, KeptThrough;
    var root, presented := Object(claims), Object(Presented(claims, keep));
    SelectMeaning(cl.path, root);
    SelectMeaning(Widen(cl.path), presented);
    var at :| Selects(cl.path, root, at);
    if cl.values != [] {
      var got, w :| got in Select(cl.path, root).value && w in cl.values && ValueEquals(got, w);
      at :| Selects(cl.path, root, at) && ValueAt(root, at) == Some(got);
    }
    var image := KeptIsDisclosed(cl.path, root, keep, at);
    assert ValueAt(presented, image).Some?;
  }

  lemma {:induction false} AllPathsPresent(claims: seq<ClaimsQuery>, present: Presence)
    ensures AllPaths(claims, present).Success? <==> forall cl | cl in claims :: PresentAt(cl, present).None?
    ensures AllPaths(claims, present).Success? ==> AllPaths(claims, present).value == PathsOf(claims)
  {
    if claims != [] {
      var init := claims[..|claims| - 1];
      AllPathsPresent(init, present);
      assert claims == init + [claims[|claims| - 1]];
    }
  }

  lemma {:induction false} OptionClaimsPresent(option: seq<string>, byId: map<string, ClaimsQuery>, present: Presence)
    ensures OptionClaims(option, byId, present).Success?
       <==> forall id | id in option :: id in byId && PresentAt(byId[id], present).None?
    ensures OptionClaims(option, byId, present).Success? ==>
              var claims := OptionClaims(option, byId, present).value;
              |claims| == |option| && forall i | 0 <= i < |option| :: option[i] in byId && claims[i] == byId[option[i]]
  {
    if option != [] {
      var init := option[..|option| - 1];
      OptionClaimsPresent(init, byId, present);
      assert option == init + [option[|option| - 1]];
    }
  }

  lemma {:induction false} FirstOptionFound(options: seq<seq<string>>, byId: map<string, ClaimsQuery>, present: Presence)
    returns (option: seq<string>)
    requires FirstOption(options, byId, present).Some?
    ensures option in options && OptionClaims(option, byId, present).Success?
    ensures FirstOption(options, byId, present).value == PathsOf(OptionClaims(option, byId, present).value)
  {
    if OptionClaims(options[0], byId, present).Success? {
      option := options[0];
    } else {
      option := FirstOptionFound(options[1..], byId, present);
    }
  }

  lemma {:induction false} FirstOptionFinds(
    options: seq<seq<string>>, byId: map<string, ClaimsQuery>, present: Presence, option: seq<string>
  )
    requires option in options && OptionClaims(option, byId, present).Success?
    ensures FirstOption(options, byId, present).Some?
  {
    if option != options[0] {
      FirstOptionFinds(options[1..], byId, present, option);
    }
  }

  lemma OptionHadIff(claims: seq<ClaimsQuery>, option: seq<string>, present: Presence)
    ensures OptionClaims(option, ById(claims), present).Success? <==> AllHad(claims, option, present)
    ensures OptionClaims(option, ById(claims), present).Success? ==>
              PathsNamed(claims, option, PathsOf(OptionClaims(option, ById(claims), present).value))
  {
    hide Had, PresentAt, ById, OptionClaims;
    OptionClaimsPresent(option, ById(claims), present);
    forall id ensures id in ById(claims) && PresentAt(ById(claims)[id], present).None?
                 <==> exists i: nat :: NamedBy(claims, id, i) && Had(claims[i], present)
    {
      ByIdNames(claims, id);
      if id in ById(claims) {
        PresentIffHad(ById(claims)[id], present);
      }
    }
    if OptionClaims(option, ById(claims), present).Success? {
      var paths := PathsOf(OptionClaims(option, ById(claims), present).value);
      forall k | 0 <= k < |option| ensures PathNamed(claims, option[k], paths[k]) {
        ByIdNames(claims, option[k]);
        var i: nat :| NamedBy(claims, option[k], i);
        assert claims[i].path == paths[k];
      }
    }
  }

  lemma {:induction false} FirstOptionIsFirst(
    claims: seq<ClaimsQuery>, options: seq<seq<string>>, present: Presence, k: nat
  )
    requires k < |options| && AllHad(claims, options[k], present)
    requires forall j | 0 <= j < k :: !AllHad(claims, options[j], present)
    ensures FirstOption(options, ById(claims), present).Some?
    ensures PathsNamed(claims, options[k], FirstOption(options, ById(claims), present).value)
  {
    hide AllHad, PathsNamed, OptionClaims, ById;
    OptionHadIff(claims, options[0], present);
    if k > 0 {
      assert forall j | 0 <= j < k - 1 :: options[1..][j] == options[j + 1];
      FirstOptionIsFirst(claims, options[1..], present, k - 1);
    }
  }

  lemma {:induction false} FirstHadExists(c: CredentialQuery, present: Presence, k: nat) returns (first: nat)
    requires k < |c.claimSets| && AllHad(c.claims, c.claimSets[k], present)
    ensures FirstHad(c, present, first)
  {
    hide AllHad;
    if j: nat :| j < k && AllHad(c.claims, c.claimSets[j], present) {
      first := FirstHadExists(c, present, j);
    } else {
      first := k;
    }
  }

  /** What is selected: every claim if each is had; or the paths of the first option all of whose claims are. */
  lemma SelectedIff(c: CredentialQuery, present: Presence)
    ensures c.claimSets == [] ==>
              && (SelectedPaths(c, present).Some? <==> forall cl | cl in c.claims :: Had(cl, present))
              && (SelectedPaths(c, present).Some? ==> SelectedPaths(c, present).value == PathsOf(c.claims))
    ensures c.claimSets != [] ==>
              && (SelectedPaths(c, present).Some? <==>
                    exists option | option in c.claimSets :: AllHad(c.claims, option, present))
              && (forall k: nat | FirstHad(c, present, k) ::
                    SelectedPaths(c, present).Some? && PathsNamed(c.claims, c.claimSets[k], SelectedPaths(c, present).value))
  {
    hide Had, PresentAt, AllHad, PathsNamed, OptionClaims, ById, AllPaths, FirstOption;
    if c.claimSets == [] {
      AllPathsPresent(c.claims, present);
      forall cl ensures PresentAt(cl, present).None? <==> Had(cl, present) {
        PresentIffHad(cl, present);
      }
    } else {
      if SelectedPaths(c, present).Some? {
        var option := FirstOptionFound(c.claimSets, ById(c.claims), present);
        OptionHadIff(c.claims, option, present);
      }
      if option :| option in c.claimSets && AllHad(c.claims, option, present) {
        var k: nat :| k < |c.claimSets| && c.claimSets[k] == option;
        var first := FirstHadExists(c, present, k);
        FirstOptionIsFirst(c.claims, c.claimSets, present, first);
      }
      forall k: nat | FirstHad(c, present, k)
        ensures SelectedPaths(c, present).Some? && PathsNamed(c.claims, c.claimSets[k], SelectedPaths(c, present).value)
      {
        FirstOptionIsFirst(c.claims, c.claimSets, present, k);
      }
    }
  }

  /** Each id of option names a claim that the credential holds, its path widened for the Verifier. */
  ghost predicate OptionHolds(c: CredentialQuery, option: seq<string>, claims: map<string, Json>, widened: bool) {
    forall id | id in option :: exists i: nat :: NamedBy(c.claims, id, i) && ClaimHolds(c.claims[i], claims, widened)
  }

  ghost predicate ClaimHolds(cl: ClaimsQuery, claims: map<string, Json>, widened: bool) {
    Holds(if widened then Widen(cl.path) else cl.path, cl.values, Object(claims))
  }

  lemma OptionHoldsIff(c: CredentialQuery, option: seq<string>, claims: map<string, Json>)
    ensures AllHad(c.claims, option, Evaluated(claims)) <==> OptionHolds(c, option, claims, false)
    ensures AllHad(c.claims, option, EvaluatedWidened(claims)) <==> OptionHolds(c, option, claims, true)
  {
    hide Had, Holds, Evaluated, EvaluatedWidened;
    forall cl ensures Had(cl, Evaluated(claims)) <==> ClaimHolds(cl, claims, false)
              ensures Had(cl, EvaluatedWidened(claims)) <==> ClaimHolds(cl, claims, true)
    {
      HadIffHolds(cl, claims);
    }
  }

  /**
   The Wallet selects from a credential exactly when it has a type asked for and holds every claim, or with
   claim_sets every claim of some option: it selects the first such option's paths, or all without
   claim_sets. A claim is held where its path succeeds and some location it selects holds a value it lists.
   */
  lemma WalletSelectsIff(c: CredentialQuery, claims: map<string, Json>)
    ensures c.claimSets == [] ==>
              && (WalletSelection(c, claims).Some? <==>
                    HasType(c, claims) && forall cl | cl in c.claims :: Holds(cl.path, cl.values, Object(claims)))
              && (WalletSelection(c, claims).Some? ==>
                    && |WalletSelection(c, claims).value| == |c.claims|
                    && forall i | 0 <= i < |c.claims| :: WalletSelection(c, claims).value[i] == c.claims[i].path)
    ensures c.claimSets != [] ==>
              && (WalletSelection(c, claims).Some? <==>
                    HasType(c, claims) && exists option | option in c.claimSets :: OptionHolds(c, option, claims, false))
              && (forall k: nat | HasType(c, claims) && k < |c.claimSets| && OptionHolds(c, c.claimSets[k], claims, false)
                              && (forall j | 0 <= j < k :: !OptionHolds(c, c.claimSets[j], claims, false)) ::
                    && WalletSelection(c, claims).Some?
                    && PathsNamed(c.claims, c.claimSets[k], WalletSelection(c, claims).value))
  {
    hide Had, Holds, AllHad, OptionHolds, PathsNamed, HasType, TypeAccepted, SelectedPaths, Evaluated;
    TypeAcceptedIff(c, claims);
    SelectedIff(c, Evaluated(claims));
    forall option ensures AllHad(c.claims, option, Evaluated(claims)) <==> OptionHolds(c, option, claims, false) {
      OptionHoldsIff(c, option, claims);
    }
    forall cl ensures Had(cl, Evaluated(claims)) <==> Holds(cl.path, cl.values, Object(claims)) {
      HadIffHolds(cl, claims);
    }
  }

  /** The Verifier accepts exactly what has a type asked for and holds those claims along the widened paths. */
  lemma VerifierSatisfiedIff(c: CredentialQuery, claims: map<string, Json>)
    ensures VerifierSatisfied(c, claims) <==>
              && HasType(c, claims)
              && if c.claimSets == [] then forall cl | cl in c.claims :: Holds(Widen(cl.path), cl.values, Object(claims))
                 else exists option | option in c.claimSets :: OptionHolds(c, option, claims, true)
  {
    hide Had, Holds, AllHad, OptionHolds, PathsNamed, HasType, TypeAccepted, SelectedPaths, EvaluatedWidened;
    TypeAcceptedIff(c, claims);
    SelectedIff(c, EvaluatedWidened(claims));
    forall option ensures AllHad(c.claims, option, EvaluatedWidened(claims)) <==> OptionHolds(c, option, claims, true) {
      OptionHoldsIff(c, option, claims);
    }
    forall cl ensures Had(cl, EvaluatedWidened(claims)) <==> Holds(Widen(cl.path), cl.values, Object(claims)) {
      HadIffHolds(cl, claims);
    }
  }

  /** keep discloses the credential's types whole. */
  predicate KeepsTypes(keep: set<Location>, claims: map<string, Json>) {
    && [Member("vct")] in keep && [Member("aka_vcts")] in keep
    && ("aka_vcts" in claims && claims["aka_vcts"].Array? ==>
          forall i | 0 <= i < |claims["aka_vcts"].items| :: [Member("aka_vcts"), Item(i)] in keep)
  }

  lemma TypeDisclosed(v: Json, keep: set<Location>)
    ensures TypeOf(Disclosed(v, keep)) == TypeOf(v)
  {
  }

  lemma {:induction false} TypesOfDisclosed(v: Json, keep: set<Location>, n: nat)
    requires v.Array? && n <= |v.items| && forall i | 0 <= i < n :: [Item(i)] in keep
    ensures TypesOf(DisclosedItems(v, keep, n)) == TypesOf(v.items[..n])
  {
    hide Disclosed, TypeOf;
    if n > 0 {
      TypesOfDisclosed(v, keep, n - 1);
      assert v.items[..n][..n - 1] == v.items[..n - 1];
      var before, last := DisclosedItems(v, keep, n - 1), Disclosed(v.items[n - 1], Below(keep, Item(n - 1)));
      TypeDisclosed(v.items[n - 1], Below(keep, Item(n - 1)));
      assert DisclosedItems(v, keep, n) == before + [last];
      assert (before + [last])[..|before|] == before;
    }
  }

  lemma MemberDisclosed(claims: map<string, Json>, keep: set<Location>, k: string)
    ensures var members := Presented(claims, keep);
            && (k in members <==> k in claims && [Member(k)] in keep)
            && (k in members ==> members[k] == Disclosed(claims[k], Below(keep, Member(k))))
  {
  }

  lemma ArrayDisclosed(v: Json, keep: set<Location>)
    ensures Disclosed(v, keep).Array? <==> v.Array?
    ensures v.Array? ==> Disclosed(v, keep).items == DisclosedItems(v, keep, |v.items|)
  {
  }

  lemma TypesDisclosed(claims: map<string, Json>, keep: set<Location>)
    requires KeepsTypes(keep, claims)
    ensures CredentialTypes(Presented(claims, keep)) == CredentialTypes(claims)
  {
    hide Presented, Disclosed, DisclosedItems, TypeOf, TypesOf;
    MemberDisclosed(claims, keep, "vct");
    MemberDisclosed(claims, keep, "aka_vcts");
    if "vct" in claims {
      TypeDisclosed(claims["vct"], Below(keep, Member("vct")));
    }
    if "aka_vcts" in claims {
      var v := claims["aka_vcts"];
      var below := Below(keep, Member("aka_vcts"));
      ArrayDisclosed(v, below);
      if v.Array? {
        forall i | 0 <= i < |v.items| ensures [Item(i)] in below {
          assert [Member("aka_vcts"), Item(i)][1..] == [Item(i)];
        }
        TypesOfDisclosed(v, below, |v.items|);
        assert v.items[..|v.items|] == v.items;
      }
    }
  }

  /** A selection stands where every claim it was made of is present too. */
  lemma SelectionTransfers(c: CredentialQuery, held: Presence, seen: Presence)
    requires SelectedPaths(c, held).Some?
    requires forall cl | PresentAt(cl, held).None? && cl.path in SelectedPaths(c, held).value :: PresentAt(cl, seen).None?
    ensures SelectedPaths(c, seen).Some?
  {
    if c.claimSets == [] {
      AllPathsPresent(c.claims, held);
      AllPathsPresent(c.claims, seen);
      forall cl | cl in c.claims ensures PresentAt(cl, seen).None? {
        var i :| 0 <= i < |c.claims| && c.claims[i] == cl;
        assert PathsOf(c.claims)[i] == cl.path;
      }
    } else {
      var byId := ById(c.claims);
      var option := FirstOptionFound(c.claimSets, byId, held);
      OptionClaimsPresent(option, byId, held);
      OptionClaimsPresent(option, byId, seen);
      var chosen := OptionClaims(option, byId, held).value;
      forall id | id in option ensures PresentAt(byId[id], seen).None? {
        var i :| 0 <= i < |option| && option[i] == id;
        assert PathsOf(chosen)[i] == byId[id].path;
      }
      FirstOptionFinds(c.claimSets, byId, seen, option);
    }
  }

  /**
   What the Wallet selects, the Verifier accepts: of any presentation that keeps the selected paths and
   the types, if what the widened paths cross in it is of the right kinds. The Verifier may find an
   earlier claim_sets option satisfied.
   */
  lemma SelectionSatisfiesVerifier(c: CredentialQuery, claims: map<string, Json>, keep: set<Location>)
    requires WalletSelection(c, claims).Some? && KeepsTypes(keep, claims)
    requires forall p | p in WalletSelection(c, claims).value ::
               Keeps(keep, p, Object(claims)) && WellShaped(Widen(p), Object(Presented(claims, keep)))
    ensures VerifierSatisfied(c, Presented(claims, keep))
  {
    hide Presented, Select, CredentialTypes, WellShaped, Keeps, KeepsTypes, PresentAt, AllPaths;
    TypesDisclosed(claims, keep);
    var held, seen := Evaluated(claims), EvaluatedWidened(Presented(claims, keep));
    forall cl | PresentAt(cl, held).None? && cl.path in SelectedPaths(c, held).value
      ensures PresentAt(cl, seen).None?
    {
      KeptPathPresent(cl, claims, keep);
    }
    SelectionTransfers(c, held, seen);
  }

  /** Without claim_sets, that is also needed: the Verifier accepts exactly the well-shaped presentations. */
  lemma SatisfiedIffWellShaped(c: CredentialQuery, claims: map<string, Json>, keep: set<Location>)
    requires c.claimSets == [] && WalletSelection(c, claims).Some? && KeepsTypes(keep, claims)
    requires forall p | p in WalletSelection(c, claims).value :: Keeps(keep, p, Object(claims))
    ensures VerifierSatisfied(c, Presented(claims, keep))
       <==> forall p | p in WalletSelection(c, claims).value :: WellShaped(Widen(p), Object(Presented(claims, keep)))
  {
    hide Presented, Select, CredentialTypes, WellShaped, Keeps, KeepsTypes, PresentAt, AllPaths;
    var presented := Presented(claims, keep);
    AllPathsPresent(c.claims, Evaluated(claims));
    AllPathsPresent(c.claims, EvaluatedWidened(presented));
    TypesDisclosed(claims, keep);
    if VerifierSatisfied(c, presented) {
      forall p | p in WalletSelection(c, claims).value ensures WellShaped(Widen(p), Object(Presented(claims, keep))) {
        var i :| 0 <= i < |c.claims| && c.claims[i].path == p;
        KeptPathPresent(c.claims[i], claims, keep);
      }
    }
    if forall p | p in WalletSelection(c, claims).value :: WellShaped(Widen(p), Object(Presented(claims, keep))) {
      SelectionSatisfiesVerifier(c, claims, keep);
    }
  }

  /** option's claims are all known and present. */
  predicate OptionPresent(c: CredentialQuery, option: seq<string>, present: Presence) {
    forall id | id in option :: id in ById(c.claims) && PresentAt(ById(c.claims)[id], present).None?
  }

  lemma SomeOptionPresent(c: CredentialQuery, present: Presence)
    requires c.claimSets != []
    ensures SelectedPaths(c, present).Some? <==> exists option | option in c.claimSets :: OptionPresent(c, option, present)
  {
    var byId := ById(c.claims);
    if SelectedPaths(c, present).Some? {
      var option := FirstOptionFound(c.claimSets, byId, present);
      OptionClaimsPresent(option, byId, present);
      assert OptionPresent(c, option, present);
    }
    if option :| option in c.claimSets && OptionPresent(c, option, present) {
      OptionClaimsPresent(option, byId, present);
      FirstOptionFinds(c.claimSets, byId, present, option);
    }
  }

  /**
   With claim_sets, a presentation of what the Wallet selected is accepted exactly when some option has
   all its claims present to the Verifier; and the option the Wallet selected has exactly when what its
   widened paths cross is of the right kinds. So it is refused when neither that one is well shaped nor
   another option is present.
   */
  lemma SatisfiedIffSomeOption(c: CredentialQuery, claims: map<string, Json>, keep: set<Location>) returns (chosen: seq<string>)
    requires c.claimSets != [] && WalletSelection(c, claims).Some? && KeepsTypes(keep, claims)
    requires forall p | p in WalletSelection(c, claims).value :: Keeps(keep, p, Object(claims))
    ensures chosen in c.claimSets && OptionPresent(c, chosen, Evaluated(claims))
    ensures var seen := EvaluatedWidened(Presented(claims, keep));
            && (VerifierSatisfied(c, Presented(claims, keep))
                <==> exists option | option in c.claimSets :: OptionPresent(c, option, seen))
            && (OptionPresent(c, chosen, seen)
                <==> forall p | p in WalletSelection(c, claims).value :: WellShaped(Widen(p), Object(Presented(claims, keep))))
  {
    hide Presented, Select, CredentialTypes, WellShaped, Keeps, KeepsTypes, PresentAt, ById;
    TypesDisclosed(claims, keep);
    var presented, byId := Presented(claims, keep), ById(c.claims);
    SomeOptionPresent(c, EvaluatedWidened(presented));
    chosen := FirstOptionFound(c.claimSets, byId, Evaluated(claims));
    OptionClaimsPresent(chosen, byId, Evaluated(claims));
    ChosenPaths(c, claims, chosen);
    forall id | id in chosen
      ensures PresentAt(byId[id], EvaluatedWidened(presented)).None? <==> WellShaped(Widen(byId[id].path), Object(presented))
    {
      KeptPathPresent(byId[id], claims, keep);
    }
  }

  /** The Wallet's paths are those of the option it chose. */
  lemma ChosenPaths(c: CredentialQuery, claims: map<string, Json>, chosen: seq<string>)
    requires c.claimSets != [] && WalletSelection(c, claims).Some? && OptionPresent(c, chosen, Evaluated(claims))
    requires OptionClaims(chosen, ById(c.claims), Evaluated(claims)).Success?
    requires WalletSelection(c, claims).value == PathsOf(OptionClaims(chosen, ById(c.claims), Evaluated(claims)).value)
    ensures forall p :: p in WalletSelection(c, claims).value <==> exists id | id in chosen :: ById(c.claims)[id].path == p
  {
    hide Select, CredentialTypes, PresentAt, ById, WalletSelection;
    var byId, paths := ById(c.claims), WalletSelection(c, claims).value;
    OptionClaimsPresent(chosen, byId, Evaluated(claims));
    forall p ensures p in paths <==> exists id | id in chosen :: byId[id].path == p {
      if p in paths {
        var i :| 0 <= i < |paths| && paths[i] == p;
        assert chosen[i] in chosen && byId[chosen[i]].path == p;
      }
      if id :| id in chosen && byId[id].path == p {
        var i :| 0 <= i < |chosen| && chosen[i] == id;
        assert paths[i] == p;
      }
    }
  }

  /** A whole credential the Wallet can present and the Verifier refuses, for an element beside the selected one. */
  lemma WholeCredentialRefused()
    ensures var p := [Key("degrees"), Index(1), Key("type")];
            var c := CredentialQuery([], [ClaimsQuery("", p, [])], []);
            var claims := map["degrees" := Array([Null, Object(map["type" := Null])])];
            WalletSelection(c, claims) == Some([p]) && !VerifierSatisfied(c, claims)
  {
    hide SelectFrom, Walk, Select;
    var cl := ClaimsQuery("", [Key("degrees"), Index(1), Key("type")], []);
    var degrees := Array([Null, Object(map["type" := Null])]);
    var root := Object(map["degrees" := degrees]);
    assert [cl][..0] == [] && [] + [cl.path] == [cl.path];
    WalkNothing(root);
    SelectFromSingle(Key("degrees"), root);
    WalkExtended([], Key("degrees"), root, [root]);
    assert [] + [Key("degrees")] == [Key("degrees")];
    SelectFromSingle(Index(1), degrees);
    WalkExtended([Key("degrees")], Index(1), root, [degrees]);
    assert [Key("degrees")] + [Index(1)] == [Key("degrees"), Index(1)];
    SelectFromSingle(Key("type"), degrees.items[1]);
    WalkExtended([Key("degrees"), Index(1)], Key("type"), root, [degrees.items[1]]);
    assert [Key("degrees"), Index(1)] + [Key("type")] == cl.path;
    SelectFromSingle(Wildcard, degrees);
    WalkExtended([Key("degrees")], Wildcard, root, [degrees]);
    assert [Key("degrees")] + [Wildcard] == [Key("degrees"), Wildcard];
    SelectFromEach(Key("type"), degrees.items);
    assert Null in degrees.items;
    WalkExtended([Key("degrees"), Wildcard], Key("type"), root, degrees.items);
    assert [Key("degrees"), Wildcard] + [Key("type")] == Widen(cl.path);
  }

  lemma WalkNothing(root: Json)
    ensures Walk([], [root]) == Success([root])
  {
  }

  // ---- The code ----

  lemma NextType(items: seq<Json>, k: nat)
    requires k < |items|
    ensures TypesOf(items[..k + 1]) == TypesOf(items[..k]) + TypeOf(items[k])
  {
    assert items[..k + 1][..k] == items[..k];
  }

  method ReadCredentialTypes(claims: map<string, Json>) returns (types: seq<string>)
    ensures types == CredentialTypes(claims)
    ensures forall t :: t in types <==>
              t != "" && (("vct" in claims && claims["vct"] == String(t))
                          || ("aka_vcts" in claims && claims["aka_vcts"].Array? && String(t) in claims["aka_vcts"].items))
  {
    hide TypesOf;
    TypesAre(claims);
    types := [];
    if "vct" in claims && claims["vct"].String? && claims["vct"].s != "" {
      types := types + [claims["vct"].s];
    }
    if "aka_vcts" in claims && claims["aka_vcts"].Array? {
      var aka := claims["aka_vcts"].items;
      ghost var before := types;
      NoTypes(aka);
      for k := 0 to |aka|
        invariant types == before + TypesOf(aka[..k])
      {
        NextType(aka, k);
        if aka[k].String? && aka[k].s != "" {
          types := types + [aka[k].s];
        }
      }
      assert aka[..|aka|] == aka;
    }
  }

  lemma NoTypes(items: seq<Json>)
    ensures TypesOf(items[..0]) == []
  {
  }

  /** Checks one option, looking each claim up at most once over all options. */
  method ClaimSetOptionPaths(
    option: seq<string>, byId: map<string, ClaimsQuery>, checked: map<string, Option<SelectionError>>, present: Presence
  ) returns (r: Result<seq<Path>, SelectionError>, memo: map<string, Option<SelectionError>>)
    requires forall id | id in byId :: byId[id].id == id
    requires forall id | id in checked :: id in byId && checked[id] == PresentAt(byId[id], present)
    ensures forall id | id in memo :: id in byId && memo[id] == PresentAt(byId[id], present)
    ensures match OptionClaims(option, byId, present)
            case Success(claims) => r == Success(PathsOf(claims))
            case Failure(error) => r == Failure(error)
  {
    memo := checked;
    var paths: seq<Path> := [];
    for k := 0 to |option|
      invariant forall id | id in memo :: id in byId && memo[id] == PresentAt(byId[id], present)
      invariant OptionClaims(option[..k], byId, present).Success?
      invariant paths == PathsOf(OptionClaims(option[..k], byId, present).value)
    {
      assert option[..k + 1][..k] == option[..k];
      var id := option[k];
      if id !in byId {
        OptionFailsEarly(option, byId, present, k + 1);
        return Failure(UnknownClaim(id)), memo;
      }
      var cl := byId[id];
      if cl.id !in memo {
        memo := memo[cl.id := PresentAt(cl, present)];
      }
      if memo[cl.id].Some? {
        OptionFailsEarly(option, byId, present, k + 1);
        return Failure(memo[cl.id].value), memo;
      }
      paths := paths + [cl.path];
    }
    assert option[..|option|] == option;
    r := Success(paths);
  }

  lemma {:induction false} OptionFailsEarly(option: seq<string>, byId: map<string, ClaimsQuery>, present: Presence, k: nat)
    requires k <= |option| && OptionClaims(option[..k], byId, present).Failure?
    ensures OptionClaims(option, byId, present) == OptionClaims(option[..k], byId, present)
  {
    if k == |option| {
      assert option[..k] == option;
    } else {
      assert option[..|option| - 1][..k] == option[..k];
      OptionFailsEarly(option[..|option| - 1], byId, present, k);
    }
  }

  /** selectedClaimPaths, with its memo, selects what the selection without one does. */
  method SelectClaimPaths(c: CredentialQuery, present: Presence) returns (r: Result<seq<Path>, SelectionError>)
    ensures r.Success? <==> SelectedPaths(c, present).Some?
    ensures r.Success? ==> r.value == SelectedPaths(c, present).value
    ensures c.claimSets == [] ==>
              && (r.Success? <==> forall cl | cl in c.claims :: Had(cl, present))
              && (r.Success? ==> r.value == PathsOf(c.claims))
              && (r.Failure? ==> exists cl | cl in c.claims && !Had(cl, present) ::
                    r.error == if present(cl.path).Success? then NoRequestedValue(cl.path) else NotPresent(cl.path))
    ensures c.claimSets != [] ==>
              && (r.Success? <==> exists option | option in c.claimSets :: AllHad(c.claims, option, present))
              && (forall k: nat | FirstHad(c, present, k) :: r.Success? && PathsNamed(c.claims, c.claimSets[k], r.value))
  {
    hide Had, AllHad, PathsNamed, FirstHad, ValueEquals, AnyValueMatches;
    SelectedIff(c, present);
    if |c.claimSets| == 0 {
      var paths: seq<Path> := [];
      AllPathsPresent(c.claims, present);
      for k := 0 to |c.claims|
        invariant paths == PathsOf(c.claims)[..k]
        invariant forall cl | cl in c.claims[..k] :: PresentAt(cl, present).None?
      {
        var missing := PresentAt(c.claims[k], present);
        PresentIffHad(c.claims[k], present);
        if missing.Some? {
          return Failure(missing.value);
        }
        paths := paths + [c.claims[k].path];
      }
      return Success(paths);
    }
    var byId: map<string, ClaimsQuery> := map[];
    for k := 0 to |c.claims|
      invariant byId == ById(c.claims[..k])
    {
      assert c.claims[..k + 1][..k] == c.claims[..k];
      byId := byId[c.claims[k].id := c.claims[k]];
    }
    assert c.claims[..|c.claims|] == c.claims;
    var checked: map<string, Option<SelectionError>> := map[];
    var last := WrongType;
    for k := 0 to |c.claimSets|
      invariant forall id | id in checked :: id in byId && checked[id] == PresentAt(byId[id], present)
      invariant FirstOption(c.claimSets, byId, present) == FirstOption(c.claimSets[k..], byId, present)
    {
      assert c.claimSets[k..][0] == c.claimSets[k] && c.claimSets[k..][1..] == c.claimSets[k + 1..];
      var option;
      option, checked := ClaimSetOptionPaths(c.claimSets[k], byId, checked, present);
      match option {
        case Success(paths) => return Success(paths);
        case Failure(error) => last := error;
      }
    }
    return Failure(NoOptionSatisfied(last));
  }
}
