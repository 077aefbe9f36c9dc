/**
 Pre-authorized codes (issuer/pre_authorized_code_endpoint.go, issuer/pre_authorized_offer.go and the
 store contract of issuer/pre_authorized_code_store.go).

 A Token Request redeems a code, with the Transaction Code the holder was given if the offer asked for
 one. The store checks it, counts wrong guesses, asks the issuer whether it accepts the record, and
 retires the code, all in one atomic step, which it may retry. A code is an opaque key here and a
 Transaction Code its hash, "" for none.
 */
module PreAuthorizedCodes {
  import opened Wrappers
  import opened AuthorizationDetails

  // ---- Records and requests ----

  datatype Record = Record(
    owner: string, txCodeHash: string, scopes: seq<string>, configurations: seq<string>, expiresAt: int, subject: string)

  datatype Refusal =
    | NotOurs
    | CodeExpired
    | NotGranted(configuration: string)
    | Unsupported(configuration: string)

  /** The issuer's configuration; production is AssuranceProduction. */
  datatype Config = Config(issuer: Issuer, production: bool, maxTxCodeAttempts: int)

  predicate Owns(cfg: Config, owner: string) {
    if owner == "" then !cfg.production else owner == cfg.issuer.name
  }

  /** recordGrants. */
  predicate GrantsConfiguration(cfg: Config, r: Record, configuration: string) {
    || configuration in r.configurations
    || (configuration in cfg.issuer.scopes && cfg.issuer.scopes[configuration] != ""
        && cfg.issuer.scopes[configuration] in r.scopes)
  }

  // ---- The configurations a Token Request asks for ----

  datatype Problem = WrongType | NotSupported | RequestedTwice | HasIdentifiers | OtherLocations | NoLocations

  function ProblemOf(cfg: Config, d: Detail, earlier: seq<string>): Option<Problem> {
    if d.kind != OPENID_CREDENTIAL then Some(WrongType)
    else if d.configuration !in cfg.issuer.scopes then Some(NotSupported)
    else if d.configuration in earlier then Some(RequestedTwice)
    else if |Items(d.identifiers)| > 0 then Some(HasIdentifiers)
    else if |Items(d.locations)| > 0 && cfg.issuer.name !in Items(d.locations) then Some(OtherLocations)
    else if |Items(d.locations)| == 0 && cfg.issuer.listsServers then Some(NoLocations)
    else None
  }

  /** The problem of the i-th of details, after those before it. */
  function ProblemAt(cfg: Config, details: seq<Detail>, i: nat): Option<Problem>
    requires i < |details|
  {
    ProblemOf(cfg, details[i], seq(i, j requires 0 <= j < i => details[j].configuration))
  }

  /** What problem says of the i-th of details. */
  ghost predicate Tells(cfg: Config, details: seq<Detail>, i: nat, problem: Problem)
    requires i < |details|
  {
    match problem
    case WrongType => details[i].kind != "openid_credential"
    case NotSupported => details[i].configuration !in cfg.issuer.scopes
    case RequestedTwice => exists j | 0 <= j < i :: details[j].configuration == details[i].configuration
    case HasIdentifiers => exists x :: Listed(details[i].identifiers, x)
    case OtherLocations => !Listed(details[i].locations, cfg.issuer.name) && exists l :: Listed(details[i].locations, l)
    case NoLocations => cfg.issuer.listsServers && forall l :: !Listed(details[i].locations, l)
  }

  lemma ProblemTells(cfg: Config, details: seq<Detail>, i: nat)
    requires i < |details|
    ensures ProblemAt(cfg, details, i).Some? ==> Tells(cfg, details, i, ProblemAt(cfg, details, i).value)
    ensures ProblemAt(cfg, details, i).None? <==>
              && Here(cfg.issuer, details[i]) && details[i].configuration in cfg.issuer.scopes
              && (forall x :: !Listed(details[i].identifiers, x))
              && forall j | 0 <= j < i :: details[j].configuration != details[i].configuration
  {
    var d, earlier := details[i], seq(i, j requires 0 <= j < i => details[j].configuration);
    HereIff(cfg.issuer, d);
    assert forall j | 0 <= j < i :: earlier[j] == details[j].configuration;
    if |Items(d.identifiers)| > 0 {
      assert Listed(d.identifiers, Items(d.identifiers)[0]);
    }
    if |Items(d.locations)| > 0 {
      assert Listed(d.locations, Items(d.locations)[0]);
    }
  }

  /** Refused with the first detail that has a problem; none asked for is None. */
  method RequestedConfigurations(cfg: Config, details: seq<Detail>) returns (requested: Result<Option<seq<string>>, Problem>)
    ensures requested == Success(None) <==> details == []
    ensures requested.Success? && requested.value.Some? ==>
              var ids := requested.value.value;
              && |ids| == |details| > 0 && Distinct(ids)
              && (forall i | 0 <= i < |ids| :: ids[i] == details[i].configuration && ids[i] in cfg.issuer.scopes)
              && (forall d | d in details :: ForIssuer(cfg.issuer, d) && |Items(d.identifiers)| == 0)
    ensures requested.Failure? ==>
              exists i | 0 <= i < |details| ::
                ProblemAt(cfg, details, i) == Some(requested.error) && forall j | 0 <= j < i :: ProblemAt(cfg, details, j).None?
    ensures requested.Success? <==> forall i | 0 <= i < |details| ::
              && Here(cfg.issuer, details[i]) && details[i].configuration in cfg.issuer.scopes
              && (forall x :: !Listed(details[i].identifiers, x))
              && forall j | 0 <= j < i :: details[j].configuration != details[i].configuration
    ensures requested.Failure? ==> exists i | 0 <= i < |details| :: Tells(cfg, details, i, requested.error)
  {
    hide Here, Listed, Tells;
    if details == [] {
      return Success(None);
    }
    var ids: seq<string> := [];
    for i := 0 to |details|
      invariant ids == seq(i, j requires 0 <= j < i => details[j].configuration)
      invariant Distinct(ids) && forall id | id in ids :: id in cfg.issuer.scopes
      invariant forall j | 0 <= j < i :: ForIssuer(cfg.issuer, details[j]) && |Items(details[j].identifiers)| == 0
      invariant forall j | 0 <= j < i :: ProblemAt(cfg, details, j).None?
      invariant forall j | 0 <= j < i ::
                  && Here(cfg.issuer, details[j]) && details[j].configuration in cfg.issuer.scopes
                  && (forall x :: !Listed(details[j].identifiers, x))
                  && forall k | 0 <= k < j :: details[k].configuration != details[j].configuration
    {
      var problem := ProblemOf(cfg, details[i], ids);
      assert problem == ProblemAt(cfg, details, i);
      ProblemTells(cfg, details, i);
      if problem.Some? {
        return Failure(problem.value);
      }
      ids := ids + [details[i].configuration];
    }
    return Success(Some(ids));
  }

  // ---- Accepting a record ----

  /** What a token gets for one configuration: a detail of this issuer's with one fresh identifier. */
  function Minted(cfg: Config, configuration: string, identifier: string): Detail {
    Detail(OPENID_CREDENTIAL, configuration, Some([identifier]),
           if cfg.issuer.listsServers then Some([cfg.issuer.name]) else None, None)
  }

  /** A call's randomness: its i-th identifier. */
  type Draw = nat -> string

  function MintedFor(cfg: Config, configurations: seq<string>, draw: Draw): seq<Detail> {
    seq(|configurations|, i requires 0 <= i < |configurations| => Minted(cfg, configurations[i], draw(i)))
  }

  function ToMint(r: Record, requested: Option<seq<string>>): seq<string> {
    if requested.Some? then requested.value else r.configurations
  }

  /** The first of configurations the record doesn't grant, or the issuer doesn't support. */
  function FirstOf(configurations: seq<string>, p: string -> bool): Option<string> {
    if configurations == [] then None
    else if p(configurations[0]) then Some(configurations[0])
    else FirstOf(configurations[1..], p)
  }

  /** acceptPreAuthorizedCode. */
  function Acceptance(cfg: Config, r: Record, requested: Option<seq<string>>, now: int, draw: Draw): Result<seq<Detail>, Refusal> {
    if now > r.expiresAt then Failure(CodeExpired)
    else
      var ungranted := if requested.Some? then FirstOf(requested.value, id => !GrantsConfiguration(cfg, r, id)) else None;
      var unsupported := FirstOf(ToMint(r, requested), id => id !in cfg.issuer.scopes);
      if ungranted.Some? then Failure(NotGranted(ungranted.value))
      else if unsupported.Some? then Failure(Unsupported(unsupported.value))
      else Success(MintedFor(cfg, ToMint(r, requested), draw))
  }

  /** The accept callback: a record that isn't this issuer's is refused before anything else of it is read. */
  function AcceptRecord(cfg: Config, r: Record, requested: Option<seq<string>>, now: int, draw: Draw): Result<seq<Detail>, Refusal> {
    if !Owns(cfg, r.owner) then Failure(NotOurs) else Acceptance(cfg, r, requested, now, draw)
  }

  lemma {:induction false} FirstOfMeaning(configurations: seq<string>, p: string -> bool)
    ensures FirstOf(configurations, p).None? <==> forall id | id in configurations :: !p(id)
    ensures FirstOf(configurations, p).Some? ==> FirstOf(configurations, p).value in configurations && p(FirstOf(configurations, p).value)
  {
    if configurations != [] {
      FirstOfMeaning(configurations[1..], p);
      assert configurations == [configurations[0]] + configurations[1..];
    }
  }

  /** The record is this issuer's: saved under its name, or under none where the issuer isn't in production. */
  predicate Ours(cfg: Config, r: Record) {
    (r.owner == "" ==> !cfg.production) && (r.owner != "" ==> r.owner == cfg.issuer.name)
  }

  /**
   What the record lets a request for these configurations have: each is among its own or its scope is among
   the record's, none asked for standing for all of the record's own; and the issuer supports each.
   */
  predicate Allows(cfg: Config, r: Record, requested: Option<seq<string>>) {
    match requested
    case None => forall id | id in r.configurations :: id in cfg.issuer.scopes
    case Some(ids) =>
      forall id | id in ids ::
        && id in cfg.issuer.scopes
        && (id in r.configurations || (cfg.issuer.scopes[id] != "" && cfg.issuer.scopes[id] in r.scopes))
  }

  /** details are one for each of ids, in order, for this issuer's own, each with its one drawn identifier. */
  predicate OneEach(cfg: Config, ids: seq<string>, draw: Draw, details: seq<Detail>) {
    && |details| == |ids|
    && forall i | 0 <= i < |ids| ::
         && details[i].kind == "openid_credential" && details[i].configuration == ids[i]
         && details[i].identifiers == Some([draw(i)]) && details[i].claims == None
         && details[i].locations == if cfg.issuer.listsServers then Some([cfg.issuer.name]) else None
  }

  lemma AllowsIff(cfg: Config, r: Record, requested: Option<seq<string>>)
    ensures Allows(cfg, r, requested) <==>
            && (requested.Some? ==> forall id | id in requested.value :: GrantsConfiguration(cfg, r, id))
            && forall id | id in ToMint(r, requested) :: id in cfg.issuer.scopes
  {
  }

  lemma MintsOneEach(cfg: Config, ids: seq<string>, draw: Draw)
    ensures OneEach(cfg, ids, draw, MintedFor(cfg, ids, draw))
  {
  }

  /** Exactly what a code may be redeemed for: before it expires, what it grants and the issuer supports. */
  lemma AcceptedIff(cfg: Config, r: Record, requested: Option<seq<string>>, now: int, draw: Draw)
    ensures AcceptRecord(cfg, r, requested, now, draw).Success? <==>
            Ours(cfg, r) && now <= r.expiresAt && Allows(cfg, r, requested)
    ensures
      match AcceptRecord(cfg, r, requested, now, draw)
      case Success(details) => OneEach(cfg, if requested.None? then r.configurations else requested.value, draw, details)
      case Failure(NotOurs) => !Ours(cfg, r)
      case Failure(CodeExpired) => Ours(cfg, r) && r.expiresAt < now
      case Failure(NotGranted(id)) =>
        && Ours(cfg, r) && now <= r.expiresAt && requested.Some? && id in requested.value && id !in r.configurations
        && (id in cfg.issuer.scopes ==> cfg.issuer.scopes[id] == "" || cfg.issuer.scopes[id] !in r.scopes)
      case Failure(Unsupported(id)) =>
        && Ours(cfg, r) && now <= r.expiresAt && id !in cfg.issuer.scopes && id in r.configurations
        && (requested.Some? ==> id in requested.value)
  {
    hide Allows, OneEach, MintedFor;
    AllowsIff(cfg, r, requested);
    MintsOneEach(cfg, ToMint(r, requested), draw);
    var ungranted := (id: string) => !GrantsConfiguration(cfg, r, id);
    var unsupported := (id: string) => id !in cfg.issuer.scopes;
    if requested.Some? {
      FirstOfMeaning(requested.value, ungranted);
    }
    FirstOfMeaning(ToMint(r, requested), unsupported);
  }

  lemma MintedIsForIssuer(cfg: Config, configuration: string, identifier: string)
    ensures Names(cfg.issuer, Minted(cfg, configuration, identifier), configuration)
    ensures Items(Minted(cfg, configuration, identifier).identifiers) == [identifier]
    ensures Minted(cfg, configuration, identifier).configuration == configuration
  {
  }

  /** Each minted detail is one of them, and each of them was minted. */
  lemma MintedMembers(cfg: Config, configurations: seq<string>, draw: Draw)
    ensures forall i | 0 <= i < |configurations| ::
              Minted(cfg, configurations[i], draw(i)) in MintedFor(cfg, configurations, draw)
    ensures forall d | d in MintedFor(cfg, configurations, draw) ::
              exists i: nat | i < |configurations| :: d == Minted(cfg, configurations[i], draw(i))
  {
    var details := MintedFor(cfg, configurations, draw);
    forall i | 0 <= i < |configurations| ensures Minted(cfg, configurations[i], draw(i)) in details {
      assert details[i] == Minted(cfg, configurations[i], draw(i));
    }
  }

  /** A minted identifier asks for its configuration. */
  lemma MintedResolves(cfg: Config, configurations: seq<string>, draw: Draw, scopes: seq<string>, i: nat)
    requires i < |configurations| && configurations[i] in cfg.issuer.scopes && draw(i) != ""
    requires forall j, k: nat | j != k :: draw(j) != draw(k)
    ensures var token := Token(MintedFor(cfg, configurations, draw), scopes);
            Resolve(cfg.issuer, token, Request(draw(i), "")) == Success(configurations[i])
  {
    var details := MintedFor(cfg, configurations, draw);
    var mine := Minted(cfg, configurations[i], draw(i));
    MintedMembers(cfg, configurations, draw);
    MintedIsForIssuer(cfg, configurations[i], draw(i));
    NamesMeans(cfg.issuer, mine, Request("", ""), configurations[i]);
    hide MintedFor, Minted, ByIdentifier, Authorized, Names, ForIssuer, Items;
    assert mine in details && draw(i) in [draw(i)];
    var found := ByIdentifier(cfg.issuer, details, draw(i));
    var d :| d in details && ForIssuer(cfg.issuer, d) && draw(i) in Items(d.identifiers) && d.configuration == found.value;
    HolderIsTheOne(cfg, configurations, draw, i, d);
  }

  lemma HolderIsTheOne(cfg: Config, configurations: seq<string>, draw: Draw, i: nat, d: Detail)
    requires i < |configurations| && d in MintedFor(cfg, configurations, draw) && draw(i) in Items(d.identifiers)
    requires forall j, k: nat | j != k :: draw(j) != draw(k)
    ensures d.configuration == configurations[i]
  {
    MintedMembers(cfg, configurations, draw);
    hide MintedFor, Minted, Items;
    var j: nat :| j < |configurations| && d == Minted(cfg, configurations[j], draw(j));
    MintedIsForIssuer(cfg, configurations[j], draw(j));
    assert draw(i) in [draw(j)];
  }

  /** And the configuration can then be asked for in no other way. */
  lemma MintedNeedsIdentifier(cfg: Config, configurations: seq<string>, draw: Draw, scopes: seq<string>, i: nat)
    requires i < |configurations| && configurations[i] in cfg.issuer.scopes && configurations[i] != ""
    ensures var token := Token(MintedFor(cfg, configurations, draw), scopes);
            Resolve(cfg.issuer, token, Request("", configurations[i])) == Failure(UseIdentifier)
  {
    var details := MintedFor(cfg, configurations, draw);
    MintedMembers(cfg, configurations, draw);
    MintedIsForIssuer(cfg, configurations[i], draw(i));
    hide MintedFor, Minted, ByIdentifier, Authorized;
    forall d | d in details ensures |Items(d.identifiers)| == 1 {
      var j: nat :| j < |configurations| && d == Minted(cfg, configurations[j], draw(j));
      MintedIsForIssuer(cfg, configurations[j], draw(j));
    }
  }

  // ---- The store ----

  /** A code that waits, after this many wrong guesses, or one invalidated. */
  datatype Entry = Held(record: Record, wrong: nat) | Retired

  type Codes = map<string, Entry>

  datatype ConsumeError =
    | Unknown
    | TooManyAttempts
    | TxCodeRequired
    | TxCodeUnexpected
    | WrongTxCode(attempts: nat)
    | NotAccepted(refusal: Refusal)

  /** What Consume finds before it asks accept. */
  datatype Checked = Refuse(error: ConsumeError) | Ask(record: Record)

  function Check(codes: Codes, key: string, txCodeHash: string, max: int): Checked {
    if key !in codes || codes[key].Retired? then Refuse(Unknown)
    else
      var r, wrong := codes[key].record, codes[key].wrong;
      if max > 0 && wrong >= max then Refuse(TooManyAttempts)
      else if r.txCodeHash == "" && txCodeHash != "" then Refuse(TxCodeUnexpected)
      else if r.txCodeHash != "" && txCodeHash == "" then Refuse(TxCodeRequired)
      else if r.txCodeHash != txCodeHash then Refuse(WrongTxCode(wrong + 1))
      else Ask(r)
  }

  /** A wrong guess is counted, and the one that reaches the limit retires the code, as too many do. */
  function AfterRefusal(codes: Codes, key: string, max: int, error: ConsumeError): Codes {
    if key !in codes then codes
    else
      match error
      case TooManyAttempts => codes[key := Retired]
      case WrongTxCode(attempts) =>
        if max > 0 && attempts >= max then codes[key := Retired]
        else if codes[key].Held? then codes[key := Held(codes[key].record, attempts)]
        else codes
      case _ => codes
  }

  /**
   One Token Request's accept and the variables it captures: it may be called again, with other random
   identifiers, when the store retries.
   */
  class Redemption {
    const cfg: Config
    const requested: Option<seq<string>>
    const now: int
    const draws: nat -> Draw
    var calls: nat
    var details: seq<Detail>
    var refused: Option<Refusal>
    var accepted: bool

    constructor (cfg: Config, requested: Option<seq<string>>, now: int, draws: nat -> Draw)
      ensures this.cfg == cfg && this.requested == requested && this.now == now && this.draws == draws
      ensures calls == 0 && refused == None && !accepted
    {
      this.cfg, this.requested, this.now, this.draws := cfg, requested, now, draws;
      calls, details, refused, accepted := 0, [], None, false;
    }

    method Accept(r: Record) returns (refusal: Option<Refusal>)
      modifies this
      ensures calls == old(calls) + 1
      ensures
        match AcceptRecord(cfg, r, requested, now, draws(old(calls)))
        case Success(minted) => refusal == refused == None && accepted && details == minted
        case Failure(e) => refusal == refused == Some(e) && (Owns(cfg, r.owner) ==> !accepted)
    {
      var draw := draws(calls);
      calls := calls + 1;
      if !Owns(cfg, r.owner) {
        refused := Some(NotOurs);
        return refused;
      }
      var acceptance := Acceptance(cfg, r, requested, now, draw);
      details := if acceptance.Success? then acceptance.value else [];
      refused := if acceptance.Success? then None else Some(acceptance.error);
      accepted := refused == None;
      return refused;
    }
  }

  class Store {
    var codes: Codes

    constructor ()
      ensures codes == map[]
    {
      codes := map[];
    }

    method Issue(key: string, r: Record)
      modifies this
      ensures codes == old(codes)[key := Held(r, 0)]
    {
      codes := codes[key := Held(r, 0)];
    }

    /**
     Its step, after tries that were rolled back: each saw the codes as they were then, perhaps not as they
     are now, and may have asked accept.
     */
    method Consume(key: string, txCodeHash: string, max: int, caller: Redemption, rolledBack: seq<Codes>)
      returns (consumed: Result<Record, ConsumeError>)
      modifies this, caller
      ensures
        match Check(old(codes), key, txCodeHash, max)
        case Refuse(error) =>
          consumed == Failure(error) && codes == AfterRefusal(old(codes), key, max, error)
        case Ask(r) =>
          && old(caller.calls) < caller.calls <= old(caller.calls) + |rolledBack| + 1
          && (match AcceptRecord(caller.cfg, r, caller.requested, caller.now, caller.draws(caller.calls - 1))
              case Success(minted) =>
                && consumed == Success(r) && codes == old(codes)[key := Retired]
                && caller.accepted && caller.details == minted
              case Failure(refusal) =>
                consumed == Failure(NotAccepted(refusal)) && codes == old(codes) && caller.refused == Some(refusal))
    {
      for i := 0 to |rolledBack|
        invariant old(caller.calls) <= caller.calls <= old(caller.calls) + i && codes == old(codes)
      {
        match Check(rolledBack[i], key, txCodeHash, max) {
          case Refuse(_) =>
          case Ask(r) => var _ := caller.Accept(r);
        }
      }
      match Check(codes, key, txCodeHash, max) {
        case Refuse(error) =>
          codes := AfterRefusal(codes, key, max, error);
          return Failure(error);
        case Ask(r) =>
          var refusal := caller.Accept(r);
          if refusal.Some? {
            return Failure(NotAccepted(refusal.value));
          }
          codes := codes[key := Retired];
          return Success(r);
      }
    }

    method Invalidate(key: string)
      modifies this
      ensures codes == if key in old(codes) then old(codes)[key := Retired] else old(codes)
    {
      if key in codes {
        codes := codes[key := Retired];
      }
    }

    /** Consume without a limit and with an accept that refuses: what it read, if accept was asked at all. */
    method ReadBack(key: string, txCodeHash: string) returns (read: Result<Record, ConsumeError>)
      modifies this
      ensures
        match Check(old(codes), key, txCodeHash, 0)
        case Refuse(error) => read == Failure(error) && codes == AfterRefusal(old(codes), key, 0, error)
        case Ask(r) => read == Success(r) && codes == old(codes)
    {
      match Check(codes, key, txCodeHash, 0) {
        case Refuse(error) =>
          codes := AfterRefusal(codes, key, 0, error);
          return Failure(error);
        case Ask(r) =>
          return Success(r);
      }
    }
  }

  // ---- The issuer's operations ----

  datatype TokenError =
    | UnknownCode
    | TxCodeIsRequired
    | TxCodeNotExpected
    | TxCodeDoesNotMatch
    | TooManyTxCodes
    | NotAllowed(refusal: Refusal)
    | ServerError

  datatype Redeemed = Redeemed(record: Record, details: seq<Detail>)

  /** What a redemption comes to, asked once, with these random identifiers. */
  function Outcome(codes: Codes, cfg: Config, key: string, txCodeHash: string, requested: Option<seq<string>>, now: int, draw: Draw):
    Result<Redeemed, TokenError>
  {
    match Check(codes, key, txCodeHash, cfg.maxTxCodeAttempts)
    case Ask(r) =>
      (match AcceptRecord(cfg, r, requested, now, draw)
       case Success(details) => Success(Redeemed(r, details))
       case Failure(refusal) => Failure(NotAllowed(refusal)))
    case Refuse(error) =>
      match error
      case Unknown => Failure(UnknownCode)
      case TooManyAttempts => Failure(TooManyTxCodes)
      case TxCodeRequired => Failure(TxCodeIsRequired)
      case TxCodeUnexpected => Failure(TxCodeNotExpected)
      case WrongTxCode(attempts) => Failure(if attempts >= cfg.maxTxCodeAttempts then TooManyTxCodes else TxCodeDoesNotMatch)
      case NotAccepted(refusal) => Failure(NotAllowed(refusal))
  }

  /** And the codes it leaves: fewer by the one redeemed, or by one guessed at too often, or one guess more. */
  function After(codes: Codes, cfg: Config, key: string, txCodeHash: string, requested: Option<seq<string>>, now: int, draw: Draw): Codes {
    match Check(codes, key, txCodeHash, cfg.maxTxCodeAttempts)
    case Refuse(error) => AfterRefusal(codes, key, cfg.maxTxCodeAttempts, error)
    case Ask(r) => if AcceptRecord(cfg, r, requested, now, draw).Success? then codes[key := Retired] else codes
  }

  /**
   consumePreAuthorizedCode, and what redeemPreAuthorizedCode returns of what its accept captured. However
   often the store rolled back, whatever its tries saw and accept captured in them, that is what the last
   call minted, the one the code was consumed with.
   New requires the limit to be positive.
   */
  method Redeem(cfg: Config, store: Store, key: string, txCodeHash: string, caller: Redemption, rolledBack: seq<Codes>)
    returns (redeemed: Result<Redeemed, TokenError>)
    requires cfg.maxTxCodeAttempts > 0 && caller.cfg == cfg && caller.calls == 0 && caller.refused == None && !caller.accepted
    modifies store, caller
    ensures
      var draw := caller.draws(if caller.calls == 0 then 0 else caller.calls - 1);
      && redeemed == Outcome(old(store.codes), cfg, key, txCodeHash, caller.requested, caller.now, draw)
      && store.codes == After(old(store.codes), cfg, key, txCodeHash, caller.requested, caller.now, draw)
  {
    var consumed := store.Consume(key, txCodeHash, cfg.maxTxCodeAttempts, caller, rolledBack);
    if consumed.Success? && !caller.accepted {
      return Failure(ServerError);
    }
    if consumed.Success? {
      return Success(Redeemed(consumed.value, caller.details));
    }
    if caller.refused.Some? && consumed.error == NotAccepted(caller.refused.value) {
      return Failure(NotAllowed(caller.refused.value));
    }
    match consumed.error {
      case TxCodeRequired => return Failure(TxCodeIsRequired);
      case TxCodeUnexpected => return Failure(TxCodeNotExpected);
      case TooManyAttempts => return Failure(TooManyTxCodes);
      case WrongTxCode(attempts) =>
        if attempts >= cfg.maxTxCodeAttempts {
          store.Invalidate(key);
          return Failure(TooManyTxCodes);
        }
        return Failure(if txCodeHash == "" then TxCodeIsRequired else TxCodeDoesNotMatch);
      case Unknown => return Failure(UnknownCode);
      case NotAccepted(_) => return Failure(ServerError);
    }
  }

  /**
   storePreAuthorizedCode, with a store that keeps of a record what keep says, until it has once been seen
   to keep the owner. The read-back leaves a code the store kept as it was, with no guess counted.
   */
  method StoreCode(cfg: Config, store: Store, key: string, r: Record, keep: Record -> Record, seenKept: bool)
    returns (ok: bool, nowKept: bool)
    modifies store
    ensures
      var record := keep(r.(owner := cfg.issuer.name));
      && ok == (!cfg.production || seenKept || (record.owner == cfg.issuer.name && record.txCodeHash == r.txCodeHash))
      && store.codes == old(store.codes)[key := if ok then Held(record, 0) else Retired]
      && nowKept == (seenKept || (cfg.production && ok))
  {
    store.Issue(key, keep(r.(owner := cfg.issuer.name)));
    if !cfg.production || seenKept {
      return true, seenKept;
    }
    var read := store.ReadBack(key, r.txCodeHash);
    if read.Failure? || read.value.owner != cfg.issuer.name {
      store.Invalidate(key);
      return false, false;
    }
    return true, true;
  }

  // ---- Runs ----

  datatype Action =
    | Issues(key: string, record: Record)
    | Redeems(cfg: Config, key: string, txCodeHash: string, requested: Option<seq<string>>, now: int, draw: Draw)
    | ReadsBack(key: string, txCodeHash: string)
    | Invalidates(key: string)

  datatype Event =
    | Quiet
    | Issued(key: string)
    | Honoured(key: string, redeemed: Redeemed)
    | WrongGuess(key: string, attempts: nat)
    | Refused(key: string, error: TokenError)

  /** Codes are random, so none is issued twice. */
  function Step(codes: Codes, a: Action): (Codes, Event) {
    match a
    case Issues(key, r) => if key in codes then (codes, Quiet) else (codes[key := Held(r, 0)], Issued(key))
    case Redeems(cfg, key, hash, requested, now, draw) =>
      var after := After(codes, cfg, key, hash, requested, now, draw);
      var checked := Check(codes, key, hash, cfg.maxTxCodeAttempts);
      (match Outcome(codes, cfg, key, hash, requested, now, draw)
       case Success(redeemed) => (after, Honoured(key, redeemed))
       case Failure(e) =>
         if checked.Refuse? && checked.error.WrongTxCode? then (after, WrongGuess(key, checked.error.attempts))
         else (after, Refused(key, e)))
    case ReadsBack(key, hash) =>
      (match Check(codes, key, hash, 0)
       case Refuse(error) =>
         (AfterRefusal(codes, key, 0, error), if error.WrongTxCode? then WrongGuess(key, error.attempts) else Quiet)
       case Ask(_) => (codes, Quiet))
    case Invalidates(key) => (if key in codes then codes[key := Retired] else codes, Quiet)
  }

  function Run(actions: seq<Action>): (Codes, seq<Event>) {
    if actions == [] then (map[], [])
    else
      var (codes, log) := Run(actions[..|actions| - 1]);
      var (after, e) := Step(codes, actions[|actions| - 1]);
      (after, log + [e])
  }

  /** Every redemption is by an issuer with a limit, none of them over max; a read-back names the record's hash. */
  ghost predicate Limited(actions: seq<Action>, max: int) {
    forall i | 0 <= i < |actions| ::
      && (actions[i].Redeems? ==> 0 < actions[i].cfg.maxTxCodeAttempts <= max)
      && (actions[i].ReadsBack? ==> ReadsOwnHash(Run(actions[..i]).0, actions[i]))
  }

  predicate ReadsOwnHash(codes: Codes, a: Action) {
    a.ReadsBack? && (a.key in codes && codes[a.key].Held? ==> codes[a.key].record.txCodeHash == a.txCodeHash)
  }

  function Successes(log: seq<Event>, key: string): nat {
    if log == [] then 0
    else
      var e := log[|log| - 1];
      Successes(log[..|log| - 1], key) + if e.Honoured? && e.key == key then 1 else 0
  }

  function Guesses(log: seq<Event>, key: string): nat {
    if log == [] then 0
    else
      var e := log[|log| - 1];
      Guesses(log[..|log| - 1], key) + if e.WrongGuess? && e.key == key then 1 else 0
  }

  /** key's entry counts the guesses at it, and waits only while nothing succeeded. */
  predicate Counts(codes: Codes, log: seq<Event>, key: string, max: int) {
    if key !in codes then Guesses(log, key) == Successes(log, key) == 0
    else
      match codes[key]
      case Held(_, wrong) => Guesses(log, key) == wrong <= max && Successes(log, key) == 0
      case Retired => Guesses(log, key) <= max && Successes(log, key) <= 1
  }

  lemma StepKeepsCounts(codes: Codes, log: seq<Event>, a: Action, key: string, max: int)
    requires max >= 0 && Counts(codes, log, key, max)
    requires a.Redeems? ==> 0 < a.cfg.maxTxCodeAttempts <= max
    requires a.ReadsBack? ==> ReadsOwnHash(codes, a)
    ensures Counts(Step(codes, a).0, log + [Step(codes, a).1], key, max)
  {
    hide AcceptRecord;
    var more := log + [Step(codes, a).1];
    assert more[..|more| - 1] == log;
  }

  lemma {:induction false} RunCounts(actions: seq<Action>, key: string, max: int)
    requires max >= 0 && Limited(actions, max)
    ensures Counts(Run(actions).0, Run(actions).1, key, max)
  {
    hide Step, Counts;
    if actions == [] {
      NothingCounted(key, max);
    } else {
      var before, a := actions[..|actions| - 1], actions[|actions| - 1];
      assert forall i | 0 <= i < |before| :: before[i] == actions[i] && before[..i] == actions[..i];
      RunCounts(before, key, max);
      StepKeepsCounts(Run(before).0, Run(before).1, a, key, max);
    }
  }

  lemma NothingCounted(key: string, max: int)
    requires max >= 0
    ensures Counts(map[], [], key, max)
  {
  }

  /** In every run a code is redeemed at most once and at most the limit's wrong guesses are compared with it. */
  lemma RedeemedOnceWithinLimit(actions: seq<Action>, key: string, max: int)
    requires max >= 0 && Limited(actions, max)
    ensures Successes(Run(actions).1, key) <= 1 && Guesses(Run(actions).1, key) <= max
  {
    RunCounts(actions, key, max);
  }

  /**
   A redemption is honoured if and only if the code waits with fewer wrong guesses than the limit, the
   Transaction Code is the right one, or absent where there is none, and its record is accepted: it is this
   issuer's, has not expired and allows what is asked for. Its details are then one for each configuration
   asked for, or for each of the record's.
   */
  lemma HonouredIff(codes: Codes, a: Action)
    requires a.Redeems? && a.cfg.maxTxCodeAttempts > 0
    ensures Step(codes, a).1.Honoured? <==>
            && a.key in codes && codes[a.key].Held? && codes[a.key].wrong < a.cfg.maxTxCodeAttempts
            && var r := codes[a.key].record;
               && r.txCodeHash == a.txCodeHash
               && Ours(a.cfg, r) && a.now <= r.expiresAt && Allows(a.cfg, r, a.requested)
    ensures Step(codes, a).1.Honoured? ==>
              var (after, e) := Step(codes, a);
              && after == codes[a.key := Retired] && e.key == a.key && e.redeemed.record == codes[a.key].record
              && OneEach(a.cfg, if a.requested.None? then codes[a.key].record.configurations else a.requested.value,
                         a.draw, e.redeemed.details)
  {
    hide Allows, OneEach;
    if a.key in codes && codes[a.key].Held? {
      AcceptedIff(a.cfg, codes[a.key].record, a.requested, a.now, a.draw);
    }
    hide AcceptRecord, MintedFor, GrantsConfiguration;
  }

  /**
   How any other redemption ends: with no such code; at the limit, which retires it; with a Transaction Code
   where none is set, or none where one is; with a wrong one, counted, which retires it as the limit's last;
   or with a record refused, for its owner before its expiry and its expiry before what is asked for. All but
   the retired and the counted one leave the codes as they were.
   */
  lemma HowARedemptionIsRefused(codes: Codes, a: Action)
    requires a.Redeems? && a.cfg.maxTxCodeAttempts > 0
    ensures var (after, e) := Step(codes, a);
            if a.key !in codes || codes[a.key] == Retired then e == Refused(a.key, UnknownCode) && after == codes
            else
              var r, wrong, max := codes[a.key].record, codes[a.key].wrong, a.cfg.maxTxCodeAttempts;
              if wrong >= max then e == Refused(a.key, TooManyTxCodes) && after == codes[a.key := Retired]
              else if (r.txCodeHash == "") != (a.txCodeHash == "") then
                e == Refused(a.key, if r.txCodeHash == "" then TxCodeNotExpected else TxCodeIsRequired) && after == codes
              else if r.txCodeHash != a.txCodeHash then
                && e == WrongGuess(a.key, wrong + 1)
                && after == codes[a.key := if wrong + 1 < max then Held(r, wrong + 1) else Retired]
                && Outcome(codes, a.cfg, a.key, a.txCodeHash, a.requested, a.now, a.draw)
                   == Failure(if wrong + 1 < max then TxCodeDoesNotMatch else TooManyTxCodes)
              else if !Ours(a.cfg, r) then e == Refused(a.key, NotAllowed(NotOurs)) && after == codes
              else if r.expiresAt < a.now then e == Refused(a.key, NotAllowed(CodeExpired)) && after == codes
              else e.Honoured? || (e.Refused? && e.error.NotAllowed? && after == codes)
  {
    hide Acceptance;
    if a.key in codes && codes[a.key].Held? {
      ExpiredFirst(a.cfg, codes[a.key].record, a.requested, a.now, a.draw);
    }
  }

  lemma ExpiredFirst(cfg: Config, r: Record, requested: Option<seq<string>>, now: int, draw: Draw)
    ensures r.expiresAt < now ==> Acceptance(cfg, r, requested, now, draw) == Failure(CodeExpired)
  {
  }

  /** Each wrong guess is told which it is, and the one that reaches the limit is the last. */
  lemma GuessesAreNumbered(actions: seq<Action>, a: Action, max: int)
    requires max >= 0 && Limited(actions, max) && a.Redeems? && 0 < a.cfg.maxTxCodeAttempts <= max
    requires Step(Run(actions).0, a).1.WrongGuess?
    ensures var (codes, e) := Step(Run(actions).0, a);
            && e.attempts == Guesses(Run(actions).1, a.key) + 1
            && (e.attempts >= a.cfg.maxTxCodeAttempts <==> codes[a.key] == Retired)
  {
    RunCounts(actions, a.key, max);
  }

  /** A missing or unexpected tx_code, a refused record and a read-back leave the code as it is, no guess counted. */
  lemma OtherRefusalsChangeNothing(codes: Codes, a: Action)
    ensures var (after, e) := Step(codes, a);
            e.Refused? && e.error != TooManyTxCodes ==> after == codes
    ensures ReadsOwnHash(codes, a) ==> Step(codes, a) == (codes, Quiet)
  {
  }
}
