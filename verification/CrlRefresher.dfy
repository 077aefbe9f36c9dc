/**
 Keeping CRLs current (certrevocation/refresher.go).

 A pass reads what a URL holds, fetches without a lock, and then accepts the list or refuses it, and
 tells OnAccept of an accepted one, under a lock. Any number of passes run at once, so a fetch may be
 answered 304 from what was held long before, and the state a list is judged in is not the one its fetch
 began in. Step is one such action of one pass; the lemmas are about every run of them.
 */
module CrlRefresher {
  import opened Wrappers
  import opened Durations
  import opened RevocationLists

  datatype Validators = Validators(etag: string, lastModified: string)

  /** The last good list from a URL, when it was fetched, and its response's validators. */
  datatype Held = Held(list: RevocationList, fetchedAt: int, validators: Validators)

  /** An issuer, for its rollback floor: its name and the key that signed its lists. */
  datatype FloorKey = FloorKey(name: string, key: string)

  /** The newest thisUpdate and highest CRL number accepted. */
  datatype Floor = Floor(thisUpdate: int, number: Option<int>)

  const NO_FLOOR := Floor(ZERO_TIME, None)

  datatype Config = Config(urls: seq<string>, issuers: seq<Certificate>, bound: map<string, Certificate>) {
    /** What NewRefresher requires of URLIssuers. */
    predicate Valid() {
      forall u | u in bound :: u in urls && bound[u] in issuers
    }

    function Candidates(u: string): seq<Certificate> {
      if u in bound then [bound[u]] else issuers
    }
  }

  datatype Refusal =
    | FetchFailed
    | NotComplete
    | CriticalExtension
    | NoNextUpdate
    | NotYet
    | Expired
    | WrongSigner
    | OtherIssuerHeld
    | OlderThisUpdate
    | LowerNumber

  // ---- Floors ----

  /** The least floor at or above f and list, its parts each of one of the two. */
  function Raise(f: Floor, list: RevocationList): (g: Floor)
    ensures f.thisUpdate <= g.thisUpdate && list.thisUpdate <= g.thisUpdate
    ensures g.thisUpdate == f.thisUpdate || g.thisUpdate == list.thisUpdate
    ensures forall n | f.number == Some(n) || list.number == Some(n) :: g.number.Some? && n <= g.number.value
    ensures g.number == f.number || g.number == list.number
  {
    Floor(
      if list.thisUpdate > f.thisUpdate then list.thisUpdate else f.thisUpdate,
      if list.number.Some? && (f.number.None? || list.number.value > f.number.value) then list.number else f.number)
  }

  /** g is the later of f's and list's thisUpdate, and the higher of their numbers, if either has one. */
  predicate LeastAbove(g: Floor, f: Floor, list: RevocationList) {
    && g.thisUpdate == (if f.thisUpdate < list.thisUpdate then list.thisUpdate else f.thisUpdate)
    && match (f.number, list.number) {
         case (None, None) => g.number == None
         case (Some(n), None) => g.number == Some(n)
         case (None, Some(n)) => g.number == Some(n)
         case (Some(m), Some(n)) => g.number == Some(if m < n then n else m)
       }
  }

  function FloorOf(floors: map<FloorKey, Floor>, k: FloorKey): Floor {
    if k in floors then floors[k] else NO_FLOOR
  }

  function KeyOf(issuer: Certificate): FloorKey {
    FloorKey(issuer.subject, issuer.key)
  }

  predicate Signs(sigs: Signatures, list: RevocationList, issuer: Certificate) {
    list.issuer == issuer.subject && sigs.onList(list, issuer)
  }

  /** The first of issuers that, by name and signature, issued list. */
  function SignerOf(sigs: Signatures, list: RevocationList, issuers: seq<Certificate>): (signer: Option<Certificate>)
    ensures signer.Some? ==> signer.value in issuers && Signs(sigs, list, signer.value)
    ensures signer.None? ==> forall issuer | issuer in issuers :: !Signs(sigs, list, issuer)
  {
    if issuers == [] then None
    else if Signs(sigs, list, issuers[0]) then Some(issuers[0])
    else SignerOf(sigs, list, issuers[1..])
  }

  ghost predicate SignedByKey(cfg: Config, sigs: Signatures, list: RevocationList, k: FloorKey) {
    SignerOf(sigs, list, cfg.issuers).Some? && KeyOf(SignerOf(sigs, list, cfg.issuers).value) == k
  }

  /** list's floor is met: not older by thisUpdate, nor by number where both have one. */
  predicate NotOlder(list: RevocationList, f: Floor) {
    && list.thisUpdate >= f.thisUpdate
    && (list.number.Some? && f.number.Some? ==> list.number.value >= f.number.value)
  }

  predicate AtOrBelow(list: RevocationList, f: Floor) {
    && list.thisUpdate <= f.thisUpdate
    && (list.number.Some? ==> f.number.Some? && list.number.value <= f.number.value)
  }

  /** The floors lists give, each list its own signer's, one nobody signed ignored. */
  function FloorsFrom(cfg: Config, sigs: Signatures, lists: seq<RevocationList>): map<FloorKey, Floor> {
    if lists == [] then map[]
    else
      var before := FloorsFrom(cfg, sigs, lists[..|lists| - 1]);
      var list := lists[|lists| - 1];
      match SignerOf(sigs, list, cfg.issuers)
      case None => before
      case Some(signer) => before[KeyOf(signer) := Raise(FloorOf(before, KeyOf(signer)), list)]
  }

  // ---- Accepting a list ----

  function Acceptable(
    cfg: Config, sigs: Signatures, u: string, list: RevocationList, held: Option<RevocationList>,
    floors: map<FloorKey, Floor>, now: int
  ): Result<FloorKey, Refusal>
  {
    if !CompleteAndDirect(list) then Failure(NotComplete)
    else if !CriticalUnderstood(list) then Failure(CriticalExtension)
    else if list.nextUpdate == ZERO_TIME then Failure(NoNextUpdate)
    else if NotYetValid(list, now) then Failure(NotYet)
    else if now >= list.nextUpdate then Failure(Expired)
    else FromRightIssuer(cfg, sigs, u, list, held, floors, now)
  }

  function FromRightIssuer(
    cfg: Config, sigs: Signatures, u: string, list: RevocationList, held: Option<RevocationList>,
    floors: map<FloorKey, Floor>, now: int
  ): Result<FloorKey, Refusal>
  {
    match SignerOf(sigs, list, cfg.Candidates(u))
    case None => Failure(WrongSigner)
    case Some(signer) =>
      if u !in cfg.bound && held.Some? && now < held.value.nextUpdate && list.issuer != held.value.issuer then
        Failure(OtherIssuerHeld)
      else
        var floor := FloorOf(floors, KeyOf(signer));
        if list.thisUpdate < floor.thisUpdate then Failure(OlderThisUpdate)
        else if list.number.Some? && floor.number.Some? && list.number.value < floor.number.value then
          Failure(LowerNumber)
        else Success(KeyOf(signer))
  }

  /** What each refusal but of an issuer or a floor says of list. */
  predicate RefusedFor(cfg: Config, u: string, list: RevocationList, now: int, why: Refusal) {
    match why
    case NoNextUpdate => list.nextUpdate == ZERO_TIME
    case NotYet => now < list.thisUpdate - 5 * MINUTE
    case Expired => list.nextUpdate <= now
    case OtherIssuerHeld => u !in cfg.bound
    case OlderThisUpdate => list.nextUpdate != ZERO_TIME && list.thisUpdate - 5 * MINUTE <= now < list.nextUpdate
    case LowerNumber => list.number.Some? && list.thisUpdate - 5 * MINUTE <= now < list.nextUpdate
    case _ => why != FetchFailed
  }

  /** A list handed to OnAccept, the URL it came from and its issuer. */
  datatype Acceptance = Acceptance(url: string, list: RevocationList, key: FloorKey)

  datatype State = State(held: map<string, Held>, floors: map<FloorKey, Floor>, accepted: seq<Acceptance>)

  datatype Fetched = Fetched(list: RevocationList, validators: Validators)

  datatype Outcome = Kept | Refused(why: Refusal, heldExpired: bool)

  /** Accepting or refusing what was fetched from u, and telling OnAccept. */
  function Keep(cfg: Config, sigs: Signatures, s: State, u: string, fetched: Option<Fetched>, now: int)
    : (State, Outcome)
  {
    var held := if u in s.held then Some(s.held[u].list) else None;
    var verdict := if fetched.None? then Failure(FetchFailed)
                   else Acceptable(cfg, sigs, u, fetched.value.list, held, s.floors, now);
    match verdict
    case Success(k) =>
      var Fetched(list, validators) := fetched.value;
      (State(s.held[u := Held(list, now, validators)],
             s.floors[k := Raise(FloorOf(s.floors, k), list)],
             s.accepted + [Acceptance(u, list, k)]), Kept)
    case Failure(why) => (s, Refused(why, held.Some? && now >= held.value.nextUpdate))
  }

  /** What a fetch got: no answer, or a status, validators and the CRL its body holds, if it parses. */
  datatype Response = NoAnswer | Answer(status: nat, validators: Validators, body: Option<RevocationList>)

  function Or(a: string, b: string): string {
    if a != "" then a else b
  }

  /** What a fetch conditional on held brings: held's list again for a 304. */
  function FetchResult(held: Option<Held>, response: Response): Option<Fetched> {
    if response.NoAnswer? then None
    else
      var conditional := held.Some? && held.value.validators != Validators("", "");
      var v := response.validators;
      if response.status == 304 && conditional then
        var was := held.value.validators;
        Some(Fetched(held.value.list, Validators(Or(v.etag, was.etag), Or(v.lastModified, was.lastModified))))
      else if response.status / 100 != 2 || response.body.None? then None
      else Some(Fetched(response.body.value, v))
  }

  // ---- Runs ----

  /** A pass at one URL, with what was held when it began. */
  datatype Pass = Pass(url: string, held: Option<Held>)

  datatype System = System(state: State, passes: map<nat, Pass>)

  datatype Action =
    | Begin(pass: nat, url: string)
    | Finish(pass: nat, response: Response, now: int)

  function Step(cfg: Config, sigs: Signatures, sys: System, a: Action): System {
    match a
    case Begin(pass, u) =>
      var held := if u in sys.state.held then Some(sys.state.held[u]) else None;
      sys.(passes := sys.passes[pass := Pass(u, held)])
    case Finish(pass, response, now) =>
      if pass !in sys.passes then sys
      else
        var Pass(u, held) := sys.passes[pass];
        System(Keep(cfg, sigs, sys.state, u, FetchResult(held, response), now).0, sys.passes - {pass})
  }

  function Start(cfg: Config, sigs: Signatures, floors: seq<RevocationList>): System {
    System(State(map[], FloorsFrom(cfg, sigs, floors), []), map[])
  }

  function Run(cfg: Config, sigs: Signatures, floors: seq<RevocationList>, actions: seq<Action>): System {
    if actions == [] then Start(cfg, sigs, floors)
    else Step(cfg, sigs, Run(cfg, sigs, floors, actions[..|actions| - 1]), actions[|actions| - 1])
  }

  // ---- What every run keeps ----

  /** The floor of k, from the one it started with and every list of k's accepted since. */
  function Folded(initial: map<FloorKey, Floor>, accepted: seq<Acceptance>, k: FloorKey): Floor {
    if accepted == [] then FloorOf(initial, k)
    else
      var before := Folded(initial, accepted[..|accepted| - 1], k);
      var last := accepted[|accepted| - 1];
      if last.key == k then Raise(before, last.list) else before
  }

  /** Each list was, when it was accepted, no older than its issuer's floor then. */
  ghost predicate AcceptedInOrder(initial: map<FloorKey, Floor>, accepted: seq<Acceptance>) {
    forall i | 0 <= i < |accepted| :: NotOlder(accepted[i].list, Folded(initial, accepted[..i], accepted[i].key))
  }

  /** Of u's candidates, it's one with key k that signed list. */
  predicate SignedFor(cfg: Config, sigs: Signatures, u: string, list: RevocationList, k: FloorKey) {
    var signer := SignerOf(sigs, list, cfg.Candidates(u));
    signer.Some? && KeyOf(signer.value) == k
  }

  /** Some candidate of u signed what u holds, and its floor is at or above that. */
  ghost predicate HeldSafely(cfg: Config, sigs: Signatures, s: State, u: string)
    requires u in s.held
  {
    exists k | SignedFor(cfg, sigs, u, s.held[u].list, k) :: AtOrBelow(s.held[u].list, FloorOf(s.floors, k))
  }

  ghost predicate Safe(cfg: Config, sigs: Signatures, initial: map<FloorKey, Floor>, s: State) {
    && (forall k :: FloorOf(s.floors, k) == Folded(initial, s.accepted, k))
    && AcceptedInOrder(initial, s.accepted)
    && (forall u | u in s.held :: HeldSafely(cfg, sigs, s, u))
  }

  /** What keeping changes: one URL, one floor and one more call of OnAccept. */
  lemma KeepMeaning(cfg: Config, sigs: Signatures, s: State, u: string, fetched: Option<Fetched>, now: int)
    ensures var (t, outcome) := Keep(cfg, sigs, s, u, fetched, now);
            if outcome == Kept then
              && fetched.Some?
              && var list := fetched.value.list;
                 var k := t.accepted[|t.accepted| - 1].key;
                 && SignedFor(cfg, sigs, u, list, k) && NotOlder(list, FloorOf(s.floors, k))
                 && t.held == s.held[u := Held(list, now, fetched.value.validators)]
                 && t.floors == s.floors[k := Raise(FloorOf(s.floors, k), list)]
                 && t.accepted == s.accepted + [Acceptance(u, list, k)]
            else t == s
  {
  }

  /** issuers[i] is the first of issuers that signed list. */
  ghost predicate FirstSigner(sigs: Signatures, list: RevocationList, issuers: seq<Certificate>, i: nat) {
    && i < |issuers| && list.issuer == issuers[i].subject && sigs.onList(list, issuers[i])
    && forall j | 0 <= j < i :: !(list.issuer == issuers[j].subject && sigs.onList(list, issuers[j]))
  }

  lemma {:induction false} FirstSignerIs(sigs: Signatures, list: RevocationList, issuers: seq<Certificate>)
    ensures SignerOf(sigs, list, issuers).None? ==> forall i: nat :: !FirstSigner(sigs, list, issuers, i)
    ensures forall i: nat | FirstSigner(sigs, list, issuers, i) :: SignerOf(sigs, list, issuers) == Some(issuers[i])
    ensures SignerOf(sigs, list, issuers).Some? ==> exists i: nat :: FirstSigner(sigs, list, issuers, i)
  {
    if issuers != [] && !Signs(sigs, list, issuers[0]) {
      FirstSignerIs(sigs, list, issuers[1..]);
      if i: nat :| FirstSigner(sigs, list, issuers, i) {
        assert FirstSigner(sigs, list, issuers[1..], i - 1);
      }
      if i: nat :| FirstSigner(sigs, list, issuers[1..], i) {
        assert FirstSigner(sigs, list, issuers, i + 1);
      }
    } else if issuers != [] {
      assert FirstSigner(sigs, list, issuers, 0);
    }
  }

  /**
   A list is accepted exactly when one of its URL's candidates signed it, a revocation check could use it
   for that issuer now, it is no older than the issuer's floor, and it doesn't replace another issuer's
   unexpired list at a URL bound to none: a bound URL's candidate is the issuer it is bound to, an unbound
   one's is the first configured issuer that signed the list.
   */
  lemma AcceptedIffUsable(
    cfg: Config, sigs: Signatures, u: string, list: RevocationList, held: Option<RevocationList>,
    floors: map<FloorKey, Floor>, now: int
  )
    ensures var signer := SignerOf(sigs, list, cfg.Candidates(u));
            Acceptable(cfg, sigs, u, list, held, floors, now).Success? <==>
            && signer.Some? && UsableFor(sigs, list, signer.value, now)
            && NotOlder(list, FloorOf(floors, KeyOf(signer.value)))
            && !(u !in cfg.bound && held.Some? && now < held.value.nextUpdate && list.issuer != held.value.issuer)
    ensures u in cfg.bound ==>
              (Acceptable(cfg, sigs, u, list, held, floors, now).Success?
               <==> && UsableFor(sigs, list, cfg.bound[u], now)
                    && var f := FloorOf(floors, FloorKey(cfg.bound[u].subject, cfg.bound[u].key));
                       && f.thisUpdate <= list.thisUpdate
                       && (f.number.Some? && list.number.Some? ==> f.number.value <= list.number.value))
    ensures u !in cfg.bound ==>
              (Acceptable(cfg, sigs, u, list, held, floors, now).Success?
               <==> && (held.None? || held.value.nextUpdate <= now || list.issuer == held.value.issuer)
                    && exists i: nat | FirstSigner(sigs, list, cfg.issuers, i) ::
                         && UsableFor(sigs, list, cfg.issuers[i], now)
                         && var f := FloorOf(floors, FloorKey(cfg.issuers[i].subject, cfg.issuers[i].key));
                            && f.thisUpdate <= list.thisUpdate
                            && (f.number.Some? && list.number.Some? ==> f.number.value <= list.number.value))
  {
    hide CompleteAndDirect, CriticalUnderstood, FirstSigner;
    FirstSignerIs(sigs, list, cfg.issuers);
  }

  /** What a pass kept a check can use for its signer from then until the list's nextUpdate. */
  lemma KeptStaysUsable(cfg: Config, sigs: Signatures, s: State, u: string, fetched: Option<Fetched>, now: int, later: int)
    requires Keep(cfg, sigs, s, u, fetched, now).1 == Kept
    requires var t := Keep(cfg, sigs, s, u, fetched, now).0; now <= later < t.held[u].list.nextUpdate
    ensures var list := Keep(cfg, sigs, s, u, fetched, now).0.held[u].list;
            var signer := SignerOf(sigs, list, cfg.Candidates(u));
            signer.Some? && UsableFor(sigs, list, signer.value, later)
  {
    hide Acceptable, CompleteAndDirect, CriticalUnderstood;
    var held := if u in s.held then Some(s.held[u].list) else None;
    AcceptedIffUsable(cfg, sigs, u, fetched.value.list, held, s.floors, now);
  }

  lemma OrderExtends(initial: map<FloorKey, Floor>, accepted: seq<Acceptance>, next: Acceptance)
    requires AcceptedInOrder(initial, accepted) && NotOlder(next.list, Folded(initial, accepted, next.key))
    ensures AcceptedInOrder(initial, accepted + [next])
    ensures forall k :: Folded(initial, accepted + [next], k)
                     == if k == next.key then Raise(Folded(initial, accepted, k), next.list) else Folded(initial, accepted, k)
  {
    var all := accepted + [next];
    assert all[..|accepted|] == accepted;
    forall i | 0 <= i < |all| ensures NotOlder(all[i].list, Folded(initial, all[..i], all[i].key)) {
      if i < |accepted| {
        assert all[..i] == accepted[..i];
      }
    }
  }

  lemma KeepIsSafe(
    cfg: Config, sigs: Signatures, initial: map<FloorKey, Floor>, s: State, u: string, fetched: Option<Fetched>, now: int
  )
    requires Safe(cfg, sigs, initial, s)
    ensures Safe(cfg, sigs, initial, Keep(cfg, sigs, s, u, fetched, now).0)
  {
    hide Keep, SignedFor, Folded, AcceptedInOrder;
    KeepMeaning(cfg, sigs, s, u, fetched, now);
    var (t, outcome) := Keep(cfg, sigs, s, u, fetched, now);
    if outcome == Kept {
      var next := t.accepted[|t.accepted| - 1];
      OrderExtends(initial, s.accepted, next);
      forall other | other in t.held ensures HeldSafely(cfg, sigs, t, other) {
        if other != u {
          assert HeldSafely(cfg, sigs, s, other);
        }
      }
    }
  }

  lemma {:induction false} RunKeepsSafe(cfg: Config, sigs: Signatures, floors: seq<RevocationList>, actions: seq<Action>)
    ensures Safe(cfg, sigs, FloorsFrom(cfg, sigs, floors), Run(cfg, sigs, floors, actions).state)
  {
    if actions != [] {
      var before := actions[..|actions| - 1];
      RunKeepsSafe(cfg, sigs, floors, before);
      var sys := Run(cfg, sigs, floors, before);
      match actions[|actions| - 1]
      case Begin(_, _) =>
      case Finish(pass, response, now) =>
        if pass in sys.passes {
          var Pass(u, held) := sys.passes[pass];
          KeepIsSafe(cfg, sigs, FloorsFrom(cfg, sigs, floors), sys.state, u, FetchResult(held, response), now);
        }
    }
  }

  /** f is the newest thisUpdate of lists, the zero time without any, and their highest number, if one has one. */
  ghost predicate GreatestOf(f: Floor, lists: set<RevocationList>) {
    && f.thisUpdate >= ZERO_TIME && (forall list | list in lists :: list.thisUpdate <= f.thisUpdate)
    && (f.thisUpdate == ZERO_TIME || exists list | list in lists :: list.thisUpdate == f.thisUpdate)
    && (forall list | list in lists && list.number.Some? :: f.number.Some? && list.number.value <= f.number.value)
    && (f.number.None? || exists list | list in lists :: list.number == f.number)
  }

  /** Of lists, those k's issuer signed. */
  ghost function PersistedOf(cfg: Config, sigs: Signatures, lists: seq<RevocationList>, k: FloorKey): set<RevocationList> {
    set list | list in lists && SignedByKey(cfg, sigs, list, k)
  }

  function AcceptedOf(accepted: seq<Acceptance>, k: FloorKey): set<RevocationList> {
    set a | a in accepted && a.key == k :: a.list
  }

  lemma RaisedIsGreatest(f: Floor, list: RevocationList, lists: set<RevocationList>)
    requires GreatestOf(f, lists)
    ensures GreatestOf(Raise(f, list), lists + {list})
  {
    hide Raise;
    var g, more := Raise(f, list), lists + {list};
    if g.thisUpdate != ZERO_TIME && g.thisUpdate != list.thisUpdate {
      var most :| most in lists && most.thisUpdate == f.thisUpdate;
      assert most in more;
    }
    if g.number.Some? && g.number != list.number {
      var most :| most in lists && most.number == f.number;
      assert most in more;
    }
  }

  /** The floors that persisted lists give are each the greatest of the lists its issuer signed. */
  lemma {:induction false} FloorsFromGreatest(cfg: Config, sigs: Signatures, lists: seq<RevocationList>, k: FloorKey)
    ensures GreatestOf(FloorOf(FloorsFrom(cfg, sigs, lists), k), PersistedOf(cfg, sigs, lists, k))
  {
    hide Raise, GreatestOf;
    if lists == [] {
      assert GreatestOf(NO_FLOOR, {}) by { NothingIsGreatest(); }
      assert PersistedOf(cfg, sigs, lists, k) == {};
    } else {
      var before, list := lists[..|lists| - 1], lists[|lists| - 1];
      FloorsFromGreatest(cfg, sigs, before, k);
      assert lists == before + [list];
      if SignedByKey(cfg, sigs, list, k) {
        RaisedIsGreatest(FloorOf(FloorsFrom(cfg, sigs, before), k), list, PersistedOf(cfg, sigs, before, k));
        assert PersistedOf(cfg, sigs, lists, k) == PersistedOf(cfg, sigs, before, k) + {list};
      } else {
        assert PersistedOf(cfg, sigs, lists, k) == PersistedOf(cfg, sigs, before, k);
      }
    }
  }

  lemma NothingIsGreatest()
    ensures GreatestOf(NO_FLOOR, {})
  {
  }

  lemma {:induction false} FoldedGreatest(
    initial: map<FloorKey, Floor>, accepted: seq<Acceptance>, k: FloorKey, persisted: set<RevocationList>
  )
    requires GreatestOf(FloorOf(initial, k), persisted)
    ensures GreatestOf(Folded(initial, accepted, k), persisted + AcceptedOf(accepted, k))
  {
    hide Raise, GreatestOf;
    if accepted == [] {
      assert persisted + AcceptedOf(accepted, k) == persisted;
    } else {
      var before, last := accepted[..|accepted| - 1], accepted[|accepted| - 1];
      FoldedGreatest(initial, before, k, persisted);
      assert accepted == before + [last];
      if last.key == k {
        RaisedIsGreatest(Folded(initial, before, k), last.list, persisted + AcceptedOf(before, k));
        assert persisted + AcceptedOf(accepted, k) == persisted + AcceptedOf(before, k) + {last.list};
      } else {
        assert AcceptedOf(accepted, k) == AcceptedOf(before, k);
      }
    }
  }

  /**
   In every run each issuer's floor is the newest thisUpdate, and the highest number, of the persisted
   lists it signed and its lists accepted since; every list was accepted at or above all of its issuer's
   before it; and what a URL holds one of its candidates signed, and is at or below that signer's floor.
   */
  lemma RunIsSafe(cfg: Config, sigs: Signatures, floors: seq<RevocationList>, actions: seq<Action>)
    ensures Safe(cfg, sigs, FloorsFrom(cfg, sigs, floors), Run(cfg, sigs, floors, actions).state)
    ensures var s := Run(cfg, sigs, floors, actions).state;
            && (forall k :: GreatestOf(FloorOf(s.floors, k), PersistedOf(cfg, sigs, floors, k) + AcceptedOf(s.accepted, k)))
            && (forall i | 0 <= i < |s.accepted| :: AtOrAbove(s.accepted[i].list,
                  PersistedOf(cfg, sigs, floors, s.accepted[i].key) + AcceptedOf(s.accepted[..i], s.accepted[i].key)))
  {
    hide Run, Folded, FloorsFrom, GreatestOf, AtOrAbove, PersistedOf;
    RunKeepsSafe(cfg, sigs, floors, actions);
    var s, initial := Run(cfg, sigs, floors, actions).state, FloorsFrom(cfg, sigs, floors);
    forall k ensures GreatestOf(FloorOf(s.floors, k), PersistedOf(cfg, sigs, floors, k) + AcceptedOf(s.accepted, k)) {
      FloorsFromGreatest(cfg, sigs, floors, k);
      FoldedGreatest(initial, s.accepted, k, PersistedOf(cfg, sigs, floors, k));
    }
    forall i | 0 <= i < |s.accepted|
      ensures AtOrAbove(s.accepted[i].list,
                PersistedOf(cfg, sigs, floors, s.accepted[i].key) + AcceptedOf(s.accepted[..i], s.accepted[i].key))
    {
      var k := s.accepted[i].key;
      FloorsFromGreatest(cfg, sigs, floors, k);
      FoldedGreatest(initial, s.accepted[..i], k, PersistedOf(cfg, sigs, floors, k));
      MeetsGreatest(s.accepted[i].list, Folded(initial, s.accepted[..i], k),
                    PersistedOf(cfg, sigs, floors, k) + AcceptedOf(s.accepted[..i], k));
    }
  }

  /** list is no older than any of lists, by thisUpdate or, where both have one, by number. */
  ghost predicate AtOrAbove(list: RevocationList, lists: set<RevocationList>) {
    && (forall other | other in lists :: other.thisUpdate <= list.thisUpdate)
    && (forall other | other in lists && other.number.Some? && list.number.Some? ::
          other.number.value <= list.number.value)
  }

  lemma MeetsGreatest(list: RevocationList, f: Floor, lists: set<RevocationList>)
    requires GreatestOf(f, lists) && NotOlder(list, f)
    ensures AtOrAbove(list, lists)
  {
  }

  /** accepted[i] is the last list accepted from u. */
  predicate LastFrom(accepted: seq<Acceptance>, u: string, i: nat) {
    i < |accepted| && accepted[i].url == u && forall j | i < j < |accepted| :: accepted[j].url != u
  }

  /** In every run, what a URL holds is the last list accepted from it. */
  lemma {:induction false} HeldIsLastAccepted(
    cfg: Config, sigs: Signatures, floors: seq<RevocationList>, actions: seq<Action>, u: string
  )
    ensures var s := Run(cfg, sigs, floors, actions).state;
            if u in s.held then exists i: nat | LastFrom(s.accepted, u, i) :: s.accepted[i].list == s.held[u].list
            else forall a | a in s.accepted :: a.url != u
  {
    hide Keep;
    if actions != [] {
      var before := actions[..|actions| - 1];
      HeldIsLastAccepted(cfg, sigs, floors, before, u);
      var sys := Run(cfg, sigs, floors, before);
      var a := actions[|actions| - 1];
      if a.Finish? && a.pass in sys.passes {
        var Pass(at, held) := sys.passes[a.pass];
        KeepMeaning(cfg, sigs, sys.state, at, FetchResult(held, a.response), a.now);
        var t := Keep(cfg, sigs, sys.state, at, FetchResult(held, a.response), a.now).0;
        if t != sys.state {
          assert at == u ==> LastFrom(t.accepted, u, |t.accepted| - 1);
          if at != u && u in sys.state.held {
            var i: nat :| LastFrom(sys.state.accepted, u, i) && sys.state.accepted[i].list == sys.state.held[u].list;
            assert LastFrom(t.accepted, u, i);
          }
        }
      }
    }
  }

  /** What was accepted before is at or below the floor it was folded into. */
  lemma {:induction false} FoldedBounds(initial: map<FloorKey, Floor>, accepted: seq<Acceptance>, i: nat)
    requires i < |accepted|
    ensures AtOrBelow(accepted[i].list, Folded(initial, accepted, accepted[i].key))
  {
    if i < |accepted| - 1 {
      FoldedBounds(initial, accepted[..|accepted| - 1], i);
    }
  }

  /**
   OnAccept hears each issuer's lists in order, whatever the interleaving: thisUpdate never goes back,
   nor, among numbered lists, does the CRL number.
   */
  lemma AcceptedNeverOlder(
    cfg: Config, sigs: Signatures, floors: seq<RevocationList>, actions: seq<Action>, i: nat, j: nat
  )
    requires i < j < |Run(cfg, sigs, floors, actions).state.accepted|
    requires var accepted := Run(cfg, sigs, floors, actions).state.accepted; accepted[i].key == accepted[j].key
    ensures var accepted := Run(cfg, sigs, floors, actions).state.accepted;
            var earlier, later := accepted[i].list, accepted[j].list;
            && earlier.thisUpdate <= later.thisUpdate
            && (earlier.number.Some? && later.number.Some? ==> earlier.number.value <= later.number.value)
  {
    RunKeepsSafe(cfg, sigs, floors, actions);
    var accepted := Run(cfg, sigs, floors, actions).state.accepted;
    FoldedBounds(FloorsFrom(cfg, sigs, floors), accepted[..j], i);
  }

  /** In every run, a bound URL holds only lists its issuer signed. */
  lemma BoundHoldsOwn(cfg: Config, sigs: Signatures, floors: seq<RevocationList>, actions: seq<Action>, u: string)
    requires var s := Run(cfg, sigs, floors, actions).state; u in cfg.bound && u in s.held
    ensures Signs(sigs, Run(cfg, sigs, floors, actions).state.held[u].list, cfg.bound[u])
  {
    hide Run;
    RunKeepsSafe(cfg, sigs, floors, actions);
    var s := Run(cfg, sigs, floors, actions).state;
    assert HeldSafely(cfg, sigs, s, u);
  }

  /** In every run, a list that replaces another of the same issuer isn't older than it. */
  lemma NeverRollsBack(
    cfg: Config, sigs: Signatures, floors: seq<RevocationList>, actions: seq<Action>,
    u: string, fetched: Fetched, now: int, k: FloorKey
  )
    requires var s := Run(cfg, sigs, floors, actions).state;
             && u in s.held && Keep(cfg, sigs, s, u, Some(fetched), now).1 == Kept
             && SignedFor(cfg, sigs, u, s.held[u].list, k)
    requires SignedFor(cfg, sigs, u, fetched.list, k)
    ensures var was := Run(cfg, sigs, floors, actions).state.held[u].list;
            && was.thisUpdate <= fetched.list.thisUpdate
            && (was.number.Some? && fetched.list.number.Some? ==> was.number.value <= fetched.list.number.value)
  {
    hide Keep, Run;
    RunKeepsSafe(cfg, sigs, floors, actions);
    var s := Run(cfg, sigs, floors, actions).state;
    assert HeldSafely(cfg, sigs, s, u);
    KeepMeaning(cfg, sigs, s, u, Some(fetched), now);
  }

  /** An unbound URL turns to another issuer only once the list it holds has expired. */
  lemma UnboundKeepsIssuer(cfg: Config, sigs: Signatures, s: State, u: string, fetched: Option<Fetched>, now: int)
    requires u !in cfg.bound && u in s.held && Keep(cfg, sigs, s, u, fetched, now).1 == Kept
    ensures fetched.value.list.issuer != s.held[u].list.issuer ==> now >= s.held[u].list.nextUpdate
  {
  }

  /**
   In every run, whatever the passes under way began with, a step leaves an unbound URL's list with its
   issuer unless it has expired by the step's clock.
   */
  lemma StepsKeepIssuer(
    cfg: Config, sigs: Signatures, floors: seq<RevocationList>, actions: seq<Action>, a: Action, u: string
  )
    requires u !in cfg.bound && u in Run(cfg, sigs, floors, actions).state.held
    ensures var s, t := Run(cfg, sigs, floors, actions).state, Run(cfg, sigs, floors, actions + [a]).state;
            && u in t.held
            && (t.held[u].list.issuer == s.held[u].list.issuer || (a.Finish? && s.held[u].list.nextUpdate <= a.now))
  {
    hide Acceptable, Run;
    RunThen(cfg, sigs, floors, actions, a);
    var sys := Run(cfg, sigs, floors, actions);
    if a.Finish? && a.pass in sys.passes {
      var Pass(at, held) := sys.passes[a.pass];
      var fetched := FetchResult(held, a.response);
      if Keep(cfg, sigs, sys.state, at, fetched, a.now).1 == Kept && at == u {
        UnboundKeepsIssuer(cfg, sigs, sys.state, u, fetched, a.now);
      }
    }
  }

  /** For a bound URL, acceptance depends on its own issuer's floor and the clock alone. */
  lemma FloorsDontInterfere(
    cfg: Config, sigs: Signatures, u: string, list: RevocationList, now: int,
    held: Option<RevocationList>, floors: map<FloorKey, Floor>,
    otherHeld: Option<RevocationList>, otherFloors: map<FloorKey, Floor>
  )
    requires u in cfg.bound && FloorOf(floors, KeyOf(cfg.bound[u])) == FloorOf(otherFloors, KeyOf(cfg.bound[u]))
    ensures Acceptable(cfg, sigs, u, list, held, floors, now)
         == Acceptable(cfg, sigs, u, list, otherHeld, otherFloors, now)
  {
  }

  // ---- Restarting ----

  /** No list verifies under two of the issuers' keys. */
  ghost predicate OneSigner(cfg: Config, sigs: Signatures) {
    forall list, a, b | a in cfg.issuers && b in cfg.issuers && Signs(sigs, list, a) && Signs(sigs, list, b) ::
      KeyOf(a) == KeyOf(b)
  }

  lemma {:induction false} FloorsFromNonNegative(cfg: Config, sigs: Signatures, lists: seq<RevocationList>, k: FloorKey)
    ensures FloorOf(FloorsFrom(cfg, sigs, lists), k).thisUpdate >= 0
  {
    if lists != [] {
      FloorsFromNonNegative(cfg, sigs, lists[..|lists| - 1], k);
    }
  }

  /** Where one list alone of lists, however often, is k's, k's floor is that list's. */
  lemma {:induction false} FloorFromOne(
    cfg: Config, sigs: Signatures, lists: seq<RevocationList>, k: FloorKey, one: RevocationList
  )
    requires forall list | list in lists && SignedByKey(cfg, sigs, list, k) :: list == one
    requires SignedByKey(cfg, sigs, one, k)
    ensures FloorOf(FloorsFrom(cfg, sigs, lists), k) == if one in lists then Raise(NO_FLOOR, one) else NO_FLOOR
  {
    if lists != [] {
      FloorFromOne(cfg, sigs, lists[..|lists| - 1], k, one);
      assert lists == lists[..|lists| - 1] + [lists[|lists| - 1]];
      assert lists[|lists| - 1] in lists;
    }
  }

  /** Every accepted list's key is that of its signer among the issuers. */
  ghost predicate KeysAreSigners(cfg: Config, sigs: Signatures, accepted: seq<Acceptance>) {
    forall i | 0 <= i < |accepted| :: SignedByKey(cfg, sigs, accepted[i].list, accepted[i].key)
  }

  lemma {:induction false} RunKeysAreSigners(
    cfg: Config, sigs: Signatures, floors: seq<RevocationList>, actions: seq<Action>
  )
    requires cfg.Valid() && OneSigner(cfg, sigs)
    ensures KeysAreSigners(cfg, sigs, Run(cfg, sigs, floors, actions).state.accepted)
  {
    if actions != [] {
      RunKeysAreSigners(cfg, sigs, floors, actions[..|actions| - 1]);
    }
  }

  /** After the last list of k's, only other issuers' were accepted. */
  predicate LastOf(accepted: seq<Acceptance>, k: FloorKey, i: nat) {
    i < |accepted| && accepted[i].key == k && forall j | i < j < |accepted| :: accepted[j].key != k
  }

  lemma {:induction false} FoldedAtLast(initial: map<FloorKey, Floor>, accepted: seq<Acceptance>, k: FloorKey, i: nat)
    requires LastOf(accepted, k, i)
    ensures Folded(initial, accepted, k) == Raise(Folded(initial, accepted[..i], k), accepted[i].list)
  {
    if i < |accepted| - 1 {
      var init := accepted[..|accepted| - 1];
      FoldedAtLast(initial, init, k, i);
      assert init[..i] == accepted[..i];
    } else {
      assert accepted[..|accepted| - 1] == accepted[..i];
    }
  }

  /**
   Restarting from the last list OnAccept was given of each issuer restores an issuer's floor exactly
   when that list is numbered or none of its lists was: an unnumbered last list loses the number floor,
   never thisUpdate's.
   */
  lemma RestartKeepsFloor(
    cfg: Config, sigs: Signatures, floors: seq<RevocationList>, actions: seq<Action>,
    persisted: seq<RevocationList>, k: FloorKey, i: nat
  )
    requires cfg.Valid() && OneSigner(cfg, sigs)
    requires var accepted := Run(cfg, sigs, floors, actions).state.accepted;
             && LastOf(accepted, k, i) && accepted[i].list in persisted
             && forall list | list in persisted && SignedByKey(cfg, sigs, list, k) :: list == accepted[i].list
    ensures var s := Run(cfg, sigs, floors, actions).state;
            var restarted := FloorOf(FloorsFrom(cfg, sigs, persisted), k);
            && restarted.thisUpdate == FloorOf(s.floors, k).thisUpdate
            && (restarted == FloorOf(s.floors, k)
                <==> s.accepted[i].list.number.Some? || FloorOf(s.floors, k).number.None?)
  {
    hide Run, FloorsFrom, Folded;
    RunKeepsSafe(cfg, sigs, floors, actions);
    RunKeysAreSigners(cfg, sigs, floors, actions);
    var initial := FloorsFrom(cfg, sigs, floors);
    var accepted := Run(cfg, sigs, floors, actions).state.accepted;
    FoldedAtLast(initial, accepted, k, i);
    FloorFromOne(cfg, sigs, persisted, k, accepted[i].list);
    FloorsFromNonNegative(cfg, sigs, floors, k);
    FoldedNonNegative(initial, accepted[..i], k);
  }

  /** The floor the last accepted list of k's is judged by again is one it meets and doesn't raise. */
  lemma LastMeetsFloor(
    cfg: Config, sigs: Signatures, floors: seq<RevocationList>, actions: seq<Action>, k: FloorKey, i: nat
  )
    requires LastOf(Run(cfg, sigs, floors, actions).state.accepted, k, i)
    ensures var s := Run(cfg, sigs, floors, actions).state;
            && NotOlder(s.accepted[i].list, FloorOf(s.floors, k))
            && Raise(FloorOf(s.floors, k), s.accepted[i].list) == FloorOf(s.floors, k)
  {
    hide Run, FloorsFrom, Folded;
    RunKeepsSafe(cfg, sigs, floors, actions);
    var s := Run(cfg, sigs, floors, actions).state;
    FoldedAtLast(FloorsFrom(cfg, sigs, floors), s.accepted, k, i);
    assert NotOlder(s.accepted[i].list, Folded(FloorsFrom(cfg, sigs, floors), s.accepted[..i], k));
  }

  /**
   In every run the last list accepted of an issuer, while a check can use it, is accepted again at any URL
   bound to that issuer, whatever that URL holds: served anew, or by a 304 to a pass at a URL that holds it
   with validators, which then refreshes what is held and leaves every floor where it was.
   */
  lemma LastIsAcceptedAgain(
    cfg: Config, sigs: Signatures, floors: seq<RevocationList>, actions: seq<Action>, i: nat, u: string, now: int,
    v: Validators, body: Option<RevocationList>
  )
    requires u in cfg.bound && LastOf(Run(cfg, sigs, floors, actions).state.accepted, KeyOf(cfg.bound[u]), i)
    requires UsableFor(sigs, Run(cfg, sigs, floors, actions).state.accepted[i].list, cfg.bound[u], now)
    ensures var s := Run(cfg, sigs, floors, actions).state;
            var last := s.accepted[i].list;
            && (forall held :: Acceptable(cfg, sigs, u, last, held, s.floors, now).Success?)
            && (u in s.held && s.held[u].list == last
                && (s.held[u].validators.etag != "" || s.held[u].validators.lastModified != "") ==>
                  var t := Run(cfg, sigs, floors, actions + [Begin(0, u)] + [Finish(0, Answer(304, v, body), now)]).state;
                  && u in t.held && t.held[u].list == last && t.held[u].fetchedAt == now
                  && (forall k :: FloorOf(t.floors, k) == FloorOf(s.floors, k))
                  && t.accepted == s.accepted + [Acceptance(u, last, KeyOf(cfg.bound[u]))])
  {
    hide Run, Acceptable, UsableFor;
    var s, k := Run(cfg, sigs, floors, actions).state, KeyOf(cfg.bound[u]);
    var last := s.accepted[i].list;
    LastMeetsFloor(cfg, sigs, floors, actions, k, i);
    forall held ensures Acceptable(cfg, sigs, u, last, held, s.floors, now).Success? {
      AcceptedIffUsable(cfg, sigs, u, last, held, s.floors, now);
    }
    RunThen(cfg, sigs, floors, actions, Begin(0, u));
    RunThen(cfg, sigs, floors, actions + [Begin(0, u)], Finish(0, Answer(304, v, body), now));
    if u in s.held && s.held[u].list == last {
      AcceptedIffUsable(cfg, sigs, u, last, Some(last), s.floors, now);
      var fetched := FetchResult(Some(s.held[u]), Answer(304, v, body));
      if s.held[u].validators.etag != "" || s.held[u].validators.lastModified != "" {
        KeepMeaning(cfg, sigs, s, u, fetched, now);
        assert SignerOf(sigs, last, cfg.Candidates(u)) == Some(cfg.bound[u]) by { hide Keep; assert UsableFor(sigs, last, cfg.bound[u], now); SignedByUsable(sigs, last, cfg.bound[u], now); }
      }
    }
  }

  lemma SignedByUsable(sigs: Signatures, list: RevocationList, issuer: Certificate, now: int)
    requires UsableFor(sigs, list, issuer, now)
    ensures Signs(sigs, list, issuer)
  {
  }

  lemma RunThen(cfg: Config, sigs: Signatures, floors: seq<RevocationList>, actions: seq<Action>, a: Action)
    ensures Run(cfg, sigs, floors, actions + [a]) == Step(cfg, sigs, Run(cfg, sigs, floors, actions), a)
  {
    assert (actions + [a])[..|actions|] == actions;
  }

  /** A complete list of issuer's, current from thisUpdate for a minute. */
  function ListOf(issuer: Certificate, thisUpdate: int, number: Option<int>): RevocationList {
    RevocationList(0, Der(0, 0), issuer.subject, thisUpdate, MINUTE, number, [], [])
  }

  function Served(list: RevocationList): Response {
    Answer(200, Validators("", ""), Some(list))
  }

  /** One pass at u, alone, of a list its bound issuer signed and whose floor it meets. */
  lemma PassAccepts(
    cfg: Config, sigs: Signatures, floors: seq<RevocationList>, actions: seq<Action>, u: string, list: RevocationList, now: int
  )
    requires u in cfg.bound && Signs(sigs, list, cfg.bound[u]) && UsableFor(sigs, list, cfg.bound[u], now)
    requires NotOlder(list, FloorOf(Run(cfg, sigs, floors, actions).state.floors, KeyOf(cfg.bound[u])))
    ensures var s, k := Run(cfg, sigs, floors, actions).state, KeyOf(cfg.bound[u]);
            var t := Run(cfg, sigs, floors, actions + [Begin(0, u)] + [Finish(0, Served(list), now)]).state;
            && t.floors == s.floors[k := Raise(FloorOf(s.floors, k), list)]
            && t.accepted == s.accepted + [Acceptance(u, list, k)]
  {
    hide Run, Acceptable, UsableFor;
    var s := Run(cfg, sigs, floors, actions).state;
    RunThen(cfg, sigs, floors, actions, Begin(0, u));
    RunThen(cfg, sigs, floors, actions + [Begin(0, u)], Finish(0, Served(list), now));
    var held := if u in s.held then Some(s.held[u].list) else None;
    AcceptedIffUsable(cfg, sigs, u, list, held, s.floors, now);
    assert SignerOf(sigs, list, cfg.Candidates(u)) == Some(cfg.bound[u]);
    KeepMeaning(cfg, sigs, s, u, Some(Fetched(list, Validators("", ""))), now);
  }

  /**
   Such a loss: a numbered list and then a later unnumbered one are accepted, the refresher restarts from
   the last, and a list with a lower number, which was refused before, is accepted.
   */
  lemma RestartForgetsNumber(issuer: Certificate, sigs: Signatures, u: string)
    returns (cfg: Config, actions: seq<Action>, last: RevocationList, lower: RevocationList)
    requires sigs.onList(ListOf(issuer, 1, Some(5)), issuer) && sigs.onList(ListOf(issuer, 2, None), issuer)
    requires sigs.onList(ListOf(issuer, 3, Some(4)), issuer)
    ensures cfg.Valid() && cfg.issuers == [issuer] && u in cfg.bound
    ensures var s, k := Run(cfg, sigs, [], actions).state, KeyOf(issuer);
            && |s.accepted| == 2 && s.accepted[0].list.number.Some? && s.accepted[1] == Acceptance(u, last, k)
            && FloorOf(s.floors, k).number.Some?
            && FloorOf(FloorsFrom(cfg, sigs, [last]), k).number.None?
            && Acceptable(cfg, sigs, u, lower, None, s.floors, 12) == Failure(LowerNumber)
            && Acceptable(cfg, sigs, u, lower, None, FloorsFrom(cfg, sigs, [last]), 12) == Success(k)
  {
    cfg := Config([u], [issuer], map[u := issuer]);
    var first := ListOf(issuer, 1, Some(5));
    last, lower := ListOf(issuer, 2, None), ListOf(issuer, 3, Some(4));
    var k := KeyOf(issuer);
    PassAccepts(cfg, sigs, [], [], u, first, 10);
    var once := [] + [Begin(0, u)] + [Finish(0, Served(first), 10)];
    PassAccepts(cfg, sigs, [], once, u, last, 11);
    actions := once + [Begin(0, u)] + [Finish(0, Served(last), 11)];
    LowerIsAccepted(cfg, sigs, u, issuer);
  }

  lemma LowerIsAccepted(cfg: Config, sigs: Signatures, u: string, issuer: Certificate)
    requires cfg == Config([u], [issuer], map[u := issuer])
    requires sigs.onList(ListOf(issuer, 2, None), issuer) && sigs.onList(ListOf(issuer, 3, Some(4)), issuer)
    ensures var k, last, lower := KeyOf(issuer), ListOf(issuer, 2, None), ListOf(issuer, 3, Some(4));
            && FloorOf(FloorsFrom(cfg, sigs, [last]), k) == Floor(2, None)
            && Acceptable(cfg, sigs, u, lower, None, FloorsFrom(cfg, sigs, [last]), 12) == Success(k)
            && forall floors: map<FloorKey, Floor> | FloorOf(floors, k) == Floor(2, Some(5)) ::
                 Acceptable(cfg, sigs, u, lower, None, floors, 12) == Failure(LowerNumber)
  {
    var last := ListOf(issuer, 2, None);
    assert [last][..0] == [] && SignerOf(sigs, last, cfg.issuers) == Some(issuer);
    assert FloorsFrom(cfg, sigs, []) == map[];
    assert FloorsFrom(cfg, sigs, [last]) == map[KeyOf(issuer) := Raise(NO_FLOOR, last)];
  }

  lemma {:induction false} FoldedNonNegative(initial: map<FloorKey, Floor>, accepted: seq<Acceptance>, k: FloorKey)
    requires FloorOf(initial, k).thisUpdate >= 0
    ensures Folded(initial, accepted, k).thisUpdate >= 0
  {
    if accepted != [] {
      FoldedNonNegative(initial, accepted[..|accepted| - 1], k);
    }
  }

  // ---- The code ----

  class Refresher {
    const cfg: Config
    const sigs: Signatures
    var held: map<string, Held>
    var floors: map<FloorKey, Floor>
    /** The calls OnAccept had. */
    var accepted: seq<Acceptance>

    function Current(): State
      reads this
    {
      State(held, floors, accepted)
    }

    constructor (cfg: Config, sigs: Signatures, lists: seq<RevocationList>)
      ensures this.cfg == cfg && this.sigs == sigs && Current() == Start(cfg, sigs, lists).state
    {
      this.cfg, this.sigs := cfg, sigs;
      held, floors, accepted := map[], map[], [];
      new;
      for i := 0 to |lists|
        invariant held == map[] && accepted == [] && floors == FloorsFrom(cfg, sigs, lists[..i])
      {
        assert lists[..i + 1][..i] == lists[..i];
        var signer := FindSigner(lists[i], cfg.issuers);
        if signer.Some? {
          RaiseFloor(KeyOf(signer.value), lists[i]);
        }
      }
      assert lists[..|lists|] == lists;
    }

    method FindSigner(list: RevocationList, issuers: seq<Certificate>) returns (signer: Option<Certificate>)
      ensures signer == SignerOf(sigs, list, issuers)
    {
      for i := 0 to |issuers|
        invariant SignerOf(sigs, list, issuers) == SignerOf(sigs, list, issuers[i..])
      {
        assert issuers[i..][1..] == issuers[i + 1..];
        if list.issuer == issuers[i].subject && sigs.onList(list, issuers[i]) {
          return Some(issuers[i]);
        }
      }
      return None;
    }

    method RaiseFloor(k: FloorKey, list: RevocationList)
      modifies `floors
      ensures floors == old(floors)[k := Raise(FloorOf(old(floors), k), list)]
    {
      var f := FloorOf(floors, k);
      if list.thisUpdate > f.thisUpdate {
        f := f.(thisUpdate := list.thisUpdate);
      }
      if list.number.Some? && (f.number.None? || list.number.value > f.number.value) {
        f := f.(number := list.number);
      }
      floors := floors[k := f];
    }

    /** What a pass reads before it fetches. */
    method Snapshot(u: string) returns (h: Option<Held>)
      ensures h == if u in held then Some(held[u]) else None
    {
      h := if u in held then Some(held[u]) else None;
    }

    /** The rest of a pass, under the lock: the list is kept and handed over, or nothing changes. */
    method AcceptFetched(u: string, fetched: Option<Fetched>, now: int) returns (outcome: Outcome)
      modifies this
      ensures (Current(), outcome) == Keep(cfg, sigs, old(Current()), u, fetched, now)
      ensures outcome.Refused? ==> Current() == old(Current())
      ensures outcome == Kept <==>
                fetched.Some? && var h := if u in old(held) then Some(old(held)[u].list) else None;
                Acceptable(cfg, sigs, u, fetched.value.list, h, old(floors), now).Success?
      ensures outcome.Refused? && fetched.Some? ==> RefusedFor(cfg, u, fetched.value.list, now, outcome.why)
      ensures outcome == Kept ==>
                && fetched.Some? && accepted == old(accepted) + [Acceptance(u, fetched.value.list, accepted[|old(accepted)|].key)]
                && held == old(held)[u := Held(fetched.value.list, now, fetched.value.validators)]
                && var k := accepted[|old(accepted)|].key;
                   && (exists issuer | issuer in cfg.Candidates(u) ::
                         k == FloorKey(issuer.subject, issuer.key) && sigs.onList(fetched.value.list, issuer))
                   && k in floors && floors == old(floors)[k := floors[k]]
                   && LeastAbove(floors[k], FloorOf(old(floors), k), fetched.value.list)
    {
      hide CompleteAndDirect, CriticalUnderstood;
      var h := if u in held then Some(held[u].list) else None;
      var why := FetchFailed;
      if fetched.Some? {
        var verdict := Acceptable(cfg, sigs, u, fetched.value.list, h, floors, now);
        if verdict.Success? {
          held := held[u := Held(fetched.value.list, now, fetched.value.validators)];
          RaiseFloor(verdict.value, fetched.value.list);
          accepted := accepted + [Acceptance(u, fetched.value.list, verdict.value)];
          return Kept;
        }
        why := verdict.error;
      }
      return Refused(why, h.Some? && now >= h.value.nextUpdate);
    }

    /**
     One pass at u with no other's step in between: the two steps of a run. What it keeps is the CRL of a
     2xx answer, or what u held on a 304 to a fetch that sent validators; anything else is a failed fetch.
     */
    method RefreshOne(u: string, response: Response, now: int) returns (outcome: Outcome)
      modifies this
      ensures var begun := Step(cfg, sigs, System(old(Current()), map[]), Begin(0, u));
              Current() == Step(cfg, sigs, begun, Finish(0, response, now)).state
      ensures outcome.Refused? ==>
                && Current() == old(Current())
                && (outcome.heldExpired <==> u in old(held) && old(held)[u].list.nextUpdate <= now)
      ensures var sent := if u in old(held) then old(held)[u].validators else Validators("", "");
              && (response.NoAnswer?
                  || (response.status == 304 && sent.etag == "" && sent.lastModified == "")
                  || (response.status != 304 && !(200 <= response.status < 300 && response.body.Some?)) ==>
                    outcome.Refused? && outcome.why == FetchFailed)
              && (outcome == Kept ==>
                    && u in held && response.Answer? && held[u].fetchedAt == now
                    && var got, now := response.validators, held[u].validators;
                       if response.status == 304 then
                         && u in old(held) && held[u].list == old(held)[u].list
                         && now.etag == (if got.etag == "" then sent.etag else got.etag)
                         && now.lastModified == (if got.lastModified == "" then sent.lastModified else got.lastModified)
                       else Some(held[u].list) == response.body && now == got)
    {
      var h := Snapshot(u);
      outcome := AcceptFetched(u, FetchResult(h, response), now);
    }

    /** Lists: what's held from each URL, in the order of the URLs. */
    method Lists() returns (lists: seq<RevocationList>)
      ensures forall list :: list in lists <==> exists u | u in cfg.urls && u in held :: held[u].list == list
    {
      lists := [];
      for i := 0 to |cfg.urls|
        invariant forall list :: list in lists <==> exists u | u in cfg.urls[..i] && u in held :: held[u].list == list
      {
        var u := cfg.urls[i];
        assert forall v :: v in cfg.urls[..i + 1] <==> v in cfg.urls[..i] || v == u;
        if u in held {
          lists := lists + [held[u].list];
        }
      }
      assert cfg.urls[..|cfg.urls|] == cfg.urls;
    }
  }
}
