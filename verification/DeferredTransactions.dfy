/**
 Deferred issuance (issuer/deferral.go, issuer/deferred_credential_endpoint.go and the store contract of
 issuer/deferred_credential_store.go).

 A transaction waits for a decision, which issues or denies it, and the Wallet polls for the outcome.
 Issuing and polling each read the record, work without a lock, and come back to the store; any number
 of them, of any Credential Issuer sharing the store, run at once, each by its own clock. Step is one
 visit to the store; the lemmas are about every run of them.
 */
module DeferredTransactions {
  import opened Wrappers

  // ---- Records ----

  datatype Status = Pending | Issued | Denied

  datatype Credential = Credential(key: string, content: string)

  /** A transaction; an empty owner, clientId or subject is one not set, and no expiresAt never lapses. */
  datatype Record = Record(
    owner: string, clientId: string, subject: string, status: Status, configuration: string,
    bindingKeys: seq<string>, credentials: seq<Credential>, notificationId: string, expiresAt: Option<int>)

  /** What a store keeps under a transaction_id: an invalidated one's record is gone. */
  datatype Entry = Live(record: Record) | Invalidated

  type Entries = map<string, Entry>

  datatype Error = Unknown | Resolved | IdInUse | NotDeferred | BatchFailed

  /** A Credential Issuer: its identifier, AssuranceProduction, its configurations and record lifetime. */
  datatype Issuer = Issuer(name: string, production: bool, configurations: set<string>, lifetime: int)

  /** A poll's access token: whose it is, and the configurations it grants. */
  datatype Token = Token(clientId: string, subject: string, granted: set<string>)

  predicate Owns(me: Issuer, owner: string) {
    if owner == "" then !me.production else owner == me.name
  }

  predicate Lapsed(r: Record, now: int) {
    r.expiresAt.Some? && r.expiresAt.value <= now
  }

  /** checkPending. */
  function CheckPending(me: Issuer, r: Record, now: int): Option<Error> {
    if !Owns(me, r.owner) then Some(Unknown)
    else if r.status != Pending || Lapsed(r, now) then Some(Resolved)
    else None
  }

  predicate MayPoll(r: Record, token: Token) {
    && (r.clientId == "" || token.clientId == r.clientId)
    && (r.subject == "" || token.subject == r.subject)
    && (r.configuration == "" || r.configuration in token.granted)
  }

  /** One credential per binding key, bound to it. */
  predicate OnePerKey(credentials: seq<Credential>, keys: seq<string>) {
    && |credentials| == |keys|
    && forall i | 0 <= i < |keys| :: credentials[i].key == keys[i]
  }

  function Batch(keys: seq<string>, contents: seq<string>): (credentials: seq<Credential>)
    requires |contents| == |keys|
    ensures OnePerKey(credentials, keys) && forall i | 0 <= i < |keys| :: credentials[i].content == contents[i]
  {
    seq(|keys|, i requires 0 <= i < |keys| => Credential(keys[i], contents[i]))
  }

  // ---- The closures passed to Update ----

  function Issue(me: Issuer, credentials: seq<Credential>, notificationId: string, now: int):
    Record -> Result<Record, Error>
  {
    (r: Record) =>
      match CheckPending(me, r, now)
      case Some(e) => Failure(e)
      case None =>
        Success(r.(status := Issued, credentials := credentials, notificationId := notificationId,
                   expiresAt := if r.expiresAt.Some? then Some(now + me.lifetime) else None))
  }

  function Deny(me: Issuer, now: int): Record -> Result<Record, Error> {
    (r: Record) =>
      match CheckPending(me, r, now)
      case Some(e) => Failure(e)
      case None => Success(r.(status := Denied))
  }

  function Abandon(me: Issuer): Record -> Result<Record, Error> {
    (r: Record) => Success(if r.status == Pending && Owns(me, r.owner) then r.(status := Denied) else r)
  }

  // ---- The store ----

  function Find(entries: Entries, id: string): Result<Record, Error> {
    if id in entries && entries[id].Live? then Success(entries[id].record) else Failure(Unknown)
  }

  /** The entries an Update leaves, and its error. */
  function Updated(entries: Entries, id: string, change: Record -> Result<Record, Error>): (Entries, Option<Error>) {
    match Find(entries, id)
    case Failure(e) => (entries, Some(e))
    case Success(r) =>
      match change(r)
      case Failure(e) => (entries, Some(e))
      case Success(s) => (entries[id := Live(s)], None)
  }

  /** id names a record of me's. */
  predicate Mine(me: Issuer, entries: Entries, id: string) {
    && id in entries && entries[id].Live?
    && var owner := entries[id].record.owner;
       (owner == "" ==> !me.production) && (owner != "" ==> owner == me.name)
  }

  /** id names a record of me's that still awaits its decision. */
  predicate Awaits(me: Issuer, entries: Entries, id: string, now: int) {
    && Mine(me, entries, id) && entries[id].record.status == Pending
    && (entries[id].record.expiresAt.None? || now < entries[id].record.expiresAt.value)
  }

  /**
   Who may collect what r records: whoever polls the issuer it was saved by, or one not in production where
   none is recorded, with a token of its client, its subject and its configuration, of those it has.
   */
  predicate HeldBy(me: Issuer, token: Token, r: Record) {
    && (r.owner == "" ==> !me.production) && (r.owner != "" ==> r.owner == me.name)
    && (r.clientId != "" ==> token.clientId == r.clientId)
    && (r.subject != "" ==> token.subject == r.subject)
    && (r.configuration != "" ==> r.configuration in token.granted)
  }

  class Store {
    var entries: Entries

    constructor ()
      ensures entries == map[]
    {
      entries := map[];
    }

    method Get(id: string) returns (found: Result<Record, Error>)
      ensures found == Find(entries, id)
    {
      if id in entries && entries[id].Live? {
        return Success(entries[id].record);
      }
      return Failure(Unknown);
    }

    method Create(id: string, r: Record) returns (error: Option<Error>)
      modifies this
      ensures error == if id in old(entries) then Some(IdInUse) else None
      ensures entries == if id in old(entries) then old(entries) else old(entries)[id := Live(r)]
    {
      if id in entries {
        return Some(IdInUse);
      }
      entries := entries[id := Live(r)];
      return None;
    }

    method Update(id: string, change: Record -> Result<Record, Error>) returns (error: Option<Error>)
      modifies this
      ensures (entries, error) == Updated(old(entries), id, change)
    {
      var found := Get(id);
      if found.Failure? {
        return Some(found.error);
      }
      var changed := change(found.value);
      if changed.Failure? {
        return Some(changed.error);
      }
      entries := entries[id := Live(changed.value)];
      return None;
    }

    method Invalidate(id: string) returns (error: Option<Error>)
      modifies this
      ensures error == if id in old(entries) && old(entries)[id].Live? then None else Some(Unknown)
      ensures entries == if error.None? then old(entries)[id := Invalidated] else old(entries)
    {
      var found := Get(id);
      if found.Failure? {
        return Some(Unknown);
      }
      entries := entries[id := Invalidated];
      return None;
    }

    /** pendingDeferredTransaction, and the record's own checks, before a batch is built. */
    method PendingKeys(me: Issuer, id: string, now: int) returns (keys: Result<seq<string>, Error>)
      ensures keys == KeysToIssue(me, entries, id, now)
      ensures
        if !Mine(me, entries, id) then keys == Failure(Unknown)
        else
          var r := entries[id].record;
          if !Awaits(me, entries, id, now) then keys == Failure(Resolved)
          else keys == if r.configuration in me.configurations && r.bindingKeys != [] then Success(r.bindingKeys)
                       else Failure(NotDeferred)
    {
      var found := Get(id);
      if found.Failure? {
        return Failure(found.error);
      }
      var refused := CheckPending(me, found.value, now);
      if refused.Some? {
        return Failure(refused.value);
      }
      if found.value.configuration !in me.configurations || found.value.bindingKeys == [] {
        return Failure(NotDeferred);
      }
      return Success(found.value.bindingKeys);
    }

    /** The end of issueDeferredCredential: the first to finish saves its batch, in one visit. */
    method SaveIssued(me: Issuer, id: string, credentials: seq<Credential>, notificationId: string, now: int)
      returns (error: Option<Error>)
      modifies this
      ensures error.None? <==> Awaits(me, old(entries), id, now)
      ensures error.None? ==>
                var r := old(entries)[id].record;
                var restarted := if r.expiresAt.Some? then Some(now + me.lifetime) else None;
                entries == old(entries)[id := Live(r.(status := Issued, credentials := credentials,
                                                       notificationId := notificationId, expiresAt := restarted))]
      ensures error.Some? ==>
                && entries == old(entries)
                && error.value == if !Mine(me, entries, id) then Unknown else Resolved
    {
      error := Update(id, Issue(me, credentials, notificationId, now));
    }

    /** denyPending. */
    method DenyPending(me: Issuer, id: string, now: int) returns (error: Option<Error>)
      modifies this
      ensures error.None? <==> Awaits(me, old(entries), id, now)
      ensures error.None? ==> entries == old(entries)[id := Live(old(entries)[id].record.(status := Denied))]
      ensures error.Some? ==>
                && entries == old(entries)
                && error.value == if !Mine(me, entries, id) then Unknown else Resolved
    {
      error := Update(id, Deny(me, now));
    }

    /** abandonDeferral, which denies even a transaction that has lapsed, and reports nothing. */
    method AbandonDeferral(me: Issuer, id: string)
      modifies this
      ensures entries ==
                if Mine(me, old(entries), id) && old(entries)[id].record.status == Pending
                then old(entries)[id := Live(old(entries)[id].record.(status := Denied))]
                else old(entries)
    {
      var _ := Update(id, Abandon(me));
    }

    /** One poll with nothing in between its Get and its Invalidate. */
    method Poll(me: Issuer, token: Token, id: string, now: int) returns (answer: Answer)
      modifies this
      ensures
        match PollRead(me, token, old(entries), id, now)
        case Settled(a) => answer == a && entries == old(entries)
        case Collect(r) =>
          && answer == Delivered(r.credentials, r.notificationId)
          && entries == old(entries)[id := Invalidated]
      ensures
        if
          && id in old(entries) && old(entries)[id].Live? && HeldBy(me, token, old(entries)[id].record)
          && (old(entries)[id].record.expiresAt.Some? ==> now < old(entries)[id].record.expiresAt.value)
        then
          var r := old(entries)[id].record;
          && (r.status == Pending ==> answer == StillPending) && (r.status == Denied ==> answer == RequestDenied)
          && (r.status == Issued ==> answer == Delivered(r.credentials, r.notificationId))
          && entries == if r.status == Issued then old(entries)[id := Invalidated] else old(entries)
        else answer == InvalidTransactionId && entries == old(entries)
    {
      var found := Get(id);
      if found.Failure? || !Owns(me, found.value.owner) || Lapsed(found.value, now) || !MayPoll(found.value, token) {
        return InvalidTransactionId;
      }
      var r := found.value;
      match r.status {
        case Pending => return StillPending;
        case Denied => return RequestDenied;
        case Issued =>
          var error := Invalidate(id);
          if error.Some? {
            return InvalidTransactionId;
          }
          return Delivered(r.credentials, r.notificationId);
      }
    }
  }

  // ---- Issuing and polling, the two operations that visit the store twice ----

  function KeysToIssue(me: Issuer, entries: Entries, id: string, now: int): Result<seq<string>, Error> {
    match Find(entries, id)
    case Failure(e) => Failure(e)
    case Success(r) =>
      match CheckPending(me, r, now)
      case Some(e) => Failure(e)
      case None =>
        if r.configuration !in me.configurations || r.bindingKeys == [] then Failure(NotDeferred)
        else Success(r.bindingKeys)
  }

  datatype Answer =
    | InvalidTransactionId
    | StillPending
    | RequestDenied
    | Delivered(credentials: seq<Credential>, notificationId: string)

  /** What a poll's Get leads to: an answer, or credentials to return if its Invalidate succeeds. */
  datatype Read = Settled(answer: Answer) | Collect(record: Record)

  function PollRead(me: Issuer, token: Token, entries: Entries, id: string, now: int): Read {
    match Find(entries, id)
    case Failure(_) => Settled(InvalidTransactionId)
    case Success(r) =>
      if !Owns(me, r.owner) || Lapsed(r, now) || !MayPoll(r, token) then Settled(InvalidTransactionId)
      else
        match r.status
        case Pending => Settled(StillPending)
        case Denied => Settled(RequestDenied)
        case Issued => Collect(r)
  }

  // ---- Runs ----

  datatype Issuing = Issuing(me: Issuer, id: string, keys: seq<string>)

  datatype Collecting = Collecting(id: string, record: Record)

  /** Any record a request or a deployment creates is pending and holds no credentials yet. */
  type NewRecord = r: Record | r.status == Pending && r.credentials == []
    witness Record("", "", "", Pending, "", [], [], "", None)

  datatype Action =
    | Creates(id: string, record: NewRecord)
    | BeginsIssue(me: Issuer, id: string, now: int)
    | FinishesIssue(call: nat, contents: seq<string>, notificationId: string, now: int)
    | Denies(me: Issuer, id: string, now: int)
    | Abandons(me: Issuer, id: string)
    | BeginsPoll(me: Issuer, token: Token, id: string, now: int)
    | FinishesPoll(poll: nat)

  datatype Event =
    | Created(id: string, record: Record)
    | BeganIssue(id: string)
    | Won(call: nat, id: string, credentials: seq<Credential>, notificationId: string)
    | LostIssue(call: nat, id: string, error: Error)
    | WasDenied(id: string)
    | BeganCollecting(id: string)
    | Answered(id: string, answer: Answer)
    | Refused(error: Error)

  /**
   The store, and what every issue and poll under way has read. Both lists only grow, so the model lets
   one finish twice, which the lemmas need not exclude.
   */
  datatype State = State(entries: Entries, issuing: seq<Issuing>, collecting: seq<Collecting>)

  const START := State(map[], [], [])

  function Finished(s: State, next: (Entries, Option<Error>), id: string, done: Event): (State, Event) {
    match next.1
    case None => (s.(entries := next.0), done)
    case Some(e) => (s.(entries := next.0), Refused(e))
  }

  function FinishIssue(s: State, a: Action): (State, Event)
    requires a.FinishesIssue?
  {
    if a.call >= |s.issuing| then (s, Refused(Unknown))
    else
      var i := s.issuing[a.call];
      if |a.contents| != |i.keys| then (s, Refused(BatchFailed))
      else
        var credentials := Batch(i.keys, a.contents);
        var (entries, error) := Updated(s.entries, i.id, Issue(i.me, credentials, a.notificationId, a.now));
        (s.(entries := entries),
         if error.None? then Won(a.call, i.id, credentials, a.notificationId) else LostIssue(a.call, i.id, error.value))
  }

  function FinishPoll(s: State, poll: nat): (State, Event) {
    if poll >= |s.collecting| then (s, Refused(Unknown))
    else
      var c := s.collecting[poll];
      if Find(s.entries, c.id).Success? then
        (s.(entries := s.entries[c.id := Invalidated]),
         Answered(c.id, Delivered(c.record.credentials, c.record.notificationId)))
      else (s, Answered(c.id, InvalidTransactionId))
  }

  function Step(s: State, a: Action): (State, Event) {
    match a
    case Creates(id, r) =>
      if id in s.entries then (s, Refused(IdInUse))
      else (s.(entries := s.entries[id := Live(r)]), Created(id, r))
    case BeginsIssue(me, id, now) =>
      (match KeysToIssue(me, s.entries, id, now)
       case Failure(e) => (s, Refused(e))
       case Success(keys) => (s.(issuing := s.issuing + [Issuing(me, id, keys)]), BeganIssue(id)))
    case FinishesIssue(_, _, _, _) => FinishIssue(s, a)
    case Denies(me, id, now) => Finished(s, Updated(s.entries, id, Deny(me, now)), id, WasDenied(id))
    case Abandons(me, id) =>
      var next := Updated(s.entries, id, Abandon(me));
      Finished(s, next, id, if next.0 == s.entries then Refused(Resolved) else WasDenied(id))
    case BeginsPoll(me, token, id, now) =>
      (match PollRead(me, token, s.entries, id, now)
       case Settled(answer) => (s, Answered(id, answer))
       case Collect(r) => (s.(collecting := s.collecting + [Collecting(id, r)]), BeganCollecting(id)))
    case FinishesPoll(poll) => FinishPoll(s, poll)
  }

  function Run(actions: seq<Action>): (State, seq<Event>) {
    if actions == [] then (START, [])
    else
      var (s, log) := Run(actions[..|actions| - 1]);
      var (t, e) := Step(s, actions[|actions| - 1]);
      (t, log + [e])
  }

  // ---- What a log says of one transaction ----

  datatype Kind = Creation | Resolution | Winning | Denial | Delivery

  /** e is an event of kind k for id; a resolution is its status leaving Pending. */
  predicate Is(e: Event, k: Kind, id: string) {
    match k
    case Creation => e.Created? && e.id == id
    case Resolution => (e.Won? || e.WasDenied?) && e.id == id
    case Winning => e.Won? && e.id == id
    case Denial => (e.WasDenied? && e.id == id) || e == Answered(id, RequestDenied)
    case Delivery => e.Answered? && e.id == id && e.answer.Delivered?
  }

  ghost predicate Has(log: seq<Event>, k: Kind, id: string) {
    exists i | 0 <= i < |log| :: Is(log[i], k, id)
  }

  ghost predicate AtMostOnce(log: seq<Event>, k: Kind, id: string) {
    forall i, j | 0 <= i < j < |log| :: !(Is(log[i], k, id) && Is(log[j], k, id))
  }

  /** One of log's issues won with just these credentials and this notification_id. */
  ghost predicate WonWith(log: seq<Event>, id: string, credentials: seq<Credential>, notificationId: string) {
    exists call: nat :: Won(call, id, credentials, notificationId) in log
  }

  /** id was created with these binding keys, by owner. */
  ghost predicate CreatedFor(log: seq<Event>, id: string, keys: seq<string>, owner: string) {
    exists r: Record :: Created(id, r) in log && r.bindingKeys == keys && r.owner == owner
  }

  /** r and q are one request's: they differ in its decision alone. */
  predicate SameRequest(r: Record, q: Record) {
    && r.owner == q.owner && r.clientId == q.clientId && r.subject == q.subject
    && r.configuration == q.configuration && r.bindingKeys == q.bindingKeys
    && (r.expiresAt.Some? <==> q.expiresAt.Some?) && (r.status != Issued ==> r.expiresAt == q.expiresAt)
  }

  ghost predicate CreatedAs(log: seq<Event>, id: string, r: Record) {
    exists q: Record :: Created(id, q) in log && SameRequest(r, q)
  }

  function EntryOf(s: State, id: string): Option<Entry> {
    if id in s.entries then Some(s.entries[id]) else None
  }

  /** The entry under id is the one log tells of. */
  ghost predicate Agrees(entry: Option<Entry>, log: seq<Event>, id: string) {
    match entry
    case None => forall k :: !Has(log, k, id)
    case Some(Invalidated) =>
      && Has(log, Creation, id) && Has(log, Resolution, id) && !Has(log, Denial, id) && Has(log, Delivery, id)
    case Some(Live(r)) =>
      && !Has(log, Delivery, id)
      && CreatedAs(log, id, r)
      && (match r.status
          case Pending => !Has(log, Resolution, id) && !Has(log, Denial, id) && Created(id, r) in log
          case Issued => !Has(log, Denial, id) && WonWith(log, id, r.credentials, r.notificationId)
          case Denied => !Has(log, Winning, id) && Has(log, Resolution, id))
  }

  /** Each transaction is created, resolved and delivered at most once. */
  ghost predicate OneShot(log: seq<Event>) {
    forall id, k: Kind | k.Creation? || k.Resolution? || k.Delivery? :: AtMostOnce(log, k, id)
  }

  ghost predicate Faithful(log: seq<Event>) {
    && (forall e | e in log && e.Answered? && e.answer.Delivered? ::
          WonWith(log, e.id, e.answer.credentials, e.answer.notificationId))
    && (forall e, c | e in log && c in log && e.Won? && c.Created? && c.id == e.id ::
          OnePerKey(e.credentials, c.record.bindingKeys))
  }

  ghost predicate ReadsAgree(s: State, log: seq<Event>) {
    && (forall c | c in s.collecting :: WonWith(log, c.id, c.record.credentials, c.record.notificationId))
    && (forall i | i in s.issuing :: exists owner :: CreatedFor(log, i.id, i.keys, owner) && Owns(i.me, owner))
  }

  ghost predicate Invariant(s: State, log: seq<Event>) {
    && (forall id :: Agrees(EntryOf(s, id), log, id))
    && OneShot(log) && Faithful(log) && ReadsAgree(s, log)
  }

  // ---- Every run keeps the invariant ----

  lemma Appended(log: seq<Event>, e: Event, k: Kind, id: string)
    ensures Has(log + [e], k, id) <==> Has(log, k, id) || Is(e, k, id)
  {
    var more := log + [e];
    if Has(log, k, id) {
      var i :| 0 <= i < |log| && Is(log[i], k, id);
      assert Is(more[i], k, id);
    }
    if Is(e, k, id) {
      assert Is(more[|log|], k, id);
    }
  }

  lemma AppendedOnce(log: seq<Event>, e: Event, k: Kind, id: string)
    requires AtMostOnce(log, k, id)
    requires Is(e, k, id) ==> !Has(log, k, id)
    ensures AtMostOnce(log + [e], k, id)
  {
  }

  lemma WinIsLogged(log: seq<Event>, id: string, credentials: seq<Credential>, notificationId: string)
    requires WonWith(log, id, credentials, notificationId)
    ensures Has(log, Winning, id) && Has(log, Resolution, id)
  {
    var call: nat :| Won(call, id, credentials, notificationId) in log;
    var i :| 0 <= i < |log| && log[i] == Won(call, id, credentials, notificationId);
    assert Is(log[i], Winning, id) && Is(log[i], Resolution, id);
  }

  /** What an event needs of the log it is appended to, for id's entry to go from before to after. */
  ghost predicate Transition(before: Option<Entry>, after: Option<Entry>, log: seq<Event>, e: Event, id: string) {
    || (after == before && !Is(e, Creation, id) && !Is(e, Resolution, id) && !Is(e, Delivery, id)
        && (Is(e, Denial, id) ==> before.Some? && before.value.Live? && before.value.record.status == Denied))
    || (before == None && exists r: NewRecord :: e == Created(id, r) && after == Some(Live(r)))
    || (exists r: Record, s: Record ::
          && before == Some(Live(r)) && r.status == Pending && after == Some(Live(s))
          && SameRequest(s, r)
          && ((s.status == Denied && e == WasDenied(id))
              || (s.status == Issued && e.Won? && e.id == id
                  && e.credentials == s.credentials && e.notificationId == s.notificationId)))
    || (before.Some? && before.value.Live? && after == Some(Invalidated) && Is(e, Delivery, id)
        && WonWith(log, id, e.answer.credentials, e.answer.notificationId))
  }

  lemma TransitionAgrees(before: Option<Entry>, after: Option<Entry>, log: seq<Event>, e: Event, id: string)
    requires Agrees(before, log, id) && Transition(before, after, log, e, id)
    ensures Agrees(after, log + [e], id)
    ensures forall k: Kind | k.Creation? || k.Resolution? || k.Delivery? :: Is(e, k, id) ==> !Has(log, k, id)
  {
    var more := log + [e];
    forall k: Kind ensures Has(more, k, id) <==> Has(log, k, id) || Is(e, k, id) {
      Appended(log, e, k, id);
    }
  }

  lemma IssueIsTransition(s: State, log: seq<Event>, a: Action, id: string)
    requires Invariant(s, log) && a.FinishesIssue?
    ensures Transition(EntryOf(s, id), EntryOf(FinishIssue(s, a).0, id), log, FinishIssue(s, a).1, id)
  {
    hide Agrees, ReadsAgree, Faithful, OneShot, Batch, OnePerKey;
    var (t, e) := FinishIssue(s, a);
    if e.Won? && e.id == id {
      assert EntryOf(t, id) == Some(Live(t.entries[id].record));
      assert EntryOf(s, id) == Some(Live(s.entries[id].record));
    }
  }

  lemma DecisionIsTransition(s: State, log: seq<Event>, a: Action, id: string)
    requires a.Denies? || a.Abandons?
    ensures Transition(EntryOf(s, id), EntryOf(Step(s, a).0, id), log, Step(s, a).1, id)
  {
    hide FinishIssue, FinishPoll;
    var (t, e) := Step(s, a);
    if e.WasDenied? && e.id == id {
      assert EntryOf(t, id) == Some(Live(t.entries[id].record));
      assert EntryOf(s, id) == Some(Live(s.entries[id].record));
    } else {
      assert EntryOf(t, id) == EntryOf(s, id);
    }
  }

  lemma PollIsTransition(s: State, log: seq<Event>, poll: nat, id: string)
    requires ReadsAgree(s, log)
    ensures Transition(EntryOf(s, id), EntryOf(FinishPoll(s, poll).0, id), log, FinishPoll(s, poll).1, id)
  {
    var (t, e) := FinishPoll(s, poll);
    if poll < |s.collecting| {
      assert s.collecting[poll] in s.collecting;
    }
  }

  lemma StepIsTransition(s: State, log: seq<Event>, a: Action, id: string)
    requires Invariant(s, log)
    ensures Transition(EntryOf(s, id), EntryOf(Step(s, a).0, id), log, Step(s, a).1, id)
  {
    hide FinishIssue, FinishPoll, Agrees, ReadsAgree, Faithful, OneShot, Updated;
    match a
    case FinishesIssue(_, _, _, _) =>
      IssueIsTransition(s, log, a, id);
    case FinishesPoll(poll) =>
      PollIsTransition(s, log, poll, id);
    case Denies(_, _, _) =>
      DecisionIsTransition(s, log, a, id);
    case Abandons(_, _) =>
      DecisionIsTransition(s, log, a, id);
    case _ =>
  }

  lemma StillLogged(log: seq<Event>, e: Event)
    ensures forall id, c, n | WonWith(log, id, c, n) :: WonWith(log + [e], id, c, n)
    ensures forall id, keys, owner | CreatedFor(log, id, keys, owner) :: CreatedFor(log + [e], id, keys, owner)
  {
    forall id, c, n | WonWith(log, id, c, n) ensures WonWith(log + [e], id, c, n) {
      var call: nat :| Won(call, id, c, n) in log;
      assert Won(call, id, c, n) in log + [e];
    }
    forall id, keys, owner | CreatedFor(log, id, keys, owner) ensures CreatedFor(log + [e], id, keys, owner) {
      var r: Record :| Created(id, r) in log && r.bindingKeys == keys && r.owner == owner;
      assert Created(id, r) in log + [e];
    }
  }

  /** An issue begins with the keys, and under the owner, the transaction was created with. */
  lemma BeginsOnCreated(s: State, log: seq<Event>, me: Issuer, id: string, now: int)
    requires Agrees(EntryOf(s, id), log, id) && KeysToIssue(me, s.entries, id, now).Success?
    ensures var keys := KeysToIssue(me, s.entries, id, now).value;
            exists owner :: CreatedFor(log, id, keys, owner) && Owns(me, owner)
  {
    var r := s.entries[id].record;
    var q: Record :| Created(id, q) in log && SameRequest(r, q);
    assert CreatedFor(log, id, q.bindingKeys, q.owner) && Owns(me, q.owner);
  }

  /** Credentials are collected from a transaction that was won with them. */
  lemma CollectsTheWin(s: State, log: seq<Event>, me: Issuer, token: Token, id: string, now: int)
    requires Agrees(EntryOf(s, id), log, id) && PollRead(me, token, s.entries, id, now).Collect?
    ensures var r := PollRead(me, token, s.entries, id, now).record;
            WonWith(log, id, r.credentials, r.notificationId)
  {
  }

  lemma StepKeepsReads(s: State, log: seq<Event>, a: Action)
    requires Invariant(s, log)
    ensures ReadsAgree(Step(s, a).0, log + [Step(s, a).1])
  {
    hide Agrees, WonWith, CreatedFor, Faithful, OneShot, PollRead, KeysToIssue, Updated, Owns;
    StillLogged(log, Step(s, a).1);
    match a
    case BeginsIssue(me, id, now) =>
      if KeysToIssue(me, s.entries, id, now).Success? {
        BeginsOnCreated(s, log, me, id, now);
      }
    case BeginsPoll(me, token, id, now) =>
      if PollRead(me, token, s.entries, id, now).Collect? {
        CollectsTheWin(s, log, me, token, id, now);
      }
    case _ =>
  }

  /** The credentials an issue builds are one per key of the creation, there being only one. */
  lemma WonForCreation(s: State, log: seq<Event>, a: Action, created: Record)
    requires Invariant(s, log) && a.FinishesIssue? && FinishIssue(s, a).1.Won?
    requires Created(FinishIssue(s, a).1.id, created) in log
    ensures OnePerKey(FinishIssue(s, a).1.credentials, created.bindingKeys)
  {
    hide Agrees, WonWith, Faithful, Updated, OnePerKey;
    var i := s.issuing[a.call];
    assert i in s.issuing;
    var owner :| CreatedFor(log, i.id, i.keys, owner);
    var r: Record :| Created(i.id, r) in log && r.bindingKeys == i.keys && r.owner == owner;
    assert AtMostOnce(log, Creation, i.id);
    var j :| 0 <= j < |log| && log[j] == Created(i.id, r);
    var k :| 0 <= k < |log| && log[k] == Created(i.id, created);
    assert Is(log[j], Creation, i.id) && Is(log[k], Creation, i.id);
  }

  lemma NothingBeforeCreation(s: State, log: seq<Event>, a: Action, w: Event)
    requires Invariant(s, log) && Step(s, a).1.Created? && w in log && w.Won?
    ensures w.id != Step(s, a).1.id
  {
    hide OneShot, Faithful, ReadsAgree, Updated;
    var id := Step(s, a).1.id;
    assert Agrees(EntryOf(s, id), log, id);
    assert !Has(log, Winning, id);
    var i :| 0 <= i < |log| && log[i] == w;
    assert !Is(log[i], Winning, id);
  }

  lemma StepKeepsFaithful(s: State, log: seq<Event>, a: Action)
    requires Invariant(s, log)
    ensures Faithful(log + [Step(s, a).1])
  {
    hide WonWith, OnePerKey;
    var (t, e) := Step(s, a);
    StillLogged(log, e);
    var more := log + [e];
    forall d | d in more && d.Answered? && d.answer.Delivered?
      ensures WonWith(more, d.id, d.answer.credentials, d.answer.notificationId)
    {
      hide Agrees, OneShot;
      if d !in log {
        StepIsTransition(s, log, a, d.id);
      }
    }
    forall w, c | w in more && c in more && w.Won? && c.Created? && c.id == w.id
      ensures OnePerKey(w.credentials, c.record.bindingKeys)
    {
      hide Agrees, OneShot, FinishIssue, FinishPoll, Updated;
      if c !in log {
        NothingBeforeCreation(s, log, a, w);
      } else if w !in log {
        WonForCreation(s, log, a, c.record);
      }
    }
  }

  lemma StepKeepsInvariant(s: State, log: seq<Event>, a: Action)
    requires Invariant(s, log)
    ensures Invariant(Step(s, a).0, log + [Step(s, a).1])
  {
    var (t, e) := Step(s, a);
    StepKeepsReads(s, log, a);
    StepKeepsFaithful(s, log, a);
    hide Step, Agrees, Transition;
    forall id ensures Agrees(EntryOf(t, id), log + [e], id) {
      StepIsTransition(s, log, a, id);
      TransitionAgrees(EntryOf(s, id), EntryOf(t, id), log, e, id);
    }
    forall id, k: Kind | k.Creation? || k.Resolution? || k.Delivery? ensures AtMostOnce(log + [e], k, id) {
      StepIsTransition(s, log, a, id);
      TransitionAgrees(EntryOf(s, id), EntryOf(t, id), log, e, id);
      AppendedOnce(log, e, k, id);
    }
  }

  lemma {:induction false} RunKeepsInvariant(actions: seq<Action>)
    ensures Invariant(Run(actions).0, Run(actions).1)
  {
    hide Step, Agrees;
    if actions == [] {
      assert forall id :: Agrees(None, [], id) by { NothingYet(); }
    } else {
      var before := actions[..|actions| - 1];
      RunKeepsInvariant(before);
      StepKeepsInvariant(Run(before).0, Run(before).1, actions[|actions| - 1]);
    }
  }

  lemma NothingYet()
    ensures forall id :: Agrees(None, [], id)
  {
  }

  // ---- The results ----

  /** In every run a transaction is decided at most once and its credentials are handed over at most once. */
  lemma DecidedAndDeliveredOnce(actions: seq<Action>, id: string)
    ensures AtMostOnce(Run(actions).1, Resolution, id) && AtMostOnce(Run(actions).1, Delivery, id)
  {
    RunKeepsInvariant(actions);
  }

  /** No run both denies a transaction, or answers a poll so, and issues or delivers it, in whichever order. */
  lemma NeverDeniedAndDelivered(actions: seq<Action>, id: string)
    ensures var log := Run(actions).1;
            Has(log, Denial, id) ==> !Has(log, Delivery, id) && !Has(log, Winning, id)
  {
    var (s, log) := Run(actions);
    RunKeepsInvariant(actions);
    assert Agrees(EntryOf(s, id), log, id);
    if Has(log, Winning, id) {
      var i :| 0 <= i < |log| && Is(log[i], Winning, id);
      WinBarsDenial(s, log, i, id);
    }
  }

  lemma WinBarsDenial(s: State, log: seq<Event>, i: nat, id: string)
    requires Agrees(EntryOf(s, id), log, id) && i < |log| && Is(log[i], Winning, id)
    ensures !Has(log, Denial, id)
  {
    assert Has(log, Winning, id);
    assert Is(log[i], Resolution, id);
    assert Has(log, Resolution, id);
  }

  lemma DeliveryTells(s: State, log: seq<Event>, d: Event) returns (created: Record)
    requires Invariant(s, log) && d in log && d.Answered? && d.answer.Delivered?
    ensures Created(d.id, created) in log
  {
    hide OnePerKey, OneShot, Faithful, ReadsAgree, WonWith, CreatedFor;
    var id := d.id;
    assert Agrees(EntryOf(s, id), log, id);
    var j :| 0 <= j < |log| && log[j] == d;
    assert Is(log[j], Delivery, id);
    assert Has(log, Delivery, id);
    var k :| 0 <= k < |log| && Is(log[k], Creation, id);
    created := log[k].record;
  }

  lemma WonOnce(log: seq<Event>, id: string)
    requires AtMostOnce(log, Resolution, id)
    ensures AtMostOnce(log, Winning, id)
  {
    assert forall i | 0 <= i < |log| && Is(log[i], Winning, id) :: Is(log[i], Resolution, id);
  }

  /** What a Wallet collects is what the one winning issue saved, one credential per key of the request. */
  lemma DeliveredIsTheWin(actions: seq<Action>, d: Event)
    requires d in Run(actions).1 && d.Answered? && d.answer.Delivered?
    ensures var log := Run(actions).1;
            && WonWith(log, d.id, d.answer.credentials, d.answer.notificationId)
            && AtMostOnce(log, Winning, d.id)
            && (exists created: Record ::
                  Created(d.id, created) in log && OnePerKey(d.answer.credentials, created.bindingKeys))
  {
    hide Run, Agrees, OnePerKey, ReadsAgree;
    var (s, log) := Run(actions);
    RunKeepsInvariant(actions);
    var created := DeliveryTells(s, log, d);
    WonOnce(log, d.id);
    var call: nat :| Won(call, d.id, d.answer.credentials, d.answer.notificationId) in log;
    assert OnePerKey(d.answer.credentials, created.bindingKeys);
  }

  lemma CreatedOnce(log: seq<Event>, id: string, r: Record, q: Record)
    requires AtMostOnce(log, Creation, id) && Created(id, r) in log && Created(id, q) in log
    ensures r == q
  {
    var j :| 0 <= j < |log| && log[j] == Created(id, r);
    var k :| 0 <= k < |log| && log[k] == Created(id, q);
    assert Is(log[j], Creation, id) && Is(log[k], Creation, id);
  }

  /** An issue under way holds the keys, and owns the record, of its transaction's one creation. */
  lemma IssuingOwns(s: State, log: seq<Event>, call: nat, created: Record)
    requires Invariant(s, log) && call < |s.issuing| && Created(s.issuing[call].id, created) in log
    ensures Owns(s.issuing[call].me, created.owner) && s.issuing[call].keys == created.bindingKeys
  {
    hide Agrees, Faithful, Owns;
    var i := s.issuing[call];
    assert i in s.issuing;
    var owner :| CreatedFor(log, i.id, i.keys, owner) && Owns(i.me, owner);
    var r: Record :| Created(i.id, r) in log && r.bindingKeys == i.keys && r.owner == owner;
    assert AtMostOnce(log, Creation, i.id);
    CreatedOnce(log, i.id, r, created);
  }

  /** What the entry of a created transaction is, from the log. */
  lemma EntryTells(s: State, log: seq<Event>, id: string, created: Record)
    requires Invariant(s, log) && Created(id, created) in log
    ensures id in s.entries
    ensures s.entries[id].Invalidated? <==> Has(log, Delivery, id)
    ensures s.entries[id].Live? ==>
              var r := s.entries[id].record;
              SameRequest(r, created) && (if Has(log, Resolution, id) then r.status != Pending else r == created && r.status == Pending)
  {
    hide Faithful, ReadsAgree;
    assert Agrees(EntryOf(s, id), log, id);
    var i :| 0 <= i < |log| && log[i] == Created(id, created);
    assert Is(log[i], Creation, id);
    assert Has(log, Creation, id);
    assert AtMostOnce(log, Creation, id);
    if s.entries[id].Live? {
      var r := s.entries[id].record;
      var q: Record :| Created(id, q) in log && SameRequest(r, q);
      CreatedOnce(log, id, q, created);
      if r.status == Pending {
        CreatedOnce(log, id, r, created);
      } else if r.status == Issued {
        WinIsLogged(log, id, r.credentials, r.notificationId);
      }
    }
  }

  /** How an issue ends, given the record its transaction was created with. */
  ghost function IssueEnd(log: seq<Event>, created: Record, id: string, now: int): Option<Error> {
    if Has(log, Delivery, id) then Some(Unknown)
    else if Has(log, Resolution, id) || (created.expiresAt.Some? && created.expiresAt.value <= now) then Some(Resolved)
    else None
  }

  /**
   Of the issues that race for a transaction the first to finish while it is pending and has not lapsed
   wins. Every later one is told the transaction is resolved, unless a poll has collected the winner's
   credentials by then: to it the transaction is unknown.
   */
  lemma HowAnIssueEnds(actions: seq<Action>, a: Action, created: Record)
    requires a.FinishesIssue? && a.call < |Run(actions).0.issuing|
    requires |a.contents| == |Run(actions).0.issuing[a.call].keys|
    requires Created(Run(actions).0.issuing[a.call].id, created) in Run(actions).1
    ensures var (s, log) := Run(actions);
            var i := s.issuing[a.call];
            var (t, e) := Step(s, a);
            match IssueEnd(log, created, i.id, a.now)
            case None => e == Won(a.call, i.id, Batch(i.keys, a.contents), a.notificationId) && i.keys == created.bindingKeys
            case Some(error) => e == LostIssue(a.call, i.id, error) && t == s
  {
    hide Run, Agrees, OneShot, Faithful, ReadsAgree, Has;
    var (s, log) := Run(actions);
    RunKeepsInvariant(actions);
    IssuingOwns(s, log, a.call, created);
    EntryTells(s, log, s.issuing[a.call].id, created);
  }

  /**
   Credentials are collected only for who asked for them: the client and the subject the request was made
   by, where it has them, with a token that still grants its configuration, and from the issuer it was made
   to; and only between the decision to issue and the delivery.
   */
  lemma CollectsForItsHolder(actions: seq<Action>, a: Action, created: Record)
    requires a.BeginsPoll? && Created(a.id, created) in Run(actions).1
    requires Step(Run(actions).0, a).1.BeganCollecting?
    ensures Owns(a.me, created.owner) && MayPoll(created, a.token)
    ensures if created.owner == "" then !a.me.production else a.me.name == created.owner
    ensures created.clientId != "" ==> a.token.clientId == created.clientId
    ensures created.subject != "" ==> a.token.subject == created.subject
    ensures created.configuration != "" ==> created.configuration in a.token.granted
    ensures Has(Run(actions).1, Resolution, a.id) && !Has(Run(actions).1, Delivery, a.id) && !Has(Run(actions).1, Denial, a.id)
  {
    hide Run, Faithful, ReadsAgree, OneShot;
    var (s, log) := Run(actions);
    RunKeepsInvariant(actions);
    EntryTells(s, log, a.id, created);
    assert Agrees(EntryOf(s, a.id), log, a.id);
  }

  /** When id expires: when created said, until an issue has restarted it. */
  ghost function Expiry(s: State, log: seq<Event>, id: string, created: Record): Option<int>
    requires id in s.entries
  {
    if Has(log, Winning, id) && s.entries[id].Live? then s.entries[id].record.expiresAt else created.expiresAt
  }

  /** The decision the log records on id shows in its entry. */
  lemma DecisionTells(s: State, log: seq<Event>, id: string)
    requires Agrees(EntryOf(s, id), log, id) && id in s.entries && s.entries[id].Live?
    ensures var r := s.entries[id].record;
            && !Has(log, Delivery, id)
            && (r.status == Issued <==> Has(log, Winning, id))
            && (r.status == Denied <==> Has(log, Resolution, id) && !Has(log, Winning, id))
            && (Has(log, Denial, id) ==> r.status == Denied)
            && (r.status == Issued ==> WonWith(log, id, r.credentials, r.notificationId))
  {
    var r := s.entries[id].record;
    if r.status == Issued {
      WinIsLogged(log, id, r.credentials, r.notificationId);
    }
    if Has(log, Winning, id) {
      var i :| 0 <= i < |log| && Is(log[i], Winning, id);
      assert Is(log[i], Resolution, id);
    }
  }

  /**
   How a poll of a created transaction is answered, in every run: to anyone but its holder, once it expired
   and once it was delivered, that there is no such transaction. Its holder is told that it is still pending
   until it is decided, that it was denied ever after a denial, and after the win gets the batch that won, by
   its Invalidate if no other poll was first.
   */
  lemma HowAPollIsAnswered(actions: seq<Action>, a: Action, created: Record)
    requires a.BeginsPoll? && Created(a.id, created) in Run(actions).1
    ensures var (s, log) := Run(actions);
            var (t, e) := Step(s, a);
            && a.id in s.entries
            && var expiresAt := Expiry(s, log, a.id, created);
            if Has(log, Delivery, a.id) || !HeldBy(a.me, a.token, created) || (expiresAt.Some? && expiresAt.value <= a.now) then
              e == Answered(a.id, InvalidTransactionId)
            else if Has(log, Winning, a.id) then
              var (u, f) := Step(t, FinishesPoll(|s.collecting|));
              && e == BeganCollecting(a.id) && f.Answered? && f.id == a.id && f.answer.Delivered?
              && WonWith(log, a.id, f.answer.credentials, f.answer.notificationId)
              && u.entries == s.entries[a.id := Invalidated]
            else
              e == Answered(a.id, if Has(log, Denial, a.id) || Has(log, Resolution, a.id) then RequestDenied else StillPending)
  {
    hide Run, Faithful, ReadsAgree, OneShot, Has, Agrees, WonWith, Expiry;
    var (s, log) := Run(actions);
    RunKeepsInvariant(actions);
    EntryTells(s, log, a.id, created);
    assert Agrees(EntryOf(s, a.id), log, a.id);
    ExpiryIs(s, log, a.id, created);
    if s.entries[a.id].Live? {
      DecisionTells(s, log, a.id);
      PollReads(s, a);
    }
  }

  lemma ExpiryIs(s: State, log: seq<Event>, id: string, created: Record)
    requires id in s.entries
    ensures Expiry(s, log, id, created)
         == if Has(log, Winning, id) && s.entries[id].Live? then s.entries[id].record.expiresAt else created.expiresAt
  {
  }

  /** Of the polls that collect, the first to come back gets the batch that won, and every later one nothing. */
  lemma HowACollectingPollEnds(actions: seq<Action>, poll: nat)
    requires poll < |Run(actions).0.collecting|
    ensures var (s, log) := Run(actions);
            var id := s.collecting[poll].id;
            var (t, e) := Step(s, FinishesPoll(poll));
            if Has(log, Delivery, id) then t == s && e == Answered(id, InvalidTransactionId)
            else
              && t.entries == s.entries[id := Invalidated] && e.Answered? && e.id == id && e.answer.Delivered?
              && WonWith(log, id, e.answer.credentials, e.answer.notificationId)
  {
    hide Run, Faithful, OneShot, WonWith, Has;
    var (s, log) := Run(actions);
    RunKeepsInvariant(actions);
    var c := s.collecting[poll];
    assert c in s.collecting;
    WinIsLogged(log, c.id, c.record.credentials, c.record.notificationId);
    assert Agrees(EntryOf(s, c.id), log, c.id);
  }

  /** What a poll of a live entry reads. */
  lemma PollReads(s: State, a: Action)
    requires a.BeginsPoll? && a.id in s.entries && s.entries[a.id].Live?
    ensures var r := s.entries[a.id].record;
            var (t, e) := Step(s, a);
            if !HeldBy(a.me, a.token, r) || (r.expiresAt.Some? && r.expiresAt.value <= a.now) then
              e == Answered(a.id, InvalidTransactionId)
            else if r.status == Issued then
              var (u, f) := Step(t, FinishesPoll(|s.collecting|));
              && e == BeganCollecting(a.id) && f == Answered(a.id, Delivered(r.credentials, r.notificationId))
              && u.entries == s.entries[a.id := Invalidated]
            else e == Answered(a.id, if r.status == Denied then RequestDenied else StillPending)
  {
  }

  /** An action refused, or a poll that collects nothing, leaves every transaction as it was. */
  lemma RefusalsChangeNothing(s: State, a: Action)
    ensures var (t, e) := Step(s, a);
            (e.Refused? || e.LostIssue? || (e.Answered? && !e.answer.Delivered?)) ==> t == s
  {
  }

  lemma RunThen(actions: seq<Action>, a: Action)
    ensures var (s, log) := Run(actions);
            var (t, e) := Step(s, a);
            Run(actions + [a]) == (t, log + [e])
  {
    assert (actions + [a])[..|actions|] == actions;
  }

  /** Two issues under way, the first wins, a poll collects, and the second comes too late. */
  lemma LateStep(s: State, me: Issuer, r: Record, token: Token, contents: seq<string>, now: int)
    requires r.status == Pending && Owns(me, r.owner) && !Lapsed(r, now) && MayPoll(r, token)
    requires |contents| == |r.bindingKeys| && (r.expiresAt.Some? ==> me.lifetime > 0)
    requires s == State(map["t" := Live(r)], [Issuing(me, "t", r.bindingKeys), Issuing(me, "t", r.bindingKeys)], [])
    ensures var (won, e1) := Step(s, FinishesIssue(0, contents, "n", now));
            var (read, e2) := Step(won, BeginsPoll(me, token, "t", now));
            var (gone, e3) := Step(read, FinishesPoll(0));
            var (_, e4) := Step(gone, FinishesIssue(1, contents, "m", now));
            && Is(e1, Winning, "t") && Is(e3, Delivery, "t") && e4 == LostIssue(1, "t", Unknown)
  {
  }

  lemma EarlySteps(me: Issuer, r: NewRecord, now: int) returns (actions: seq<Action>)
    requires Owns(me, r.owner) && !Lapsed(r, now) && r.configuration in me.configurations && r.bindingKeys != []
    ensures Run(actions).0 == State(map["t" := Live(r)],
                                    [Issuing(me, "t", r.bindingKeys), Issuing(me, "t", r.bindingKeys)], [])
  {
    var create, begin := Creates("t", r), BeginsIssue(me, "t", now);
    RunThen([], create);
    assert [] + [create] == [create];
    RunThen([create], begin);
    assert [create] + [begin] == [create, begin];
    RunThen([create, begin], begin);
    actions := [create, begin] + [begin];
  }

  /**
   The documented result of a losing issue, that it is told the transaction is resolved, fails: of two issues
   for any request, the second is told it is unknown when a poll that may collect comes between.
   */
  lemma LosingIssueMayFindItUnknown(me: Issuer, r: NewRecord, token: Token, now: int) returns (actions: seq<Action>)
    requires Owns(me, r.owner) && r.configuration in me.configurations && r.bindingKeys != []
    requires !Lapsed(r, now) && (r.expiresAt.Some? ==> me.lifetime > 0) && MayPoll(r, token)
    ensures var log := Run(actions).1;
            && |log| > 0 && log[|log| - 1] == LostIssue(1, "t", Unknown)
            && Has(log, Winning, "t") && Has(log, Delivery, "t")
  {
    var contents := seq(|r.bindingKeys|, _ => "");
    var race := EarlySteps(me, r, now);
    LateStep(Run(race).0, me, r, token, contents, now);
    hide Step, Run, Is;
    var won, read := FinishesIssue(0, contents, "n", now), BeginsPoll(me, token, "t", now);
    var collect, late := FinishesPoll(0), FinishesIssue(1, contents, "m", now);
    RunThen(race, won);
    RunThen(race + [won], read);
    RunThen(race + [won] + [read], collect);
    RunThen(race + [won] + [read] + [collect], late);
    actions := race + [won] + [read] + [collect] + [late];
    var n, log := |Run(race).1|, Run(actions).1;
    assert Is(log[n], Winning, "t") && Is(log[n + 2], Delivery, "t");
  }

  /** Such a request as startDeferral saves it, and its holder's token. */
  lemma LosingIssueExample() returns (actions: seq<Action>)
    ensures var log := Run(actions).1; |log| > 0 && log[|log| - 1] == LostIssue(1, "t", Unknown)
  {
    var me := Issuer("https://issuer.example", true, {"pid"}, 3600);
    var r := Record(me.name, "wallet", "alice", Pending, "pid", ["key"], [], "", Some(1000));
    actions := LosingIssueMayFindItUnknown(me, r, Token("wallet", "alice", {"pid"}), 10);
  }
}
