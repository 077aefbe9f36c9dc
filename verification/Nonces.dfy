/**
 c_nonces: stateless ones, tagged by a key and recorded once spent, and ones the store holds
 (issuer/stateless_nonce.go, issuer/nonce_endpoint.go, issuer/proofs.go consumeNonce, and the store
 contracts of issuer/nonce.go).

 Replicas, with and without nonce keys and of any Credential Issuers, share a store that a sweeper
 empties of what has expired. A replica reads its clock, judges a stateless c_nonce, and only then
 records it as spent, so a sweep can come in between. Step is one action of one of them; the lemmas are
 about every run.
 */
module Nonces {
  import opened Wrappers
  import opened Durations
  import opened Encodings

  // ---- The store ----

  datatype Record = Record(owner: string, expiresAt: int)

  type Records = map<string, Record>

  /** The records a sweep at time keeps. */
  function Swept(records: Records, time: int): Records {
    map n | n in records && time <= records[n].expiresAt :: records[n]
  }

  class Store {
    var records: Records

    constructor ()
      ensures records == map[]
    {
      records := map[];
    }

    method Issue(nonce: string, record: Record) returns (ok: bool)
      modifies this
      ensures ok == (nonce !in old(records))
      ensures records == if ok then old(records)[nonce := record] else old(records)
    {
      ok := nonce !in records;
      if ok {
        records := records[nonce := record];
      }
    }

    /** Fails for a c_nonce recorded already, whoever recorded it. */
    method Spend(nonce: string, record: Record) returns (ok: bool)
      modifies this
      ensures ok == (nonce !in old(records))
      ensures records == if ok then old(records)[nonce := record] else old(records)
    {
      ok := Issue(nonce, record);
    }

    /** Retires the c_nonce it returns; another owner's stays. */
    method Consume(nonce: string, owner: string) returns (consumed: Option<Record>)
      modifies this
      ensures consumed == Held(old(records), nonce, owner)
      ensures records == if consumed.Some? then old(records) - {nonce} else old(records)
    {
      if nonce in records && records[nonce].owner == owner {
        consumed := Some(records[nonce]);
        records := records - {nonce};
      } else {
        consumed := None;
      }
    }

    method Sweep(time: int)
      modifies this
      ensures records == Swept(old(records), time)
    {
      records := map n | n in records && time <= records[n].expiresAt :: records[n];
    }
  }

  function Held(records: Records, nonce: string, owner: string): Option<Record> {
    if nonce in records && records[nonce].owner == owner then Some(records[nonce]) else None
  }

  // ---- One replica ----

  /** A process of the Credential Issuer owner; with keys its c_nonces are stateless. */
  datatype Replica = Replica(owner: string, keys: seq<Bytes>, lifetime: int)

  datatype Refusal = Unknown | Unopened(error: OpenError) | Expired | Outlives

  const SPENT_NONCE_MARGIN: int := 5 * MINUTE

  function SpentOwner(owner: string): string {
    "c_nonce spent by " + owner
  }

  /** When a stateless c_nonce expires, if it is one of replica's Credential Issuer and still accepted at now. */
  function Check(mac: Mac, replica: Replica, nonce: string, now: int): Result<int, Refusal> {
    match Open(mac, replica.keys, AsciiBytes(replica.owner), nonce)
    case Failure(e) => Failure(Unopened(e))
    case Success(seconds) =>
      var expiry := seconds * SECOND;
      if now > expiry then Failure(Expired)
      else if expiry - now > replica.lifetime then Failure(Outlives)
      else Success(expiry)
  }

  /** issueNonce: a stateless c_nonce writes nothing. */
  method IssueNonce(mac: Mac, replica: Replica, store: Store, now: int, random: Bytes) returns (nonce: Option<string>)
    requires 0 <= now + replica.lifetime < (MAX_UNIX_SECONDS + 1) * SECOND
    requires replica.keys != [] ==> |random| == RANDOM_BYTES
    modifies store
    ensures replica.keys != [] ==>
              && nonce == Some(StatelessNonce(mac, replica.keys[0], AsciiBytes(replica.owner), (now + replica.lifetime) / SECOND, random))
              && IsStateless(nonce.value) && store.records == old(store.records)
    ensures replica.keys == [] && nonce.Some? ==>
              && nonce.value !in old(store.records) && !IsStateless(nonce.value)
              && store.records == old(store.records)[nonce.value := Record(replica.owner, now + replica.lifetime)]
    ensures nonce.None? <==> replica.keys == [] && Base64Url(random) in old(store.records)
    ensures nonce.None? ==> store.records == old(store.records)
    ensures replica.keys == [] && nonce.Some? ==> nonce.value == Base64Url(random)
  {
    var expiry := now + replica.lifetime;
    if replica.keys != [] {
      return Some(StatelessNonce(mac, replica.keys[0], AsciiBytes(replica.owner), expiry / SECOND, random));
    }
    StoredNeverStateless(random);
    var ok := store.Issue(Base64Url(random), Record(replica.owner, expiry));
    nonce := if ok then Some(Base64Url(random)) else None;
  }

  /** Whether replica accepts nonce at now, given what the store has recorded. */
  predicate Accepts(mac: Mac, replica: Replica, records: Records, nonce: string, now: int) {
    if IsStateless(nonce) then
      replica.keys != [] && Check(mac, replica, nonce, now).Success? && nonce !in records
    else
      var held := Held(records, nonce, replica.owner);
      held.Some? && now <= held.value.expiresAt
  }

  /** What its consuming nonce leaves recorded: a stateless one it accepts, and not one the store held for it. */
  function AfterConsuming(mac: Mac, replica: Replica, records: Records, nonce: string, now: int): Records {
    if IsStateless(nonce) then
      if Accepts(mac, replica, records, nonce, now) then
        records[nonce := Record(SpentOwner(replica.owner), Check(mac, replica, nonce, now).value + SPENT_NONCE_MARGIN)]
      else records
    else if Held(records, nonce, replica.owner).Some? then records - {nonce}
    else records
  }

  /** consumeNonce, with no other visit to the store in between. */
  method ConsumeNonce(mac: Mac, replica: Replica, store: Store, nonce: string, now: int) returns (refusal: Option<Refusal>)
    modifies store
    ensures refusal.None? <==> Accepts(mac, replica, old(store.records), nonce, now)
    ensures store.records == AfterConsuming(mac, replica, old(store.records), nonce, now)
    ensures IsStateless(nonce) ==>
              var expiry := Open(mac, replica.keys, AsciiBytes(replica.owner), nonce);
              && (refusal.None? <==>
                    && replica.keys != [] && nonce !in old(store.records)
                    && expiry.Success? && now <= expiry.value * SECOND <= now + replica.lifetime)
              && store.records ==
                   if refusal.Some? then old(store.records)
                   else old(store.records)[nonce := Record("c_nonce spent by " + replica.owner, expiry.value * SECOND + 5 * MINUTE)]
    ensures !IsStateless(nonce) ==>
              var held := nonce in old(store.records) && old(store.records)[nonce].owner == replica.owner;
              && (refusal.None? <==> held && now <= old(store.records)[nonce].expiresAt)
              && store.records == if held then old(store.records) - {nonce} else old(store.records)
  {
    hide Open;
    if IsStateless(nonce) {
      if replica.keys == [] {
        return Some(Unknown);
      }
      var checked := Check(mac, replica, nonce, now);
      if checked.Failure? {
        return Some(checked.error);
      }
      var ok := store.Spend(nonce, Record(SpentOwner(replica.owner), checked.value + SPENT_NONCE_MARGIN));
      return if ok then None else Some(Unknown);
    }
    var consumed := store.Consume(nonce, replica.owner);
    if consumed.None? {
      return Some(Unknown);
    }
    return if now > consumed.value.expiresAt then Some(Expired) else None;
  }

  /** What was accepted is not accepted again: not until it is issued again, or its record swept. */
  lemma AcceptedIsUsed(mac: Mac, replica: Replica, records: Records, nonce: string, now: int, other: Replica, later: int)
    requires Accepts(mac, replica, records, nonce, now)
    ensures !Accepts(mac, other, AfterConsuming(mac, replica, records, nonce, now), nonce, later)
  {
  }

  // ---- How long a stateless c_nonce is accepted ----

  /**
   Issued at t, a c_nonce is accepted by a replica with its key from a lifetime before the whole second
   its lifetime ends in until that second, and at no other time.
   */
  lemma AcceptanceWindow(mac: Mac, issuer: Replica, checker: Replica, t: int, random: Bytes, now: int)
    requires issuer.keys != [] && issuer.keys[0] in checker.keys && issuer.owner == checker.owner
    requires 0 <= t + issuer.lifetime < (MAX_UNIX_SECONDS + 1) * SECOND && |random| == RANDOM_BYTES
    requires forall message :: |mac(issuer.keys[0], message)| == TAG_BYTES
    ensures var seconds := (t + issuer.lifetime) / SECOND;
            var nonce := StatelessNonce(mac, issuer.keys[0], AsciiBytes(issuer.owner), seconds, random);
            Check(mac, checker, nonce, now).Success? <==> seconds * SECOND - checker.lifetime <= now <= seconds * SECOND
  {
    hide Open, StatelessNonce;
    var seconds := (t + issuer.lifetime) / SECOND;
    OpenUndoesIssue(mac, checker.keys, issuer.keys[0], AsciiBytes(issuer.owner), seconds, random);
  }

  /** The expiry a stateless c_nonce carries, in its first bytes whoever opens it. */
  function ExpiryOf(nonce: string): int {
    match DecodeStrict(TrimPrefix(nonce))
    case None => 0
    case Some(raw) => if |raw| < EXPIRY_BYTES then 0 else ValueOf(raw[..EXPIRY_BYTES]) * SECOND
  }

  /** The bytes a stateless c_nonce stands for: its expiry, randomness and tag. */
  function BytesOf(nonce: string): Option<Bytes> {
    DecodeStrict(TrimPrefix(nonce))
  }

  lemma CheckTellsExpiry(mac: Mac, replica: Replica, nonce: string, now: int)
    requires Check(mac, replica, nonce, now).Success?
    ensures Check(mac, replica, nonce, now).value == ExpiryOf(nonce) && now <= ExpiryOf(nonce)
    ensures BytesOf(nonce).Some?
  {
    hide OpenBody;
    var raw := DecodeStrict(TrimPrefix(nonce)).value;
    OpenBodyMeaning(mac, replica.keys, AsciiBytes(replica.owner), raw[..BODY_BYTES], raw[BODY_BYTES..]);
    assert raw[..BODY_BYTES][..EXPIRY_BYTES] == raw[..EXPIRY_BYTES];
  }

  predicate HasLineBreak(s: string) {
    exists i | 0 <= i < |s| :: IsLineBreak(s[i])
  }

  /**
   A c_nonce is spent by its string. The bytes of one that opens are those of another string exactly when
   the two differ in line breaks alone, which Go's decoder skips: without any, by no other string.
   */
  lemma OneStringPerNonce(m: string, n: string)
    requires IsStateless(m) && IsStateless(n) && BytesOf(m).Some?
    ensures BytesOf(n) == BytesOf(m) <==> WithoutLineBreaks(TrimPrefix(n)) == WithoutLineBreaks(TrimPrefix(m))
    ensures BytesOf(n) == BytesOf(m) && !HasLineBreak(m) && !HasLineBreak(n) ==> m == n
  {
    hide DecodeStrict, Base64Url, WithoutLineBreaks;
    var bytes := DecodeStrict(TrimPrefix(m)).value;
    DecodesExactly(TrimPrefix(m), bytes);
    DecodesExactly(TrimPrefix(n), bytes);
    if !HasLineBreak(m) && !HasLineBreak(n) {
      assert forall i | 0 <= i < |TrimPrefix(m)| :: TrimPrefix(m)[i] == m[i + |STATELESS_PREFIX|];
      assert forall i | 0 <= i < |TrimPrefix(n)| :: TrimPrefix(n)[i] == n[i + |STATELESS_PREFIX|];
      NoLineBreaks(TrimPrefix(m));
      NoLineBreaks(TrimPrefix(n));
      assert m == STATELESS_PREFIX + TrimPrefix(m) && n == STATELESS_PREFIX + TrimPrefix(n);
    }
  }

  // ---- Runs ----

  datatype Deployment = Deployment(mac: Mac, replicas: seq<Replica>)

  /** A stateless c_nonce judged acceptable at now and not recorded yet, while waiting. */
  datatype Spending = Spending(replica: nat, nonce: string, now: int, expiry: int, waiting: bool)

  datatype State = State(records: Records, clocks: seq<int>, spendings: seq<Spending>)

  datatype Action =
    | Ticks(replica: nat, span: nat)
    | Issues(replica: nat, random: Bytes)
    | Checks(replica: nat, nonce: string)
    | Spends(spending: nat)
    | Consumes(replica: nat, nonce: string)
    | Sweeps(time: int)

  datatype Event =
    | Quiet
    | Issued(nonce: string)
    | Spent(nonce: string, replica: nat)
    | Consumed(nonce: string, replica: nat, inTime: bool)

  function Start(clocks: seq<int>): State {
    State(map[], clocks, [])
  }

  function Step(d: Deployment, s: State, a: Action): (State, Event)
    requires |s.clocks| == |d.replicas|
  {
    match a
    case Ticks(r, span) =>
      if r >= |s.clocks| then (s, Quiet) else (s.(clocks := s.clocks[r := s.clocks[r] + span]), Quiet)
    case Issues(r, random) =>
      var nonce := Base64Url(random);
      if r >= |s.clocks| || d.replicas[r].keys != [] || nonce in s.records then (s, Quiet)
      else (s.(records := s.records[nonce := Record(d.replicas[r].owner, s.clocks[r] + d.replicas[r].lifetime)]), Issued(nonce))
    case Checks(r, nonce) =>
      if r >= |s.clocks| || !IsStateless(nonce) || d.replicas[r].keys == [] then (s, Quiet)
      else
        (match Check(d.mac, d.replicas[r], nonce, s.clocks[r])
         case Failure(_) => (s, Quiet)
         case Success(expiry) =>
           (s.(spendings := s.spendings + [Spending(r, nonce, s.clocks[r], expiry, true)]), Quiet))
    case Spends(i) =>
      if i >= |s.spendings| || !s.spendings[i].waiting || s.spendings[i].replica >= |d.replicas| then (s, Quiet)
      else
        var p := s.spendings[i];
        var done := s.(spendings := s.spendings[i := p.(waiting := false)]);
        if p.nonce in s.records then (done, Quiet)
        else
          var record := Record(SpentOwner(d.replicas[p.replica].owner), p.expiry + SPENT_NONCE_MARGIN);
          (done.(records := s.records[p.nonce := record]), Spent(p.nonce, p.replica))
    case Consumes(r, nonce) =>
      if r >= |s.clocks| || IsStateless(nonce) then (s, Quiet)
      else
        (match Held(s.records, nonce, d.replicas[r].owner)
         case None => (s, Quiet)
         case Some(record) =>
           (s.(records := s.records - {nonce}), Consumed(nonce, r, s.clocks[r] <= record.expiresAt)))
    case Sweeps(time) => (s.(records := Swept(s.records, time)), Quiet)
  }

  lemma StepKeepsReplicas(d: Deployment, s: State, a: Action)
    requires |s.clocks| == |d.replicas|
    ensures |Step(d, s, a).0.clocks| == |d.replicas|
  {
  }

  function Run(d: Deployment, clocks: seq<int>, actions: seq<Action>): (result: (State, seq<Event>))
    requires |clocks| == |d.replicas|
    ensures |result.0.clocks| == |d.replicas|
  {
    if actions == [] then (Start(clocks), [])
    else
      var (s, log) := Run(d, clocks, actions[..|actions| - 1]);
      StepKeepsReplicas(d, s, actions[|actions| - 1]);
      var (t, e) := Step(d, s, actions[|actions| - 1]);
      (t, log + [e])
  }

  /**
   The steps are what consumeNonce and issueNonce do: checking and recording with no visit in between, or
   consuming, accepts as Accepts says and leaves the records AfterConsuming says; and an issued one that
   the store holds is recorded as its issuer's for a lifetime.
   */
  lemma StepsAreVisits(d: Deployment, s: State, r: nat, nonce: string, random: Bytes)
    requires r < |s.clocks| == |d.replicas|
    ensures var me, now := d.replicas[r], s.clocks[r];
            && (IsStateless(nonce) ==>
                  var (t, e) := Step(d, Step(d, s, Checks(r, nonce)).0, Spends(|s.spendings|));
                  && t.records == AfterConsuming(d.mac, me, s.records, nonce, now) && t.clocks == s.clocks
                  && e == if Accepts(d.mac, me, s.records, nonce, now) then Spent(nonce, r) else Quiet)
            && (!IsStateless(nonce) ==>
                  var (t, e) := Step(d, s, Consumes(r, nonce));
                  && t == s.(records := AfterConsuming(d.mac, me, s.records, nonce, now))
                  && (e == Consumed(nonce, r, true) <==> Accepts(d.mac, me, s.records, nonce, now))
                  && (e == Quiet <==> t == s) && (e.Consumed? || e == Quiet))
            && var (t, e) := Step(d, s, Issues(r, random));
               if me.keys == [] && Base64Url(random) !in s.records then
                 && e == Issued(Base64Url(random))
                 && t == s.(records := s.records[Base64Url(random) := Record(me.owner, now + me.lifetime)])
               else t == s && e == Quiet
  {
    hide Check, IsStateless, Base64Url;
    if !IsStateless(nonce) && nonce in s.records {
      assert nonce !in s.records - {nonce};
    }
  }

  /** A sweep's clock is at most ahead ahead of every replica's. */
  predicate SweepsWithin(s: State, a: Action, ahead: int) {
    a.Sweeps? ==> forall r | 0 <= r < |s.clocks| :: a.time <= s.clocks[r] + ahead
  }

  /** And at most the margin ahead of it. */
  predicate NotAheadOfClocks(s: State, a: Action) {
    SweepsWithin(s, a, SPENT_NONCE_MARGIN)
  }

  /** And of every clock reading a request still to record its c_nonce was judged by. */
  predicate NotAheadOfRequests(s: State, a: Action) {
    a.Sweeps? ==> forall i | 0 <= i < |s.spendings| && s.spendings[i].waiting :: a.time <= s.spendings[i].now + SPENT_NONCE_MARGIN
  }

  ghost predicate TimelySweeps(d: Deployment, clocks: seq<int>, actions: seq<Action>)
    requires |clocks| == |d.replicas|
  {
    actions == [] ||
    (var before := actions[..|actions| - 1];
     var s, a := Run(d, clocks, before).0, actions[|actions| - 1];
     TimelySweeps(d, clocks, before) && NotAheadOfClocks(s, a) && NotAheadOfRequests(s, a))
  }

  // ---- Once only ----

  predicate IsSpent(e: Event, nonce: string) {
    e.Spent? && e.nonce == nonce
  }

  ghost predicate HasSpent(log: seq<Event>, nonce: string) {
    exists i | 0 <= i < |log| :: IsSpent(log[i], nonce)
  }

  ghost predicate SpentOnce(log: seq<Event>, nonce: string) {
    forall i, j | 0 <= i < j < |log| :: !(IsSpent(log[i], nonce) && IsSpent(log[j], nonce))
  }

  /** No replica will accept nonce again, nor is about to. */
  ghost predicate Past(s: State, nonce: string) {
    && (forall r | 0 <= r < |s.clocks| :: s.clocks[r] > ExpiryOf(nonce))
    && (forall i | 0 <= i < |s.spendings| && s.spendings[i].waiting :: s.spendings[i].nonce != nonce)
  }

  ghost predicate Remembered(s: State, nonce: string) {
    if nonce in s.records then s.records[nonce].expiresAt == ExpiryOf(nonce) + SPENT_NONCE_MARGIN else Past(s, nonce)
  }

  ghost predicate SpendingsJudged(s: State) {
    forall p | p in s.spendings ::
      IsStateless(p.nonce) && BytesOf(p.nonce).Some? && p.expiry == ExpiryOf(p.nonce) && p.now <= p.expiry
  }

  ghost predicate SpentInvariant(s: State, log: seq<Event>) {
    && SpendingsJudged(s)
    && (forall n | HasSpent(log, n) :: IsStateless(n) && BytesOf(n).Some? && Remembered(s, n))
    && (forall n :: SpentOnce(log, n))
  }

  lemma AppendedSpent(log: seq<Event>, e: Event, nonce: string)
    ensures HasSpent(log + [e], nonce) <==> HasSpent(log, nonce) || IsSpent(e, nonce)
    ensures SpentOnce(log, nonce) && !(HasSpent(log, nonce) && IsSpent(e, nonce)) ==> SpentOnce(log + [e], nonce)
  {
    var more := log + [e];
    if HasSpent(log, nonce) {
      var i :| 0 <= i < |log| && IsSpent(log[i], nonce);
      assert IsSpent(more[i], nonce);
    }
    if IsSpent(e, nonce) {
      assert IsSpent(more[|log|], nonce);
    }
  }

  lemma StepKeepsJudged(d: Deployment, s: State, a: Action)
    requires |s.clocks| == |d.replicas| && SpendingsJudged(s)
    ensures SpendingsJudged(Step(d, s, a).0)
  {
    hide ExpiryOf, BytesOf, Check;
    if a.Checks? && a.replica < |s.clocks| && Check(d.mac, d.replicas[a.replica], a.nonce, s.clocks[a.replica]).Success? {
      CheckTellsExpiry(d.mac, d.replicas[a.replica], a.nonce, s.clocks[a.replica]);
    }
  }

  lemma StepKeepsRemembered(d: Deployment, s: State, a: Action, nonce: string)
    requires |s.clocks| == |d.replicas| && SpendingsJudged(s)
    requires NotAheadOfClocks(s, a) && NotAheadOfRequests(s, a)
    requires IsStateless(nonce) && Remembered(s, nonce)
    ensures Remembered(Step(d, s, a).0, nonce) && !IsSpent(Step(d, s, a).1, nonce)
  {
    hide ExpiryOf, BytesOf, Check;
    match a
    case Issues(_, random) => StoredNeverStateless(random);
    case Checks(r, n) =>
      if r < |s.clocks| && Check(d.mac, d.replicas[r], n, s.clocks[r]).Success? {
        CheckTellsExpiry(d.mac, d.replicas[r], n, s.clocks[r]);
      }
    case _ =>
  }

  lemma SpendingIsRemembered(d: Deployment, s: State, a: Action, nonce: string)
    requires |s.clocks| == |d.replicas| && SpendingsJudged(s) && IsSpent(Step(d, s, a).1, nonce)
    ensures IsStateless(nonce) && BytesOf(nonce).Some? && Remembered(Step(d, s, a).0, nonce)
  {
    hide ExpiryOf, BytesOf, Check;
    assert s.spendings[a.spending] in s.spendings;
  }

  lemma StepKeepsSpent(d: Deployment, s: State, log: seq<Event>, a: Action)
    requires |s.clocks| == |d.replicas| && SpentInvariant(s, log)
    requires NotAheadOfClocks(s, a) && NotAheadOfRequests(s, a)
    ensures SpentInvariant(Step(d, s, a).0, log + [Step(d, s, a).1])
  {
    var (t, e) := Step(d, s, a);
    StepKeepsJudged(d, s, a);
    hide Step, Remembered, IsStateless, BytesOf, SpendingsJudged, NotAheadOfClocks, NotAheadOfRequests, IsSpent;
    forall n ensures SpentOnce(log + [e], n) && (HasSpent(log + [e], n) ==> IsStateless(n) && BytesOf(n).Some? && Remembered(t, n)) {
      AppendedSpent(log, e, n);
      if HasSpent(log, n) {
        StepKeepsRemembered(d, s, a, n);
      } else if IsSpent(e, n) {
        SpendingIsRemembered(d, s, a, n);
      }
    }
  }

  lemma {:induction false} RunKeepsSpent(d: Deployment, clocks: seq<int>, actions: seq<Action>)
    requires |clocks| == |d.replicas| && TimelySweeps(d, clocks, actions)
    ensures SpentInvariant(Run(d, clocks, actions).0, Run(d, clocks, actions).1)
  {
    hide Step, Remembered;
    if actions != [] {
      var before := actions[..|actions| - 1];
      RunKeepsSpent(d, clocks, before);
      StepKeepsSpent(d, Run(d, clocks, before).0, Run(d, clocks, before).1, actions[|actions| - 1]);
    }
  }

  /**
   Across all replicas and sweeps no stateless c_nonce is accepted twice, if no sweep runs more than five
   minutes ahead of a replica's clock or of a time a request still to be recorded was judged at.
   */
  lemma StatelessAcceptedOnce(d: Deployment, clocks: seq<int>, actions: seq<Action>, nonce: string)
    requires |clocks| == |d.replicas| && TimelySweeps(d, clocks, actions)
    ensures SpentOnce(Run(d, clocks, actions).1, nonce)
  {
    RunKeepsSpent(d, clocks, actions);
  }

  /**
   In such a run, of the strings accepted at two times that carry one c_nonce's bytes at least one has a
   line break: they differ, and in line breaks alone.
   */
  lemma SameBytesDifferInLineBreaks(d: Deployment, clocks: seq<int>, actions: seq<Action>, i: nat, j: nat)
    requires |clocks| == |d.replicas| && TimelySweeps(d, clocks, actions)
    requires var log := Run(d, clocks, actions).1;
             i < j < |log| && log[i].Spent? && log[j].Spent? && BytesOf(log[i].nonce) == BytesOf(log[j].nonce)
    ensures var log := Run(d, clocks, actions).1;
            var m, n := log[i].nonce, log[j].nonce;
            && m != n && WithoutLineBreaks(TrimPrefix(m)) == WithoutLineBreaks(TrimPrefix(n))
            && (HasLineBreak(m) || HasLineBreak(n))
  {
    hide Run, BytesOf, WithoutLineBreaks, HasLineBreak, TimelySweeps, Remembered, SpendingsJudged;
    var log := Run(d, clocks, actions).1;
    RunKeepsSpent(d, clocks, actions);
    var m, n := log[i].nonce, log[j].nonce;
    assert IsSpent(log[i], m) && IsSpent(log[j], n);
    assert SpentOnce(log, m);
    OneStringPerNonce(m, n);
  }

  /** The replicas are only asked to check strings admits lets through. */
  ghost predicate ChecksOnly(actions: seq<Action>, admits: string -> bool) {
    forall a | a in actions && a.Checks? :: admits(a.nonce)
  }

  /** Some replica accepts nonce at some time. */
  ghost predicate Acceptable(d: Deployment, nonce: string) {
    IsStateless(nonce) && exists r, now | 0 <= r < |d.replicas| :: AcceptedBy(d, r, nonce, now)
  }

  predicate AcceptedBy(d: Deployment, r: nat, nonce: string, now: int)
    requires r < |d.replicas|
  {
    d.replicas[r].keys != [] && Check(d.mac, d.replicas[r], nonce, now).Success?
  }

  lemma {:induction false} SpentWereAdmitted(d: Deployment, clocks: seq<int>, actions: seq<Action>, admits: string -> bool)
    requires |clocks| == |d.replicas| && ChecksOnly(actions, admits)
    ensures var (s, log) := Run(d, clocks, actions);
            && (forall p | p in s.spendings :: admits(p.nonce) && Acceptable(d, p.nonce))
            && (forall e | e in log && e.Spent? :: admits(e.nonce) && Acceptable(d, e.nonce))
  {
    hide Acceptable;
    if actions != [] {
      var before, a := actions[..|actions| - 1], actions[|actions| - 1];
      assert a in actions && forall b | b in before :: b in actions;
      SpentWereAdmitted(d, clocks, before, admits);
      StepSpendsAdmitted(d, Run(d, clocks, before).0, a, admits);
    }
  }

  lemma StepSpendsAdmitted(d: Deployment, s: State, a: Action, admits: string -> bool)
    requires |s.clocks| == |d.replicas| && forall p | p in s.spendings :: admits(p.nonce) && Acceptable(d, p.nonce)
    requires a.Checks? ==> admits(a.nonce)
    ensures var (t, e) := Step(d, s, a);
            && (forall p | p in t.spendings :: admits(p.nonce) && Acceptable(d, p.nonce))
            && (e.Spent? ==> admits(e.nonce) && Acceptable(d, e.nonce))
  {
    hide Check, IsStateless;
    match a
    case Checks(r, nonce) =>
      if r < |s.clocks| && IsStateless(nonce) && AcceptedBy(d, r, nonce, s.clocks[r]) {
        assert Acceptable(d, nonce);
      }
    case Spends(i) =>
      if i < |s.spendings| {
        assert s.spendings[i] in s.spendings;
      }
    case _ =>
  }

  /** No run with timely sweeps accepts one c_nonce's bytes twice, the replicas being asked for what admits lets through. */
  ghost predicate OncePerNonce(d: Deployment, admits: string -> bool) {
    forall clocks, actions, i: nat, j: nat
      | |clocks| == |d.replicas| && TimelySweeps(d, clocks, actions) && ChecksOnly(actions, admits) ::
      !AcceptsTwice(d, clocks, actions, i, j)
  }

  /** The i-th and the j-th event accept strings with the same bytes. */
  ghost predicate AcceptsTwice(d: Deployment, clocks: seq<int>, actions: seq<Action>, i: nat, j: nat)
    requires |clocks| == |d.replicas|
  {
    var log := Run(d, clocks, actions).1;
    i < j < |log| && log[i].Spent? && log[j].Spent? && BytesOf(log[i].nonce) == BytesOf(log[j].nonce)
  }

  /** Of the strings admits lets through that some replica accepts, no two differ in line breaks alone. */
  ghost predicate OneStringEach(d: Deployment, admits: string -> bool) {
    forall m, n | admits(m) && admits(n) && Acceptable(d, m) && Acceptable(d, n) && m != n ::
      WithoutLineBreaks(TrimPrefix(m)) != WithoutLineBreaks(TrimPrefix(n))
  }

  lemma OneStringEachSuffices(d: Deployment, admits: string -> bool)
    requires OneStringEach(d, admits)
    ensures OncePerNonce(d, admits)
  {
    hide Run, BytesOf, TimelySweeps, ChecksOnly, Acceptable;
    forall clocks, actions, i: nat, j: nat
      | |clocks| == |d.replicas| && TimelySweeps(d, clocks, actions) && ChecksOnly(actions, admits)
      ensures !AcceptsTwice(d, clocks, actions, i, j)
    {
      if AcceptsTwice(d, clocks, actions, i, j) {
        var log := Run(d, clocks, actions).1;
        SpentWereAdmitted(d, clocks, actions, admits);
        assert log[i] in log && log[j] in log;
        SameBytesDifferInLineBreaks(d, clocks, actions, i, j);
      }
    }
  }

  lemma OneStringEachIsNeeded(d: Deployment, admits: string -> bool, m: string, n: string)
    requires admits(m) && admits(n) && Acceptable(d, m) && IsStateless(n) && m != n && BytesOf(m) == BytesOf(n)
    ensures !OncePerNonce(d, admits)
  {
    hide Run, BytesOf, Check;
    var r, now :| 0 <= r < |d.replicas| && AcceptedBy(d, r, m, now);
    SameBytesSameCheck(d.mac, d.replicas[r], m, n, now);
    var clocks := seq(|d.replicas|, _ => now);
    var actions := BothAccepted(d, clocks, r, m, n);
    assert AcceptsTwice(d, clocks, actions, 1, 3);
  }

  /**
   Each c_nonce, by its bytes, is accepted at most once in every such run if and only if no two strings the
   replicas are asked to check, and accept, differ in line breaks alone.
   */
  lemma OncePerNonceIff(d: Deployment, admits: string -> bool)
    ensures OncePerNonce(d, admits) <==> OneStringEach(d, admits)
  {
    if OneStringEach(d, admits) {
      OneStringEachSuffices(d, admits);
    } else {
      var m, n :|
        && admits(m) && admits(n) && Acceptable(d, m) && Acceptable(d, n) && m != n
        && WithoutLineBreaks(TrimPrefix(m)) == WithoutLineBreaks(TrimPrefix(n));
      AcceptableHasBytes(d, m);
      OneStringPerNonce(m, n);
      OneStringEachIsNeeded(d, admits, m, n);
    }
  }

  /** So it is when none of them has a line break; LineBreakAcceptedAgain has a run where one does. */
  lemma OnceWithoutLineBreaks(d: Deployment)
    ensures OncePerNonce(d, s => !HasLineBreak(s))
  {
    hide OncePerNonce, BytesOf, HasLineBreak;
    var admits := s => !HasLineBreak(s);
    forall m, n | admits(m) && admits(n) && Acceptable(d, m) && Acceptable(d, n) && m != n
      ensures WithoutLineBreaks(TrimPrefix(m)) != WithoutLineBreaks(TrimPrefix(n))
    {
      AcceptableHasBytes(d, m);
      OneStringPerNonce(m, n);
    }
    OneStringEachSuffices(d, admits);
  }

  lemma AcceptableHasBytes(d: Deployment, nonce: string)
    requires Acceptable(d, nonce)
    ensures BytesOf(nonce).Some?
  {
    hide Check, BytesOf;
    var r, now :| 0 <= r < |d.replicas| && AcceptedBy(d, r, nonce, now);
    CheckTellsExpiry(d.mac, d.replicas[r], nonce, now);
  }

  lemma RunThen(d: Deployment, clocks: seq<int>, actions: seq<Action>, a: Action)
    requires |clocks| == |d.replicas|
    ensures var (s, log) := Run(d, clocks, actions);
            var (t, e) := Step(d, s, a);
            Run(d, clocks, actions + [a]) == (t, log + [e])
  {
    assert (actions + [a])[..|actions|] == actions;
  }

  /** A request checked and recorded at once, of a string acceptable and not recorded. */
  lemma AcceptsNext(d: Deployment, clocks: seq<int>, before: seq<Action>, r: nat, nonce: string) returns (spending: nat)
    requires |clocks| == |d.replicas| && r < |d.replicas| && IsStateless(nonce)
    requires nonce !in Run(d, clocks, before).0.records && AcceptedBy(d, r, nonce, Run(d, clocks, before).0.clocks[r])
    ensures var (s, log) := Run(d, clocks, before);
            var (t, more) := Run(d, clocks, before + [Checks(r, nonce)] + [Spends(spending)]);
            && more == log + [Quiet] + [Spent(nonce, r)]
            && t.records.Keys == s.records.Keys + {nonce} && t.clocks == s.clocks
  {
    var s := Run(d, clocks, before).0;
    AcceptSteps(d, s, r, nonce);
    RunThen(d, clocks, before, Checks(r, nonce));
    RunThen(d, clocks, before + [Checks(r, nonce)], Spends(|s.spendings|));
    hide Step, Run, AcceptedBy, IsStateless;
    spending := |s.spendings|;
  }

  lemma AcceptSteps(d: Deployment, s: State, r: nat, nonce: string)
    requires r < |s.clocks| == |d.replicas| && IsStateless(nonce)
    requires nonce !in s.records && AcceptedBy(d, r, nonce, s.clocks[r])
    ensures Step(d, s, Checks(r, nonce)).1 == Quiet
    ensures var (t, e) := Step(d, Step(d, s, Checks(r, nonce)).0, Spends(|s.spendings|));
            e == Spent(nonce, r) && t.records.Keys == s.records.Keys + {nonce} && t.clocks == s.clocks
  {
    hide Check, IsStateless;
  }

  /** Two strings a replica accepts now it accepts one after the other, with no sweep at all. */
  lemma BothAccepted(d: Deployment, clocks: seq<int>, r: nat, m: string, n: string) returns (actions: seq<Action>)
    requires r < |clocks| == |d.replicas| && IsStateless(m) && IsStateless(n) && m != n
    requires AcceptedBy(d, r, m, clocks[r]) && AcceptedBy(d, r, n, clocks[r])
    ensures TimelySweeps(d, clocks, actions)
    ensures forall a | a in actions && a.Checks? :: a.nonce == m || a.nonce == n
    ensures Run(d, clocks, actions).1 == [Quiet, Spent(m, r), Quiet, Spent(n, r)]
  {
    hide Run, Step, Check, Start, AcceptedBy, IsStateless, TimelySweeps;
    NothingRun(d, clocks);
    var i := AcceptsNext(d, clocks, [], r, m);
    var j := AcceptsNext(d, clocks, [] + [Checks(r, m)] + [Spends(i)], r, n);
    actions := [] + [Checks(r, m)] + [Spends(i)] + [Checks(r, n)] + [Spends(j)];
    TwoChecks(d, clocks, r, m, i, n, j);
  }

  lemma NothingRun(d: Deployment, clocks: seq<int>)
    requires |clocks| == |d.replicas|
    ensures var (s, log) := Run(d, clocks, []);
            s.records == map[] && s.clocks == clocks && log == []
  {
  }

  lemma TwoChecks(d: Deployment, clocks: seq<int>, r: nat, m: string, i: nat, n: string, j: nat)
    requires |clocks| == |d.replicas|
    ensures var actions := [] + [Checks(r, m)] + [Spends(i)] + [Checks(r, n)] + [Spends(j)];
            && TimelySweeps(d, clocks, actions)
            && forall a | a in actions && a.Checks? :: a.nonce == m || a.nonce == n
  {
    hide Run, TimelySweeps;
    var actions := [] + [Checks(r, m)] + [Spends(i)] + [Checks(r, n)] + [Spends(j)];
    assert actions == [Checks(r, m), Spends(i), Checks(r, n), Spends(j)];
    NoSweepIsTimely(d, clocks, actions);
  }

  lemma {:induction false} NoSweepIsTimely(d: Deployment, clocks: seq<int>, actions: seq<Action>)
    requires |clocks| == |d.replicas| && forall a | a in actions :: !a.Sweeps?
    ensures TimelySweeps(d, clocks, actions)
  {
    hide Run;
    if actions != [] {
      var before := actions[..|actions| - 1];
      assert forall a | a in before :: a in actions;
      assert actions[|actions| - 1] in actions;
      NoSweepIsTimely(d, clocks, before);
    }
  }

  lemma {:induction false} TrailingLineBreak(s: string)
    ensures WithoutLineBreaks(s + "\n") == WithoutLineBreaks(s)
  {
    if s == [] {
      assert s + "\n" == "\n";
    } else {
      TrailingLineBreak(s[1..]);
      assert (s + "\n")[1..] == s[1..] + "\n";
    }
  }

  /** Any c_nonce a replica accepts it accepts again, with the same bytes, by the string with a line break after it. */
  lemma LineBreakAcceptedAgain(d: Deployment, clocks: seq<int>, r: nat, nonce: string) returns (actions: seq<Action>)
    requires r < |clocks| == |d.replicas| && IsStateless(nonce) && AcceptedBy(d, r, nonce, clocks[r])
    ensures TimelySweeps(d, clocks, actions) && BytesOf(nonce + "\n") == BytesOf(nonce)
    ensures var log := Run(d, clocks, actions).1;
            log == [Quiet, Spent(nonce, r), Quiet, Spent(nonce + "\n", r)]
  {
    hide Check;
    var again := nonce + "\n";
    TrailingLineBreak(TrimPrefix(nonce));
    assert TrimPrefix(again) == TrimPrefix(nonce) + "\n";
    SameBytesSameCheck(d.mac, d.replicas[r], nonce, again, clocks[r]);
    actions := BothAccepted(d, clocks, r, nonce, again);
  }

  lemma SameBytesSameCheck(mac: Mac, replica: Replica, m: string, n: string, now: int)
    requires BytesOf(m) == BytesOf(n)
    ensures Check(mac, replica, m, now) == Check(mac, replica, n, now)
  {
    hide OpenBody;
  }

  // ---- How far ahead a sweep may be, and how late a request ----

  /** A request records its c_nonce before its replica's clock is more than late past the expiry. */
  predicate RecordsWithin(s: State, a: Action, late: int) {
    a.Spends? && a.spending < |s.spendings| && s.spendings[a.spending].waiting && s.spendings[a.spending].replica < |s.clocks| ==>
      s.clocks[s.spendings[a.spending].replica] <= s.spendings[a.spending].expiry + late
  }

  predicate Timely(s: State, a: Action, ahead: int, late: int) {
    SweepsWithin(s, a, ahead) && RecordsWithin(s, a, late)
  }

  /** Sweeps are no more than ahead ahead of any replica's clock, and requests no more than late late. */
  ghost predicate InTime(d: Deployment, clocks: seq<int>, actions: seq<Action>, ahead: int, late: int)
    requires |clocks| == |d.replicas|
  {
    forall i | 0 <= i < |actions| :: Timely(Run(d, clocks, actions[..i]).0, actions[i], ahead, late)
  }

  /** A c_nonce accepted is recorded, or every replica's clock is too late past it to record it. */
  ghost predicate KeptOrPassed(s: State, nonce: string, late: int) {
    if nonce in s.records then s.records[nonce].expiresAt == ExpiryOf(nonce) + SPENT_NONCE_MARGIN
    else forall r | 0 <= r < |s.clocks| :: s.clocks[r] > ExpiryOf(nonce) + late
  }

  ghost predicate InTimeInvariant(s: State, log: seq<Event>, late: int) {
    && SpendingsJudged(s)
    && (forall n | HasSpent(log, n) :: IsStateless(n) && KeptOrPassed(s, n, late))
    && (forall n :: SpentOnce(log, n))
  }

  lemma StepKeepsOrPasses(d: Deployment, s: State, a: Action, nonce: string, ahead: int, late: int)
    requires |s.clocks| == |d.replicas| && SpendingsJudged(s)
    requires Timely(s, a, ahead, late) && ahead + late <= SPENT_NONCE_MARGIN
    requires IsStateless(nonce) && KeptOrPassed(s, nonce, late)
    ensures KeptOrPassed(Step(d, s, a).0, nonce, late) && !IsSpent(Step(d, s, a).1, nonce)
  {
    hide ExpiryOf, BytesOf, Check;
    match a
    case Issues(_, random) => StoredNeverStateless(random);
    case Spends(i) =>
      if i < |s.spendings| {
        assert s.spendings[i] in s.spendings;
      }
    case _ =>
  }

  lemma SpendingIsKept(d: Deployment, s: State, a: Action, nonce: string, late: int)
    requires |s.clocks| == |d.replicas| && SpendingsJudged(s) && IsSpent(Step(d, s, a).1, nonce)
    ensures KeptOrPassed(Step(d, s, a).0, nonce, late)
  {
    hide ExpiryOf, BytesOf, Check, IsStateless;
    assert s.spendings[a.spending] in s.spendings;
  }

  lemma StepKeepsInTime(d: Deployment, s: State, log: seq<Event>, a: Action, ahead: int, late: int)
    requires |s.clocks| == |d.replicas| && InTimeInvariant(s, log, late)
    requires Timely(s, a, ahead, late) && ahead + late <= SPENT_NONCE_MARGIN
    ensures InTimeInvariant(Step(d, s, a).0, log + [Step(d, s, a).1], late)
  {
    var (t, e) := Step(d, s, a);
    StepKeepsJudged(d, s, a);
    hide Step, KeptOrPassed, Remembered, IsStateless, BytesOf, SpendingsJudged, Timely, IsSpent;
    forall n ensures SpentOnce(log + [e], n) && (HasSpent(log + [e], n) ==> IsStateless(n) && KeptOrPassed(t, n, late)) {
      AppendedSpent(log, e, n);
      if HasSpent(log, n) {
        StepKeepsOrPasses(d, s, a, n, ahead, late);
      } else if IsSpent(e, n) {
        SpendingIsRemembered(d, s, a, n);
        SpendingIsKept(d, s, a, n, late);
      }
    }
  }

  lemma {:induction false} RunKeepsInTime(d: Deployment, clocks: seq<int>, actions: seq<Action>, ahead: int, late: int)
    requires |clocks| == |d.replicas| && InTime(d, clocks, actions, ahead, late) && ahead + late <= SPENT_NONCE_MARGIN
    ensures InTimeInvariant(Run(d, clocks, actions).0, Run(d, clocks, actions).1, late)
  {
    hide Step, KeptOrPassed, Timely;
    if actions != [] {
      var n := |actions| - 1;
      var before := actions[..n];
      assert forall i | 0 <= i < n :: before[i] == actions[i] && before[..i] == actions[..i];
      RunKeepsInTime(d, clocks, before, ahead, late);
      StepKeepsInTime(d, Run(d, clocks, before).0, Run(d, clocks, before).1, actions[n], ahead, late);
    }
  }

  /**
   With no sweep more than five minutes ahead of a replica's clock, no stateless c_nonce is accepted twice
   if no request is recorded after its replica's clock has passed the c_nonce's expiry.
   */
  lemma PromptAcceptedOnce(d: Deployment, clocks: seq<int>, actions: seq<Action>, nonce: string)
    requires |clocks| == |d.replicas| && InTime(d, clocks, actions, SPENT_NONCE_MARGIN, 0)
    ensures SpentOnce(Run(d, clocks, actions).1, nonce)
  {
    RunKeepsInTime(d, clocks, actions, SPENT_NONCE_MARGIN, 0);
  }

  lemma InTimeThen(d: Deployment, clocks: seq<int>, actions: seq<Action>, a: Action, ahead: int, late: int)
    requires |clocks| == |d.replicas| && InTime(d, clocks, actions, ahead, late)
    requires Timely(Run(d, clocks, actions).0, a, ahead, late)
    ensures InTime(d, clocks, actions + [a], ahead, late)
    ensures var (s, log) := Run(d, clocks, actions);
            Run(d, clocks, actions + [a]) == (Step(d, s, a).0, log + [Step(d, s, a).1])
  {
    hide Run, Step, Timely;
    RunThen(d, clocks, actions, a);
    var more := actions + [a];
    forall i | 0 <= i < |more| ensures Timely(Run(d, clocks, more[..i]).0, more[i], ahead, late) {
      if i < |actions| {
        assert more[..i] == actions[..i] && more[i] == actions[i];
      } else {
        assert more[..i] == actions;
      }
    }
  }

  /** Two more timely actions. */
  lemma InTimeTwo(d: Deployment, clocks: seq<int>, before: seq<Action>, a: Action, b: Action, ahead: int, late: int)
    returns (actions: seq<Action>)
    requires |clocks| == |d.replicas| && InTime(d, clocks, before, ahead, late)
    requires Timely(Run(d, clocks, before).0, a, ahead, late)
    requires Timely(Step(d, Run(d, clocks, before).0, a).0, b, ahead, late)
    ensures InTime(d, clocks, actions, ahead, late)
    ensures var (s, log) := Run(d, clocks, before);
            var (s1, e1) := Step(d, s, a);
            var (s2, e2) := Step(d, s1, b);
            Run(d, clocks, actions) == (s2, log + [e1] + [e2])
  {
    hide Run, Step, Timely, InTime;
    InTimeThen(d, clocks, before, a, ahead, late);
    InTimeThen(d, clocks, before + [a], b, ahead, late);
    actions := before + [a] + [b];
  }

  lemma SpentTwice(log: seq<Event>, i: nat, j: nat, nonce: string)
    requires i < j < |log| && IsSpent(log[i], nonce) && IsSpent(log[j], nonce)
    ensures !SpentOnce(log, nonce)
  {
  }

  // ---- A request too late for a sweep so far ahead ----

  /** A replica that accepts nonce at now, and how late a request of its is to be. */
  datatype Race = Race(r: nat, nonce: string, now: int, late: nat)

  predicate Raced(d: Deployment, race: Race) {
    race.r < |d.replicas| && IsStateless(race.nonce) && AcceptedBy(d, race.r, race.nonce, race.now)
  }

  /** The replica's clock at clock, every other's already as late as it is to be. */
  function RaceClocks(d: Deployment, race: Race, clock: int): (clocks: seq<int>)
    ensures |clocks| == |d.replicas|
  {
    seq(|d.replicas|, k => if k == race.r then clock else ExpiryOf(race.nonce) + race.late)
  }

  /** Two requests judged at now: the first waits, the second waits or is done. */
  function Racing(d: Deployment, race: Race, records: Records, clock: int, waiting: bool): State {
    var slow := Spending(race.r, race.nonce, race.now, ExpiryOf(race.nonce), true);
    State(records, RaceClocks(d, race, clock), [slow, slow.(waiting := waiting)])
  }

  function RaceRecord(d: Deployment, race: Race): Record
    requires race.r < |d.replicas|
  {
    Record(SpentOwner(d.replicas[race.r].owner), ExpiryOf(race.nonce) + SPENT_NONCE_MARGIN)
  }

  lemma BothJudged(d: Deployment, race: Race, ahead: int) returns (actions: seq<Action>)
    requires Raced(d, race)
    ensures InTime(d, RaceClocks(d, race, race.now), actions, ahead, race.late)
    ensures var (s, log) := Run(d, RaceClocks(d, race, race.now), actions);
            s == Racing(d, race, map[], race.now, true) && |log| == 2
  {
    var clocks := RaceClocks(d, race, race.now);
    CheckTellsExpiry(d.mac, d.replicas[race.r], race.nonce, race.now);
    JudgedSteps(d, race, ahead);
    hide Step, Check, IsStateless, ExpiryOf, Timely, RaceClocks;
    var check := Checks(race.r, race.nonce);
    assert Run(d, clocks, []) == (Start(clocks), []);
    actions := InTimeTwo(d, clocks, [], check, check, ahead, race.late);
  }

  lemma JudgedSteps(d: Deployment, race: Race, ahead: int)
    requires Raced(d, race) && Check(d.mac, d.replicas[race.r], race.nonce, race.now).value == ExpiryOf(race.nonce)
    ensures var check := Checks(race.r, race.nonce);
            var once := Step(d, Start(RaceClocks(d, race, race.now)), check).0;
            && Timely(Start(RaceClocks(d, race, race.now)), check, ahead, race.late) && Timely(once, check, ahead, race.late)
            && Step(d, once, check).0 == Racing(d, race, map[], race.now, true)
  {
    hide Check, IsStateless, ExpiryOf;
    var check := Checks(race.r, race.nonce);
    var once := Step(d, Start(RaceClocks(d, race, race.now)), check).0;
    var slow := Spending(race.r, race.nonce, race.now, ExpiryOf(race.nonce), true);
    assert once.spendings == [slow] && Step(d, once, check).0.spendings == [slow, slow];
  }

  lemma FirstSteps(d: Deployment, race: Race, ahead: int)
    requires race.r < |d.replicas| && race.now <= ExpiryOf(race.nonce)
    ensures var end := ExpiryOf(race.nonce) + race.late;
            var start, tick := Racing(d, race, map[], race.now, true), Ticks(race.r, end - race.now);
            var (spent, e) := Step(d, start, Spends(1));
            && Timely(start, Spends(1), ahead, race.late) && Timely(spent, tick, ahead, race.late)
            && IsSpent(e, race.nonce)
            && Step(d, spent, tick).0 == Racing(d, race, map[race.nonce := RaceRecord(d, race)], end, false)
  {
    hide ExpiryOf, SpentOwner;
    var end := ExpiryOf(race.nonce) + race.late;
    assert RaceClocks(d, race, race.now)[race.r := end] == RaceClocks(d, race, end);
  }

  lemma FirstExpires(d: Deployment, race: Race, ahead: int) returns (actions: seq<Action>)
    requires Raced(d, race)
    ensures InTime(d, RaceClocks(d, race, race.now), actions, ahead, race.late)
    ensures var (s, log) := Run(d, RaceClocks(d, race, race.now), actions);
            && s == Racing(d, race, map[race.nonce := RaceRecord(d, race)], ExpiryOf(race.nonce) + race.late, false)
            && |log| == 4 && IsSpent(log[2], race.nonce)
  {
    CheckTellsExpiry(d.mac, d.replicas[race.r], race.nonce, race.now);
    FirstSteps(d, race, ahead);
    hide Run, Step, Timely, InTime, IsSpent, IsStateless, Check, ExpiryOf, Racing, RaceClocks, RaceRecord;
    var two := BothJudged(d, race, ahead);
    var tick := Ticks(race.r, ExpiryOf(race.nonce) + race.late - race.now);
    actions := InTimeTwo(d, RaceClocks(d, race, race.now), two, Spends(1), tick, ahead, race.late);
  }

  lemma SecondSteps(d: Deployment, race: Race, ahead: int)
    requires race.r < |d.replicas| && ahead + race.late > SPENT_NONCE_MARGIN
    ensures var end := ExpiryOf(race.nonce) + race.late;
            var waited := Racing(d, race, map[race.nonce := RaceRecord(d, race)], end, false);
            var sweep := Sweeps(ExpiryOf(race.nonce) + SPENT_NONCE_MARGIN + 1);
            var swept := Step(d, waited, sweep).0;
            && Timely(waited, sweep, ahead, race.late) && Timely(swept, Spends(0), ahead, race.late)
            && IsSpent(Step(d, swept, Spends(0)).1, race.nonce)
  {
    hide ExpiryOf, SpentOwner;
  }

  /**
   In any deployment with a c_nonce some replica accepts, where a sweep may be further ahead of the clocks
   and a request later than the margin makes up for, the c_nonce is accepted twice: a request judged in
   time is recorded as late as it may be, when the record of another was swept.
   */
  lemma SlowRequestAcceptedAgain(d: Deployment, race: Race, ahead: int) returns (actions: seq<Action>)
    requires Raced(d, race) && ahead + race.late > SPENT_NONCE_MARGIN
    ensures InTime(d, RaceClocks(d, race, race.now), actions, ahead, race.late)
    ensures !SpentOnce(Run(d, RaceClocks(d, race, race.now), actions).1, race.nonce)
  {
    SecondSteps(d, race, ahead);
    hide Run, Step, Timely, InTime, SpentOnce, IsSpent, IsStateless, Check, ExpiryOf, Racing, RaceClocks, RaceRecord;
    var first := FirstExpires(d, race, ahead);
    var sweep := Sweeps(ExpiryOf(race.nonce) + SPENT_NONCE_MARGIN + 1);
    actions := InTimeTwo(d, RaceClocks(d, race, race.now), first, sweep, Spends(0), ahead, race.late);
    SpentTwice(Run(d, RaceClocks(d, race, race.now), actions).1, 2, 5, race.nonce);
  }

  /** Every run with sweeps within ahead, and requests within late, accepts nonce at most once. */
  ghost predicate AlwaysOnce(d: Deployment, nonce: string, ahead: int, late: int) {
    forall clocks, actions | |clocks| == |d.replicas| && InTime(d, clocks, actions, ahead, late) ::
      SpentOnce(Run(d, clocks, actions).1, nonce)
  }

  /**
   A stateless c_nonce is accepted at most once in every run if and only if how far a sweep may be ahead of
   the replicas' clocks and how late a request may be recorded come to no more than the margin together. So
   with sweeps five minutes ahead no request may be late at all, and with none late that is as far as a
   sweep may be ahead.
   */
  lemma OnceIffWithinMargin(d: Deployment, nonce: string, ahead: int, late: nat)
    requires Acceptable(d, nonce)
    ensures AlwaysOnce(d, nonce, ahead, late) <==> ahead + late <= SPENT_NONCE_MARGIN
  {
    hide Run, InTime, SpentOnce, AcceptedBy, RaceClocks;
    if ahead + late <= SPENT_NONCE_MARGIN {
      forall clocks, actions | |clocks| == |d.replicas| && InTime(d, clocks, actions, ahead, late)
        ensures SpentOnce(Run(d, clocks, actions).1, nonce)
      {
        RunKeepsInTime(d, clocks, actions, ahead, late);
      }
    } else {
      var r, now :| 0 <= r < |d.replicas| && AcceptedBy(d, r, nonce, now);
      var race := Race(r, nonce, now, late);
      var actions := SlowRequestAcceptedAgain(d, race, ahead);
    }
  }

  // ---- The store's own c_nonces ----

  function IssuedTimes(log: seq<Event>, nonce: string): nat {
    if log == [] then 0
    else IssuedTimes(log[..|log| - 1], nonce) + if log[|log| - 1] == Issued(nonce) then 1 else 0
  }

  function ConsumedTimes(log: seq<Event>, nonce: string): nat {
    if log == [] then 0
    else
      var e := log[|log| - 1];
      ConsumedTimes(log[..|log| - 1], nonce) + if e.Consumed? && e.nonce == nonce then 1 else 0
  }

  function HeldTimes(s: State, nonce: string): nat {
    if nonce in s.records then 1 else 0
  }

  ghost predicate StoredInvariant(s: State, log: seq<Event>) {
    forall n | !IsStateless(n) :: ConsumedTimes(log, n) + HeldTimes(s, n) <= IssuedTimes(log, n)
  }

  /** Who recorded what: spent c_nonces under owners of their own, the others under Credential Issuers'. */
  ghost predicate Owned(d: Deployment, s: State) {
    forall n | n in s.records ::
      exists r: Replica | r in d.replicas ::
        s.records[n].owner == if IsStateless(n) then SpentOwner(r.owner) else r.owner
  }

  lemma StepKeepsStored(d: Deployment, s: State, log: seq<Event>, a: Action)
    requires |s.clocks| == |d.replicas| && StoredInvariant(s, log) && SpendingsJudged(s)
    ensures StoredInvariant(Step(d, s, a).0, log + [Step(d, s, a).1])
  {
    hide Check, ExpiryOf, BytesOf;
    var (t, e) := Step(d, s, a);
    var more := log + [e];
    assert more[..|more| - 1] == log;
    forall n | !IsStateless(n) ensures ConsumedTimes(more, n) + HeldTimes(t, n) <= IssuedTimes(more, n) {
      assert ConsumedTimes(log, n) + HeldTimes(s, n) <= IssuedTimes(log, n);
      if a.Spends? && a.spending < |s.spendings| {
        assert s.spendings[a.spending] in s.spendings;
      }
    }
  }

  lemma StepKeepsOwned(d: Deployment, s: State, a: Action)
    requires |s.clocks| == |d.replicas| && Owned(d, s) && SpendingsJudged(s)
    ensures Owned(d, Step(d, s, a).0)
  {
    hide Check, ExpiryOf, BytesOf, SpentOwner;
    match a
    case Issues(r, random) =>
      StoredNeverStateless(random);
      if r < |d.replicas| {
        assert d.replicas[r] in d.replicas;
      }
    case Spends(i) =>
      if i < |s.spendings| && s.spendings[i].replica < |d.replicas| {
        assert s.spendings[i] in s.spendings;
        assert d.replicas[s.spendings[i].replica] in d.replicas;
      }
    case _ =>
  }

  lemma {:induction false} RunKeepsStored(d: Deployment, clocks: seq<int>, actions: seq<Action>)
    requires |clocks| == |d.replicas|
    ensures var (s, log) := Run(d, clocks, actions);
            SpendingsJudged(s) && StoredInvariant(s, log) && Owned(d, s)
  {
    hide Step, IsStateless;
    if actions != [] {
      var before := actions[..|actions| - 1];
      RunKeepsStored(d, clocks, before);
      var (s, log) := Run(d, clocks, before);
      StepKeepsJudged(d, s, actions[|actions| - 1]);
      StepKeepsStored(d, s, log, actions[|actions| - 1]);
      StepKeepsOwned(d, s, actions[|actions| - 1]);
    }
  }

  /** A c_nonce the store holds is consumed at most as often as it was issued, whatever the clocks. */
  lemma StoredConsumedOnce(d: Deployment, clocks: seq<int>, actions: seq<Action>, nonce: string)
    requires |clocks| == |d.replicas| && !IsStateless(nonce)
    ensures ConsumedTimes(Run(d, clocks, actions).1, nonce) <= IssuedTimes(Run(d, clocks, actions).1, nonce)
  {
    RunKeepsStored(d, clocks, actions);
  }

  /** No Credential Issuer, whose identifier is a URL and has no space, is given a spent c_nonce as an issued one. */
  lemma ConsumeNeverReturnsSpent(d: Deployment, clocks: seq<int>, actions: seq<Action>, nonce: string, owner: string)
    requires |clocks| == |d.replicas| && ' ' !in owner
    ensures var s := Run(d, clocks, actions).0;
            Held(s.records, nonce, owner).Some? ==> !IsStateless(nonce) && exists r: Replica | r in d.replicas :: r.owner == owner
  {
    var s := Run(d, clocks, actions).0;
    RunKeepsStored(d, clocks, actions);
    hide Run, IsStateless, SpentOwner, StoredInvariant, SpendingsJudged;
    if Held(s.records, nonce, owner).Some? {
      var r: Replica :| r in d.replicas && owner == if IsStateless(nonce) then SpentOwner(r.owner) else r.owner;
      SpentOwnerHasSpace(r.owner);
    }
  }

  lemma SpentOwnerHasSpace(owner: string)
    ensures ' ' in SpentOwner(owner)
  {
    assert SpentOwner(owner)[7] == ' ';
  }
}
