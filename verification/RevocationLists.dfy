/**
 Checking a chain against CRLs (certrevocation/certrevocation.go, certrevocation/listindex.go, RFC 5280
 section 5).

 The functions walk lists as they stand, and say the verdict without a loop. Index is the fast form: it
 keeps what a check finds of a parsed list, drops any of it at any time, and gives the same verdicts.
 Signature verification is the Signatures a check is made with: nothing is assumed of it but that a
 certificate's bytes decide it.
 */
module RevocationLists {
  import opened Wrappers
  import opened Durations
  import opened Encodings

  const CRL_CLOCK_SKEW: int := 5 * MINUTE

  /** Go's zero time, which no list's times are read as anything but absent. */
  const ZERO_TIME: int := 0

  datatype Extension = Extension(id: seq<nat>, critical: bool)

  datatype Entry = Entry(serial: Option<int>, extensions: seq<Extension>)

  /** Where a parsed structure's DER is; none has length 0. */
  datatype Der = Der(address: nat, length: nat)

  datatype RevocationList = RevocationList(
    address: nat, der: Der, issuer: string, thisUpdate: int, nextUpdate: int, number: Option<int>,
    extensions: seq<Extension>, entries: seq<Entry>)

  datatype Certificate = Certificate(
    address: nat, der: Der, bytes: Bytes, subject: string, issuer: string, key: string, serial: int)

  /** What verifies: a list under an issuer's key, a certificate under an issuer's, one under its own. */
  datatype Signatures = Signatures(
    onList: (RevocationList, Certificate) -> bool,
    onCertificate: (Certificate, Certificate) -> bool,
    byOwnKey: Certificate -> bool)

  // ---- Lists as they stand ----

  const DELTA_CRL_INDICATOR := [2, 5, 29, 27]
  const ISSUING_DISTRIBUTION_POINT := [2, 5, 29, 28]
  const UNDERSTOOD_LIST_EXTENSIONS := {[2, 5, 29, 35], [2, 5, 29, 20]}
  const UNDERSTOOD_ENTRY_EXTENSIONS := {[2, 5, 29, 21], [2, 5, 29, 24]}

  predicate CompleteAndDirect(list: RevocationList) {
    forall e | e in list.extensions :: e.id != DELTA_CRL_INDICATOR && e.id != ISSUING_DISTRIBUTION_POINT
  }

  predicate CriticalUnderstood(list: RevocationList) {
    && (forall e | e in list.extensions :: e.critical ==> e.id in UNDERSTOOD_LIST_EXTENSIONS)
    && (forall entry, e | entry in list.entries && e in entry.extensions ::
          e.critical ==> e.id in UNDERSTOOD_ENTRY_EXTENSIONS)
  }

  predicate NotYetValid(list: RevocationList, now: int) {
    now + CRL_CLOCK_SKEW < list.thisUpdate
  }

  /** Whether list is current at now: nextUpdate present, and now in [thisUpdate - skew, nextUpdate). */
  predicate Current(list: RevocationList, now: int) {
    list.nextUpdate != ZERO_TIME && !NotYetValid(list, now) && now < list.nextUpdate
  }

  /** Whether list is a complete, current CRL issuer signed. */
  predicate UsableFor(sigs: Signatures, list: RevocationList, issuer: Certificate, now: int) {
    && list.issuer == issuer.subject && Current(list, now)
    && CompleteAndDirect(list) && CriticalUnderstood(list) && sigs.onList(list, issuer)
  }

  predicate Names(list: RevocationList, serial: int) {
    exists entry | entry in list.entries :: entry.serial == Some(serial)
  }

  datatype Verdict =
    | NotRevoked
    | Revoked(serial: int, issuer: string)
    | NoCurrentCrl(issuer: string)

  /** cert's verdict, whatever the order of lists: revoked wins over any list that doesn't name it. */
  ghost function LinkVerdict(
    sigs: Signatures, cert: Certificate, issuer: Certificate, lists: seq<Option<RevocationList>>, now: int
  ): Verdict
  {
    if exists list :: Some(list) in lists && UsableFor(sigs, list, issuer, now) && Names(list, cert.serial) then
      Revoked(cert.serial, issuer.subject)
    else if exists list :: Some(list) in lists && UsableFor(sigs, list, issuer, now) then NotRevoked
    else NoCurrentCrl(issuer.subject)
  }

  predicate SelfSigned(sigs: Signatures, cert: Certificate) {
    cert.issuer == cert.subject && sigs.byOwnKey(cert)
  }

  predicate Issued(sigs: Signatures, cert: Certificate, issuer: Certificate) {
    cert.issuer == issuer.subject && sigs.onCertificate(cert, issuer)
  }

  /** An anchor that isn't self-signed is checked against the first of issuers that issued it. */
  ghost function AnchorVerdict(
    sigs: Signatures, anchor: Certificate, issuers: seq<Certificate>, lists: seq<Option<RevocationList>>, now: int
  ): Verdict
  {
    if issuers == [] then NoCurrentCrl(anchor.issuer)
    else if Issued(sigs, anchor, issuers[0]) then LinkVerdict(sigs, anchor, issuers[0], lists, now)
    else AnchorVerdict(sigs, anchor, issuers[1..], lists, now)
  }

  /** The first failing link's verdict, the anchor's last. */
  ghost function ChainVerdict(
    sigs: Signatures, chain: seq<Certificate>, issuers: seq<Certificate>, lists: seq<Option<RevocationList>>, now: int
  ): Verdict
  {
    if chain == [] then NotRevoked
    else if |chain| == 1 then
      if SelfSigned(sigs, chain[0]) then NotRevoked else AnchorVerdict(sigs, chain[0], issuers, lists, now)
    else
      var first := LinkVerdict(sigs, chain[0], chain[1], lists, now);
      if first != NotRevoked then first else ChainVerdict(sigs, chain[1..], issuers, lists, now)
  }

  /** A link passes: some usable list from its issuer, and none of them names its certificate. */
  ghost predicate LinkPasses(
    sigs: Signatures, cert: Certificate, issuer: Certificate, lists: seq<Option<RevocationList>>, now: int
  ) {
    && (exists list :: Some(list) in lists && UsableFor(sigs, list, issuer, now))
    && (forall list | Some(list) in lists && UsableFor(sigs, list, issuer, now) :: !Names(list, cert.serial))
  }

  /** The certificate anchor's CRL must come from, if there is one among issuers. */
  ghost predicate AnchorPasses(
    sigs: Signatures, anchor: Certificate, issuers: seq<Certificate>, lists: seq<Option<RevocationList>>, now: int
  ) {
    SelfSigned(sigs, anchor)
    || exists i | 0 <= i < |issuers| ::
         && Issued(sigs, anchor, issuers[i]) && (forall j | 0 <= j < i :: !Issued(sigs, anchor, issuers[j]))
         && LinkPasses(sigs, anchor, issuers[i], lists, now)
  }

  /** issuers[i] is the first of issuers that issued anchor. */
  ghost predicate FirstIssuer(sigs: Signatures, anchor: Certificate, issuers: seq<Certificate>, i: nat) {
    && i < |issuers| && anchor.issuer == issuers[i].subject && sigs.onCertificate(anchor, issuers[i])
    && forall j | 0 <= j < i :: anchor.issuer != issuers[j].subject || !sigs.onCertificate(anchor, issuers[j])
  }

  lemma LinkVerdictMeaning(
    sigs: Signatures, cert: Certificate, issuer: Certificate, lists: seq<Option<RevocationList>>, now: int
  )
    ensures LinkVerdict(sigs, cert, issuer, lists, now) == NotRevoked <==> LinkPasses(sigs, cert, issuer, lists, now)
  {
  }

  lemma {:induction false} AnchorVerdictMeaning(
    sigs: Signatures, anchor: Certificate, issuers: seq<Certificate>, lists: seq<Option<RevocationList>>, now: int
  )
    requires !SelfSigned(sigs, anchor)
    ensures AnchorVerdict(sigs, anchor, issuers, lists, now) == NotRevoked
       <==> AnchorPasses(sigs, anchor, issuers, lists, now)
  {
    hide LinkVerdict, LinkPasses, Issued;
    if issuers != [] {
      LinkVerdictMeaning(sigs, anchor, issuers[0], lists, now);
    }
    if issuers != [] && !Issued(sigs, anchor, issuers[0]) {
      AnchorVerdictMeaning(sigs, anchor, issuers[1..], lists, now);
      if AnchorPasses(sigs, anchor, issuers[1..], lists, now) {
        var i :| 0 <= i < |issuers[1..]|
              && Issued(sigs, anchor, issuers[1..][i]) && (forall j | 0 <= j < i :: !Issued(sigs, anchor, issuers[1..][j]))
              && LinkPasses(sigs, anchor, issuers[1..][i], lists, now);
        forall j | 0 <= j < i + 1 ensures !Issued(sigs, anchor, issuers[j]) {
          assert j > 0 ==> issuers[j] == issuers[1..][j - 1];
        }
        assert Issued(sigs, anchor, issuers[i + 1]);
      }
      if AnchorPasses(sigs, anchor, issuers, lists, now) {
        var i :| 0 <= i < |issuers|
              && Issued(sigs, anchor, issuers[i]) && (forall j | 0 <= j < i :: !Issued(sigs, anchor, issuers[j]))
              && LinkPasses(sigs, anchor, issuers[i], lists, now);
        assert issuers[1..][i - 1] == issuers[i];
        assert forall j | 0 <= j < i - 1 :: issuers[1..][j] == issuers[j + 1];
      }
    }
  }

  /**
   A chain passes exactly when every link does, and its anchor, when not self-signed, has its own CA's
   word: however the lists are ordered or repeated.
   */
  lemma {:induction false} ChainPasses(
    sigs: Signatures, chain: seq<Certificate>, issuers: seq<Certificate>, lists: seq<Option<RevocationList>>, now: int
  )
    requires chain != []
    ensures ChainVerdict(sigs, chain, issuers, lists, now) == NotRevoked
       <==> && (forall i | 0 <= i < |chain| - 1 :: LinkPasses(sigs, chain[i], chain[i + 1], lists, now))
            && AnchorPasses(sigs, chain[|chain| - 1], issuers, lists, now)
  {
    hide LinkVerdict, LinkPasses, AnchorPasses, SelfSigned, AnchorVerdict;
    if |chain| == 1 {
      AnchorAlone(sigs, chain[0], issuers, lists, now);
      assert chain == [chain[0]];
    } else {
      var rest := chain[1..];
      ChainPasses(sigs, rest, issuers, lists, now);
      LinkVerdictMeaning(sigs, chain[0], chain[1], lists, now);
      if forall i | 0 <= i < |rest| - 1 :: LinkPasses(sigs, rest[i], rest[i + 1], lists, now) {
        forall i | 1 <= i < |chain| - 1 ensures LinkPasses(sigs, chain[i], chain[i + 1], lists, now) {
          assert rest[i - 1] == chain[i];
        }
      }
      if forall i | 0 <= i < |chain| - 1 :: LinkPasses(sigs, chain[i], chain[i + 1], lists, now) {
        forall i | 0 <= i < |rest| - 1 ensures LinkPasses(sigs, rest[i], rest[i + 1], lists, now) {
          assert chain[i + 1] == rest[i];
        }
      }
    }
  }

  lemma AnchorAlone(
    sigs: Signatures, anchor: Certificate, issuers: seq<Certificate>, lists: seq<Option<RevocationList>>, now: int
  )
    ensures ChainVerdict(sigs, [anchor], issuers, lists, now) == NotRevoked
       <==> AnchorPasses(sigs, anchor, issuers, lists, now)
  {
    if !SelfSigned(sigs, anchor) {
      AnchorVerdictMeaning(sigs, anchor, issuers, lists, now);
    }
  }

  /**
   What a check of cert against issuer answers: that it is revoked exactly when a usable list of issuer's
   names it, that there is no current CRL exactly when no list is usable, and otherwise that it is not revoked.
   */
  ghost predicate LinkAnswer(
    sigs: Signatures, cert: Certificate, issuer: Certificate, lists: seq<Option<RevocationList>>, now: int, answer: Verdict
  ) {
    && (answer == Revoked(cert.serial, issuer.subject) <==>
          exists list :: Some(list) in lists && UsableFor(sigs, list, issuer, now) && Names(list, cert.serial))
    && (answer == NoCurrentCrl(issuer.subject) <==> forall list | Some(list) in lists :: !UsableFor(sigs, list, issuer, now))
    && answer in {Revoked(cert.serial, issuer.subject), NoCurrentCrl(issuer.subject), NotRevoked}
  }

  /** What a check of anchor answers: that of the first of issuers that issued it, when it isn't self-signed. */
  ghost predicate AnchorAnswer(
    sigs: Signatures, anchor: Certificate, issuers: seq<Certificate>, lists: seq<Option<RevocationList>>, now: int,
    answer: Verdict
  ) {
    if anchor.issuer == anchor.subject && sigs.byOwnKey(anchor) then answer == NotRevoked
    else
      && ((forall issuer | issuer in issuers :: anchor.issuer != issuer.subject || !sigs.onCertificate(anchor, issuer))
          ==> answer == NoCurrentCrl(anchor.issuer))
      && (forall i: nat | FirstIssuer(sigs, anchor, issuers, i) :: LinkAnswer(sigs, anchor, issuers[i], lists, now, answer))
  }

  /** The first link of chain that doesn't pass is the ith. */
  ghost predicate FirstFailing(
    sigs: Signatures, chain: seq<Certificate>, lists: seq<Option<RevocationList>>, now: int, i: nat
  ) {
    && i + 1 < |chain| && !LinkPasses(sigs, chain[i], chain[i + 1], lists, now)
    && forall j | 0 <= j < i :: LinkPasses(sigs, chain[j], chain[j + 1], lists, now)
  }

  /** What a check of chain answers: as its first link that doesn't pass, or its anchor if every link does. */
  ghost predicate ChainAnswer(
    sigs: Signatures, chain: seq<Certificate>, issuers: seq<Certificate>, lists: seq<Option<RevocationList>>, now: int,
    answer: Verdict
  ) {
    && (forall i: nat | FirstFailing(sigs, chain, lists, now, i) ::
          LinkAnswer(sigs, chain[i], chain[i + 1], lists, now, answer))
    && (chain != [] && (forall i | 0 <= i < |chain| - 1 :: LinkPasses(sigs, chain[i], chain[i + 1], lists, now)) ==>
          AnchorAnswer(sigs, chain[|chain| - 1], issuers, lists, now, answer))
    && (chain == [] ==> answer == NotRevoked)
  }

  lemma LinkVerdictAnswers(
    sigs: Signatures, cert: Certificate, issuer: Certificate, lists: seq<Option<RevocationList>>, now: int
  )
    ensures LinkAnswer(sigs, cert, issuer, lists, now, LinkVerdict(sigs, cert, issuer, lists, now))
  {
  }

  lemma {:induction false} AnchorVerdictAnswers(
    sigs: Signatures, anchor: Certificate, issuers: seq<Certificate>, lists: seq<Option<RevocationList>>, now: int
  )
    requires !SelfSigned(sigs, anchor)
    ensures AnchorAnswer(sigs, anchor, issuers, lists, now, AnchorVerdict(sigs, anchor, issuers, lists, now))
  {
    hide LinkVerdict, LinkAnswer;
    if issuers != [] && Issued(sigs, anchor, issuers[0]) {
      LinkVerdictAnswers(sigs, anchor, issuers[0], lists, now);
    } else if issuers != [] {
      AnchorVerdictAnswers(sigs, anchor, issuers[1..], lists, now);
      forall i: nat | FirstIssuer(sigs, anchor, issuers, i)
        ensures LinkAnswer(sigs, anchor, issuers[i], lists, now, AnchorVerdict(sigs, anchor, issuers, lists, now))
      {
        assert FirstIssuer(sigs, anchor, issuers[1..], i - 1);
      }
    }
  }

  /** ChainVerdict is a check's answer, said of the lists alone: which list decides, and in which order. */
  lemma {:induction false} ChainVerdictAnswers(
    sigs: Signatures, chain: seq<Certificate>, issuers: seq<Certificate>, lists: seq<Option<RevocationList>>, now: int
  )
    ensures ChainAnswer(sigs, chain, issuers, lists, now, ChainVerdict(sigs, chain, issuers, lists, now))
  {
    hide LinkVerdict, LinkPasses, LinkAnswer, AnchorAnswer, AnchorVerdict;
    if |chain| == 1 {
      AnchorAloneAnswers(sigs, chain[0], issuers, lists, now);
    } else if |chain| > 1 {
      var rest := chain[1..];
      LinkVerdictMeaning(sigs, chain[0], chain[1], lists, now);
      LinkVerdictAnswers(sigs, chain[0], chain[1], lists, now);
      ChainVerdictAnswers(sigs, rest, issuers, lists, now);
      forall i: nat | FirstFailing(sigs, chain, lists, now, i)
        ensures LinkAnswer(sigs, chain[i], chain[i + 1], lists, now, ChainVerdict(sigs, chain, issuers, lists, now))
      {
        if i > 0 {
          assert rest[i - 1] == chain[i] && rest[i] == chain[i + 1];
          assert FirstFailing(sigs, rest, lists, now, i - 1);
        }
      }
      if forall i | 0 <= i < |chain| - 1 :: LinkPasses(sigs, chain[i], chain[i + 1], lists, now) {
        forall i | 0 <= i < |rest| - 1 ensures LinkPasses(sigs, rest[i], rest[i + 1], lists, now) {
          assert chain[i + 1] == rest[i];
        }
      }
    }
  }

  lemma AnchorAloneAnswers(
    sigs: Signatures, anchor: Certificate, issuers: seq<Certificate>, lists: seq<Option<RevocationList>>, now: int
  )
    ensures AnchorAnswer(sigs, anchor, issuers, lists, now, ChainVerdict(sigs, [anchor], issuers, lists, now))
  {
    hide AnchorVerdict;
    if !SelfSigned(sigs, anchor) {
      AnchorVerdictAnswers(sigs, anchor, issuers, lists, now);
    }
  }

  // ---- The index ----

  /** What's kept of one list: its form, the serials it names, the keys its signature was tried under. */
  datatype Index = Index(der: Der, usable: bool, revoked: set<Bytes>, verified: map<Bytes, bool>)

  function SerialKeys(entries: seq<Entry>): set<Bytes> {
    set entry | entry in entries && entry.serial.Some? :: SerialKey(entry.serial.value)
  }

  lemma NamedByKey(list: RevocationList, serial: int)
    ensures SerialKey(serial) in SerialKeys(list.entries) <==> Names(list, serial)
  {
    if SerialKey(serial) in SerialKeys(list.entries) {
      var entry :| entry in list.entries && entry.serial.Some? && SerialKey(entry.serial.value) == SerialKey(serial);
      SerialKeyInjective(entry.serial.value, serial);
    }
    if Names(list, serial) {
      var entry :| entry in list.entries && entry.serial == Some(serial);
      assert SerialKey(entry.serial.value) in SerialKeys(list.entries);
    }
  }

  /**
   The process-wide indexes. parsedList and parsedCertificate are what was parsed at an address from
   DER at another: a caller never changes a list or certificate once handed out, so what it passes in
   is what they say (Settled).
   */
  class Checker {
    const sigs: Signatures
    ghost const parsedList: (nat, Der) -> RevocationList
    ghost const parsedCertificate: (nat, nat) -> Certificate
    var indexes: map<nat, Index>
    var selfSigned: map<nat, (nat, bool)>

    constructor (
      sigs: Signatures, ghost parsedList: (nat, Der) -> RevocationList, ghost parsedCertificate: (nat, nat) -> Certificate
    )
      requires BytesDecide(sigs)
      ensures Valid() && this.sigs == sigs
      ensures this.parsedList == parsedList && this.parsedCertificate == parsedCertificate
    {
      this.sigs, this.parsedList, this.parsedCertificate := sigs, parsedList, parsedCertificate;
      indexes, selfSigned := map[], map[];
    }

    /** A parsed certificate's bytes decide whose signatures its key verifies; one built by hand has none. */
    static ghost predicate BytesDecide(sigs: Signatures) {
      forall list, a: Certificate, b: Certificate | a.bytes == b.bytes != [] ::
        sigs.onList(list, a) == sigs.onList(list, b)
    }

    ghost predicate SettledList(list: RevocationList) {
      list.der.length > 0 ==> parsedList(list.address, list.der) == list
    }

    ghost predicate SettledCertificate(cert: Certificate) {
      cert.der.length > 0 ==> parsedCertificate(cert.address, cert.der.address) == cert
    }

    ghost predicate Faithful(index: Index, list: RevocationList) {
      && index.usable == (CompleteAndDirect(list) && CriticalUnderstood(list))
      && (index.usable ==> index.revoked == SerialKeys(list.entries))
      && [] !in index.verified
      && (forall cert: Certificate | cert.bytes in index.verified ::
            index.verified[cert.bytes] == sigs.onList(list, cert))
    }

    ghost predicate Valid()
      reads this
    {
      && BytesDecide(sigs)
      && (forall a | a in indexes :: Faithful(indexes[a], parsedList(a, indexes[a].der)))
      && (forall a | a in selfSigned ::
            selfSigned[a].1 == SelfSigned(sigs, parsedCertificate(a, selfSigned[a].0)))
    }

    /** Garbage collection drops what's kept of a list or certificate no longer reachable. */
    method Forget(address: nat)
      requires Valid()
      modifies this
      ensures Valid()
      ensures indexes == old(indexes) - {address} && selfSigned == old(selfSigned) - {address}
    {
      indexes := indexes - {address};
      selfSigned := selfSigned - {address};
    }

    /** list's index, built anew if there is none for its DER; none for a list without its DER. */
    method IndexOf(list: RevocationList) returns (index: Option<Index>)
      requires Valid() && SettledList(list)
      modifies `indexes
      ensures Valid()
      ensures index.Some? <==> list.der.length > 0
      ensures index.Some? ==>
                && Faithful(index.value, list)
                && list.address in indexes && indexes[list.address] == index.value && index.value.der == list.der
    {
      if list.der.length == 0 {
        return None;
      }
      if list.address !in indexes || indexes[list.address].der != list.der {
        var usable := CompleteAndDirect(list) && CriticalUnderstood(list);
        var revoked: set<Bytes> := {};
        if usable {
          for k := 0 to |list.entries|
            invariant revoked == SerialKeys(list.entries[..k])
          {
            assert list.entries[..k + 1] == list.entries[..k] + [list.entries[k]];
            if list.entries[k].serial.Some? {
              revoked := revoked + {SerialKey(list.entries[k].serial.value)};
            }
          }
          assert list.entries[..|list.entries|] == list.entries;
        }
        indexes := indexes[list.address := Index(list.der, usable, revoked, map[])];
      }
      return Some(indexes[list.address]);
    }

    /** Whether list's signature verifies under issuer, tried once per issuer certificate. */
    method SignedBy(list: RevocationList, index: Index, issuer: Certificate) returns (ok: bool)
      requires Valid() && SettledList(list) && list.der.length > 0
      requires list.address in indexes && indexes[list.address] == index && index.der == list.der
      modifies `indexes
      ensures Valid() && ok == sigs.onList(list, issuer)
    {
      if |issuer.bytes| == 0 {
        return sigs.onList(list, issuer);
      }
      if issuer.bytes in index.verified {
        assert Faithful(index, list);
        return index.verified[issuer.bytes];
      }
      ok := sigs.onList(list, issuer);
      indexes := indexes[list.address := index.(verified := index.verified[issuer.bytes := ok])];
    }

    method CrlUsableFor(list: Option<RevocationList>, issuer: Certificate, now: int) returns (usable: bool)
      requires Valid() && (list.Some? ==> SettledList(list.value))
      modifies `indexes
      ensures Valid()
      ensures usable <==> list.Some? && UsableFor(sigs, list.value, issuer, now)
      ensures usable <==>
                && list.Some? && var l := list.value;
                && l.issuer == issuer.subject && sigs.onList(l, issuer)
                && l.nextUpdate != ZERO_TIME && l.thisUpdate - 5 * MINUTE <= now < l.nextUpdate
                && (forall e | e in l.extensions ::
                      && e.id != [2, 5, 29, 27] && e.id != [2, 5, 29, 28]
                      && (e.critical ==> e.id == [2, 5, 29, 35] || e.id == [2, 5, 29, 20]))
                && (forall entry, e | entry in l.entries && e in entry.extensions && e.critical ::
                      e.id == [2, 5, 29, 21] || e.id == [2, 5, 29, 24])
    {
      if list.None? || list.value.issuer != issuer.subject {
        return false;
      }
      var l := list.value;
      if l.nextUpdate == ZERO_TIME || NotYetValid(l, now) || !(now < l.nextUpdate) {
        return false;
      }
      var index := IndexOf(l);
      if index.Some? {
        if !index.value.usable {
          return false;
        }
        usable := SignedBy(l, index.value, issuer);
        return;
      }
      return CompleteAndDirect(l) && CriticalUnderstood(l) && sigs.onList(l, issuer);
    }

    /** Whether list, found usable, names serial. */
    method Revokes(list: RevocationList, serial: int) returns (named: bool)
      requires Valid() && SettledList(list) && CompleteAndDirect(list) && CriticalUnderstood(list)
      modifies `indexes
      ensures Valid() && named == Names(list, serial)
      ensures named <==> exists entry | entry in list.entries :: entry.serial == Some(serial)
    {
      var index := IndexOf(list);
      if index.Some? {
        NamedByKey(list, serial);
        return SerialKey(serial) in index.value.revoked;
      }
      for k := 0 to |list.entries|
        invariant forall entry | entry in list.entries[..k] :: entry.serial != Some(serial)
      {
        if list.entries[k].serial == Some(serial) {
          return true;
        }
      }
      return false;
    }

    method CheckAgainstCrls(cert: Certificate, issuer: Certificate, lists: seq<Option<RevocationList>>, now: int)
      returns (verdict: Verdict)
      requires Valid() && forall list :: Some(list) in lists ==> SettledList(list)
      modifies `indexes
      ensures Valid() && verdict == LinkVerdict(sigs, cert, issuer, lists, now)
      ensures verdict == Revoked(cert.serial, issuer.subject) <==>
              exists list :: Some(list) in lists && UsableFor(sigs, list, issuer, now) && Names(list, cert.serial)
      ensures verdict == NoCurrentCrl(issuer.subject) <==>
              forall list | Some(list) in lists :: !UsableFor(sigs, list, issuer, now)
      ensures verdict in {Revoked(cert.serial, issuer.subject), NoCurrentCrl(issuer.subject), NotRevoked}
    {
      var usable := false;
      for k := 0 to |lists|
        invariant Valid()
        invariant usable <==> exists list :: Some(list) in lists[..k] && UsableFor(sigs, list, issuer, now)
        invariant forall list | Some(list) in lists[..k] && UsableFor(sigs, list, issuer, now) :: !Names(list, cert.serial)
      {
        var list := lists[k];
        assert list.Some? ==> Some(list.value) in lists;
        assert forall l :: l in lists[..k + 1] <==> l in lists[..k] || l == list;
        var ok := CrlUsableFor(list, issuer, now);
        if ok {
          usable := true;
          var named := Revokes(list.value, cert.serial);
          if named {
            return Revoked(cert.serial, issuer.subject);
          }
        }
      }
      assert lists[..|lists|] == lists;
      return if usable then NotRevoked else NoCurrentCrl(issuer.subject);
    }

    /** Whether an anchor is self-signed, found once per certificate. */
    method SelfSignedMemo(cert: Certificate) returns (yes: bool)
      requires Valid() && SettledCertificate(cert)
      modifies `selfSigned
      ensures Valid() && yes == SelfSigned(sigs, cert)
    {
      if cert.der.length == 0 {
        return SelfSigned(sigs, cert);
      }
      if cert.address in selfSigned && selfSigned[cert.address].0 == cert.der.address {
        return selfSigned[cert.address].1;
      }
      yes := SelfSigned(sigs, cert);
      selfSigned := selfSigned[cert.address := (cert.der.address, yes)];
    }

    method CheckAnchor(anchor: Certificate, issuers: seq<Certificate>, lists: seq<Option<RevocationList>>, now: int)
      returns (verdict: Verdict)
      requires Valid() && forall list :: Some(list) in lists ==> SettledList(list)
      modifies `indexes
      ensures Valid() && verdict == AnchorVerdict(sigs, anchor, issuers, lists, now)
      ensures (forall issuer | issuer in issuers :: anchor.issuer != issuer.subject || !sigs.onCertificate(anchor, issuer))
              ==> verdict == NoCurrentCrl(anchor.issuer)
      ensures forall i: nat | FirstIssuer(sigs, anchor, issuers, i) ::
                && (verdict == Revoked(anchor.serial, issuers[i].subject) <==>
                    exists list :: Some(list) in lists && UsableFor(sigs, list, issuers[i], now) && Names(list, anchor.serial))
                && (verdict == NoCurrentCrl(issuers[i].subject) <==>
                    forall list | Some(list) in lists :: !UsableFor(sigs, list, issuers[i], now))
                && verdict in {Revoked(anchor.serial, issuers[i].subject), NoCurrentCrl(issuers[i].subject), NotRevoked}
    {
      hide LinkVerdict, UsableFor, Names;
      for k := 0 to |issuers|
        invariant Valid()
        invariant AnchorVerdict(sigs, anchor, issuers, lists, now) == AnchorVerdict(sigs, anchor, issuers[k..], lists, now)
        invariant forall j | 0 <= j < k :: !Issued(sigs, anchor, issuers[j])
      {
        assert issuers[k..][1..] == issuers[k + 1..];
        if Issued(sigs, anchor, issuers[k]) {
          assert FirstIssuer(sigs, anchor, issuers, k);
          verdict := CheckAgainstCrls(anchor, issuers[k], lists, now);
          return;
        }
      }
      return NoCurrentCrl(anchor.issuer);
    }

    /**
     The indexed check is the plain one, whatever the index holds. Its answer is that of the first link that
     doesn't pass, of the anchor's issuer if every link does and the anchor isn't self-signed.
     */
    method CheckRevocation(
      chain: seq<Certificate>, issuers: seq<Certificate>, lists: seq<Option<RevocationList>>, now: int
    ) returns (verdict: Verdict)
      requires Valid() && (forall list :: Some(list) in lists ==> SettledList(list))
      requires forall cert | cert in chain :: SettledCertificate(cert)
      modifies this
      ensures Valid() && verdict == ChainVerdict(sigs, chain, issuers, lists, now)
      ensures ChainAnswer(sigs, chain, issuers, lists, now, verdict)
    {
      hide LinkVerdict, SelfSigned, AnchorVerdict, ChainAnswer;
      ChainVerdictAnswers(sigs, chain, issuers, lists, now);
      var i := 0;
      while i + 1 < |chain|
        invariant Valid() && 0 <= i <= |chain| && (chain != [] ==> i < |chain|)
        invariant ChainVerdict(sigs, chain, issuers, lists, now) == ChainVerdict(sigs, chain[i..], issuers, lists, now)
      {
        assert chain[i..][1..] == chain[i + 1..];
        verdict := CheckAgainstCrls(chain[i], chain[i + 1], lists, now);
        if verdict != NotRevoked {
          return;
        }
        i := i + 1;
      }
      if |chain| == 0 {
        return NotRevoked;
      }
      var anchor := chain[|chain| - 1];
      var root := SelfSignedMemo(anchor);
      if !root {
        verdict := CheckAnchor(anchor, issuers, lists, now);
        return;
      }
      return NotRevoked;
    }
  }
}
