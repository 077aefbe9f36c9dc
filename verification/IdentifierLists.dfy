/**
 Identifier lists (identifierlist/token.go; ISO/IEC 18013-5 section 12.3.6.4): the identifiers map as
 IssueToken encodes it and parseClaims reads it back, and looking an identifier up.

 The map is CBOR (RFC 8949): byte string keys, each to an empty map, in the order of the keys' encodings,
 which puts shorter keys first; what is read back is sorted by the identifiers themselves. Items of
 definite length are read, with a length in any width.
 */
module IdentifierLists {
  import opened Wrappers
  import opened Encodings
  import opened ByteOrder

  const MAX_IDENTIFIERS: nat := 0x10_0000
  const MAX_LENGTH: nat := 0x1_0000_0000_0000_0000

  const BYTE_STRING: nat := 2
  const MAP: nat := 5
  const EMPTY_MAP: Bytes := [0xA0]

  // ---- CBOR heads ----

  lemma Widths()
    ensures Power256(1) == 0x100 && Power256(2) == 0x1_0000 && Power256(4) == 0x1_0000_0000
    ensures Power256(8) == MAX_LENGTH
  {
    assert Power256(4) == 256 * (256 * Power256(2));
    assert Power256(8) == 256 * (256 * (256 * (256 * Power256(4))));
  }

  /** How many bytes n takes after the first, in its shortest form. */
  function Width(n: nat): nat {
    if n < 24 then 0 else if n < 0x100 then 1 else if n < 0x1_0000 then 2 else if n < 0x1_0000_0000 then 4 else 8
  }

  /** The additional information that says so. */
  function WidthCode(width: nat): nat
    requires width == 1 || width == 2 || width == 4 || width == 8
  {
    if width == 1 then 24 else if width == 2 then 25 else if width == 4 then 26 else 27
  }

  /** The head of an item of major type major and argument n. */
  function Head(major: nat, n: nat): (b: Bytes)
    requires major < 8 && n < MAX_LENGTH
    ensures |b| == 1 + Width(n)
  {
    Widths();
    if n < 24 then [(major * 32 + n) as byte]
    else [(major * 32 + WidthCode(Width(n))) as byte] + BigEndian(n, Width(n))
  }

  datatype ReadHead = NoHead | AHead(major: nat, n: nat, rest: Bytes)

  function WidthOf(code: nat): Option<nat> {
    if code < 24 then Some(0)
    else if code == 24 then Some(1)
    else if code == 25 then Some(2)
    else if code == 26 then Some(4)
    else if code == 27 then Some(8)
    else None
  }

  function ParseHead(b: Bytes): ReadHead {
    if b == [] then NoHead
    else
      var major, code := b[0] as nat / 32, b[0] as nat % 32;
      match WidthOf(code)
      case None => NoHead
      case Some(width) =>
        if |b| < 1 + width then NoHead
        else AHead(major, if width == 0 then code else ValueOf(b[1..1 + width]), b[1 + width..])
  }

  lemma FirstByte(major: nat, code: nat)
    requires major < 8 && code < 32
    ensures major * 32 + code < 256
    ensures (major * 32 + code) / 32 == major && (major * 32 + code) % 32 == code
  {
  }

  lemma ParseHeadOfHead(major: nat, n: nat, rest: Bytes)
    requires major < 8 && n < MAX_LENGTH
    ensures ParseHead(Head(major, n) + rest) == AHead(major, n, rest)
  {
    Widths();
    hide Power256, BigEndian, ValueOf;
    var b, width := Head(major, n) + rest, Width(n);
    if n < 24 {
      FirstByte(major, n);
      assert b[0] as nat == major * 32 + n && b[1..] == rest;
    } else {
      FirstByte(major, WidthCode(width));
      BigEndianValue(n, width);
      assert b[0] as nat == major * 32 + WidthCode(width);
      assert b[1..1 + width] == BigEndian(n, width) && b[1 + width..] == rest;
    }
  }

  /** A head is the major type in three bits, the argument in the other five or, as they say, in 1, 2, 4 or 8 bytes. */
  lemma HeadIs(major: nat, n: nat)
    requires major < 8 && n < MAX_LENGTH
    ensures var head := Head(major, n);
            && head[0] as nat == 32 * major + (
                 if n < 24 then n else if n < 0x100 then 24 else if n < 0x1_0000 then 25 else if n < 0x1_0000_0000 then 26 else 27)
            && (n >= 24 ==> ValueOf(head[1..]) == n)
            && |head| == (if n < 24 then 1 else if n < 0x100 then 2 else if n < 0x1_0000 then 3 else if n < 0x1_0000_0000 then 5 else 9)
  {
    Widths();
    hide Power256, BigEndian, ValueOf;
    if n >= 24 {
      BigEndianValue(n, Width(n));
      assert Head(major, n)[1..] == BigEndian(n, Width(n));
    }
  }

  /** An argument is read in any width that holds it. */
  lemma ParseHeadOfAnyWidth(major: nat, n: nat, width: nat, rest: Bytes)
    requires major < 8 && (width == 1 || width == 2 || width == 4 || width == 8) && n < Power256(width)
    ensures var code := if width == 1 then 24 else if width == 2 then 25 else if width == 4 then 26 else 27;
            && 32 * major + code < 256
            && ParseHead([(32 * major + code) as byte] + BigEndian(n, width) + rest) == AHead(major, n, rest)
  {
    hide Power256, BigEndian, ValueOf;
    BigEndianValue(n, width);
    FirstByte(major, WidthCode(width));
    var b := [(32 * major + WidthCode(width)) as byte] + BigEndian(n, width) + rest;
    assert b[1..1 + width] == BigEndian(n, width) && b[1 + width..] == rest;
  }

  lemma HeadStarts(major: nat, m: nat, n: nat)
    requires major < 8 && m < n < MAX_LENGTH
    ensures var h, g := Head(major, m), Head(major, n);
            h[0] < g[0] || (h[0] == g[0] && |h| == |g| && ValueOf(h[1..]) < ValueOf(g[1..]))
  {
    HeadIs(major, m);
    HeadIs(major, n);
    hide Head, ValueOf, Width;
  }

  lemma HeadsInOrder(major: nat, m: nat, n: nat, x: Bytes, y: Bytes)
    requires major < 8 && m < n < MAX_LENGTH
    ensures Less(Head(major, m) + x, Head(major, n) + y)
  {
    HeadStarts(major, m, n);
    hide Head, ValueOf, Width;
    var h, g := Head(major, m), Head(major, n);
    assert (h + x)[0] == h[0] && (g + y)[0] == g[0];
    if h[0] == g[0] {
      LessByValue(h[1..], g[1..]);
      LessOfConcat(h[1..], x, g[1..], y);
      assert (h + x)[1..] == h[1..] + x && (g + y)[1..] == g[1..] + y;
    }
  }

  // ---- Identifiers as keys ----

  predicate IsIdentifier(id: Bytes) {
    id != [] && |id| < MAX_LENGTH
  }

  function Encoded(id: Bytes): Bytes {
    if |id| < MAX_LENGTH then Head(BYTE_STRING, |id|) + id else []
  }

  lemma EncodedInjective(a: Bytes, b: Bytes)
    requires IsIdentifier(a) && IsIdentifier(b) && Encoded(a) == Encoded(b)
    ensures a == b
  {
    ParseHeadOfHead(BYTE_STRING, |a|, a);
    ParseHeadOfHead(BYTE_STRING, |b|, b);
  }

  /** By their encodings, a shorter identifier comes first, and those of one length in the order of their bytes. */
  lemma EncodedOrder(a: Bytes, b: Bytes)
    requires IsIdentifier(a) && IsIdentifier(b)
    ensures Less(Encoded(a), Encoded(b)) <==> |a| < |b| || (|a| == |b| && Less(a, b))
  {
    assert Encoded(a) == Head(BYTE_STRING, |a|) + a && Encoded(b) == Head(BYTE_STRING, |b|) + b;
    hide Head, Width, Less, Encoded;
    if |a| < |b| {
      HeadsInOrder(BYTE_STRING, |a|, |b|, a, b);
    } else if |b| < |a| {
      HeadsInOrder(BYTE_STRING, |b|, |a|, b, a);
      if Less(Encoded(a), Encoded(b)) {
        NotBothLess(Encoded(a), Encoded(b));
      }
    } else {
      LessOfConcat(Head(BYTE_STRING, |a|), a, Head(BYTE_STRING, |b|), b);
      LessIrreflexive(Head(BYTE_STRING, |a|));
    }
  }

  /** Each identifier to an empty map, in this order. */
  function Entries(ids: seq<Bytes>): Bytes {
    if ids == [] then [] else Encoded(ids[0]) + EMPTY_MAP + Entries(ids[1..])
  }

  datatype Read = NotEntries | Identifiers(ids: seq<Bytes>, rest: Bytes)

  /** The next n entries, none of whose identifiers is empty. */
  function ParseEntries(b: Bytes, n: nat): Read {
    if n == 0 then Identifiers([], b)
    else
      match ParseHead(b)
      case NoHead => NotEntries
      case AHead(major, length, rest) =>
        if major != BYTE_STRING || length == 0 || |rest| < length + 1 || rest[length..length + 1] != EMPTY_MAP then NotEntries
        else
          match ParseEntries(rest[length + 1..], n - 1)
          case NotEntries => NotEntries
          case Identifiers(ids, last) => Identifiers([rest[..length]] + ids, last)
  }

  lemma ParseNextEntry(id: Bytes, more: Bytes, n: nat)
    requires IsIdentifier(id) && n > 0
    ensures ParseEntries(Encoded(id) + EMPTY_MAP + more, n)
         == match ParseEntries(more, n - 1)
            case NotEntries => NotEntries
            case Identifiers(ids, last) => Identifiers([id] + ids, last)
  {
    var after := id + EMPTY_MAP + more;
    assert Encoded(id) + EMPTY_MAP + more == Head(BYTE_STRING, |id|) + after;
    ParseHeadOfHead(BYTE_STRING, |id|, after);
    hide Head, ParseHead;
    assert after[..|id|] == id && after[|id|..|id| + 1] == EMPTY_MAP && after[|id| + 1..] == more;
  }

  lemma {:induction false} ParseEntriesOfEntries(ids: seq<Bytes>, rest: Bytes)
    requires forall id | id in ids :: IsIdentifier(id)
    ensures ParseEntries(Entries(ids) + rest, |ids|) == Identifiers(ids, rest)
  {
    hide Encoded, IsIdentifier, ParseHead;
    if ids == [] {
      assert Entries(ids) + rest == rest;
    } else {
      assert ids[0] in ids;
      assert Entries(ids) + rest == Encoded(ids[0]) + EMPTY_MAP + (Entries(ids[1..]) + rest);
      ParseNextEntry(ids[0], Entries(ids[1..]) + rest, |ids|);
      ParseEntriesOfEntries(ids[1..], rest);
      assert ids == [ids[0]] + ids[1..];
    }
  }

  // ---- Issuing ----

  datatype IssueError = EmptyIdentifier | TooMany | TooLong

  /** Each of ids once, where it first is. */
  function Once(ids: seq<Bytes>): (once: seq<Bytes>)
    ensures Distinct(once) && forall id :: id in once <==> id in ids
  {
    if ids == [] then []
    else
      var before, id := Once(ids[..|ids| - 1]), ids[|ids| - 1];
      assert ids == ids[..|ids| - 1] + [id];
      if id in before then before else before + [id]
  }

  function MapOf(ids: seq<Bytes>): Bytes
    requires |ids| < MAX_LENGTH
  {
    Head(MAP, |ids|) + Entries(Sort(Encoded, ids))
  }

  /** The identifiers map of a token, overhead the bytes the rest of it takes. */
  method IssueIdentifiers(ids: seq<Bytes>, overhead: nat, limit: nat) returns (payload: Result<Bytes, IssueError>)
    requires forall id | id in ids :: |id| < MAX_LENGTH
    ensures payload.Success? <==>
              [] !in ids && |Once(ids)| <= 0x10_0000 && |MapOf(Once(ids))| + overhead <= limit
    ensures payload.Success? ==> payload.value == MapOf(Once(ids))
    ensures payload == Failure(EmptyIdentifier) <==> [] in ids
    ensures payload == Failure(TooMany) <==> [] !in ids && |Once(ids)| > 0x10_0000
  {
    if [] in ids {
      return Failure(EmptyIdentifier);
    }
    var identifiers: seq<Bytes> := [];
    for i := 0 to |ids|
      invariant identifiers == Once(ids[..i])
    {
      assert ids[..i + 1][..i] == ids[..i];
      if ids[i] !in identifiers {
        identifiers := identifiers + [ids[i]];
      }
    }
    assert ids[..|ids|] == ids;
    if |identifiers| > MAX_IDENTIFIERS {
      return Failure(TooMany);
    }
    var map_ := MapOf(identifiers);
    if |map_| + overhead > limit {
      return Failure(TooLong);
    }
    return Success(map_);
  }

  /** The same identifiers, in whatever order and however often given, are signed over the same bytes. */
  lemma IssuedAlike(a: seq<Bytes>, b: seq<Bytes>)
    requires forall id :: id in a <==> id in b
    requires forall id | id in a :: IsIdentifier(id)
    requires |Once(a)| <= MAX_IDENTIFIERS && |Once(b)| <= MAX_IDENTIFIERS
    ensures MapOf(Once(a)) == MapOf(Once(b))
  {
    var x, y := Once(a), Once(b);
    SortSorts(Encoded, x);
    SortSorts(Encoded, y);
    SortMembers(Encoded, x);
    SortMembers(Encoded, y);
    SameSize(x, y);
    forall p, q | p in x && q in x && Encoded(p) == Encoded(q) ensures p == q {
      EncodedInjective(p, q);
    }
    hide Encoded, Sort, Once;
    SortedIsUnique(Encoded, Sort(Encoded, x), Sort(Encoded, y));
  }

  lemma {:induction false} SameSize(x: seq<Bytes>, y: seq<Bytes>)
    requires Distinct(x) && Distinct(y) && forall id :: id in x <==> id in y
    ensures |x| == |y|
  {
    DistinctCounts(x);
    DistinctCounts(y);
    forall id ensures multiset(x)[id] == multiset(y)[id] {
      assert id in x <==> id in multiset(x);
      assert id in y <==> id in multiset(y);
    }
    assert multiset(x) == multiset(y);
    assert |multiset(x)| == |x| && |multiset(y)| == |y|;
  }

  /** What is signed over is a map of each identifier once, shorter ones first and then in the order of their bytes. */
  lemma IssuedInOrder(ids: seq<Bytes>) returns (order: seq<Bytes>)
    requires forall id | id in ids :: IsIdentifier(id)
    requires |Once(ids)| <= MAX_IDENTIFIERS
    ensures |order| < MAX_LENGTH && MapOf(Once(ids)) == Head(MAP, |order|) + Entries(order)
    ensures forall id :: id in order <==> id in ids
    ensures forall i, j | 0 <= i < j < |order| ::
              |order[i]| < |order[j]| || (|order[i]| == |order[j]| && Less(order[i], order[j]))
  {
    var once := Once(ids);
    order := Sort(Encoded, once);
    SortSorts(Encoded, once);
    SortMembers(Encoded, once);
    hide Sort, Once, Encoded, Head, Entries, IsIdentifier;
    forall i, j | 0 <= i < j < |order|
      ensures |order[i]| < |order[j]| || (|order[i]| == |order[j]| && Less(order[i], order[j]))
    {
      assert order[i] in order && order[j] in order;
      EncodedOrder(order[j], order[i]);
      LessTotal(order[i], order[j]);
    }
  }

  // ---- Reading back ----

  /** identifiers, on a map checked to be whole and to repeat no key. */
  function Parse(b: Bytes): Option<seq<Bytes>> {
    match ParseHead(b)
    case NoHead => None
    case AHead(major, n, rest) =>
      if major != MAP || n > MAX_IDENTIFIERS then None
      else
        match ParseEntries(rest, n)
        case NotEntries => None
        case Identifiers(ids, last) =>
          if last != [] || !Distinct(ids) then None else Some(Sort(Identity, ids))
  }

  /** What is read back is sorted and repeats nothing. */
  lemma ParsedIsSorted(b: Bytes)
    requires Parse(b).Some?
    ensures SortedBy(Identity, Parse(b).value) && Distinct(Parse(b).value)
    ensures |Parse(b).value| <= 0x10_0000 && [] !in Parse(b).value
  {
    var ids := ParseEntries(ParseHead(b).rest, ParseHead(b).n).ids;
    SortSorts(Identity, ids);
    SortMembers(Identity, ids);
    ParsedEntries(ParseHead(b).rest, ParseHead(b).n);
  }

  lemma {:induction false} ParsedEntries(b: Bytes, n: nat)
    requires ParseEntries(b, n).Identifiers?
    ensures |ParseEntries(b, n).ids| == n && [] !in ParseEntries(b, n).ids
    decreases n
  {
    if n > 0 {
      var length, rest := ParseHead(b).n, ParseHead(b).rest;
      ParsedEntries(rest[length + 1..], n - 1);
    }
  }

  /** Reading what was issued gives the identifiers it was issued with, sorted and each once. */
  lemma ParseUndoesIssue(ids: seq<Bytes>)
    requires forall id | id in ids :: IsIdentifier(id)
    requires |Once(ids)| <= MAX_IDENTIFIERS
    ensures Parse(MapOf(Once(ids))) == Some(Sort(Identity, Once(ids)))
    ensures forall id :: id in Sort(Identity, Once(ids)) <==> id in ids
  {
    var once := Once(ids);
    var order := Sort(Encoded, once);
    SortMembers(Encoded, once);
    SortMembers(Identity, once);
    hide Once, Sort, Encoded, ParseHead, ParseEntries, Entries;
    ParseHeadOfHead(MAP, |once|, Entries(order));
    assert Entries(order) + [] == Entries(order);
    ParseEntriesOfEntries(order, []);
    SortSorts(Identity, once);
    SortSorts(Identity, order);
    SortMembers(Identity, order);
    SortedIsUnique(Identity, Sort(Identity, order), Sort(Identity, once));
  }

  // ---- Looking up ----

  /** TokenClaims.Contains. */
  method Contains(ids: seq<Bytes>, id: Bytes) returns (found: bool)
    ensures found <==> id in ids
  {
    for i := 0 to |ids|
      invariant id !in ids[..i]
    {
      if ids[i] == id {
        return true;
      }
    }
    assert ids[..|ids|] == ids;
    return false;
  }

  /** TokenClaims.listed, a binary search: on identifiers as read back, the same answer. */
  method Listed(ids: seq<Bytes>, id: Bytes) returns (found: bool)
    requires SortedBy(Identity, ids)
    ensures found <==> id in ids
  {
    var low, high := 0, |ids|;
    while low < high
      invariant 0 <= low <= high <= |ids|
      invariant forall i | 0 <= i < low :: Less(ids[i], id)
      invariant forall i | high <= i < |ids| :: !Less(ids[i], id)
    {
      var middle := (low + high) / 2;
      if Less(ids[middle], id) {
        BelowIsBelow(ids, middle, id);
        low := middle + 1;
      } else {
        AboveIsAbove(ids, middle, id);
        high := middle;
      }
    }
    found := low < |ids| && ids[low] == id;
    LessIrreflexive(id);
    if id in ids && !found {
      var i :| 0 <= i < |ids| && ids[i] == id;
      AtMostFirst(ids, low, i, id);
    }
  }

  lemma BelowIsBelow(ids: seq<Bytes>, middle: nat, id: Bytes)
    requires SortedBy(Identity, ids) && middle < |ids| && Less(ids[middle], id)
    ensures forall i | 0 <= i <= middle :: Less(ids[i], id)
  {
    forall i | 0 <= i < middle ensures Less(ids[i], id) {
      assert !Less(Identity(ids[middle]), Identity(ids[i]));
      LessTotal(ids[i], ids[middle]);
      if Less(ids[i], ids[middle]) {
        LessTransitive(ids[i], ids[middle], id);
      }
    }
  }

  lemma AboveIsAbove(ids: seq<Bytes>, middle: nat, id: Bytes)
    requires SortedBy(Identity, ids) && middle < |ids| && !Less(ids[middle], id)
    ensures forall i | middle <= i < |ids| :: !Less(ids[i], id)
  {
    forall i | middle < i < |ids| ensures !Less(ids[i], id) {
      assert !Less(Identity(ids[i]), Identity(ids[middle]));
      NotLessThrough(id, ids[middle], ids[i]);
    }
  }

  /** The first identifier not below id is id, if id is there at all. */
  lemma AtMostFirst(ids: seq<Bytes>, low: nat, i: nat, id: Bytes)
    requires SortedBy(Identity, ids) && low <= i < |ids| && ids[i] == id && !Less(ids[low], id)
    ensures ids[low] == id
  {
    LessTotal(ids[low], id);
    if low < i {
      assert !Less(Identity(ids[i]), Identity(ids[low]));
    }
  }
}
