/** The order of byte strings, as bytes.Compare has it, and sorting by it. */
module ByteOrder {
  import opened Encodings

  /** a comes before b: at the first byte they differ in, or as the shorter of the two. */
  predicate Less(a: Bytes, b: Bytes) {
    if b == [] then false
    else if a == [] then true
    else if a[0] != b[0] then a[0] < b[0]
    else Less(a[1..], b[1..])
  }

  lemma {:induction false} LessIrreflexive(a: Bytes)
    ensures !Less(a, a)
  {
    if a != [] {
      LessIrreflexive(a[1..]);
    }
  }

  lemma {:induction false} LessTransitive(a: Bytes, b: Bytes, c: Bytes)
    requires Less(a, b) && Less(b, c)
    ensures Less(a, c)
  {
    if a != [] && a[0] == b[0] == c[0] {
      LessTransitive(a[1..], b[1..], c[1..]);
    }
  }

  lemma {:induction false} LessTotal(a: Bytes, b: Bytes)
    ensures a == b || Less(a, b) || Less(b, a)
  {
    if a != [] && b != [] && a[0] == b[0] {
      LessTotal(a[1..], b[1..]);
      assert a == [a[0]] + a[1..] && b == [b[0]] + b[1..];
    }
  }

  /** a and b agree before k, and there a ends or has the smaller byte. */
  predicate DifferAt(a: Bytes, b: Bytes, k: nat) {
    k <= |a| && k < |b| && a[..k] == b[..k] && (k == |a| || a[k] < b[k])
  }

  lemma {:induction false} LessDiffers(a: Bytes, b: Bytes) returns (k: nat)
    requires Less(a, b)
    ensures DifferAt(a, b, k)
  {
    if a == [] || a[0] != b[0] {
      k := 0;
    } else {
      k := LessDiffers(a[1..], b[1..]);
      k := k + 1;
      assert a[..k] == [a[0]] + a[1..][..k - 1] && b[..k] == [b[0]] + b[1..][..k - 1];
    }
  }

  lemma {:induction false} DifferIsLess(a: Bytes, b: Bytes, k: nat)
    requires DifferAt(a, b, k)
    ensures Less(a, b)
  {
    if k > 0 {
      assert a[..k][0] == b[..k][0] && a[1..][..k - 1] == a[..k][1..] && b[1..][..k - 1] == b[..k][1..];
      DifferIsLess(a[1..], b[1..], k - 1);
    }
  }

  /** Bytes are compared where they first differ: there one ends, or has the smaller byte. */
  lemma LessIff(a: Bytes, b: Bytes)
    ensures Less(a, b) <==> exists k: nat :: DifferAt(a, b, k)
  {
    if Less(a, b) {
      var k := LessDiffers(a, b);
    }
    if k: nat :| DifferAt(a, b, k) {
      DifferIsLess(a, b, k);
    }
  }

  lemma {:induction false} LessOfConcat(a: Bytes, x: Bytes, b: Bytes, y: Bytes)
    requires |a| == |b|
    ensures Less(a + x, b + y) <==> Less(a, b) || (a == b && Less(x, y))
  {
    if a == [] {
      assert a + x == x && b + y == y;
    } else {
      assert (a + x)[1..] == a[1..] + x && (b + y)[1..] == b[1..] + y;
      LessOfConcat(a[1..], x, b[1..], y);
      assert a == [a[0]] + a[1..] && b == [b[0]] + b[1..];
    }
  }

  /** Of one length, bytes are in the order of the numbers they write. */
  lemma {:induction false} LessByValue(a: Bytes, b: Bytes)
    requires |a| == |b|
    ensures Less(a, b) <==> ValueOf(a) < ValueOf(b)
    ensures a == b <==> ValueOf(a) == ValueOf(b)
  {
    if a != [] {
      var n := |a| - 1;
      assert a == a[..n] + [a[n]] && b == b[..n] + [b[n]];
      LessByValue(a[..n], b[..n]);
      LessOfConcat(a[..n], [a[n]], b[..n], [b[n]]);
    }
  }

  /** By key, none comes before an earlier one. */
  predicate SortedBy(key: Bytes -> Bytes, s: seq<Bytes>) {
    forall i, j | 0 <= i < j < |s| :: !Less(key(s[j]), key(s[i]))
  }

  predicate Distinct(s: seq<Bytes>) {
    forall i, j | 0 <= i < j < |s| :: s[i] != s[j]
  }

  function Identity(b: Bytes): Bytes {
    b
  }

  /** s with x put in its place. */
  function Insert(key: Bytes -> Bytes, x: Bytes, s: seq<Bytes>): (r: seq<Bytes>)
    ensures multiset(r) == multiset(s) + multiset{x}
  {
    if s == [] || !Less(key(s[0]), key(x)) then [x] + s
    else
      assert s == [s[0]] + s[1..];
      [s[0]] + Insert(key, x, s[1..])
  }

  lemma {:induction false} InsertKeepsSorted(key: Bytes -> Bytes, x: Bytes, s: seq<Bytes>)
    requires SortedBy(key, s)
    ensures SortedBy(key, Insert(key, x, s))
  {
    var r := Insert(key, x, s);
    if s == [] {
    } else if !Less(key(s[0]), key(x)) {
      forall j | 0 <= j < |s| ensures !Less(key(s[j]), key(x)) {
        if j > 0 {
          NotLessThrough(key(x), key(s[0]), key(s[j]));
        }
      }
    } else {
      InsertKeepsSorted(key, x, s[1..]);
      var rest := Insert(key, x, s[1..]);
      forall j | 0 <= j < |rest| ensures !Less(key(rest[j]), key(s[0])) {
        InsertMembers(key, x, s[1..]);
        assert rest[j] in rest;
        if rest[j] == x {
          NotBothLess(key(s[0]), key(x));
        }
      }
    }
  }

  lemma NotLessThrough(x: Bytes, a: Bytes, b: Bytes)
    requires !Less(a, x) && !Less(b, a)
    ensures !Less(b, x)
  {
    LessTotal(a, b);
    if Less(b, x) && Less(a, b) {
      LessTransitive(a, b, x);
    }
  }

  lemma NotBothLess(a: Bytes, b: Bytes)
    requires Less(a, b)
    ensures !Less(b, a)
  {
    LessIrreflexive(a);
    if Less(b, a) {
      LessTransitive(a, b, a);
    }
  }

  lemma InsertMembers(key: Bytes -> Bytes, x: Bytes, s: seq<Bytes>)
    ensures forall y | y in Insert(key, x, s) :: y == x || y in s
  {
    forall y | y in Insert(key, x, s) ensures y == x || y in s {
      assert y in multiset(Insert(key, x, s));
    }
  }

  /** The elements of s, sorted by key. */
  function Sort(key: Bytes -> Bytes, s: seq<Bytes>): (r: seq<Bytes>)
    ensures multiset(r) == multiset(s)
  {
    if s == [] then []
    else
      assert s == [s[0]] + s[1..];
      Insert(key, s[0], Sort(key, s[1..]))
  }

  lemma {:induction false} SortSorts(key: Bytes -> Bytes, s: seq<Bytes>)
    ensures SortedBy(key, Sort(key, s))
  {
    if s != [] {
      SortSorts(key, s[1..]);
      InsertKeepsSorted(key, s[0], Sort(key, s[1..]));
    }
  }

  lemma SortMembers(key: Bytes -> Bytes, s: seq<Bytes>)
    ensures forall x :: x in Sort(key, s) <==> x in s
    ensures |Sort(key, s)| == |s|
    ensures Distinct(s) ==> Distinct(Sort(key, s))
  {
    var r := Sort(key, s);
    forall x ensures x in r <==> x in s {
      assert x in r <==> x in multiset(r);
      assert x in s <==> x in multiset(s);
    }
    assert |multiset(r)| == |r| && |multiset(s)| == |s|;
    if Distinct(s) {
      DistinctCounts(s);
      CountsDistinct(r);
    }
  }

  lemma {:induction false} DistinctCounts(s: seq<Bytes>)
    requires Distinct(s)
    ensures forall x :: multiset(s)[x] <= 1
  {
    if s != [] {
      DistinctCounts(s[1..]);
      assert s == [s[0]] + s[1..];
      assert s[0] !in s[1..];
    }
  }

  lemma {:induction false} CountsDistinct(s: seq<Bytes>)
    requires forall x :: multiset(s)[x] <= 1
    ensures Distinct(s)
  {
    if s != [] {
      assert s == [s[0]] + s[1..];
      assert multiset(s) == multiset{s[0]} + multiset(s[1..]);
      assert forall x :: multiset(s[1..])[x] <= multiset(s)[x];
      CountsDistinct(s[1..]);
      assert multiset(s)[s[0]] == 1 + multiset(s[1..])[s[0]];
      assert s[0] !in multiset(s[1..]);
      assert s[0] !in s[1..];
      forall i, j | 0 <= i < j < |s| ensures s[i] != s[j] {
        assert s[j] == s[1..][j - 1];
        if i > 0 {
          assert s[i] == s[1..][i - 1];
        }
      }
    }
  }

  /** Of sorted elements the first is the least, so the same in any order they are sorted in. */
  lemma SameFirst(key: Bytes -> Bytes, a: seq<Bytes>, b: seq<Bytes>)
    requires SortedBy(key, a) && SortedBy(key, b) && a != [] && b != []
    requires a[0] in b && b[0] in a
    requires key(a[0]) == key(b[0]) ==> a[0] == b[0]
    ensures a[0] == b[0]
  {
    hide Less;
    var i :| 0 <= i < |a| && a[i] == b[0];
    var j :| 0 <= j < |b| && b[j] == a[0];
    LessTotal(key(a[0]), key(b[0]));
  }

  lemma TailMembers(s: seq<Bytes>)
    requires s != [] && Distinct(s)
    ensures Distinct(s[1..])
    ensures forall x :: x in s[1..] <==> x in s && x != s[0]
  {
    forall x ensures x in s[1..] <==> x in s && x != s[0] {
      if x in s[1..] {
        var i :| 0 <= i < |s[1..]| && s[1..][i] == x;
        assert s[i + 1] == x;
      }
      if x in s && x != s[0] {
        var i :| 0 <= i < |s| && s[i] == x;
        assert s[1..][i - 1] == x;
      }
    }
  }

  /** Distinct elements in order come in one order only, keys being different for different elements. */
  lemma {:induction false} SortedIsUnique(key: Bytes -> Bytes, a: seq<Bytes>, b: seq<Bytes>)
    requires SortedBy(key, a) && SortedBy(key, b) && Distinct(a) && Distinct(b)
    requires |a| == |b| && forall x :: x in a <==> x in b
    requires forall x, y | x in a && y in a && key(x) == key(y) :: x == y
    ensures a == b
  {
    hide Less, Distinct;
    if a != [] {
      assert a[0] in a && b[0] in b;
      SameFirst(key, a, b);
      TailMembers(a);
      TailMembers(b);
      SortedIsUnique(key, a[1..], b[1..]);
      assert a == [a[0]] + a[1..] && b == [b[0]] + b[1..];
    }
  }
}
