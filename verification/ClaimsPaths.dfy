/**
 Claims Path Pointers (dcql/path.go, OpenID4VP 1.0 section 7).

 Select walks a path a component at a time over a list of selected values. Located says the same of
 one value without a list, keeping where each value was found; Matches and ValueAt say, without any
 walk, which locations a path means. Covers is then compared with inclusion of those locations.
 */
module ClaimsPaths {
  import opened Wrappers

  datatype Json =
    | Null
    | Bool(b: bool)
    | Number(n: real)
    | String(s: string)
    | Array(items: seq<Json>)
    | Object(members: map<string, Json>)

  datatype PathElement = Key(key: string) | Wildcard | Index(index: nat)

  type Path = seq<PathElement>

  datatype PathError = EmptyPath | NotAnObject | NotAnArray | SelectionEmpty

  /** One step from a value to one within it. */
  datatype Step = Member(name: string) | Item(index: nat)

  type Location = seq<Step>

  // ---- What a path means ----

  function Child(v: Json, step: Step): Option<Json> {
    match step
    case Member(name) => if v.Object? && name in v.members then Some(v.members[name]) else None
    case Item(i) => if v.Array? && i < |v.items| then Some(v.items[i]) else None
  }

  function ValueAt(v: Json, at: Location): Option<Json> {
    if at == [] then Some(v)
    else
      match Child(v, at[0])
      case None => None
      case Some(child) => ValueAt(child, at[1..])
  }

  predicate StepMatches(e: PathElement, step: Step) {
    match e
    case Key(key) => step == Member(key)
    case Wildcard => step.Item?
    case Index(i) => step == Item(i)
  }

  predicate Matches(p: Path, at: Location) {
    |at| == |p| && forall i | 0 <= i < |p| :: StepMatches(p[i], at[i])
  }

  /** Whether v is of the kind e selects from. */
  predicate Fits(e: PathElement, v: Json) {
    if e.Key? then v.Object? else v.Array?
  }

  /** Whether p means location at, and root has it. */
  predicate Selects(p: Path, root: Json, at: Location) {
    Matches(p, at) && ValueAt(root, at).Some?
  }

  /** Every value component k of p selects from in root is of the kind it selects from. */
  ghost predicate ShapedAt(p: Path, k: nat, root: Json)
    requires k < |p|
  {
    forall at | Selects(p[..k], root, at) :: Fits(p[k], ValueAt(root, at).value)
  }

  /** Every value p crosses in root, before its last component selects, is of the kind the next selects from. */
  ghost predicate WellShaped(p: Path, root: Json) {
    forall k | 0 <= k < |p| :: ShapedAt(p, k, root)
  }

  predicate IsPrefix(prefix: Location, at: Location) {
    |prefix| <= |at| && at[..|prefix|] == prefix
  }

  lemma {:induction false} ValueAtAppend(v: Json, at: Location, more: Location)
    ensures ValueAt(v, at + more)
         == if ValueAt(v, at).None? then None else ValueAt(ValueAt(v, at).value, more)
    decreases at
  {
    if at == [] {
      assert at + more == more;
    } else {
      assert (at + more)[1..] == at[1..] + more;
      if Child(v, at[0]).Some? {
        ValueAtAppend(Child(v, at[0]).value, at[1..], more);
      }
    }
  }

  // ---- The walk over one list of values ----

  /** What e selects from v: nothing where it's absent, an error where v is of another kind. */
  function SelectOne(e: PathElement, v: Json): Result<seq<Json>, PathError> {
    match e
    case Key(key) =>
      if !v.Object? then Failure(NotAnObject)
      else if key in v.members then Success([v.members[key]]) else Success([])
    case Wildcard => if !v.Array? then Failure(NotAnArray) else Success(v.items)
    case Index(i) =>
      if !v.Array? then Failure(NotAnArray)
      else if i < |v.items| then Success([v.items[i]]) else Success([])
  }

  /** What e selects from each of selection, in order, or the first error. */
  function SelectFrom(e: PathElement, selection: seq<Json>): Result<seq<Json>, PathError> {
    if selection == [] then Success([])
    else
      match SelectFrom(e, selection[..|selection| - 1])
      case Failure(error) => Failure(error)
      case Success(before) =>
        match SelectOne(e, selection[|selection| - 1])
        case Failure(error) => Failure(error)
        case Success(more) => Success(before + more)
  }

  function Walk(p: Path, selection: seq<Json>): Result<seq<Json>, PathError> {
    if p == [] then Success(selection)
    else
      match Walk(p[..|p| - 1], selection)
      case Failure(error) => Failure(error)
      case Success(before) =>
        match SelectFrom(p[|p| - 1], before)
        case Failure(error) => Failure(error)
        case Success(next) => if next == [] then Failure(SelectionEmpty) else Success(next)
  }

  function Select(p: Path, root: Json): Result<seq<Json>, PathError> {
    if p == [] then Failure(EmptyPath) else Walk(p, [root])
  }

  /** Selecting from a list succeeds when each value is of the right kind, and selects what each does. */
  lemma {:induction false} SelectFromEach(e: PathElement, selection: seq<Json>)
    ensures SelectFrom(e, selection).Success? <==> forall v | v in selection :: Fits(e, v)
    ensures SelectFrom(e, selection).Success? ==>
              forall w :: w in SelectFrom(e, selection).value <==> exists v | v in selection :: w in SelectOne(e, v).value
    ensures SelectFrom(e, selection).Failure? ==> SelectFrom(e, selection).error != SelectionEmpty
  {
    if selection != [] {
      var before, last := selection[..|selection| - 1], selection[|selection| - 1];
      SelectFromEach(e, before);
      assert SelectOne(e, last).Success? <==> Fits(e, last);
      assert forall v :: v in selection <==> v in before || v == last;
    }
  }

  /** A location the last component adds to one the path before it selects. */
  lemma SelectsStep(p: Path, root: Json, at: Location)
    requires p != [] && at != []
    ensures Selects(p, root, at)
       <==> && Selects(p[..|p| - 1], root, at[..|at| - 1])
            && StepMatches(p[|p| - 1], at[|at| - 1])
            && Child(ValueAt(root, at[..|at| - 1]).value, at[|at| - 1]).Some?
    ensures Selects(p, root, at) ==>
              ValueAt(root, at) == Child(ValueAt(root, at[..|at| - 1]).value, at[|at| - 1])
  {
    var before, last := at[..|at| - 1], at[|at| - 1];
    assert at == before + [last];
    ValueAtAppend(root, before, [last]);
  }

  /** One step selects exactly the children at the steps it matches. */
  lemma SelectOneExact(e: PathElement, v: Json, w: Json)
    requires Fits(e, v)
    ensures w in SelectOne(e, v).value <==> exists step :: StepMatches(e, step) && Child(v, step) == Some(w)
  {
    if w in SelectOne(e, v).value {
      var step;
      if e.Wildcard? {
        var i :| 0 <= i < |v.items| && v.items[i] == w;
        step := Item(i);
      } else {
        step := if e.Key? then Member(e.key) else Item(e.index);
      }
      assert StepMatches(e, step) && Child(v, step) == Some(w);
    }
  }

  /** What a walk selects is at a location the path means. */
  lemma {:induction false} WalkFound(p: Path, root: Json, w: Json) returns (at: Location)
    requires Walk(p, [root]).Success? && w in Walk(p, [root]).value
    ensures Selects(p, root, at) && ValueAt(root, at) == Some(w)
  {
    if p == [] {
      at := [];
    } else {
      var init, e := p[..|p| - 1], p[|p| - 1];
      SelectFromEach(e, Walk(init, [root]).value);
      var v :| v in Walk(init, [root]).value && w in SelectOne(e, v).value;
      var before := WalkFound(init, root, v);
      SelectOneExact(e, v, w);
      var step :| StepMatches(e, step) && Child(v, step) == Some(w);
      at := before + [step];
      assert at[..|at| - 1] == before;
      SelectsStep(p, root, at);
    }
  }

  /** A walk selects the value at each location the path means. */
  lemma {:induction false} WalkFinds(p: Path, root: Json, at: Location)
    requires Walk(p, [root]).Success? && Selects(p, root, at)
    ensures ValueAt(root, at).value in Walk(p, [root]).value
    decreases |p|, 1
  {
    if p != [] {
      LastStepFinds(p, root, at);
    }
  }

  lemma {:induction false} LastStepFinds(p: Path, root: Json, at: Location)
    requires p != [] && Walk(p[..|p| - 1], [root]).Success? && Selects(p, root, at)
    requires SelectFrom(p[|p| - 1], Walk(p[..|p| - 1], [root]).value).Success?
    ensures ValueAt(root, at).value in SelectFrom(p[|p| - 1], Walk(p[..|p| - 1], [root]).value).value
    decreases |p|, 0
  {
    var init, e := p[..|p| - 1], p[|p| - 1];
    SelectsStep(p, root, at);
    WalkFinds(init, root, at[..|at| - 1]);
    SelectFromEach(e, Walk(init, [root]).value);
    SelectOneExact(e, ValueAt(root, at[..|at| - 1]).value, ValueAt(root, at).value);
  }

  lemma WellShapedStep(p: Path, root: Json)
    requires p != []
    ensures WellShaped(p, root)
       <==> WellShaped(p[..|p| - 1], root) && ShapedAt(p, |p| - 1, root)
  {
    var init := p[..|p| - 1];
    forall k | 0 <= k < |init| ensures ShapedAt(init, k, root) == ShapedAt(p, k, root) {
      assert init[..k] == p[..k];
    }
  }

  /** A walk that succeeds crossed only values of the right kind, and selected something. */
  lemma {:induction false} WalkSucceeds(p: Path, root: Json)
    requires Walk(p, [root]).Success?
    ensures WellShaped(p, root)
    ensures exists at :: Selects(p, root, at)
  {
    if p == [] {
      assert Selects(p, root, []);
    } else {
      var init, e := p[..|p| - 1], p[|p| - 1];
      WalkSucceeds(init, root);
      WellShapedStep(p, root);
      SelectFromEach(e, Walk(init, [root]).value);
      forall at | Selects(init, root, at) ensures Fits(e, ValueAt(root, at).value) {
        WalkFinds(init, root, at);
      }
      var at := WalkFound(p, root, Walk(p, [root]).value[0]);
    }
  }

  /** A walk that fails either selected nothing or crossed a value of the wrong kind, as its error says. */
  lemma {:induction false} WalkFails(p: Path, root: Json)
    requires Walk(p, [root]).Failure?
    ensures Walk(p, [root]).error == SelectionEmpty ==> !exists at :: Selects(p, root, at)
    ensures Walk(p, [root]).error != SelectionEmpty ==> !WellShaped(p, root)
  {
    var init := p[..|p| - 1];
    WellShapedStep(p, root);
    if Walk(init, [root]).Failure? {
      WalkFails(init, root);
      forall at | Selects(p, root, at) ensures Selects(init, root, at[..|at| - 1]) {
        SelectsStep(p, root, at);
      }
    } else {
      LastStepFails(p, root);
    }
  }

  lemma LastStepFails(p: Path, root: Json)
    requires p != [] && Walk(p[..|p| - 1], [root]).Success? && Walk(p, [root]).Failure?
    ensures Walk(p, [root]).error == SelectionEmpty ==> !exists at :: Selects(p, root, at)
    ensures Walk(p, [root]).error != SelectionEmpty ==> !ShapedAt(p, |p| - 1, root)
  {
    var init, e := p[..|p| - 1], p[|p| - 1];
    var before := Walk(init, [root]).value;
    SelectFromEach(e, before);
    if SelectFrom(e, before).Failure? {
      var v :| v in before && !Fits(e, v);
      var at := WalkFound(init, root, v);
    } else {
      forall at | Selects(p, root, at) ensures SelectFrom(e, before).value != [] {
        LastStepFinds(p, root, at);
      }
    }
  }

  /**
   What evaluating a path means: it succeeds exactly when the path is non-empty, crosses only values of
   the right kind and selects some location, and then its values are those at the locations it selects.
   */
  lemma SelectMeaning(p: Path, root: Json)
    ensures Select(p, root).Success?
       <==> p != [] && WellShaped(p, root) && exists at :: Selects(p, root, at)
    ensures Select(p, root).Success? ==>
              forall w :: w in Select(p, root).value <==> exists at :: Selects(p, root, at) && ValueAt(root, at) == Some(w)
  {
    if p != [] {
      if Walk(p, [root]).Success? {
        WalkSucceeds(p, root);
        forall w | w in Walk(p, [root]).value ensures exists at :: Selects(p, root, at) && ValueAt(root, at) == Some(w) {
          var at := WalkFound(p, root, w);
        }
        forall at | Selects(p, root, at) ensures ValueAt(root, at).value in Walk(p, [root]).value {
          WalkFinds(p, root, at);
        }
      } else {
        WalkFails(p, root);
      }
    }
  }

  // ---- The code ----

  method SelectKey(key: string, selection: seq<Json>) returns (r: Result<seq<Json>, PathError>)
    ensures r == SelectFrom(Key(key), selection)
    ensures r == Failure(NotAnObject) <==> exists v | v in selection :: !v.Object?
    ensures r.Success? <==> forall v | v in selection :: v.Object?
    ensures r.Success? ==> forall w :: w in r.value <==> exists v | v in selection :: key in v.members && v.members[key] == w
  {
    SelectFromEach(Key(key), selection);
    var next: seq<Json> := [];
    for k := 0 to |selection|
      invariant SelectFrom(Key(key), selection[..k]) == Success(next)
    {
      assert selection[..k + 1][..k] == selection[..k];
      if !selection[k].Object? {
        FirstFailure(Key(key), selection, k);
        return Failure(NotAnObject);
      }
      assert next + [] == next;
      if key in selection[k].members {
        next := next + [selection[k].members[key]];
      }
    }
    assert selection[..|selection|] == selection;
    return Success(next);
  }

  method SelectWildcard(selection: seq<Json>) returns (r: Result<seq<Json>, PathError>)
    ensures r == SelectFrom(Wildcard, selection)
    ensures r == Failure(NotAnArray) <==> exists v | v in selection :: !v.Array?
    ensures r.Success? <==> forall v | v in selection :: v.Array?
    ensures r.Success? ==> forall w :: w in r.value <==> exists v | v in selection :: w in v.items
  {
    SelectFromEach(Wildcard, selection);
    var next: seq<Json> := [];
    for k := 0 to |selection|
      invariant SelectFrom(Wildcard, selection[..k]) == Success(next)
    {
      assert selection[..k + 1][..k] == selection[..k];
      if !selection[k].Array? {
        FirstFailure(Wildcard, selection, k);
        return Failure(NotAnArray);
      }
      next := next + selection[k].items;
    }
    assert selection[..|selection|] == selection;
    return Success(next);
  }

  method SelectIndex(index: nat, selection: seq<Json>) returns (r: Result<seq<Json>, PathError>)
    ensures r == SelectFrom(Index(index), selection)
    ensures r == Failure(NotAnArray) <==> exists v | v in selection :: !v.Array?
    ensures r.Success? <==> forall v | v in selection :: v.Array?
    ensures r.Success? ==>
              forall w :: w in r.value <==> exists v | v in selection :: index < |v.items| && v.items[index] == w
  {
    SelectFromEach(Index(index), selection);
    var next: seq<Json> := [];
    for k := 0 to |selection|
      invariant SelectFrom(Index(index), selection[..k]) == Success(next)
    {
      assert selection[..k + 1][..k] == selection[..k];
      if !selection[k].Array? {
        FirstFailure(Index(index), selection, k);
        return Failure(NotAnArray);
      }
      assert next + [] == next;
      if index < |selection[k].items| {
        next := next + [selection[k].items[index]];
      }
    }
    assert selection[..|selection|] == selection;
    return Success(next);
  }

  /** The first value of the wrong kind decides the error. */
  lemma {:induction false} FirstFailure(e: PathElement, selection: seq<Json>, k: nat)
    requires k < |selection| && SelectFrom(e, selection[..k]).Success? && !Fits(e, selection[k])
    ensures SelectFrom(e, selection) == Failure(if e.Key? then NotAnObject else NotAnArray)
  {
    if k == |selection| - 1 {
    } else {
      assert selection[..|selection| - 1][..k] == selection[..k];
      FirstFailure(e, selection[..|selection| - 1], k);
    }
  }

  /** Path.Select: the selection is replaced component by component. */
  method SelectPath(p: Path, root: Json) returns (r: Result<seq<Json>, PathError>)
    ensures r == Select(p, root)
  {
    if p == [] {
      return Failure(EmptyPath);
    }
    var selection := [root];
    for k := 0 to |p|
      invariant Walk(p[..k], [root]) == Success(selection)
    {
      assert p[..k + 1][..k] == p[..k];
      var next;
      match p[k] {
        case Key(key) => next := SelectKey(key, selection);
        case Wildcard => next := SelectWildcard(selection);
        case Index(i) => next := SelectIndex(i, selection);
      }
      if next.Failure? {
        WalkFailsEarly(p, root, k + 1);
        return next;
      }
      if |next.value| == 0 {
        WalkFailsEarly(p, root, k + 1);
        return Failure(SelectionEmpty);
      }
      selection := next.value;
    }
    assert p[..|p|] == p;
    return Success(selection);
  }

  lemma {:induction false} WalkFailsEarly(p: Path, root: Json, k: nat)
    requires k <= |p| && Walk(p[..k], [root]).Failure?
    ensures Walk(p, [root]) == Walk(p[..k], [root])
  {
    if k == |p| {
      assert p[..k] == p;
    } else {
      assert p[..|p| - 1][..k] == p[..k];
      WalkFailsEarly(p[..|p| - 1], root, k);
    }
  }

  function Widened(e: PathElement): PathElement {
    if e.Index? then Wildcard else e
  }

  /** p with each index component a Wildcard. */
  function Widen(p: Path): Path {
    seq(|p|, i requires 0 <= i < |p| => Widened(p[i]))
  }

  method WithIndicesWidened(p: Path) returns (out: Path)
    ensures out == Widen(p)
    ensures |out| == |p| && forall i | 0 <= i < |p| :: out[i] == if p[i].Index? then Wildcard else p[i]
  {
    out := [];
    for i := 0 to |p|
      invariant out == Widen(p)[..i]
    {
      out := out + [if p[i].Index? then Wildcard else p[i]];
    }
  }

  // ---- Covers ----

  predicate ElementCovers(a: PathElement, b: PathElement) {
    || (a.Wildcard? && (b.Wildcard? || b.Index?))
    || (a.Key? && b.Key? && a.key == b.key)
    || (a.Index? && b.Index? && a.index == b.index)
  }

  predicate Covers(p: Path, q: Path) {
    && 0 < |p| <= |q|
    && forall i | 0 <= i < |p| :: ElementCovers(p[i], q[i])
  }

  /** Whether p selects at or a value around it. */
  ghost predicate Under(p: Path, root: Json, at: Location) {
    exists prefix :: IsPrefix(prefix, at) && Selects(p, root, prefix)
  }

  lemma PrefixHasValue(root: Json, at: Location, k: nat)
    requires ValueAt(root, at).Some? && k <= |at|
    ensures ValueAt(root, at[..k]).Some?
  {
    assert at == at[..k] + at[k..];
    ValueAtAppend(root, at[..k], at[k..]);
  }

  /** Where p covers q, every location q selects lies at or under one p selects, in every value. */
  lemma CoversSelects(p: Path, q: Path, root: Json, at: Location)
    requires Covers(p, q) && Selects(q, root, at)
    ensures Under(p, root, at)
  {
    PrefixHasValue(root, at, |p|);
    assert IsPrefix(at[..|p|], at) && Selects(p, root, at[..|p|]);
  }

  /**
   Where p covers q and q's evaluation succeeds, p's fails only for a value of the wrong kind beside
   those q crosses, never for selecting nothing.
   */
  lemma CoversSucceeds(p: Path, q: Path, root: Json)
    requires Covers(p, q) && Select(q, root).Success?
    ensures Select(p, root).Success? <==> WellShaped(p, root)
    ensures Select(p, root) != Failure(SelectionEmpty)
  {
    SelectMeaning(p, root);
    SelectMeaning(q, root);
    var at :| Selects(q, root, at);
    CoversSelects(p, q, root, at);
    if Walk(p, [root]).Failure? {
      WalkFails(p, root);
    }
  }

  /** No Wildcard of p stands where q has an index. */
  predicate WidensNoIndex(p: Path, q: Path)
    requires |p| <= |q|
  {
    forall i | 0 <= i < |p| :: !(p[i].Wildcard? && q[i].Index?)
  }

  /** Where no Wildcard of p widens an index of q, q's success is p's. */
  lemma CoversWithoutWidening(p: Path, q: Path, root: Json)
    requires Covers(p, q) && WidensNoIndex(p, q) && Select(q, root).Success?
    ensures Select(p, root).Success?
  {
    assert q[..|p|] == p;
    SelectMeaning(q, root);
    forall k | 0 <= k < |p| ensures ShapedAt(p, k, root) {
      assert p[..k] == q[..k];
      assert ShapedAt(q, k, root);
    }
    CoversSucceeds(p, q, root);
  }

  lemma SelectFromSingle(e: PathElement, v: Json)
    ensures SelectFrom(e, [v]) == SelectOne(e, v)
  {
    assert [v][..0] == [];
    if Fits(e, v) {
      assert [] + SelectOne(e, v).value == SelectOne(e, v).value;
    }
  }

  /** A path with one more component. */
  lemma WalkExtended(p: Path, e: PathElement, root: Json, selection: seq<Json>)
    requires Walk(p, [root]) == Success(selection)
    ensures var next := SelectFrom(e, selection);
            Select(p + [e], root) == if next == Success([]) then Failure(SelectionEmpty) else next
    ensures Select(p + [e], root) == Walk(p + [e], [root])
  {
    assert (p + [e])[..|p|] == p;
  }

  /** With a widened index it isn't: a sibling of the wrong kind fails p alone. */
  lemma CoversMayFailAlone()
    ensures var p, q := [Wildcard, Key("type")], [Index(1), Key("type")];
            var root := Array([Null, Object(map["type" := Null])]);
            Covers(p, q) && Select(q, root).Success? && Select(p, root) == Failure(NotAnObject)
  {
    var root := Array([Null, Object(map["type" := Null])]);
    SelectFromSingle(Index(1), root);
    WalkExtended([], Index(1), root, [root]);
    SelectFromSingle(Key("type"), root.items[1]);
    WalkExtended([Index(1)], Key("type"), root, [root.items[1]]);
    SelectFromSingle(Wildcard, root);
    WalkExtended([], Wildcard, root, [root]);
    assert root.items[..1] == [Null];
    SelectFromSingle(Key("type"), Null);
    WalkExtended([Wildcard], Key("type"), root, root.items);
    assert [] + [Wildcard] + [Key("type")] == [Wildcard, Key("type")];
    assert [] + [Index(1)] + [Key("type")] == [Index(1), Key("type")];
  }

  /** A value every path agreeing with q on kinds can walk: two equal elements for a Wildcard. */
  function Sample(q: Path): Json {
    if q == [] then Null
    else
      var below := Sample(q[1..]);
      match q[0]
      case Key(key) => Object(map[key := below])
      case Wildcard => Array([below, below])
      case Index(i) => Array(seq(i + 1, _ => below))
  }

  /** The location q selects in its sample, taking an element p's index doesn't for a Wildcard. */
  function SampleAt(p: Path, q: Path): Location {
    if q == [] then []
    else
      var step := match q[0]
                  case Key(key) => Member(key)
                  case Wildcard => Item(if p != [] && p[0] == Index(0) then 1 else 0)
                  case Index(i) => Item(i);
      [step] + SampleAt(if p == [] then [] else p[1..], q[1..])
  }

  lemma {:induction false} SampleSelected(p: Path, q: Path)
    ensures Selects(q, Sample(q), SampleAt(p, q))
  {
    if q != [] {
      var rest := if p == [] then [] else p[1..];
      SampleSelected(rest, q[1..]);
      var at := SampleAt(p, q);
      assert at[1..] == SampleAt(rest, q[1..]);
      assert Child(Sample(q), at[0]) == Some(Sample(q[1..]));
    }
  }

  lemma {:induction false} SampleWellShaped(q: Path, k: nat, at: Location)
    requires k < |q| && Selects(q[..k], Sample(q), at)
    ensures Fits(q[k], ValueAt(Sample(q), at).value)
  {
    if k > 0 {
      assert Child(Sample(q), at[0]) == Some(Sample(q[1..]));
      assert Matches(q[1..][..k - 1], at[1..]);
      SampleWellShaped(q[1..], k - 1, at[1..]);
    }
  }

  /** Where p doesn't cover q, no prefix of that location is one p means. */
  lemma {:induction false} NotCoveredOutside(p: Path, q: Path, prefix: Location)
    requires p != [] && q != [] && !Covers(p, q)
    requires IsPrefix(prefix, SampleAt(p, q)) && Matches(p, prefix)
    ensures false
  {
    var at := SampleAt(p, q);
    assert prefix[0] == at[0];
    if ElementCovers(p[0], q[0]) {
      assert |p| > 1;
      if |q| == 1 {
        SampleSelected(p, q);
      } else {
        assert at[1..] == SampleAt(p[1..], q[1..]);
        assert IsPrefix(prefix[1..], at[1..]);
        NotCoveredOutside(p[1..], q[1..], prefix[1..]);
      }
    }
  }

  /** Covers decides exactly what it says: p covers q when, in every value, what q selects lies under what p does. */
  lemma CoversIsInclusion(p: Path, q: Path)
    requires p != [] && q != []
    ensures Covers(p, q)
       <==> forall root, at | Select(q, root).Success? && Selects(q, root, at) :: Under(p, root, at)
  {
    forall root, at | Covers(p, q) && Selects(q, root, at) ensures Under(p, root, at) {
      CoversSelects(p, q, root, at);
    }
    if !Covers(p, q) {
      var root, at := Sample(q), SampleAt(p, q);
      SampleSelected(p, q);
      forall k | 0 <= k < |q| ensures ShapedAt(q, k, root) {
        forall loc | Selects(q[..k], root, loc) ensures Fits(q[k], ValueAt(root, loc).value) {
          SampleWellShaped(q, k, loc);
        }
      }
      SelectMeaning(q, root);
      forall prefix ensures !(IsPrefix(prefix, at) && Selects(p, root, prefix)) {
        if IsPrefix(prefix, at) && Selects(p, root, prefix) {
          NotCoveredOutside(p, q, prefix);
        }
      }
      assert !Under(p, root, at);
    }
  }
}
