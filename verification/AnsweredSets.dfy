/**
 Which Credential Queries a response may answer (dcql/answered.go, OpenID4VP 1.0 section 6.4.2).

 CheckAnswered looks for one option of each credential set, or none of an optional one, that together
 are exactly the answered ids. It does so by backtracking over counters it changes in place, under a
 budget on the combinations it tries. Permitted says what it looks for without any search, and Search
 is the same walk without counters or budget.
 */
module AnsweredSets {
  import opened Wrappers

  const MAX_OPTION_COMBINATIONS: nat := 10000

  /** A credential set: required unless it says otherwise (section 6.2). */
  datatype CredentialSet = CredentialSet(options: seq<seq<string>>, required: Option<bool>) {
    predicate IsRequired() {
      required.None? || required.value
    }
  }

  /** A DCQL query, of which only the ids of its Credential Queries matter here. */
  datatype Query = Query(credentials: seq<string>, credentialSets: seq<CredentialSet>)

  datatype Verdict =
    | Permissible
    | UnknownId(id: string)
    | Unanswered(id: string)
    | RequiredSetUnanswered(index: nat)
    | OutsideOptions(id: string)
    | MoreThanOneOption
    | TooManyCombinations

  // ---- What a response may answer ----

  function AnsweredIds(answered: map<string, bool>): set<string> {
    set id | id in answered && answered[id]
  }

  predicate Includes(selection: seq<seq<string>>, id: string) {
    exists i | 0 <= i < |selection| :: id in selection[i]
  }

  /** selection takes one of choices[i] for each i. */
  predicate OneOfEach(choices: seq<seq<seq<string>>>, selection: seq<seq<string>>) {
    |selection| == |choices| && forall i | 0 <= i < |choices| :: selection[i] in choices[i]
  }

  predicate IsChoice(cs: CredentialSet, option: seq<string>) {
    option in cs.options || (!cs.IsRequired() && option == [])
  }

  ghost predicate IsSelection(sets: seq<CredentialSet>, selection: seq<seq<string>>) {
    |selection| == |sets| && forall i | 0 <= i < |sets| :: IsChoice(sets[i], selection[i])
  }

  ghost predicate Permitted(q: Query, answered: set<string>) {
    && (forall id | id in answered :: id in q.credentials)
    && if q.credentialSets == [] then
         forall id | id in q.credentials :: id in answered
       else
         exists selection ::
           IsSelection(q.credentialSets, selection) && forall id :: Includes(selection, id) <==> id in answered
  }

  /** One option of each set, or nothing of one that says it is not required. */
  ghost predicate OneOf(sets: seq<CredentialSet>, selection: seq<seq<string>>) {
    && |selection| == |sets|
    && forall i | 0 <= i < |sets| ::
         selection[i] in sets[i].options || (selection[i] == [] && sets[i].required == Some(false))
  }

  /** answered says just the ids of some such selection. */
  ghost predicate JustOneOfEach(sets: seq<CredentialSet>, answered: map<string, bool>) {
    exists selection | OneOf(sets, selection) ::
      forall id :: (exists i | 0 <= i < |selection| :: id in selection[i]) <==> id in answered && answered[id]
  }

  lemma PermittedIff(q: Query, answered: map<string, bool>)
    ensures Permitted(q, AnsweredIds(answered)) <==>
              && (forall id | id in answered && answered[id] :: id in q.credentials)
              && if q.credentialSets == [] then forall id | id in q.credentials :: id in answered && answered[id]
                 else JustOneOfEach(q.credentialSets, answered)
  {
    forall selection ensures IsSelection(q.credentialSets, selection) <==> OneOf(q.credentialSets, selection) {
      assert forall i | 0 <= i < |q.credentialSets| ::
          q.credentialSets[i].IsRequired() <==> q.credentialSets[i].required != Some(false);
    }
    hide IsSelection, OneOf;
    if q.credentialSets != [] && Permitted(q, AnsweredIds(answered)) {
      var selection :| IsSelection(q.credentialSets, selection) && forall id :: Includes(selection, id) <==> id in AnsweredIds(answered);
      forall id ensures (exists i | 0 <= i < |selection| :: id in selection[i]) <==> id in answered && answered[id] {
        assert Includes(selection, id) <==> id in AnsweredIds(answered);
      }
    }
    if q.credentialSets != [] && JustOneOfEach(q.credentialSets, answered) {
      var selection :| OneOf(q.credentialSets, selection)
        && forall id :: (exists i | 0 <= i < |selection| :: id in selection[i]) <==> id in answered && answered[id];
      forall id ensures Includes(selection, id) <==> id in AnsweredIds(answered) {
      }
    }
  }

  // ---- The search, without counters or budget ----

  /** Whether some choice covers ids, given the ids already chosen, and how many options are tried to know. */
  function Search(ids: seq<string>, choices: seq<seq<seq<string>>>, chosen: multiset<string>): (bool, nat)
    decreases |choices|, 1, 0
  {
    if choices == [] then (forall id | id in ids :: chosen[id] > 0, 0)
    else SearchOptions(ids, choices[0], choices[1..], chosen)
  }

  function SearchOptions(
    ids: seq<string>, options: seq<seq<string>>, rest: seq<seq<seq<string>>>, chosen: multiset<string>
  ): (r: (bool, nat))
    ensures options != [] ==> r.1 > 0
    decreases |rest| + 1, 0, |options|
  {
    if options == [] then (false, 0)
    else
      var (found, below) := Search(ids, rest, chosen + multiset(options[0]));
      if found then (true, 1 + below)
      else
        var (later, after) := SearchOptions(ids, options[1..], rest, chosen);
        (later, 1 + below + after)
  }

  /** The options a whole search of choices tries. */
  function TreeSize(choices: seq<seq<seq<string>>>): nat {
    if choices == [] then 0 else |choices[0]| * (1 + TreeSize(choices[1..]))
  }

  function Product(choices: seq<seq<seq<string>>>): nat {
    if choices == [] then 1 else |choices[0]| * Product(choices[1..])
  }

  /** The sum, over the non-empty prefixes of choices, of the products of their sizes. */
  function SumOfPrefixProducts(choices: seq<seq<seq<string>>>, n: nat): nat
    requires n <= |choices|
  {
    if n == 0 then 0 else SumOfPrefixProducts(choices, n - 1) + Product(choices[..n])
  }

  lemma {:induction false} PrefixProductsShift(choices: seq<seq<seq<string>>>, n: nat)
    requires 0 < |choices| && n < |choices|
    ensures SumOfPrefixProducts(choices, n + 1)
         == |choices[0]| * (1 + SumOfPrefixProducts(choices[1..], n))
  {
    if n == 0 {
      assert choices[..1][1..] == [];
    } else {
      PrefixProductsShift(choices, n - 1);
      assert choices[..n + 1][1..] == choices[1..][..n];
      calc {
        SumOfPrefixProducts(choices, n + 1);
        |choices[0]| * (1 + SumOfPrefixProducts(choices[1..], n - 1)) + |choices[0]| * Product(choices[1..][..n]);
        |choices[0]| * (1 + SumOfPrefixProducts(choices[1..], n - 1) + Product(choices[1..][..n]));
      }
    }
  }

  /** The size of the search tree is the sum of the prefix products of the choice counts. */
  lemma {:induction false} TreeSizeIsPrefixProducts(choices: seq<seq<seq<string>>>)
    ensures TreeSize(choices) == SumOfPrefixProducts(choices, |choices|)
  {
    if choices != [] {
      TreeSizeIsPrefixProducts(choices[1..]);
      PrefixProductsShift(choices, |choices| - 1);
    }
  }

  /** The search tries at most the whole tree, and all of it exactly when it finds nothing. */
  lemma {:induction false} SearchCost(ids: seq<string>, choices: seq<seq<seq<string>>>, chosen: multiset<string>)
    ensures Search(ids, choices, chosen).1 <= TreeSize(choices)
    ensures !Search(ids, choices, chosen).0 ==> Search(ids, choices, chosen).1 == TreeSize(choices)
    decreases |choices|, 1, 0
  {
    if choices != [] {
      SearchOptionsCost(ids, choices[0], choices[1..], chosen);
    }
  }

  lemma {:induction false} SearchOptionsCost(
    ids: seq<string>, options: seq<seq<string>>, rest: seq<seq<seq<string>>>, chosen: multiset<string>
  )
    ensures var (found, cost) := SearchOptions(ids, options, rest, chosen);
            && cost <= |options| * (1 + TreeSize(rest))
            && (!found ==> cost == |options| * (1 + TreeSize(rest)))
    decreases |rest| + 1, 0, |options|
  {
    if options != [] {
      SearchCost(ids, rest, chosen + multiset(options[0]));
      SearchOptionsCost(ids, options[1..], rest, chosen);
      assert |options| * (1 + TreeSize(rest)) == (1 + TreeSize(rest)) + |options[1..]| * (1 + TreeSize(rest));
    }
  }

  ghost predicate Covers(ids: seq<string>, chosen: multiset<string>, selection: seq<seq<string>>) {
    forall id | id in ids :: chosen[id] > 0 || Includes(selection, id)
  }

  lemma IncludesCons(option: seq<string>, selection: seq<seq<string>>, id: string)
    ensures Includes([option] + selection, id) <==> id in option || Includes(selection, id)
  {
    var both := [option] + selection;
    if id in option {
      assert id in both[0];
    } else if Includes(selection, id) {
      var i :| 0 <= i < |selection| && id in selection[i];
      assert id in both[i + 1];
    }
  }

  /** A successful search names a covering selection. */
  lemma {:induction false} SearchSound(ids: seq<string>, choices: seq<seq<seq<string>>>, chosen: multiset<string>)
    returns (selection: seq<seq<string>>)
    requires Search(ids, choices, chosen).0
    ensures OneOfEach(choices, selection) && Covers(ids, chosen, selection)
    decreases |choices|, 1, 0
  {
    if choices == [] {
      selection := [];
    } else {
      var option, below := SearchOptionsSound(ids, choices[0], choices[1..], chosen);
      selection := [option] + below;
    }
  }

  lemma {:induction false} SearchOptionsSound(
    ids: seq<string>, options: seq<seq<string>>, rest: seq<seq<seq<string>>>, chosen: multiset<string>
  ) returns (option: seq<string>, below: seq<seq<string>>)
    requires SearchOptions(ids, options, rest, chosen).0
    ensures option in options && OneOfEach(rest, below) && Covers(ids, chosen, [option] + below)
    decreases |rest| + 1, 0, |options|
  {
    if Search(ids, rest, chosen + multiset(options[0])).0 {
      option := options[0];
      below := SearchSound(ids, rest, chosen + multiset(option));
      forall id | id in ids ensures chosen[id] > 0 || Includes([option] + below, id) {
        IncludesCons(option, below, id);
      }
    } else {
      option, below := SearchOptionsSound(ids, options[1..], rest, chosen);
    }
  }

  /** No covering selection escapes the search. */
  lemma {:induction false} SearchComplete(
    ids: seq<string>, choices: seq<seq<seq<string>>>, chosen: multiset<string>, selection: seq<seq<string>>
  )
    requires OneOfEach(choices, selection) && Covers(ids, chosen, selection)
    ensures Search(ids, choices, chosen).0
    decreases |choices|, 1, 0
  {
    if choices != [] {
      assert selection == [selection[0]] + selection[1..];
      SearchOptionsComplete(ids, choices[0], choices[1..], chosen, selection[0], selection[1..]);
    }
  }

  lemma {:induction false} SearchOptionsComplete(
    ids: seq<string>, options: seq<seq<string>>, rest: seq<seq<seq<string>>>, chosen: multiset<string>,
    option: seq<string>, below: seq<seq<string>>
  )
    requires option in options && OneOfEach(rest, below) && Covers(ids, chosen, [option] + below)
    ensures SearchOptions(ids, options, rest, chosen).0
    decreases |rest| + 1, 0, |options|
  {
    if option == options[0] {
      forall id | id in ids ensures (chosen + multiset(option))[id] > 0 || Includes(below, id) {
        IncludesCons(option, below, id);
      }
      SearchComplete(ids, rest, chosen + multiset(option), below);
    } else {
      SearchOptionsComplete(ids, options[1..], rest, chosen, option, below);
    }
  }

  // ---- The options an answer includes whole ----

  predicate Whole(option: seq<string>, answered: set<string>) {
    forall id | id in option :: id in answered
  }

  function WholeOptions(options: seq<seq<string>>, answered: set<string>): (whole: seq<seq<string>>)
    ensures forall o :: o in whole <==> o in options && Whole(o, answered)
  {
    if options == [] then []
    else
      var init := WholeOptions(options[..|options| - 1], answered);
      var last := options[|options| - 1];
      assert options == options[..|options| - 1] + [last];
      if Whole(last, answered) then init + [last] else init
  }

  /** The choices the search has for one set, the empty option leaving an optional set out. */
  function SetChoices(cs: CredentialSet, answered: set<string>): seq<seq<string>> {
    WholeOptions(cs.options, answered) + if cs.IsRequired() then [] else [[]]
  }

  function Choices(sets: seq<CredentialSet>, answered: set<string>): seq<seq<seq<string>>> {
    seq(|sets|, i requires 0 <= i < |sets| => SetChoices(sets[i], answered))
  }

  lemma SelectionWithin(sets: seq<CredentialSet>, answered: set<string>, selection: seq<seq<string>>)
    ensures OneOfEach(Choices(sets, answered), selection)
       <==> IsSelection(sets, selection) && forall id | Includes(selection, id) :: id in answered
  {
    if IsSelection(sets, selection) && forall id | Includes(selection, id) :: id in answered {
      forall i | 0 <= i < |sets| ensures selection[i] in SetChoices(sets[i], answered) {
        forall id | id in selection[i] ensures id in answered {
          assert Includes(selection, id);
        }
        if selection[i] !in sets[i].options {
          assert selection[i] in [[]];
        }
      }
    }
  }

  /** With credential sets, an answer within the query is permitted exactly when the search finds a cover. */
  lemma PermittedIffFound(q: Query, ids: seq<string>, answered: set<string>)
    requires q.credentialSets != []
    requires forall id :: id in ids <==> id in answered
    requires forall id | id in ids :: id in q.credentials
    ensures Permitted(q, answered) <==> Search(ids, Choices(q.credentialSets, answered), multiset{}).0
  {
    var choices := Choices(q.credentialSets, answered);
    if Search(ids, choices, multiset{}).0 {
      var selection := SearchSound(ids, choices, multiset{});
      SelectionWithin(q.credentialSets, answered, selection);
    }
    if Permitted(q, answered) {
      var selection :| IsSelection(q.credentialSets, selection)
                    && forall id :: Includes(selection, id) <==> id in answered;
      SelectionWithin(q.credentialSets, answered, selection);
      SearchComplete(ids, choices, multiset{}, selection);
    }
  }

  /** A required set none of whose options is answered whole permits nothing. */
  lemma NoChoiceForbids(q: Query, answered: set<string>, i: nat)
    requires i < |q.credentialSets| && SetChoices(q.credentialSets[i], answered) == []
    ensures !Permitted(q, answered)
  {
  }

  // ---- The code ----

  function Count(counts: map<string, int>, id: string): int {
    if id in counts then counts[id] else 0
  }

  function Signed(sign: int, n: nat): int {
    if sign == 1 then n else 0 - n
  }

  /** coverExactly's search: covered counts the chosen options including each id. */
  class Cover {
    const ids: seq<string>
    const choices: seq<seq<seq<string>>>
    var covered: map<string, int>
    var tried: nat

    constructor (ids: seq<string>, choices: seq<seq<seq<string>>>)
      ensures this.ids == ids && this.choices == choices && tried == 0 && Counts(multiset{})
    {
      this.ids, this.choices, covered, tried := ids, choices, map[], 0;
    }

    ghost predicate Counts(chosen: multiset<string>)
      reads `covered
    {
      forall id :: Count(covered, id) == chosen[id]
    }

    method Add(option: seq<string>, n: int)
      requires n == 1 || n == -1
      modifies `covered
      ensures forall id :: Count(covered, id) == old(Count(covered, id)) + Signed(n, multiset(option)[id])
    {
      for k := 0 to |option|
        invariant forall id :: Count(covered, id) == old(Count(covered, id)) + Signed(n, multiset(option[..k])[id])
      {
        assert option[..k + 1] == option[..k] + [option[k]];
        covered := covered[option[k] := Count(covered, option[k]) + n];
      }
      assert option[..|option|] == option;
    }

    /** Chooses an option for each set from i on. A failed pick leaves every count as it was. */
    method Pick(i: nat, ghost chosen: multiset<string>) returns (r: Result<bool, Verdict>)
      requires i <= |choices| && Counts(chosen) && tried <= MAX_OPTION_COMBINATIONS
      modifies `covered, `tried
      ensures var (found, cost) := Search(ids, choices[i..], chosen);
              if old(tried) + cost <= MAX_OPTION_COMBINATIONS then
                r == Success(found) && tried == old(tried) + cost
              else
                r == Failure(TooManyCombinations) && tried == MAX_OPTION_COMBINATIONS + 1
      ensures r == Success(false) ==> Counts(chosen)
      decreases |choices| - i
    {
      if i == |choices| {
        return Success(forall id | id in ids :: Count(covered, id) != 0);
      }
      ghost var rest := choices[i + 1..];
      assert choices[i..][0] == choices[i] && choices[i..][1..] == rest;
      ghost var goal := Search(ids, choices[i..], chosen);
      for j := 0 to |choices[i]|
        invariant Counts(chosen) && tried <= MAX_OPTION_COMBINATIONS
        invariant var (found, cost) := SearchOptions(ids, choices[i][j..], rest, chosen);
                  goal.0 == found && old(tried) + goal.1 == tried + cost
      {
        var option := choices[i][j];
        assert choices[i][j..][0] == option && choices[i][j..][1..] == choices[i][j + 1..];
        assert choices[i][j..] != [];
        tried := tried + 1;
        if tried > MAX_OPTION_COMBINATIONS {
          return Failure(TooManyCombinations);
        }
        Add(option, 1);
        r := Pick(i + 1, chosen + multiset(option));
        if r.Failure? || r.value {
          return;
        }
        Add(option, -1);
      }
      return Success(false);
    }
  }

  method CoverExactly(ids: seq<string>, choices: seq<seq<seq<string>>>) returns (r: Result<bool, Verdict>)
    ensures var (found, cost) := Search(ids, choices, multiset{});
            r == if cost <= MAX_OPTION_COMBINATIONS then Success(found) else Failure(TooManyCombinations)
  {
    var c := new Cover(ids, choices);
    assert choices[0..] == choices;
    r := c.Pick(0, multiset{});
  }

  method SortedIds(answered: map<string, bool>) returns (ids: seq<string>)
    ensures forall id :: id in ids <==> id in AnsweredIds(answered)
    ensures forall i, j | 0 <= i < j < |ids| :: ids[i] != ids[j]
  {
    ids := [];
    var keys := answered.Keys;
    while keys != {}
      invariant keys <= answered.Keys
      invariant forall id :: id in ids <==> id in AnsweredIds(answered) && id !in keys
      invariant forall i, j | 0 <= i < j < |ids| :: ids[i] != ids[j]
      decreases |keys|
    {
      var id :| id in keys;
      keys := keys - {id};
      if answered[id] {
        ids := ids + [id];
      }
    }
  }

  method CheckKnown(q: Query, ids: seq<string>) returns (verdict: Verdict)
    ensures verdict == Permissible <==> forall id | id in ids :: id in q.credentials
    ensures verdict == Permissible || (verdict.UnknownId? && verdict.id in ids && verdict.id !in q.credentials)
  {
    for k := 0 to |ids|
      invariant forall id | id in ids[..k] :: id in q.credentials
    {
      if ids[k] !in q.credentials {
        return UnknownId(ids[k]);
      }
    }
    return Permissible;
  }

  method CheckAllAnswered(q: Query, answered: map<string, bool>) returns (verdict: Verdict)
    ensures verdict == Permissible <==> forall id | id in q.credentials :: id in AnsweredIds(answered)
    ensures verdict == Permissible
         || (verdict.Unanswered? && verdict.id in q.credentials && verdict.id !in AnsweredIds(answered))
  {
    for k := 0 to |q.credentials|
      invariant forall id | id in q.credentials[..k] :: id in AnsweredIds(answered)
    {
      var id := q.credentials[k];
      if id !in answered || !answered[id] {
        assert id in q.credentials && id !in AnsweredIds(answered);
        return Unanswered(id);
      }
    }
    return Permissible;
  }

  function IdsIn(options: seq<seq<string>>): set<string> {
    set option, id | option in options && id in option :: id
  }

  function Reachable(choices: seq<seq<seq<string>>>): set<string> {
    if choices == [] then {} else Reachable(choices[..|choices| - 1]) + IdsIn(choices[|choices| - 1])
  }

  lemma {:induction false} InReachable(choices: seq<seq<seq<string>>>, id: string)
    ensures id in Reachable(choices) <==> exists i | 0 <= i < |choices| :: id in IdsIn(choices[i])
  {
    if choices != [] {
      var init := choices[..|choices| - 1];
      InReachable(init, id);
      if i :| 0 <= i < |init| && id in IdsIn(init[i]) {
        assert id in IdsIn(choices[i]);
      }
    }
  }

  /** The options of one set an answer includes whole, and the ids in them. */
  method AnsweredOptionsOf(cs: CredentialSet, answered: set<string>)
    returns (options: seq<seq<string>>, reachable: set<string>)
    ensures options == WholeOptions(cs.options, answered) && reachable == IdsIn(options)
  {
    options, reachable := [], {};
    for j := 0 to |cs.options|
      invariant options == WholeOptions(cs.options[..j], answered) && reachable == IdsIn(options)
    {
      assert cs.options[..j + 1][..j] == cs.options[..j];
      if forall id | id in cs.options[j] :: id in answered {
        options := options + [cs.options[j]];
        reachable := reachable + set id | id in cs.options[j];
      }
    }
    assert cs.options[..|cs.options|] == cs.options;
  }

  /** Each set's choices and the ids some choice includes, or the first required set with no choice. */
  method AnsweredOptions(q: Query, answered: set<string>)
    returns (r: Result<(seq<seq<seq<string>>>, set<string>), Verdict>)
    ensures r.Success? ==>
              && r.value.0 == Choices(q.credentialSets, answered) && r.value.1 == Reachable(r.value.0)
              && [] !in r.value.0
    ensures r.Failure? ==>
              && r.error.RequiredSetUnanswered? && r.error.index < |q.credentialSets|
              && SetChoices(q.credentialSets[r.error.index], answered) == []
              && forall i | 0 <= i < r.error.index :: SetChoices(q.credentialSets[i], answered) != []
  {
    hide WholeOptions, Whole;
    var choices: seq<seq<seq<string>>> := [];
    var reachable: set<string> := {};
    for i := 0 to |q.credentialSets|
      invariant choices == Choices(q.credentialSets, answered)[..i] && [] !in choices
      invariant reachable == Reachable(choices)
    {
      var cs := q.credentialSets[i];
      var mine, ids := AnsweredOptionsOf(cs, answered);
      if !cs.IsRequired() {
        assert IdsIn(mine + [[]]) == ids;
        mine := mine + [[]];
      } else if mine == [] {
        assert forall k | 0 <= k < i :: choices[k] == SetChoices(q.credentialSets[k], answered) && choices[k] in choices;
        return Failure(RequiredSetUnanswered(i));
      }
      assert mine == SetChoices(cs, answered);
      assert (choices + [mine])[..|choices|] == choices;
      choices := choices + [mine];
      reachable := reachable + ids;
    }
    return Success((choices, reachable));
  }

  /**
   The answered ids are accepted exactly when they are permitted, except that the search may give up:
   then it has more combinations before the first cover, or in all when there is none, than the budget.
   */
  method CheckAnswered(q: Query, answered: map<string, bool>) returns (verdict: Verdict)
    ensures verdict != TooManyCombinations ==> (verdict == Permissible <==> Permitted(q, AnsweredIds(answered)))
    ensures verdict == TooManyCombinations ==>
              var choices := Choices(q.credentialSets, AnsweredIds(answered));
              SumOfPrefixProducts(choices, |choices|) > 10000
    ensures verdict == MoreThanOneOption ==>
              var choices := Choices(q.credentialSets, AnsweredIds(answered));
              SumOfPrefixProducts(choices, |choices|) <= 10000
    ensures verdict != TooManyCombinations ==>
              (verdict == Permissible <==>
                && (forall id | id in answered && answered[id] :: id in q.credentials)
                && if q.credentialSets == [] then forall id | id in q.credentials :: id in answered && answered[id]
                   else JustOneOfEach(q.credentialSets, answered))
    ensures
      match verdict
      case UnknownId(id) => id in answered && answered[id] && id !in q.credentials
      case Unanswered(id) => q.credentialSets == [] && id in q.credentials && !(id in answered && answered[id])
      case RequiredSetUnanswered(i) =>
        && i < |q.credentialSets| && q.credentialSets[i].required != Some(false)
        && forall option | option in q.credentialSets[i].options ::
             exists id | id in option :: !(id in answered && answered[id])
      case OutsideOptions(id) =>
        && id in answered && answered[id]
        && forall cs, option | cs in q.credentialSets && option in cs.options && id in option ::
             exists other | other in option :: !(other in answered && answered[other])
      case _ => true
  {
    PermittedIff(q, answered);
    ghost var wanted := AnsweredIds(answered);
    var ids := SortedIds(answered);
    verdict := CheckKnown(q, ids);
    if verdict != Permissible {
      return;
    }
    if |q.credentialSets| == 0 {
      verdict := CheckAllAnswered(q, answered);
      return;
    }
    var options := AnsweredOptions(q, AnsweredIds(answered));
    if options.Failure? {
      NoChoiceForbids(q, wanted, options.error.index);
      NoneWhole(q.credentialSets[options.error.index], wanted);
      return options.error;
    }
    var (choices, reachable) := options.value;
    PermittedIffFound(q, ids, wanted);
    for k := 0 to |ids|
      invariant forall id | id in ids[..k] :: id in reachable
    {
      if ids[k] !in reachable {
        UnreachableForbids(ids, choices, ids[k]);
        OutsideWhole(q.credentialSets, wanted, ids[k]);
        return OutsideOptions(ids[k]);
      }
    }
    SearchCost(ids, choices, multiset{});
    TreeSizeIsPrefixProducts(choices);
    var found := CoverExactly(ids, choices);
    match found {
      case Failure(error) => return error;
      case Success(covered) => return if covered then Permissible else MoreThanOneOption;
    }
  }

  lemma NoneWhole(cs: CredentialSet, answered: set<string>)
    requires SetChoices(cs, answered) == []
    ensures cs.required != Some(false)
    ensures forall option | option in cs.options :: exists id | id in option :: id !in answered
  {
    assert cs.IsRequired();
    forall option | option in cs.options ensures exists id | id in option :: id !in answered {
      assert option !in WholeOptions(cs.options, answered);
    }
  }

  lemma OutsideWhole(sets: seq<CredentialSet>, answered: set<string>, id: string)
    requires id !in Reachable(Choices(sets, answered))
    ensures forall cs, option | cs in sets && option in cs.options && id in option :: exists other | other in option :: other !in answered
  {
    InReachable(Choices(sets, answered), id);
    forall cs, option | cs in sets && option in cs.options && id in option
      ensures exists other | other in option :: other !in answered
    {
      var i :| 0 <= i < |sets| && sets[i] == cs;
      assert id !in IdsIn(Choices(sets, answered)[i]);
      assert option !in WholeOptions(cs.options, answered);
    }
  }

  /** An id in none of the choices is never covered. */
  lemma UnreachableForbids(ids: seq<string>, choices: seq<seq<seq<string>>>, id: string)
    requires id in ids && id !in Reachable(choices)
    ensures !Search(ids, choices, multiset{}).0
  {
    InReachable(choices, id);
    if Search(ids, choices, multiset{}).0 {
      var selection := SearchSound(ids, choices, multiset{});
    }
  }
}
