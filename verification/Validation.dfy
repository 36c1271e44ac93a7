/**
 The validation engine of backend/src/helpers/specification-validation.ts and the middleware that runs it.

 A failing run writes into the trace objects of the specification. The pure function `Judge` says which
 rule fails first; the method `ValidateSpecification`, which runs on the heap, is proved against it.
 */
module Validation {
  import opened Common

  class ValidationError {
    var value: string

    constructor (message: string)
      ensures value == message
    {
      value := message;
    }

    /** Puts the message of `right` behind this one; an empty message is replaced. */
    method Join(right: ValidationError) returns (joined: ValidationError)
      modifies this
      ensures joined == this && value == Joined(old(value), old(right.value))
    {
      if |value| > 0 {
        value := value + " " + right.value;
      } else {
        value := right.value;
      }
      joined := this;
    }
  }

  function Joined(left: string, right: string): string {
    if |left| > 0 then left + " " + right else right
  }

  // ----- specifications and targets

  /**
   How a target is read. `property` gives None where JavaScript throws (a property of undefined or null);
   `items` lists what the loop of an array rule visits, and is empty for a falsy value.
   */
  datatype Reader<!T> = Reader(property: (T, string) -> Option<T>, items: T -> seq<T>)

  datatype RuleOutcome = Holds | Violated(message: string) | Raised

  /**
   One entry of a specification: a rule, a rule made by `createArrayRule`, or a sub-specification for a
   property. `L` is the kind of trace: an error object at run time, its text in a factory.
   */
  datatype Check<!T, L> =
    | Rule(test: T -> RuleOutcome)
    | ArrayRule(each: seq<Check<T, L>>)
    | Sub(spec: seq<Check<T, L>>, name: string, trace: L)

  datatype Either<+T> = Pass(pass: T) | Fail(fail: ValidationError) | Rejected

  // ----- what a specification means

  /** The verdict on a target. A failure carries the traces from the root to the rule and the rule's message. */
  datatype Verdict<+L> = Passes | Fails(path: seq<L>, message: string) | Throws

  /** The failure of a sub-specification, one trace further up. */
  function Below<L>(trace: L, v: Verdict<L>): Verdict<L> {
    match v case Fails(path, m) => Fails([trace] + path, m) case other => other
  }

  function Judge<T, L>(rd: Reader<T>, target: T, spec: seq<Check<T, L>>): Verdict<L>
    decreases spec, 0
  {
    if spec == [] then Passes
    else
      match JudgeOne(rd, target, spec[0])
      case Passes => Judge(rd, target, spec[1..])
      case bad => bad
  }

  function JudgeOne<T, L>(rd: Reader<T>, target: T, check: Check<T, L>): Verdict<L>
    decreases check, 0
  {
    match check
    case Rule(test) =>
      (match test(target) case Holds => Passes case Violated(m) => Fails([], m) case Raised => Throws)
    case ArrayRule(each) => JudgeItems(rd, rd.items(target), each)
    case Sub(spec, name, trace) =>
      match rd.property(target, name)
      case None => Throws
      case Some(v) => Below(trace, Judge(rd, v, spec))
  }

  function JudgeItems<T, L>(rd: Reader<T>, items: seq<T>, each: seq<Check<T, L>>): Verdict<L>
    decreases each, |items| + 1
  {
    if items == [] then Passes
    else
      match Judge(rd, items[0], each)
      case Passes => JudgeItems(rd, items[1..], each)
      case bad => bad
  }

  // ----- the same, as a list of leaf tests in depth-first order

  /** A rule applied to the value it is meant for; `path` holds the traces above it. */
  datatype Site<+L> = Site(path: seq<L>, outcome: RuleOutcome)

  function Under<L>(trace: L, sites: seq<Site<L>>): seq<Site<L>> {
    seq(|sites|, i requires 0 <= i < |sites| => sites[i].(path := [trace] + sites[i].path))
  }

  function Sites<T, L>(rd: Reader<T>, target: T, spec: seq<Check<T, L>>): seq<Site<L>>
    decreases spec, 0
  {
    if spec == [] then [] else SitesOfOne(rd, target, spec[0]) + Sites(rd, target, spec[1..])
  }

  function SitesOfOne<T, L>(rd: Reader<T>, target: T, check: Check<T, L>): seq<Site<L>>
    decreases check, 0
  {
    match check
    case Rule(test) => [Site([], test(target))]
    case ArrayRule(each) => SitesOfItems(rd, rd.items(target), each)
    case Sub(spec, name, trace) =>
      match rd.property(target, name)
      case None => [Site([trace], Raised)]
      case Some(v) => Under(trace, Sites(rd, v, spec))
  }

  function SitesOfItems<T, L>(rd: Reader<T>, items: seq<T>, each: seq<Check<T, L>>): seq<Site<L>>
    decreases each, |items| + 1
  {
    if items == [] then [] else Sites(rd, items[0], each) + SitesOfItems(rd, items[1..], each)
  }

  /** The verdict is fixed by the first site whose rule does not hold. */
  ghost predicate DecidedBy<L>(v: Verdict<L>, sites: seq<Site<L>>) {
    if AllHold(sites) then v == Passes
    else exists k :: FirstBad(sites, k) && v == Consequence(sites[k])
  }

  function Consequence<L>(site: Site<L>): Verdict<L> {
    match site.outcome
    case Holds => Passes
    case Violated(m) => Fails(site.path, m)
    case Raised => Throws
  }

  ghost predicate FirstBad<L>(sites: seq<Site<L>>, k: int) {
    0 <= k < |sites| && sites[k].outcome != Holds && forall i :: 0 <= i < k ==> sites[i].outcome == Holds
  }

  function FirstConsequence<L>(sites: seq<Site<L>>): Verdict<L> {
    if sites == [] then Passes
    else if sites[0].outcome == Holds then FirstConsequence(sites[1..])
    else Consequence(sites[0])
  }

  lemma {:induction false} FirstConsequenceDecides<L>(sites: seq<Site<L>>, n: nat)
    requires n <= |sites| && forall i :: 0 <= i < n ==> sites[i].outcome == Holds
    ensures DecidedBy(FirstConsequence(sites[n..]), sites)
    decreases |sites| - n
  {
    if n < |sites| {
      assert sites[n..][1..] == sites[n + 1..];
      if sites[n].outcome == Holds { FirstConsequenceDecides(sites, n + 1); } else { assert FirstBad(sites, n); }
    }
  }

  lemma {:induction false} FirstConsequenceConcat<L>(a: seq<Site<L>>, b: seq<Site<L>>)
    ensures FirstConsequence(a + b)
      == if FirstConsequence(a) == Passes then FirstConsequence(b) else FirstConsequence(a)
  {
    if a == [] {
      assert a + b == b;
    } else {
      FirstConsequenceConcat(a[1..], b);
      assert (a + b)[1..] == a[1..] + b;
    }
  }

  lemma {:induction false} FirstConsequenceUnder<L>(trace: L, sites: seq<Site<L>>)
    ensures FirstConsequence(Under(trace, sites)) == Below(trace, FirstConsequence(sites))
  {
    if sites != [] {
      FirstConsequenceUnder(trace, sites[1..]);
      assert Under(trace, sites)[1..] == Under(trace, sites[1..]);
    }
  }

  /** A specification passes exactly when every rule holds at its place; otherwise the first bad rule decides. */
  lemma JudgeIsFirstBadSite<T, L>(rd: Reader<T>, target: T, spec: seq<Check<T, L>>)
    ensures DecidedBy(Judge(rd, target, spec), Sites(rd, target, spec))
    ensures var v, sites := Judge(rd, target, spec), Sites(rd, target, spec);
            && (v.Passes? <==> AllHold(sites))
            && forall k :: FirstBad(sites, k) ==>
                 match sites[k].outcome
                 case Violated(m) => v == Fails(sites[k].path, m)
                 case _ => v == Throws
  {
    var sites := Sites(rd, target, spec);
    JudgeFollowsSites(rd, target, spec);
    FirstConsequenceDecides(sites, 0);
    assert sites[0..] == sites;
    if !AllHold(sites) {
      var k :| FirstBad(sites, k) && Judge(rd, target, spec) == Consequence(sites[k]);
      forall j | FirstBad(sites, j) ensures j == k { OneFirstBad(sites, j, k); }
    }
  }

  lemma OneFirstBad<L>(sites: seq<Site<L>>, j: int, k: int)
    requires FirstBad(sites, j) && FirstBad(sites, k)
    ensures j == k
  {
  }

  ghost predicate AllHold<L>(sites: seq<Site<L>>) {
    forall i :: 0 <= i < |sites| ==> sites[i].outcome == Holds
  }

  lemma {:induction false} JudgeFollowsSites<T, L>(rd: Reader<T>, target: T, spec: seq<Check<T, L>>)
    ensures Judge(rd, target, spec) == FirstConsequence(Sites(rd, target, spec))
    decreases spec, 0
  {
    if spec != [] {
      JudgeOneFollowsSites(rd, target, spec[0]);
      JudgeFollowsSites(rd, target, spec[1..]);
      FirstConsequenceConcat(SitesOfOne(rd, target, spec[0]), Sites(rd, target, spec[1..]));
    }
  }

  lemma {:induction false} JudgeOneFollowsSites<T, L>(rd: Reader<T>, target: T, check: Check<T, L>)
    ensures JudgeOne(rd, target, check) == FirstConsequence(SitesOfOne(rd, target, check))
    decreases check, 0
  {
    match check
    case Rule(test) =>
    case ArrayRule(each) => JudgeItemsFollowSites(rd, rd.items(target), each);
    case Sub(spec, name, trace) =>
      var v := rd.property(target, name);
      if v.Some? {
        JudgeFollowsSites(rd, v.value, spec);
        FirstConsequenceUnder(trace, Sites(rd, v.value, spec));
      }
  }

  lemma {:induction false} JudgeItemsFollowSites<T, L>(rd: Reader<T>, items: seq<T>, each: seq<Check<T, L>>)
    ensures JudgeItems(rd, items, each) == FirstConsequence(SitesOfItems(rd, items, each))
    decreases each, |items| + 1
  {
    if items != [] {
      JudgeFollowsSites(rd, items[0], each);
      JudgeItemsFollowSites(rd, items[1..], each);
      FirstConsequenceConcat(Sites(rd, items[0], each), SitesOfItems(rd, items[1..], each));
    }
  }

  /** An array rule gives the verdict that the first failing element gives on its own. */
  lemma {:induction false} ArrayRuleIsFirstBadElement<T, L>(rd: Reader<T>, items: seq<T>, each: seq<Check<T, L>>)
    ensures JudgeItems(rd, items, each) == Passes <==>
      forall j :: 0 <= j < |items| ==> Judge(rd, items[j], each) == Passes
    ensures forall j | 0 <= j < |items| && Judge(rd, items[j], each) != Passes ::
              (forall i :: 0 <= i < j ==> Judge(rd, items[i], each) == Passes)
              ==> JudgeItems(rd, items, each) == Judge(rd, items[j], each)
  {
    if items != [] {
      ArrayRuleIsFirstBadElement(rd, items[1..], each);
      assert items == [items[0]] + items[1..];
    }
  }

  /** Level by level: the rules hold, every element passes, and every property is there and passes. */
  lemma {:induction false} PassesExactly<T, L>(rd: Reader<T>, target: T, spec: seq<Check<T, L>>)
    ensures Judge(rd, target, spec) == Passes <==>
      forall i :: 0 <= i < |spec| ==>
        match spec[i]
        case Rule(test) => test(target) == Holds
        case ArrayRule(each) =>
          var items := rd.items(target);
          forall j :: 0 <= j < |items| ==> Judge(rd, items[j], each) == Passes
        case Sub(sub, name, _) =>
          var v := rd.property(target, name);
          v.Some? && Judge(rd, v.value, sub) == Passes
    decreases |spec|
  {
    if spec != [] {
      PassesExactly(rd, target, spec[1..]);
      assert spec == [spec[0]] + spec[1..];
      if spec[0].ArrayRule? { ArrayRuleIsFirstBadElement(rd, rd.items(target), spec[0].each); }
    }
  }

  /** A failure below a property gets the trace of that property in front; a missing property raises. */
  lemma SubAddsTrace<T, L>(rd: Reader<T>, target: T, sub: seq<Check<T, L>>, name: string, trace: L)
    ensures var v, verdict := rd.property(target, name), Judge(rd, target, [Sub(sub, name, trace)]);
            && (v.None? ==> verdict == Throws)
            && (v.Some? ==>
                 match Judge(rd, v.value, sub)
                 case Passes => verdict == Passes
                 case Fails(path, m) => verdict == Fails([trace] + path, m)
                 case Throws => verdict == Throws)
  {
    var spec := [Sub(sub, name, trace)];
    assert spec[1..] == [];
    assert Judge(rd, target, spec[1..]) == Passes;
  }

  // ----- the effect of a failure on the trace objects

  ghost function Traces<T>(spec: seq<Check<T, ValidationError>>): set<ValidationError> {
    if spec == [] then {} else TracesOfOne(spec[0]) + Traces(spec[1..])
  }

  ghost function TracesOfOne<T>(check: Check<T, ValidationError>): set<ValidationError> {
    match check
    case Rule(_) => {}
    case ArrayRule(each) => Traces(each)
    case Sub(spec, _, trace) => {trace} + Traces(spec)
  }

  ghost function Snapshot(scope: set<ValidationError>): map<ValidationError, string>
    reads scope
  {
    map e | e in scope :: e.value
  }

  /** Joining up the path: the innermost trace takes the rule's message, each outer one takes the inner text. */
  ghost function Unwind<L>(store: map<L, string>, path: seq<L>, message: string): (r: (map<L, string>, string))
    requires forall t :: t in path ==> t in store
    ensures r.0.Keys == store.Keys
    ensures forall t :: t in store && t !in path ==> r.0[t] == store[t]
    ensures path != [] ==> r.0[path[0]] == r.1
  {
    if path == [] then (store, message)
    else
      var (inner, text) := Unwind(store, path[1..], message);
      var joined := Joined(inner[path[0]], text);
      (inner[path[0] := joined], joined)
  }

  lemma UnwindCons<L>(store: map<L, string>, trace: L, path: seq<L>, message: string,
                      inner: map<L, string>, text: string)
    requires trace in store && forall t :: t in path ==> t in store
    requires Unwind(store, path, message) == (inner, text)
    ensures forall t :: t in [trace] + path ==> t in store
    ensures Unwind(store, [trace] + path, message)
      == (inner[trace := Joined(inner[trace], text)], Joined(inner[trace], text))
  {
    assert ([trace] + path)[1..] == path;
  }

  lemma {:induction false} TracesContain<T>(spec: seq<Check<T, ValidationError>>, i: nat)
    requires i < |spec|
    ensures TracesOfOne(spec[i]) <= Traces(spec)
  {
    if i > 0 { TracesContain(spec[1..], i - 1); }
  }

  lemma {:induction false} PathInTraces<T>(rd: Reader<T>, target: T, spec: seq<Check<T, ValidationError>>)
    ensures Judge(rd, target, spec).Fails? ==> forall t :: t in Judge(rd, target, spec).path ==> t in Traces(spec)
    decreases spec, 0
  {
    if spec != [] {
      PathInTracesOfOne(rd, target, spec[0]);
      PathInTraces(rd, target, spec[1..]);
    }
  }

  lemma {:induction false} PathInTracesOfOne<T>(rd: Reader<T>, target: T, check: Check<T, ValidationError>)
    ensures JudgeOne(rd, target, check).Fails? ==>
      forall t :: t in JudgeOne(rd, target, check).path ==> t in TracesOfOne(check)
    decreases check, 0
  {
    match check
    case Rule(_) =>
    case ArrayRule(each) => PathInTracesOfItems(rd, rd.items(target), each);
    case Sub(spec, name, _) =>
      var v := rd.property(target, name);
      if v.Some? { PathInTraces(rd, v.value, spec); }
  }

  lemma {:induction false} PathInTracesOfItems<T>(rd: Reader<T>, items: seq<T>, each: seq<Check<T, ValidationError>>)
    ensures JudgeItems(rd, items, each).Fails? ==>
      forall t :: t in JudgeItems(rd, items, each).path ==> t in Traces(each)
    decreases each, |items| + 1
  {
    if items != [] {
      PathInTraces(rd, items[0], each);
      PathInTracesOfItems(rd, items[1..], each);
    }
  }

  /**
   What a run reports and what it leaves behind. `before` and `after` are the texts of all error objects in
   view: only a failure changes any, and only those on the path to the failing rule.
   */
  ghost predicate Reported<T>(v: Verdict<ValidationError>, target: T, r: Either<T>,
                              before: map<ValidationError, string>, after: map<ValidationError, string>)
    reads if r.Fail? then {r.fail} else {}
  {
    match v
    case Passes => r == Pass(target) && after == before
    case Throws => r == Rejected && after == before
    case Fails(path, m) =>
      && r.Fail?
      && (forall t :: t in path ==> t in before)
      && after == Unwind(before, path, m).0
      && r.fail.value == Unwind(before, path, m).1
      && (path != [] ==> r.fail == path[0])
      && (path == [] ==> r.fail !in before)
  }

  /** `scope` is any set of error objects, at least those of the specification, whose texts are to be followed. */
  method ValidateSpecification<T>(rd: Reader<T>, target: T, spec: seq<Check<T, ValidationError>>,
                                  ghost scope: set<ValidationError>)
    returns (r: Either<T>)
    requires Traces(spec) <= scope
    modifies Traces(spec)
    ensures Reported(Judge(rd, target, spec), target, r, old(Snapshot(scope)), Snapshot(scope))
    decreases spec, 0
  {
    for i := 0 to |spec|
      invariant Judge(rd, target, spec) == Judge(rd, target, spec[i..])
      invariant Snapshot(scope) == old(Snapshot(scope))
    {
      TracesContain(spec, i);
      assert spec[i..][0] == spec[i] && spec[i..][1..] == spec[i + 1..];
      var result := ValidateOne(rd, target, spec[i], scope);
      if !result.Pass? {
        return result;
      }
    }
    r := Pass(target);
  }

  /** The body of the loop: a sub-specification or a rule. */
  method ValidateOne<T>(rd: Reader<T>, target: T, check: Check<T, ValidationError>, ghost scope: set<ValidationError>)
    returns (r: Either<T>)
    requires TracesOfOne(check) <= scope
    modifies TracesOfOne(check)
    ensures Reported(JudgeOne(rd, target, check), target, r, old(Snapshot(scope)), Snapshot(scope))
    decreases check, 2
  {
    match check
    case Sub(subSpec, name, trace) =>
      r := ValidateSub(rd, target, subSpec, name, trace, scope);
    case ArrayRule(each) =>
      r := ArrayTest(rd, target, each, scope);
    case Rule(test) =>
      match test(target)
      case Raised => r := Rejected;
      case Violated(message) =>
        var e := new ValidationError(message);
        r := Fail(e);
      case Holds => r := Pass(target);
  }

  /** `trace.join(inner)` changes the text of `trace` and of no other error object. */
  method JoinInScope(trace: ValidationError, inner: ValidationError, ghost scope: set<ValidationError>)
    returns (joined: ValidationError)
    requires trace in scope
    modifies trace
    ensures joined == trace && trace.value == Joined(old(Snapshot(scope))[trace], old(inner.value))
    ensures Snapshot(scope) == old(Snapshot(scope))[trace := trace.value]
  {
    joined := trace.Join(inner);
  }

  /** `trace.join(inner)`, one level up the path that is being unwound. */
  method JoinTrace(trace: ValidationError, inner: ValidationError, ghost scope: set<ValidationError>,
                   ghost before: map<ValidationError, string>, ghost path: seq<ValidationError>, ghost message: string)
    returns (joined: ValidationError)
    requires trace in scope && trace in before && forall t :: t in path ==> t in before
    requires (Snapshot(scope), inner.value) == Unwind(before, path, message)
    modifies trace
    ensures joined == trace && forall t :: t in [trace] + path ==> t in before
    ensures (Snapshot(scope), joined.value) == Unwind(before, [trace] + path, message)
  {
    ghost var texts := Snapshot(scope);
    UnwindCons(before, trace, path, message, texts, inner.value);
    joined := JoinInScope(trace, inner, scope);
  }

  method ValidateSub<T>(rd: Reader<T>, target: T, subSpec: seq<Check<T, ValidationError>>, name: string,
                        trace: ValidationError, ghost scope: set<ValidationError>)
    returns (r: Either<T>)
    requires {trace} + Traces(subSpec) <= scope
    modifies {trace} + Traces(subSpec)
    ensures Reported(JudgeOne(rd, target, Sub(subSpec, name, trace)), target, r, old(Snapshot(scope)), Snapshot(scope))
    decreases subSpec, 1
  {
    var v := rd.property(target, name);
    if v.None? {
      return Rejected;
    }
    var result := ValidateSpecification(rd, v.value, subSpec, scope);
    if result.Rejected? {
      return Rejected;
    }
    if result.Fail? {
      ghost var below := Judge(rd, v.value, subSpec);
      var joined := JoinTrace(trace, result.fail, scope, old(Snapshot(scope)), below.path, below.message);
      return Fail(joined);
    }
    r := Pass(target);
  }

  /** The rule that `createArrayRule` returns: one specification object is reused for every element. */
  method ArrayTest<T>(rd: Reader<T>, list: T, each: seq<Check<T, ValidationError>>, ghost scope: set<ValidationError>)
    returns (r: Either<T>)
    requires Traces(each) <= scope
    modifies Traces(each)
    ensures Reported(JudgeItems(rd, rd.items(list), each), list, r, old(Snapshot(scope)), Snapshot(scope))
    decreases each, 1
  {
    var items := rd.items(list);
    for i := 0 to |items|
      invariant JudgeItems(rd, items, each) == JudgeItems(rd, items[i..], each)
      invariant Snapshot(scope) == old(Snapshot(scope))
    {
      assert items[i..][0] == items[i] && items[i..][1..] == items[i + 1..];
      var valid := ValidateSpecification(rd, items[i], each, scope);
      if !valid.Pass? {
        return match valid case Fail(e) => Fail(e) case _ => Rejected;
      }
    }
    r := Pass(list);
  }

  // ----- the text of a failure

  /** Words joined by single spaces. */
  function JoinWords(words: seq<string>): string
    requires words != []
  {
    if |words| == 1 then words[0] else words[0] + " " + JoinWords(words[1..])
  }

  function NonEmpty(words: seq<string>): seq<string> {
    if words == [] then [] else (if words[0] != "" then [words[0]] else []) + NonEmpty(words[1..])
  }

  /** The non-empty labels from the root down, then the message of the rule. */
  function ErrorText(labels: seq<string>, message: string): string {
    JoinWords(NonEmpty(labels) + [message])
  }

  ghost function LabelsAt<L>(store: map<L, string>, path: seq<L>): seq<string>
    requires forall t :: t in path ==> t in store
  {
    if path == [] then [] else assert path[0] in path; [store[path[0]]] + LabelsAt(store, path[1..])
  }

  lemma ErrorTextStep(labels: seq<string>, message: string)
    requires labels != []
    ensures ErrorText(labels, message) == Joined(labels[0], ErrorText(labels[1..], message))
  {
    var rest := NonEmpty(labels[1..]) + [message];
    if labels[0] != "" {
      assert NonEmpty(labels) + [message] == [labels[0]] + rest;
      assert ([labels[0]] + rest)[1..] == rest;
    } else {
      assert NonEmpty(labels) == NonEmpty(labels[1..]);
    }
  }

  /** With no trace twice on the path, the reported text is the plain concatenation of what was there. */
  lemma {:induction false} UnwindText<L>(store: map<L, string>, path: seq<L>, message: string)
    requires Distinct(path) && forall t :: t in path ==> t in store
    ensures Unwind(store, path, message).1 == ErrorText(LabelsAt(store, path), message)
  {
    if path != [] {
      UnwindText(store, path[1..], message);
      assert LabelsAt(store, path)[1..] == LabelsAt(store, path[1..]);
      assert path[0] !in path[1..];
      ErrorTextStep(LabelsAt(store, path), message);
    }
  }

  /** Every trace on the path ends with the text from its own level down. */
  lemma {:induction false} UnwindLevels<L>(store: map<L, string>, path: seq<L>, message: string, k: nat)
    requires Distinct(path) && (forall t :: t in path ==> t in store) && k < |path|
    ensures Unwind(store, path, message).0[path[k]] == Unwind(store, path[k..], message).1
  {
    if k == 0 {
      assert path[0..] == path;
    } else {
      UnwindLevels(store, path[1..], message, k - 1);
      assert path[1..][k - 1..] == path[k..];
      assert path[0] != path[k] == path[1..][k - 1];
    }
  }

  // ----- one specification used for two failing runs

  lemma {:induction false} LabelsAtIndex<L>(store: map<L, string>, path: seq<L>)
    requires forall t :: t in path ==> t in store
    ensures |LabelsAt(store, path)| == |path|
    ensures forall k :: 0 <= k < |path| ==> path[k] in path && LabelsAt(store, path)[k] == store[path[k]]
  {
    if path != [] {
      LabelsAtIndex(store, path[1..]);
      assert forall k :: 0 < k < |path| ==> path[k] == path[1..][k - 1];
    }
  }

  /** What the labels add to an error text: each one that is not empty, with the space behind it. */
  function Weight(labels: seq<string>): nat {
    if labels == [] then 0 else (if labels[0] == "" then 0 else |labels[0]| + 1) + Weight(labels[1..])
  }

  lemma {:induction false} ErrorTextLength(labels: seq<string>, message: string)
    ensures |ErrorText(labels, message)| == Weight(labels) + |message|
  {
    if labels != [] {
      ErrorTextStep(labels, message);
      ErrorTextLength(labels[1..], message);
    }
  }

  lemma {:induction false} NoWeight(labels: seq<string>)
    ensures Weight(labels) == 0 <==> forall k :: 0 <= k < |labels| ==> labels[k] == ""
  {
    if labels != [] {
      NoWeight(labels[1..]);
      assert labels == [labels[0]] + labels[1..];
    }
  }

  /** The text that is reported through a trace of the path stays empty. */
  ghost predicate SilentFrom<L>(store: map<L, string>, path: seq<L>, message: string, k: nat)
    requires forall t :: t in path ==> t in store
  {
    message == "" && forall j :: k <= j < |path| ==> path[j] in path && store[path[j]] == ""
  }

  lemma SilentText<L>(store: map<L, string>, path: seq<L>, message: string)
    requires Distinct(path) && forall t :: t in path ==> t in store
    ensures Unwind(store, path, message).1 == "" <==> SilentFrom(store, path, message, 0)
  {
    var labels := LabelsAt(store, path);
    UnwindText(store, path, message);
    ErrorTextLength(labels, message);
    NoWeight(labels);
    LabelsAtIndex(store, path);
  }

  /** A failing run leaves a trace of its path alone exactly when all it had to put there was empty text. */
  lemma {:induction false} TraceKeptIff<L>(store: map<L, string>, path: seq<L>, message: string, k: nat)
    requires Distinct(path) && (forall t :: t in path ==> t in store) && k < |path|
    ensures var once := Unwind(store, path, message).0;
            |once[path[k]]| >= |store[path[k]]|
            && (|once[path[k]]| == |store[path[k]]| <==> SilentFrom(store, path, message, k))
            && (SilentFrom(store, path, message, k) ==> once[path[k]] == store[path[k]])
  {
    if k == 0 {
      FirstKeptIff(store, path, message);
    } else {
      var rest := path[1..];
      TraceKeptIff(store, rest, message, k - 1);
      SilentRest(store, path, message, k);
      assert path[0] !in rest && path[k] == rest[k - 1] && path[k] in rest;
    }
  }

  lemma SilentRest<L>(store: map<L, string>, path: seq<L>, message: string, k: nat)
    requires 0 < k <= |path| && forall t :: t in path ==> t in store
    ensures SilentFrom(store, path, message, k) <==> SilentFrom(store, path[1..], message, k - 1)
  {
    assert forall j :: k <= j < |path| ==> path[j] == path[1..][j - 1];
    assert forall j :: k - 1 <= j < |path| - 1 ==> path[1..][j] == path[j + 1];
  }

  lemma FirstKeptIff<L>(store: map<L, string>, path: seq<L>, message: string)
    requires path != [] && Distinct(path) && forall t :: t in path ==> t in store
    ensures var once := Unwind(store, path, message).0;
            |once[path[0]]| >= |store[path[0]]|
            && (|once[path[0]]| == |store[path[0]]| <==> SilentFrom(store, path, message, 0))
            && (SilentFrom(store, path, message, 0) ==> once[path[0]] == store[path[0]])
  {
    assert path[0] !in path[1..];
    SilentText(store, path[1..], message);
    SilentRest(store, path, message, 1);
  }

  ghost predicate ShorterOn<L>(a: map<L, string>, b: map<L, string>, path: seq<L>) {
    forall t :: t in path ==> t in a && t in b && |a[t]| <= |b[t]|
  }

  /** Longer labels make a longer text: two stores give one text exactly when they agree on the path. */
  lemma {:induction false} SameWeight<L>(a: map<L, string>, b: map<L, string>, path: seq<L>)
    requires ShorterOn(a, b, path)
    ensures Weight(LabelsAt(a, path)) <= Weight(LabelsAt(b, path))
    ensures Weight(LabelsAt(a, path)) == Weight(LabelsAt(b, path)) ==> forall t :: t in path ==> |a[t]| == |b[t]|
  {
    if path != [] {
      assert ShorterOn(a, b, path[1..]);
      SameWeight(a, b, path[1..]);
      assert path[0] in path && forall t :: t in path ==> t == path[0] || t in path[1..];
      FirstLabel(a, path);
      FirstLabel(b, path);
    }
  }

  lemma FirstLabel<L>(store: map<L, string>, path: seq<L>)
    requires path != [] && forall t :: t in path ==> t in store
    ensures path[0] in path && LabelsAt(store, path)[0] == store[path[0]]
    ensures LabelsAt(store, path)[1..] == LabelsAt(store, path[1..])
  {
  }

  lemma {:induction false} SameLabels<L>(a: map<L, string>, b: map<L, string>, path: seq<L>)
    requires forall t :: t in path ==> t in a && t in b && a[t] == b[t]
    ensures LabelsAt(a, path) == LabelsAt(b, path)
  {
    if path != [] {
      assert path[0] in path;
      SameLabels(a, b, path[1..]);
    }
  }

  /** The failing run over `p` puts nothing into any trace that it shares with `q`. */
  ghost predicate LeavesAlone<L>(store: map<L, string>, p: seq<L>, message: string, q: seq<L>)
    requires forall t :: t in p ==> t in store
  {
    forall k :: 0 <= k < |p| && p[k] in q ==> SilentFrom(store, p, message, k)
  }

  /**
   After a failing run over `p`, a second one over `q` reports what it would have reported at first exactly when
   every trace on both paths, and all traces below it on the first one, were empty and so was the first message.
   */
  lemma SecondReportIff<L>(store: map<L, string>, p: seq<L>, message: string, q: seq<L>, second: string)
    requires Distinct(p) && Distinct(q) && (forall t :: t in p ==> t in store) && (forall t :: t in q ==> t in store)
    ensures Unwind(Unwind(store, p, message).0, q, second).1 == Unwind(store, q, second).1
      <==> LeavesAlone(store, p, message, q)
  {
    var once := Unwind(store, p, message).0;
    forall t | t in q
      ensures |once[t]| >= |store[t]|
      ensures LeavesAlone(store, p, message, q) ==> once[t] == store[t]
    {
      if k :| 0 <= k < |p| && p[k] == t { TraceKeptIff(store, p, message, k); }
    }
    UnwindText(once, q, second);
    UnwindText(store, q, second);
    ErrorTextLength(LabelsAt(once, q), second);
    ErrorTextLength(LabelsAt(store, q), second);
    SameWeight(store, once, q);
    if LeavesAlone(store, p, message, q) {
      SameLabels(store, once, q);
    } else {
      var k :| 0 <= k < |p| && p[k] in q && !SilentFrom(store, p, message, k);
      TraceKeptIff(store, p, message, k);
    }
  }

  // ----- factories

  /** No trace object occurs again below itself. */
  ghost predicate NoTraceNested<T>(spec: seq<Check<T, ValidationError>>) {
    spec == [] || (NoTraceNestedInOne(spec[0]) && NoTraceNested(spec[1..]))
  }

  ghost predicate NoTraceNestedInOne<T>(check: Check<T, ValidationError>) {
    match check
    case Rule(_) => true
    case ArrayRule(each) => NoTraceNested(each)
    case Sub(spec, _, trace) => trace !in Traces(spec) && NoTraceNested(spec)
  }

  /** The specification with every trace object replaced by its present text. */
  ghost function Texts<T>(spec: seq<Check<T, ValidationError>>): (r: seq<Check<T, string>>)
    reads Traces(spec)
  {
    if spec == [] then [] else [TextsOfOne(spec[0])] + Texts(spec[1..])
  }

  ghost function TextsOfOne<T>(check: Check<T, ValidationError>): Check<T, string>
    reads TracesOfOne(check)
  {
    match check
    case Rule(test) => Rule(test)
    case ArrayRule(each) => ArrayRule(Texts(each))
    case Sub(spec, name, trace) => Sub(Texts(spec), name, trace.value)
  }

  /** A factory builds its specification from nothing on every call: fresh traces with the declared texts. */
  method Instantiate<T>(plan: seq<Check<T, string>>)
    returns (spec: seq<Check<T, ValidationError>>, ghost made: set<ValidationError>)
    ensures Traces(spec) == made && fresh(made)
    ensures NoTraceNested(spec) && Texts(spec) == plan
    decreases plan, 0
  {
    if plan == [] {
      spec, made := [], {};
    } else {
      var check, here := InstantiateOne(plan[0]);
      var rest, others := Instantiate(plan[1..]);
      spec, made := [check] + rest, here + others;
      assert spec[1..] == rest;
      assert [TextsOfOne(check)] + Texts(rest) == plan;
    }
  }

  method InstantiateOne<T>(plan: Check<T, string>)
    returns (check: Check<T, ValidationError>, ghost made: set<ValidationError>)
    ensures TracesOfOne(check) == made && fresh(made)
    ensures NoTraceNestedInOne(check) && TextsOfOne(check) == plan
    decreases plan, 0
  {
    match plan
    case Rule(test) =>
      check, made := Rule(test), {};
    case ArrayRule(each) =>
      var spec, below := Instantiate(each);
      check, made := ArrayRule(spec), below;
    case Sub(sub, name, text) =>
      var spec, below := Instantiate(sub);
      var trace := new ValidationError(text);
      check, made := Sub(spec, name, trace), {trace} + below;
  }

  ghost function PathTexts(path: seq<ValidationError>): seq<string>
    reads path
  {
    if path == [] then [] else [path[0].value] + PathTexts(path[1..])
  }

  ghost function InTexts(v: Verdict<ValidationError>): Verdict<string>
    reads if v.Fails? then v.path else []
  {
    match v
    case Passes => Passes
    case Throws => Throws
    case Fails(path, m) => Fails(PathTexts(path), m)
  }

  /** The verdict does not depend on the texts of the traces: it is the verdict of the plan. */
  lemma {:induction false} TextsKeepVerdict<T>(rd: Reader<T>, target: T, spec: seq<Check<T, ValidationError>>)
    ensures Judge(rd, target, Texts(spec)) == InTexts(Judge(rd, target, spec))
    decreases spec, 0
  {
    if spec != [] {
      TextsKeepVerdictOfOne(rd, target, spec[0]);
      TextsKeepVerdict(rd, target, spec[1..]);
      assert Texts(spec)[1..] == Texts(spec[1..]);
    }
  }

  lemma {:induction false} TextsKeepVerdictOfOne<T>(rd: Reader<T>, target: T, check: Check<T, ValidationError>)
    ensures JudgeOne(rd, target, TextsOfOne(check)) == InTexts(JudgeOne(rd, target, check))
    decreases check, 0
  {
    match check
    case Rule(_) =>
    case ArrayRule(each) => TextsKeepVerdictOfItems(rd, rd.items(target), each);
    case Sub(spec, name, trace) =>
      var v := rd.property(target, name);
      if v.Some? {
        TextsKeepVerdict(rd, v.value, spec);
        var below := Judge(rd, v.value, spec);
        if below.Fails? { assert ([trace] + below.path)[1..] == below.path; }
      }
  }

  lemma {:induction false} TextsKeepVerdictOfItems<T>(rd: Reader<T>, items: seq<T>,
                                                      each: seq<Check<T, ValidationError>>)
    ensures JudgeItems(rd, items, Texts(each)) == InTexts(JudgeItems(rd, items, each))
    decreases each, |items| + 1
  {
    if items != [] {
      TextsKeepVerdict(rd, items[0], each);
      TextsKeepVerdictOfItems(rd, items[1..], each);
    }
  }

  lemma {:induction false} FailurePathDistinct<T>(rd: Reader<T>, target: T, spec: seq<Check<T, ValidationError>>)
    requires NoTraceNested(spec)
    ensures Judge(rd, target, spec).Fails? ==> Distinct(Judge(rd, target, spec).path)
    decreases spec, 0
  {
    if spec != [] {
      FailurePathDistinctOfOne(rd, target, spec[0]);
      FailurePathDistinct(rd, target, spec[1..]);
    }
  }

  lemma {:induction false} FailurePathDistinctOfOne<T>(rd: Reader<T>, target: T, check: Check<T, ValidationError>)
    requires NoTraceNestedInOne(check)
    ensures JudgeOne(rd, target, check).Fails? ==> Distinct(JudgeOne(rd, target, check).path)
    decreases check, 0
  {
    match check
    case Rule(_) =>
    case ArrayRule(each) => FailurePathDistinctOfItems(rd, rd.items(target), each);
    case Sub(spec, name, trace) =>
      var v := rd.property(target, name);
      if v.Some? {
        FailurePathDistinct(rd, v.value, spec);
        PathInTraces(rd, v.value, spec);
      }
  }

  lemma {:induction false} FailurePathDistinctOfItems<T>(rd: Reader<T>, items: seq<T>,
                                                         each: seq<Check<T, ValidationError>>)
    requires NoTraceNested(each)
    ensures JudgeItems(rd, items, each).Fails? ==> Distinct(JudgeItems(rd, items, each).path)
    decreases each, |items| + 1
  {
    if items != [] {
      FailurePathDistinct(rd, items[0], each);
      FailurePathDistinctOfItems(rd, items[1..], each);
    }
  }

  lemma {:induction false} LabelsAreTexts(scope: set<ValidationError>, path: seq<ValidationError>)
    requires forall t :: t in path ==> t in scope
    ensures LabelsAt(Snapshot(scope), path) == PathTexts(path)
  {
    if path != [] {
      LabelsAreTexts(scope, path[1..]);
      assert LabelsAt(Snapshot(scope), path) == [path[0].value] + LabelsAt(Snapshot(scope), path[1..]);
    }
  }

  /** The message that a run on a specification without nested repetition will report, read off its present texts. */
  lemma FailureText<T>(rd: Reader<T>, target: T, spec: seq<Check<T, ValidationError>>, scope: set<ValidationError>)
    requires Traces(spec) <= scope && NoTraceNested(spec)
    requires Judge(rd, target, spec).Fails?
    ensures Judge(rd, target, Texts(spec)).Fails?
    ensures var v, w := Judge(rd, target, spec), Judge(rd, target, Texts(spec));
            (forall t :: t in v.path ==> t in Snapshot(scope))
            && Unwind(Snapshot(scope), v.path, v.message).1 == ErrorText(w.path, w.message)
  {
    var path := Judge(rd, target, spec).path;
    PathInTraces(rd, target, spec);
    TextsKeepVerdict(rd, target, spec);
    FailurePathDistinct(rd, target, spec);
    LabelsAreTexts(scope, path);
    UnwindText(Snapshot(scope), path, Judge(rd, target, spec).message);
  }

  /** From the outermost trace that the path shares with `other`, all texts are empty, and so is the message. */
  ghost predicate NothingShared(path: seq<ValidationError>, message: string, other: seq<ValidationError>)
    reads path
  {
    forall k, j :: 0 <= k <= j < |path| && path[k] in other ==> message == "" && path[j].value == ""
  }

  lemma SecondReport(store: map<ValidationError, string>, p: seq<ValidationError>, message: string,
                     q: seq<ValidationError>, second: string, scope: set<ValidationError>)
    requires store == Snapshot(scope) && Distinct(p) && Distinct(q)
    requires (forall t :: t in p ==> t in store) && (forall t :: t in q ==> t in store)
    ensures Unwind(Unwind(store, p, message).0, q, second).1 == ErrorText(PathTexts(q), second)
      <==> NothingShared(p, message, q)
  {
    SecondReportIff(store, p, message, q, second);
    LabelsAreTexts(scope, q);
    UnwindText(store, q, second);
    SharedTextsEmpty(store, p, message, q, scope);
  }

  lemma SharedTextsEmpty(store: map<ValidationError, string>, p: seq<ValidationError>, message: string,
                         q: seq<ValidationError>, scope: set<ValidationError>)
    requires store == Snapshot(scope) && forall t :: t in p ==> t in store
    ensures LeavesAlone(store, p, message, q) <==> NothingShared(p, message, q)
  {
    assert forall j :: 0 <= j < |p| ==> p[j] in p && store[p[j]] == p[j].value;
    if LeavesAlone(store, p, message, q) {
      forall k, j | 0 <= k <= j < |p| && p[k] in q ensures message == "" && p[j].value == "" {
        assert SilentFrom(store, p, message, k);
      }
    } else {
      var k :| 0 <= k < |p| && p[k] in q && !SilentFrom(store, p, message, k);
      if message == "" {
        var j :| k <= j < |p| && store[p[j]] != "";
      }
    }
  }

  /**
   Two failing runs on one specification object. The second one reports what it would have reported alone exactly
   when the first message was empty, and so were all texts on the path of the first run from the outermost trace
   shared by both paths; or when the paths share no trace.
   */
  method ValidateTwice<T>(rd: Reader<T>, first: T, second: T, spec: seq<Check<T, ValidationError>>)
    returns (a: Either<T>, b: Either<T>)
    requires NoTraceNested(spec) && Judge(rd, first, spec).Fails? && Judge(rd, second, spec).Fails?
    modifies Traces(spec)
    ensures a.Fail? && b.Fail?
    ensures var v, w := Judge(rd, first, spec), Judge(rd, second, spec);
            b.fail.value == old(ErrorText(PathTexts(w.path), w.message))
            <==> old(NothingShared(v.path, v.message, w.path))
  {
    ghost var scope := Traces(spec);
    ghost var v, w := Judge(rd, first, spec), Judge(rd, second, spec);
    PathInTraces(rd, first, spec);
    PathInTraces(rd, second, spec);
    FailurePathDistinct(rd, first, spec);
    FailurePathDistinct(rd, second, spec);
    SecondReport(Snapshot(scope), v.path, v.message, w.path, w.message, scope);
    a := ValidateSpecification(rd, first, spec, scope);
    b := ValidateSpecification(rd, second, spec, scope);
  }

  lemma OneRule<T>(rd: Reader<T>, target: T, rule: Check<T, ValidationError>, name: string, trace: ValidationError)
    requires rule.Rule? && rd.property(target, name).Some?
    requires rule.test(rd.property(target, name).value).Violated?
    ensures Traces([Sub([rule], name, trace)]) == {trace}
    ensures Judge(rd, target, [Sub([rule], name, trace)])
      == Fails([trace], rule.test(rd.property(target, name).value).message)
  {
    var sub, v := Sub([rule], name, trace), rd.property(target, name).value;
    assert [rule][1..] == [] && [sub][1..] == [];
    assert Judge(rd, v, [rule]) == Fails([], rule.test(v).message);
    assert Traces([rule]) == TracesOfOne(rule) + Traces([rule][1..]) == {};
    assert Traces([sub]) == TracesOfOne(sub) + Traces([sub][1..]) == {trace};
  }

  lemma UnwindOne<L>(store: map<L, string>, trace: L, message: string)
    requires trace in store
    ensures Unwind(store, [trace], message)
      == (store[trace := Joined(store[trace], message)], Joined(store[trace], message))
  {
    assert [trace] + [] == [trace] && Unwind(store, [], message) == (store, message);
  }

  /** Two runs on a specification with one trace and one rule that nothing satisfies. */
  method RunTwice(text: string, message: string) returns (first: string, second: string)
    ensures first == Joined(text, message) && second == Joined(Joined(text, message), message)
  {
    var rd := Reader((target: int, name: string) => Some(target), (target: int) => []);
    var trace := new ValidationError(text);
    var rule := Rule((target: int) => Violated(message));
    var spec := [Sub([rule], "name", trace)];
    OneRule(rd, 0, rule, "name", trace);
    UnwindOne(Snapshot({trace}), trace, message);
    var a := ValidateSpecification(rd, 0, spec, {trace});
    assert a.Fail? && a.fail == trace;
    first := a.fail.value;
    UnwindOne(Snapshot({trace}), trace, message);
    var b := ValidateSpecification(rd, 0, spec, {trace});
    second := b.fail.value;
  }

  /** A concrete specification that repeats text when it is used again. */
  method ReuseRepeatsText() returns (first: string, second: string)
    ensures first == "Name: must be set" && second == "Name: must be set must be set"
  {
    first, second := RunTwice("Name:", "must be set");
    assert "Name:" + " " + "must be set" == "Name: must be set";
    assert "Name: must be set" + " " + "must be set" == "Name: must be set must be set";
  }

  // ----- the middleware

  /** A registered model: what its factory builds and, optionally, how the target is made from the request. */
  datatype Entry<!R, !T> = Entry(plan: seq<Check<T, string>>, buildTarget: Option<R -> Option<T>>)

  /** How the middleware reads a request. */
  datatype RequestParts<!R, !T> = RequestParts(body: R -> T, isBlank: T -> bool)

  datatype Response = Continue | BadRequest(errors: seq<string>) | Failed

  function Target<R, T>(entry: Entry<R, T>, parts: RequestParts<R, T>, req: R): Option<T> {
    match entry.buildTarget
    case Some(build) => build(req)
    case None => Some(parts.body(req))
  }

  /** The answer to one request, as a function of the request and the registered plan alone. */
  function Answer<R, T>(rd: Reader<T>, parts: RequestParts<R, T>, entry: Option<Entry<R, T>>, allowBlankTarget: bool,
                        req: R): Response
  {
    if entry.None? then Continue
    else if allowBlankTarget && entry.value.buildTarget.None? && parts.isBlank(parts.body(req)) then Continue
    else
      match Target(entry.value, parts, req)
      case None => Failed
      case Some(target) =>
        match Judge(rd, target, entry.value.plan)
        case Passes => Continue
        case Throws => Failed
        case Fails(labels, message) => BadRequest([ErrorText(labels, message)])
  }

  /** What the sites of a target demand: to go on, one message for the first violated rule, or an internal error. */
  ghost predicate AsSitesDemand(sites: seq<Site<string>>, response: Response) {
    && (response == Continue <==> AllHold(sites))
    && forall k :: FirstBad(sites, k) ==>
         match sites[k].outcome
         case Violated(m) => response == BadRequest([ErrorText(sites[k].path, m)])
         case _ => response == Failed
  }

  lemma AnswerFollowsSites<R, T>(rd: Reader<T>, parts: RequestParts<R, T>, entry: Option<Entry<R, T>>,
                                 allowBlankTarget: bool, req: R)
    ensures entry.None? ==> Answer(rd, parts, entry, allowBlankTarget, req) == Continue
    ensures entry.Some? ==>
      var response := Answer(rd, parts, entry, allowBlankTarget, req);
      match entry.value.buildTarget
      case None =>
        if allowBlankTarget && parts.isBlank(parts.body(req)) then response == Continue
        else AsSitesDemand(Sites(rd, parts.body(req), entry.value.plan), response)
      case Some(build) =>
        match build(req)
        case None => response == Failed
        case Some(target) => AsSitesDemand(Sites(rd, target, entry.value.plan), response)
  {
    if entry.Some? {
      var target := Target(entry.value, parts, req);
      if target.Some? { JudgeIsFirstBadSite(rd, target.value, entry.value.plan); }
    }
  }

  /**
   Each request gets a specification of its own, so nothing that earlier requests left behind can show up: what the
   rules of the plan say about the target at hand decides.
   */
  method Handle<R, T>(rd: Reader<T>, parts: RequestParts<R, T>, entry: Option<Entry<R, T>>, allowBlankTarget: bool,
                      req: R)
    returns (response: Response)
    ensures response == Answer(rd, parts, entry, allowBlankTarget, req)
    ensures entry.None? ==> response == Continue
    ensures entry.Some? ==>
      match entry.value.buildTarget
      case None =>
        if allowBlankTarget && parts.isBlank(parts.body(req)) then response == Continue
        else AsSitesDemand(Sites(rd, parts.body(req), entry.value.plan), response)
      case Some(build) =>
        match build(req)
        case None => response == Failed
        case Some(target) => AsSitesDemand(Sites(rd, target, entry.value.plan), response)
  {
    AnswerFollowsSites(rd, parts, entry, allowBlankTarget, req);
    if entry.None? {
      return Continue;
    }
    if allowBlankTarget && entry.value.buildTarget.None? {
      var body := parts.body(req);
      if parts.isBlank(body) {
        return Continue;
      }
    }
    var spec, made := Instantiate(entry.value.plan);
    var target := Target(entry.value, parts, req);
    if target.None? {
      return Failed;
    }
    TextsKeepVerdict(rd, target.value, spec);
    if Judge(rd, target.value, spec).Fails? {
      FailureText(rd, target.value, spec, made);
    }
    var result := ValidateSpecification(rd, target.value, spec, made);
    match result
    case Rejected => response := Failed;
    case Fail(e) => response := BadRequest([e.value]);
    case Pass(_) => response := Continue;
  }
}
