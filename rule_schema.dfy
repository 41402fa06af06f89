// The rules document and its validation. The document is parsed JSON; the
// validator reads `highRiskCategories` and `lowRiskPatterns`, pushes one
// message per failed check into a list (it never stops at the first one), and
// the gate refuses to classify when the list is not empty. Reading a property
// of `null` throws in JavaScript, so a `null` document or a `null` category
// ends validation with a crash instead of a message list.
module RuleSchema {
  import opened Text

  datatype Option<T> = None | Some(value: T)

  datatype Json =
    | JNull
    | JBool(b: bool)
    | JNumber(n: int)
    | JString(s: string)
    | JArray(items: seq<Json>)
    | JObject(fields: map<string, Json>)

  /** `v.key` on anything but `null`: an object's own property, or `undefined`
      (arrays, strings, numbers and booleans have none of the keys read here). */
  function Field(v: Json, key: string): Option<Json> {
    if v.JObject? && key in v.fields then Some(v.fields[key]) else None
  }

  /** `typeof x === 'string' && x.length > 0` */
  predicate IsNonEmptyString(x: Option<Json>) {
    x.Some? && x.value.JString? && |x.value.s| > 0
  }

  /** `Array.isArray(x) && x.length > 0` */
  predicate IsNonEmptyArray(x: Option<Json>) {
    x.Some? && x.value.JArray? && |x.value.items| > 0
  }

  /** `xs.every((p) => typeof p === 'string')` */
  predicate AllStrings(xs: seq<Json>) {
    forall k :: 0 <= k < |xs| ==> xs[k].JString?
  }

  // ---------------------------------------------------------------------
  // Messages

  const CategoriesMessage: string := "highRiskCategories must be a non-empty array"
  const LowMessage: string := "lowRiskPatterns must be a non-empty array"
  const LowTypesMessage: string := "lowRiskPatterns must only contain strings"

  const NameRule: string := "name must be a non-empty string"
  const PatternsRule: string := "patterns must be a non-empty array"
  const PatternTypesRule: string := "patterns must only contain strings"

  /** `highRiskCategories[${i}].<rule>` */
  function IndexedMessage(i: nat, rule: string): string {
    "highRiskCategories[" + NatToString(i) + "]." + rule
  }

  function NameMessage(i: nat): string { IndexedMessage(i, NameRule) }
  function PatternsMessage(i: nat): string { IndexedMessage(i, PatternsRule) }
  function PatternTypesMessage(i: nat): string { IndexedMessage(i, PatternTypesRule) }

  // ---------------------------------------------------------------------
  // What validation computes

  datatype Outcome =
    | Completed(errors: seq<string>)   // the collected messages; empty means accepted
    | Crashed                          // a property read on `null` threw

  /** The messages for category `i`: the name check first, then one patterns check. */
  function CategoryErrors(i: nat, cat: Json): seq<string> {
    (if IsNonEmptyString(Field(cat, "name")) then [] else [NameMessage(i)]) +
    (if !IsNonEmptyArray(Field(cat, "patterns")) then [PatternsMessage(i)]
     else if !AllStrings(Field(cat, "patterns").value.items) then [PatternTypesMessage(i)]
     else [])
  }

  /** The `forEach` over the first `n` categories, in index order. */
  function CategoriesErrors(cats: seq<Json>, n: nat): Outcome
    requires n <= |cats|
  {
    if n == 0 then Completed([])
    else match CategoriesErrors(cats, n - 1)
      case Crashed => Crashed
      case Completed(e) => if cats[n - 1].JNull? then Crashed else Completed(e + CategoryErrors(n - 1, cats[n - 1]))
  }

  function LowErrors(rules: Json): seq<string> {
    var low := Field(rules, "lowRiskPatterns");
    if !IsNonEmptyArray(low) then [LowMessage]
    else if !AllStrings(low.value.items) then [LowTypesMessage]
    else []
  }

  function HighErrors(rules: Json): Outcome {
    var high := Field(rules, "highRiskCategories");
    if !IsNonEmptyArray(high) then Completed([CategoriesMessage])
    else CategoriesErrors(high.value.items, |high.value.items|)
  }

  function Validate(rules: Json): Outcome {
    if rules.JNull? then Crashed
    else match HighErrors(rules)
      case Crashed => Crashed
      case Completed(e) => Completed(e + LowErrors(rules))
  }

  /** `validateRules`: the checks in source order, pushing into a growing list. */
  method ValidateRules(rules: Json) returns (outcome: Outcome)
    ensures outcome == Validate(rules)
  {
    if rules.JNull? {
      return Crashed;
    }
    var errors: seq<string> := [];
    var high := Field(rules, "highRiskCategories");
    if !IsNonEmptyArray(high) {
      errors := errors + [CategoriesMessage];
    } else {
      var cats := high.value.items;
      var i := 0;
      while i < |cats|
        invariant 0 <= i <= |cats|
        invariant CategoriesErrors(cats, i) == Completed(errors)
      {
        var cat := cats[i];
        if cat.JNull? {
          CrashPersists(cats, i + 1, |cats|);
          return Crashed;
        }
        if !IsNonEmptyString(Field(cat, "name")) {
          errors := errors + [NameMessage(i)];
        }
        var patterns := Field(cat, "patterns");
        if !IsNonEmptyArray(patterns) {
          errors := errors + [PatternsMessage(i)];
        } else if !AllStrings(patterns.value.items) {
          errors := errors + [PatternTypesMessage(i)];
        }
        i := i + 1;
      }
    }
    var low := Field(rules, "lowRiskPatterns");
    if !IsNonEmptyArray(low) {
      errors := errors + [LowMessage];
    } else if !AllStrings(low.value.items) {
      errors := errors + [LowTypesMessage];
    }
    return Completed(errors);
  }

  lemma {:induction false} CrashPersists(cats: seq<Json>, n: nat, m: nat)
    requires n <= m <= |cats|
    requires CategoriesErrors(cats, n) == Crashed
    ensures CategoriesErrors(cats, m) == Crashed
    decreases m - n
  {
    if n < m {
      CrashPersists(cats, n + 1, m);
    }
  }

  // ---------------------------------------------------------------------
  // The schema, stated on its own

  ghost predicate CategoryOk(cat: Json) {
    && IsNonEmptyString(Field(cat, "name"))
    && IsNonEmptyArray(Field(cat, "patterns"))
    && AllStrings(Field(cat, "patterns").value.items)
  }

  /** A well-formed rules document: a non-empty array of categories, each with
      a non-empty name and a non-empty array of string patterns, and a
      non-empty array of string low-risk patterns. */
  ghost predicate Schema(rules: Json) {
    && IsNonEmptyArray(Field(rules, "highRiskCategories"))
    && (forall c :: c in Field(rules, "highRiskCategories").value.items ==> CategoryOk(c))
    && IsNonEmptyArray(Field(rules, "lowRiskPatterns"))
    && AllStrings(Field(rules, "lowRiskPatterns").value.items)
  }

  lemma {:induction false} CategoriesAccepted(cats: seq<Json>, n: nat)
    requires n <= |cats|
    ensures CategoriesErrors(cats, n) == Completed([]) <==> forall k :: 0 <= k < n ==> CategoryOk(cats[k])
  {
    if n > 0 {
      CategoriesAccepted(cats, n - 1);
      var prev := CategoriesErrors(cats, n - 1);
      if prev.Completed? && !cats[n - 1].JNull? {
        assert CategoriesErrors(cats, n) == Completed(prev.errors + CategoryErrors(n - 1, cats[n - 1]));
      }
    }
  }

  /** The document is accepted (validation completes with no message) exactly when it follows the schema. */
  lemma AcceptedIffSchema(rules: Json)
    ensures Validate(rules) == Completed([]) <==> Schema(rules)
  {
    var high := Field(rules, "highRiskCategories");
    if IsNonEmptyArray(high) {
      var cats := high.value.items;
      CategoriesAccepted(cats, |cats|);
      if Validate(rules) == Completed([]) {
        var e := HighErrors(rules).errors;
        assert e + LowErrors(rules) == [];
        assert |e| == 0;
      }
      assert (forall c :: c in cats ==> CategoryOk(c)) <==> (forall k :: 0 <= k < |cats| ==> CategoryOk(cats[k]));
    }
  }

  lemma {:induction false} CategoriesCrash(cats: seq<Json>, n: nat)
    requires n <= |cats|
    ensures CategoriesErrors(cats, n) == Crashed <==> JNull in cats[..n]
  {
    if n > 0 {
      CategoriesCrash(cats, n - 1);
      assert cats[..n] == cats[..n - 1] + [cats[n - 1]];
    }
  }

  /** Validation crashes exactly on a `null` document or a `null` category. */
  lemma CrashIffNull(rules: Json)
    ensures Validate(rules) == Crashed <==>
      rules.JNull? ||
      (IsNonEmptyArray(Field(rules, "highRiskCategories")) && JNull in Field(rules, "highRiskCategories").value.items)
  {
    var high := Field(rules, "highRiskCategories");
    if IsNonEmptyArray(high) {
      var cats := high.value.items;
      CategoriesCrash(cats, |cats|);
      assert cats[..|cats|] == cats;
    }
  }

  // ---------------------------------------------------------------------
  // Messages name their check: which messages appear says which checks failed.

  /** The number of leading decimal digits of `s`. */
  function DigitRun(s: string): nat {
    if s == [] || !IsDigit(s[0]) then 0 else 1 + DigitRun(s[1..])
  }

  lemma {:induction false} DigitRunOfDigits(d: string, rest: string)
    requires forall k :: 0 <= k < |d| ==> IsDigit(d[k])
    requires rest != [] && !IsDigit(rest[0])
    ensures DigitRun(d + rest) == |d|
  {
    if d == [] {
      assert d + rest == rest;
    } else {
      assert (d + rest)[1..] == d[1..] + rest;
      DigitRunOfDigits(d[1..], rest);
    }
  }

  /** Two indexed messages are equal only when they name the same index and the same check. */
  lemma IndexedMessageInjective(i: nat, f: string, j: nat, g: string)
    ensures IndexedMessage(i, f) == IndexedMessage(j, g) ==> i == j && f == g
  {
    var head := "highRiskCategories[";
    var di, dj := NatToString(i), NatToString(j);
    var ri, rj := "]." + f, "]." + g;
    assert IndexedMessage(i, f) == head + (di + ri);
    assert IndexedMessage(j, g) == head + (dj + rj);
    if IndexedMessage(i, f) == IndexedMessage(j, g) {
      assert (head + (di + ri))[|head|..] == di + ri;
      assert (head + (dj + rj))[|head|..] == dj + rj;
      DigitRunOfDigits(di, ri);
      DigitRunOfDigits(dj, rj);
      assert (di + ri)[..|di|] == di && (dj + rj)[..|dj|] == dj;
      NatToStringInjective(i, j);
      assert (di + ri)[|di|..] == ri && (dj + rj)[|dj|..] == rj;
      assert ri[2..] == f && rj[2..] == g;
    }
  }

  /** The unindexed messages are never indexed ones. */
  lemma PlainMessagesAreNotIndexed(i: nat, f: string)
    ensures IndexedMessage(i, f) != CategoriesMessage
    ensures IndexedMessage(i, f) != LowMessage && IndexedMessage(i, f) != LowTypesMessage
  {
    var m := IndexedMessage(i, f);
    assert m == "highRiskCategories[" + (NatToString(i) + "]." + f);
    assert m[18] == '[' && m[0] == 'h';
    assert CategoriesMessage[18] == ' ';
    assert LowMessage[0] == 'l' && LowTypesMessage[0] == 'l';
  }

  /** Check `rule` (one of the three per-category checks) fails on `cat`. */
  ghost predicate Fails(cat: Json, rule: string) {
    || (rule == NameRule && !IsNonEmptyString(Field(cat, "name")))
    || (rule == PatternsRule && !IsNonEmptyArray(Field(cat, "patterns")))
    || (rule == PatternTypesRule && IsNonEmptyArray(Field(cat, "patterns"))
        && !AllStrings(Field(cat, "patterns").value.items))
  }

  lemma CategoryErrorsMention(i: nat, cat: Json, j: nat, rule: string)
    ensures IndexedMessage(j, rule) in CategoryErrors(i, cat) <==> j == i && Fails(cat, rule)
  {
    IndexedMessageInjective(j, rule, i, NameRule);
    IndexedMessageInjective(j, rule, i, PatternsRule);
    IndexedMessageInjective(j, rule, i, PatternTypesRule);
  }

  lemma CategoryErrorsIndexed(i: nat, cat: Json)
    ensures CategoriesMessage !in CategoryErrors(i, cat)
    ensures LowMessage !in CategoryErrors(i, cat) && LowTypesMessage !in CategoryErrors(i, cat)
  {
    PlainMessagesAreNotIndexed(i, NameRule);
    PlainMessagesAreNotIndexed(i, PatternsRule);
    PlainMessagesAreNotIndexed(i, PatternTypesRule);
  }

  lemma {:induction false} CategoriesErrorsMention(cats: seq<Json>, n: nat, j: nat, rule: string)
    requires n <= |cats|
    requires CategoriesErrors(cats, n).Completed?
    ensures IndexedMessage(j, rule) in CategoriesErrors(cats, n).errors <==> j < n && Fails(cats[j], rule)
  {
    if n > 0 {
      CategoriesErrorsStep(cats, n);
      CategoriesErrorsMention(cats, n - 1, j, rule);
      CategoryErrorsMention(n - 1, cats[n - 1], j, rule);
    }
  }

  lemma CategoriesErrorsIndexed(cats: seq<Json>, n: nat)
    requires n <= |cats|
    requires CategoriesErrors(cats, n).Completed?
    ensures CategoriesMessage !in CategoriesErrors(cats, n).errors
    ensures LowMessage !in CategoriesErrors(cats, n).errors && LowTypesMessage !in CategoriesErrors(cats, n).errors
  {
    forall i: nat, c: Json
      ensures CategoriesMessage !in CategoryErrors(i, c)
      ensures LowMessage !in CategoryErrors(i, c) && LowTypesMessage !in CategoryErrors(i, c)
    {
      CategoryErrorsIndexed(i, c);
    }
    CategoriesErrorsExclude(cats, n, CategoriesMessage);
    CategoriesErrorsExclude(cats, n, LowMessage);
    CategoriesErrorsExclude(cats, n, LowTypesMessage);
  }

  /** One more category appends its messages. */
  lemma CategoriesErrorsStep(cats: seq<Json>, n: nat)
    requires 0 < n <= |cats|
    requires CategoriesErrors(cats, n).Completed?
    ensures CategoriesErrors(cats, n - 1).Completed?
    ensures CategoriesErrors(cats, n).errors == CategoriesErrors(cats, n - 1).errors + CategoryErrors(n - 1, cats[n - 1])
  {
  }

  lemma {:induction false} CategoriesErrorsExclude(cats: seq<Json>, n: nat, m: string)
    requires n <= |cats|
    requires CategoriesErrors(cats, n).Completed?
    requires forall i: nat, c: Json :: m !in CategoryErrors(i, c)
    ensures m !in CategoriesErrors(cats, n).errors
  {
    if n > 0 {
      CategoriesErrorsStep(cats, n);
      CategoriesErrorsExclude(cats, n - 1, m);
      assert m !in CategoryErrors(n - 1, cats[n - 1]);
    }
  }

  /** One message per failed check, and no message for a check that passed: when
      validation completes, each message is present exactly when its check fails. */
  lemma MessagesIffChecksFail(rules: Json, j: nat, rule: string)
    requires Validate(rules).Completed?
    ensures var errs := Validate(rules).errors;
      var high := Field(rules, "highRiskCategories");
      var low := Field(rules, "lowRiskPatterns");
      && (CategoriesMessage in errs <==> !IsNonEmptyArray(high))
      && (IndexedMessage(j, rule) in errs <==>
            IsNonEmptyArray(high) && j < |high.value.items| && Fails(high.value.items[j], rule))
      && (LowMessage in errs <==> !IsNonEmptyArray(low))
      && (LowTypesMessage in errs <==> IsNonEmptyArray(low) && !AllStrings(low.value.items))
  {
    var high := Field(rules, "highRiskCategories");
    var e := HighErrors(rules).errors;
    assert Validate(rules).errors == e + LowErrors(rules);
    PlainMessagesAreNotIndexed(j, rule);
    if IsNonEmptyArray(high) {
      CategoriesErrorsMention(high.value.items, |high.value.items|, j, rule);
      CategoriesErrorsIndexed(high.value.items, |high.value.items|);
    }
  }

  lemma {:induction false} CategoriesErrorsOrdered(cats: seq<Json>, n: nat, a: nat, b: nat, i: nat, f: string, j: nat, g: string)
    requires n <= |cats|
    requires CategoriesErrors(cats, n).Completed?
    requires a < b < |CategoriesErrors(cats, n).errors|
    requires CategoriesErrors(cats, n).errors[a] == IndexedMessage(i, f)
    requires CategoriesErrors(cats, n).errors[b] == IndexedMessage(j, g)
    ensures i < j || (i == j && f == NameRule && g != NameRule)
  {
    CategoriesErrorsStep(cats, n);
    var e := CategoriesErrors(cats, n - 1).errors;
    var c := CategoryErrors(n - 1, cats[n - 1]);
    if b < |e| {
      CategoriesErrorsOrdered(cats, n - 1, a, b, i, f, j, g);
    } else if a < |e| {
      assert IndexedMessage(i, f) in e;
      CategoriesErrorsMention(cats, n - 1, i, f);
      assert IndexedMessage(j, g) in c;
      CategoryErrorsMention(n - 1, cats[n - 1], j, g);
    } else {
      assert c[a - |e|] == IndexedMessage(i, f) && c[b - |e|] == IndexedMessage(j, g);
      assert IndexedMessage(i, f) in c && IndexedMessage(j, g) in c;
      CategoryErrorsMention(n - 1, cats[n - 1], i, f);
      CategoryErrorsMention(n - 1, cats[n - 1], j, g);
      assert c[0] == NameMessage(n - 1);
      IndexedMessageInjective(i, f, n - 1, NameRule);
      IndexedMessageInjective(j, g, n - 1, NameRule);
    }
  }

  /** Messages come in the order of the checks: categories by index, and for
      one category the name message before the patterns message. */
  lemma MessagesInCheckOrder(rules: Json, a: nat, b: nat, i: nat, f: string, j: nat, g: string)
    requires Validate(rules).Completed?
    requires a < b < |Validate(rules).errors|
    requires Validate(rules).errors[a] == IndexedMessage(i, f)
    requires Validate(rules).errors[b] == IndexedMessage(j, g)
    ensures i < j || (i == j && f == NameRule && g != NameRule)
  {
    var high := Field(rules, "highRiskCategories");
    var e := HighErrors(rules).errors;
    var errs := Validate(rules).errors;
    assert errs == e + LowErrors(rules);
    PlainMessagesAreNotIndexed(j, g);
    assert errs[b] !in LowErrors(rules);
    assert b < |e|;
    PlainMessagesAreNotIndexed(i, f);
    assert IsNonEmptyArray(high);
    CategoriesErrorsOrdered(high.value.items, |high.value.items|, a, b, i, f, j, g);
  }

  /** The `lowRiskPatterns` message, when there is one, comes last. */
  lemma LowMessageLast(rules: Json, a: nat)
    requires Validate(rules).Completed?
    requires a < |Validate(rules).errors|
    requires Validate(rules).errors[a] == LowMessage || Validate(rules).errors[a] == LowTypesMessage
    ensures a == |Validate(rules).errors| - 1
  {
    var high := Field(rules, "highRiskCategories");
    var e := HighErrors(rules).errors;
    var errs := Validate(rules).errors;
    assert errs == e + LowErrors(rules);
    if IsNonEmptyArray(high) {
      CategoriesErrorsIndexed(high.value.items, |high.value.items|);
    }
    assert errs[a] !in e;
  }

  /** A document with an empty category list reports the categories message and is not accepted. */
  lemma EmptyCategoriesRejected(rules: Json)
    requires Field(rules, "highRiskCategories") == Some(JArray([]))
    ensures Validate(rules).Completed?
    ensures CategoriesMessage in Validate(rules).errors
    ensures Validate(rules) != Completed([])
  {
  }

  /** The three checks made on every category. */
  predicate CategoryRule(rule: string) {
    rule == NameRule || rule == PatternsRule || rule == PatternTypesRule
  }

  /** A message one of the checks can push: a document-level one, or an
      indexed one naming a category check. */
  ghost predicate CheckMessage(m: string) {
    || m == CategoriesMessage || m == LowMessage || m == LowTypesMessage
    || exists j: nat, rule: string :: CategoryRule(rule) && m == IndexedMessage(j, rule)
  }

  /** No message occurs twice. */
  predicate NoRepeats(xs: seq<string>) {
    forall a, b :: 0 <= a < b < |xs| ==> xs[a] != xs[b]
  }

  lemma NoRepeatsAppend(xs: seq<string>, ys: seq<string>)
    requires NoRepeats(xs) && NoRepeats(ys)
    requires forall m :: m in ys ==> m !in xs
    ensures NoRepeats(xs + ys)
  {
    var zs := xs + ys;
    forall a, b | 0 <= a < b < |zs| ensures zs[a] != zs[b] {
      if b < |xs| {
        assert zs[a] == xs[a] && zs[b] == xs[b];
      } else if a < |xs| {
        assert zs[a] == xs[a] && zs[b] == ys[b - |xs|];
        assert ys[b - |xs|] in ys;
      } else {
        assert zs[a] == ys[a - |xs|] && zs[b] == ys[b - |xs|];
      }
    }
  }

  lemma CategoryErrorsAreChecks(i: nat, cat: Json)
    ensures forall m :: m in CategoryErrors(i, cat) ==> CheckMessage(m)
    ensures NoRepeats(CategoryErrors(i, cat))
  {
    assert CategoryRule(NameRule) && CategoryRule(PatternsRule) && CategoryRule(PatternTypesRule);
    assert CheckMessage(IndexedMessage(i, NameRule));
    assert CheckMessage(IndexedMessage(i, PatternsRule));
    assert CheckMessage(IndexedMessage(i, PatternTypesRule));
    IndexedMessageInjective(i, NameRule, i, PatternsRule);
    IndexedMessageInjective(i, NameRule, i, PatternTypesRule);
  }

  lemma {:induction false} CategoriesErrorsAreChecks(cats: seq<Json>, n: nat)
    requires n <= |cats|
    requires CategoriesErrors(cats, n).Completed?
    ensures forall m :: m in CategoriesErrors(cats, n).errors ==> CheckMessage(m)
    ensures NoRepeats(CategoriesErrors(cats, n).errors)
  {
    if n > 0 {
      CategoriesErrorsStep(cats, n);
      CategoriesErrorsAreChecks(cats, n - 1);
      CategoryErrorsAreChecks(n - 1, cats[n - 1]);
      // The new category's messages carry index n - 1, which no earlier message does.
      CategoriesErrorsMention(cats, n - 1, n - 1, NameRule);
      CategoriesErrorsMention(cats, n - 1, n - 1, PatternsRule);
      CategoriesErrorsMention(cats, n - 1, n - 1, PatternTypesRule);
      NoRepeatsAppend(CategoriesErrors(cats, n - 1).errors, CategoryErrors(n - 1, cats[n - 1]));
    }
  }

  /** Validation pushes nothing but check messages, and none of them twice.
      With `MessagesIffChecksFail`, the list holds exactly one message per failed check. */
  lemma OnlyCheckMessages(rules: Json)
    requires Validate(rules).Completed?
    ensures forall m :: m in Validate(rules).errors ==> CheckMessage(m)
    ensures NoRepeats(Validate(rules).errors)
  {
    var high := Field(rules, "highRiskCategories");
    var e := HighErrors(rules).errors;
    assert Validate(rules).errors == e + LowErrors(rules);
    if IsNonEmptyArray(high) {
      CategoriesErrorsAreChecks(high.value.items, |high.value.items|);
      CategoriesErrorsIndexed(high.value.items, |high.value.items|);
    } else {
      assert CategoriesMessage[0] == 'h' && LowMessage[0] == 'l' && LowTypesMessage[0] == 'l';
    }
    NoRepeatsAppend(e, LowErrors(rules));
  }

  // ---------------------------------------------------------------------
  // The rules a validated document describes

  datatype Category = Category(name: string, patterns: seq<string>)

  datatype RuleSet = RuleSet(highRiskCategories: seq<Category>, lowRiskPatterns: seq<string>)

  /** The shape the classifier relies on: non-empty lists and non-empty category names. */
  ghost predicate WellFormed(r: RuleSet) {
    && |r.highRiskCategories| > 0
    && (forall c :: c in r.highRiskCategories ==> |c.name| > 0 && |c.patterns| > 0)
    && |r.lowRiskPatterns| > 0
  }

  function Strings(xs: seq<Json>): (r: seq<string>)
    requires AllStrings(xs)
    ensures |r| == |xs|
    ensures forall k :: 0 <= k < |xs| ==> r[k] == xs[k].s
  {
    if xs == [] then [] else [xs[0].s] + Strings(xs[1..])
  }

  function DecodeCategory(cat: Json): (c: Category)
    requires CategoryOk(cat)
    ensures |c.name| > 0 && |c.patterns| > 0
  {
    Category(Field(cat, "name").value.s, Strings(Field(cat, "patterns").value.items))
  }

  function DecodeCategories(cats: seq<Json>): (r: seq<Category>)
    requires forall c :: c in cats ==> CategoryOk(c)
    ensures |r| == |cats|
    ensures forall k :: 0 <= k < |r| ==> r[k] == DecodeCategory(cats[k])
    ensures forall c :: c in r ==> |c.name| > 0 && |c.patterns| > 0
  {
    if cats == [] then [] else [DecodeCategory(cats[0])] + DecodeCategories(cats[1..])
  }

  /** The rule set an accepted document describes; it has the shape the classifier relies on. */
  function Decode(rules: Json): (r: RuleSet)
    requires Schema(rules)
    ensures WellFormed(r)
    ensures |r.highRiskCategories| == |Field(rules, "highRiskCategories").value.items|
    ensures forall k :: 0 <= k < |r.highRiskCategories| ==>
      var cat := Field(rules, "highRiskCategories").value.items[k];
      && CategoryOk(cat)
      && r.highRiskCategories[k].name == Field(cat, "name").value.s
      && r.highRiskCategories[k].patterns == Strings(Field(cat, "patterns").value.items)
    ensures |r.lowRiskPatterns| == |Field(rules, "lowRiskPatterns").value.items|
    ensures forall k :: 0 <= k < |r.lowRiskPatterns| ==> r.lowRiskPatterns[k] == Field(rules, "lowRiskPatterns").value.items[k].s
  {
    RuleSet(DecodeCategories(Field(rules, "highRiskCategories").value.items),
            Strings(Field(rules, "lowRiskPatterns").value.items))
  }
}

