/** The ACL policy evaluator: path patterns, rules with capabilities and conditions, and the
    nested loops that let the first decisive rule decide. Go's path.Match is a parameter. */
module AclPolicy {
  import opened Sequences
  import opened Text

  datatype Rule = Rule(path: string, capabilities: seq<string>, conditions: map<string, string>)

  datatype Policy = Policy(name: string, rules: seq<Rule>, description: string)

  datatype Evaluation = Evaluation(allowed: bool, matchedRule: string, denialReason: string)

  const DENY := "deny"
  const SUDO := "sudo"

  type Glob = (string, string) -> bool
  type Context = map<string, string>

  // ---------------------------------------------------------------- paths

  function TrimLeft(s: string): string {
    if s != [] && s[0] == '/' then TrimLeft(s[1..]) else s
  }

  function TrimRight(s: string): string {
    if s != [] && s[|s| - 1] == '/' then TrimRight(s[..|s| - 1]) else s
  }

  /** strings.Trim(s, "/"). */
  function Trim(s: string): string { TrimRight(TrimLeft(s)) }

  predicate HasSuffix(s: string, t: string) { |t| <= |s| && s[|s| - |t|..] == t }

  function TrimSuffix(s: string, t: string): string {
    if HasSuffix(s, t) then s[..|s| - |t|] else s
  }

  /** Segment by segment, `*` stands for any one segment. */
  predicate SegmentsMatch(pattern: seq<string>, target: seq<string>) {
    |pattern| == |target| && forall i | 0 <= i < |pattern| :: pattern[i] == "*" || pattern[i] == target[i]
  }

  /** Whether a rule path covers a target path, both already trimmed. */
  predicate MatchesTrimmed(glob: Glob, pattern: string, target: string) {
    if HasSuffix(pattern, "**") then TrimSuffix(TrimSuffix(pattern, "**"), "/") <= target
    else if '*' in pattern then SegmentsMatch(Split(pattern, '/'), Split(target, '/'))
    else pattern == target || glob(pattern, target)
  }

  predicate Matches(glob: Glob, pattern: string, target: string) {
    MatchesTrimmed(glob, Trim(pattern), Trim(target))
  }

  // ---------------------------------------------------------------- decisions

  datatype Decision = Denies | Grants | Passes

  predicate ConditionsMet(conditions: map<string, string>, context: Context) {
    forall key | key in conditions :: key in context && context[key] == conditions[key]
  }

  /** What one rule says about a request. */
  function Decide(glob: Glob, rule: Rule, target: string, capability: string, context: Context): Decision {
    if !Matches(glob, rule.path, target) then Passes
    else if DENY in rule.capabilities then Denies
    else if SUDO in rule.capabilities then Grants
    else if capability in rule.capabilities && ConditionsMet(rule.conditions, context) then Grants
    else Passes
  }

  /** The rules of the known policies, in the order the names are given. */
  function Flatten(policies: map<string, Policy>, names: seq<string>): seq<Rule> {
    if names == [] then []
    else (if names[0] in policies then policies[names[0]].rules else []) + Flatten(policies, names[1..])
  }

  /** Position of the first rule that does not pass, or the number of rules. */
  function FirstDecisive(glob: Glob, rules: seq<Rule>, target: string, capability: string, context: Context): (i: nat)
    ensures i <= |rules|
    ensures i < |rules| ==> Decide(glob, rules[i], target, capability, context) != Passes
    ensures forall j | 0 <= j < i :: Decide(glob, rules[j], target, capability, context) == Passes
  {
    if rules == [] then 0
    else if Decide(glob, rules[0], target, capability, context) != Passes then 0
    else 1 + FirstDecisive(glob, rules[1..], target, capability, context)
  }

  /** The answer given by a list of rules: the first decisive one decides. */
  function Verdict(glob: Glob, rules: seq<Rule>, target: string, capability: string, context: Context): Evaluation {
    var i := FirstDecisive(glob, rules, target, capability, context);
    if i == |rules| then Evaluation(false, "", "no matching policy rule found")
    else if Decide(glob, rules[i], target, capability, context) == Denies then
      Evaluation(false, rules[i].path, "explicitly denied by policy")
    else Evaluation(true, rules[i].path, "")
  }

  function Evaluated(
    glob: Glob, policies: map<string, Policy>, names: seq<string>, target: string, capability: string, context: Context)
    : Evaluation
  {
    if names == [] then Evaluation(false, "", "no policies attached")
    else Verdict(glob, Flatten(policies, names), target, capability, context)
  }

  lemma {:induction false} FlattenAppend(policies: map<string, Policy>, a: seq<string>, b: seq<string>)
    ensures Flatten(policies, a + b) == Flatten(policies, a) + Flatten(policies, b)
    decreases |a|
  {
    if a == [] {
      assert a + b == b;
    } else {
      assert (a + b)[1..] == a[1..] + b;
      FlattenAppend(policies, a[1..], b);
      assert (a + b)[0] == a[0];
      Associative(if a[0] in policies then policies[a[0]].rules else [], Flatten(policies, a[1..]), Flatten(policies, b));
    }
  }

  lemma {:induction false} DecisiveAppend(
    glob: Glob, a: seq<Rule>, b: seq<Rule>, target: string, capability: string, context: Context)
    ensures var i := FirstDecisive(glob, a, target, capability, context);
      FirstDecisive(glob, a + b, target, capability, context)
        == if i < |a| then i else |a| + FirstDecisive(glob, b, target, capability, context)
    decreases |a|
  {
    hide Decide;
    if a == [] {
      assert a + b == b;
    } else {
      assert (a + b)[0] == a[0] && (a + b)[1..] == a[1..] + b;
      DecisiveAppend(glob, a[1..], b, target, capability, context);
    }
  }

  // ---------------------------------------------------------------- results

  /** Rule `i` grants the request and every rule before it passes. */
  ghost predicate GrantedBy(glob: Glob, rules: seq<Rule>, i: nat, target: string, capability: string, context: Context) {
    && i < |rules| && Decide(glob, rules[i], target, capability, context) == Grants
    && forall j | 0 <= j < i :: Decide(glob, rules[j], target, capability, context) == Passes
  }

  /** Some rule grants the request and every rule before it passes. */
  ghost predicate Granted(glob: Glob, rules: seq<Rule>, target: string, capability: string, context: Context) {
    exists i: nat :: GrantedBy(glob, rules, i, target, capability, context)
  }

  lemma VerdictExactly(glob: Glob, rules: seq<Rule>, target: string, capability: string, context: Context)
    ensures Verdict(glob, rules, target, capability, context).allowed <==>
      Granted(glob, rules, target, capability, context)
  {
    hide Decide;
    var first := FirstDecisive(glob, rules, target, capability, context);
    forall i: nat | GrantedBy(glob, rules, i, target, capability, context) ensures i == first {}
    if Verdict(glob, rules, target, capability, context).allowed {
      assert GrantedBy(glob, rules, first, target, capability, context);
    }
  }

  /** A request is allowed exactly when, in the flattened rule list, some rule grants it and
      every rule before that one passes. */
  lemma AllowedExactly(
    glob: Glob, policies: map<string, Policy>, names: seq<string>, target: string, capability: string, context: Context)
    ensures Evaluated(glob, policies, names, target, capability, context).allowed <==>
      Granted(glob, Flatten(policies, names), target, capability, context)
  {
    hide Verdict, Decide;
    if names != [] {
      hide Flatten;
      VerdictExactly(glob, Flatten(policies, names), target, capability, context);
    }
  }

  /** Once some rule decides, further policy names change nothing. */
  lemma DecidedIsFinal(
    glob: Glob, policies: map<string, Policy>, names: seq<string>, more: seq<string>,
    target: string, capability: string, context: Context)
    requires var rules := Flatten(policies, names);
      FirstDecisive(glob, rules, target, capability, context) < |rules|
    ensures Evaluated(glob, policies, names + more, target, capability, context)
         == Evaluated(glob, policies, names, target, capability, context)
  {
    hide Decide;
    FlattenAppend(policies, names, more);
    DecisiveAppend(glob, Flatten(policies, names), Flatten(policies, more), target, capability, context);
  }

  ghost predicate Extends(bigger: Context, smaller: Context) {
    forall key | key in smaller :: key in bigger && bigger[key] == smaller[key]
  }

  /** More context can turn a passing rule into a granting one and nothing else. */
  lemma DecideMonotone(glob: Glob, rule: Rule, target: string, capability: string, context: Context, more: Context)
    requires Extends(more, context)
    ensures Decide(glob, rule, target, capability, more) == Decide(glob, rule, target, capability, context)
         || (Decide(glob, rule, target, capability, context) == Passes
             && Decide(glob, rule, target, capability, more) == Grants)
  {
    hide Matches;
  }

  /** What is allowed under a context is allowed under every extension of it. */
  lemma {:induction false} VerdictMonotone(
    glob: Glob, rules: seq<Rule>, target: string, capability: string, context: Context, more: Context)
    requires Extends(more, context) && Verdict(glob, rules, target, capability, context).allowed
    ensures Verdict(glob, rules, target, capability, more).allowed
    decreases |rules|
  {
    hide Decide, Extends;
    DecideMonotone(glob, rules[0], target, capability, context, more);
    if Decide(glob, rules[0], target, capability, more) == Passes {
      VerdictMonotone(glob, rules[1..], target, capability, context, more);
    }
  }

  /** In particular, what Check allows (with no context) Evaluate allows under any context. */
  lemma ContextMonotonicity(
    glob: Glob, policies: map<string, Policy>, names: seq<string>, target: string, capability: string,
    context: Context, more: Context)
    requires Extends(more, context) && Evaluated(glob, policies, names, target, capability, context).allowed
    ensures Evaluated(glob, policies, names, target, capability, more).allowed
  {
    hide Verdict;
    VerdictMonotone(glob, Flatten(policies, names), target, capability, context, more);
  }

  // ---------------------------------------------------------------- slashes

  function Slashes(n: nat): string { seq(n, _ => '/') }

  lemma {:induction false} TrimLeftSlashes(n: nat, s: string)
    ensures TrimLeft(Slashes(n) + s) == TrimLeft(s)
  {
    if n == 0 {
      assert Slashes(0) + s == s;
    } else {
      TrimLeftSlashes(n - 1, s);
      assert (Slashes(n) + s)[1..] == Slashes(n - 1) + s;
    }
  }

  lemma {:induction false} TrimRightSlashes(s: string, n: nat)
    ensures TrimRight(s + Slashes(n)) == TrimRight(s)
  {
    if n == 0 {
      assert s + Slashes(0) == s;
    } else {
      TrimRightSlashes(s, n - 1);
      var t := s + Slashes(n);
      assert t[..|t| - 1] == s + Slashes(n - 1);
    }
  }

  lemma {:induction false} TrimLeftThenRight(s: string, n: nat)
    ensures Trim(s + Slashes(n)) == Trim(s)
    decreases |s|
  {
    if s == [] {
      assert s + Slashes(n) == Slashes(n) + [];
      TrimLeftSlashes(n, []);
    } else if s[0] == '/' {
      assert (s + Slashes(n))[1..] == s[1..] + Slashes(n);
      TrimLeftThenRight(s[1..], n);
    } else {
      assert TrimLeft(s + Slashes(n)) == s + Slashes(n);
      TrimRightSlashes(s, n);
    }
  }

  lemma {:induction false} LeftSlashes(s: string) returns (n: nat)
    ensures s == Slashes(n) + TrimLeft(s)
    ensures TrimLeft(s) != [] ==> TrimLeft(s)[0] != '/'
    decreases |s|
  {
    n := 0;
    if s != [] && s[0] == '/' {
      var m := LeftSlashes(s[1..]);
      n := m + 1;
      assert Slashes(n) == ['/'] + Slashes(m);
      assert s == ['/'] + s[1..];
    }
  }

  lemma {:induction false} RightSlashes(s: string) returns (n: nat)
    ensures s == TrimRight(s) + Slashes(n)
    ensures TrimRight(s) != [] ==> TrimRight(s)[|TrimRight(s)| - 1] != '/'
    decreases |s|
  {
    n := 0;
    if s != [] && s[|s| - 1] == '/' {
      var m := RightSlashes(s[..|s| - 1]);
      n := m + 1;
      assert Slashes(n) == Slashes(m) + ['/'];
      assert s == s[..|s| - 1] + ['/'];
    }
  }

  /** Trim takes slashes from both ends, all of them and nothing else. */
  lemma TrimExactly(s: string) returns (a: nat, b: nat)
    ensures s == Slashes(a) + Trim(s) + Slashes(b)
    ensures var t := Trim(s); t != [] ==> t[0] != '/' && t[|t| - 1] != '/'
  {
    a := LeftSlashes(s);
    b := RightSlashes(TrimLeft(s));
    assert Slashes(a) + (Trim(s) + Slashes(b)) == Slashes(a) + Trim(s) + Slashes(b);
    var l, t := TrimLeft(s), Trim(s);
    assert t != [] ==> l[0] == t[0];
  }

  /** Leading and trailing slashes of a path are immaterial. */
  lemma TrimPadded(a: nat, s: string, b: nat)
    ensures Trim(Slashes(a) + s + Slashes(b)) == Trim(s)
  {
    assert Slashes(a) + s + Slashes(b) == Slashes(a) + (s + Slashes(b));
    TrimLeftSlashes(a, s + Slashes(b));
    TrimLeftThenRight(s, b);
  }

  /** Same rules up to slashes around their paths. */
  ghost predicate SameRules(a: seq<Rule>, b: seq<Rule>) {
    |a| == |b| && forall i | 0 <= i < |a| ::
      && Trim(a[i].path) == Trim(b[i].path)
      && a[i].capabilities == b[i].capabilities && a[i].conditions == b[i].conditions
  }

  ghost predicate SamePolicies(a: map<string, Policy>, b: map<string, Policy>) {
    a.Keys == b.Keys && forall name | name in a :: SameRules(a[name].rules, b[name].rules)
  }

  lemma SameAppend(a: seq<Rule>, b: seq<Rule>, c: seq<Rule>, d: seq<Rule>)
    requires SameRules(a, b) && SameRules(c, d)
    ensures SameRules(a + c, b + d)
  {
    hide Trim;
  }

  lemma {:induction false} FlattenSame(a: map<string, Policy>, b: map<string, Policy>, names: seq<string>)
    requires SamePolicies(a, b)
    ensures SameRules(Flatten(a, names), Flatten(b, names))
    decreases |names|
  {
    hide Trim;
    if names != [] {
      FlattenSame(a, b, names[1..]);
      if names[0] in a {
        hide SameRules;
        SameAppend(a[names[0]].rules, b[names[0]].rules, Flatten(a, names[1..]), Flatten(b, names[1..]));
      }
    }
  }

  lemma {:induction false} FirstDecisiveSame(
    glob: Glob, a: seq<Rule>, b: seq<Rule>, s: string, t: string, capability: string, context: Context)
    requires SameRules(a, b) && Trim(s) == Trim(t)
    ensures FirstDecisive(glob, a, s, capability, context) == FirstDecisive(glob, b, t, capability, context)
    decreases |a|
  {
    hide MatchesTrimmed, Trim;
    if a != [] {
      FirstDecisiveSame(glob, a[1..], b[1..], s, t, capability, context);
    }
  }

  /** Slashes around the target path or around any rule path do not change the outcome; only
      the text of the matched rule is quoted as written. */
  lemma SlashesAreImmaterial(
    glob: Glob, a: map<string, Policy>, b: map<string, Policy>, names: seq<string>, s: string, t: string,
    capability: string, context: Context)
    requires SamePolicies(a, b) && Trim(s) == Trim(t)
    ensures var x := Evaluated(glob, a, names, s, capability, context);
      var y := Evaluated(glob, b, names, t, capability, context);
      x.allowed == y.allowed && x.denialReason == y.denialReason && Trim(x.matchedRule) == Trim(y.matchedRule)
  {
    hide MatchesTrimmed, Trim;
    FlattenSame(a, b, names);
    FirstDecisiveSame(glob, Flatten(a, names), Flatten(b, names), s, t, capability, context);
  }

  // ---------------------------------------------------------------- the evaluator

  method HasCapability(capabilities: seq<string>, wanted: string) returns (found: bool)
    ensures found <==> wanted in capabilities
  {
    for i := 0 to |capabilities|
      invariant wanted !in capabilities[..i]
    {
      if capabilities[i] == wanted {
        return true;
      }
    }
    return false;
  }

  /** Visits the conditions in some order. */
  method CheckConditions(conditions: map<string, string>, context: Context) returns (met: bool)
    ensures met <==> ConditionsMet(conditions, context)
  {
    var rest := conditions.Keys;
    while rest != {}
      invariant rest <= conditions.Keys
      invariant forall key | key in conditions.Keys - rest :: key in context && context[key] == conditions[key]
      decreases |rest|
    {
      var key :| key in rest;
      if key !in context || context[key] != conditions[key] {
        return false;
      }
      rest := rest - {key};
    }
    return true;
  }

  method PathMatches(glob: Glob, pattern0: string, target0: string) returns (r: bool)
    ensures r <==> Matches(glob, pattern0, target0)
  {
    hide Trim, Split;
    var pattern, target := Trim(pattern0), Trim(target0);
    if HasSuffix(pattern, "**") {
      var prefix := TrimSuffix(TrimSuffix(pattern, "**"), "/");
      return prefix <= target;
    }
    if '*' in pattern {
      var patternParts, targetParts := Split(pattern, '/'), Split(target, '/');
      if |patternParts| != |targetParts| {
        return false;
      }
      for i := 0 to |patternParts|
        invariant forall j | 0 <= j < i :: patternParts[j] == "*" || patternParts[j] == targetParts[j]
      {
        if patternParts[i] != "*" && patternParts[i] != targetParts[i] {
          return false;
        }
      }
      return true;
    }
    return pattern == target || glob(pattern, target);
  }

  /** A decisive rule after passing ones settles the verdict, whatever follows. */
  lemma Settled(
    glob: Glob, before: seq<Rule>, rule: Rule, after: seq<Rule>, target: string, capability: string, context: Context)
    requires FirstDecisive(glob, before, target, capability, context) == |before|
    requires Decide(glob, rule, target, capability, context) != Passes
    ensures Verdict(glob, before + [rule] + after, target, capability, context)
      == if Decide(glob, rule, target, capability, context) == Denies
         then Evaluation(false, rule.path, "explicitly denied by policy")
         else Evaluation(true, rule.path, "")
  {
    hide Decide;
    var rules := before + [rule] + after;
    Associative(before, [rule], after);
    DecisiveAppend(glob, before, [rule] + after, target, capability, context);
    assert rules[|before|] == rule;
  }

  lemma AllPass(glob: Glob, rules: seq<Rule>, target: string, capability: string, context: Context)
    requires FirstDecisive(glob, rules, target, capability, context) == |rules|
    ensures Verdict(glob, rules, target, capability, context) == Evaluation(false, "", "no matching policy rule found")
  {}

  lemma PassOver(
    glob: Glob, before: seq<Rule>, rule: Rule, target: string, capability: string, context: Context)
    requires FirstDecisive(glob, before, target, capability, context) == |before|
    requires Decide(glob, rule, target, capability, context) == Passes
    ensures FirstDecisive(glob, before + [rule], target, capability, context) == |before| + 1
  {
    hide Decide;
    DecisiveAppend(glob, before, [rule], target, capability, context);
  }

  class Evaluator {
    const glob: Glob
    var policies: map<string, Policy>

    /** A new evaluator knows the default policy only. */
    constructor (glob: Glob)
      ensures this.glob == glob
      ensures policies == map["default" := Policy("default", DefaultRules, "Default policy with basic access")]
    {
      this.glob := glob;
      policies := map["default" := Policy("default", DefaultRules, "Default policy with basic access")];
    }

    method AddPolicy(policy: Policy)
      modifies this
      ensures policies == old(policies)[policy.name := policy]
    {
      policies := policies[policy.name := policy];
    }

    method RemovePolicy(name: string) returns (found: bool)
      modifies this
      ensures found <==> name in old(policies)
      ensures policies == old(policies) - {name}
    {
      if name !in policies {
        return false;
      }
      policies := policies - {name};
      return true;
    }

    /** One rule of the inner loop. */
    method ConsultRule(rule: Rule, target: string, capability: string, context: Context) returns (d: Decision)
      ensures d == Decide(glob, rule, target, capability, context)
    {
      hide Matches, ConditionsMet;
      var applies := PathMatches(glob, rule.path, target);
      if !applies {
        return Passes;
      }
      var deny := HasCapability(rule.capabilities, DENY);
      if deny {
        return Denies;
      }
      var sudo := HasCapability(rule.capabilities, SUDO);
      if sudo {
        return Grants;
      }
      var has := HasCapability(rule.capabilities, capability);
      if has {
        var met := CheckConditions(rule.conditions, context);
        if !met {
          return Passes;
        }
        return Grants;
      }
      return Passes;
    }

    method Evaluate(names: seq<string>, target: string, capability: string, context: Context) returns (r: Evaluation)
      ensures r == Evaluated(glob, policies, names, target, capability, context)
    {
      hide Decide, Verdict;
      if |names| == 0 {
        return Evaluation(false, "", "no policies attached");
      }
      ghost var done: seq<Rule> := [];
      for n := 0 to |names|
        invariant Flatten(policies, names) == done + Flatten(policies, names[n..])
        invariant FirstDecisive(glob, done, target, capability, context) == |done|
      {
        assert names[n..][1..] == names[n + 1..];
        if names[n] !in policies {
          assert [] + Flatten(policies, names[n + 1..]) == Flatten(policies, names[n + 1..]);
          continue;
        }
        var rules := policies[names[n]].rules;
        ghost var rest := Flatten(policies, names[n + 1..]);
        var decided, answer := ScanRules(rules, target, capability, context, done, rest);
        Associative(done, rules, rest);
        if decided {
          return answer;
        }
        done := done + rules;
      }
      assert names[|names|..] == [];
      assert Flatten(policies, names) == done by { assert done + [] == done; }
      AllPass(glob, done, target, capability, context);
      return Evaluation(false, "", "no matching policy rule found");
    }

    /** The inner loop over one policy's rules: `done` passed before, `rest` is still to come. */
    method ScanRules(
      rules: seq<Rule>, target: string, capability: string, context: Context, ghost done: seq<Rule>, ghost rest: seq<Rule>)
      returns (decided: bool, answer: Evaluation)
      requires FirstDecisive(glob, done, target, capability, context) == |done|
      ensures decided ==> answer == Verdict(glob, done + rules + rest, target, capability, context)
      ensures !decided ==> FirstDecisive(glob, done + rules, target, capability, context) == |done + rules|
    {
      hide Decide, Verdict, FirstDecisive;
      ghost var seen := done;
      for k := 0 to |rules|
        invariant seen == done + rules[..k]
        invariant FirstDecisive(glob, seen, target, capability, context) == |seen|
      {
        var d := ConsultRule(rules[k], target, capability, context);
        if d != Passes {
          ghost var after := rules[k + 1..] + rest;
          Settled(glob, seen, rules[k], after, target, capability, context);
          assert seen + [rules[k]] + after == done + rules + rest;
          return true, if d == Denies then Evaluation(false, rules[k].path, "explicitly denied by policy")
                       else Evaluation(true, rules[k].path, "");
        }
        PassOver(glob, seen, rules[k], target, capability, context);
        seen := seen + [rules[k]];
        assert seen == done + rules[..k + 1];
      }
      assert rules[..|rules|] == rules;
      return false, Evaluation(false, "", "no matching policy rule found");
    }

    method Check(names: seq<string>, target: string, capability: string) returns (allowed: bool)
      ensures allowed <==> Evaluated(glob, policies, names, target, capability, map[]).allowed
    {
      var r := Evaluate(names, target, capability, map[]);
      return r.allowed;
    }
  }

  const DefaultRules: seq<Rule> := [
    Rule("auth/token/lookup-self", ["read"], map[]),
    Rule("auth/token/renew-self", ["update"], map[]),
    Rule("auth/token/revoke-self", ["update"], map[])]
}
