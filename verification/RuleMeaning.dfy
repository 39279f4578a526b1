/** What an evaluation means in terms of the policies as written: which rule of which policy
    decides, by its path, its capabilities and its conditions, and with what answer. */
module RuleMeaning {
  import opened Text
  import opened AclPolicy

  /** What is asked: a capability on a path, in a context. */
  datatype Request = Request(target: string, capability: string, context: Context)

  predicate Forbids(glob: Glob, rule: Rule, q: Request) {
    Matches(glob, rule.path, q.target) && "deny" in rule.capabilities
  }

  /** A rule with `sudo` permits everything; another permits its capabilities, provided that
      every condition holds in the context. Neither does if the rule also denies. */
  predicate Permits(glob: Glob, rule: Rule, q: Request) {
    && Matches(glob, rule.path, q.target) && "deny" !in rule.capabilities
    && ("sudo" in rule.capabilities ||
        (q.capability in rule.capabilities &&
         forall key | key in rule.conditions :: key in q.context && q.context[key] == rule.conditions[key]))
  }

  predicate Silent(glob: Glob, rule: Rule, q: Request) {
    !Forbids(glob, rule, q) && !Permits(glob, rule, q)
  }

  lemma DecideMeans(glob: Glob, rule: Rule, q: Request)
    ensures Decide(glob, rule, q.target, q.capability, q.context)
      == if Forbids(glob, rule, q) then Denies else if Permits(glob, rule, q) then Grants else Passes
  {
    hide Matches;
  }

  // ---------------------------------------------------------------- positions

  type Policies = map<string, Policy>

  /** There is a rule `k` in the policy named in place `n`. */
  predicate IsRule(policies: Policies, names: seq<string>, n: nat, k: nat) {
    n < |names| && names[n] in policies && k < |policies[names[n]].rules|
  }

  function RuleAt(policies: Policies, names: seq<string>, n: nat, k: nat): Rule
    requires IsRule(policies, names, n, k)
  {
    policies[names[n]].rules[k]
  }

  /** The rule is silent, or there is none at that place. */
  predicate SilentAt(glob: Glob, policies: Policies, names: seq<string>, q: Request, n: nat, k: nat) {
    IsRule(policies, names, n, k) ==> Silent(glob, RuleAt(policies, names, n, k), q)
  }

  /** The rule is not silent, and all rules are that come before it: those of the policies
      named earlier and the earlier ones of its own policy. */
  ghost predicate Decisive(glob: Glob, policies: Policies, names: seq<string>, q: Request, n: nat, k: nat) {
    && IsRule(policies, names, n, k) && !Silent(glob, RuleAt(policies, names, n, k), q)
    && (forall i: nat, j: nat | i < n || (i == n && j < k) :: SilentAt(glob, policies, names, q, i, j))
  }

  ghost predicate AllSilent(glob: Glob, policies: Policies, names: seq<string>, q: Request) {
    forall i: nat, j: nat :: SilentAt(glob, policies, names, q, i, j)
  }

  function FirstRules(policies: Policies, names: seq<string>): seq<Rule>
    requires names != []
  {
    if names[0] in policies then policies[names[0]].rules else []
  }

  /** The rules of the first policy named are passed over when they are silent. */
  lemma SkipFirst(glob: Glob, policies: Policies, names: seq<string>, q: Request)
    requires names != [] && forall j: nat :: SilentAt(glob, policies, names, q, 0, j)
    ensures Verdict(glob, Flatten(policies, names), q.target, q.capability, q.context)
      == Verdict(glob, Flatten(policies, names[1..]), q.target, q.capability, q.context)
  {
    hide Decide, Silent;
    var first, rest := FirstRules(policies, names), Flatten(policies, names[1..]);
    forall j | 0 <= j < |first| ensures Decide(glob, first[j], q.target, q.capability, q.context) == Passes {
      assert SilentAt(glob, policies, names, q, 0, j);
      DecideSilent(glob, first[j], q);
    }
    assert FirstDecisive(glob, first, q.target, q.capability, q.context) == |first|;
    DecisiveAppend(glob, first, rest, q.target, q.capability, q.context);
    assert Flatten(policies, names) == first + rest;
  }

  lemma DecideSilent(glob: Glob, rule: Rule, q: Request)
    ensures Decide(glob, rule, q.target, q.capability, q.context) == Passes <==> Silent(glob, rule, q)
  {
    hide Forbids, Permits, Decide;
    DecideMeans(glob, rule, q);
  }

  lemma ShiftSilent(glob: Glob, policies: Policies, names: seq<string>, q: Request, n: nat, k: nat)
    requires names != []
    ensures SilentAt(glob, policies, names[1..], q, n, k) <==> SilentAt(glob, policies, names, q, n + 1, k)
    ensures IsRule(policies, names[1..], n, k) <==> IsRule(policies, names, n + 1, k)
    ensures IsRule(policies, names[1..], n, k) ==> RuleAt(policies, names[1..], n, k) == RuleAt(policies, names, n + 1, k)
  {
    hide Silent;
  }

  lemma ShiftDecisive(glob: Glob, policies: Policies, names: seq<string>, q: Request, n: nat, k: nat)
    requires names != [] && forall j: nat :: SilentAt(glob, policies, names, q, 0, j)
    ensures Decisive(glob, policies, names[1..], q, n, k) <==> Decisive(glob, policies, names, q, n + 1, k)
  {
    hide SilentAt, IsRule, RuleAt, Silent;
    ShiftSilent(glob, policies, names, q, n, k);
    forall i: nat, j: nat ensures SilentAt(glob, policies, names[1..], q, i, j) <==> SilentAt(glob, policies, names, q, i + 1, j) {
      ShiftSilent(glob, policies, names, q, i, j);
    }
    if Decisive(glob, policies, names[1..], q, n, k) {
      forall i: nat, j: nat | i < n + 1 || (i == n + 1 && j < k) ensures SilentAt(glob, policies, names, q, i, j) {
        if i > 0 {
          assert SilentAt(glob, policies, names[1..], q, i - 1, j);
        }
      }
    }
  }

  // ---------------------------------------------------------------- results

  /** The answer that a rule gives when it decides. */
  function Answer(glob: Glob, rule: Rule, q: Request): Evaluation {
    if Forbids(glob, rule, q) then Evaluation(false, rule.path, "explicitly denied by policy")
    else Evaluation(true, rule.path, "")
  }

  lemma {:induction false} DecisiveVerdict(glob: Glob, policies: Policies, names: seq<string>, q: Request, n: nat, k: nat)
    requires Decisive(glob, policies, names, q, n, k)
    ensures Verdict(glob, Flatten(policies, names), q.target, q.capability, q.context)
      == Answer(glob, RuleAt(policies, names, n, k), q)
    decreases |names|
  {
    hide Decide, Verdict, Silent, Forbids, Permits;
    if n == 0 {
      var rules, rest := FirstRules(policies, names), Flatten(policies, names[1..]);
      forall j | 0 <= j < k ensures Decide(glob, rules[..k][j], q.target, q.capability, q.context) == Passes {
        assert SilentAt(glob, policies, names, q, 0, j);
        DecideSilent(glob, rules[j], q);
      }
      assert FirstDecisive(glob, rules[..k], q.target, q.capability, q.context) == k;
      DecideSilent(glob, rules[k], q);
      DecideMeans(glob, rules[k], q);
      Settled(glob, rules[..k], rules[k], rules[k + 1..] + rest, q.target, q.capability, q.context);
      assert rules[..k] + [rules[k]] + (rules[k + 1..] + rest) == rules + rest;
    } else {
      assert forall j: nat :: SilentAt(glob, policies, names, q, 0, j);
      SkipFirst(glob, policies, names, q);
      ShiftDecisive(glob, policies, names, q, n - 1, k);
      ShiftSilent(glob, policies, names, q, n - 1, k);
      DecisiveVerdict(glob, policies, names[1..], q, n - 1, k);
    }
  }

  lemma {:induction false} SilentVerdict(glob: Glob, policies: Policies, names: seq<string>, q: Request)
    requires AllSilent(glob, policies, names, q)
    ensures Verdict(glob, Flatten(policies, names), q.target, q.capability, q.context)
      == Evaluation(false, "", "no matching policy rule found")
    decreases |names|
  {
    hide SilentAt, Decide;
    if names != [] {
      forall i: nat, j: nat ensures SilentAt(glob, policies, names[1..], q, i, j) {
        ShiftSilent(glob, policies, names, q, i, j);
        assert SilentAt(glob, policies, names, q, i + 1, j);
      }
      SkipFirst(glob, policies, names, q);
      SilentVerdict(glob, policies, names[1..], q);
    }
  }

  /** Either all rules are silent or there is a decisive one. */
  lemma {:induction false} SomeDecisive(glob: Glob, policies: Policies, names: seq<string>, q: Request)
    returns (n: nat, k: nat)
    ensures AllSilent(glob, policies, names, q) || Decisive(glob, policies, names, q, n, k)
    decreases |names|
  {
    n, k := 0, 0;
    if names != [] {
      k := FirstLoud(glob, FirstRules(policies, names), q);
      if k < |FirstRules(policies, names)| {
        assert Decisive(glob, policies, names, q, 0, k);
      } else {
        assert forall j: nat :: SilentAt(glob, policies, names, q, 0, j);
        var m: nat;
        m, k := SomeDecisive(glob, policies, names[1..], q);
        n := m + 1;
        ShiftDecisive(glob, policies, names, q, m, k);
        if AllSilent(glob, policies, names[1..], q) {
          AllShifted(glob, policies, names, q);
        }
      }
    }
  }

  lemma AllShifted(glob: Glob, policies: Policies, names: seq<string>, q: Request)
    requires names != [] && AllSilent(glob, policies, names[1..], q)
    requires forall j: nat :: SilentAt(glob, policies, names, q, 0, j)
    ensures AllSilent(glob, policies, names, q)
  {
    hide SilentAt;
    forall i: nat, j: nat ensures SilentAt(glob, policies, names, q, i, j) {
      if i > 0 {
        assert SilentAt(glob, policies, names[1..], q, i - 1, j);
        ShiftSilent(glob, policies, names, q, i - 1, j);
      }
    }
  }

  lemma {:induction false} FirstLoud(glob: Glob, rules: seq<Rule>, q: Request) returns (k: nat)
    ensures k <= |rules| && (k < |rules| ==> !Silent(glob, rules[k], q))
    ensures forall j | 0 <= j < k :: Silent(glob, rules[j], q)
    decreases |rules|
  {
    hide Silent;
    k := 0;
    if rules != [] && Silent(glob, rules[0], q) {
      var i := FirstLoud(glob, rules[1..], q);
      k := i + 1;
      forall j | 0 <= j < k ensures Silent(glob, rules[j], q) {
        if j > 0 {
          assert rules[j] == rules[1..][j - 1];
        }
      }
    }
  }

  /** Some rule that comes after silent ones only permits, or forbids, the request. */
  ghost predicate Permitted(glob: Glob, policies: Policies, names: seq<string>, q: Request) {
    exists n: nat, k: nat :: Decisive(glob, policies, names, q, n, k) && Permits(glob, RuleAt(policies, names, n, k), q)
  }

  ghost predicate Forbidden(glob: Glob, policies: Policies, names: seq<string>, q: Request) {
    exists n: nat, k: nat :: Decisive(glob, policies, names, q, n, k) && Forbids(glob, RuleAt(policies, names, n, k), q)
  }

  /** Evaluate, for every request and every set of policies: the first rule, by the order of
      the names and then of the rules, that is not silent gives the answer. The request is
      allowed exactly when that rule permits it, denied explicitly exactly when it forbids it,
      and otherwise refused for want of names or of a rule. */
  lemma EvaluatedExactly(glob: Glob, policies: Policies, names: seq<string>, q: Request)
    ensures var r := Evaluated(glob, policies, names, q.target, q.capability, q.context);
      && (r.allowed <==> Permitted(glob, policies, names, q))
      && (r.denialReason == "explicitly denied by policy" <==> Forbidden(glob, policies, names, q))
      && (forall n: nat, k: nat | Decisive(glob, policies, names, q, n, k) ::
            r == Answer(glob, RuleAt(policies, names, n, k), q))
      && (AllSilent(glob, policies, names, q) ==>
            r == Evaluation(false, "", if names == [] then "no policies attached" else "no matching policy rule found"))
  {
    var r := Evaluated(glob, policies, names, q.target, q.capability, q.context);
    var n, k := SomeDecisive(glob, policies, names, q);
    Reasons();
    hide Verdict, Decide, Forbids, Permits, Flatten;
    forall i: nat, j: nat | Decisive(glob, policies, names, q, i, j)
      ensures r == Answer(glob, RuleAt(policies, names, i, j), q)
    {
      DecisiveVerdict(glob, policies, names, q, i, j);
    }
    if AllSilent(glob, policies, names, q) {
      SilentVerdict(glob, policies, names, q);
      assert !exists i: nat, j: nat :: Decisive(glob, policies, names, q, i, j) by {
        forall i: nat, j: nat ensures !Decisive(glob, policies, names, q, i, j) {
          assert SilentAt(glob, policies, names, q, i, j);
        }
      }
    } else {
      Exclusive(glob, RuleAt(policies, names, n, k), q);
    }
    forall i: nat, j: nat | Decisive(glob, policies, names, q, i, j) ensures
      Permits(glob, RuleAt(policies, names, i, j), q) <==> !Forbids(glob, RuleAt(policies, names, i, j), q)
    {
      Exclusive(glob, RuleAt(policies, names, i, j), q);
    }
  }

  // ---------------------------------------------------------------- the default policy

  /** A path without stars and without slashes around it. */
  predicate Plain(path: string) {
    path != [] && path[0] != '/' && path[|path| - 1] != '/' && '*' !in path
  }

  /** Without stars: the same path, or one that path.Match accepts. */
  predicate PlainMatch(glob: Glob, path: string, target: string) {
    path == Trim(target) || glob(path, Trim(target))
  }

  lemma PlainPath(glob: Glob, path: string, target: string)
    requires Plain(path)
    ensures Matches(glob, path, target) <==> PlainMatch(glob, path, target)
  {
    assert Trim(path) == path;
    assert path[|path| - 1] in path;
    assert |path| >= 2 ==> path[|path| - 2..][1] == path[|path| - 1];
  }

  /** A rule for one capability on a plain path, without conditions. */
  predicate Allows(glob: Glob, path: string, capability: string, q: Request) {
    PlainMatch(glob, path, q.target) && q.capability == capability
  }

  lemma PlainRule(glob: Glob, path: string, capability: string, q: Request)
    requires Plain(path) && capability != "deny" && capability != "sudo"
    ensures Decide(glob, Rule(path, [capability], map[]), q.target, q.capability, q.context)
      == if Allows(glob, path, capability, q) then Grants else Passes
  {
    hide Matches, PlainMatch, Plain;
    PlainPath(glob, path, q.target);
  }

  /** When no rule forbids, a request is granted as soon as some rule permits it. */
  lemma FirstGrant(glob: Glob, rules: seq<Rule>, q: Request)
    requires forall i | 0 <= i < |rules| :: Decide(glob, rules[i], q.target, q.capability, q.context) != Denies
    ensures Granted(glob, rules, q.target, q.capability, q.context) <==>
      exists i | 0 <= i < |rules| :: Decide(glob, rules[i], q.target, q.capability, q.context) == Grants
  {
    hide Decide;
    var first := FirstDecisive(glob, rules, q.target, q.capability, q.context);
    if first < |rules| {
      assert GrantedBy(glob, rules, first, q.target, q.capability, q.context);
    }
  }

  lemma ThreeRules(glob: Glob, a: Rule, b: Rule, c: Rule, description: string, q: Request)
    requires forall r | r in [a, b, c] :: Decide(glob, r, q.target, q.capability, q.context) != Denies
    ensures Evaluated(glob, map["default" := Policy("default", [a, b, c], description)], ["default"],
        q.target, q.capability, q.context).allowed <==>
      exists r | r in [a, b, c] :: Decide(glob, r, q.target, q.capability, q.context) == Grants
  {
    hide Decide, Verdict;
    var policies := map["default" := Policy("default", [a, b, c], description)];
    assert Flatten(policies, ["default"]) == [a, b, c] by { assert ["default"][1..] == []; }
    VerdictExactly(glob, [a, b, c], q.target, q.capability, q.context);
    FirstGrant(glob, [a, b, c], q);
    assert forall i | 0 <= i < 3 :: [a, b, c][i] in [a, b, c];
  }

  lemma PlainRules(
    glob: Glob, x: string, y: string, z: string, c: string, d: string, description: string, q: Request)
    requires Plain(x) && Plain(y) && Plain(z) && c !in {"deny", "sudo"} && d !in {"deny", "sudo"}
    ensures var rules := [Rule(x, [c], map[]), Rule(y, [d], map[]), Rule(z, [d], map[])];
      Evaluated(glob, map["default" := Policy("default", rules, description)], ["default"],
        q.target, q.capability, q.context).allowed <==>
      Allows(glob, x, c, q) || Allows(glob, y, d, q) || Allows(glob, z, d, q)
  {
    hide Plain, Allows, Decide, Evaluated;
    PlainRule(glob, x, c, q);
    PlainRule(glob, y, d, q);
    PlainRule(glob, z, d, q);
    ThreeRules(glob, Rule(x, [c], map[]), Rule(y, [d], map[]), Rule(z, [d], map[]), description, q);
  }

  lemma DefaultPaths()
    ensures Plain("auth/token/lookup-self") && Plain("auth/token/renew-self") && Plain("auth/token/revoke-self")
  {}

  /** The default policy permits the three token operations on oneself and nothing else. */
  lemma DefaultPolicy(glob: Glob, description: string, q: Request)
    ensures Evaluated(glob, map["default" := Policy("default", DefaultRules, description)], ["default"],
        q.target, q.capability, q.context).allowed <==>
      || Allows(glob, "auth/token/lookup-self", "read", q)
      || Allows(glob, "auth/token/renew-self", "update", q)
      || Allows(glob, "auth/token/revoke-self", "update", q)
  {
    DefaultPaths();
    hide Plain, Allows, Evaluated;
    PlainRules(glob, "auth/token/lookup-self", "auth/token/renew-self", "auth/token/revoke-self", "read", "update", description, q);
  }

  lemma Exclusive(glob: Glob, rule: Rule, q: Request)
    ensures !(Forbids(glob, rule, q) && Permits(glob, rule, q))
  {}

  /** The reasons are different texts. */
  lemma Reasons()
    ensures "explicitly denied by policy" != "no policies attached"
    ensures "explicitly denied by policy" != "no matching policy rule found" && "explicitly denied by policy" != ""
  {
    assert "explicitly denied by policy"[0] == 'e' && "no policies attached"[0] == 'n';
  }
}
