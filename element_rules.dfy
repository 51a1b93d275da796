/**
 * Rule resolution of the element-hiding feature: which rules apply to a
 * site, given the per-domain rule lists, the global rules and the
 * domain-level `override` rules that cancel rules by selector.
 */
module ElementRules {

  /** One element-hiding rule: a CSS selector and the rule type
      ("hide", "hide-empty", "closest-empty", "override" or anything else). */
  datatype Rule = Rule(selector: string, ruleType: string)

  /** One entry of the `domains` setting: a hostname pattern and its rules. */
  datatype DomainEntry = DomainEntry(domain: string, rules: seq<Rule>)

  const OverrideType: string := "override"

  /** True when `a` can be obtained from `b` by deleting elements,
      that is, `a` keeps the relative order of the elements it takes from `b`. */
  predicate IsSubsequence<T(==)>(a: seq<T>, b: seq<T>)
    decreases |b|
  {
    if a == [] then true
    else if b == [] then false
    else if a[0] == b[0] then IsSubsequence(a[1..], b[1..])
    else IsSubsequence(a, b[1..])
  }

  /** The rules of every entry whose domain matches the site, flattened in
      entry order; `matchHostname` stands for the hostname matcher. */
  function ActiveDomainRules(entries: seq<DomainEntry>, site: string,
                             matchHostname: (string, string) -> bool): (r: seq<Rule>)
    ensures forall x :: x in r <==>
      exists i :: 0 <= i < |entries| && matchHostname(site, entries[i].domain) && x in entries[i].rules
  {
    if entries == [] then []
    else
      var rest := ActiveDomainRules(entries[1..], site, matchHostname);
      assert forall x :: x in rest <==>
        exists i :: 1 <= i < |entries| && matchHostname(site, entries[i].domain) && x in entries[i].rules
      by {
        forall x | x in rest ensures exists i :: 1 <= i < |entries| && matchHostname(site, entries[i].domain) && x in entries[i].rules {
          var j :| 0 <= j < |entries[1..]| && matchHostname(site, entries[1..][j].domain) && x in entries[1..][j].rules;
          assert entries[1..][j] == entries[j + 1];
        }
        forall x, i | 1 <= i < |entries| && matchHostname(site, entries[i].domain) && x in entries[i].rules ensures x in rest {
          assert entries[1..][i - 1] == entries[i];
        }
      }
      if matchHostname(site, entries[0].domain) then entries[0].rules + rest else rest
  }

  /** The domain-level rules whose type is `override`, in order. */
  function OverrideRules(rules: seq<Rule>): (r: seq<Rule>)
    ensures forall x :: x in r <==> x in rules && x.ruleType == OverrideType
  {
    if rules == [] then []
    else if rules[0].ruleType == OverrideType then [rules[0]] + OverrideRules(rules[1..])
    else OverrideRules(rules[1..])
  }

  /** The selectors of a list of rules. */
  function Selectors(rules: seq<Rule>): (s: set<string>)
    ensures forall sel :: sel in s <==> exists x :: x in rules && x.selector == sel
  {
    set x | x in rules :: x.selector
  }

  /** The rules whose selector is none of `removed`, in their original order. */
  function WithoutSelectors(rules: seq<Rule>, removed: set<string>): (r: seq<Rule>)
    ensures forall x :: x in r <==> x in rules && x.selector !in removed
  {
    if rules == [] then []
    else if rules[0].selector in removed then WithoutSelectors(rules[1..], removed)
    else [rules[0]] + WithoutSelectors(rules[1..], removed)
  }

  /** The rules `init` applies: matching domain rules then global rules,
      minus every rule sharing a selector with a domain override rule. */
  function Resolved(domainRules: seq<Rule>, globalRules: seq<Rule>): (r: seq<Rule>)
    ensures forall x :: x in r ==> x in domainRules || x in globalRules
    ensures forall x :: x in r ==> x.selector !in Selectors(OverrideRules(domainRules))
  {
    WithoutSelectors(domainRules + globalRules, Selectors(OverrideRules(domainRules)))
  }

  /** Rule resolution as `init` performs it: flatten the matching domain
      entries, append the global rules, then filter once per override rule. */
  method ResolveRules(entries: seq<DomainEntry>, site: string,
                      matchHostname: (string, string) -> bool,
                      globalRules: seq<Rule>) returns (activeRules: seq<Rule>)
    ensures activeRules == Resolved(ActiveDomainRules(entries, site, matchHostname), globalRules)
  {
    var activeDomainRules := ActiveDomainRules(entries, site, matchHostname);
    var overrideRules := OverrideRules(activeDomainRules);
    activeRules := activeDomainRules + globalRules;
    var i := 0;
    WithoutNothing(activeRules);
    assert Selectors(overrideRules[..0]) == {};
    while i < |overrideRules|
      invariant 0 <= i <= |overrideRules|
      invariant activeRules == WithoutSelectors(activeDomainRules + globalRules, Selectors(overrideRules[..i]))
    {
      var sel := overrideRules[i].selector;
      WithoutSelectorsTwice(activeDomainRules + globalRules, Selectors(overrideRules[..i]), sel);
      activeRules := WithoutSelectors(activeRules, {sel});
      assert overrideRules[..i + 1] == overrideRules[..i] + [overrideRules[i]];
      assert Selectors(overrideRules[..i + 1]) == Selectors(overrideRules[..i]) + {sel};
      i := i + 1;
    }
    assert overrideRules[..i] == overrideRules;
  }

  /** Filtering by one selector after filtering by a set is filtering by the larger set. */
  lemma {:induction false} WithoutSelectorsTwice(rules: seq<Rule>, removed: set<string>, sel: string)
    ensures WithoutSelectors(WithoutSelectors(rules, removed), {sel}) == WithoutSelectors(rules, removed + {sel})
  {
    if rules != [] {
      WithoutSelectorsTwice(rules[1..], removed, sel);
    }
  }

  /** Filtering distributes over concatenation. */
  lemma {:induction false} WithoutSelectorsConcat(a: seq<Rule>, b: seq<Rule>, removed: set<string>)
    ensures WithoutSelectors(a + b, removed) == WithoutSelectors(a, removed) + WithoutSelectors(b, removed)
  {
    if a == [] {
      assert a + b == b;
    } else {
      assert (a + b)[1..] == a[1..] + b;
      WithoutSelectorsConcat(a[1..], b, removed);
    }
  }

  /** Filtering keeps the relative order of the rules it keeps. */
  lemma {:induction false} WithoutSelectorsIsSubsequence(rules: seq<Rule>, removed: set<string>)
    ensures IsSubsequence(WithoutSelectors(rules, removed), rules)
  {
    if rules != [] {
      WithoutSelectorsIsSubsequence(rules[1..], removed);
      var r := WithoutSelectors(rules, removed);
      if rules[0].selector !in removed {
        assert r[0] == rules[0] && r[1..] == WithoutSelectors(rules[1..], removed);
      } else if r != [] {
        assert r[0] in r;
      }
    }
  }

  /** Filtering removes every copy of a removed rule and keeps every copy of the others. */
  lemma {:induction false} WithoutSelectorsCount(rules: seq<Rule>, removed: set<string>, x: Rule)
    ensures multiset(WithoutSelectors(rules, removed))[x] ==
            if x.selector in removed then 0 else multiset(rules)[x]
  {
    if rules != [] {
      WithoutSelectorsCount(rules[1..], removed, x);
      assert rules == [rules[0]] + rules[1..];
    }
  }

  /** The resolved list is the kept domain rules followed by the kept global
      rules, each in its original relative order. */
  lemma ResolvedOrder(domainRules: seq<Rule>, globalRules: seq<Rule>)
    ensures Resolved(domainRules, globalRules) ==
            WithoutSelectors(domainRules, Selectors(OverrideRules(domainRules))) +
            WithoutSelectors(globalRules, Selectors(OverrideRules(domainRules)))
    ensures IsSubsequence(WithoutSelectors(domainRules, Selectors(OverrideRules(domainRules))), domainRules)
    ensures IsSubsequence(WithoutSelectors(globalRules, Selectors(OverrideRules(domainRules))), globalRules)
  {
    var o := Selectors(OverrideRules(domainRules));
    WithoutSelectorsConcat(domainRules, globalRules, o);
    WithoutSelectorsIsSubsequence(domainRules, o);
    WithoutSelectorsIsSubsequence(globalRules, o);
  }

  /** No resolved rule shares its selector with a domain override rule (so the
      override rules themselves are gone); every other domain or global rule is
      kept, as many times as it occurs. */
  lemma ResolvedContents(domainRules: seq<Rule>, globalRules: seq<Rule>, x: Rule)
    ensures x in Resolved(domainRules, globalRules) <==>
            (x in domainRules || x in globalRules) &&
            forall o :: o in domainRules && o.ruleType == OverrideType ==> o.selector != x.selector
    ensures multiset(Resolved(domainRules, globalRules))[x] ==
            if exists o :: o in domainRules && o.ruleType == OverrideType && o.selector == x.selector
            then 0 else multiset(domainRules)[x] + multiset(globalRules)[x]
  {
    WithoutSelectorsCount(domainRules + globalRules, Selectors(OverrideRules(domainRules)), x);
    if exists o :: o in domainRules && o.ruleType == OverrideType && o.selector == x.selector {
      var o :| o in domainRules && o.ruleType == OverrideType && o.selector == x.selector;
      assert o in OverrideRules(domainRules);
    }
  }

  /** Only domain rules act as overrides: a global rule of type `override`
      removes nothing, and with no domain override everything is kept. */
  lemma GlobalOverridesIgnored(domainRules: seq<Rule>, globalRules: seq<Rule>)
    ensures (forall x :: x in domainRules ==> x.ruleType != OverrideType) ==>
            Resolved(domainRules, globalRules) == domainRules + globalRules
  {
    if forall x :: x in domainRules ==> x.ruleType != OverrideType {
      var o := OverrideRules(domainRules);
      assert Selectors(o) == {};
      WithoutNothing(domainRules + globalRules);
    }
  }

  /** Filtering by the empty set of selectors changes nothing. */
  lemma {:induction false} WithoutNothing(rules: seq<Rule>)
    ensures WithoutSelectors(rules, {}) == rules
  {
    if rules != [] {
      WithoutNothing(rules[1..]);
    }
  }

  /** Flattening distributes over the entry list, so matching entries
      contribute their rules in entry order. */
  lemma {:induction false} ActiveDomainRulesConcat(a: seq<DomainEntry>, b: seq<DomainEntry>, site: string,
                                                   matchHostname: (string, string) -> bool)
    ensures ActiveDomainRules(a + b, site, matchHostname) ==
            ActiveDomainRules(a, site, matchHostname) + ActiveDomainRules(b, site, matchHostname)
  {
    if a == [] {
      assert a + b == b;
    } else {
      assert (a + b)[1..] == a[1..] + b;
      ActiveDomainRulesConcat(a[1..], b, site, matchHostname);
    }
  }
}
