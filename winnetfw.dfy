/**
 * The firewall rule-store adapter of FWMFW::WinNetFW (Source/WinNetFW.cxx):
 * enumerating rules with optional filters, and adding and removing the
 * paired inbound/outbound block rules the tool owns.
 *
 * The Windows firewall's rule collection (INetFwRules) is modelled as a
 * `RuleStore` object holding the rules in enumeration order. Whether an
 * Add or Remove call succeeds is an oracle fixed with the store, and so
 * is whether new rule objects can be created at all. The FireWallPolicy
 * methods become module-level methods over that store: the policy object
 * itself only holds COM handles.
 */
module WinNetFW {
  import opened Wrappers
  import Utils

  /** NET_FW_RULE_DIRECTION. */
  datatype Direction = In | Out

  /** NET_FW_ACTION. */
  datatype Action = Block | Allow

  /** The attributes of a firewall rule that the adapter reads or writes. */
  datatype Rule = Rule(name: string, appName: string, direction: Direction, action: Action, enabled: bool, description: string)

  /** What aborts an add or remove pass. */
  datatype StoreFault =
    | RuleCreationFailed   // CoCreateInstance or QueryInterface for a new rule object failed
    | RuleNameOutOfRange   // substr(10) of a rule name shorter than ten characters threw

  const IN_RULE_NAME_PREFIX: string := "FWMFW_IN_"
  const OUT_RULE_NAME_PREFIX: string := "FWMFW_OUT_"
  /** wcsnlen_s(L"FWMFW_OUT_", 10), the length the removal strips from an outbound name. */
  const OUT_PREFIX_LENGTH: nat := 10
  const RULE_DESCRIPTION: string := "Blocked using FMWFW."

  // ---------------------------------------------------------------------
  // Naming convention
  // ---------------------------------------------------------------------

  function NamePrefix(direction: Direction): string
  {
    if direction == In then IN_RULE_NAME_PREFIX else OUT_RULE_NAME_PREFIX
  }

  /** The name addBlockRules gives the rule of `direction` for `key`. */
  function RuleName(direction: Direction, key: string): (name: string)
    ensures Utils.StartsWith(name, NamePrefix(direction))
    ensures name[|NamePrefix(direction)|..] == key
  {
    NamePrefix(direction) + key
  }

  /**
   * Only outbound names carry the outbound prefix, only inbound names the
   * inbound one, and the key is recovered by dropping the prefix.
   */
  lemma RuleNamePrefixes(direction: Direction, key: string)
    ensures Utils.StartsWith(RuleName(direction, key), OUT_RULE_NAME_PREFIX) <==> direction == Out
    ensures Utils.StartsWith(RuleName(direction, key), IN_RULE_NAME_PREFIX) <==> direction == In
    ensures RuleName(direction, key)[|NamePrefix(direction)|..] == key
  {
    assert (IN_RULE_NAME_PREFIX + key)[6] == 'I';
  }

  /** The rule addBlockRules creates for `appName` in `direction`: a blocking, enabled rule for that application. */
  function BlockRule(appName: string, key: string, direction: Direction): (rule: Rule)
    ensures rule.appName == appName && rule.direction == direction
    ensures rule.action == Block && rule.enabled && rule.description == RULE_DESCRIPTION
    ensures Utils.StartsWith(rule.name, NamePrefix(direction)) && rule.name[|NamePrefix(direction)|..] == key
  {
    Rule(RuleName(direction, key), appName, direction, Block, true, RULE_DESCRIPTION)
  }

  /**
   * The name removeBlockRules passes to Remove for `direction`: the given
   * name for the outbound rule, and for the inbound one "FWMFW_IN_"
   * followed by the given name without its first ten characters; `None`
   * when that substr throws because the name is shorter.
   */
  function RemovalName(ruleName: string, direction: Direction): (r: Option<string>)
    ensures direction == Out ==> r == Some(ruleName)
    ensures r.None? <==> direction == In && |ruleName| < OUT_PREFIX_LENGTH
    ensures direction == In && r.Some? ==>
      Utils.StartsWith(r.value, IN_RULE_NAME_PREFIX) && r.value[|IN_RULE_NAME_PREFIX|..] == ruleName[OUT_PREFIX_LENGTH..]
  {
    match direction
    case Out => Some(ruleName)
    case In => if |ruleName| < OUT_PREFIX_LENGTH then None else Some(IN_RULE_NAME_PREFIX + ruleName[OUT_PREFIX_LENGTH..])
  }

  /** Removing by an outbound name targets exactly the two names addBlockRules gave the entry. */
  lemma RemovalNameInvertsRuleName(key: string, direction: Direction)
    ensures RemovalName(RuleName(Out, key), direction) == Some(RuleName(direction, key))
  {
    assert RuleName(Out, key)[OUT_PREFIX_LENGTH..] == key;
  }

  /** Every name that starts with the outbound prefix can be given to removeBlockRules. */
  lemma OutNamesHaveRemovalNames(ruleName: string, direction: Direction)
    requires Utils.StartsWith(ruleName, OUT_RULE_NAME_PREFIX)
    ensures RemovalName(ruleName, direction).Some?
  {
  }

  // ---------------------------------------------------------------------
  // The rule store
  // ---------------------------------------------------------------------

  /** `rules` without every rule whose name is in `names`, order kept. */
  function WithoutNames(rules: seq<Rule>, names: set<string>): (r: seq<Rule>)
    ensures forall rule :: rule in r <==> rule in rules && rule.name !in names
    ensures |r| <= |rules|
  {
    if rules == [] then []
    else (if rules[0].name in names then [] else [rules[0]]) + WithoutNames(rules[1..], names)
  }

  /** Removing one set of names and then another is removing both at once. */
  lemma {:induction false} WithoutNamesTwice(rules: seq<Rule>, a: set<string>, b: set<string>)
    ensures WithoutNames(WithoutNames(rules, a), b) == WithoutNames(rules, a + b)
  {
    if rules != [] {
      WithoutNamesTwice(rules[1..], a, b);
      var rest := WithoutNames(rules[1..], a);
      if rules[0].name in a {
        assert WithoutNames(rules, a) == rest;
      } else {
        assert WithoutNames(rules, a) == [rules[0]] + rest;
        assert ([rules[0]] + rest)[0] == rules[0] && ([rules[0]] + rest)[1..] == rest;
      }
    }
  }

  /** Removing no names changes nothing. */
  lemma {:induction false} WithoutNoNames(rules: seq<Rule>)
    ensures WithoutNames(rules, {}) == rules
  {
    if rules != [] {
      WithoutNoNames(rules[1..]);
    }
  }

  /** The rule collection of the host firewall, with the outcomes of its operations. */
  class RuleStore {
    /** The rules, in the order the collection enumerates them. */
    var rules: seq<Rule>
    /** Whether a new rule object can be created (CoCreateInstance and QueryInterface succeed). */
    const canCreateRules: bool
    /** Whether INetFwRules::Add succeeds for a rule. */
    const addSucceeds: Rule -> bool
    /** Whether INetFwRules::Remove succeeds for a name. */
    const removeSucceeds: string -> bool

    constructor (rules: seq<Rule>, canCreateRules: bool, addSucceeds: Rule -> bool, removeSucceeds: string -> bool)
      ensures this.rules == rules && this.canCreateRules == canCreateRules
      ensures this.addSucceeds == addSucceeds && this.removeSucceeds == removeSucceeds
    {
      this.rules := rules;
      this.canCreateRules := canCreateRules;
      this.addSucceeds := addSucceeds;
      this.removeSucceeds := removeSucceeds;
    }

    /** INetFwRules::Add: on success the rule joins the end of the collection. */
    method Add(rule: Rule) returns (ok: bool)
      modifies this`rules
      ensures ok == addSucceeds(rule)
      ensures rules == if ok then old(rules) + [rule] else old(rules)
    {
      ok := addSucceeds(rule);
      if ok {
        rules := rules + [rule];
      }
    }

    /** INetFwRules::Remove: on success every rule of that name leaves the collection. */
    method Remove(name: string) returns (ok: bool)
      modifies this`rules
      ensures ok == removeSucceeds(name)
      ensures rules == if ok then WithoutNames(old(rules), {name}) else old(rules)
    {
      ok := removeSucceeds(name);
      if ok {
        rules := WithoutNames(rules, {name});
      }
    }
  }

  // ---------------------------------------------------------------------
  // FireWallPolicy::getRules
  // ---------------------------------------------------------------------

  /**
   * getRules keeps a rule when its name and application name are both
   * non-empty and every filter given accepts it. As in the code, the
   * second filter, though named for the application name, is applied to
   * the rule name.
   */
  predicate Accepts(rule: Rule, ruleNameFilter: Option<string -> bool>, appNameFilter: Option<string -> bool>): (b: bool)
    ensures |rule.name| == 0 || |rule.appName| == 0 ==> !b
    ensures ruleNameFilter.None? && appNameFilter.None? ==> (b <==> |rule.name| > 0 && |rule.appName| > 0)
    ensures b ==> appNameFilter.None? || appNameFilter.value(rule.name)
  {
    && |rule.name| > 0 && |rule.appName| > 0
    && (ruleNameFilter.None? || ruleNameFilter.value(rule.name))
    && (appNameFilter.None? || appNameFilter.value(rule.name))
  }

  /** `rule` is a rule for `appName` that getRules keeps. */
  predicate KeptFor(rule: Rule, appName: string, ruleNameFilter: Option<string -> bool>, appNameFilter: Option<string -> bool>)
  {
    rule.appName == appName && Accepts(rule, ruleNameFilter, appNameFilter)
  }

  /**
   * The map getRules returns for `rules`: application name to rule name
   * over the kept rules, a later rule overwriting an earlier one. Every
   * key and value is non-empty and every value passes the filters.
   */
  function Enumerate(rules: seq<Rule>, ruleNameFilter: Option<string -> bool>, appNameFilter: Option<string -> bool>): (m: map<string, string>)
    ensures forall app :: app in m ==>
      && |app| > 0 && |m[app]| > 0
      && (ruleNameFilter.None? || ruleNameFilter.value(m[app]))
      && (appNameFilter.None? || appNameFilter.value(m[app]))
  {
    if rules == [] then map[]
    else
      var m := Enumerate(rules[..|rules| - 1], ruleNameFilter, appNameFilter);
      var rule := rules[|rules| - 1];
      if Accepts(rule, ruleNameFilter, appNameFilter) then m[rule.appName := rule.name] else m
  }

  /** An application name is a key of the enumeration iff some kept rule names it. */
  lemma {:induction false} EnumerateKeys(rules: seq<Rule>, ruleNameFilter: Option<string -> bool>, appNameFilter: Option<string -> bool>, appName: string)
    ensures appName in Enumerate(rules, ruleNameFilter, appNameFilter) <==>
      exists i :: 0 <= i < |rules| && KeptFor(rules[i], appName, ruleNameFilter, appNameFilter)
  {
    if rules != [] {
      var n := |rules| - 1;
      var prefix := rules[..n];
      EnumerateKeys(prefix, ruleNameFilter, appNameFilter, appName);
      if KeptFor(rules[n], appName, ruleNameFilter, appNameFilter) {
      } else if appName in Enumerate(rules, ruleNameFilter, appNameFilter) {
        var i :| 0 <= i < n && KeptFor(prefix[i], appName, ruleNameFilter, appNameFilter);
        assert rules[i] == prefix[i];
      } else {
        forall i | 0 <= i < n
          ensures !KeptFor(rules[i], appName, ruleNameFilter, appNameFilter)
        {
          assert rules[i] == prefix[i];
        }
      }
    }
  }

  /** The value recorded for an application is the name of a kept rule for it. */
  lemma {:induction false} EnumerateValues(rules: seq<Rule>, ruleNameFilter: Option<string -> bool>, appNameFilter: Option<string -> bool>, appName: string)
    requires appName in Enumerate(rules, ruleNameFilter, appNameFilter)
    ensures exists i :: 0 <= i < |rules| && KeptFor(rules[i], appName, ruleNameFilter, appNameFilter)
                        && Enumerate(rules, ruleNameFilter, appNameFilter)[appName] == rules[i].name
  {
    var n := |rules| - 1;
    var prefix := rules[..n];
    if !KeptFor(rules[n], appName, ruleNameFilter, appNameFilter) {
      EnumerateValues(prefix, ruleNameFilter, appNameFilter, appName);
      var i :| 0 <= i < n && KeptFor(prefix[i], appName, ruleNameFilter, appNameFilter)
               && Enumerate(prefix, ruleNameFilter, appNameFilter)[appName] == prefix[i].name;
      assert rules[i] == prefix[i];
    }
  }

  /** The value recorded for an application is the name of the last kept rule for it: later rules overwrite. */
  lemma {:induction false} EnumerateLastWins(rules: seq<Rule>, ruleNameFilter: Option<string -> bool>, appNameFilter: Option<string -> bool>, appName: string, i: nat)
    requires i < |rules| && KeptFor(rules[i], appName, ruleNameFilter, appNameFilter)
    requires forall j :: i < j < |rules| ==> !KeptFor(rules[j], appName, ruleNameFilter, appNameFilter)
    ensures appName in Enumerate(rules, ruleNameFilter, appNameFilter)
    ensures Enumerate(rules, ruleNameFilter, appNameFilter)[appName] == rules[i].name
  {
    var n := |rules| - 1;
    if i < n {
      var prefix := rules[..n];
      assert prefix[i] == rules[i];
      forall j | i < j < n
        ensures !KeptFor(prefix[j], appName, ruleNameFilter, appNameFilter)
      {
        assert prefix[j] == rules[j];
      }
      EnumerateLastWins(prefix, ruleNameFilter, appNameFilter, appName, i);
    }
  }

  /**
   * FireWallPolicy::getRules: walks the collection (counter 1 to Count,
   * one enumerator element per step) and records each kept rule.
   */
  method GetRules(store: RuleStore, ruleNameFilter: Option<string -> bool>, appNameFilter: Option<string -> bool>)
    returns (result: map<string, string>)
    ensures result == Enumerate(store.rules, ruleNameFilter, appNameFilter)
  {
    result := map[];
    var ruleCount := |store.rules|;
    for ctr := 1 to ruleCount + 1
      invariant result == Enumerate(store.rules[..ctr - 1], ruleNameFilter, appNameFilter)
    {
      var fwRule := store.rules[ctr - 1];
      assert store.rules[..ctr][..ctr - 1] == store.rules[..ctr - 1];
      var isMatch := false;
      if |fwRule.name| > 0 && |fwRule.appName| > 0 {
        var ruleName := fwRule.name;
        var appName := fwRule.appName;
        isMatch := true;
        if ruleNameFilter.Some? {
          isMatch := isMatch && ruleNameFilter.value(ruleName);
        }
        if appNameFilter.Some? {
          isMatch := isMatch && appNameFilter.value(ruleName);
        }
        if isMatch {
          result := result[appName := ruleName];
        }
      }
      assert isMatch == Accepts(fwRule, ruleNameFilter, appNameFilter);
    }
    assert store.rules[..ruleCount] == store.rules;
  }

  // ---------------------------------------------------------------------
  // FireWallPolicy::addBlockRules
  // ---------------------------------------------------------------------

  /** Both rules of the entry `appName`/`key` are accepted by the store. */
  predicate PairAdded(store: RuleStore, appName: string, key: string)
  {
    store.addSucceeds(BlockRule(appName, key, In)) && store.addSucceeds(BlockRule(appName, key, Out))
  }

  /** `rule` is one of the rules addBlockRules creates for `entries`, and the store accepts it. */
  predicate IsAddedRule(store: RuleStore, entries: map<string, string>, rule: Rule)
  {
    && rule.appName in entries
    && rule == BlockRule(rule.appName, entries[rule.appName], rule.direction)
    && store.addSucceeds(rule)
  }

  /**
   * The inner loop of addBlockRules for one entry: creates the two rules
   * in the order the `directions` map yields them and, when the second
   * Add leaves both directions successful, counts the entry and fires the
   * callback (recorded by appending `appName` to `blocked`).
   */
  method AddBlockRulePair(store: RuleStore, appName: string, key: string, count: nat, blocked: seq<string>)
    returns (outcome: Result<nat, StoreFault>, fired: seq<string>, ghost added: seq<Rule>)
    modifies store
    ensures store.rules == old(store.rules) + added
    ensures !store.canCreateRules ==>
      outcome == Failure(RuleCreationFailed) && fired == blocked && added == []
    ensures store.canCreateRules ==>
      && outcome == Success(if PairAdded(store, appName, key) then count + 1 else count)
      && fired == (if PairAdded(store, appName, key) then blocked + [appName] else blocked)
      && NoDuplicates(added)
      && forall rule :: rule in added <==>
           || (rule == BlockRule(appName, key, In) && store.addSucceeds(rule))
           || (rule == BlockRule(appName, key, Out) && store.addSucceeds(rule))
  {
    var result := count;
    fired := blocked;
    var directions := map[In := false, Out := false];
    var inFirst: bool :| true;  // the unordered map's iteration order is unspecified
    var order: seq<Direction> := if inFirst then [In, Out] else [Out, In];
    ghost var before := store.rules;
    ghost var first, second := BlockRule(appName, key, order[0]), BlockRule(appName, key, order[1]);
    ghost var firstOk, secondOk := store.addSucceeds(first), store.addSucceeds(second);
    ghost var both := firstOk && secondOk;
    added := [];
    for k := 0 to 2
      invariant In in directions && Out in directions
      invariant directions[order[0]] == (k > 0 && firstOk)
      invariant directions[order[1]] == (k > 1 && secondOk)
      invariant directions[In] && directions[Out] <==> k == 2 && both
      invariant result == (if k == 2 && both then count + 1 else count)
      invariant fired == (if k == 2 && both then blocked + [appName] else blocked)
      invariant !store.canCreateRules ==> k == 0
      invariant store.rules == before + added
      invariant added == (if k > 0 && firstOk then [first] else []) + (if k > 1 && secondOk then [second] else [])
    {
      var fwRuleDirection := order[k];
      if !store.canCreateRules {
        return Failure(RuleCreationFailed), fired, [];
      }
      var fwRule := BlockRule(appName, key, fwRuleDirection);
      var ok := store.Add(fwRule);
      if ok {
        ConcatAssociative(before, added, [fwRule]);
        added := added + [fwRule];
      }
      directions := directions[fwRuleDirection := ok];
      if directions[In] && directions[Out] {
        result := result + 1;
        fired := fired + [appName];
      }
    }
    assert directions[In] && directions[Out] <==> PairAdded(store, appName, key);
    assert added == PairAppended(store, appName, key, order);
    PairAppendedRules(store, appName, key, order);
    outcome := Success(result);
  }

  /** What the two Adds for one entry append, when the directions come in `order`. */
  ghost function PairAppended(store: RuleStore, appName: string, key: string, order: seq<Direction>): seq<Rule>
    requires |order| == 2
  {
    var first, second := BlockRule(appName, key, order[0]), BlockRule(appName, key, order[1]);
    (if store.addSucceeds(first) then [first] else []) + (if store.addSucceeds(second) then [second] else [])
  }

  /** Whichever order the two directions come in, each accepted rule is appended once. */
  lemma PairAppendedRules(store: RuleStore, appName: string, key: string, order: seq<Direction>)
    requires order == [In, Out] || order == [Out, In]
    ensures NoDuplicates(PairAppended(store, appName, key, order))
    ensures forall rule :: rule in PairAppended(store, appName, key, order) <==>
      || (rule == BlockRule(appName, key, In) && store.addSucceeds(rule))
      || (rule == BlockRule(appName, key, Out) && store.addSucceeds(rule))
  {
    assert BlockRule(appName, key, order[0]) != BlockRule(appName, key, order[1]);
  }

  /**
   * FireWallPolicy::addBlockRules: for each entry application name ->
   * key (in the map's unspecified order) creates the inbound rule
   * "FWMFW_IN_" + key and the outbound rule "FWMFW_OUT_" + key, both
   * blocking, enabled and for that application. An entry is counted, and
   * its callback fires, exactly once when both of its Adds succeed, and
   * never otherwise; so the count is at most the number of entries. A
   * failure to create a rule object aborts the pass with no count.
   */
  method AddBlockRules(store: RuleStore, entries: map<string, string>)
    returns (outcome: Result<nat, StoreFault>, blocked: seq<string>)
    modifies store
    ensures entries != map[] && !store.canCreateRules ==>
      outcome == Failure(RuleCreationFailed) && blocked == [] && store.rules == old(store.rules)
    ensures entries == map[] || store.canCreateRules ==>
      && outcome == Success(|blocked|)
      && |blocked| <= |entries|
      && NoDuplicates(blocked)
      && (forall app :: app in blocked <==> app in entries && PairAdded(store, app, entries[app]))
      && |old(store.rules)| <= |store.rules| && store.rules[..|old(store.rules)|] == old(store.rules)
      && NoDuplicates(store.rules[|old(store.rules)|..])
      && (forall rule :: rule in store.rules[|old(store.rules)|..] <==> IsAddedRule(store, entries, rule))
  {
    var result: nat := 0;
    blocked := [];
    var pending := entries.Keys;
    ghost var done: set<string> := {};
    ghost var initial := store.rules;
    ghost var appended: seq<Rule> := [];
    while pending != {}
      invariant pending <= entries.Keys && done == entries.Keys - pending
      invariant !store.canCreateRules ==> done == {} && blocked == [] && appended == []
      invariant result == |blocked|
      invariant store.rules == initial + appended
      invariant AddProgress(store, entries, done, blocked, appended)
      decreases pending
    {
      var appName :| appName in pending;
      var key := entries[appName];
      var entryOutcome;
      ghost var blockedBefore := blocked;
      ghost var more;
      entryOutcome, blocked, more := AddBlockRulePair(store, appName, key, result, blocked);
      if entryOutcome.Failure? {
        return Failure(entryOutcome.error), blocked;
      }
      result := entryOutcome.value;
      AddProgressStep(store, entries, done, appName, blockedBefore, appended, more);
      ConcatAssociative(initial, appended, more);
      appended := appended + more;
      MoveToDone(entries.Keys, pending, done, appName);
      pending := pending - {appName};
      done := done + {appName};
    }
    assert store.rules[|initial|..] == appended;
    outcome := Success(result);
  }

  /** `blocked` lists, once each, the entries among `apps` whose two rules were both accepted. */
  ghost predicate BlockedFor(store: RuleStore, entries: map<string, string>, apps: set<string>, blocked: seq<string>)
    requires apps <= entries.Keys
  {
    NoDuplicates(blocked) && forall app :: app in blocked <==> app in apps && PairAdded(store, app, entries[app])
  }

  /** `added` holds, once each, the accepted rules of the entries among `apps`. */
  ghost predicate AddedFor(store: RuleStore, entries: map<string, string>, apps: set<string>, added: seq<Rule>)
  {
    NoDuplicates(added) && forall rule :: rule in added <==> rule.appName in apps && IsAddedRule(store, entries, rule)
  }

  /** What addBlockRules has achieved once the entries in `done` are processed. */
  ghost predicate AddProgress(store: RuleStore, entries: map<string, string>, done: set<string>, blocked: seq<string>, added: seq<Rule>)
    requires done <= entries.Keys
  {
    |blocked| <= |done| && BlockedFor(store, entries, done, blocked) && AddedFor(store, entries, done, added)
  }

  /** Processing one more entry keeps the progress of addBlockRules. */
  lemma AddProgressStep(store: RuleStore, entries: map<string, string>, done: set<string>, appName: string,
                        blocked: seq<string>, added: seq<Rule>, more: seq<Rule>)
    requires done <= entries.Keys && appName in entries && appName !in done
    requires AddProgress(store, entries, done, blocked, added)
    requires NoDuplicates(more)
    requires forall rule :: rule in more <==>
      || (rule == BlockRule(appName, entries[appName], In) && store.addSucceeds(rule))
      || (rule == BlockRule(appName, entries[appName], Out) && store.addSucceeds(rule))
    ensures AddProgress(store, entries, done + {appName},
      if PairAdded(store, appName, entries[appName]) then blocked + [appName] else blocked, added + more)
  {
    AddedStep(store, entries, done, appName, added, more);
    BlockedStep(store, entries, done, appName, blocked);
  }

  lemma BlockedStep(store: RuleStore, entries: map<string, string>, apps: set<string>, appName: string, blocked: seq<string>)
    requires apps <= entries.Keys && appName in entries && appName !in apps
    requires BlockedFor(store, entries, apps, blocked)
    ensures BlockedFor(store, entries, apps + {appName},
      if PairAdded(store, appName, entries[appName]) then blocked + [appName] else blocked)
  {
    if PairAdded(store, appName, entries[appName]) {
      NoDuplicatesConcat(blocked, [appName]);
    }
  }

  lemma AddedStep(store: RuleStore, entries: map<string, string>, apps: set<string>, appName: string, added: seq<Rule>, more: seq<Rule>)
    requires appName in entries && appName !in apps
    requires AddedFor(store, entries, apps, added)
    requires NoDuplicates(more)
    requires forall rule :: rule in more <==>
      || (rule == BlockRule(appName, entries[appName], In) && store.addSucceeds(rule))
      || (rule == BlockRule(appName, entries[appName], Out) && store.addSucceeds(rule))
    ensures AddedFor(store, entries, apps + {appName}, added + more)
  {
    NoDuplicatesConcat(added, more);
  }

  // ---------------------------------------------------------------------
  // FireWallPolicy::removeBlockRules
  // ---------------------------------------------------------------------

  /** The Remove call removeBlockRules makes for `ruleName` in `direction` happens and succeeds. */
  predicate RemovalSucceeds(store: RuleStore, ruleName: string, direction: Direction)
  {
    RemovalName(ruleName, direction).Some? && store.removeSucceeds(RemovalName(ruleName, direction).value)
  }

  /** The name that Remove call takes out of the store, if it succeeds. */
  function RemovedName(store: RuleStore, ruleName: string, direction: Direction): set<string>
  {
    if RemovalSucceeds(store, ruleName, direction) then {RemovalName(ruleName, direction).value} else {}
  }

  /** Both Remove calls removeBlockRules makes for `ruleName` succeed. */
  predicate PairRemoved(store: RuleStore, ruleName: string)
  {
    RemovalSucceeds(store, ruleName, Out) && RemovalSucceeds(store, ruleName, In)
  }

  /** The names taken out of the store for one entry's `ruleName`. */
  function RemovedNames(store: RuleStore, ruleName: string): set<string>
  {
    RemovedName(store, ruleName, Out) + RemovedName(store, ruleName, In)
  }

  /** The names taken out of the store for the entries whose application names are in `apps`. */
  ghost function RemovedNamesOf(store: RuleStore, entries: map<string, string>, apps: set<string>): set<string>
  {
    set app, name | app in apps && app in entries && name in RemovedNames(store, entries[app]) :: name
  }

  /**
   * The inner loop of removeBlockRules for one entry: removes the given
   * (outbound) name and its inbound companion in the order the
   * `directions` map yields them, counting the entry and firing the
   * callback when both removals succeeded. A name shorter than ten
   * characters aborts when the inbound name is derived; the outbound
   * removal may already have happened by then. `removed` is the set of
   * names actually taken out.
   */
  method RemoveBlockRulePair(store: RuleStore, appName: string, ruleName: string, count: nat, unblocked: seq<string>)
    returns (outcome: Result<nat, StoreFault>, fired: seq<string>, ghost removed: set<string>)
    modifies store
    ensures store.rules == WithoutNames(old(store.rules), removed)
    ensures |ruleName| < OUT_PREFIX_LENGTH ==>
      && outcome == Failure(RuleNameOutOfRange) && fired == unblocked
      && forall name :: name in removed ==> name in RemovedNames(store, ruleName)
    ensures |ruleName| >= OUT_PREFIX_LENGTH ==>
      && outcome == Success(if PairRemoved(store, ruleName) then count + 1 else count)
      && fired == (if PairRemoved(store, ruleName) then unblocked + [appName] else unblocked)
      && forall name :: name in removed <==> name in RemovedNames(store, ruleName)
  {
    var result := count;
    fired := unblocked;
    var directions := map[In := false, Out := false];
    var inFirst: bool :| true;  // the unordered map's iteration order is unspecified
    var order: seq<Direction> := if inFirst then [In, Out] else [Out, In];
    ghost var before := store.rules;
    ghost var firstOk, secondOk := RemovalSucceeds(store, ruleName, order[0]), RemovalSucceeds(store, ruleName, order[1]);
    ghost var both := firstOk && secondOk;
    removed := {};
    WithoutNoNames(before);
    for k := 0 to 2
      invariant In in directions && Out in directions
      invariant directions[order[0]] == (k > 0 && firstOk)
      invariant directions[order[1]] == (k > 1 && secondOk)
      invariant directions[In] && directions[Out] <==> k == 2 && both
      invariant result == (if k == 2 && both then count + 1 else count)
      invariant fired == (if k == 2 && both then unblocked + [appName] else unblocked)
      invariant |ruleName| < OUT_PREFIX_LENGTH ==> k == 0 || (k == 1 && order[0] == Out)
      invariant forall name :: name in removed <==> (k > 0 && name in RemovedName(store, ruleName, order[0])) || (k > 1 && name in RemovedName(store, ruleName, order[1]))
      invariant store.rules == WithoutNames(before, removed)
    {
      var fwRuleDirection := order[k];
      var ruleNameWStr := ruleName;
      if fwRuleDirection == In {
        if |ruleName| < OUT_PREFIX_LENGTH {
          // substr(10) of a shorter name throws std::out_of_range
          return Failure(RuleNameOutOfRange), fired, removed;
        }
        ruleNameWStr := IN_RULE_NAME_PREFIX + ruleName[OUT_PREFIX_LENGTH..];
      }
      var ok := store.Remove(ruleNameWStr);
      if ok {
        WithoutNamesTwice(before, removed, {ruleNameWStr});
        removed := removed + {ruleNameWStr};
      }
      directions := directions[fwRuleDirection := ok];
      if directions[In] && directions[Out] {
        result := result + 1;
        fired := fired + [appName];
      }
    }
    outcome := Success(result);
  }

  /**
   * FireWallPolicy::removeBlockRules: for each entry application name ->
   * outbound rule name (in the map's unspecified order) removes that name
   * and the matching inbound name. An entry is counted, and its callback
   * fires, exactly once when both removals succeed. The pass aborts at
   * the first entry whose name is shorter than ten characters, which
   * happens iff there is such an entry; what was removed before stays
   * removed.
   */
  method RemoveBlockRules(store: RuleStore, entries: map<string, string>)
    returns (outcome: Result<nat, StoreFault>, unblocked: seq<string>)
    modifies store
    ensures RemovePassOutcome(store, entries, old(store.rules), store.rules, outcome, unblocked)
  {
    var result: nat := 0;
    unblocked := [];
    var pending := entries.Keys;
    ghost var done: set<string> := {};
    ghost var initial := store.rules;
    RemoveProgressStart(store, entries, initial);
    while pending != {}
      invariant pending <= entries.Keys && done == entries.Keys - pending
      invariant result == |unblocked|
      invariant RemoveProgress(store, entries, done, unblocked, initial, store.rules)
      decreases pending
    {
      var appName :| appName in pending;
      var ruleName := entries[appName];
      var entryOutcome;
      ghost var unblockedBefore, mid := unblocked, store.rules;
      ghost var more;
      entryOutcome, unblocked, more := RemoveBlockRulePair(store, appName, ruleName, result, unblocked);
      if entryOutcome.Failure? {
        assert entryOutcome.error == RuleNameOutOfRange;
        RemoveAborted(store, entries, done, appName, unblockedBefore, initial, mid, more, store.rules);
        return Failure(entryOutcome.error), unblocked;
      }
      result := entryOutcome.value;
      RemoveProgressStep(store, entries, done, appName, unblockedBefore, unblocked, initial, mid, more, store.rules);
      MoveToDone(entries.Keys, pending, done, appName);
      pending := pending - {appName};
      done := done + {appName};
    }
    assert done == entries.Keys;
    RemoveProgressDone(store, entries, unblocked, initial, store.rules);
    outcome := Success(result);
  }

  /**
   * The outcome removeBlockRules promises, from the store's rules
   * `initial` to `rules`. The pass fails iff some entry's name is
   * shorter than ten characters; the callback then named entries only
   * and the store lost some set of names. Otherwise the count is the
   * number of entries whose two removals both succeeded, the callback
   * named exactly those entries once each, and the store lost exactly
   * the names the removals took out.
   */
  ghost predicate RemovePassOutcome(store: RuleStore, entries: map<string, string>, initial: seq<Rule>, rules: seq<Rule>,
                                    outcome: Result<nat, StoreFault>, unblocked: seq<string>)
  {
    && (outcome.Failure? <==> exists app :: app in entries && |entries[app]| < OUT_PREFIX_LENGTH)
    && (outcome.Failure? ==>
         && outcome.error == RuleNameOutOfRange
         && (forall app :: app in unblocked ==> app in entries)
         && exists names :: rules == WithoutNames(initial, names))
    && (outcome.Success? ==>
         && outcome.value == |unblocked| <= |entries|
         && NoDuplicates(unblocked)
         && (forall app :: app in unblocked <==> app in entries && PairRemoved(store, entries[app]))
         && rules == WithoutNames(initial, RemovedNamesOf(store, entries, entries.Keys)))
  }

  /**
   * What removeBlockRules has achieved once the entries in `done` are
   * processed, the store going from `initial` to `rules`: their names
   * were all long enough, the callback named exactly the entries whose
   * two removals succeeded, once each, and the store lost exactly the
   * names those removals took out.
   */
  ghost predicate RemoveProgress(store: RuleStore, entries: map<string, string>, done: set<string>, unblocked: seq<string>,
                                 initial: seq<Rule>, rules: seq<Rule>)
  {
    && done <= entries.Keys
    && (forall app :: app in done ==> |entries[app]| >= OUT_PREFIX_LENGTH)
    && |unblocked| <= |done|
    && NoDuplicates(unblocked)
    && (forall app :: app in unblocked <==> app in done && PairRemoved(store, entries[app]))
    && rules == WithoutNames(initial, RemovedNamesOf(store, entries, done))
  }

  /** Before any entry is processed nothing has happened. */
  lemma RemoveProgressStart(store: RuleStore, entries: map<string, string>, initial: seq<Rule>)
    ensures RemoveProgress(store, entries, {}, [], initial, initial)
  {
    assert RemovedNamesOf(store, entries, {}) == {};
    WithoutNoNames(initial);
  }

  /** Processing one more entry with a long enough name keeps the progress of removeBlockRules. */
  lemma RemoveProgressStep(store: RuleStore, entries: map<string, string>, done: set<string>, appName: string,
                           unblocked: seq<string>, unblocked': seq<string>, initial: seq<Rule>, mid: seq<Rule>, more: set<string>, rules: seq<Rule>)
    requires appName in entries && appName !in done && |entries[appName]| >= OUT_PREFIX_LENGTH
    requires RemoveProgress(store, entries, done, unblocked, initial, mid)
    requires unblocked' == if PairRemoved(store, entries[appName]) then unblocked + [appName] else unblocked
    requires forall name :: name in more <==> name in RemovedNames(store, entries[appName])
    requires rules == WithoutNames(mid, more)
    ensures RemoveProgress(store, entries, done + {appName}, unblocked', initial, rules)
  {
    UnblockedStep(store, entries, done, appName, unblocked);
    RemovedStep(store, entries, done, appName, more, initial, rules);
  }

  /** The callback part of one more entry's step. */
  lemma UnblockedStep(store: RuleStore, entries: map<string, string>, done: set<string>, appName: string, unblocked: seq<string>)
    requires appName in entries && appName !in done && done <= entries.Keys
    requires NoDuplicates(unblocked) && forall app :: app in unblocked <==> app in done && PairRemoved(store, entries[app])
    ensures PairRemoved(store, entries[appName]) ==>
      && NoDuplicates(unblocked + [appName])
      && forall app :: app in unblocked + [appName] <==> app in done + {appName} && PairRemoved(store, entries[app])
  {
    if PairRemoved(store, entries[appName]) {
      NoDuplicatesConcat(unblocked, [appName]);
    }
  }

  /** An entry whose name is too short aborts the pass with the outcome removeBlockRules promises. */
  lemma RemoveAborted(store: RuleStore, entries: map<string, string>, done: set<string>, appName: string, unblocked: seq<string>,
                      initial: seq<Rule>, mid: seq<Rule>, more: set<string>, rules: seq<Rule>)
    requires appName in entries && |entries[appName]| < OUT_PREFIX_LENGTH
    requires RemoveProgress(store, entries, done, unblocked, initial, mid)
    requires rules == WithoutNames(mid, more)
    ensures RemovePassOutcome(store, entries, initial, rules, Failure(RuleNameOutOfRange), unblocked)
  {
    WithoutNamesTwice(initial, RemovedNamesOf(store, entries, done), more);
  }

  /** Once every entry is processed, the progress is the outcome removeBlockRules promises. */
  lemma RemoveProgressDone(store: RuleStore, entries: map<string, string>, unblocked: seq<string>, initial: seq<Rule>, rules: seq<Rule>)
    requires RemoveProgress(store, entries, entries.Keys, unblocked, initial, rules)
    ensures RemovePassOutcome(store, entries, initial, rules, Success(|unblocked|), unblocked)
  {
    assert |entries.Keys| == |entries|;
  }

  /** Removing one more entry's names from the store keeps it equal to the original without all names removed so far. */
  lemma RemovedStep(store: RuleStore, entries: map<string, string>, done: set<string>, appName: string, more: set<string>,
                    initial: seq<Rule>, rules: seq<Rule>)
    requires appName in entries
    requires forall name :: name in more <==> name in RemovedNames(store, entries[appName])
    requires rules == WithoutNames(WithoutNames(initial, RemovedNamesOf(store, entries, done)), more)
    ensures rules == WithoutNames(initial, RemovedNamesOf(store, entries, done + {appName}))
  {
    assert more == RemovedNames(store, entries[appName]);
    WithoutNamesTwice(initial, RemovedNamesOf(store, entries, done), more);
    RemovedNamesOfStep(store, entries, done, appName);
  }

  /** One more entry adds its own removed names. */
  lemma RemovedNamesOfStep(store: RuleStore, entries: map<string, string>, apps: set<string>, appName: string)
    requires appName in entries
    ensures RemovedNamesOf(store, entries, apps + {appName}) == RemovedNamesOf(store, entries, apps) + RemovedNames(store, entries[appName])
  {
    var lhs, rhs := RemovedNamesOf(store, entries, apps + {appName}), RemovedNamesOf(store, entries, apps) + RemovedNames(store, entries[appName]);
    forall name | name in lhs
      ensures name in rhs
    {
      var app :| app in apps + {appName} && app in entries && name in RemovedNames(store, entries[app]);
    }
  }
}
