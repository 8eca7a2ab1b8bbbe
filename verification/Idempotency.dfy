/** Idempotency keys shared by the triage and blocklist services (`triage_service.py`, `blocklist_service.py`). */
module Idempotency {
  import Storage
  import opened Sequences
  import opened Wrappers

  datatype Rule = Rule(id: nat, pattern: string, ruleType: string, reason: Option<string>, enabled: bool)

  datatype Body =
    | TriageBody(correlationId: string, item: string, state: string)
    | RuleBody(rule: Rule)
    | DeleteBody(id: nat)

  datatype Row = Row(action: string, item: string, status: int, body: Body)

  datatype Event = Requested(action: string, item: string) | Applied(action: string, item: string)
    | Compensating(action: string, item: string)

  datatype Result = Reply(status: int, body: Body) | Conflict | UnreadableRow | Unsupported | NotFound | Invalid | Fault

  /** `patch` fields that are `None` keep the stored value. `fault` makes the database fail inside the transaction. */
  datatype Call =
    | Triage(action: string, item: string, key: string, fault: bool)
    | Create(pattern: string, ruleType: string, reason: Option<string>, enabled: bool, key: string, fault: bool)
    | Update(id: nat, newPattern: Option<string>, newType: Option<string>, newReason: Option<string>,
             newEnabled: Option<bool>, key: string, fault: bool)
    | Delete(id: nat, key: string, fault: bool)

  /** What `_replay_if_present` compares with the stored row. */
  function ActionOf(c: Call): string {
    match c
    case Triage(a, _, _, _) => a
    case Create(_, _, _, _, _, _) => "blocklist_create"
    case Update(_, _, _, _, _, _, _) => "blocklist_update"
    case Delete(_, _, _) => "blocklist_delete"
  }

  function ItemOf(c: Call): string {
    match c
    case Triage(_, i, _, _) => i
    case Create(p, _, _, _, _, _) => p
    case Update(id, _, _, _, _, _, _) => Storage.Decimal(id)
    case Delete(id, _, _) => Storage.Decimal(id)
  }

  /** The response model the call expects. */
  predicate Fits(c: Call, b: Body) {
    match c
    case Triage(_, _, _, _) => b.TriageBody?
    case Create(_, _, _, _, _, _) => b.RuleBody?
    case Update(_, _, _, _, _, _, _) => b.RuleBody?
    case Delete(_, _, _) => b.DeleteBody?
  }

  function Replay(row: Row, c: Call): Result {
    if row.action != ActionOf(c) || row.item != ItemOf(c) then Conflict
    else if !Fits(c, row.body) then UnreadableRow
    else Reply(row.status, row.body)
  }

  predicate KnownAction(action: string) {
    action in {"accept", "reject", "defer"}
  }

  function StateFor(action: string): string {
    if action == "accept" then "accepted" else if action == "reject" then "rejected" else "pending"
  }

  predicate GoodType(t: string) {
    t in {"filename", "regex"}
  }

  predicate Taken(rules: map<nat, Rule>, pattern: string, except: Option<nat>) {
    exists i :: i in rules && rules[i].pattern == pattern && except != Some(i)
  }

  function Patch<T>(p: Option<T>, stored: T): T {
    if p.Some? then p.value else stored
  }

  function Balance(audit: seq<Event>): int {
    if audit == [] then 0
    else Balance(audit[..|audit| - 1]) + (if audit[|audit| - 1].Requested? then 1 else -1)
  }

  lemma BalanceSnoc(audit: seq<Event>, e: Event)
    ensures Balance(audit + [e]) == Balance(audit) + (if e.Requested? then 1 else -1)
  {
    assert (audit + [e])[..|audit|] == audit;
  }

  /** Two more events. */
  function Logged(audit: seq<Event>, a: Event, b: Event): seq<Event> {
    audit + [a] + [b]
  }

  function Patched(rule: Rule, c: Call): Rule
    requires c.Update?
  {
    Rule(rule.id, Patch(c.newPattern, rule.pattern), Patch(c.newType, rule.ruleType),
         if c.newReason.Some? then c.newReason else rule.reason, Patch(c.newEnabled, rule.enabled))
  }

  /** What a reply leaves under its key. */
  function RowOf(c: Call, r: Result): Row
    requires r.Reply?
  {
    Row(ActionOf(c), ItemOf(c), r.status, r.body)
  }

  ghost predicate RulesSound(rules: map<nat, Rule>, nextRuleId: nat) {
    && (forall i :: i in rules ==> i < nextRuleId && rules[i].id == i && GoodType(rules[i].ruleType))
    && (forall i, j :: i in rules && j in rules && rules[i].pattern == rules[j].pattern ==> i == j)
  }

  /** What a later call under the key gets: the rest of the request, beyond action and item, is not compared. */
  function AfterReply(c: Call, r: Result, later: Call): Result
    requires r.Reply?
  {
    if ActionOf(c) != ActionOf(later) || ItemOf(c) != ItemOf(later) then Conflict
    else if Fits(later, r.body) then r
    else UnreadableRow
  }

  /** The row holds the reply. */
  ghost predicate Stored(keys: map<string, Row>, c: Call, r: Result)
    requires r.Reply?
  {
    c.key in keys && keys[c.key] == RowOf(c, r) && Fits(c, r.body)
  }

  /** After its first reply a key answers with that reply or a refusal. */
  ghost predicate Faithful(calls: seq<Call>, results: seq<Result>)
    requires |results| <= |calls|
  {
    forall i, j :: 0 <= i < j < |results| && calls[i].key == calls[j].key && results[i].Reply? ==>
      results[j] == AfterReply(calls[i], results[i], calls[j])
  }

  ghost predicate AllStored(keys: map<string, Row>, calls: seq<Call>, results: seq<Result>)
    requires |results| <= |calls|
  {
    forall i :: 0 <= i < |results| && results[i].Reply? ==> Stored(keys, calls[i], results[i])
  }

  lemma ServedOne(keys: map<string, Row>, keys': map<string, Row>, calls: seq<Call>, results: seq<Result>, r: Result)
    requires |results| < |calls| && AllStored(keys, calls, results) && Faithful(calls, results)
    requires var c := calls[|results|];
             && (c.key in keys ==> r == Replay(keys[c.key], c) && keys' == keys)
             && (c.key !in keys && r.Reply? ==> keys' == keys[c.key := RowOf(c, r)] && Fits(c, r.body))
             && (c.key !in keys && !r.Reply? ==> keys' == keys)
    ensures AllStored(keys', calls, results + [r]) && Faithful(calls, results + [r])
  {
    var n := |results|;
    forall i | 0 <= i < n && results[i].Reply? ensures Stored(keys', calls[i], results[i]) {
      assert Stored(keys, calls[i], results[i]);
    }
  }

  predicate SameRequest(c: Call, later: Call) {
    ActionOf(c) == ActionOf(later) && ItemOf(c) == ItemOf(later)
  }

  /** A later call under a key that has its reply is refused exactly when its action or item differs or the stored
      reply does not fit it; otherwise it gets that reply. */
  lemma RefusedExactly(calls: seq<Call>, results: seq<Result>, i: nat, j: nat)
    requires |results| <= |calls| && Faithful(calls, results)
    requires i < j < |results| && calls[i].key == calls[j].key && results[i].Reply?
    ensures !results[j].Reply? <==> !SameRequest(calls[i], calls[j]) || !Fits(calls[j], results[i].body)
    ensures results[j].Reply? ==> results[j] == results[i]
    ensures results[j].Conflict? <==> !SameRequest(calls[i], calls[j])
  {
    assert results[j] == AfterReply(calls[i], results[i], calls[j]);
  }

  /** So a different request can pass for a retry: an update of the same rule to another pattern, and the creation of
      the same pattern with another type, get the first reply and change nothing. */
  lemma OtherRequestPasses(key: string, rule: Rule)
    ensures var a := Update(rule.id, Some("a"), None, None, None, key, false);
            var b := Update(rule.id, Some("b"), None, None, None, key, false);
            var r := Reply(200, RuleBody(rule));
            a != b && AfterReply(a, r, b) == r && Replay(Row(ActionOf(a), ItemOf(a), 200, r.body), b) == r
    ensures var a := Create(rule.pattern, "filename", None, true, key, false);
            var b := Create(rule.pattern, "regex", None, true, key, false);
            var r := Reply(201, RuleBody(rule));
            a != b && AfterReply(a, r, b) == r && Replay(Row(ActionOf(a), ItemOf(a), 201, r.body), b) == r
  {
    assert "a"[0] != "b"[0];
    assert "filename"[0] != "regex"[0];
  }

  class Api {
    var files: map<string, string>
    var rules: map<nat, Rule>
    var nextRuleId: nat
    var keys: map<string, Row>
    var audit: seq<Event>
    /** The keys under which a mutation was committed, in order. */
    ghost var commits: seq<string>

    constructor (files: map<string, string>)
      ensures Valid() && this.files == files && rules == map[] && keys == map[] && audit == []
    {
      this.files := files;
      rules, nextRuleId, keys, audit, commits := map[], 1, map[], [], [];
    }

    /** One commit per key, one row per commit; every requested triage is applied or compensated; patterns unique. */
    ghost predicate Valid()
      reads this
    {
      && Distinct(commits) && (forall k :: k in keys <==> k in commits)
      && Balance(audit) == 0
      && RulesSound(rules, nextRuleId)
    }

    /** Nothing changed; `withAudit` asks the same of the audit log. */
    twostate predicate Same(withAudit: bool)
      reads this
    {
      && files == old(files) && rules == old(rules) && nextRuleId == old(nextRuleId)
      && keys == old(keys) && commits == old(commits) && (withAudit ==> audit == old(audit))
    }

    /** What every call does with its key. */
    twostate predicate KeyDiscipline(c: Call, r: Result)
      reads this
    {
      && (c.key in old(keys) ==> r == Replay(old(keys)[c.key], c) && Same(true))
      && (c.key !in old(keys) && r.Reply? ==>
            keys == old(keys)[c.key := RowOf(c, r)] &&
            commits == old(commits) + [c.key] && Fits(c, r.body))
      && (c.key !in old(keys) && !r.Reply? ==> Same(false))
    }

    method Log(e: Event)
      modifies this`audit
      ensures audit == old(audit) + [e] && Balance(audit) == old(Balance(audit)) + (if e.Requested? then 1 else -1)
    {
      BalanceSnoc(audit, e);
      audit := audit + [e];
    }

    /** `_persist_idempotency`, at the end of the transaction. */
    method Persist(c: Call, r: Result)
      requires Distinct(commits) && (forall k :: k in keys <==> k in commits) && c.key !in keys && r.Reply?
      modifies this`keys, this`commits
      ensures keys == old(keys)[c.key := RowOf(c, r)]
      ensures commits == old(commits) + [c.key]
      ensures Distinct(commits) && forall k :: k in keys <==> k in commits
    {
      keys := keys[c.key := RowOf(c, r)];
      commits := commits + [c.key];
    }

    /** The transaction of an announced triage. */
    method Apply(c: Call) returns (r: Result)
      requires c.Triage? && c.key !in keys && c.item in files
      requires Distinct(commits) && forall k :: k in keys <==> k in commits
      modifies this`files, this`audit, this`keys, this`commits
      ensures r == Reply(200, TriageBody(c.key, c.item, StateFor(c.action)))
      ensures files == old(files)[c.item := StateFor(c.action)] && audit == old(audit) + [Applied(c.action, c.item)]
      ensures Balance(audit) == old(Balance(audit)) - 1
      ensures keys == old(keys)[c.key := RowOf(c, r)] && commits == old(commits) + [c.key]
      ensures Distinct(commits) && forall k :: k in keys <==> k in commits
    {
      files := files[c.item := StateFor(c.action)];
      Log(Applied(c.action, c.item));
      r := Reply(200, TriageBody(c.key, c.item, StateFor(c.action)));
      Persist(c, r);
    }

    /** A known action under a fresh key: announce it, then apply it or compensate. */
    method Decide(c: Call) returns (r: Result)
      requires Valid() && c.Triage? && c.key !in keys && KnownAction(c.action)
      modifies this
      ensures Valid() && KeyDiscipline(c, r) && rules == old(rules) && nextRuleId == old(nextRuleId)
      ensures c.item !in old(files) || c.fault ==>
        && audit == Logged(old(audit), Requested(c.action, c.item), Compensating(c.action, c.item))
        && r == if c.item !in old(files) then NotFound else Fault
      ensures c.item in old(files) && !c.fault ==>
        && r == Reply(200, TriageBody(c.key, c.item, StateFor(c.action)))
        && files == old(files)[c.item := StateFor(c.action)]
        && audit == Logged(old(audit), Requested(c.action, c.item), Applied(c.action, c.item))
    {
      Log(Requested(c.action, c.item));
      if c.item !in files || c.fault {
        Log(Compensating(c.action, c.item));
        r := if c.item !in files then NotFound else Fault;
      } else {
        r := Apply(c);
      }
    }

    method ExecuteTriage(c: Call) returns (r: Result)
      requires Valid() && c.Triage?
      modifies this
      ensures Valid() && KeyDiscipline(c, r)
      ensures c.key !in old(keys) ==> rules == old(rules) && nextRuleId == old(nextRuleId)
      ensures c.key !in old(keys) && !KnownAction(c.action) ==> r == Unsupported && audit == old(audit)
      ensures c.key !in old(keys) && KnownAction(c.action) && (c.item !in old(files) || c.fault) ==>
        && audit == Logged(old(audit), Requested(c.action, c.item), Compensating(c.action, c.item))
        && r == if c.item !in old(files) then NotFound else Fault
      ensures c.key !in old(keys) && KnownAction(c.action) && c.item in old(files) && !c.fault ==>
        && r == Reply(200, TriageBody(c.key, c.item, StateFor(c.action)))
        && files == old(files)[c.item := StateFor(c.action)]
        && audit == Logged(old(audit), Requested(c.action, c.item), Applied(c.action, c.item))
        && (c.action == "accept" ==> files[c.item] == "accepted")
        && (c.action == "reject" ==> files[c.item] == "rejected")
        && (c.action == "defer" ==> files[c.item] == "pending")
      ensures c.key !in old(keys) ==>
        (r.Unsupported? <==> c.action != "accept" && c.action != "reject" && c.action != "defer")
    {
      assert "accept"[0] != "reject"[0] && "reject"[0] != "defer"[0] && "accept"[0] != "defer"[0];
      if c.key in keys {
        return Replay(keys[c.key], c);
      }
      if !KnownAction(c.action) {
        return Unsupported;
      }
      r := Decide(c);
    }

    method CreateRule(c: Call) returns (r: Result)
      requires Valid() && c.Create?
      modifies this
      ensures Valid() && KeyDiscipline(c, r) && files == old(files) && audit == old(audit)
      ensures c.key !in old(keys) ==>
        (r.Reply? <==> (forall i :: i in old(rules) ==> old(rules)[i].pattern != c.pattern) &&
                       (c.ruleType == "filename" || c.ruleType == "regex") && !c.fault)
      ensures c.key !in old(keys) && r.Reply? ==>
        && r == Reply(201, RuleBody(Rule(old(nextRuleId), c.pattern, c.ruleType, c.reason, c.enabled)))
        && rules == old(rules)[old(nextRuleId) := r.body.rule] && old(nextRuleId) !in old(rules)
    {
      if c.key in keys {
        return Replay(keys[c.key], c);
      }
      if Taken(rules, c.pattern, None) || !GoodType(c.ruleType) {
        return Invalid;
      }
      if c.fault {
        return Fault;
      }
      var rule := Rule(nextRuleId, c.pattern, c.ruleType, c.reason, c.enabled);
      rules := rules[nextRuleId := rule];
      nextRuleId := nextRuleId + 1;
      r := Reply(201, RuleBody(rule));
      Persist(c, r);
    }

    method UpdateRule(c: Call) returns (r: Result)
      requires Valid() && c.Update?
      modifies this
      ensures Valid() && KeyDiscipline(c, r) && files == old(files) && audit == old(audit)
      ensures c.key !in old(keys) && c.id !in old(rules) ==> r == NotFound
      ensures c.key !in old(keys) && c.id in old(rules) ==>
        var next := Patched(old(rules)[c.id], c);
        r.Reply? <==> (forall i :: i in old(rules) && i != c.id ==> old(rules)[i].pattern != next.pattern) &&
                      (next.ruleType == "filename" || next.ruleType == "regex") && !c.fault
      ensures c.key !in old(keys) && r.Reply? ==>
        var stored, next := old(rules)[c.id], Patched(old(rules)[c.id], c);
        && r == Reply(200, RuleBody(next)) && rules == old(rules)[c.id := next] && next.id == stored.id
        && next.pattern == (if c.newPattern.Some? then c.newPattern.value else stored.pattern)
        && next.ruleType == (if c.newType.Some? then c.newType.value else stored.ruleType)
        && next.reason == (if c.newReason.Some? then c.newReason else stored.reason)
        && next.enabled == (if c.newEnabled.Some? then c.newEnabled.value else stored.enabled)
    {
      if c.key in keys {
        return Replay(keys[c.key], c);
      }
      if c.id !in rules {
        return NotFound;
      }
      var next := Patched(rules[c.id], c);
      if Taken(rules, next.pattern, Some(c.id)) || !GoodType(next.ruleType) {
        return Invalid;
      }
      if c.fault {
        return Fault;
      }
      rules := rules[c.id := next];
      r := Reply(200, RuleBody(next));
      Persist(c, r);
    }

    method DeleteRule(c: Call) returns (r: Result)
      requires Valid() && c.Delete?
      modifies this
      ensures Valid() && KeyDiscipline(c, r) && files == old(files) && audit == old(audit)
      ensures c.key !in old(keys) ==> (r.Reply? <==> c.id in old(rules) && !c.fault)
      ensures c.key !in old(keys) && r.Reply? ==> r == Reply(200, DeleteBody(c.id)) && rules == old(rules) - {c.id}
    {
      if c.key in keys {
        return Replay(keys[c.key], c);
      }
      if c.id !in rules {
        return NotFound;
      }
      if c.fault {
        return Fault;
      }
      rules := rules - {c.id};
      r := Reply(200, DeleteBody(c.id));
      Persist(c, r);
    }

    method Serve(c: Call) returns (r: Result)
      requires Valid()
      modifies this
      ensures Valid() && KeyDiscipline(c, r)
    {
      match c
      case Triage(_, _, _, _) => r := ExecuteTriage(c);
      case Create(_, _, _, _, _, _) => r := CreateRule(c);
      case Update(_, _, _, _, _, _, _) => r := UpdateRule(c);
      case Delete(_, _, _) => r := DeleteRule(c);
    }

    /** Any interleaving of calls to both services: a key commits at most once, and after its first reply a call with
        the same action and item gets that reply again while every other call under the key is refused. */
    method ServeAll(calls: seq<Call>) returns (results: seq<Result>)
      requires Valid()
      modifies this
      ensures Valid() && |results| == |calls|
      ensures Faithful(calls, results)
    {
      results := [];
      for n := 0 to |calls|
        invariant Valid() && |results| == n && AllStored(keys, calls, results) && Faithful(calls, results)
      {
        ghost var before := keys;
        var r := Serve(calls[n]);
        ServedOne(before, keys, calls, results, r);
        results := results + [r];
      }
    }
  }
}
