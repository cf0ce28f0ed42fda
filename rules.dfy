/**
 * The header-injection rules the extension installs through the browser's
 * declarative request-modification engine: one rule per stored credential
 * that sets an HTTP Basic `Authorization` header (section 2 of RFC 7617) on
 * top-level page loads whose URL matches the credential's pattern.
 */
module Rules {
  import opened Wrappers
  import opened Base64
  import opened Credentials

  datatype ResourceType = MainFrame
  datatype HeaderOperation = Set
  datatype ModifiedHeader = ModifiedHeader(header: string, operation: HeaderOperation, value: string)
  datatype RuleAction = ModifyHeaders(requestHeaders: seq<ModifiedHeader>)
  datatype RuleCondition = RuleCondition(regexFilter: string, resourceTypes: seq<ResourceType>)
  datatype Rule = Rule(id: int, priority: int, action: RuleAction, condition: RuleCondition)

  /** One request to the engine: remove the rules with these ids, then add these rules. */
  datatype RuleUpdate = RuleUpdate(removeRuleIds: seq<int>, addRules: seq<Rule>)

  const Colon: Byte := 58
  const BasicPrefix: string := "Basic "

  /**
   * `Number(priority) || 1`: a priority that is absent, not a number or zero
   * falls back to 1; any other number is kept as it is.
   */
  function RulePriority(priority: Option<int>): (r: int)
    ensures r != 0
    ensures priority.Some? && priority.value != 0 ==> r == priority.value
    ensures priority.None? || priority.value == 0 ==> r == 1
  {
    match priority
    case None => 1
    case Some(p) => if p != 0 then p else 1
  }

  /** The Basic credentials `user-id ":" password` of section 2 of RFC 7617. */
  function UserPass(username: seq<Byte>, password: seq<Byte>): seq<Byte>
  {
    username + [Colon] + password
  }

  /**
   * The `Authorization` header value for a credential: `Basic ` and the
   * base64 token of the octets `username:password`.
   */
  function AuthorizationValue(c: Credential): (v: string)
    ensures |v| == |BasicPrefix| + 4 * ((|c.username| + |c.password| + 3) / 3)
    ensures v[..|BasicPrefix|] == BasicPrefix
    ensures v[|BasicPrefix|..] == Encode(UserPass(c.username, c.password))
  {
    var v := BasicPrefix + Encode(UserPass(c.username, c.password));
    assert v[..|BasicPrefix|] == BasicPrefix;
    v
  }

  /**
   * The rule for a credential with a given id: it sets the `Authorization`
   * header to the credential's Basic value, on top-level loads whose URL
   * matches the credential's pattern, with a priority that is never 0.
   */
  function RuleFor(id: int, c: Credential): (r: Rule)
    ensures r.id == id && r.priority != 0
    ensures c.priority.Some? && c.priority.value != 0 ==> r.priority == c.priority.value
    ensures c.priority.None? || c.priority.value == 0 ==> r.priority == 1
    ensures r.condition == RuleCondition(c.url, [MainFrame])
    ensures |r.action.requestHeaders| == 1
    ensures r.action.requestHeaders[0].header == "Authorization"
    ensures r.action.requestHeaders[0].operation == Set
    ensures r.action.requestHeaders[0].value == AuthorizationValue(c)
  {
    Rule(id, RulePriority(c.priority),
         ModifyHeaders([ModifiedHeader("Authorization", Set, AuthorizationValue(c))]),
         RuleCondition(c.url, [MainFrame]))
  }

  /** The rules for `creds`, numbered consecutively from `firstId`. */
  function RulesFrom(creds: seq<Credential>, firstId: int): (rules: seq<Rule>)
    ensures |rules| == |creds|
    decreases |creds|
  {
    if creds == [] then [] else [RuleFor(firstId, creds[0])] + RulesFrom(creds[1..], firstId + 1)
  }

  /** The rule at position `i` carries id `firstId + i` and is built from the `i`-th credential. */
  lemma {:induction false} RulesFromAt(creds: seq<Credential>, firstId: int, i: int)
    requires 0 <= i < |creds|
    ensures RulesFrom(creds, firstId)[i] == RuleFor(firstId + i, creds[i])
    decreases |creds|
  {
    if i > 0 {
      RulesFromAt(creds[1..], firstId + 1, i - 1);
    }
  }

  /** The ids of a list of rules, in order. */
  function Ids(rules: seq<Rule>): (ids: seq<int>)
    ensures |ids| == |rules|
    ensures forall i :: 0 <= i < |rules| ==> ids[i] == rules[i].id
  {
    seq(|rules|, i requires 0 <= i < |rules| => rules[i].id)
  }

  /** The rule set built from a credential list: one rule per credential, ids 1..n. */
  function BuildRules(creds: seq<Credential>): seq<Rule>
  {
    RulesFrom(creds, 1)
  }

  /** The i-th built rule carries id i+1 and is built from the i-th credential. */
  lemma BuildRulesAt(creds: seq<Credential>)
    ensures forall i :: 0 <= i < |creds| ==> BuildRules(creds)[i] == RuleFor(i + 1, creds[i])
  {
    forall i | 0 <= i < |creds| ensures BuildRules(creds)[i] == RuleFor(i + 1, creds[i]) {
      RulesFromAt(creds, 1, i);
    }
  }

  /**
   * What `updateDynamicRules` asks of the engine, given the rules it
   * currently holds: remove every one of them by id, and add one rule per
   * own credential, numbered 1..n in enumeration order.
   */
  function Synchronize(props: seq<Property>, previousRules: seq<Rule>): (u: RuleUpdate)
    ensures |u.removeRuleIds| == |previousRules|
    ensures forall i :: 0 <= i < |previousRules| ==> u.removeRuleIds[i] == previousRules[i].id
    ensures |u.addRules| == |OwnValues(props)|
    ensures forall i :: 0 <= i < |u.addRules| ==> u.addRules[i] == RuleFor(i + 1, OwnValues(props)[i])
  {
    var creds := OwnValues(props);
    BuildRulesAt(creds);
    RuleUpdate(Ids(previousRules), BuildRules(creds))
  }

  /**
   * The rule builder of `updateDynamicRules`: flattens the credential object,
   * maps the engine's current rules to their ids, and pushes one rule per
   * credential while counting ids up from 1.
   */
  method UpdateDynamicRules(props: seq<Property>, previousRules: seq<Rule>) returns (update: RuleUpdate)
    ensures update == Synchronize(props, previousRules)
    ensures |update.addRules| == |OwnValues(props)|
    ensures forall i :: 0 <= i < |update.addRules| ==> update.addRules[i] == RuleFor(i + 1, OwnValues(props)[i])
    ensures forall i :: 0 <= i < |previousRules| ==> update.removeRuleIds[i] == previousRules[i].id
  {
    var credentialList := CredentialList(props);

    var removeRuleIds := [];
    var j := 0;
    while j < |previousRules|
      invariant 0 <= j <= |previousRules|
      invariant removeRuleIds == Ids(previousRules[..j])
    {
      removeRuleIds := removeRuleIds + [previousRules[j].id];
      j := j + 1;
    }
    assert previousRules[..j] == previousRules;

    var addRules := [];
    var idCounter := 1;
    var k := 0;
    while k < |credentialList|
      invariant 0 <= k <= |credentialList|
      invariant idCounter == k + 1
      invariant |addRules| == k
      invariant forall i :: 0 <= i < k ==> addRules[i] == RuleFor(i + 1, credentialList[i])
    {
      addRules := addRules + [RuleFor(idCounter, credentialList[k])];
      idCounter := idCounter + 1;
      k := k + 1;
    }

    update := RuleUpdate(removeRuleIds, addRules);
  }

  /** The index of the first colon in `b`, if any. */
  function FirstColon(b: seq<Byte>): (r: Option<nat>)
    ensures r.Some? ==> r.value < |b| && b[r.value] == Colon && Colon !in b[..r.value]
    ensures r.None? <==> Colon !in b
    decreases |b|
  {
    if b == [] then None
    else if b[0] == Colon then Some(0)
    else
      match FirstColon(b[1..])
      case None => None
      case Some(k) =>
        assert b[..k + 1] == [b[0]] + b[1..][..k];
        Some(k + 1)
  }

  /**
   * How a server reads a Basic `Authorization` value: strip `Basic `, decode
   * the base64 token, and split it at the first colon into user name and password.
   */
  function ParseBasic(value: string): Option<(seq<Byte>, seq<Byte>)>
  {
    if |value| < |BasicPrefix| || value[..|BasicPrefix|] != BasicPrefix then None
    else
      match Decode(value[|BasicPrefix|..])
      case None => None
      case Some(b) =>
        match FirstColon(b)
        case None => None
        case Some(k) => Some((b[..k], b[k + 1..]))
  }

  /**
   * The header a rule sets carries the credential's user name and password:
   * a server parsing it gets both back, provided the user name has no colon
   * (which section 2 of RFC 7617 forbids in a user-id).
   */
  lemma AuthorizationRoundTrip(c: Credential)
    ensures Colon !in c.username ==> ParseBasic(AuthorizationValue(c)) == Some((c.username, c.password))
  {
    if Colon !in c.username {
      var b := UserPass(c.username, c.password);
      RoundTrip(b);
      var k := FirstColon(b);
      assert b[|c.username|] == Colon;
      assert k.Some?;
      assert k.value == |c.username|;
      assert b[..|c.username|] == c.username;
      assert b[|c.username| + 1..] == c.password;
    }
  }

  /** The rules built for a credential list carry the ids 1, 2, ..., n, in order. */
  lemma BuildRulesIds(creds: seq<Credential>)
    ensures Ids(BuildRules(creds)) == seq(|creds|, i => i + 1)
  {
    BuildRulesAt(creds);
  }

  /** The rules of `installed` whose ids are not in `removed`, in order. */
  function Kept(installed: seq<Rule>, removed: seq<int>): (r: seq<Rule>)
    ensures forall x :: x in r <==> x in installed && x.id !in removed
  {
    if installed == [] then []
    else if installed[0].id in removed then Kept(installed[1..], removed)
    else [installed[0]] + Kept(installed[1..], removed)
  }

  /**
   * The engine's replace-by-id semantics for one update request: the rules
   * whose ids are not removed stay, and the added rules follow.
   */
  function ApplyUpdate(installed: seq<Rule>, update: RuleUpdate): seq<Rule>
  {
    Kept(installed, update.removeRuleIds) + update.addRules
  }

  /** Removing a set of ids that covers every installed rule leaves nothing. */
  lemma {:induction false} KeptNone(installed: seq<Rule>, removed: seq<int>)
    requires forall i :: 0 <= i < |installed| ==> installed[i].id in removed
    ensures Kept(installed, removed) == []
  {
    if installed != [] {
      KeptNone(installed[1..], removed);
    }
  }

  /**
   * One update replaces the whole rule set, whatever was installed before:
   * afterwards the engine holds exactly the rules built from the credentials,
   * and the next update asks to remove exactly their ids 1..n. So, for updates
   * applied one after another, no rule id leaks or is installed twice.
   */
  lemma SynchronizeReplacesAll(props: seq<Property>, previousRules: seq<Rule>, nextProps: seq<Property>)
    ensures ApplyUpdate(previousRules, Synchronize(props, previousRules)) == BuildRules(OwnValues(props))
    ensures Synchronize(nextProps, BuildRules(OwnValues(props))).removeRuleIds
         == seq(|OwnValues(props)|, i => i + 1)
  {
    KeptNone(previousRules, Ids(previousRules));
    BuildRulesIds(OwnValues(props));
  }

  /** The two credentials of a worked example; the second has no priority. */
  const ExampleA := Credential("^https://a\\.com/", [117, 49], [112, 49], Some(2))
  const ExampleB := Credential("^https://b\\.com/", [117, 50], [112, 50], None)

  lemma ExampleRuleA()
    ensures RuleFor(1, ExampleA).priority == 2
    ensures RuleFor(1, ExampleA).action.requestHeaders[0].value == "Basic dTE6cDE="
  {
    assert UserPass(ExampleA.username, ExampleA.password) == [117, 49, 58, 112, 49];
    EncodeU1P1();
  }

  lemma ExampleRuleB()
    ensures RuleFor(2, ExampleB).priority == 1
    ensures RuleFor(2, ExampleB).action.requestHeaders[0].value == "Basic dTI6cDI="
  {
    assert UserPass(ExampleB.username, ExampleB.password) == [117, 50, 58, 112, 50];
    EncodeU2P2();
  }

  /**
   * A worked example: a credential object with two own properties gives
   * rules 1 and 2, in enumeration order, with priorities 2 and 1 and the
   * Basic headers for `u1:p1` and `u2:p2`.
   */
  lemma TwoCredentialsExample()
    ensures Synchronize([Property("A", ExampleA, true), Property("B", ExampleB, true)], []).addRules
         == [RuleFor(1, ExampleA), RuleFor(2, ExampleB)]
    ensures RuleFor(1, ExampleA).priority == 2 && RuleFor(2, ExampleB).priority == 1
    ensures RuleFor(1, ExampleA).action.requestHeaders[0].value == "Basic dTE6cDE="
    ensures RuleFor(2, ExampleB).action.requestHeaders[0].value == "Basic dTI6cDI="
  {
    var props := [Property("A", ExampleA, true), Property("B", ExampleB, true)];
    OwnValuesAllOwn(props);
    assert OwnValues(props) == [ExampleA, ExampleB];
    RulesFromAt([ExampleA, ExampleB], 1, 0);
    RulesFromAt([ExampleA, ExampleB], 1, 1);
    ExampleRuleA();
    ExampleRuleB();
  }

  /** base64 of `u1:p1`. */
  lemma EncodeU1P1()
    ensures Encode([117, 49, 58, 112, 49]) == "dTE6cDE="
  {
    var b: seq<Byte> := [117, 49, 58, 112, 49];
    assert b[3..] == [112, 49];
    var vs := Sextets(b);
    assert vs == [29, 19, 4, 58, 28, 3, 4];
    assert Symbols(vs) == "dTE6cDE";
  }

  /** base64 of `u2:p2`. */
  lemma EncodeU2P2()
    ensures Encode([117, 50, 58, 112, 50]) == "dTI6cDI="
  {
    var b: seq<Byte> := [117, 50, 58, 112, 50];
    assert b[3..] == [112, 50];
    var vs := Sextets(b);
    assert vs == [29, 19, 8, 58, 28, 3, 8];
    assert Symbols(vs) == "dTI6cDI";
  }
}
