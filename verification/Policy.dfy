/** Access policies: matching one statement, and folding many policies into a decision. */
module Policy {
  import opened Outcomes

  /** A decoded JSON value, as far as the matching code tells values apart. */
  datatype Value = Null | Str(s: string) | List(items: seq<Value>) | Object(fields: map<string, Value>) | Other

  datatype Statement = Statement(effect: string, principal: Value, action: Value, resource: Value)

  datatype Policy = Policy(statements: seq<Statement>)

  datatype User = User(username: string, accessKeyID: string, policies: seq<string>, isRoot: bool)

  // ----- matching -----

  predicate HasPrefix(s: string, p: string) {
    |p| <= |s| && s[..|p|] == p
  }

  predicate HasSuffix(s: string, p: string) {
    |p| <= |s| && s[|s| - |p|..] == p
  }

  /** A pattern covers itself; with a star at its end it covers whatever starts with the rest. */
  ghost predicate Covers(pattern: string, value: string) {
    pattern == value || (exists front, rest :: pattern == front + "*" && value == front + rest)
  }

  /** The only wildcard is a star at the end, which stands for any string. */
  predicate MatchWildcard(pattern: string, value: string): (r: bool)
    ensures r <==> pattern == value || (exists front, rest :: pattern == front + "*" && value == front + rest)
    ensures r <==> Covers(pattern, value)
  {
    StarAtTheEnd(pattern, value);
    if pattern == "*" then true
    else if HasSuffix(pattern, "*") then HasPrefix(value, pattern[..|pattern| - 1])
    else pattern == value
  }

  lemma StarAtTheEnd(pattern: string, value: string)
    ensures (exists front, rest :: pattern == front + "*" && value == front + rest) <==>
      HasSuffix(pattern, "*") && HasPrefix(value, pattern[..|pattern| - 1])
    ensures pattern == value && HasSuffix(pattern, "*") ==> HasPrefix(value, pattern[..|pattern| - 1])
  {
    if HasSuffix(pattern, "*") && HasPrefix(value, pattern[..|pattern| - 1]) {
      var front := pattern[..|pattern| - 1];
      assert pattern == front + "*" && value == front + value[|front|..];
    }
    forall front, rest | pattern == front + "*" && value == front + rest
      ensures HasSuffix(pattern, "*") && HasPrefix(value, pattern[..|pattern| - 1])
    {
      assert pattern[..|pattern| - 1] == front;
    }
  }

  predicate MatchList(items: seq<Value>, value: string): (r: bool)
    ensures r <==> exists p :: Str(p) in items && Covers(p, value)
  {
    if items == [] then false
    else
      assert items == [items[0]] + items[1..];
      (items[0].Str? && MatchWildcard(items[0].s, value)) || MatchList(items[1..], value)
  }

  /** The field is this pattern, or a list that holds it. */
  predicate Holds(field: Value, pattern: string) {
    field == Str(pattern) || (field.List? && Str(pattern) in field.items)
  }

  ghost predicate Matches(field: Value, value: string) {
    exists p :: Holds(field, p) && Covers(p, value)
  }

  /** A field matches if it is a pattern that does, or a list that holds one; other items and fields do not. */
  predicate MatchListOrString(field: Value, value: string): (r: bool)
    ensures r <==> Matches(field, value)
  {
    match field
    case Str(p) => assert Holds(field, p); MatchWildcard(p, value)
    case List(items) => assert forall p :: Str(p) in items <==> Holds(field, p); MatchList(items, value)
    case _ => false
  }

  /**
   * Whom a principal names. A string names everyone if it is a star, and otherwise
   * whoever's name or access key follows its last part's slash. An object names the
   * users whose ARN, or whose key's ARN, its "AWS" field matches, and everyone if that
   * matches a star. Nothing else names anyone.
   */
  ghost predicate Names(principal: Value, user: User) {
    || principal == Str("*")
    || (exists text :: principal == Str(text + "/" + user.username))
    || (user.accessKeyID != "" && exists text :: principal == Str(text + "/" + user.accessKeyID))
    || (&& principal.Object? && "AWS" in principal.fields
        && var aws := principal.fields["AWS"];
           || Matches(aws, "arn:aws:iam:::user/" + user.username)
           || (user.accessKeyID != "" && Matches(aws, "arn:aws:iam:::serviceaccount/" + user.accessKeyID))
           || Matches(aws, "*"))
  }

  lemma SuffixIsTail(s: string, name: string)
    ensures HasSuffix(s, "/" + name) <==> exists text :: s == text + "/" + name
  {
    var tail := "/" + name;
    if HasSuffix(s, tail) {
      var text := s[..|s| - |tail|];
      assert s == text + tail;
      assert text + tail == text + "/" + name;
    }
    forall text | s == text + "/" + name
      ensures HasSuffix(s, tail)
    {
      assert s == text + tail;
    }
  }

  predicate MatchPrincipal(principal: Value, user: User): (r: bool)
    ensures r <==> Names(principal, user)
  {
    match principal
    case Str(p) =>
      SuffixIsTail(p, user.username);
      SuffixIsTail(p, user.accessKeyID);
      p == "*" || HasSuffix(p, "/" + user.username) || (user.accessKeyID != "" && HasSuffix(p, "/" + user.accessKeyID))
    case Object(fields) =>
      "AWS" in fields &&
      (MatchListOrString(fields["AWS"], "arn:aws:iam:::user/" + user.username)
       || (user.accessKeyID != "" &&
           MatchListOrString(fields["AWS"], "arn:aws:iam:::serviceaccount/" + user.accessKeyID))
       || MatchListOrString(fields["AWS"], "*"))
    case _ => false
  }

  datatype Request = Request(user: User, action: string, resource: string)

  /** It names the user, and its action and resource match. */
  ghost predicate Applies(st: Statement, q: Request) {
    Names(st.principal, q.user) && Matches(st.action, q.action) && Matches(st.resource, q.resource)
  }

  ghost predicate Grants(st: Statement, q: Request) {
    st.effect == "Allow" && Applies(st, q)
  }

  ghost predicate Forbids(st: Statement, q: Request) {
    st.effect == "Deny" && Applies(st, q)
  }

  // ----- evaluation -----

  ghost predicate Granted(statements: seq<Statement>, q: Request) {
    exists st :: st in statements && Grants(st, q)
  }

  ghost predicate Forbidden(statements: seq<Statement>, q: Request) {
    exists st :: st in statements && Forbids(st, q)
  }

  /** Some statement grants the request and none forbids it. */
  ghost predicate Decision(statements: seq<Statement>, q: Request) {
    Granted(statements, q) && !Forbidden(statements, q)
  }

  lemma Joined(a: seq<Statement>, b: seq<Statement>, q: Request)
    ensures Granted(a + b, q) <==> Granted(a, q) || Granted(b, q)
    ensures Forbidden(a + b, q) <==> Forbidden(a, q) || Forbidden(b, q)
  {
    hide Grants, Forbids;
  }

  lemma Single(st: Statement, q: Request)
    ensures Granted([st], q) <==> Grants(st, q)
    ensures Forbidden([st], q) <==> Forbids(st, q)
  {
    hide Grants, Forbids;
    assert st in [st];
  }

  lemma Nothing(q: Request)
    ensures !Granted([], q) && !Forbidden([], q)
  {
  }

  lemma UpTo(sts: seq<Statement>, i: nat, q: Request)
    requires i < |sts|
    ensures Granted(sts[..i + 1], q) <==> Granted(sts[..i], q) || Grants(sts[i], q)
    ensures Forbidden(sts[..i + 1], q) <==> Forbidden(sts[..i], q) || Forbids(sts[i], q)
  {
    hide Grants, Forbids, Granted, Forbidden;
    assert sts[..i + 1] == sts[..i] + [sts[i]];
    Joined(sts[..i], [sts[i]], q);
    Single(sts[i], q);
  }

  method EvaluatePolicyStatements(policy: Option<Policy>, user: User, action: string, resource: string)
    returns (allowed: bool, denied: bool)
    ensures var q := Request(user, action, resource); var sts := if policy.Some? then policy.value.statements else [];
      (allowed <==> Granted(sts, q)) && (denied <==> Forbidden(sts, q))
  {
    hide MatchPrincipal, MatchListOrString, Names, Matches, Granted, Forbidden;
    allowed, denied := false, false;
    ghost var q := Request(user, action, resource);
    Nothing(q);
    if policy.None? {
      return;
    }
    var sts := policy.value.statements;
    for i := 0 to |sts|
      invariant allowed <==> Granted(sts[..i], q)
      invariant denied <==> Forbidden(sts[..i], q)
    {
      UpTo(sts, i, q);
      var stmt := sts[i];
      if !MatchPrincipal(stmt.principal, user) {
        continue;
      }
      if !MatchListOrString(stmt.action, action) {
        continue;
      }
      if !MatchListOrString(stmt.resource, resource) {
        continue;
      }
      if stmt.effect == "Deny" {
        denied := true;
      } else if stmt.effect == "Allow" {
        allowed := true;
      }
    }
    assert sts[..|sts|] == sts;
  }

  /** One policy alone: granted by a statement and forbidden by none; no policy grants nothing. */
  method EvaluatePolicy(policy: Option<Policy>, user: User, action: string, resource: string) returns (r: bool)
    ensures r <==> policy.Some? && Decision(policy.value.statements, Request(user, action, resource))
  {
    hide MatchPrincipal, MatchListOrString, Names, Matches, Granted, Forbidden;
    ghost var q := Request(user, action, resource);
    Nothing(q);
    if policy.None? {
      return false;
    }
    var sts := policy.value.statements;
    var allowed, denied := false, false;
    for i := 0 to |sts|
      invariant allowed <==> Granted(sts[..i], q)
      invariant denied <==> Forbidden(sts[..i], q)
    {
      UpTo(sts, i, q);
      var stmt := sts[i];
      if !MatchPrincipal(stmt.principal, user) {
        continue;
      }
      if !MatchListOrString(stmt.action, action) {
        continue;
      }
      if !MatchListOrString(stmt.resource, resource) {
        continue;
      }
      if stmt.effect == "Deny" {
        denied := true;
      } else if stmt.effect == "Allow" {
        allowed := true;
      }
    }
    assert sts[..|sts|] == sts;
    r := allowed && !denied;
  }

  /** The answer of a policy store. */
  datatype Fetched = Found(policy: Policy) | NotFound | StoreFailed

  datatype AuthError = IAMFetchFailed(name: string) | BucketFetchFailed

  /** Both stores as they answer during one request. */
  datatype Engine = Engine(iam: string -> Fetched, buckets: string -> Fetched)

  function StatementsOf(f: Fetched): seq<Statement> {
    if f.Found? then f.policy.statements else []
  }

  /** The statements of the named policies that exist, one after the other. */
  function Attached(e: Engine, names: seq<string>): seq<Statement> {
    if names == [] then [] else Attached(e, names[..|names| - 1]) + StatementsOf(e.iam(names[|names| - 1]))
  }

  /** One policy out of all that bear on a request: the user's, then the bucket's. */
  function Combined(e: Engine, user: User, bucket: string): Policy {
    Policy(Attached(e, user.policies) + if bucket != "" then StatementsOf(e.buckets(bucket)) else [])
  }

  /** A statement of a policy that exists and is attached to the user, or is the bucket's. */
  ghost predicate Bears(e: Engine, user: User, bucket: string, st: Statement) {
    || (exists name :: name in user.policies && e.iam(name).Found? && st in e.iam(name).policy.statements)
    || (bucket != "" && e.buckets(bucket).Found? && st in e.buckets(bucket).policy.statements)
  }

  lemma {:induction false} AttachedHolds(e: Engine, names: seq<string>, st: Statement)
    ensures st in Attached(e, names) <==> exists name :: name in names && st in StatementsOf(e.iam(name))
  {
    hide StatementsOf;
    if names != [] {
      var front, last := names[..|names| - 1], names[|names| - 1];
      assert names == front + [last];
      AttachedHolds(e, front, st);
    }
  }

  lemma CombinedBears(e: Engine, user: User, bucket: string)
    ensures forall st :: st in Combined(e, user, bucket).statements <==> Bears(e, user, bucket, st)
  {
    forall st
      ensures st in Combined(e, user, bucket).statements <==> Bears(e, user, bucket, st)
    {
      AttachedHolds(e, user.policies, st);
    }
  }

  /** The decision, said of the policies in the stores. */
  lemma DecisionBears(e: Engine, user: User, bucket: string, q: Request)
    ensures Decision(Combined(e, user, bucket).statements, q) <==>
      && (exists st :: Bears(e, user, bucket, st) && st.effect == "Allow" && Applies(st, q))
      && !(exists st :: Bears(e, user, bucket, st) && st.effect == "Deny" && Applies(st, q))
  {
    hide Bears, Combined, Applies;
    CombinedBears(e, user, bucket);
  }

  ghost predicate SomeFetchFails(e: Engine, user: User, bucket: string) {
    || (exists name :: name in user.policies && e.iam(name) == StoreFailed)
    || (bucket != "" && e.buckets(bucket) == StoreFailed)
  }

  /**
   * Granted if some statement that bears on the request allows it and none denies it,
   * so never to a user whom no statement names; the call fails exactly if a store does,
   * and root is always allowed.
   */
  method IsAllowed(
    e: Engine, user: User, action: string, resource: string, bucket: string)
    returns (r: Result<bool, AuthError>)
    ensures user.isRoot ==> r == Ok(true)
    ensures !user.isRoot ==> (r.Err? <==> SomeFetchFails(e, user, bucket))
    ensures r.Err? && r.error.IAMFetchFailed? ==> r.error.name in user.policies && e.iam(r.error.name) == StoreFailed
    ensures r == Err(BucketFetchFailed) ==>
      && bucket != "" && e.buckets(bucket) == StoreFailed
      && forall name :: name in user.policies ==> e.iam(name) != StoreFailed
    ensures !user.isRoot && r.Ok? ==>
      (r.value <==> Decision(Combined(e, user, bucket).statements, Request(user, action, resource)))
    ensures !user.isRoot && r.Ok? ==> var q := Request(user, action, resource);
      (r.value <==>
        && (exists st :: Bears(e, user, bucket, st) && st.effect == "Allow" && Applies(st, q))
        && !(exists st :: Bears(e, user, bucket, st) && st.effect == "Deny" && Applies(st, q)))
    ensures !user.isRoot && (forall st :: Bears(e, user, bucket, st) ==> !Names(st.principal, user)) ==> r != Ok(true)
  {
    hide Granted, Forbidden, Bears, Names, Matches;
    DecisionBears(e, user, bucket, Request(user, action, resource));
    if user.isRoot {
      return Ok(true);
    }
    ghost var q := Request(user, action, resource);
    Nothing(q);
    var allowed, denied := false, false;
    for i := 0 to |user.policies|
      invariant forall j :: 0 <= j < i ==> e.iam(user.policies[j]) != StoreFailed
      invariant allowed <==> Granted(Attached(e, user.policies[..i]), q)
      invariant denied <==> Forbidden(Attached(e, user.policies[..i]), q)
    {
      Joined(Attached(e, user.policies[..i]), StatementsOf(e.iam(user.policies[i])), q);
      assert user.policies[..i + 1][..i] == user.policies[..i];
      var policyName := user.policies[i];
      var fetched := e.iam(policyName);
      if fetched == NotFound {
        continue;
      }
      if fetched == StoreFailed {
        return Err(IAMFetchFailed(policyName));
      }
      var a, d := EvaluatePolicyStatements(Some(fetched.policy), user, action, resource);
      if d {
        denied := true;
      }
      if a {
        allowed := true;
      }
    }
    assert user.policies[..|user.policies|] == user.policies;
    Joined(Attached(e, user.policies), if bucket != "" then StatementsOf(e.buckets(bucket)) else [], q);
    if bucket != "" {
      var fetched := e.buckets(bucket);
      if fetched == StoreFailed {
        return Err(BucketFetchFailed);
      }
      if fetched.Found? {
        var a, d := EvaluatePolicyStatements(Some(fetched.policy), user, action, resource);
        if d {
          denied := true;
        }
        if a {
          allowed := true;
        }
      }
    }
    if denied {
      return Ok(false);
    }
    r := Ok(allowed);
  }

  // ----- laws of the decision -----

  /** Order and repetition of statements do not matter. */
  lemma SameStatementsSameDecision(a: seq<Statement>, b: seq<Statement>, q: Request)
    requires forall st :: st in a <==> st in b
    ensures Decision(a, q) <==> Decision(b, q)
  {
    hide Grants, Forbids;
  }

  /** Nor do order and repetition of the attached policies. */
  lemma SamePoliciesSameDecision(e: Engine, u: User, v: User, bucket: string, q: Request)
    requires forall name :: name in u.policies <==> name in v.policies
    ensures Decision(Combined(e, u, bucket).statements, q) <==> Decision(Combined(e, v, bucket).statements, q)
  {
    forall st
      ensures st in Combined(e, u, bucket).statements <==> st in Combined(e, v, bucket).statements
    {
      AttachedHolds(e, u.policies, st);
      AttachedHolds(e, v.policies, st);
    }
    SameStatementsSameDecision(Combined(e, u, bucket).statements, Combined(e, v, bucket).statements, q);
  }

  lemma Inserted(a: seq<Statement>, b: seq<Statement>, st: Statement, q: Request)
    ensures Granted(a + [st] + b, q) <==> Granted(a + b, q) || Grants(st, q)
    ensures Forbidden(a + [st] + b, q) <==> Forbidden(a + b, q) || Forbids(st, q)
  {
    hide Granted, Forbidden, Grants, Forbids;
    Joined(a + [st], b, q);
    Joined(a, [st], q);
    Joined(a, b, q);
    Single(st, q);
  }

  /** Adding a Deny: the decision stands unless it applies, so a refusal never becomes a grant. */
  lemma AddingDeny(a: seq<Statement>, b: seq<Statement>, deny: Statement, q: Request)
    requires deny.effect == "Deny"
    ensures Decision(a + [deny] + b, q) <==> Decision(a + b, q) && !Applies(deny, q)
  {
    hide Applies, Granted, Forbidden;
    Inserted(a, b, deny, q);
  }

  /** Adding an Allow: it grants where it applies and nothing forbids, so a grant never becomes a refusal. */
  lemma AddingAllow(a: seq<Statement>, b: seq<Statement>, allow: Statement, q: Request)
    requires allow.effect == "Allow"
    ensures Decision(a + [allow] + b, q) <==>
      Decision(a + b, q) || (Applies(allow, q) && !Forbidden(a + b, q))
  {
    hide Applies, Granted, Forbidden;
    Inserted(a, b, allow, q);
  }

  /** The statements that name a principal at all. */
  function WithPrincipal(statements: seq<Statement>): seq<Statement> {
    if statements == [] then []
    else (if statements[0].principal == Null then [] else [statements[0]]) + WithPrincipal(statements[1..])
  }

  lemma {:induction false} WithPrincipalHolds(statements: seq<Statement>, st: Statement)
    ensures st in WithPrincipal(statements) <==> st in statements && st.principal != Null
  {
    if statements != [] {
      WithPrincipalHolds(statements[1..], st);
      assert statements == [statements[0]] + statements[1..];
    }
  }

  lemma NeverApplies(st: Statement, q: Request)
    requires st.principal == Null
    ensures !Grants(st, q) && !Forbids(st, q)
  {
  }

  /** Statements without a principal play no part, in the policies of a user either: neither Allow nor Deny. */
  lemma OnlyPrincipalsCount(statements: seq<Statement>, q: Request)
    ensures Decision(statements, q) <==> Decision(WithPrincipal(statements), q)
  {
    hide Grants, Forbids;
    forall st
      ensures st in WithPrincipal(statements) <==> st in statements && st.principal != Null
      ensures st.principal == Null ==> !Grants(st, q) && !Forbids(st, q)
    {
      WithPrincipalHolds(statements, st);
      if st.principal == Null { NeverApplies(st, q); }
    }
  }
}
