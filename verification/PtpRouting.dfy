/** Longest-prefix routing of path-protocol addresses, and the send access built on it. */
module PtpRouting {
  import opened Bytes
  import opened VarLenBytes
  import opened PtpHeader

  /** A subnet's prefix and where to send; `None` is a null pointer, which the source lets callers add. */
  datatype Rule<R> = Rule(prefix: Addr, route: Option<R>)

  /** The prefix has to be shorter than the address. */
  predicate Inside(prefix: Addr, addr: Addr) {
    |prefix| < |addr| && addr[..|prefix|] == prefix
  }

  method IsInsideSubnet(prefix: Addr, addr: Addr) returns (r: bool)
    ensures r == Inside(prefix, addr)
  {
    if !(|prefix| < |addr|) {
      return false;
    }
    for i := 0 to |prefix|
      invariant prefix[..i] == addr[..i]
    {
      if prefix[i] != addr[i] {
        assert addr[..|prefix|][i] != prefix[i];
        return false;
      }
    }
    return true;
  }

  // ---------- which rule wins ----------

  /** k is the earliest of the matching rules of greatest length. */
  ghost predicate Wins<R>(rules: seq<Rule<R>>, addr: Addr, k: int) {
    && 0 <= k < |rules| && Inside(rules[k].prefix, addr)
    && forall i :: 0 <= i < |rules| && Inside(rules[i].prefix, addr) ==>
         |rules[i].prefix| < |rules[k].prefix| || (|rules[i].prefix| == |rules[k].prefix| && k <= i)
  }

  ghost predicate Matches<R>(rules: seq<Rule<R>>, addr: Addr) {
    exists k :: 0 <= k < |rules| && Inside(rules[k].prefix, addr)
  }

  /** The route of the winning rule, and null if no rule matches. */
  ghost predicate IsRoute<R>(rules: seq<Rule<R>>, addr: Addr, route: Option<R>) {
    if Matches(rules, addr)
    then exists k :: Wins(rules, addr, k) && route == rules[k].route
    else route == None
  }

  lemma RouteIsUnique<R>(rules: seq<Rule<R>>, addr: Addr, x: Option<R>, y: Option<R>)
    requires IsRoute(rules, addr, x) && IsRoute(rules, addr, y)
    ensures x == y
  {
    if Matches(rules, addr) {
      var i :| Wins(rules, addr, i) && x == rules[i].route;
      var j :| Wins(rules, addr, j) && y == rules[j].route;
      assert i == j;
    }
  }

  class RoutingTable<R> {
    var rules: seq<Rule<R>>
    var defaultGateway: Option<R>

    constructor ()
      ensures rules == [] && defaultGateway == None
    {
      rules, defaultGateway := [], None;
    }

    method AddRoutingRule(prefix: Addr, route: Option<R>)
      modifies this
      ensures rules == old(rules) + [Rule(prefix, route)] && defaultGateway == old(defaultGateway)
    {
      rules := rules + [Rule(prefix, route)];
    }

    method SetDefaultGateway(route: Option<R>)
      modifies this
      ensures defaultGateway == route && rules == old(rules)
    {
      defaultGateway := route;
    }

    method ImplFindRoute(addr: Addr) returns (closestRoute: Option<R>)
      ensures IsRoute(rules, addr, closestRoute)
    {
      var closestSubnet: Option<Addr> := None;
      closestRoute := None;
      ghost var best := -1;
      for i := 0 to |rules|
        invariant closestSubnet.None? ==> closestRoute == None && !Matches(rules[..i], addr)
        invariant closestSubnet.Some? ==>
                    && Wins(rules[..i], addr, best)
                    && closestSubnet.value == rules[best].prefix && closestRoute == rules[best].route
      {
        var inside := IsInsideSubnet(rules[i].prefix, addr);
        if inside {
          if closestSubnet.None? {
            closestSubnet, closestRoute := Some(rules[i].prefix), rules[i].route;
            best := i;
          } else if |rules[i].prefix| > |closestSubnet.value| {
            closestSubnet, closestRoute := Some(rules[i].prefix), rules[i].route;
            best := i;
          }
        }
      }
      assert rules[..|rules|] == rules;
    }

    /** The default gateway serves when no rule matches, and also when the winning rule's route is null. */
    method FindRoute(addr: Addr) returns (r: Option<R>)
      ensures Resolves(rules, defaultGateway, addr, r)
    {
      var route := ImplFindRoute(addr);
      r := if route.Some? then route else defaultGateway;
    }
  }

  /** The winner's route, if a rule wins and has one, and else the gateway. */
  ghost predicate Resolves<R>(rules: seq<Rule<R>>, gateway: Option<R>, addr: Addr, r: Option<R>) {
    if Matches(rules, addr)
    then exists k :: Wins(rules, addr, k) && r == if rules[k].route.Some? then rules[k].route else gateway
    else r == gateway
  }

  /** The gateway serves exactly where the rules give no route, so with a gateway set there is always a route. */
  lemma GatewayServes<R>(rules: seq<Rule<R>>, gateway: Option<R>, addr: Addr, route: Option<R>, r: Option<R>)
    requires IsRoute(rules, addr, route)
    ensures Resolves(rules, gateway, addr, r) <==> r == if route.Some? then route else gateway
  {
    if Matches(rules, addr) {
      var k :| Wins(rules, addr, k) && route == rules[k].route;
      if Resolves(rules, gateway, addr, r) {
        var j :| Wins(rules, addr, j) && r == if rules[j].route.Some? then rules[j].route else gateway;
        assert j == k;
      }
    }
  }

  /** There is a winner whenever there is a match. */
  lemma {:induction false} SomeRuleWins<R>(rules: seq<Rule<R>>, addr: Addr) returns (k: int)
    requires Matches(rules, addr)
    ensures Wins(rules, addr, k)
    decreases |rules|
  {
    var n := |rules| - 1;
    var front := rules[..n];
    if Matches(front, addr) {
      k := SomeRuleWins(front, addr);
      if Inside(rules[n].prefix, addr) && |rules[n].prefix| > |rules[k].prefix| {
        k := n;
      }
    } else {
      k := n;
      assert forall i :: 0 <= i < n ==> rules[i] == front[i];
    }
  }

  // ---------- when the order of the rules matters ----------

  /** Two rules for one prefix agree on the route. */
  ghost predicate Consistent<R>(rules: seq<Rule<R>>) {
    forall i, j :: 0 <= i < |rules| && 0 <= j < |rules| && rules[i].prefix == rules[j].prefix ==>
      rules[i].route == rules[j].route
  }

  ghost predicate SameRules<R>(a: seq<Rule<R>>, b: seq<Rule<R>>) {
    multiset(a) == multiset(b)
  }

  /** Prefixes of one address are told apart by their lengths. */
  lemma SameLengthSamePrefix(p: Addr, q: Addr, addr: Addr)
    requires Inside(p, addr) && Inside(q, addr) && |p| == |q|
    ensures p == q
  {
  }

  lemma SameElements<R>(a: seq<Rule<R>>, b: seq<Rule<R>>, x: Rule<R>) returns (j: nat)
    requires SameRules(a, b) && x in a
    ensures j < |b| && b[j] == x
  {
    assert x in multiset(a) && x in multiset(b);
    j :| 0 <= j < |b| && b[j] == x;
  }

  lemma MatchesMoves<R>(a: seq<Rule<R>>, b: seq<Rule<R>>, addr: Addr)
    requires SameRules(a, b) && Matches(a, addr)
    ensures Matches(b, addr)
  {
    var k :| 0 <= k < |a| && Inside(a[k].prefix, addr);
    var j := SameElements(a, b, a[k]);
    assert Inside(b[j].prefix, addr);
  }

  lemma ConsistentIsOrderless<R>(a: seq<Rule<R>>, b: seq<Rule<R>>, addr: Addr, route: Option<R>)
    requires Consistent(a) && SameRules(a, b) && IsRoute(a, addr, route)
    ensures IsRoute(b, addr, route)
  {
    if Matches(a, addr) {
      MatchesMoves(a, b, addr);
      var k :| Wins(a, addr, k) && route == a[k].route;
      var w := SomeRuleWins(b, addr);
      WinnersAgree(a, b, addr, k, w);
    } else if Matches(b, addr) {
      MatchesMoves(b, a, addr);
    }
  }

  lemma WinnersAgree<R>(a: seq<Rule<R>>, b: seq<Rule<R>>, addr: Addr, k: int, w: int)
    requires Consistent(a) && SameRules(a, b) && Wins(a, addr, k) && Wins(b, addr, w)
    ensures a[k].route == b[w].route
  {
    var i := SameElements(b, a, b[w]);
    var j := SameElements(a, b, a[k]);
    assert Inside(a[i].prefix, addr) && Inside(b[j].prefix, addr);
    SameLengthSamePrefix(a[i].prefix, a[k].prefix, addr);
  }

  /** The rules with the k-th moved to the front. */
  ghost function Promoted<R>(rules: seq<Rule<R>>, k: nat): seq<Rule<R>>
    requires k < |rules|
  {
    [rules[k]] + rules[..k] + rules[k + 1..]
  }

  lemma PromotedIsSame<R>(rules: seq<Rule<R>>, k: nat)
    requires k < |rules|
    ensures SameRules(Promoted(rules, k), rules)
  {
    assert rules == rules[..k] + [rules[k]] + rules[k + 1..];
  }

  /** For an address just below its prefix, a promoted rule wins. */
  lemma PromotedWins<R>(rules: seq<Rule<R>>, k: nat)
    requires k < |rules|
    ensures IsRoute(Promoted(rules, k), rules[k].prefix + [0], rules[k].route)
  {
    var p, addr := Promoted(rules, k), rules[k].prefix + [0];
    assert p[0] == rules[k];
    assert addr[..|rules[k].prefix|] == rules[k].prefix;
    assert Wins(p, addr, 0);
    assert Matches(p, addr);
  }

  /** Routing does not depend on the order the rules were added in exactly when they are consistent. */
  lemma OrderlessIffConsistent<R(!new)>(rules: seq<Rule<R>>)
    ensures (forall other, addr, route :: SameRules(rules, other) && IsRoute(rules, addr, route)
                                          ==> IsRoute(other, addr, route))
       <==> Consistent(rules)
  {
    if Consistent(rules) {
      forall other, addr, route | SameRules(rules, other) && IsRoute(rules, addr, route)
        ensures IsRoute(other, addr, route)
      {
        ConsistentIsOrderless(rules, other, addr, route);
      }
    } else {
      var i, j :| 0 <= i < |rules| && 0 <= j < |rules| && rules[i].prefix == rules[j].prefix
               && rules[i].route != rules[j].route;
      var addr := rules[i].prefix + [0];
      PromotedIsSame(rules, i);
      PromotedIsSame(rules, j);
      PromotedWins(rules, i);
      PromotedWins(rules, j);
      var route := RouteExists(rules, addr);
      var k := if route == rules[i].route then j else i;
      assert SameRules(rules, Promoted(rules, k)) && IsRoute(rules, addr, route);
      if IsRoute(Promoted(rules, k), addr, route) {
        RouteIsUnique(Promoted(rules, k), addr, route, rules[k].route);
      }
    }
  }

  lemma RouteExists<R>(rules: seq<Rule<R>>, addr: Addr) returns (route: Option<R>)
    ensures IsRoute(rules, addr, route)
  {
    if Matches(rules, addr) {
      var k := SomeRuleWins(rules, addr);
      route := rules[k].route;
    } else {
      route := None;
    }
  }

  // ---------- sending along the current hop ----------

  /** `Broken`: the header can not be read, or its current action is past the last one. */
  datatype Sent<R> = SentOn(route: R) | Err | Broken

  /** The send access: a packet goes out on the route to where its current hop leads. */
  method SendData<R>(table: RoutingTable<R>, packet: seq<byte>) returns (r: Sent<R>)
    ensures var p := ParseHeader(packet);
            if !p.Parsed? || p.value.currAction >= |p.value.actions| then r == Broken
            else
              var a := p.value.actions[p.value.currAction];
              if !a.LocalConn? then r == Err
              else exists route :: Resolves(table.rules, table.defaultGateway, a.destAddr, route)
                                   && r == if route.Some? then SentOn(route.value) else Err
  {
    var p := ExtractHeader(packet);
    if !p.Parsed? || p.value.currAction >= |p.value.actions| {
      return Broken;
    }
    var a := p.value.actions[p.value.currAction];
    if !a.LocalConn? {
      return Err;
    }
    var route := table.FindRoute(a.destAddr);
    if route.None? {
      return Err;
    }
    return SentOn(route.value);
  }
}
