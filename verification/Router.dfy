/** Forwarding rules of the endpoint router and what they mean for a message. */
module Router {
  import opened Basics

  type Endpoint = nat

  datatype Action = Accept | Reject

  /** A filter with an empty prefix matches every message. */
  datatype Filter = Filter(action: Action, data: seq<byte>)

  /** Forwards to the publishing endpoint of one port. */
  datatype Rule = Rule(dst: Endpoint, filters: seq<Filter>)

  const MAX_PREFIX_LEN := 8

  // ---------------------------------------------------------------------------
  // Direct evaluation
  // ---------------------------------------------------------------------------

  predicate Matches(f: Filter, data: seq<byte>) {
    f.data == [] || f.data <= data
  }

  /** The first filter that matches decides. */
  function FirstMatch(filters: seq<Filter>, data: seq<byte>): Option<Action> {
    if filters == [] then None
    else if Matches(filters[0], data) then Some(filters[0].action)
    else FirstMatch(filters[1..], data)
  }

  /** The endpoints a message goes to: one per accepting rule, in rule order. */
  function Route(rules: seq<Rule>, data: seq<byte>): seq<Endpoint> {
    if rules == [] then []
    else (if FirstMatch(rules[0].filters, data) == Some(Accept) then [rules[0].dst] else [])
         + Route(rules[1..], data)
  }

  // ---------------------------------------------------------------------------
  // Prefixes
  // ---------------------------------------------------------------------------

  /** The non-empty prefixes of a list of filters, in order. */
  function FilterPrefixes(filters: seq<Filter>): seq<seq<byte>> {
    if filters == [] then []
    else (if filters[0].data != [] then [filters[0].data] else []) + FilterPrefixes(filters[1..])
  }

  function AllPrefixes(rules: seq<Rule>): seq<seq<byte>> {
    if rules == [] then [] else FilterPrefixes(rules[0].filters) + AllPrefixes(rules[1..])
  }

  /** What a cache can be built for: non-empty prefixes of one length, at most eight. */
  ghost predicate Cacheable(prefixes: seq<seq<byte>>) {
    && (forall x :: x in prefixes ==> |x| <= MAX_PREFIX_LEN)
    && (forall x, y :: x in prefixes && y in prefixes ==> |x| == |y|)
  }

  lemma {:induction false} FilterPrefixesIn(filters: seq<Filter>, x: seq<byte>)
    ensures x in FilterPrefixes(filters) <==> x != [] && exists i :: 0 <= i < |filters| && filters[i].data == x
  {
    if filters != [] {
      FilterPrefixesIn(filters[1..], x);
      if i :| 0 <= i < |filters| && filters[i].data == x {
        assert i > 0 ==> filters[1..][i - 1].data == x;
      }
    }
  }

  /** Some filter of some rule has this prefix. */
  ghost predicate Occurs(rules: seq<Rule>, x: seq<byte>) {
    exists i, j :: 0 <= i < |rules| && 0 <= j < |rules[i].filters| && rules[i].filters[j].data == x
  }

  lemma {:induction false} AllPrefixesIn(rules: seq<Rule>, x: seq<byte>)
    ensures x in AllPrefixes(rules) <==> x != [] && Occurs(rules, x)
  {
    if rules != [] {
      FilterPrefixesIn(rules[0].filters, x);
      AllPrefixesIn(rules[1..], x);
      OccursMore(rules, x);
    }
  }

  lemma OccursMore(rules: seq<Rule>, x: seq<byte>)
    requires rules != []
    ensures Occurs(rules, x)
       <==> (exists j :: 0 <= j < |rules[0].filters| && rules[0].filters[j].data == x) || Occurs(rules[1..], x)
  {
    if i, j :| 0 <= i < |rules| && 0 <= j < |rules[i].filters| && rules[i].filters[j].data == x {
      if i > 0 {
        assert rules[1..][i - 1].filters[j].data == x;
      }
    }
    if i, j :| 0 <= i < |rules[1..]| && 0 <= j < |rules[1..][i].filters| && rules[1..][i].filters[j].data == x {
      assert rules[i + 1].filters[j].data == x;
    }
  }

  /** A cache can be built exactly if no two non-empty filters of the rules differ in length and none
      is longer than eight bytes. */
  lemma CacheableIff(rules: seq<Rule>)
    ensures Cacheable(AllPrefixes(rules)) <==>
            forall x, y :: x != [] && y != [] && Occurs(rules, x) && Occurs(rules, y)
                           ==> |x| == |y| <= MAX_PREFIX_LEN
  {
    hide Occurs, AllPrefixes;
    forall x ensures x in AllPrefixes(rules) <==> x != [] && Occurs(rules, x) {
      AllPrefixesIn(rules, x);
    }
  }

  // ---------------------------------------------------------------------------
  // Messages whose prefix is known, and others
  // ---------------------------------------------------------------------------

  /** When every non-empty prefix of a list of filters has length n, only the first n bytes
      of a message count. */
  lemma {:induction false} PrefixDecides(filters: seq<Filter>, n: nat, data: seq<byte>)
    requires forall x :: x in FilterPrefixes(filters) ==> |x| == n
    requires n <= |data|
    ensures FirstMatch(filters, data) == FirstMatch(filters, data[..n])
  {
    if filters != [] {
      forall x | x in FilterPrefixes(filters[1..]) ensures |x| == n { assert x in FilterPrefixes(filters); }
      PrefixDecides(filters[1..], n, data);
      if filters[0].data != [] {
        assert filters[0].data in FilterPrefixes(filters);
        assert filters[0].data <= data <==> filters[0].data == data[..n];
      }
    }
  }

  /** The action of the first filter that matches everything. */
  function Default(filters: seq<Filter>): Option<Action> {
    if filters == [] then None
    else if filters[0].data == [] then Some(filters[0].action)
    else Default(filters[1..])
  }

  /** A message that starts with none of the prefixes is decided by that filter. */
  lemma {:induction false} UnmatchedDecides(filters: seq<Filter>, data: seq<byte>)
    requires forall x :: x in FilterPrefixes(filters) ==> !(x <= data)
    ensures FirstMatch(filters, data) == Default(filters)
  {
    if filters != [] {
      forall x | x in FilterPrefixes(filters[1..]) ensures !(x <= data) { assert x in FilterPrefixes(filters); }
      UnmatchedDecides(filters[1..], data);
      if filters[0].data != [] { assert filters[0].data in FilterPrefixes(filters); }
    }
  }

  /** What the cache looks at instead: the action of the last filter. */
  function Last(filters: seq<Filter>): Option<Action> {
    if filters == [] then None else Some(filters[|filters| - 1].action)
  }

  /** The default-accept list of a cache. */
  function AcceptPorts(rules: seq<Rule>): seq<Endpoint> {
    if rules == [] then []
    else (if Last(rules[0].filters) == Some(Accept) then [rules[0].dst] else []) + AcceptPorts(rules[1..])
  }

  /** The endpoints that direct evaluation picks for a message with an unknown prefix. */
  function DefaultPorts(rules: seq<Rule>): seq<Endpoint> {
    if rules == [] then []
    else (if Default(rules[0].filters) == Some(Accept) then [rules[0].dst] else []) + DefaultPorts(rules[1..])
  }

  lemma InEither(rules: seq<Rule>)
    requires rules != []
    ensures forall x :: x in FilterPrefixes(rules[0].filters) ==> x in AllPrefixes(rules)
    ensures forall x :: x in AllPrefixes(rules[1..]) ==> x in AllPrefixes(rules)
  {
  }

  lemma {:induction false} UnmatchedRoutes(rules: seq<Rule>, data: seq<byte>)
    requires forall x :: x in AllPrefixes(rules) ==> !(x <= data)
    ensures Route(rules, data) == DefaultPorts(rules)
  {
    if rules != [] {
      InEither(rules);
      UnmatchedDecides(rules[0].filters, data);
      UnmatchedRoutes(rules[1..], data);
    }
  }

  lemma {:induction false} PrefixRoutes(rules: seq<Rule>, n: nat, data: seq<byte>)
    requires forall x :: x in AllPrefixes(rules) ==> |x| == n
    requires n <= |data|
    ensures Route(rules, data) == Route(rules, data[..n])
  {
    if rules != [] {
      InEither(rules);
      PrefixDecides(rules[0].filters, n, data);
      PrefixRoutes(rules[1..], n, data);
    }
  }

  // ---------------------------------------------------------------------------
  // The shape that makes the default-accept list right
  // ---------------------------------------------------------------------------

  /** The last filter accepts exactly when the first empty one does. */
  predicate DefaultAgrees(r: Rule) {
    Last(r.filters) == Some(Accept) <==> Default(r.filters) == Some(Accept)
  }

  ghost predicate WellShaped(rules: seq<Rule>) {
    forall i :: 0 <= i < |rules| ==> DefaultAgrees(rules[i])
  }

  ghost predicate DistinctDestinations(rules: seq<Rule>) {
    forall i, j :: 0 <= i < j < |rules| ==> rules[i].dst != rules[j].dst
  }

  lemma {:induction false} WellShapedSuffices(rules: seq<Rule>)
    requires WellShaped(rules)
    ensures AcceptPorts(rules) == DefaultPorts(rules)
  {
    if rules != [] {
      assert DefaultAgrees(rules[0]);
      WellShapedSuffices(rules[1..]);
    }
  }

  lemma {:induction false} PortsAreDestinations(rules: seq<Rule>, e: Endpoint)
    requires e in AcceptPorts(rules) || e in DefaultPorts(rules)
    ensures exists i :: 0 <= i < |rules| && rules[i].dst == e
  {
    if e != rules[0].dst {
      PortsAreDestinations(rules[1..], e);
      var i :| 0 <= i < |rules[1..]| && rules[1..][i].dst == e;
      assert rules[i + 1].dst == e;
    }
  }

  lemma FrontsAgree(e: Endpoint, p: bool, q: bool, a: seq<Endpoint>, d: seq<Endpoint>)
    requires e !in a && e !in d
    requires (if p then [e] else []) + a == (if q then [e] else []) + d
    ensures p == q && a == d
  {
    var l, r := (if p then [e] else []) + a, (if q then [e] else []) + d;
    assert e in l <==> p;
    assert e in r <==> q;
    assert a == l[|l| - |a|..] && d == r[|r| - |d|..];
  }

  lemma {:induction false} WellShapedNeeded(rules: seq<Rule>)
    requires DistinctDestinations(rules) && AcceptPorts(rules) == DefaultPorts(rules)
    ensures WellShaped(rules)
  {
    if rules != [] {
      var e, rest := rules[0].dst, rules[1..];
      assert e !in AcceptPorts(rest) && e !in DefaultPorts(rest) by {
        if e in AcceptPorts(rest) || e in DefaultPorts(rest) { PortsAreDestinations(rest, e); }
      }
      FrontsAgree(e, Last(rules[0].filters) == Some(Accept), Default(rules[0].filters) == Some(Accept),
                  AcceptPorts(rest), DefaultPorts(rest));
      WellShapedNeeded(rest);
    }
  }

  /** With a repeated destination the lists can agree although single rules do not: here the first
      rule is taken for a default accept, and the second one, which is, is not. */
  lemma RepeatedExample() returns (rules: seq<Rule>)
    ensures Cacheable(AllPrefixes(rules)) && !WellShaped(rules) && AcceptPorts(rules) == DefaultPorts(rules)
  {
    var prefixed, all, none := Filter(Accept, [0x55]), Filter(Accept, []), Filter(Reject, []);
    var first, second := Rule(1, [prefixed]), Rule(1, [all, none]);
    rules := [first, second];
    var rest: seq<Rule> := [second];
    assert rules[1..] == rest && rest[1..] == [] && first.filters[1..] == [];
    var last: seq<Filter> := [none];
    assert last[1..] == [] && second.filters[1..] == last;
    assert FilterPrefixes(last[1..]) == [] && FilterPrefixes(last) == [] + FilterPrefixes(last[1..]);
    assert FilterPrefixes(first.filters) == [[0x55]];
    assert FilterPrefixes(second.filters) == FilterPrefixes(last);
    assert AllPrefixes(rest) == [] && AllPrefixes(rules) == [[0x55]];
    assert Last(first.filters) == Some(Accept) && Default(first.filters) == None;
    assert Last(second.filters) == Some(Reject) && Default(second.filters) == Some(Accept);
    assert !DefaultAgrees(rules[0]);
    assert AcceptPorts(rest) == [] && DefaultPorts(rest) == [1];
  }

  /** Empty filters only in last position, and an accepting last filter is empty: the shape
      of the shipped configurations. */
  ghost predicate Conventional(r: Rule) {
    forall i :: 0 <= i < |r.filters| ==>
      && (r.filters[i].data == [] ==> i == |r.filters| - 1)
      && (i == |r.filters| - 1 && r.filters[i].action == Accept ==> r.filters[i].data == [])
  }

  lemma {:induction false} ConventionalAgrees(r: Rule)
    requires Conventional(r)
    ensures DefaultAgrees(r)
    decreases |r.filters|
  {
    if |r.filters| > 1 {
      var rest := Rule(r.dst, r.filters[1..]);
      assert r.filters[0].data != [];
      assert forall i :: 0 <= i < |rest.filters| ==> rest.filters[i] == r.filters[i + 1];
      ConventionalAgrees(rest);
    } else if |r.filters| == 1 {
      assert r.filters[0].action == Accept ==> r.filters[0].data == [];
    }
  }

  /** A rule whose last filter accepts a prefix of its own: the cache forwards any message
      with another start, which the rule does not. */
  lemma IllShapedExample() returns (rules: seq<Rule>, data: seq<byte>)
    ensures Cacheable(AllPrefixes(rules)) && DistinctDestinations(rules)
    ensures forall x :: x in AllPrefixes(rules) ==> !(x <= data)
    ensures Route(rules, data) == [] && AcceptPorts(rules) != []
  {
    var filter := Filter(Accept, [0x55]);
    var rule := Rule(1, [filter]);
    rules, data := [rule], [0xD3];
    assert rules[1..] == [] && rule.filters[1..] == [];
    assert FilterPrefixes(rule.filters) == [[0x55]];
    assert AllPrefixes(rules) == [[0x55]];
    assert !([0x55] <= data) by { assert [0x55][0] != data[0]; }
    assert FirstMatch(rule.filters, data) == None;
  }
}
