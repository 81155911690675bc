/** The rule cache of one port of the endpoint router: a perfect-hash table from prefixes to
    endpoints, and a list of endpoints that accept by default. */
module RuleCache {
  import opened Basics
  import opened Router
  import opened RouterMeaning
  import opened PrefixLists

  const SIZE_MAX := 0xFFFF_FFFF

  // ---------------------------------------------------------------------------
  // extract_rule_prefixes
  // ---------------------------------------------------------------------------

  /** Non-empty, of one length, at most eight bytes: what has been seen of the prefixes so
      far; `len` is that length, -1 while there is none. */
  ghost predicate Seen(prefixes: seq<seq<byte>>, len: int) {
    && (len == -1 <==> prefixes == [])
    && len <= MAX_PREFIX_LEN
    && (forall x :: x in prefixes ==> |x| == len)
  }

  /** The loop over the filters of one rule: checks prefix lengths and finds the last. */
  method CheckFilters(filters: seq<Filter>, before: int, ghost earlier: seq<seq<byte>>)
    returns (ok: bool, len: int, last: Option<Action>)
    requires Seen(earlier, before)
    ensures ok ==> Seen(earlier + FilterPrefixes(filters), len) && last == Last(filters)
    ensures !ok ==> !Cacheable(earlier + FilterPrefixes(filters))
  {
    len, last := before, None;
    for i := 0 to |filters|
      invariant Seen(earlier + FilterPrefixes(filters[..i]), len)
      invariant last == if i == |filters| then Last(filters) else None
    {
      var filter := filters[i];
      FilterPrefixesSnoc(filters, i);
      ghost var seen, next := earlier + FilterPrefixes(filters[..i]), earlier + FilterPrefixes(filters[..i + 1]);
      if |filter.data| != 0 {
        assert next == seen + [filter.data];
        if len < 0 {
          len := |filter.data|;
        } else if len != |filter.data| {
          Mismatch(seen, filter.data, earlier, filters, i);
          return false, len, None;
        }
        if len > MAX_PREFIX_LEN {
          TooLong(filter.data, earlier, filters, i);
          return false, len, None;
        }
      } else {
        assert next == seen;
      }
      if i + 1 == |filters| {
        last := Some(filter.action);
      }
    }
    assert filters[..|filters|] == filters;
    return true, len, last;
  }

  lemma {:induction false} FilterPrefixesAppend(a: seq<Filter>, b: seq<Filter>)
    ensures FilterPrefixes(a + b) == FilterPrefixes(a) + FilterPrefixes(b)
  {
    if a == [] {
      assert a + b == b;
    } else {
      assert (a + b)[1..] == a[1..] + b;
      FilterPrefixesAppend(a[1..], b);
    }
  }

  lemma FilterPrefixesSnoc(filters: seq<Filter>, i: nat)
    requires i < |filters|
    ensures FilterPrefixes(filters[..i + 1])
         == FilterPrefixes(filters[..i]) + (if filters[i].data != [] then [filters[i].data] else [])
  {
    assert filters[..i + 1] == filters[..i] + [filters[i]];
    FilterPrefixesAppend(filters[..i], [filters[i]]);
    assert [filters[i]][1..] == [];
    assert FilterPrefixes([filters[i]]) == (if filters[i].data != [] then [filters[i].data] else []);
  }

  lemma StillIn(x: seq<byte>, earlier: seq<seq<byte>>, filters: seq<Filter>, i: nat)
    requires i <= |filters| && x in earlier + FilterPrefixes(filters[..i])
    ensures x in earlier + FilterPrefixes(filters)
  {
    assert filters == filters[..i] + filters[i..];
    FilterPrefixesAppend(filters[..i], filters[i..]);
  }

  lemma Mismatch(seen: seq<seq<byte>>, x: seq<byte>, earlier: seq<seq<byte>>, filters: seq<Filter>, i: nat)
    requires i < |filters| && filters[i].data == x != []
    requires seen == earlier + FilterPrefixes(filters[..i]) && seen != []
    requires forall y :: y in seen ==> |y| != |x|
    ensures !Cacheable(earlier + FilterPrefixes(filters))
  {
    FilterPrefixesSnoc(filters, i);
    StillIn(seen[0], earlier, filters, i);
    StillIn(x, earlier, filters, i + 1);
  }

  lemma TooLong(x: seq<byte>, earlier: seq<seq<byte>>, filters: seq<Filter>, i: nat)
    requires i < |filters| && filters[i].data == x && |x| > MAX_PREFIX_LEN
    ensures !Cacheable(earlier + FilterPrefixes(filters))
  {
    FilterPrefixesSnoc(filters, i);
    StillIn(x, earlier, filters, i + 1);
  }

  lemma {:induction false} AllPrefixesAppend(a: seq<Rule>, b: seq<Rule>)
    ensures AllPrefixes(a + b) == AllPrefixes(a) + AllPrefixes(b)
    ensures AcceptPorts(a + b) == AcceptPorts(a) + AcceptPorts(b)
  {
    hide FilterPrefixes, Last;
    if a == [] {
      assert a + b == b;
    } else {
      assert (a + b)[1..] == a[1..] + b;
      AllPrefixesAppend(a[1..], b);
    }
  }

  lemma RulesSnoc(rules: seq<Rule>, i: nat)
    requires i < |rules|
    ensures AllPrefixes(rules[..i + 1]) == AllPrefixes(rules[..i]) + FilterPrefixes(rules[i].filters)
    ensures AcceptPorts(rules[..i + 1])
         == AcceptPorts(rules[..i]) + (if Last(rules[i].filters) == Some(Accept) then [rules[i].dst] else [])
  {
    hide FilterPrefixes;
    assert rules[..i + 1] == rules[..i] + [rules[i]];
    AllPrefixesAppend(rules[..i], [rules[i]]);
    assert [rules[i]][1..] == [];
    assert AllPrefixes([rules[i]]) == FilterPrefixes(rules[i].filters) + [];
  }

  lemma NotCacheableMore(rules: seq<Rule>, i: nat)
    requires i <= |rules| && !Cacheable(AllPrefixes(rules[..i]))
    ensures !Cacheable(AllPrefixes(rules))
  {
    hide AllPrefixes;
    assert rules == rules[..i] + rules[i..];
    AllPrefixesAppend(rules[..i], rules[i..]);
  }

  /** The first loop over the rules: lengths and the default-accept list. */
  method CheckRules(rules: seq<Rule>) returns (ok: bool, len: int, acceptPorts: seq<Endpoint>)
    ensures ok <==> Cacheable(AllPrefixes(rules))
    ensures ok ==> Seen(AllPrefixes(rules), len) && acceptPorts == AcceptPorts(rules)
  {
    hide FilterPrefixes;
    len, acceptPorts := -1, [];
    for i := 0 to |rules|
      invariant Seen(AllPrefixes(rules[..i]), len)
      invariant acceptPorts == AcceptPorts(rules[..i])
    {
      var last;
      RulesSnoc(rules, i);
      ok, len, last := CheckFilters(rules[i].filters, len, AllPrefixes(rules[..i]));
      if !ok {
        NotCacheableMore(rules, i + 1);
        return;
      }
      if last == Some(Accept) {
        acceptPorts := acceptPorts + [rules[i].dst];
      }
    }
    assert rules[..|rules|] == rules;
    ok := true;
  }

  /** The second loop over the rules: collects the prefixes. */
  method CollectPrefixes(rules: seq<Rule>) returns (all: seq<seq<byte>>)
    ensures all == AllPrefixes(rules)
  {
    all := [];
    for i := 0 to |rules|
      invariant all == AllPrefixes(rules[..i])
    {
      RulesSnoc(rules, i);
      var filters := rules[i].filters;
      for j := 0 to |filters|
        invariant all == AllPrefixes(rules[..i]) + FilterPrefixes(filters[..j])
      {
        FilterPrefixesSnoc(filters, j);
        if |filters[j].data| > 0 {
          all := all + [filters[j].data];
        }
      }
      assert filters[..|filters|] == filters;
    }
    assert rules[..|rules|] == rules;
  }

  datatype RulePrefixes = RulePrefixes(prefixLen: nat, prefixes: seq<seq<byte>>)

  /** The prefixes of a port: each one once, in order. A port without any gets the length
      -1 converted to size_t. */
  ghost predicate IsRulePrefixes(rules: seq<Rule>, p: RulePrefixes) {
    && StrictlySorted(p.prefixes)
    && (forall x :: x in p.prefixes <==> x in AllPrefixes(rules))
    && (forall x :: x in p.prefixes ==> |x| == p.prefixLen)
    && (p.prefixes == [] ==> p.prefixLen == SIZE_MAX)
    && (p.prefixes != [] ==> p.prefixLen <= MAX_PREFIX_LEN)
  }

  /** Fails exactly when prefixes differ in length or one is too long. */
  method ExtractRulePrefixes(rules: seq<Rule>) returns (r: Option<RulePrefixes>, acceptPorts: seq<Endpoint>)
    ensures r.Some? <==> Cacheable(AllPrefixes(rules))
    ensures r.Some? ==> IsRulePrefixes(rules, r.value) && acceptPorts == AcceptPorts(rules)
  {
    hide AllPrefixes, AcceptPorts;
    var ok, len;
    ok, len, acceptPorts := CheckRules(rules);
    if !ok {
      return None, acceptPorts;
    }
    var all := CollectPrefixes(rules);
    SortSorts(all);
    var prefixes := Dedup(Sort(all));
    assert all != [] ==> all[0] in prefixes;
    assert prefixes != [] ==> prefixes[0] in all;
    r := Some(RulePrefixes(if len < 0 then SIZE_MAX else len, prefixes));
  }

  // ---------------------------------------------------------------------------
  // The table
  // ---------------------------------------------------------------------------

  /** An accepting rule leaves its endpoint in the slot of a prefix, a rejecting one NULL. */
  function Slot(rules: seq<Rule>, prefix: seq<byte>): seq<Option<Endpoint>> {
    if rules == [] then []
    else Entry(rules[0], prefix) + Slot(rules[1..], prefix)
  }

  function Entry(rule: Rule, prefix: seq<byte>): seq<Option<Endpoint>> {
    match FirstMatch(rule.filters, prefix)
    case None => []
    case Some(Accept) => [Some(rule.dst)]
    case Some(Reject) => [None]
  }

  /** The first filter whose bytes are at the front of a prefix makes the entry, and without one
      there is none. */
  lemma EntryIs(rule: Rule, prefix: seq<byte>)
    ensures forall i :: Decides(rule.filters, prefix, i) ==>
              Entry(rule, prefix) == [if rule.filters[i].action == Accept then Some(rule.dst) else None]
    ensures Entry(rule, prefix) != [] ==> exists i :: Decides(rule.filters, prefix, i)
  {
    hide HasPrefix, FirstMatch;
    forall i | Decides(rule.filters, prefix, i)
      ensures Entry(rule, prefix) == [if rule.filters[i].action == Accept then Some(rule.dst) else None]
    {
      FirstMatchIs(rule.filters, prefix, i);
    }
    if Entry(rule, prefix) != [] {
      var i := FirstMatchFound(rule.filters, prefix);
      assert Decides(rule.filters, prefix, i);
    }
  }

  /** The endpoints of a slot that are not NULL. */
  function Present(slot: seq<Option<Endpoint>>): seq<Endpoint> {
    if slot == [] then [] else Held(slot[0]) + Present(slot[1..])
  }

  function Held(entry: Option<Endpoint>): seq<Endpoint> {
    if entry.Some? then [entry.value] else []
  }

  lemma {:induction false} PresentAppend(a: seq<Option<Endpoint>>, b: seq<Option<Endpoint>>)
    ensures Present(a + b) == Present(a) + Present(b)
  {
    hide Held;
    if a == [] {
      assert a + b == b;
    } else {
      assert (a + b)[1..] == a[1..] + b;
      PresentAppend(a[1..], b);
      AppendAssociative(Held(a[0]), Present(a[1..]), Present(b));
    }
  }

  /** A slot holds what direct evaluation says about its prefix. */
  lemma {:induction false} SlotRoutes(rules: seq<Rule>, prefix: seq<byte>)
    ensures Present(Slot(rules, prefix)) == Route(rules, prefix)
  {
    if rules != [] {
      SlotRoutes(rules[1..], prefix);
      var entry := Entry(rules[0], prefix);
      PresentAppend(entry, Slot(rules[1..], prefix));
      assert entry != [] ==> entry[1..] == [];
    }
  }

  lemma {:induction false} SlotAppend(a: seq<Rule>, b: seq<Rule>, prefix: seq<byte>)
    ensures Slot(a + b, prefix) == Slot(a, prefix) + Slot(b, prefix)
  {
    hide Entry;
    if a == [] {
      assert a + b == b;
    } else {
      assert (a + b)[1..] == a[1..] + b;
      SlotAppend(a[1..], b, prefix);
    }
  }

  lemma SlotSnoc(rules: seq<Rule>, i: nat, prefix: seq<byte>)
    requires i < |rules|
    ensures Slot(rules[..i + 1], prefix) == Slot(rules[..i], prefix) + Entry(rules[i], prefix)
  {
    hide Entry;
    assert rules[..i + 1] == rules[..i] + [rules[i]];
    SlotAppend(rules[..i], [rules[i]], prefix);
    assert [rules[i]][1..] == [];
    assert Slot([rules[i]], prefix) == Entry(rules[i], prefix) + [];
  }

  lemma {:induction false} SlotLength(rules: seq<Rule>, prefix: seq<byte>)
    ensures |Slot(rules, prefix)| <= |rules|
  {
    if rules != [] { SlotLength(rules[1..], prefix); }
  }

  lemma {:induction false} OwnPrefixMatches(filters: seq<Filter>, x: seq<byte>)
    requires x in FilterPrefixes(filters)
    ensures FirstMatch(filters, x).Some?
  {
    if !Matches(filters[0], x) {
      OwnPrefixMatches(filters[1..], x);
    }
  }

  /** Every prefix of the port is matched by some rule. */
  lemma {:induction false} SlotNotEmpty(rules: seq<Rule>, x: seq<byte>)
    requires x in AllPrefixes(rules)
    ensures Slot(rules, x) != []
  {
    if x in FilterPrefixes(rules[0].filters) {
      OwnPrefixMatches(rules[0].filters, x);
    } else {
      SlotNotEmpty(rules[1..], x);
    }
  }

  /** What is asked of cmph: the keys get different slots, and every search stays in the
      table. */
  ghost predicate Perfect(search: seq<byte> -> nat, keys: seq<seq<byte>>) {
    && (forall x :: search(x) < |keys|)
    && (forall i, j :: 0 <= i < j < |keys| ==> search(keys[i]) != search(keys[j]))
  }

  datatype CachedPort = CachedPort(prefix: seq<byte>, endpoints: seq<Option<Endpoint>>)

  const EmptySlot := CachedPort([0, 0, 0, 0, 0, 0, 0, 0], [])

  class Cache {
    const portCount: nat
    const search: seq<byte> -> nat
    const rulePrefixes: RulePrefixes
    const acceptPorts: seq<Endpoint>
    const cachedPorts: array<CachedPort>

    ghost predicate Shaped()
      reads this, cachedPorts
    {
      && cachedPorts.Length == |rulePrefixes.prefixes|
      && (rulePrefixes.prefixes != [] ==>
            && rulePrefixes.prefixLen <= MAX_PREFIX_LEN && Perfect(search, rulePrefixes.prefixes))
      && (forall x :: x in rulePrefixes.prefixes ==> |x| == rulePrefixes.prefixLen)
      && (forall k :: 0 <= k < cachedPorts.Length ==> |cachedPorts[k].prefix| == MAX_PREFIX_LEN)
    }

    /** The slot of every prefix holds that prefix and the verdicts of all rules on it. */
    ghost predicate Filled(rules: seq<Rule>)
      reads this, cachedPorts
      requires Shaped()
    {
      forall j :: 0 <= j < |rulePrefixes.prefixes| ==>
        Holds(rulePrefixes.prefixes[j], Slot(rules, rulePrefixes.prefixes[j]))
    }

    ghost predicate Holds(x: seq<byte>, slot: seq<Option<Endpoint>>)
      reads this, cachedPorts
      requires Shaped() && x in rulePrefixes.prefixes
    {
      var c := cachedPorts[search(x)];
      c.prefix[..rulePrefixes.prefixLen] == x && c.endpoints == slot
    }

    /** The allocations of router_create for one port. */
    constructor (portCount: nat, rulePrefixes: RulePrefixes, acceptPorts: seq<Endpoint>, search: seq<byte> -> nat)
      requires rulePrefixes.prefixes != [] ==>
                 rulePrefixes.prefixLen <= MAX_PREFIX_LEN && Perfect(search, rulePrefixes.prefixes)
      requires forall x :: x in rulePrefixes.prefixes ==> |x| == rulePrefixes.prefixLen
      ensures Shaped() && fresh(cachedPorts)
      ensures this.portCount == portCount && this.rulePrefixes == rulePrefixes
      ensures this.acceptPorts == acceptPorts && this.search == search
      ensures forall k :: 0 <= k < cachedPorts.Length ==> cachedPorts[k] == EmptySlot
    {
      this.portCount, this.rulePrefixes, this.acceptPorts, this.search := portCount, rulePrefixes, acceptPorts, search;
      cachedPorts := new CachedPort[|rulePrefixes.prefixes|](_ => EmptySlot);
    }

    /** cache_match_process: enters the verdict of a rule into the slot of a prefix. */
    method CacheMatch(rule: Rule, filter: Filter, data: seq<byte>)
      requires Shaped() && data in rulePrefixes.prefixes
      requires |cachedPorts[search(data)].endpoints| < portCount
      modifies cachedPorts
      ensures Shaped()
      ensures forall k :: 0 <= k < cachedPorts.Length && k != search(data) ==> cachedPorts[k] == old(cachedPorts[k])
      ensures cachedPorts[search(data)].prefix[..rulePrefixes.prefixLen] == data
      ensures cachedPorts[search(data)].endpoints
           == old(cachedPorts[search(data)].endpoints) + [if filter.action == Accept then Some(rule.dst) else None]
    {
      var key := search(data);
      var c := cachedPorts[key];
      var n := rulePrefixes.prefixLen;
      match filter.action {
        case Accept => c := c.(endpoints := c.endpoints + [Some(rule.dst)]);
        case Reject => c := c.(endpoints := c.endpoints + [None]);
      }
      c := c.(prefix := data + c.prefix[n..]);
      cachedPorts[key] := c;
    }

    /** The slot of `x` after the first rules, and the other slots as they were. */
    ghost predicate Entered(x: seq<byte>, slot: seq<Option<Endpoint>>, before: seq<CachedPort>)
      reads this, cachedPorts
      requires Shaped() && x in rulePrefixes.prefixes && |before| == cachedPorts.Length
    {
      && (forall k :: 0 <= k < cachedPorts.Length && k != search(x) ==> cachedPorts[k] == before[k])
      && cachedPorts[search(x)].endpoints == slot
      && (slot != [] ==> cachedPorts[search(x)].prefix[..rulePrefixes.prefixLen] == x)
    }

    /** process_forwarding_rule: the first filter that matches is handed to CacheMatch. */
    method ProcessForwardingRule(rule: Rule, data: seq<byte>, ghost slot: seq<Option<Endpoint>>,
                                 ghost before: seq<CachedPort>)
      requires Shaped() && data in rulePrefixes.prefixes && |before| == cachedPorts.Length
      requires Entered(data, slot, before) && |slot| < portCount
      modifies cachedPorts
      ensures Shaped() && Entered(data, slot + Entry(rule, data), before)
    {
      var i := 0;
      while i < |rule.filters|
        invariant 0 <= i <= |rule.filters|
        invariant Shaped() && Entered(data, slot, before)
        invariant FirstMatch(rule.filters, data) == FirstMatch(rule.filters[i..], data)
      {
        var filter := rule.filters[i];
        assert rule.filters[i..][0] == filter && rule.filters[i..][1..] == rule.filters[i + 1..];
        if Matches(filter, data) {
          CacheMatch(rule, filter, data);
          return;
        }
        i := i + 1;
      }
      assert slot + Entry(rule, data) == slot;
    }

    /** process_forwarding_rules for one prefix. */
    method ProcessForwardingRules(rules: seq<Rule>, data: seq<byte>)
      requires Shaped() && data in rulePrefixes.prefixes && |rules| <= portCount
      requires cachedPorts[search(data)].endpoints == []
      modifies cachedPorts
      ensures Shaped() && Entered(data, Slot(rules, data), old(cachedPorts[..]))
    {
      for i := 0 to |rules|
        invariant Shaped() && Entered(data, Slot(rules[..i], data), old(cachedPorts[..]))
      {
        SlotSnoc(rules, i, data);
        SlotLength(rules[..i], data);
        ProcessForwardingRule(rules[i], data, Slot(rules[..i], data), old(cachedPorts[..]));
      }
      assert rules[..|rules|] == rules;
    }

    /** The last loop of router_create for a port: fills the slot of every prefix. */
    method Fill(rules: seq<Rule>)
      requires Shaped() && |rules| <= portCount
      requires forall x :: x in rulePrefixes.prefixes ==> x in AllPrefixes(rules)
      requires forall k :: 0 <= k < cachedPorts.Length ==> cachedPorts[k] == EmptySlot
      modifies cachedPorts
      ensures Shaped() && Filled(rules)
    {
      hide Slot, AllPrefixes;
      var keys := rulePrefixes.prefixes;
      for i := 0 to |keys|
        invariant Shaped()
        invariant forall j :: 0 <= j < i ==> Holds(keys[j], Slot(rules, keys[j]))
        invariant forall j :: i <= j < |keys| ==> cachedPorts[search(keys[j])] == EmptySlot
      {
        assert keys[i] in keys;
        assert forall j :: 0 <= j < |keys| && j != i ==> search(keys[j]) != search(keys[i]);
        SlotNotEmpty(rules, keys[i]);
        ProcessForwardingRules(rules, keys[i]);
      }
    }

    /** What the cache was built for. */
    ghost predicate Valid(rules: seq<Rule>)
      reads this, cachedPorts
    {
      Shaped() && Filled(rules) && IsRulePrefixes(rules, rulePrefixes) && acceptPorts == AcceptPorts(rules)
    }

    /** The message starts with one of the prefixes of the port. */
    ghost predicate Known(data: seq<byte>)
      reads this
    {
      rulePrefixes.prefixLen <= |data| && data[..rulePrefixes.prefixLen] in rulePrefixes.prefixes
    }

    /** A slot matches exactly the messages it was made for. */
    lemma SlotMatches(rules: seq<Rule>, data: seq<byte>)
      requires Valid(rules) && rulePrefixes.prefixLen <= |data| && rulePrefixes.prefixes != []
      ensures var x := data[..rulePrefixes.prefixLen];
              var c := cachedPorts[search(x)];
              && (c.prefix[..rulePrefixes.prefixLen] == x <==> Known(data))
              && (Known(data) ==> c.endpoints == Slot(rules, x))
    {
      hide Slot, AllPrefixes, AcceptPorts, StrictlySorted;
      var keys := rulePrefixes.prefixes;
      var x := data[..rulePrefixes.prefixLen];
      var j := Owner(search, keys, search(x));
      assert Holds(keys[j], Slot(rules, keys[j]));
      if Known(data) {
        var i :| 0 <= i < |keys| && keys[i] == x;
        assert Holds(keys[i], Slot(rules, keys[i]));
      }
    }

    method SendToAcceptPorts() returns (sent: seq<Endpoint>)
      ensures sent == acceptPorts
    {
      sent := [];
      for i := 0 to |acceptPorts|
        invariant sent == acceptPorts[..i]
      {
        sent := sent + [acceptPorts[i]];
      }
    }

    method SendToSlot(key: nat) returns (sent: seq<Endpoint>)
      requires key < cachedPorts.Length
      ensures sent == Present(cachedPorts[key].endpoints)
    {
      var endpoints := cachedPorts[key].endpoints;
      sent := [];
      for i := 0 to |endpoints|
        invariant sent == Present(endpoints[..i])
      {
        PresentSnoc(endpoints, i);
        if endpoints[i].Some? {
          sent := sent + [endpoints[i].value];
        }
      }
      assert endpoints[..|endpoints|] == endpoints;
    }

    /** process_buffer: the endpoints a message is sent to, in order. Messages with a known
        prefix go where direct evaluation of the rules sends them, that is to the rules whose
        first matching filter accepts; the others do so exactly when the default-accept list is
        that of direct evaluation. With distinct destinations that means that, for every rule,
        the last filter accepts iff the first empty one does. */
    method ProcessBuffer(data: seq<byte>, ghost rules: seq<Rule>) returns (sent: seq<Endpoint>)
      requires Valid(rules) && |data| < SIZE_MAX
      ensures Known(data) || WellShaped(rules) ==> sent == Route(rules, data)
      ensures !Known(data) ==> sent == AcceptPorts(rules)
      ensures !Known(data) ==> (sent == Route(rules, data) <==> AcceptPorts(rules) == DefaultPorts(rules))
      ensures !Known(data) && DistinctDestinations(rules) ==>
                (sent == Route(rules, data) <==> WellShaped(rules))
      ensures Known(data) <==> StartsKnown(rules, data)
      ensures sent == Route(rules, data) <==> Sends(rules, Accepting(rules, data), sent)
      ensures !Known(data) ==> Sends(rules, EndingInAccept(rules), sent)
    {
      hide *;
      var n := rulePrefixes.prefixLen;
      Verdict(data, rules);
      KnownIff(data, rules);
      AcceptPortsSend(rules);
      forall s ensures s == Route(rules, data) <==> Sends(rules, Accepting(rules, data), s) {
        RouteIff(rules, data, s);
      }
      if |data| < n {
        sent := SendToAcceptPorts();
        return;
      }
      var key := search(data[..n]);
      if cachedPorts[key].prefix[..n] == data[..n] {
        sent := SendToSlot(key);
      } else {
        sent := SendToAcceptPorts();
      }
    }

    /** A known prefix is one that some filter has. */
    lemma KnownIff(data: seq<byte>, rules: seq<Rule>)
      requires Valid(rules) && |data| < SIZE_MAX
      ensures Known(data) <==> StartsKnown(rules, data)
    {
      hide Slot, AllPrefixes, AcceptPorts, StrictlySorted, StartsKnown;
      StartsKnownIff(rules, data);
      var n := rulePrefixes.prefixLen;
      if Known(data) {
        assert data[..n] in AllPrefixes(rules) && data[..n] <= data;
      }
      if x :| x in AllPrefixes(rules) && x <= data {
        assert x in rulePrefixes.prefixes && x == data[..n];
      }
    }

    lemma Verdict(data: seq<byte>, rules: seq<Rule>)
      requires Valid(rules) && |data| < SIZE_MAX
      ensures acceptPorts == AcceptPorts(rules)
      ensures |data| < rulePrefixes.prefixLen ==> !Known(data)
      ensures rulePrefixes.prefixLen <= |data| ==>
                var x := data[..rulePrefixes.prefixLen];
                && search(x) < cachedPorts.Length
                && rulePrefixes.prefixLen <= |cachedPorts[search(x)].prefix|
                && (cachedPorts[search(x)].prefix[..rulePrefixes.prefixLen] == x <==> Known(data))
                && (Known(data) ==> Present(cachedPorts[search(x)].endpoints) == Route(rules, data))
      ensures !Known(data) ==> Route(rules, data) == DefaultPorts(rules)
      ensures !Known(data) && WellShaped(rules) ==> AcceptPorts(rules) == Route(rules, data)
      ensures !Known(data) && DistinctDestinations(rules) ==>
                (AcceptPorts(rules) == Route(rules, data) <==> WellShaped(rules))
    {
      hide Slot, AllPrefixes, AcceptPorts, StrictlySorted, Route, DefaultPorts, WellShaped, DistinctDestinations, Present;
      var n := rulePrefixes.prefixLen;
      if n <= |data| {
        SlotMatches(rules, data);
        SlotRoutes(rules, data[..n]);
        PrefixRoutes(rules, n, data);
      }
      if !Known(data) {
        forall x | x in AllPrefixes(rules) ensures !(x <= data) {
          assert x in rulePrefixes.prefixes;
          if n <= |data| { assert x != data[..n]; }
        }
        UnmatchedRoutes(rules, data);
        if WellShaped(rules) { WellShapedSuffices(rules); }
        if DistinctDestinations(rules) && AcceptPorts(rules) == Route(rules, data) { WellShapedNeeded(rules); }
      }
    }
  }

  lemma PresentSnoc(slot: seq<Option<Endpoint>>, i: nat)
    requires i < |slot|
    ensures Present(slot[..i + 1]) == Present(slot[..i]) + (if slot[i].Some? then [slot[i].value] else [])
  {
    assert slot[..i + 1] == slot[..i] + [slot[i]];
    PresentAppend(slot[..i], [slot[i]]);
    assert [slot[i]][1..] == [];
  }

  /** Keys that get different slots among as many slots as there are keys get all of them. */
  lemma Owner(search: seq<byte> -> nat, keys: seq<seq<byte>>, k: nat) returns (j: nat)
    requires Perfect(search, keys) && k < |keys|
    ensures j < |keys| && search(keys[j]) == k
  {
    var used := Used(search, keys, |keys|);
    var all := Below(|keys|);
    UsedSize(search, keys, |keys|);
    assert used <= all;
    SubsetOfSameSize(used, all);
    assert k in used;
    j :| 0 <= j < |keys| && search(keys[j]) == k;
  }

  ghost function Used(search: seq<byte> -> nat, keys: seq<seq<byte>>, n: nat): set<nat>
    requires n <= |keys|
  {
    set j | 0 <= j < n :: search(keys[j])
  }

  ghost function Below(n: nat): (s: set<nat>)
    ensures |s| == n
    ensures forall k: nat :: k in s <==> k < n
  {
    if n == 0 then {} else Below(n - 1) + {n - 1}
  }

  lemma {:induction false} UsedSize(search: seq<byte> -> nat, keys: seq<seq<byte>>, n: nat)
    requires Perfect(search, keys) && n <= |keys|
    ensures |Used(search, keys, n)| == n
  {
    if n > 0 {
      UsedSize(search, keys, n - 1);
      var x := search(keys[n - 1]);
      assert x !in Used(search, keys, n - 1);
      assert Used(search, keys, n) == Used(search, keys, n - 1) + {x};
    }
  }

  lemma SubsetOfSameSize(a: set<nat>, b: set<nat>)
    requires a <= b && |a| == |b|
    ensures a == b
  {
    assert b == a + (b - a);
    assert |b| == |a| + |b - a|;
  }

  /** router_create for one port; `cmph` builds a search function for a list of keys. */
  method CreateCache(portCount: nat, rules: seq<Rule>, cmph: seq<seq<byte>> -> seq<byte> -> nat)
    returns (ok: bool, cache: Cache?)
    requires |rules| <= portCount
    requires forall keys :: keys != [] && StrictlySorted(keys) ==> Perfect(cmph(keys), keys)
    ensures ok <==> Cacheable(AllPrefixes(rules))
    ensures ok ==> cache != null && fresh(cache) && fresh(cache.cachedPorts) && cache.Valid(rules)
  {
    hide AllPrefixes, AcceptPorts, StrictlySorted, Perfect, Cacheable;
    var prefixes, acceptPorts := ExtractRulePrefixes(rules);
    if prefixes.None? {
      return false, null;
    }
    var keys := prefixes.value.prefixes;
    var c := new Cache(portCount, prefixes.value, acceptPorts, cmph(keys));
    c.Fill(rules);
    return true, c;
  }
}
