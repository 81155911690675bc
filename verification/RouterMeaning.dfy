/** Where a message goes, said by positions in the rules and in the bytes, without direct evaluation. */
module RouterMeaning {
  import opened Basics
  import opened Router

  /** The message has the bytes of the filter at its front. */
  predicate HasPrefix(f: Filter, data: seq<byte>) {
    |f.data| <= |data| && forall k :: 0 <= k < |f.data| ==> f.data[k] == data[k]
  }

  /** Filter i is the first whose bytes are at the front of the message. */
  predicate Decides(filters: seq<Filter>, data: seq<byte>, i: int) {
    && 0 <= i < |filters| && HasPrefix(filters[i], data)
    && forall j :: 0 <= j < i ==> !HasPrefix(filters[j], data)
  }

  ghost predicate Accepts(r: Rule, data: seq<byte>) {
    exists i :: Decides(r.filters, data, i) && r.filters[i].action == Accept
  }


  lemma MatchesIs(f: Filter, data: seq<byte>)
    ensures Matches(f, data) <==> HasPrefix(f, data)
  {
    if HasPrefix(f, data) {
      assert f.data == data[..|f.data|];
    }
  }

  lemma DecidesLater(filters: seq<Filter>, data: seq<byte>, i: nat)
    requires filters != [] && !HasPrefix(filters[0], data) && i < |filters| - 1
    ensures Decides(filters, data, i + 1) <==> Decides(filters[1..], data, i)
  {
    hide HasPrefix;
    if Decides(filters, data, i + 1) {
      assert forall j :: 0 <= j < i ==> filters[1..][j] == filters[j + 1];
    }
    if Decides(filters[1..], data, i) {
      assert forall j :: 0 < j < i + 1 ==> filters[j] == filters[1..][j - 1];
    }
  }

  /** Direct evaluation finds the action of that filter. */
  lemma {:induction false} FirstMatchIs(filters: seq<Filter>, data: seq<byte>, i: nat)
    requires Decides(filters, data, i)
    ensures FirstMatch(filters, data) == Some(filters[i].action)
    decreases i
  {
    hide HasPrefix, Matches;
    MatchesIs(filters[0], data);
    if i > 0 {
      DecidesLater(filters, data, i - 1);
      FirstMatchIs(filters[1..], data, i - 1);
    }
  }

  /** And finds one only if there is such a filter. */
  lemma {:induction false} FirstMatchFound(filters: seq<Filter>, data: seq<byte>) returns (i: nat)
    requires FirstMatch(filters, data).Some?
    ensures Decides(filters, data, i)
  {
    hide HasPrefix, Matches;
    MatchesIs(filters[0], data);
    if Matches(filters[0], data) {
      i := 0;
    } else {
      var j := FirstMatchFound(filters[1..], data);
      DecidesLater(filters, data, j);
      i := j + 1;
    }
  }

  lemma AcceptsIff(r: Rule, data: seq<byte>)
    ensures Accepts(r, data) <==> FirstMatch(r.filters, data) == Some(Accept)
  {
    hide HasPrefix, FirstMatch;
    if Accepts(r, data) {
      var i :| Decides(r.filters, data, i) && r.filters[i].action == Accept;
      FirstMatchIs(r.filters, data, i);
    }
    if FirstMatch(r.filters, data) == Some(Accept) {
      var i := FirstMatchFound(r.filters, data);
      FirstMatchIs(r.filters, data, i);
    }
  }

  // ---------------------------------------------------------------------------
  // Destinations in rule order
  // ---------------------------------------------------------------------------

  ghost predicate Ascending(picks: seq<nat>) {
    forall k, l :: 0 <= k < l < |picks| ==> picks[k] < picks[l]
  }

  /** `picks` are the positions in `which`, and `sent` the destinations there. */
  ghost predicate Picks(rules: seq<Rule>, which: set<nat>, sent: seq<Endpoint>, picks: seq<nat>) {
    && Ascending(picks) && (forall i :: i in picks <==> i in which)
    && |sent| == |picks| && forall k :: 0 <= k < |picks| ==> picks[k] < |rules| && sent[k] == rules[picks[k]].dst
  }

  /** `sent` has the destinations of the rules in `which`, once per rule, in rule order. */
  ghost predicate Sends(rules: seq<Rule>, which: set<nat>, sent: seq<Endpoint>) {
    exists picks :: Picks(rules, which, sent, picks)
  }

  /** The rules that accept a message. */
  ghost function Accepting(rules: seq<Rule>, data: seq<byte>): set<nat> {
    set i: nat | i < |rules| && Accepts(rules[i], data)
  }

  /** The rules that end in an accepting filter. */
  ghost function EndingInAccept(rules: seq<Rule>): set<nat> {
    set i: nat | i < |rules| && var n := |rules[i].filters|; n > 0 && rules[i].filters[n - 1].action == Accept
  }

  function Shifted(picks: seq<nat>): (r: seq<nat>)
    ensures |r| == |picks| && forall k :: 0 <= k < |picks| ==> r[k] == picks[k] + 1
  {
    seq(|picks|, k requires 0 <= k < |picks| => picks[k] + 1)
  }

  lemma SendsCons(rules: seq<Rule>, which: set<nat>, rest: set<nat>, sent: seq<Endpoint>)
    requires rules != [] && Sends(rules[1..], rest, sent)
    requires forall i: nat :: i in rest <==> i + 1 in which
    ensures Sends(rules, which, (if 0 in which then [rules[0].dst] else []) + sent)
  {
    var picks :| Picks(rules[1..], rest, sent, picks);
    var front: seq<nat> := if 0 in which then [0] else [];
    var all, dsts := front + Shifted(picks), (if 0 in which then [rules[0].dst] else []) + sent;
    forall i: nat ensures i in all <==> i in which {
      ShiftedMembers(picks, i);
      if i > 0 {
        assert i - 1 in rest <==> i - 1 + 1 in which;
      }
    }
    forall k | 0 <= k < |all| ensures all[k] < |rules| && dsts[k] == rules[all[k]].dst {
      if k >= |front| {
        assert rules[1..][picks[k - |front|]] == rules[all[k]];
      }
    }
    AscendingShifted(front, picks);
    assert Picks(rules, which, dsts, all);
  }

  lemma ShiftedMembers(picks: seq<nat>, i: nat)
    ensures i in Shifted(picks) <==> i > 0 && i - 1 in picks
  {
    if i > 0 && i - 1 in picks {
      var k :| 0 <= k < |picks| && picks[k] == i - 1;
      assert Shifted(picks)[k] == i;
    }
  }

  lemma AscendingShifted(front: seq<nat>, picks: seq<nat>)
    requires Ascending(picks) && (front == [] || front == [0])
    ensures Ascending(front + Shifted(picks))
  {
  }

  /** Direct evaluation sends to the rules that accept. */
  lemma {:induction false} RouteSends(rules: seq<Rule>, data: seq<byte>)
    ensures Sends(rules, Accepting(rules, data), Route(rules, data))
  {
    hide Accepts, FirstMatch, Sends;
    if rules == [] {
      NothingSent(rules, Accepting(rules, data));
    } else {
      RouteSends(rules[1..], data);
      AcceptsIff(rules[0], data);
      SendsCons(rules, Accepting(rules, data), Accepting(rules[1..], data), Route(rules[1..], data));
    }
  }

  lemma NothingSent(rules: seq<Rule>, which: set<nat>)
    requires which == {}
    ensures Sends(rules, which, [])
  {
    assert Picks(rules, which, [], []);
  }

  lemma {:induction false} AcceptPortsSend(rules: seq<Rule>)
    ensures Sends(rules, EndingInAccept(rules), AcceptPorts(rules))
  {
    hide Sends;
    if rules == [] {
      NothingSent(rules, EndingInAccept(rules));
    } else {
      AcceptPortsSend(rules[1..]);
      SendsCons(rules, EndingInAccept(rules), EndingInAccept(rules[1..]), AcceptPorts(rules[1..]));
    }
  }

  lemma {:induction false} AscendingOnce(a: seq<nat>, b: seq<nat>)
    requires Ascending(a) && Ascending(b) && forall i :: i in a <==> i in b
    ensures a == b
    decreases |a|
  {
    if a == [] {
      assert forall k :: 0 <= k < |b| ==> b[k] in b;
    } else {
      LeastFirst(a, b);
      forall i ensures i in a[1..] <==> i in b[1..] {
        RestMembers(a, i);
        RestMembers(b, i);
      }
      AscendingOnce(a[1..], b[1..]);
      assert a == [a[0]] + a[1..] && b == [b[0]] + b[1..];
    }
  }

  lemma LeastFirst(a: seq<nat>, b: seq<nat>)
    requires Ascending(a) && Ascending(b) && a != [] && forall i :: i in a <==> i in b
    ensures b != [] && a[0] == b[0]
  {
    assert a[0] in b;
    assert b[0] in a;
    var k :| 0 <= k < |b| && b[k] == a[0];
    var l :| 0 <= l < |a| && a[l] == b[0];
  }

  lemma RestMembers(a: seq<nat>, i: nat)
    requires Ascending(a) && a != []
    ensures i in a[1..] <==> i in a && i != a[0]
  {
    assert a == [a[0]] + a[1..];
    if i in a[1..] {
      var k :| 0 <= k < |a[1..]| && a[1..][k] == i;
      assert a[0] < a[k + 1];
    }
  }

  /** The rules determine what is sent. */
  lemma SendsOnce(rules: seq<Rule>, which: set<nat>, a: seq<Endpoint>, b: seq<Endpoint>)
    requires Sends(rules, which, a) && Sends(rules, which, b)
    ensures a == b
  {
    var p :| Picks(rules, which, a, p);
    var q :| Picks(rules, which, b, q);
    AscendingOnce(p, q);
  }

  /** So direct evaluation gives the destinations of the rules that accept, and nothing else does. */
  lemma RouteIff(rules: seq<Rule>, data: seq<byte>, sent: seq<Endpoint>)
    ensures sent == Route(rules, data) <==> Sends(rules, Accepting(rules, data), sent)
  {
    hide Sends, Route, Accepting;
    RouteSends(rules, data);
    if Sends(rules, Accepting(rules, data), sent) {
      SendsOnce(rules, Accepting(rules, data), sent, Route(rules, data));
    }
  }

  /** Some filter that is not empty has its bytes at the front of the message. */
  ghost predicate StartsKnown(rules: seq<Rule>, data: seq<byte>) {
    exists i, j ::
      && 0 <= i < |rules| && 0 <= j < |rules[i].filters|
      && rules[i].filters[j].data != [] && HasPrefix(rules[i].filters[j], data)
  }

  lemma StartsKnownIff(rules: seq<Rule>, data: seq<byte>)
    ensures StartsKnown(rules, data) <==> exists x :: x in AllPrefixes(rules) && x <= data
  {
    hide AllPrefixes;
    if StartsKnown(rules, data) {
      var i, j :|
        && 0 <= i < |rules| && 0 <= j < |rules[i].filters|
        && rules[i].filters[j].data != [] && HasPrefix(rules[i].filters[j], data);
      MatchesIs(rules[i].filters[j], data);
      AllPrefixesIn(rules, rules[i].filters[j].data);
      assert rules[i].filters[j].data in AllPrefixes(rules);
    }
    if x :| x in AllPrefixes(rules) && x <= data {
      AllPrefixesIn(rules, x);
      var i, j :| 0 <= i < |rules| && 0 <= j < |rules[i].filters| && rules[i].filters[j].data == x;
      MatchesIs(rules[i].filters[j], data);
      assert rules[i].filters[j].data != [] && HasPrefix(rules[i].filters[j], data);
    }
  }
}
