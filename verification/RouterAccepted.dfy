/** What is certain of every configuration that the loader accepts, whatever the events. */
module RouterAccepted {
  import opened Basics
  import opened CaseFold
  import opened RouterLoad
  import Router

  predicate Outer(table: Table) { table == RouterTable || table == PortsTable }

  predicate OuterProcess(process: Process) { process == Ports || process == APort || process == RouterName }

  /** Ports are only added, with metrics that are not blank. */
  ghost predicate Grows(c: Config, d: Config) {
    && |c.ports| <= |d.ports| && d.ports[..|c.ports|] == c.ports
    && forall i :: |c.ports| <= i < |d.ports| ==> ValidMetric(d.ports[i].metric)
  }

  /** Only the current port changes. */
  ghost predicate StaysIn(c: Config, d: Config) {
    |c.ports| == |d.ports| && forall i :: 0 <= i < |c.ports| - 1 ==> d.ports[i] == c.ports[i]
  }

  ghost predicate Keeps(outer: bool, c: Config, d: Config) { if outer then Grows(c, d) else StaysIn(c, d) }

  lemma KeepsOn(outer: bool, c: Config, d: Config, e: Config)
    requires Keeps(outer, c, d) && Keeps(outer, d, e)
    ensures Keeps(outer, c, e)
  {
    hide ValidMetric;
    if outer {
      assert e.ports[..|c.ports|] == d.ports[..|c.ports|] by {
        assert e.ports[..|d.ports|][..|c.ports|] == e.ports[..|c.ports|];
      }
      assert forall i :: 0 <= i < |d.ports| ==> e.ports[..|d.ports|][i] == e.ports[i];
    }
  }

  lemma KeepsSame(outer: bool, c: Config)
    ensures Keeps(outer, c, c)
  {
  }

  lemma TableProcesses(table: Table, i: nat)
    requires i < |Entries(table)|
    ensures Entries(table)[i].process == Nothing || OuterProcess(Entries(table)[i].process) == Outer(table)
  {
  }

  lemma {:induction false} HandleKeeps(table: Table, offset: nat, events: seq<Event>, c: Config, hex: string -> byte)
    requires offset < |Entries(table)|
    ensures var r := Handle(table, offset, events, c, hex); r.Loaded? ==> Keeps(Outer(table), c, r.config)
    decreases |events|, 0
  {
    hide Entries, Guarded, Run, Scan, Handle, Keeps;
    TablesGuarded(table);
    HandleEnd(table, offset, events, c, hex);
    KeepsSame(Outer(table), c);
    if offset < |Entries(table)| - 1 && events != [] {
      var event, rest := events[0], events[1..];
      assert events == [event] + rest;
      var found := Scan(Entries(table), offset, event);
      if found == None {
        HandleFails(table, offset, event, rest, c, hex);
      } else {
        var i := found.value;
        var expected := Entries(table)[i];
        HandleTakes(table, offset, event, rest, c, hex, i);
        var r := Run(expected.process, event, rest, c, hex);
        if r.Loaded? {
          TableProcesses(table, i);
          RunKeeps(expected.process, Outer(table), event, rest, c, hex);
          var next := if expected.next then offset else i + 1;
          HandleKeeps(table, next, r.rest, r.config, hex);
          var last := Handle(table, next, r.rest, r.config, hex);
          if last.Loaded? {
            KeepsOn(Outer(table), c, r.config, last.config);
          }
        }
      }
    }
  }

  lemma {:induction false} RunKeeps(process: Process, outer: bool, event: Event, events: seq<Event>, c: Config, hex: string -> byte)
    requires process == Nothing || OuterProcess(process) == outer
    ensures var r := Run(process, event, events, c, hex); r.Loaded? ==> Keeps(outer, c, r.config)
    decreases |events|, 1
  {
    hide Entries, Handle, ValidMetric, Assign, Keeps;
    KeepsSame(outer, c);
    match process {
      case Nothing =>
      case Ports => HandleKeeps(PortsTable, 0, events, c, hex);
      case Rules => HandleKeeps(RulesTable, 0, events, c, hex);
      case Filters => HandleKeeps(FiltersTable, 0, events, c, hex);
      case Prefix => HandleKeeps(PrefixTable, 0, events, c, hex);
      case APort =>
        HandleKeeps(PortTable, 0, events, AddPort(c, NEW_PORT), hex);
        var r := Handle(PortTable, 0, events, AddPort(c, NEW_PORT), hex);
        if r.Loaded? && |c.ports| < |r.config.ports| && ValidMetric(r.config.ports[|c.ports|].metric) {
          PortGrows(c, r.config);
        }
      case ARule =>
        if HasPort(c) {
          ChangeStays(c, LastPort(c).(rules := LastPort(c).rules + [NEW_RULE]));
          HandleKeeps(RuleTable, 0, events, AddRule(c, NEW_RULE), hex);
          var r := Handle(RuleTable, 0, events, AddRule(c, NEW_RULE), hex);
          if r.Loaded? { KeepsOn(false, c, AddRule(c, NEW_RULE), r.config); }
        }
      case AFilter =>
        if HasRule(c) {
          RuleStays(c, LastRule(c).(filters := LastRule(c).filters + [NEW_FILTER]));
          HandleKeeps(FilterTable, 0, events, AddFilter(c, NEW_FILTER), hex);
          var r := Handle(FilterTable, 0, events, AddFilter(c, NEW_FILTER), hex);
          if r.Loaded? { KeepsOn(false, c, AddFilter(c, NEW_FILTER), r.config); }
        }
      case PrefixElement =>
        if HasFilter(c) && event.Scalar? {
          FilterStays(c, LastFilter(c).(data := LastFilter(c).data + [hex(event.value)]));
        }
      case _ =>
        if StartsScalar(events) {
          AssignKeeps(process, outer, events[0].value, c);
        }
    }
  }

  lemma PortGrows(c: Config, d: Config)
    requires Keeps(false, AddPort(c, NEW_PORT), d)
    requires |c.ports| < |d.ports| && ValidMetric(d.ports[|c.ports|].metric)
    ensures Keeps(true, c, d)
  {
    hide ValidMetric;
    assert forall i :: 0 <= i < |c.ports| ==> AddPort(c, NEW_PORT).ports[i] == c.ports[i];
    assert d.ports[..|c.ports|] == c.ports;
  }

  lemma ChangeStays(c: Config, p: Port)
    requires HasPort(c)
    ensures Keeps(false, c, SetPort(c, p))
  {
  }

  lemma RuleStays(c: Config, r: Rule)
    requires HasRule(c)
    ensures Keeps(false, c, SetRule(c, r))
  {
    hide SetPort, Keeps;
    var p := LastPort(c);
    ChangeStays(c, p.(rules := p.rules[..|p.rules| - 1] + [r]));
  }

  lemma FilterStays(c: Config, f: Router.Filter)
    requires HasFilter(c)
    ensures Keeps(false, c, SetFilter(c, f))
  {
    hide SetRule, Keeps;
    var r := LastRule(c);
    RuleStays(c, r.(filters := r.filters[..|r.filters| - 1] + [f]));
  }

  lemma AssignKeeps(process: Process, outer: bool, s: string, c: Config)
    requires OuterProcess(process) == outer
    ensures Assign(process, s, c).Some? ==> Keeps(outer, c, Assign(process, s, c).value)
  {
    match process {
      case RouterName => KeepsSame(true, c);
      case PortName => if HasPort(c) { ChangeStays(c, LastPort(c).(name := s)); }
      case PubAddr => if HasPort(c) { ChangeStays(c, LastPort(c).(pubAddr := s)); }
      case SubAddr => if HasPort(c) { ChangeStays(c, LastPort(c).(subAddr := s)); }
      case PortMetric => if HasPort(c) { ChangeStays(c, LastPort(c).(metric := s)); }
      case DstPort => if HasRule(c) { RuleStays(c, LastRule(c).(dstName := s)); }
      case AnAction =>
        if HasFilter(c) && ActionOf(s).Some? { FilterStays(c, LastFilter(c).(action := ActionOf(s).value)); }
      case _ =>
    }
  }

  /** Whatever the events were, a configuration that is accepted has no blank metric, and every
      rule is bound to the first port of its destination's name. */
  lemma AcceptedIsSound(events: seq<Event>, hex: string -> byte)
    ensures var r := LoadedFrom(events, hex);
            r.Some? ==> forall i :: 0 <= i < |r.value.ports| ==> Bound(r.value, i)
  {
    var r := LoadedFrom(events, hex);
    if r.Some? {
      HandleKeeps(RouterTable, 0, events, NEW_CONFIG, hex);
      hide Handle, ValidMetric, EqualFold, Bound;
      var c := Handle(RouterTable, 0, events, NEW_CONFIG, hex).config;
      forall i | 0 <= i < |c.ports| ensures Bound(r.value, i) {
        BoundBy(c, i);
      }
    }
  }

  /** The port has a metric, and all its rules a destination. */
  ghost predicate Bound(c: Config, i: nat) {
    && i < |c.ports| && ValidMetric(c.ports[i].metric)
    && forall j :: 0 <= j < |c.ports[i].rules| ==>
         var rule := c.ports[i].rules[j];
         && rule.dst.Some? && rule.dst.value < |c.ports|
         && EqualFold(rule.dstName, c.ports[rule.dst.value].name)
         && forall k :: 0 <= k < rule.dst.value ==> !EqualFold(rule.dstName, c.ports[k].name)
  }

  lemma BoundBy(c: Config, i: nat)
    requires i < |c.ports| && ValidMetric(c.ports[i].metric) && Resolvable(c)
    ensures Bound(Resolve(c), i)
  {
    hide ValidMetric, EqualFold;
    var d := Resolve(c);
    assert forall k :: 0 <= k < |c.ports| ==> d.ports[k].name == c.ports[k].name;
    assert RulesResolvable(c.ports[i].rules, c.ports);
  }
}
