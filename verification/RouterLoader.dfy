/** The loader at work: events are taken from the parser one by one, and the configuration is
    built in place. */
module RouterLoader {
  import opened Basics
  import opened CaseFold
  import opened RouterLoad

  class Loader {
    /** The events of the parser, and how many have been taken. A parser error is the end. */
    const events: seq<Event>
    var pos: nat
    const hex: string -> byte
    var config: Config

    constructor (events: seq<Event>, hex: string -> byte)
      ensures pos == 0 && this.events == events && this.hex == hex && config == NEW_CONFIG
    {
      this.events, this.hex, pos, config := events, hex, 0, NEW_CONFIG;
    }

    ghost predicate Reached(ok: bool, r: Loaded)
      reads this
    {
      pos <= |events| && if r.Failed? then !ok else ok && config == r.config && events[pos..] == r.rest
    }

    /** handle_expected_events */
    method HandleExpectedEvents(table: Table) returns (ok: bool)
      requires pos <= |events|
      modifies this
      ensures pos >= old(pos) && Reached(ok, old(Handle(table, 0, events[pos..], config, hex)))
      decreases |events| - pos, 0
    {
      TablesGuarded(table);
      hide Entries, Guarded, Scan, Run, Handle;
      var entries := Entries(table);
      var eventOffset: nat := 0;
      while entries[eventOffset].kind != NoKind
        invariant eventOffset < |entries| && old(pos) <= pos <= |events|
        invariant Handle(table, eventOffset, events[pos..], config, hex) == old(Handle(table, 0, events[pos..], config, hex))
        decreases |events| - pos
      {
        Unfinished(entries, eventOffset);
        HandleEnd(table, eventOffset, events[pos..], config, hex);
        if pos == |events| {
          return false;
        }
        var event := events[pos];
        assert events[pos..] == [event] + events[pos + 1..];
        pos := pos + 1;
        var i := FindEntry(entries, eventOffset, event);
        if i.None? {
          HandleFails(table, eventOffset, event, events[pos..], config, hex);
          return false;
        }
        HandleTakes(table, eventOffset, event, events[pos..], config, hex, i.value);
        ok := RunProcess(entries[i.value].process, event);
        if !ok {
          return;
        }
        if !entries[i.value].next {
          eventOffset := i.value + 1;
        }
      }
      Finished(entries, eventOffset);
      HandleEnd(table, eventOffset, events[pos..], config, hex);
      return true;
    }

    lemma Unfinished(entries: seq<Expected>, offset: nat)
      requires Guarded(entries) && offset < |entries| && entries[offset].kind != NoKind
      ensures offset < |entries| - 1
    {
    }

    lemma Finished(entries: seq<Expected>, offset: nat)
      requires Guarded(entries) && offset < |entries| && entries[offset].kind == NoKind
      ensures offset == |entries| - 1
    {
    }

    /** The inner loop of handle_expected_events. */
    method FindEntry(entries: seq<Expected>, offset: nat, event: Event) returns (found: Option<nat>)
      requires Guarded(entries) && offset < |entries| - 1
      ensures found == Scan(entries, offset, event)
    {
      var i := offset;
      while true
        invariant offset <= i < |entries| - 1 && Scan(entries, i, event) == Scan(entries, offset, event)
        decreases |entries| - i
      {
        if Matches(event, entries[i]) {
          return Some(i);
        }
        if !entries[i].next {
          return None;
        }
        i := i + 1;
      }
    }

    /** The process functions. */
    method RunProcess(process: Process, event: Event) returns (ok: bool)
      requires pos <= |events|
      modifies this
      ensures pos >= old(pos) && Reached(ok, old(Run(process, event, events[pos..], config, hex)))
      decreases |events| - pos, 1
    {
      hide Handle, Assign, ValidMetric;
      match process {
        case Nothing => return true;
        case Ports => ok := HandleExpectedEvents(PortsTable);
        case Rules => ok := HandleExpectedEvents(RulesTable);
        case Filters => ok := HandleExpectedEvents(FiltersTable);
        case Prefix => ok := HandleExpectedEvents(PrefixTable);
        case APort =>
          var index := |config.ports|;
          config := AddPort(config, NEW_PORT);
          ok := HandleExpectedEvents(PortTable);
          if ok {
            ok := index < |config.ports| && ValidMetric(config.ports[index].metric);
          }
        case ARule =>
          if !HasPort(config) {
            return false;
          }
          config := AddRule(config, NEW_RULE);
          ok := HandleExpectedEvents(RuleTable);
        case AFilter =>
          if !HasRule(config) {
            return false;
          }
          config := AddFilter(config, NEW_FILTER);
          ok := HandleExpectedEvents(FilterTable);
        case PrefixElement =>
          if !HasFilter(config) || !event.Scalar? {
            return false;
          }
          var filter := LastFilter(config);
          config := SetFilter(config, filter.(data := filter.data + [hex(event.value)]));
          return true;
        case _ =>
          ok := TakeString(process);
      }
    }

    /** A process function that reads one string. */
    method TakeString(process: Process) returns (ok: bool)
      requires pos <= |events|
      modifies this
      ensures old(pos) <= pos <= |events|
      ensures var left := old(events[pos..]);
              var c := if StartsScalar(left) then Assign(process, left[0].value, old(config)) else None;
              ok == c.Some? && (ok ==> config == c.value && events[pos..] == left[1..])
    {
      hide Assign;
      if pos == |events| {
        return false;
      }
      assert events[pos..][0] == events[pos] && events[pos..][1..] == events[pos + 1..];
      var event := events[pos];
      pos := pos + 1;
      if !event.Scalar? {
        return false;
      }
      var c := Assign(process, event.value, config);
      if c.None? {
        return false;
      }
      config := c.value;
      return true;
    }
  
    // -------------------------------------------------------------------------
    // dst_ports_set
    // -------------------------------------------------------------------------

    method FindPort(ports: seq<Port>, name: string) returns (found: Option<nat>)
      ensures found == FirstPort(ports, 0, name)
    {
      var k := 0;
      while k < |ports|
        invariant k <= |ports| && FirstPort(ports, k, name) == FirstPort(ports, 0, name)
      {
        if EqualFold(name, ports[k].name) {
          return Some(k);
        }
        k := k + 1;
      }
      return None;
    }

    /** The ports are `ports0`, but for the destinations of rules. */
    ghost predicate SameNames(ports: seq<Port>, ports0: seq<Port>) {
      |ports| == |ports0| && forall i :: 0 <= i < |ports| ==> ports[i].name == ports0[i].name
    }

    lemma SameFirstPort(ports: seq<Port>, ports0: seq<Port>, name: string)
      requires SameNames(ports, ports0)
      ensures FirstPort(ports, 0, name) == FirstPort(ports0, 0, name)
    {
      hide EqualFold;
      var r, r0 := FirstPort(ports, 0, name), FirstPort(ports0, 0, name);
      assert r.Some? ==> ports[r.value].name == ports0[r.value].name;
      assert r0.Some? ==> ports[r0.value].name == ports0[r0.value].name;
    }

    /** The rules of one port. */
    method SetRules(rules: seq<Rule>, ports: seq<Port>, ghost ports0: seq<Port>) returns (ok: bool, result: seq<Rule>)
      requires SameNames(ports, ports0)
      ensures ok == RulesResolvable(rules, ports0) && (ok ==> result == ResolveRules(rules, ports0))
    {
      hide SameNames, FirstPort;
      result := rules;
      var j := 0;
      while j < |rules|
        invariant j <= |rules| == |result|
        invariant forall x :: 0 <= x < j ==> FirstPort(ports0, 0, rules[x].dstName).Some? && result[x] == ResolveRule(rules[x], ports0)
        invariant forall x :: j <= x < |rules| ==> result[x] == rules[x]
      {
        SameFirstPort(ports, ports0, rules[j].dstName);
        var found := FindPort(ports, rules[j].dstName);
        if found.None? {
          return false, result;
        }
        result := result[j := result[j].(dst := found)];
        j := j + 1;
      }
      return true, result;
    }

    method DstPortsSet() returns (ok: bool)
      modifies this`config
      ensures ok == Resolvable(old(config)) && (ok ==> config == Resolve(old(config)))
    {
      hide ResolveRules, RulesResolvable;
      ghost var c0 := config;
      var i := 0;
      while i < |config.ports|
        invariant i <= |config.ports| && config.name == c0.name && SameNames(config.ports, c0.ports)
        invariant forall x :: 0 <= x < i ==> RulesResolvable(c0.ports[x].rules, c0.ports)
        invariant forall x :: 0 <= x < i ==> config.ports[x] == ResolvePort(c0.ports[x], c0.ports)
        invariant forall x :: i <= x < |config.ports| ==> config.ports[x] == c0.ports[x]
        decreases |config.ports| - i
      {
        var rules;
        ok, rules := SetRules(config.ports[i].rules, config.ports, c0.ports);
        if !ok {
          return;
        }
        config := config.(ports := config.ports[i := config.ports[i].(rules := rules)]);
        i := i + 1;
      }
      return true;
    }
  }

  /** router_cfg_load, on the events of the file. */
  method Load(events: seq<Event>, hex: string -> byte) returns (r: Option<Config>)
    ensures r == LoadedFrom(events, hex)
  {
    hide Handle, Resolve, Resolvable;
    var loader := new Loader(events, hex);
    assert events[0..] == events;
    var ok := loader.HandleExpectedEvents(RouterTable);
    if !ok {
      return None;
    }
    ok := loader.DstPortsSet();
    return if ok then Some(loader.config) else None;
  }
}
