/** What single events do: the steps of the interpreter on each table. */
module RouterSteps {
  import opened Basics
  import opened CaseFold
  import opened RouterLoad
  import opened RouterDocs
  import Router

  // ---------------------------------------------------------------------------
  // Updates of the current port, rule and filter
  // ---------------------------------------------------------------------------

  lemma PortAdds(c: Config, p: Port, q: Port)
    ensures HasPort(AddPort(c, p)) && LastPort(AddPort(c, p)) == p && SetPort(AddPort(c, p), q) == AddPort(c, q)
  {
    assert (c.ports + [p])[..|c.ports|] == c.ports;
  }

  lemma PortSets(c: Config, p: Port, q: Port)
    requires HasPort(c)
    ensures HasPort(SetPort(c, p)) && LastPort(SetPort(c, p)) == p
    ensures SetPort(SetPort(c, p), q) == SetPort(c, q) && SetPort(c, LastPort(c)) == c
  {
    var front := c.ports[..|c.ports| - 1];
    assert (front + [p])[..|front|] == front;
    assert front + [LastPort(c)] == c.ports;
  }

  lemma RuleAdds(c: Config, r: Rule, s: Rule)
    requires HasPort(c)
    ensures HasRule(AddRule(c, r)) && LastRule(AddRule(c, r)) == r && SetRule(AddRule(c, r), s) == AddRule(c, s)
  {
    var p := LastPort(c);
    hide SetPort, LastPort;
    PortSets(c, p.(rules := p.rules + [r]), p.(rules := p.rules + [s]));
    assert (p.rules + [r])[..|p.rules|] == p.rules;
  }

  lemma RuleSets(c: Config, r: Rule, s: Rule)
    requires HasRule(c)
    ensures HasRule(SetRule(c, r)) && LastRule(SetRule(c, r)) == r
    ensures SetRule(SetRule(c, r), s) == SetRule(c, s) && SetRule(c, LastRule(c)) == c
  {
    var p := LastPort(c);
    hide SetPort, LastPort;
    var front := p.rules[..|p.rules| - 1];
    PortSets(c, p.(rules := front + [r]), p.(rules := front + [s]));
    PortSets(c, p, p);
    assert (front + [r])[..|front|] == front;
    assert front + [p.rules[|front|]] == p.rules;
  }

  lemma FilterAdds(c: Config, f: Router.Filter, g: Router.Filter)
    requires HasRule(c)
    ensures HasFilter(AddFilter(c, f)) && LastFilter(AddFilter(c, f)) == f
    ensures SetFilter(AddFilter(c, f), g) == AddFilter(c, g)
  {
    var r := LastRule(c);
    hide SetRule, LastRule, HasRule;
    RuleSets(c, r.(filters := r.filters + [f]), r.(filters := r.filters + [g]));
    assert (r.filters + [f])[..|r.filters|] == r.filters;
  }

  lemma FilterSets(c: Config, f: Router.Filter, g: Router.Filter)
    requires HasFilter(c)
    ensures HasFilter(SetFilter(c, f)) && LastFilter(SetFilter(c, f)) == f
    ensures SetFilter(SetFilter(c, f), g) == SetFilter(c, g) && SetFilter(c, LastFilter(c)) == c
  {
    var r := LastRule(c);
    hide SetRule, LastRule, HasRule;
    var front := r.filters[..|r.filters| - 1];
    RuleSets(c, r.(filters := front + [f]), r.(filters := front + [g]));
    RuleSets(c, r, r);
    assert (front + [f])[..|front|] == front;
    assert front + [r.filters[|front|]] == r.filters;
  }

  // ---------------------------------------------------------------------------
  // Scans of the tables
  // ---------------------------------------------------------------------------

  lemma ListScans(table: Table)
    requires table == PortsTable || table == RulesTable || table == FiltersTable
    ensures Guarded(Entries(table)) && |Entries(table)| == 4
    ensures Scan(Entries(table), 0, SequenceStart) == Some(0)
    ensures Scan(Entries(table), 1, MappingStart) == Some(1)
    ensures Scan(Entries(table), 1, SequenceEnd) == Some(2)
  {
    TablesGuarded(table);
  }

  lemma PrefixScans(element: string)
    ensures Guarded(Entries(PrefixTable)) && |Entries(PrefixTable)| == 4
    ensures Scan(Entries(PrefixTable), 0, SequenceStart) == Some(0)
    ensures Scan(Entries(PrefixTable), 1, Scalar(element)) == Some(1)
    ensures Scan(Entries(PrefixTable), 1, SequenceEnd) == Some(2)
  {
    TablesGuarded(PrefixTable);
  }

  /** The first entry that matches is found. */
  lemma ScanIs(entries: seq<Expected>, event: Event, i: nat)
    requires Guarded(entries) && i < |entries| - 1 && Matches(event, entries[i])
    requires forall k :: 0 <= k < i ==> entries[k].next && !Matches(event, entries[k])
    ensures Scan(entries, 0, event) == Some(i)
  {
    ScanFrom(entries, 0, event, i);
  }

  lemma {:induction false} ScanFrom(entries: seq<Expected>, offset: nat, event: Event, i: nat)
    requires Guarded(entries) && offset <= i < |entries| - 1 && Matches(event, entries[i])
    requires forall k :: offset <= k < i ==> entries[k].next && !Matches(event, entries[k])
    ensures Scan(entries, offset, event) == Some(i)
    decreases i - offset
  {
    hide Matches, Guarded;
    if offset < i {
      ScanFrom(entries, offset + 1, event, i);
    }
  }

  lemma FilterScans(key: string)
    ensures Guarded(Entries(FilterTable)) && |Entries(FilterTable)| == 4
    ensures EqualFold(key, "action") ==> Scan(Entries(FilterTable), 0, Scalar(key)) == Some(0)
    ensures EqualFold(key, "prefix") ==> Scan(Entries(FilterTable), 0, Scalar(key)) == Some(1)
    ensures Scan(Entries(FilterTable), 0, MappingEnd) == Some(2)
  {
    TablesGuarded(FilterTable);
    if EqualFold(key, "prefix") {
      assert "prefix"[0] == 'p' && "action"[0] == 'a';
      ScanIs(Entries(FilterTable), Scalar(key), 1);
    }
    ScanIs(Entries(FilterTable), MappingEnd, 2);
  }

  lemma RuleScans(key: string)
    ensures Guarded(Entries(RuleTable)) && |Entries(RuleTable)| == 4
    ensures EqualFold(key, "dst_port") ==> Scan(Entries(RuleTable), 0, Scalar(key)) == Some(0)
    ensures EqualFold(key, "filters") ==> Scan(Entries(RuleTable), 0, Scalar(key)) == Some(1)
    ensures Scan(Entries(RuleTable), 0, MappingEnd) == Some(2)
  {
    TablesGuarded(RuleTable);
    if EqualFold(key, "filters") {
      ScanIs(Entries(RuleTable), Scalar(key), 1);
    }
    ScanIs(Entries(RuleTable), MappingEnd, 2);
  }

  function IndexOf(field: Field): nat {
    match field
    case NameField => 0
    case MetricField => 1
    case PubField => 2
    case SubField => 3
  }

  lemma PortScans(key: string, field: Field)
    ensures Guarded(Entries(PortTable)) && |Entries(PortTable)| == 7
    ensures EqualFold(key, KeyOf(field)) ==> Scan(Entries(PortTable), 0, Scalar(key)) == Some(IndexOf(field))
    ensures EqualFold(key, "forwarding_rules") ==> Scan(Entries(PortTable), 0, Scalar(key)) == Some(4)
    ensures Scan(Entries(PortTable), 0, MappingEnd) == Some(5)
  {
    TablesGuarded(PortTable);
    if EqualFold(key, KeyOf(field)) { FieldScans(key, field); }
    if EqualFold(key, "forwarding_rules") { RulesScans(key); }
    hide Scan, EqualFold;
    ScanIs(Entries(PortTable), MappingEnd, 5);
  }

  lemma FieldScans(key: string, field: Field)
    requires EqualFold(key, KeyOf(field))
    ensures Guarded(Entries(PortTable)) && Scan(Entries(PortTable), 0, Scalar(key)) == Some(IndexOf(field))
  {
    TablesGuarded(PortTable);
    hide Scan;
    assert "pub_addr"[0] == 'p' && "sub_addr"[0] == 's';
    ScanIs(Entries(PortTable), Scalar(key), IndexOf(field));
  }

  lemma RulesScans(key: string)
    requires EqualFold(key, "forwarding_rules")
    ensures Guarded(Entries(PortTable)) && Scan(Entries(PortTable), 0, Scalar(key)) == Some(4)
  {
    TablesGuarded(PortTable);
    hide Scan;
    ScanIs(Entries(PortTable), Scalar(key), 4);
  }

  lemma RouterEdges()
    ensures Guarded(Entries(RouterTable)) && |Entries(RouterTable)| == 9
    ensures Scan(Entries(RouterTable), 0, StreamStart) == Some(0)
    ensures Scan(Entries(RouterTable), 1, DocumentStart) == Some(1)
    ensures Scan(Entries(RouterTable), 2, MappingStart) == Some(2)
    ensures Scan(Entries(RouterTable), 6, DocumentEnd) == Some(6)
    ensures Scan(Entries(RouterTable), 7, StreamEnd) == Some(7)
  {
    TablesGuarded(RouterTable);
  }

  lemma RouterScans(key: string)
    ensures Guarded(Entries(RouterTable)) && |Entries(RouterTable)| == 9
    ensures EqualFold(key, "name") ==> Scan(Entries(RouterTable), 3, Scalar(key)) == Some(3)
    ensures EqualFold(key, "ports") ==> Scan(Entries(RouterTable), 3, Scalar(key)) == Some(4)
    ensures Scan(Entries(RouterTable), 3, MappingEnd) == Some(5)
  {
    TablesGuarded(RouterTable);
    hide Scan;
    ScanFrom(Entries(RouterTable), 3, MappingEnd, 5);
    if EqualFold(key, "name") {
      ScanFrom(Entries(RouterTable), 3, Scalar(key), 3);
    }
    if EqualFold(key, "ports") {
      ScanFrom(Entries(RouterTable), 3, Scalar(key), 4);
    }
  }

  // ---------------------------------------------------------------------------
  // Steps of the interpreter
  // ---------------------------------------------------------------------------

  /** The interpreter goes on with what a process function left. */
  function Then(r: Loaded, table: Table, offset: nat, hex: string -> byte): Loaded
    requires offset < |Entries(table)|
  {
    if r.Failed? then Failed else Handle(table, offset, r.rest, r.config, hex)
  }

  function ItemOf(table: Table): Process {
    match table
    case PortsTable => APort
    case RulesTable => ARule
    case _ => AFilter
  }

  /** An event that is taken without being processed. */
  lemma PlainStep(table: Table, offset: nat, event: Event, rest: seq<Event>, c: Config, hex: string -> byte, i: nat)
    requires Guarded(Entries(table)) && offset < |Entries(table)| - 1 && Scan(Entries(table), offset, event) == Some(i)
    requires Entries(table)[i].process == Nothing && !Entries(table)[i].next
    ensures Handle(table, offset, [event] + rest, c, hex) == Handle(table, i + 1, rest, c, hex)
  {
    hide Handle, Run, Scan, Entries, Guarded;
    NothingRuns(event, rest, c, hex);
    HandleTakes(table, offset, event, rest, c, hex, i);
  }

  lemma ListSteps(table: Table, rest: seq<Event>, c: Config, hex: string -> byte)
    requires table == PortsTable || table == RulesTable || table == FiltersTable
    ensures |Entries(table)| == 4
    ensures Handle(table, 0, [SequenceStart] + rest, c, hex) == Handle(table, 1, rest, c, hex)
    ensures Handle(table, 1, [SequenceEnd] + rest, c, hex) == Loaded(c, rest)
    ensures Handle(table, 1, [MappingStart] + rest, c, hex)
         == Then(Run(ItemOf(table), MappingStart, rest, c, hex), table, 1, hex)
  {
    hide Handle, Run, Scan, Entries, Guarded;
    ListScans(table);
    ListEntries(table);
    PlainStep(table, 0, SequenceStart, rest, c, hex, 0);
    PlainStep(table, 1, SequenceEnd, rest, c, hex, 2);
    HandleEnd(table, 3, rest, c, hex);
    HandleTakes(table, 1, MappingStart, rest, c, hex, 1);
  }

  lemma ListEntries(table: Table)
    requires table == PortsTable || table == RulesTable || table == FiltersTable
    ensures |Entries(table)| == 4
    ensures Entries(table)[0].process == Entries(table)[2].process == Nothing && Entries(table)[1].process == ItemOf(table)
    ensures !Entries(table)[0].next && Entries(table)[1].next && !Entries(table)[2].next
  {
  }

  lemma NothingRuns(event: Event, rest: seq<Event>, c: Config, hex: string -> byte)
    ensures Run(Nothing, event, rest, c, hex) == Loaded(c, rest)
  {
  }

  lemma PrefixEntries()
    ensures |Entries(PrefixTable)| == 4
    ensures Entries(PrefixTable)[0].process == Entries(PrefixTable)[2].process == Nothing
    ensures Entries(PrefixTable)[1].process == PrefixElement
    ensures !Entries(PrefixTable)[0].next && Entries(PrefixTable)[1].next && !Entries(PrefixTable)[2].next
  {
  }

  lemma PrefixSteps(element: string, rest: seq<Event>, c: Config, hex: string -> byte)
    ensures |Entries(PrefixTable)| == 4
    ensures Handle(PrefixTable, 0, [SequenceStart] + rest, c, hex) == Handle(PrefixTable, 1, rest, c, hex)
    ensures Handle(PrefixTable, 1, [SequenceEnd] + rest, c, hex) == Loaded(c, rest)
    ensures HasFilter(c) ==> Handle(PrefixTable, 1, [Scalar(element)] + rest, c, hex)
                             == Handle(PrefixTable, 1, rest, AddData(c, [hex(element)]), hex)
  {
    hide Handle, Run, Scan, Entries, Guarded, AddData, HasFilter;
    PrefixScans(element);
    PrefixEntries();
    NothingRuns(SequenceStart, rest, c, hex);
    NothingRuns(SequenceEnd, rest, c, hex);
    ElementRuns(element, rest, c, hex);
    HandleTakes(PrefixTable, 0, SequenceStart, rest, c, hex, 0);
    HandleTakes(PrefixTable, 1, SequenceEnd, rest, c, hex, 2);
    HandleEnd(PrefixTable, 3, rest, c, hex);
    HandleTakes(PrefixTable, 1, Scalar(element), rest, c, hex, 1);
  }

  lemma ElementRuns(element: string, rest: seq<Event>, c: Config, hex: string -> byte)
    ensures HasFilter(c) ==> Run(PrefixElement, Scalar(element), rest, c, hex) == Loaded(AddData(c, [hex(element)]), rest)
  {
  }

  /** What a key of the filter table does. */
  lemma FilterSteps(key: string, rest: seq<Event>, c: Config, hex: string -> byte)
    ensures |Entries(FilterTable)| == 4
    ensures Handle(FilterTable, 0, [MappingEnd] + rest, c, hex) == Loaded(c, rest)
    ensures EqualFold(key, "action") ==> Handle(FilterTable, 0, [Scalar(key)] + rest, c, hex)
                                         == Then(Run(AnAction, Scalar(key), rest, c, hex), FilterTable, 0, hex)
    ensures EqualFold(key, "prefix") ==> Handle(FilterTable, 0, [Scalar(key)] + rest, c, hex)
                                         == Then(Run(Prefix, Scalar(key), rest, c, hex), FilterTable, 0, hex)
  {
    hide Handle, Run, Scan, Entries, Guarded, EqualFold;
    FilterScans(key);
    FilterEntries();
    NothingRuns(MappingEnd, rest, c, hex);
    HandleTakes(FilterTable, 0, MappingEnd, rest, c, hex, 2);
    HandleEnd(FilterTable, 3, rest, c, hex);
    if EqualFold(key, "action") { HandleTakes(FilterTable, 0, Scalar(key), rest, c, hex, 0); }
    if EqualFold(key, "prefix") { HandleTakes(FilterTable, 0, Scalar(key), rest, c, hex, 1); }
  }

  lemma FilterEntries()
    ensures |Entries(FilterTable)| == 4
    ensures Entries(FilterTable)[0].process == AnAction && Entries(FilterTable)[0].next
    ensures Entries(FilterTable)[1].process == Prefix && Entries(FilterTable)[1].next
    ensures Entries(FilterTable)[2].process == Nothing && !Entries(FilterTable)[2].next
  {
  }

  lemma RuleSteps(key: string, rest: seq<Event>, c: Config, hex: string -> byte)
    ensures |Entries(RuleTable)| == 4
    ensures Handle(RuleTable, 0, [MappingEnd] + rest, c, hex) == Loaded(c, rest)
    ensures EqualFold(key, "dst_port") ==> Handle(RuleTable, 0, [Scalar(key)] + rest, c, hex)
                                           == Then(Run(DstPort, Scalar(key), rest, c, hex), RuleTable, 0, hex)
    ensures EqualFold(key, "filters") ==> Handle(RuleTable, 0, [Scalar(key)] + rest, c, hex)
                                          == Then(Run(Filters, Scalar(key), rest, c, hex), RuleTable, 0, hex)
  {
    hide Handle, Run, Scan, Entries, Guarded, EqualFold;
    RuleScans(key);
    RuleEntries();
    NothingRuns(MappingEnd, rest, c, hex);
    HandleTakes(RuleTable, 0, MappingEnd, rest, c, hex, 2);
    HandleEnd(RuleTable, 3, rest, c, hex);
    if EqualFold(key, "dst_port") { HandleTakes(RuleTable, 0, Scalar(key), rest, c, hex, 0); }
    if EqualFold(key, "filters") { HandleTakes(RuleTable, 0, Scalar(key), rest, c, hex, 1); }
  }

  lemma RuleEntries()
    ensures |Entries(RuleTable)| == 4
    ensures Entries(RuleTable)[0].process == DstPort && Entries(RuleTable)[0].next
    ensures Entries(RuleTable)[1].process == Filters && Entries(RuleTable)[1].next
    ensures Entries(RuleTable)[2].process == Nothing && !Entries(RuleTable)[2].next
  {
  }

  function ProcessOf(field: Field): Process {
    match field
    case NameField => PortName
    case MetricField => PortMetric
    case PubField => PubAddr
    case SubField => SubAddr
  }

  lemma PortSteps(key: string, field: Field, rest: seq<Event>, c: Config, hex: string -> byte)
    ensures |Entries(PortTable)| == 7
    ensures Handle(PortTable, 0, [MappingEnd] + rest, c, hex) == Loaded(c, rest)
    ensures EqualFold(key, KeyOf(field)) ==> Handle(PortTable, 0, [Scalar(key)] + rest, c, hex)
                                             == Then(Run(ProcessOf(field), Scalar(key), rest, c, hex), PortTable, 0, hex)
    ensures EqualFold(key, "forwarding_rules") ==> Handle(PortTable, 0, [Scalar(key)] + rest, c, hex)
                                                   == Then(Run(Rules, Scalar(key), rest, c, hex), PortTable, 0, hex)
  {
    hide Handle, Run, Scan, Entries, Guarded, EqualFold, KeyOf;
    PortScans(key, field);
    PortEntries(field);
    NothingRuns(MappingEnd, rest, c, hex);
    HandleTakes(PortTable, 0, MappingEnd, rest, c, hex, 5);
    HandleEnd(PortTable, 6, rest, c, hex);
    if EqualFold(key, KeyOf(field)) { HandleTakes(PortTable, 0, Scalar(key), rest, c, hex, IndexOf(field)); }
    if EqualFold(key, "forwarding_rules") { HandleTakes(PortTable, 0, Scalar(key), rest, c, hex, 4); }
  }

  lemma PortEntries(field: Field)
    ensures |Entries(PortTable)| == 7
    ensures Entries(PortTable)[IndexOf(field)].process == ProcessOf(field) && Entries(PortTable)[IndexOf(field)].next
    ensures Entries(PortTable)[4].process == Rules && Entries(PortTable)[4].next
    ensures Entries(PortTable)[5].process == Nothing && !Entries(PortTable)[5].next
  {
  }

  lemma TopSteps(key: string, rest: seq<Event>, c: Config, hex: string -> byte)
    ensures |Entries(RouterTable)| == 9
    ensures EqualFold(key, "name") ==> Handle(RouterTable, 3, [Scalar(key)] + rest, c, hex)
                                       == Then(Run(RouterName, Scalar(key), rest, c, hex), RouterTable, 3, hex)
    ensures EqualFold(key, "ports") ==> Handle(RouterTable, 3, [Scalar(key)] + rest, c, hex)
                                        == Then(Run(Ports, Scalar(key), rest, c, hex), RouterTable, 3, hex)
    ensures Handle(RouterTable, 3, [MappingEnd] + rest, c, hex) == Handle(RouterTable, 6, rest, c, hex)
  {
    hide Handle, Run, Scan, Entries, Guarded, EqualFold;
    RouterScans(key);
    RouterEntries();
    NothingRuns(MappingEnd, rest, c, hex);
    HandleTakes(RouterTable, 3, MappingEnd, rest, c, hex, 5);
    if EqualFold(key, "name") { HandleTakes(RouterTable, 3, Scalar(key), rest, c, hex, 3); }
    if EqualFold(key, "ports") { HandleTakes(RouterTable, 3, Scalar(key), rest, c, hex, 4); }
  }

  lemma RouterEntries()
    ensures |Entries(RouterTable)| == 9
    ensures forall i :: (0 <= i < 3 || 5 <= i < 8) ==> Entries(RouterTable)[i].process == Nothing && !Entries(RouterTable)[i].next
    ensures Entries(RouterTable)[3].process == RouterName && Entries(RouterTable)[3].next
    ensures Entries(RouterTable)[4].process == Ports && Entries(RouterTable)[4].next
  {
  }

  /** The events around the mapping of the router. */
  function EdgeEvent(i: nat): Event {
    if i == 0 then StreamStart
    else if i == 1 then DocumentStart
    else if i == 2 then MappingStart
    else if i == 6 then DocumentEnd
    else StreamEnd
  }

  lemma EdgeStep(i: nat, event: Event, rest: seq<Event>, c: Config, hex: string -> byte)
    requires (i < 3 || 6 <= i < 8) && event == EdgeEvent(i)
    ensures |Entries(RouterTable)| == 9
    ensures Handle(RouterTable, i, [event] + rest, c, hex) == Handle(RouterTable, i + 1, rest, c, hex)
  {
    hide Handle, Run, Scan, Entries, Guarded;
    RouterEdges();
    RouterEntries();
    PlainStep(RouterTable, i, event, rest, c, hex, i);
  }

  /** A key with a string for its value. */
  lemma StringRuns(process: Process, event: Event, value: string, rest: seq<Event>, c: Config, hex: string -> byte)
    requires Assign(process, value, c).Some?
    ensures Run(process, event, [Scalar(value)] + rest, c, hex) == Loaded(Assign(process, value, c).value, rest)
  {
    assert ([Scalar(value)] + rest)[1..] == rest;
  }

  function AddData(c: Config, data: seq<byte>): Config
    requires HasFilter(c)
  {
    SetFilter(c, LastFilter(c).(data := LastFilter(c).data + data))
  }
}
