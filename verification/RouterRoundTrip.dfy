/** Loading a document gives the configuration that it writes down. */
module RouterRoundTrip {
  import opened Basics
  import opened CaseFold
  import opened RouterLoad
  import opened RouterDocs
  import opened RouterSteps
  import Router

  // ---------------------------------------------------------------------------
  // Filters
  // ---------------------------------------------------------------------------

  lemma DataJoins(c: Config, b: byte, data: seq<byte>)
    requires HasFilter(c)
    ensures HasFilter(AddData(c, [b])) && AddData(AddData(c, [b]), data) == AddData(c, [b] + data)
    ensures AddData(c, []) == c
  {
    hide HasFilter, LastFilter, SetFilter;
    var f := LastFilter(c);
    FilterSets(c, f.(data := f.data + [b]), f.(data := f.data + ([b] + data)));
    assert f.data + [b] + data == f.data + ([b] + data);
    assert f.data + [] == f.data;
  }

  lemma {:induction false} ElementsLoad(elements: seq<string>, tail: seq<Event>, c: Config, hex: string -> byte)
    requires HasFilter(c)
    ensures Handle(PrefixTable, 1, Elements(elements, tail), c, hex) == Loaded(AddData(c, Bytes(elements, hex)), tail)
    decreases |elements|
  {
    hide Handle, Entries, HasFilter, AddData;
    if elements == [] {
      PrefixSteps("", tail, c, hex);
      DataJoins(c, 0, []);
    } else {
      var e := elements[0];
      PrefixSteps(e, Elements(elements[1..], tail), c, hex);
      DataJoins(c, hex(e), Bytes(elements[1..], hex));
      ElementsLoad(elements[1..], tail, AddData(c, [hex(e)]), hex);
    }
  }

  /** One key of a filter. */
  lemma FilterEntryLoads(entry: FilterEntry, doc: FilterDoc, tail: seq<Event>, c: Config, hex: string -> byte)
    requires HasFilter(c) && doc != [] && doc[0] == entry && FilterOk(doc)
    ensures HasFilter(SetFilter(c, FilterWith(LastFilter(c), entry, hex)))
    ensures Handle(FilterTable, 0, FilterBody(doc, tail), c, hex)
         == Handle(FilterTable, 0, FilterBody(doc[1..], tail), SetFilter(c, FilterWith(LastFilter(c), entry, hex)), hex)
  {
    hide Handle, Entries, HasFilter, LastFilter, SetFilter, EqualFold, ActionOf;
    var rest, f := FilterBody(doc[1..], tail), LastFilter(c);
    FilterSets(c, FilterWith(f, entry, hex), f);
    match entry {
      case ActionEntry(key, value) =>
        FilterSteps(key, [Scalar(value)] + rest, c, hex);
        assert Assign(AnAction, value, c) == Some(SetFilter(c, FilterWith(f, entry, hex)));
        StringRuns(AnAction, Scalar(key), value, rest, c, hex);
      case PrefixEntry(key, elements) =>
        FilterSteps(key, [SequenceStart] + Elements(elements, rest), c, hex);
        PrefixRuns(key, elements, rest, c, hex);
    }
  }

  lemma PrefixRuns(key: string, elements: seq<string>, rest: seq<Event>, c: Config, hex: string -> byte)
    requires HasFilter(c)
    ensures Run(Prefix, Scalar(key), [SequenceStart] + Elements(elements, rest), c, hex)
         == Loaded(AddData(c, Bytes(elements, hex)), rest)
  {
    hide Handle, Entries, HasFilter, LastFilter, SetFilter;
    PrefixSteps("", Elements(elements, rest), c, hex);
    ElementsLoad(elements, rest, c, hex);
  }

  lemma {:induction false} FilterLoads(doc: FilterDoc, tail: seq<Event>, c: Config, hex: string -> byte)
    requires HasFilter(c) && FilterOk(doc)
    ensures Handle(FilterTable, 0, FilterBody(doc, tail), c, hex) == Loaded(SetFilter(c, FilterFrom(LastFilter(c), doc, hex)), tail)
    decreases |doc|
  {
    hide Handle, Entries, HasFilter, LastFilter, SetFilter, FilterWith;
    var f := LastFilter(c);
    if doc == [] {
      FilterSteps("", tail, c, hex);
      FilterSets(c, f, f);
    } else {
      var g := FilterWith(f, doc[0], hex);
      FilterEntryLoads(doc[0], doc, tail, c, hex);
      FilterLoads(doc[1..], tail, SetFilter(c, g), hex);
      FilterSets(c, g, FilterFrom(f, doc, hex));
    }
  }

  function AddFilters(c: Config, filters: seq<Router.Filter>): Config
    requires HasRule(c)
  {
    SetRule(c, LastRule(c).(filters := LastRule(c).filters + filters))
  }

  /** One item of the list of filters. */
  lemma FilterItemLoads(docs: seq<FilterDoc>, tail: seq<Event>, c: Config, hex: string -> byte)
    requires HasRule(c) && docs != [] && FilterOk(docs[0])
    ensures Handle(FiltersTable, 1, FilterItems(docs, tail), c, hex)
         == Handle(FiltersTable, 1, FilterItems(docs[1..], tail), AddFilter(c, FilterFrom(NEW_FILTER, docs[0], hex)), hex)
  {
    hide Handle, Entries, HasRule, AddFilter, FilterFrom, FilterOk, FilterBody, Run;
    var rest := FilterItems(docs[1..], tail);
    ListSteps(FiltersTable, FilterBody(docs[0], rest), c, hex);
    FilterRuns(docs[0], rest, c, hex);
  }

  lemma FilterJoins(c: Config, f: Router.Filter, filters: seq<Router.Filter>)
    requires HasRule(c)
    ensures HasRule(AddFilter(c, f)) && AddFilters(AddFilter(c, f), filters) == AddFilters(c, [f] + filters)
    ensures AddFilters(c, []) == c
  {
    hide HasRule, LastRule, SetRule;
    var r := LastRule(c);
    RuleSets(c, r.(filters := r.filters + [f]), r.(filters := r.filters + ([f] + filters)));
    assert r.filters + [f] + filters == r.filters + ([f] + filters);
    assert r.filters + [] == r.filters;
  }

  lemma {:induction false} FiltersLoad(docs: seq<FilterDoc>, tail: seq<Event>, c: Config, hex: string -> byte)
    requires HasRule(c) && FiltersOk(docs)
    ensures Handle(FiltersTable, 1, FilterItems(docs, tail), c, hex) == Loaded(AddFilters(c, FiltersFrom(docs, hex)), tail)
    decreases |docs|
  {
    hide Handle, Entries, HasRule, FilterFrom, FilterOk, AddFilter, AddFilters;
    if docs == [] {
      ListSteps(FiltersTable, tail, c, hex);
      FilterJoins(c, NEW_FILTER, []);
    } else {
      var f := FilterFrom(NEW_FILTER, docs[0], hex);
      FilterItemLoads(docs, tail, c, hex);
      FilterJoins(c, f, FiltersFrom(docs[1..], hex));
      FiltersLoad(docs[1..], tail, AddFilter(c, f), hex);
    }
  }

  lemma FilterRuns(doc: FilterDoc, rest: seq<Event>, c: Config, hex: string -> byte)
    requires HasRule(c) && FilterOk(doc)
    ensures Run(AFilter, MappingStart, FilterBody(doc, rest), c, hex)
         == Loaded(AddFilter(c, FilterFrom(NEW_FILTER, doc, hex)), rest)
  {
    hide Handle, Entries, HasRule, HasFilter, LastFilter, SetFilter, AddFilter, FilterOk;
    FilterAdds(c, NEW_FILTER, FilterFrom(NEW_FILTER, doc, hex));
    FilterLoads(doc, rest, AddFilter(c, NEW_FILTER), hex);
  }

  // ---------------------------------------------------------------------------
  // Rules
  // ---------------------------------------------------------------------------

  lemma FiltersRun(key: string, docs: seq<FilterDoc>, rest: seq<Event>, c: Config, hex: string -> byte)
    requires HasRule(c) && FiltersOk(docs)
    ensures Run(Filters, Scalar(key), [SequenceStart] + FilterItems(docs, rest), c, hex)
         == Loaded(AddFilters(c, FiltersFrom(docs, hex)), rest)
  {
    hide Handle, Entries, HasRule, AddFilters, FiltersOk;
    ListSteps(FiltersTable, FilterItems(docs, rest), c, hex);
    FiltersLoad(docs, rest, c, hex);
  }

  lemma RuleEntryLoads(entry: RuleEntry, doc: RuleDoc, tail: seq<Event>, c: Config, hex: string -> byte)
    requires HasRule(c) && doc != [] && doc[0] == entry && RuleOk(doc)
    ensures HasRule(SetRule(c, RuleWith(LastRule(c), entry, hex)))
    ensures Handle(RuleTable, 0, RuleBody(doc, tail), c, hex)
         == Handle(RuleTable, 0, RuleBody(doc[1..], tail), SetRule(c, RuleWith(LastRule(c), entry, hex)), hex)
  {
    hide Handle, Entries, HasRule, LastRule, SetRule, EqualFold, FiltersOk;
    var rest, r := RuleBody(doc[1..], tail), LastRule(c);
    RuleSets(c, RuleWith(r, entry, hex), r);
    match entry {
      case DstEntry(key, value) =>
        RuleSteps(key, [Scalar(value)] + rest, c, hex);
        assert Assign(DstPort, value, c) == Some(SetRule(c, RuleWith(r, entry, hex)));
        StringRuns(DstPort, Scalar(key), value, rest, c, hex);
      case FiltersEntry(key, filters) =>
        RuleSteps(key, [SequenceStart] + FilterItems(filters, rest), c, hex);
        FiltersRun(key, filters, rest, c, hex);
    }
  }

  lemma {:induction false} RuleLoads(doc: RuleDoc, tail: seq<Event>, c: Config, hex: string -> byte)
    requires HasRule(c) && RuleOk(doc)
    ensures Handle(RuleTable, 0, RuleBody(doc, tail), c, hex) == Loaded(SetRule(c, RuleFrom(LastRule(c), doc, hex)), tail)
    decreases |doc|
  {
    hide Handle, Entries, HasRule, LastRule, SetRule, RuleWith;
    var r := LastRule(c);
    if doc == [] {
      RuleSteps("", tail, c, hex);
      RuleSets(c, r, r);
    } else {
      var s := RuleWith(r, doc[0], hex);
      RuleEntryLoads(doc[0], doc, tail, c, hex);
      RuleLoads(doc[1..], tail, SetRule(c, s), hex);
      RuleSets(c, s, RuleFrom(r, doc, hex));
    }
  }

  function AddRules(c: Config, rules: seq<Rule>): Config
    requires HasPort(c)
  {
    SetPort(c, LastPort(c).(rules := LastPort(c).rules + rules))
  }

  lemma RuleRuns(doc: RuleDoc, rest: seq<Event>, c: Config, hex: string -> byte)
    requires HasPort(c) && RuleOk(doc)
    ensures Run(ARule, MappingStart, RuleBody(doc, rest), c, hex)
         == Loaded(AddRule(c, RuleFrom(NEW_RULE, doc, hex)), rest)
  {
    hide Handle, Entries, HasPort, HasRule, LastRule, SetRule, AddRule, RuleOk;
    RuleAdds(c, NEW_RULE, RuleFrom(NEW_RULE, doc, hex));
    RuleLoads(doc, rest, AddRule(c, NEW_RULE), hex);
  }

  /** One item of the list of rules. */
  lemma RuleItemLoads(docs: seq<RuleDoc>, tail: seq<Event>, c: Config, hex: string -> byte)
    requires HasPort(c) && docs != [] && RuleOk(docs[0])
    ensures Handle(RulesTable, 1, RuleItems(docs, tail), c, hex)
         == Handle(RulesTable, 1, RuleItems(docs[1..], tail), AddRule(c, RuleFrom(NEW_RULE, docs[0], hex)), hex)
  {
    hide Handle, Entries, HasPort, AddRule, RuleFrom, RuleOk, RuleBody, Run;
    var rest := RuleItems(docs[1..], tail);
    ListSteps(RulesTable, RuleBody(docs[0], rest), c, hex);
    RuleRuns(docs[0], rest, c, hex);
  }

  lemma RuleJoins(c: Config, r: Rule, rules: seq<Rule>)
    requires HasPort(c)
    ensures HasPort(AddRule(c, r)) && AddRules(AddRule(c, r), rules) == AddRules(c, [r] + rules)
    ensures AddRules(c, []) == c
  {
    hide HasPort, LastPort, SetPort;
    var p := LastPort(c);
    PortSets(c, p.(rules := p.rules + [r]), p.(rules := p.rules + ([r] + rules)));
    assert p.rules + [r] + rules == p.rules + ([r] + rules);
    assert p.rules + [] == p.rules;
  }

  lemma {:induction false} RulesLoad(docs: seq<RuleDoc>, tail: seq<Event>, c: Config, hex: string -> byte)
    requires HasPort(c) && RulesOk(docs)
    ensures Handle(RulesTable, 1, RuleItems(docs, tail), c, hex) == Loaded(AddRules(c, RulesFrom(docs, hex)), tail)
    decreases |docs|
  {
    hide Handle, Entries, HasPort, RuleFrom, RuleOk, AddRule, AddRules;
    if docs == [] {
      ListSteps(RulesTable, tail, c, hex);
      RuleJoins(c, NEW_RULE, []);
    } else {
      var r := RuleFrom(NEW_RULE, docs[0], hex);
      RuleItemLoads(docs, tail, c, hex);
      RuleJoins(c, r, RulesFrom(docs[1..], hex));
      RulesLoad(docs[1..], tail, AddRule(c, r), hex);
    }
  }

  // ---------------------------------------------------------------------------
  // Ports
  // ---------------------------------------------------------------------------

  lemma RulesRun(key: string, docs: seq<RuleDoc>, rest: seq<Event>, c: Config, hex: string -> byte)
    requires HasPort(c) && RulesOk(docs)
    ensures Run(Rules, Scalar(key), [SequenceStart] + RuleItems(docs, rest), c, hex)
         == Loaded(AddRules(c, RulesFrom(docs, hex)), rest)
  {
    hide Handle, Entries, HasPort, AddRules, RulesOk;
    ListSteps(RulesTable, RuleItems(docs, rest), c, hex);
    RulesLoad(docs, rest, c, hex);
  }

  lemma FieldAssigns(field: Field, value: string, c: Config)
    requires HasPort(c) && (field == MetricField ==> ValidMetric(value))
    ensures Assign(ProcessOf(field), value, c) == Some(SetPort(c, SetField(LastPort(c), field, value)))
  {
    hide ValidMetric, SetPort, LastPort;
  }

  lemma PortEntryLoads(entry: PortEntry, doc: PortDoc, tail: seq<Event>, c: Config, hex: string -> byte)
    requires HasPort(c) && doc != [] && doc[0] == entry && PortOk(doc)
    ensures HasPort(SetPort(c, PortWith(LastPort(c), entry, hex)))
    ensures Handle(PortTable, 0, PortBody(doc, tail), c, hex)
         == Handle(PortTable, 0, PortBody(doc[1..], tail), SetPort(c, PortWith(LastPort(c), entry, hex)), hex)
  {
    hide Handle, Entries, HasPort, LastPort, SetPort, EqualFold, RulesOk, ValidMetric, KeyOf, SetField, ProcessOf;
    var rest, p := PortBody(doc[1..], tail), LastPort(c);
    PortSets(c, PortWith(p, entry, hex), p);
    match entry {
      case TextEntry(field, key, value) =>
        PortSteps(key, field, [Scalar(value)] + rest, c, hex);
        FieldAssigns(field, value, c);
        StringRuns(ProcessOf(field), Scalar(key), value, rest, c, hex);
      case RulesEntry(key, rules) =>
        PortSteps(key, NameField, [SequenceStart] + RuleItems(rules, rest), c, hex);
        RulesRun(key, rules, rest, c, hex);
    }
  }

  lemma {:induction false} PortLoads(doc: PortDoc, tail: seq<Event>, c: Config, hex: string -> byte)
    requires HasPort(c) && PortOk(doc)
    ensures Handle(PortTable, 0, PortBody(doc, tail), c, hex) == Loaded(SetPort(c, PortFrom(LastPort(c), doc, hex)), tail)
    decreases |doc|
  {
    hide Handle, Entries, HasPort, LastPort, SetPort, PortWith;
    var p := LastPort(c);
    if doc == [] {
      PortSteps("", NameField, tail, c, hex);
      PortSets(c, p, p);
    } else {
      var q := PortWith(p, doc[0], hex);
      PortEntryLoads(doc[0], doc, tail, c, hex);
      PortLoads(doc[1..], tail, SetPort(c, q), hex);
      PortSets(c, q, PortFrom(p, doc, hex));
    }
  }

  /** A port with a metric among its keys passes the check at its end. */
  lemma {:induction false} MetricKept(p: Port, doc: PortDoc, hex: string -> byte)
    requires PortOk(doc) && (ValidMetric(p.metric) || Measured(doc))
    ensures ValidMetric(PortFrom(p, doc, hex).metric)
    decreases |doc|
  {
    hide ValidMetric, EqualFold, RulesOk, RulesFrom;
    if doc != [] {
      MetricKept(PortWith(p, doc[0], hex), doc[1..], hex);
    }
  }

  lemma PortRuns(doc: PortDoc, rest: seq<Event>, c: Config, hex: string -> byte)
    requires PortOk(doc) && Measured(doc)
    ensures Run(APort, MappingStart, PortBody(doc, rest), c, hex)
         == Loaded(AddPort(c, PortFrom(NEW_PORT, doc, hex)), rest)
  {
    hide Handle, Entries, HasPort, LastPort, SetPort, PortOk, Measured, ValidMetric, PortFrom;
    PortAdds(c, NEW_PORT, PortFrom(NEW_PORT, doc, hex));
    PortLoads(doc, rest, AddPort(c, NEW_PORT), hex);
    MetricKept(NEW_PORT, doc, hex);
  }

  /** One item of the list of ports. */
  lemma PortItemLoads(docs: seq<PortDoc>, tail: seq<Event>, c: Config, hex: string -> byte)
    requires docs != [] && PortOk(docs[0]) && Measured(docs[0])
    ensures Handle(PortsTable, 1, PortItems(docs, tail), c, hex)
         == Handle(PortsTable, 1, PortItems(docs[1..], tail), AddPort(c, PortFrom(NEW_PORT, docs[0], hex)), hex)
  {
    hide Handle, Entries, AddPort, PortFrom, PortOk, Measured, PortBody, Run;
    var rest := PortItems(docs[1..], tail);
    ListSteps(PortsTable, PortBody(docs[0], rest), c, hex);
    PortRuns(docs[0], rest, c, hex);
  }

  function AddPorts(c: Config, ports: seq<Port>): Config { c.(ports := c.ports + ports) }

  lemma PortJoins(c: Config, p: Port, ports: seq<Port>)
    ensures AddPorts(AddPort(c, p), ports) == AddPorts(c, [p] + ports) && AddPorts(c, []) == c
  {
    assert c.ports + [p] + ports == c.ports + ([p] + ports);
    assert c.ports + [] == c.ports;
  }

  lemma {:induction false} PortsLoad(docs: seq<PortDoc>, tail: seq<Event>, c: Config, hex: string -> byte)
    requires PortsOk(docs)
    ensures Handle(PortsTable, 1, PortItems(docs, tail), c, hex) == Loaded(AddPorts(c, PortsFrom(docs, hex)), tail)
    decreases |docs|
  {
    hide Handle, Entries, PortFrom, PortOk, Measured, AddPort, AddPorts;
    if docs == [] {
      ListSteps(PortsTable, tail, c, hex);
      PortJoins(c, NEW_PORT, []);
    } else {
      var p := PortFrom(NEW_PORT, docs[0], hex);
      PortItemLoads(docs, tail, c, hex);
      PortJoins(c, p, PortsFrom(docs[1..], hex));
      PortsLoad(docs[1..], tail, AddPort(c, p), hex);
    }
  }

  // ---------------------------------------------------------------------------
  // The router
  // ---------------------------------------------------------------------------

  lemma PortsRun(key: string, docs: seq<PortDoc>, rest: seq<Event>, c: Config, hex: string -> byte)
    requires PortsOk(docs)
    ensures Run(Ports, Scalar(key), [SequenceStart] + PortItems(docs, rest), c, hex)
         == Loaded(c.(ports := c.ports + PortsFrom(docs, hex)), rest)
  {
    hide Handle, Entries, PortsOk;
    ListSteps(PortsTable, PortItems(docs, rest), c, hex);
    PortsLoad(docs, rest, c, hex);
  }

  lemma {:induction false} RouterLoads(doc: RouterDoc, tail: seq<Event>, c: Config, hex: string -> byte)
    requires RouterOk(doc)
    ensures Handle(RouterTable, 3, RouterBody(doc, tail), c, hex)
         == Handle(RouterTable, 6, tail, ConfigFrom(c, doc, hex), hex)
    decreases |doc|
  {
    hide Handle, Entries, EqualFold, PortsOk, PortsFrom;
    if doc == [] {
      TopSteps("", tail, c, hex);
    } else {
      var rest := RouterBody(doc[1..], tail);
      RouterLoads(doc[1..], tail, ConfigWith(c, doc[0], hex), hex);
      match doc[0] {
        case NameEntry(key, value) =>
          TopSteps(key, [Scalar(value)] + rest, c, hex);
          assert Assign(RouterName, value, c) == Some(ConfigWith(c, doc[0], hex));
          StringRuns(RouterName, Scalar(key), value, rest, c, hex);
        case PortsEntry(key, ports) =>
          TopSteps(key, [SequenceStart] + PortItems(ports, rest), c, hex);
          PortsRun(key, ports, rest, c, hex);
      }
    }
  }

  /** Every document in the grammar is accepted, in whatever order its keys are, and gives what it
      says; what follows it is not looked at. */
  lemma DocumentLoads(doc: RouterDoc, tail: seq<Event>, c: Config, hex: string -> byte)
    requires RouterOk(doc)
    ensures Handle(RouterTable, 0, DocumentThen(doc, tail), c, hex) == Loaded(ConfigFrom(c, doc, hex), tail)
  {
    hide Handle, Entries, RouterOk, RouterBody, ConfigFrom;
    var c' := ConfigFrom(c, doc, hex);
    var end := [DocumentEnd] + ([StreamEnd] + tail);
    EdgeStep(0, StreamStart, [DocumentStart] + ([MappingStart] + RouterBody(doc, end)), c, hex);
    EdgeStep(1, DocumentStart, [MappingStart] + RouterBody(doc, end), c, hex);
    EdgeStep(2, MappingStart, RouterBody(doc, end), c, hex);
    RouterLoads(doc, end, c, hex);
    EdgeStep(6, DocumentEnd, [StreamEnd] + tail, c', hex);
    EdgeStep(7, StreamEnd, tail, c', hex);
    HandleEnd(RouterTable, 8, tail, c', hex);
  }
}
