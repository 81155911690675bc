/** The other direction: whatever events the loader accepts are those of a document in the grammar,
    so that acceptance is characterised exactly. */
module RouterGrammar {
  import opened Basics
  import opened CaseFold
  import opened RouterLoad
  import opened RouterDocs
  import opened RouterSteps
  import opened RouterRoundTrip
  import Router

  /** How an event was taken. */
  lemma Taken(table: Table, offset: nat, events: seq<Event>, c: Config, hex: string -> byte)
      returns (i: nat, r: Loaded)
    requires offset < |Entries(table)| - 1 && Handle(table, offset, events, c, hex).Loaded?
    ensures events != [] && offset <= i < |Entries(table)| - 1 && Matches(events[0], Entries(table)[i])
    ensures r == Run(Entries(table)[i].process, events[0], events[1..], c, hex) && r.Loaded?
    ensures Handle(table, offset, events, c, hex)
         == Handle(table, if Entries(table)[i].next then offset else i + 1, r.rest, r.config, hex)
    ensures events == [events[0]] + events[1..]
    ensures forall k :: offset <= k < i ==> Entries(table)[k].next
  {
    hide Handle, Run, Entries, Guarded, Matches;
    TablesGuarded(table);
    HandleEnd(table, offset, events, c, hex);
    var event, rest := events[0], events[1..];
    assert events == [event] + rest;
    var found := Scan(Entries(table), offset, event);
    if found == None {
      HandleFails(table, offset, event, rest, c, hex);
    } else {
      i := found.value;
      HandleTakes(table, offset, event, rest, c, hex, i);
    }
    r := Run(Entries(table)[i].process, event, rest, c, hex);
  }

  // ---------------------------------------------------------------------------
  // Filters
  // ---------------------------------------------------------------------------

  lemma {:induction false} ElementsParsed(events: seq<Event>, c: Config, hex: string -> byte)
      returns (elements: seq<string>)
    requires Handle(PrefixTable, 1, events, c, hex).Loaded?
    ensures events == Elements(elements, Handle(PrefixTable, 1, events, c, hex).rest)
    decreases |events|
  {
    PrefixEntries();
    hide Handle, Run, Guarded;
    var i, r := Taken(PrefixTable, 1, events, c, hex);
    if i == 2 {
      NothingRuns(events[0], events[1..], c, hex);
      HandleEnd(PrefixTable, 3, events[1..], c, hex);
      elements := [];
    } else {
      ElementTaken(events[0], events[1..], c, hex);
      var more := ElementsParsed(events[1..], r.config, hex);
      elements := [events[0].value] + more;
      assert elements[1..] == more;
    }
  }

  lemma ElementTaken(event: Event, rest: seq<Event>, c: Config, hex: string -> byte)
    requires Run(PrefixElement, event, rest, c, hex).Loaded?
    ensures event.Scalar? && Run(PrefixElement, event, rest, c, hex).rest == rest
  {
  }

  /** A process function that takes a string took one. */
  lemma StringTaken(process: Process, event: Event, rest: seq<Event>, c: Config, hex: string -> byte)
    requires process in {RouterName, PortName, PubAddr, SubAddr, PortMetric, DstPort, AnAction}
    requires Run(process, event, rest, c, hex).Loaded?
    ensures rest != [] && rest[0].Scalar? && Assign(process, rest[0].value, c).Some?
    ensures Run(process, event, rest, c, hex).rest == rest[1..]
    ensures rest == [Scalar(rest[0].value)] + rest[1..]
  {
    hide Handle, Assign;
  }

  /** An event that stands for itself. */
  lemma KindIs(event: Event)
    ensures KindOf(event) == SequenceStartKind ==> event == SequenceStart
    ensures KindOf(event) == SequenceEndKind ==> event == SequenceEnd
    ensures KindOf(event) == MappingStartKind ==> event == MappingStart
    ensures KindOf(event) == MappingEndKind ==> event == MappingEnd
    ensures KindOf(event) == ScalarKind ==> event.Scalar? && event == Scalar(event.value)
  {
  }

  /** A list starts with its start event. */
  lemma ListTaken(table: Table, events: seq<Event>, c: Config, hex: string -> byte)
    requires table == PortsTable || table == RulesTable || table == FiltersTable || table == PrefixTable
    requires Handle(table, 0, events, c, hex).Loaded?
    ensures |Entries(table)| == 4 && events != [] && events == [SequenceStart] + events[1..]
    ensures Handle(table, 0, events, c, hex) == Handle(table, 1, events[1..], c, hex)
  {
    FirstEntry(table);
    hide Handle, Run, Guarded, Entries, KindOf;
    var i, r := Taken(table, 0, events, c, hex);
    KindIs(events[0]);
    NothingRuns(events[0], events[1..], c, hex);
  }

  lemma FirstEntry(table: Table)
    requires table == PortsTable || table == RulesTable || table == FiltersTable || table == PrefixTable
    ensures |Entries(table)| == 4 && !Entries(table)[0].next && Entries(table)[0].process == Nothing
    ensures Entries(table)[0].kind == SequenceStartKind
  {
  }

  /** An item of a list, or its end. */
  lemma ItemTaken(table: Table, events: seq<Event>, c: Config, hex: string -> byte) returns (end: bool, r: Loaded)
    requires table == PortsTable || table == RulesTable || table == FiltersTable
    requires |Entries(table)| == 4 && Handle(table, 1, events, c, hex).Loaded?
    ensures events != []
    ensures end ==> events == [SequenceEnd] + events[1..] && Handle(table, 1, events, c, hex).rest == events[1..]
    ensures !end ==> events == [MappingStart] + events[1..]
    ensures !end ==> r == Run(ItemOf(table), events[0], events[1..], c, hex) && r.Loaded?
    ensures !end ==> Handle(table, 1, events, c, hex) == Handle(table, 1, r.rest, r.config, hex)
  {
    ListEntries(table);
    ListKinds(table);
    hide Handle, Run, Guarded, Entries, KindOf, ItemOf;
    var i;
    i, r := Taken(table, 1, events, c, hex);
    KindIs(events[0]);
    end := i == 2;
    if end {
      NothingRuns(events[0], events[1..], c, hex);
      HandleEnd(table, 3, events[1..], c, hex);
    }
  }

  lemma ListKinds(table: Table)
    requires table == PortsTable || table == RulesTable || table == FiltersTable
    ensures |Entries(table)| == 4
    ensures Entries(table)[1].kind == MappingStartKind && Entries(table)[2].kind == SequenceEndKind
  {
  }

  lemma PrefixParsed(event: Event, events: seq<Event>, c: Config, hex: string -> byte) returns (elements: seq<string>)
    requires Run(Prefix, event, events, c, hex).Loaded?
    ensures events == [SequenceStart] + Elements(elements, Run(Prefix, event, events, c, hex).rest)
  {
    hide Handle, Entries;
    ListTaken(PrefixTable, events, c, hex);
    elements := ElementsParsed(events[1..], c, hex);
  }

  lemma ActionAssigned(value: string, c: Config)
    requires Assign(AnAction, value, c).Some?
    ensures ActionOf(value).Some?
  {
  }

  /** The entries of the filter table. */
  lemma FilterTaken(i: nat, event: Event)
    requires i < 3 && |Entries(FilterTable)| == 4 && Matches(event, Entries(FilterTable)[i])
    ensures if i == 2 then event == MappingEnd
            else event.Scalar? && EqualFold(event.value, if i == 0 then "action" else "prefix")
  {
    KindIs(event);
  }

  lemma {:induction false} FilterParsed(events: seq<Event>, c: Config, hex: string -> byte) returns (doc: FilterDoc)
    requires Handle(FilterTable, 0, events, c, hex).Loaded?
    ensures FilterOk(doc) && events == FilterBody(doc, Handle(FilterTable, 0, events, c, hex).rest)
    decreases |events|
  {
    FilterEntries();
    hide Handle, Run, Guarded, Entries, EqualFold, ActionOf, Matches, Elements;
    var i, r := Taken(FilterTable, 0, events, c, hex);
    FilterTaken(i, events[0]);
    if i == 2 {
      NothingRuns(events[0], events[1..], c, hex);
      HandleEnd(FilterTable, 3, events[1..], c, hex);
      doc := [];
    } else {
      var entry: FilterEntry;
      if i == 0 {
        StringTaken(AnAction, events[0], events[1..], c, hex);
        ActionAssigned(events[1..][0].value, c);
        entry := ActionEntry(events[0].value, events[1..][0].value);
      } else {
        var elements := PrefixParsed(events[0], events[1..], c, hex);
        entry := PrefixEntry(events[0].value, elements);
      }
      var more := FilterParsed(r.rest, r.config, hex);
      doc := [entry] + more;
      assert doc[1..] == more;
    }
  }

  lemma {:induction false} FiltersParsed(events: seq<Event>, c: Config, hex: string -> byte) returns (docs: seq<FilterDoc>)
    requires |Entries(FiltersTable)| == 4 && Handle(FiltersTable, 1, events, c, hex).Loaded?
    ensures FiltersOk(docs) && events == FilterItems(docs, Handle(FiltersTable, 1, events, c, hex).rest)
    decreases |events|
  {
    hide Handle, Run, Entries, FilterOk, FilterBody;
    var end, r := ItemTaken(FiltersTable, events, c, hex);
    if end {
      docs := [];
    } else {
      FilterRun(events[0], events[1..], c, hex);
      var doc := FilterParsed(events[1..], AddFilter(c, NEW_FILTER), hex);
      var more := FiltersParsed(r.rest, r.config, hex);
      docs := [doc] + more;
      assert docs[1..] == more;
    }
  }

  lemma FilterRun(event: Event, events: seq<Event>, c: Config, hex: string -> byte)
    requires Run(AFilter, event, events, c, hex).Loaded?
    ensures HasRule(c)
    ensures Run(AFilter, event, events, c, hex) == Handle(FilterTable, 0, events, AddFilter(c, NEW_FILTER), hex)
  {
    hide Handle;
  }

  // ---------------------------------------------------------------------------
  // Rules
  // ---------------------------------------------------------------------------

  lemma FiltersListParsed(event: Event, events: seq<Event>, c: Config, hex: string -> byte) returns (docs: seq<FilterDoc>)
    requires Run(Filters, event, events, c, hex).Loaded?
    ensures FiltersOk(docs) && events == [SequenceStart] + FilterItems(docs, Run(Filters, event, events, c, hex).rest)
  {
    hide Handle, Entries;
    ListTaken(FiltersTable, events, c, hex);
    docs := FiltersParsed(events[1..], c, hex);
  }

  lemma RuleTaken(i: nat, event: Event)
    requires i < 3 && |Entries(RuleTable)| == 4 && Matches(event, Entries(RuleTable)[i])
    ensures if i == 2 then event == MappingEnd
            else event.Scalar? && EqualFold(event.value, if i == 0 then "dst_port" else "filters")
  {
    KindIs(event);
  }

  lemma {:induction false} RuleParsed(events: seq<Event>, c: Config, hex: string -> byte) returns (doc: RuleDoc)
    requires Handle(RuleTable, 0, events, c, hex).Loaded?
    ensures RuleOk(doc) && events == RuleBody(doc, Handle(RuleTable, 0, events, c, hex).rest)
    decreases |events|
  {
    RuleEntries();
    hide Handle, Run, Guarded, Entries, EqualFold, Matches, FiltersOk, FilterItems;
    var i, r := Taken(RuleTable, 0, events, c, hex);
    RuleTaken(i, events[0]);
    if i == 2 {
      NothingRuns(events[0], events[1..], c, hex);
      HandleEnd(RuleTable, 3, events[1..], c, hex);
      doc := [];
    } else {
      var entry: RuleEntry;
      if i == 0 {
        StringTaken(DstPort, events[0], events[1..], c, hex);
        entry := DstEntry(events[0].value, events[1..][0].value);
      } else {
        var docs := FiltersListParsed(events[0], events[1..], c, hex);
        entry := FiltersEntry(events[0].value, docs);
      }
      var more := RuleParsed(r.rest, r.config, hex);
      doc := [entry] + more;
      assert doc[1..] == more;
    }
  }

  lemma RuleRun(event: Event, events: seq<Event>, c: Config, hex: string -> byte)
    requires Run(ARule, event, events, c, hex).Loaded?
    ensures HasPort(c) && Run(ARule, event, events, c, hex) == Handle(RuleTable, 0, events, AddRule(c, NEW_RULE), hex)
  {
    hide Handle;
  }

  lemma {:induction false} RulesParsed(events: seq<Event>, c: Config, hex: string -> byte) returns (docs: seq<RuleDoc>)
    requires |Entries(RulesTable)| == 4 && Handle(RulesTable, 1, events, c, hex).Loaded?
    ensures RulesOk(docs) && events == RuleItems(docs, Handle(RulesTable, 1, events, c, hex).rest)
    decreases |events|
  {
    hide Handle, Run, Entries, RuleOk, RuleBody;
    var end, r := ItemTaken(RulesTable, events, c, hex);
    if end {
      docs := [];
    } else {
      RuleRun(events[0], events[1..], c, hex);
      var doc := RuleParsed(events[1..], AddRule(c, NEW_RULE), hex);
      var more := RulesParsed(r.rest, r.config, hex);
      docs := [doc] + more;
      assert docs[1..] == more;
    }
  }

  // ---------------------------------------------------------------------------
  // Ports
  // ---------------------------------------------------------------------------

  lemma RulesListParsed(event: Event, events: seq<Event>, c: Config, hex: string -> byte) returns (docs: seq<RuleDoc>)
    requires Run(Rules, event, events, c, hex).Loaded?
    ensures RulesOk(docs) && events == [SequenceStart] + RuleItems(docs, Run(Rules, event, events, c, hex).rest)
  {
    hide Handle, Entries;
    ListTaken(RulesTable, events, c, hex);
    docs := RulesParsed(events[1..], c, hex);
  }

  function FieldAt(i: nat): Field {
    if i == 0 then NameField else if i == 1 then MetricField else if i == 2 then PubField else SubField
  }

  lemma PortTaken(i: nat, event: Event)
    requires i < 6 && |Entries(PortTable)| == 7 && Matches(event, Entries(PortTable)[i])
    ensures if i == 5 then event == MappingEnd
            else event.Scalar? && EqualFold(event.value, if i == 4 then "forwarding_rules" else KeyOf(FieldAt(i)))
    ensures i < 4 ==> Entries(PortTable)[i].process == ProcessOf(FieldAt(i)) && Entries(PortTable)[i].next
  {
    KindIs(event);
  }

  lemma MetricAssigned(field: Field, value: string, c: Config)
    requires Assign(ProcessOf(field), value, c).Some?
    ensures field == MetricField ==> ValidMetric(value)
  {
    hide ValidMetric;
  }

  lemma FieldProcess(field: Field)
    ensures ProcessOf(field) in {RouterName, PortName, PubAddr, SubAddr, PortMetric, DstPort, AnAction}
  {
  }

  lemma {:induction false} PortParsed(events: seq<Event>, c: Config, hex: string -> byte) returns (doc: PortDoc)
    requires Handle(PortTable, 0, events, c, hex).Loaded?
    ensures PortOk(doc) && events == PortBody(doc, Handle(PortTable, 0, events, c, hex).rest)
    decreases |events|
  {
    PortEntries(NameField);
    hide Handle, Run, Guarded, Entries, EqualFold, Matches, RulesOk, RuleItems, KeyOf, ProcessOf, FieldAt, ValidMetric;
    var i, r := Taken(PortTable, 0, events, c, hex);
    PortTaken(i, events[0]);
    if i == 5 {
      NothingRuns(events[0], events[1..], c, hex);
      HandleEnd(PortTable, 6, events[1..], c, hex);
      doc := [];
    } else {
      var entry: PortEntry;
      if i == 4 {
        var docs := RulesListParsed(events[0], events[1..], c, hex);
        entry := RulesEntry(events[0].value, docs);
      } else {
        FieldProcess(FieldAt(i));
        StringTaken(ProcessOf(FieldAt(i)), events[0], events[1..], c, hex);
        MetricAssigned(FieldAt(i), events[1..][0].value, c);
        entry := TextEntry(FieldAt(i), events[0].value, events[1..][0].value);
      }
      var more := PortParsed(r.rest, r.config, hex);
      doc := [entry] + more;
      assert doc[1..] == more;
    }
  }

  /** Without a metric among its keys the metric of a port stays blank. */
  lemma {:induction false} Unmeasured(p: Port, doc: PortDoc, hex: string -> byte)
    requires !Measured(doc)
    ensures PortFrom(p, doc, hex).metric == p.metric
    decreases |doc|
  {
    hide RulesFrom;
    if doc != [] { Unmeasured(PortWith(p, doc[0], hex), doc[1..], hex); }
  }

  lemma PortRun(event: Event, events: seq<Event>, c: Config, hex: string -> byte)
    requires Run(APort, event, events, c, hex).Loaded?
    ensures var r := Handle(PortTable, 0, events, AddPort(c, NEW_PORT), hex);
            && Run(APort, event, events, c, hex) == r && |c.ports| < |r.config.ports|
            && ValidMetric(r.config.ports[|c.ports|].metric)
  {
    hide Handle, ValidMetric;
  }

  lemma PortMeasured(doc: PortDoc, events: seq<Event>, rest: seq<Event>, c: Config, hex: string -> byte)
    requires PortOk(doc) && events == PortBody(doc, rest)
    requires var r := Handle(PortTable, 0, events, AddPort(c, NEW_PORT), hex);
             r.Loaded? && |c.ports| < |r.config.ports| && ValidMetric(r.config.ports[|c.ports|].metric)
    ensures Measured(doc)
  {
    hide Handle, Entries, HasPort, LastPort, SetPort, PortOk, Measured, PortFrom, PortBody;
    PortAdds(c, NEW_PORT, PortFrom(NEW_PORT, doc, hex));
    PortLoads(doc, rest, AddPort(c, NEW_PORT), hex);
    if !Measured(doc) {
      Unmeasured(NEW_PORT, doc, hex);
    }
  }

  lemma {:induction false} PortsParsed(events: seq<Event>, c: Config, hex: string -> byte) returns (docs: seq<PortDoc>)
    requires |Entries(PortsTable)| == 4 && Handle(PortsTable, 1, events, c, hex).Loaded?
    ensures PortsOk(docs) && events == PortItems(docs, Handle(PortsTable, 1, events, c, hex).rest)
    decreases |events|
  {
    hide Handle, Run, Entries, PortOk, PortBody, Measured, ValidMetric;
    var end, r := ItemTaken(PortsTable, events, c, hex);
    if end {
      docs := [];
    } else {
      PortRun(events[0], events[1..], c, hex);
      var doc := PortParsed(events[1..], AddPort(c, NEW_PORT), hex);
      PortMeasured(doc, events[1..], r.rest, c, hex);
      var more := PortsParsed(r.rest, r.config, hex);
      docs := [doc] + more;
      assert docs[1..] == more;
    }
  }

  // ---------------------------------------------------------------------------
  // The router
  // ---------------------------------------------------------------------------

  lemma PortsListParsed(event: Event, events: seq<Event>, c: Config, hex: string -> byte) returns (docs: seq<PortDoc>)
    requires Run(Ports, event, events, c, hex).Loaded?
    ensures PortsOk(docs) && events == [SequenceStart] + PortItems(docs, Run(Ports, event, events, c, hex).rest)
  {
    hide Handle, Entries;
    ListTaken(PortsTable, events, c, hex);
    docs := PortsParsed(events[1..], c, hex);
  }

  lemma TopTaken(i: nat, event: Event)
    requires 3 <= i < 6 && |Entries(RouterTable)| == 9 && Matches(event, Entries(RouterTable)[i])
    ensures if i == 5 then event == MappingEnd
            else event.Scalar? && EqualFold(event.value, if i == 3 then "name" else "ports")
  {
    KindIs(event);
  }

  lemma {:induction false} RouterParsed(events: seq<Event>, c: Config, hex: string -> byte)
      returns (doc: RouterDoc, tail: seq<Event>, d: Config)
    requires |Entries(RouterTable)| == 9 && Handle(RouterTable, 3, events, c, hex).Loaded?
    ensures RouterOk(doc) && events == RouterBody(doc, tail)
    ensures Handle(RouterTable, 3, events, c, hex) == Handle(RouterTable, 6, tail, d, hex)
    decreases |events|
  {
    RouterEntries();
    hide Handle, Run, Guarded, Entries, EqualFold, Matches, PortsOk, PortItems;
    var i, r := Taken(RouterTable, 3, events, c, hex);
    assert !Entries(RouterTable)[5].next && i <= 5;
    TopTaken(i, events[0]);
    if i == 5 {
      NothingRuns(events[0], events[1..], c, hex);
      doc, tail, d := [], events[1..], c;
    } else {
      var entry: RouterEntry;
      if i == 3 {
        StringTaken(RouterName, events[0], events[1..], c, hex);
        entry := NameEntry(events[0].value, events[1..][0].value);
      } else {
        var docs := PortsListParsed(events[0], events[1..], c, hex);
        entry := PortsEntry(events[0].value, docs);
      }
      var more;
      more, tail, d := RouterParsed(r.rest, r.config, hex);
      doc := [entry] + more;
      assert doc[1..] == more;
    }
  }

  /** One of the events around the mapping of the router. */
  lemma EdgeTaken(i: nat, events: seq<Event>, c: Config, hex: string -> byte)
    requires (i < 3 || 6 <= i < 8) && |Entries(RouterTable)| == 9 && Handle(RouterTable, i, events, c, hex).Loaded?
    ensures events != [] && events == [EdgeEvent(i)] + events[1..]
    ensures Handle(RouterTable, i, events, c, hex) == Handle(RouterTable, i + 1, events[1..], c, hex)
  {
    RouterEntries();
    hide Handle, Run, Guarded, Entries, Matches, EdgeEvent;
    var j, r := Taken(RouterTable, i, events, c, hex);
    assert !Entries(RouterTable)[i].next && j == i;
    EdgeIs(i, events[0]);
    NothingRuns(events[0], events[1..], c, hex);
  }

  lemma EdgeIs(i: nat, event: Event)
    requires (i < 3 || 6 <= i < 8) && |Entries(RouterTable)| == 9 && Matches(event, Entries(RouterTable)[i])
    ensures event == EdgeEvent(i)
  {
  }

  /** Events that load are those of a document in the grammar. */
  lemma LoadedIsDocument(events: seq<Event>, hex: string -> byte) returns (doc: RouterDoc)
    requires Handle(RouterTable, 0, events, NEW_CONFIG, hex).Loaded?
    ensures var r := Handle(RouterTable, 0, events, NEW_CONFIG, hex);
            RouterOk(doc) && events == DocumentThen(doc, r.rest) && r.config == ConfigFrom(NEW_CONFIG, doc, hex)
  {
    RouterEntries();
    hide Handle, Run, Guarded, Entries, Matches, RouterOk, RouterBody, ConfigFrom;
    var c := NEW_CONFIG;
    EdgeTaken(0, events, c, hex);
    EdgeTaken(1, events[1..], c, hex);
    var e2 := events[1..][1..];
    EdgeTaken(2, e2, c, hex);
    var tail, d;
    doc, tail, d := RouterParsed(e2[1..], c, hex);
    EdgeTaken(6, tail, d, hex);
    EdgeTaken(7, tail[1..], d, hex);
    HandleEnd(RouterTable, 8, tail[1..][1..], d, hex);
    DocumentLoads(doc, tail[1..][1..], c, hex);
  }

  /** The loader accepts exactly the events of documents in the grammar, followed by anything, whose
      destinations exist. */
  lemma AcceptsIff(events: seq<Event>, hex: string -> byte)
    ensures LoadedFrom(events, hex).Some? <==>
            exists doc, tail ::
              RouterOk(doc) && events == DocumentThen(doc, tail) && Resolvable(ConfigFrom(NEW_CONFIG, doc, hex))
  {
    hide Handle, RouterOk, DocumentThen, ConfigFrom, Resolvable;
    var r := Handle(RouterTable, 0, events, NEW_CONFIG, hex);
    if LoadedFrom(events, hex).Some? {
      var doc := LoadedIsDocument(events, hex);
      assert events == DocumentThen(doc, r.rest);
    }
    if doc, tail :|
      RouterOk(doc) && events == DocumentThen(doc, tail) && Resolvable(ConfigFrom(NEW_CONFIG, doc, hex)) {
      DocumentLoads(doc, tail, NEW_CONFIG, hex);
    }
  }
}
