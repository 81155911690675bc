/** Which documents write down a configuration: the keys of each mapping in any order and in any
    case, values that are the default left out or not, strings even more than once. Whichever
    is chosen, the loader gives the configuration back. */
module RouterConfigs {
  import opened Basics
  import opened CaseFold
  import opened RouterLoad
  import opened RouterDocs
  import opened RouterRoundTrip
  import Router

  // ---------------------------------------------------------------------------
  // Filters
  // ---------------------------------------------------------------------------

  predicate HasAction(doc: FilterDoc) { doc != [] && (doc[0].ActionEntry? || HasAction(doc[1..])) }

  predicate HasPrefix(doc: FilterDoc) { doc != [] && (doc[0].PrefixEntry? || HasPrefix(doc[1..])) }

  predicate PrefixOnce(doc: FilterDoc) {
    doc == [] || (PrefixOnce(doc[1..]) && (doc[0].PrefixEntry? ==> !HasPrefix(doc[1..])))
  }

  /** No entry says anything else. */
  predicate FilterAgrees(doc: FilterDoc, f: Router.Filter, hex: string -> byte) {
    doc == []
    || (&& (match doc[0]
            case ActionEntry(key, value) => EqualFold(key, "action") && ActionOf(value) == Some(f.action)
            case PrefixEntry(key, elements) => EqualFold(key, "prefix") && Bytes(elements, hex) == f.data)
        && FilterAgrees(doc[1..], f, hex))
  }

  predicate FilterWrites(doc: FilterDoc, f: Router.Filter, hex: string -> byte) {
    && FilterAgrees(doc, f, hex) && PrefixOnce(doc)
    && (HasAction(doc) || f.action == NEW_FILTER.action)
    && (HasPrefix(doc) || f.data == NEW_FILTER.data)
  }

  /** The rest of the document completes what has been read. */
  lemma {:induction false} FilterCompletes(g: Router.Filter, doc: FilterDoc, f: Router.Filter, hex: string -> byte)
    requires FilterAgrees(doc, f, hex) && PrefixOnce(doc)
    requires HasAction(doc) || g.action == f.action
    requires if HasPrefix(doc) then g.data == [] else g.data == f.data
    ensures FilterOk(doc) && FilterFrom(g, doc, hex) == f
    decreases |doc|
  {
    hide EqualFold, ActionOf, Bytes;
    if doc != [] {
      assert [] + f.data == f.data;
      FilterCompletes(FilterWith(g, doc[0], hex), doc[1..], f, hex);
    }
  }

  lemma FilterWritten(doc: FilterDoc, f: Router.Filter, hex: string -> byte)
    requires FilterWrites(doc, f, hex)
    ensures FilterOk(doc) && FilterFrom(NEW_FILTER, doc, hex) == f
  {
    hide FilterAgrees, PrefixOnce, FilterFrom, FilterOk;
    FilterCompletes(NEW_FILTER, doc, f, hex);
  }

  predicate FiltersWrite(docs: seq<FilterDoc>, filters: seq<Router.Filter>, hex: string -> byte) {
    if docs == [] || filters == [] then |docs| == |filters|
    else FilterWrites(docs[0], filters[0], hex) && FiltersWrite(docs[1..], filters[1..], hex)
  }

  lemma {:induction false} FiltersWritten(docs: seq<FilterDoc>, filters: seq<Router.Filter>, hex: string -> byte)
    requires FiltersWrite(docs, filters, hex)
    ensures FiltersOk(docs) && FiltersFrom(docs, hex) == filters
    decreases |docs|
  {
    hide FilterWrites, FilterFrom, FilterOk;
    if docs != [] {
      FilterWritten(docs[0], filters[0], hex);
      FiltersWritten(docs[1..], filters[1..], hex);
      assert filters == [filters[0]] + filters[1..];
    }
  }

  // ---------------------------------------------------------------------------
  // Rules
  // ---------------------------------------------------------------------------

  predicate HasDst(doc: RuleDoc) { doc != [] && (doc[0].DstEntry? || HasDst(doc[1..])) }

  predicate HasFilters(doc: RuleDoc) { doc != [] && (doc[0].FiltersEntry? || HasFilters(doc[1..])) }

  predicate FiltersOnce(doc: RuleDoc) {
    doc == [] || (FiltersOnce(doc[1..]) && (doc[0].FiltersEntry? ==> !HasFilters(doc[1..])))
  }

  predicate RuleAgrees(doc: RuleDoc, r: Rule, hex: string -> byte) {
    doc == []
    || (&& (match doc[0]
            case DstEntry(key, value) => EqualFold(key, "dst_port") && value == r.dstName
            case FiltersEntry(key, filters) => EqualFold(key, "filters") && FiltersWrite(filters, r.filters, hex))
        && RuleAgrees(doc[1..], r, hex))
  }

  /** The destination is written as its name only. */
  predicate RuleWrites(doc: RuleDoc, r: Rule, hex: string -> byte) {
    && RuleAgrees(doc, r, hex) && FiltersOnce(doc) && r.dst == None
    && (HasDst(doc) || r.dstName == NEW_RULE.dstName)
    && (HasFilters(doc) || r.filters == NEW_RULE.filters)
  }

  lemma {:induction false} RuleCompletes(s: Rule, doc: RuleDoc, r: Rule, hex: string -> byte)
    requires RuleAgrees(doc, r, hex) && FiltersOnce(doc) && s.dst == r.dst
    requires HasDst(doc) || s.dstName == r.dstName
    requires if HasFilters(doc) then s.filters == [] else s.filters == r.filters
    ensures RuleOk(doc) && RuleFrom(s, doc, hex) == r
    decreases |doc|
  {
    hide EqualFold, FiltersWrite, FiltersFrom, FiltersOk;
    if doc != [] {
      if doc[0].FiltersEntry? {
        FiltersWritten(doc[0].filters, r.filters, hex);
        assert [] + r.filters == r.filters;
      }
      RuleCompletes(RuleWith(s, doc[0], hex), doc[1..], r, hex);
    }
  }

  lemma RuleWritten(doc: RuleDoc, r: Rule, hex: string -> byte)
    requires RuleWrites(doc, r, hex)
    ensures RuleOk(doc) && RuleFrom(NEW_RULE, doc, hex) == r
  {
    hide RuleAgrees, FiltersOnce, RuleFrom, RuleOk;
    RuleCompletes(NEW_RULE, doc, r, hex);
  }

  predicate RulesWrite(docs: seq<RuleDoc>, rules: seq<Rule>, hex: string -> byte) {
    if docs == [] || rules == [] then |docs| == |rules|
    else RuleWrites(docs[0], rules[0], hex) && RulesWrite(docs[1..], rules[1..], hex)
  }

  lemma {:induction false} RulesWritten(docs: seq<RuleDoc>, rules: seq<Rule>, hex: string -> byte)
    requires RulesWrite(docs, rules, hex)
    ensures RulesOk(docs) && RulesFrom(docs, hex) == rules
    decreases |docs|
  {
    hide RuleWrites, RuleFrom, RuleOk;
    if docs != [] {
      RuleWritten(docs[0], rules[0], hex);
      RulesWritten(docs[1..], rules[1..], hex);
      assert rules == [rules[0]] + rules[1..];
    }
  }

  // ---------------------------------------------------------------------------
  // Ports
  // ---------------------------------------------------------------------------

  function Get(p: Port, field: Field): string {
    match field
    case NameField => p.name
    case MetricField => p.metric
    case PubField => p.pubAddr
    case SubField => p.subAddr
  }

  predicate HasField(doc: PortDoc, field: Field) {
    doc != [] && ((doc[0].TextEntry? && doc[0].field == field) || HasField(doc[1..], field))
  }

  predicate HasRules(doc: PortDoc) { doc != [] && (doc[0].RulesEntry? || HasRules(doc[1..])) }

  predicate RulesOnce(doc: PortDoc) {
    doc == [] || (RulesOnce(doc[1..]) && (doc[0].RulesEntry? ==> !HasRules(doc[1..])))
  }

  predicate PortAgrees(doc: PortDoc, p: Port, hex: string -> byte) {
    doc == []
    || (&& (match doc[0]
            case TextEntry(field, key, value) => EqualFold(key, KeyOf(field)) && value == Get(p, field)
            case RulesEntry(key, rules) => EqualFold(key, "forwarding_rules") && RulesWrite(rules, p.rules, hex))
        && PortAgrees(doc[1..], p, hex))
  }

  predicate Given(doc: PortDoc, q: Port, p: Port) {
    && (HasField(doc, NameField) || q.name == p.name)
    && (HasField(doc, MetricField) || q.metric == p.metric)
    && (HasField(doc, PubField) || q.pubAddr == p.pubAddr)
    && (HasField(doc, SubField) || q.subAddr == p.subAddr)
  }

  predicate PortWrites(doc: PortDoc, p: Port, hex: string -> byte) {
    && PortAgrees(doc, p, hex) && RulesOnce(doc) && Given(doc, NEW_PORT, p)
    && (HasRules(doc) || p.rules == NEW_PORT.rules)
  }

  lemma {:induction false} PortCompletes(q: Port, doc: PortDoc, p: Port, hex: string -> byte)
    requires PortAgrees(doc, p, hex) && RulesOnce(doc) && ValidMetric(p.metric) && Given(doc, q, p)
    requires if HasRules(doc) then q.rules == [] else q.rules == p.rules
    ensures PortOk(doc) && PortFrom(q, doc, hex) == p
    decreases |doc|
  {
    hide EqualFold, KeyOf, RulesWrite, RulesFrom, RulesOk, ValidMetric;
    if doc != [] {
      if doc[0].RulesEntry? {
        RulesWritten(doc[0].rules, p.rules, hex);
        assert [] + p.rules == p.rules;
      }
      PortCompletes(PortWith(q, doc[0], hex), doc[1..], p, hex);
    }
  }

  lemma {:induction false} FieldMeasured(doc: PortDoc)
    ensures HasField(doc, MetricField) <==> Measured(doc)
  {
    if doc != [] { FieldMeasured(doc[1..]); }
  }

  lemma PortWritten(doc: PortDoc, p: Port, hex: string -> byte)
    requires PortWrites(doc, p, hex) && ValidMetric(p.metric)
    ensures PortOk(doc) && Measured(doc) && PortFrom(NEW_PORT, doc, hex) == p
  {
    assert p.metric != "";
    hide PortAgrees, RulesOnce, PortFrom, PortOk, ValidMetric;
    PortCompletes(NEW_PORT, doc, p, hex);
    FieldMeasured(doc);
  }

  predicate PortsWrite(docs: seq<PortDoc>, ports: seq<Port>, hex: string -> byte) {
    if docs == [] || ports == [] then |docs| == |ports|
    else PortWrites(docs[0], ports[0], hex) && PortsWrite(docs[1..], ports[1..], hex)
  }

  lemma {:induction false} PortsWritten(docs: seq<PortDoc>, ports: seq<Port>, hex: string -> byte)
    requires PortsWrite(docs, ports, hex) && forall i :: 0 <= i < |ports| ==> ValidMetric(ports[i].metric)
    ensures PortsOk(docs) && PortsFrom(docs, hex) == ports
    decreases |docs|
  {
    hide PortWrites, PortFrom, PortOk, ValidMetric;
    if docs != [] {
      PortWritten(docs[0], ports[0], hex);
      PortsWritten(docs[1..], ports[1..], hex);
      assert ports == [ports[0]] + ports[1..];
    }
  }

  // ---------------------------------------------------------------------------
  // Routers
  // ---------------------------------------------------------------------------

  predicate HasName(doc: RouterDoc) { doc != [] && (doc[0].NameEntry? || HasName(doc[1..])) }

  predicate HasPorts(doc: RouterDoc) { doc != [] && (doc[0].PortsEntry? || HasPorts(doc[1..])) }

  predicate PortsOnce(doc: RouterDoc) {
    doc == [] || (PortsOnce(doc[1..]) && (doc[0].PortsEntry? ==> !HasPorts(doc[1..])))
  }

  predicate ConfigAgrees(doc: RouterDoc, c: Config, hex: string -> byte) {
    doc == []
    || (&& (match doc[0]
            case NameEntry(key, value) => EqualFold(key, "name") && value == c.name
            case PortsEntry(key, ports) => EqualFold(key, "ports") && PortsWrite(ports, c.ports, hex))
        && ConfigAgrees(doc[1..], c, hex))
  }

  predicate ConfigWrites(doc: RouterDoc, c: Config, hex: string -> byte) {
    && ConfigAgrees(doc, c, hex) && PortsOnce(doc)
    && (HasName(doc) || c.name == NEW_CONFIG.name)
    && (HasPorts(doc) || c.ports == NEW_CONFIG.ports)
  }

  predicate AllMeasured(c: Config) {
    forall i :: 0 <= i < |c.ports| ==> ValidMetric(c.ports[i].metric)
  }

  lemma {:induction false} ConfigCompletes(d: Config, doc: RouterDoc, c: Config, hex: string -> byte)
    requires ConfigAgrees(doc, c, hex) && PortsOnce(doc) && AllMeasured(c)
    requires HasName(doc) || d.name == c.name
    requires if HasPorts(doc) then d.ports == [] else d.ports == c.ports
    ensures RouterOk(doc) && ConfigFrom(d, doc, hex) == c
    decreases |doc|
  {
    hide EqualFold, PortsWrite, PortsFrom, PortsOk, ValidMetric;
    if doc != [] {
      if doc[0].PortsEntry? {
        PortsWritten(doc[0].ports, c.ports, hex);
        assert [] + c.ports == c.ports;
      }
      ConfigCompletes(ConfigWith(d, doc[0], hex), doc[1..], c, hex);
    }
  }

  /** A configuration whose metrics are not blank is loaded from any document that writes it. */
  lemma WrittenLoads(doc: RouterDoc, c: Config, hex: string -> byte)
    requires ConfigWrites(doc, c, hex) && AllMeasured(c)
    ensures Handle(RouterTable, 0, Document(doc), NEW_CONFIG, hex) == Loaded(c, [])
  {
    hide Handle, DocumentThen, ConfigAgrees, PortsOnce, AllMeasured, ConfigFrom;
    ConfigCompletes(NEW_CONFIG, doc, c, hex);
    DocumentLoads(doc, [], NEW_CONFIG, hex);
  }

  /** The round trip: any document that writes a configuration with metrics that are not blank and
      destinations that exist loads as that configuration, with every rule bound to the first port
      of its destination's name. */
  lemma RoundTrip(doc: RouterDoc, c: Config, hex: string -> byte)
    requires ConfigWrites(doc, c, hex) && AllMeasured(c) && Resolvable(c)
    ensures LoadedFrom(Document(doc), hex) == Some(Resolve(c))
  {
    hide Handle, Document, ConfigWrites, AllMeasured, Resolvable, Resolve;
    WrittenLoads(doc, c, hex);
  }

  /** Without a port for every destination, loading fails. */
  lemma UnresolvedFails(doc: RouterDoc, c: Config, hex: string -> byte)
    requires ConfigWrites(doc, c, hex) && AllMeasured(c) && !Resolvable(c)
    ensures LoadedFrom(Document(doc), hex) == None
  {
    hide Handle, Document, ConfigWrites, AllMeasured, Resolvable, Resolve;
    WrittenLoads(doc, c, hex);
  }
}
