/** Documents: all the ways to write down a configuration as events, with mapping keys in any
    order and any case, and what the loader makes of them. */
module RouterDocs {
  import opened Basics
  import opened CaseFold
  import opened RouterLoad
  import Router

  // ---------------------------------------------------------------------------
  // Documents
  // ---------------------------------------------------------------------------

  /** One key of a filter's mapping, with its value; likewise below. */
  datatype FilterEntry = ActionEntry(key: string, value: string) | PrefixEntry(key: string, elements: seq<string>)
  type FilterDoc = seq<FilterEntry>

  datatype RuleEntry = DstEntry(key: string, value: string) | FiltersEntry(key: string, filters: seq<FilterDoc>)
  type RuleDoc = seq<RuleEntry>

  datatype Field = NameField | MetricField | PubField | SubField
  datatype PortEntry = TextEntry(field: Field, key: string, value: string) | RulesEntry(key: string, rules: seq<RuleDoc>)
  type PortDoc = seq<PortEntry>

  datatype RouterEntry = NameEntry(key: string, value: string) | PortsEntry(key: string, ports: seq<PortDoc>)
  type RouterDoc = seq<RouterEntry>

  // ---------------------------------------------------------------------------
  // Their events, followed by those of `tail`
  // ---------------------------------------------------------------------------

  function Elements(elements: seq<string>, tail: seq<Event>): seq<Event> {
    if elements == [] then [SequenceEnd] + tail
    else [Scalar(elements[0])] + Elements(elements[1..], tail)
  }

  function FilterBody(doc: FilterDoc, tail: seq<Event>): seq<Event> {
    if doc == [] then [MappingEnd] + tail
    else
      var rest := FilterBody(doc[1..], tail);
      match doc[0]
      case ActionEntry(key, value) => [Scalar(key)] + ([Scalar(value)] + rest)
      case PrefixEntry(key, elements) => [Scalar(key)] + ([SequenceStart] + Elements(elements, rest))
  }

  function FilterItems(docs: seq<FilterDoc>, tail: seq<Event>): seq<Event> {
    if docs == [] then [SequenceEnd] + tail
    else [MappingStart] + FilterBody(docs[0], FilterItems(docs[1..], tail))
  }

  function RuleBody(doc: RuleDoc, tail: seq<Event>): seq<Event> {
    if doc == [] then [MappingEnd] + tail
    else
      var rest := RuleBody(doc[1..], tail);
      match doc[0]
      case DstEntry(key, value) => [Scalar(key)] + ([Scalar(value)] + rest)
      case FiltersEntry(key, filters) => [Scalar(key)] + ([SequenceStart] + FilterItems(filters, rest))
  }

  function RuleItems(docs: seq<RuleDoc>, tail: seq<Event>): seq<Event> {
    if docs == [] then [SequenceEnd] + tail
    else [MappingStart] + RuleBody(docs[0], RuleItems(docs[1..], tail))
  }

  function PortBody(doc: PortDoc, tail: seq<Event>): seq<Event> {
    if doc == [] then [MappingEnd] + tail
    else
      var rest := PortBody(doc[1..], tail);
      match doc[0]
      case TextEntry(_, key, value) => [Scalar(key)] + ([Scalar(value)] + rest)
      case RulesEntry(key, rules) => [Scalar(key)] + ([SequenceStart] + RuleItems(rules, rest))
  }

  function PortItems(docs: seq<PortDoc>, tail: seq<Event>): seq<Event> {
    if docs == [] then [SequenceEnd] + tail
    else [MappingStart] + PortBody(docs[0], PortItems(docs[1..], tail))
  }

  function RouterBody(doc: RouterDoc, tail: seq<Event>): seq<Event> {
    if doc == [] then [MappingEnd] + tail
    else
      var rest := RouterBody(doc[1..], tail);
      match doc[0]
      case NameEntry(key, value) => [Scalar(key)] + ([Scalar(value)] + rest)
      case PortsEntry(key, ports) => [Scalar(key)] + ([SequenceStart] + PortItems(ports, rest))
  }

  /** The events of the whole document, and any others behind them. */
  function DocumentThen(doc: RouterDoc, tail: seq<Event>): seq<Event> {
    [StreamStart] + ([DocumentStart] + ([MappingStart] + RouterBody(doc, [DocumentEnd] + ([StreamEnd] + tail))))
  }

  function Document(doc: RouterDoc): seq<Event> { DocumentThen(doc, []) }

  // ---------------------------------------------------------------------------
  // What documents say
  // ---------------------------------------------------------------------------

  function Bytes(elements: seq<string>, hex: string -> byte): seq<byte> {
    if elements == [] then [] else [hex(elements[0])] + Bytes(elements[1..], hex)
  }

  function FilterWith(f: Router.Filter, entry: FilterEntry, hex: string -> byte): Router.Filter {
    match entry
    case ActionEntry(_, value) => if ActionOf(value).Some? then f.(action := ActionOf(value).value) else f
    case PrefixEntry(_, elements) => f.(data := f.data + Bytes(elements, hex))
  }

  function FilterFrom(f: Router.Filter, doc: FilterDoc, hex: string -> byte): Router.Filter
    decreases |doc|
  {
    if doc == [] then f else FilterFrom(FilterWith(f, doc[0], hex), doc[1..], hex)
  }

  function FiltersFrom(docs: seq<FilterDoc>, hex: string -> byte): seq<Router.Filter> {
    if docs == [] then [] else [FilterFrom(NEW_FILTER, docs[0], hex)] + FiltersFrom(docs[1..], hex)
  }

  function RuleWith(r: Rule, entry: RuleEntry, hex: string -> byte): Rule {
    match entry
    case DstEntry(_, value) => r.(dstName := value)
    case FiltersEntry(_, filters) => r.(filters := r.filters + FiltersFrom(filters, hex))
  }

  function RuleFrom(r: Rule, doc: RuleDoc, hex: string -> byte): Rule
    decreases |doc|
  {
    if doc == [] then r else RuleFrom(RuleWith(r, doc[0], hex), doc[1..], hex)
  }

  function RulesFrom(docs: seq<RuleDoc>, hex: string -> byte): seq<Rule> {
    if docs == [] then [] else [RuleFrom(NEW_RULE, docs[0], hex)] + RulesFrom(docs[1..], hex)
  }

  function SetField(p: Port, field: Field, value: string): Port {
    match field
    case NameField => p.(name := value)
    case MetricField => p.(metric := value)
    case PubField => p.(pubAddr := value)
    case SubField => p.(subAddr := value)
  }

  function PortWith(p: Port, entry: PortEntry, hex: string -> byte): Port {
    match entry
    case TextEntry(field, _, value) => SetField(p, field, value)
    case RulesEntry(_, rules) => p.(rules := p.rules + RulesFrom(rules, hex))
  }

  function PortFrom(p: Port, doc: PortDoc, hex: string -> byte): Port
    decreases |doc|
  {
    if doc == [] then p else PortFrom(PortWith(p, doc[0], hex), doc[1..], hex)
  }

  function PortsFrom(docs: seq<PortDoc>, hex: string -> byte): seq<Port> {
    if docs == [] then [] else [PortFrom(NEW_PORT, docs[0], hex)] + PortsFrom(docs[1..], hex)
  }

  function ConfigWith(c: Config, entry: RouterEntry, hex: string -> byte): Config {
    match entry
    case NameEntry(_, value) => c.(name := value)
    case PortsEntry(_, ports) => c.(ports := c.ports + PortsFrom(ports, hex))
  }

  function ConfigFrom(c: Config, doc: RouterDoc, hex: string -> byte): Config
    decreases |doc|
  {
    if doc == [] then c else ConfigFrom(ConfigWith(c, doc[0], hex), doc[1..], hex)
  }

  // ---------------------------------------------------------------------------
  // Documents in the grammar
  // ---------------------------------------------------------------------------

  predicate FilterOk(doc: FilterDoc) {
    doc == []
    || (&& (match doc[0]
            case ActionEntry(key, value) => EqualFold(key, "action") && ActionOf(value).Some?
            case PrefixEntry(key, _) => EqualFold(key, "prefix"))
        && FilterOk(doc[1..]))
  }

  predicate FiltersOk(docs: seq<FilterDoc>) {
    docs == [] || (FilterOk(docs[0]) && FiltersOk(docs[1..]))
  }

  predicate RuleOk(doc: RuleDoc) {
    doc == []
    || (&& (match doc[0]
            case DstEntry(key, _) => EqualFold(key, "dst_port")
            case FiltersEntry(key, filters) => EqualFold(key, "filters") && FiltersOk(filters))
        && RuleOk(doc[1..]))
  }

  predicate RulesOk(docs: seq<RuleDoc>) {
    docs == [] || (RuleOk(docs[0]) && RulesOk(docs[1..]))
  }

  function KeyOf(field: Field): string {
    match field
    case NameField => "name"
    case MetricField => "metric"
    case PubField => "pub_addr"
    case SubField => "sub_addr"
  }

  predicate PortOk(doc: PortDoc) {
    doc == []
    || (&& (match doc[0]
            case TextEntry(field, key, value) =>
              EqualFold(key, KeyOf(field)) && (field == MetricField ==> ValidMetric(value))
            case RulesEntry(key, rules) => EqualFold(key, "forwarding_rules") && RulesOk(rules))
        && PortOk(doc[1..]))
  }

  /** Every port has a metric. */
  predicate PortsOk(docs: seq<PortDoc>) {
    docs == [] || (PortOk(docs[0]) && Measured(docs[0]) && PortsOk(docs[1..]))
  }

  predicate Measured(doc: PortDoc) {
    doc != [] && ((doc[0].TextEntry? && doc[0].field == MetricField) || Measured(doc[1..]))
  }

  predicate RouterOk(doc: RouterDoc) {
    doc == []
    || (&& (match doc[0]
            case NameEntry(key, _) => EqualFold(key, "name")
            case PortsEntry(key, ports) => EqualFold(key, "ports") && PortsOk(ports))
        && RouterOk(doc[1..]))
  }
}
