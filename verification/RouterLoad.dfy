/** The configuration of the endpoint router as it is built from the events of a YAML parser:
    tables say which events are expected, and an interpreter of the tables builds nested lists,
    always at the end of the list before. */
module RouterLoad {
  import opened Basics
  import opened CaseFold
  import Router

  // ---------------------------------------------------------------------------
  // Events and configurations
  // ---------------------------------------------------------------------------

  datatype Event =
    | StreamStart | StreamEnd | DocumentStart | DocumentEnd
    | MappingStart | MappingEnd | SequenceStart | SequenceEnd
    | Alias | Scalar(value: string)

  datatype Kind =
    | StreamStartKind | StreamEndKind | DocumentStartKind | DocumentEndKind
    | MappingStartKind | MappingEndKind | SequenceStartKind | SequenceEndKind
    | AliasKind | ScalarKind | NoKind

  function KindOf(event: Event): Kind {
    match event
    case StreamStart => StreamStartKind
    case StreamEnd => StreamEndKind
    case DocumentStart => DocumentStartKind
    case DocumentEnd => DocumentEndKind
    case MappingStart => MappingStartKind
    case MappingEnd => MappingEndKind
    case SequenceStart => SequenceStartKind
    case SequenceEnd => SequenceEndKind
    case Alias => AliasKind
    case Scalar(_) => ScalarKind
  }

  /** A forwarding rule; `dst` is the index of the port that its name was resolved to. */
  datatype Rule = Rule(dstName: string, dst: Option<nat>, filters: seq<Router.Filter>)

  datatype Port = Port(name: string, metric: string, pubAddr: string, subAddr: string, rules: seq<Rule>)

  datatype Config = Config(name: string, ports: seq<Port>)

  const NEW_FILTER := Router.Filter(Router.Reject, [])
  const NEW_RULE := Rule("", None, [])
  const NEW_PORT := Port("", "", "", "", [])
  const NEW_CONFIG := Config("", [])

  // ---------------------------------------------------------------------------
  // The current port, rule and filter: the last of each list
  // ---------------------------------------------------------------------------

  predicate HasPort(c: Config) { c.ports != [] }

  function LastPort(c: Config): Port
    requires HasPort(c)
  {
    c.ports[|c.ports| - 1]
  }

  function SetPort(c: Config, p: Port): Config
    requires HasPort(c)
  {
    c.(ports := c.ports[..|c.ports| - 1] + [p])
  }

  predicate HasRule(c: Config) { HasPort(c) && LastPort(c).rules != [] }

  function LastRule(c: Config): Rule
    requires HasRule(c)
  {
    LastPort(c).rules[|LastPort(c).rules| - 1]
  }

  function SetRule(c: Config, r: Rule): Config
    requires HasRule(c)
  {
    var p := LastPort(c);
    SetPort(c, p.(rules := p.rules[..|p.rules| - 1] + [r]))
  }

  predicate HasFilter(c: Config) { HasRule(c) && LastRule(c).filters != [] }

  function LastFilter(c: Config): Router.Filter
    requires HasFilter(c)
  {
    LastRule(c).filters[|LastRule(c).filters| - 1]
  }

  function SetFilter(c: Config, f: Router.Filter): Config
    requires HasFilter(c)
  {
    var r := LastRule(c);
    SetRule(c, r.(filters := r.filters[..|r.filters| - 1] + [f]))
  }

  function AddPort(c: Config, p: Port): Config { c.(ports := c.ports + [p]) }

  function AddRule(c: Config, r: Rule): Config
    requires HasPort(c)
  {
    SetPort(c, LastPort(c).(rules := LastPort(c).rules + [r]))
  }

  function AddFilter(c: Config, f: Router.Filter): Config
    requires HasRule(c)
  {
    SetRule(c, LastRule(c).(filters := LastRule(c).filters + [f]))
  }

  // ---------------------------------------------------------------------------
  // The tables
  // ---------------------------------------------------------------------------

  datatype Process =
    | Nothing | RouterName | Ports | APort | PortName | PortMetric | PubAddr | SubAddr
    | Rules | ARule | DstPort | Filters | AFilter | AnAction | Prefix | PrefixElement

  datatype Expected = Expected(kind: Kind, scalar: Option<string>, process: Process, next: bool)

  datatype Table = RouterTable | PortsTable | PortTable | RulesTable | RuleTable | FiltersTable | FilterTable | PrefixTable

  const SENTINEL := Expected(NoKind, None, Nothing, false)

  function Entries(table: Table): (entries: seq<Expected>)
    ensures |entries| >= 4
  {
    match table
    case RouterTable => [
      Expected(StreamStartKind, None, Nothing, false),
      Expected(DocumentStartKind, None, Nothing, false),
      Expected(MappingStartKind, None, Nothing, false),
      Expected(ScalarKind, Some("name"), RouterName, true),
      Expected(ScalarKind, Some("ports"), Ports, true),
      Expected(MappingEndKind, None, Nothing, false),
      Expected(DocumentEndKind, None, Nothing, false),
      Expected(StreamEndKind, None, Nothing, false),
      SENTINEL]
    case PortsTable => ListOf(APort)
    case PortTable => [
      Expected(ScalarKind, Some("name"), PortName, true),
      Expected(ScalarKind, Some("metric"), PortMetric, true),
      Expected(ScalarKind, Some("pub_addr"), PubAddr, true),
      Expected(ScalarKind, Some("sub_addr"), SubAddr, true),
      Expected(ScalarKind, Some("forwarding_rules"), Rules, true),
      Expected(MappingEndKind, None, Nothing, false),
      SENTINEL]
    case RulesTable => ListOf(ARule)
    case RuleTable => [
      Expected(ScalarKind, Some("dst_port"), DstPort, true),
      Expected(ScalarKind, Some("filters"), Filters, true),
      Expected(MappingEndKind, None, Nothing, false),
      SENTINEL]
    case FiltersTable => ListOf(AFilter)
    case FilterTable => [
      Expected(ScalarKind, Some("action"), AnAction, true),
      Expected(ScalarKind, Some("prefix"), Prefix, true),
      Expected(MappingEndKind, None, Nothing, false),
      SENTINEL]
    case PrefixTable => [
      Expected(SequenceStartKind, None, Nothing, false),
      Expected(ScalarKind, None, PrefixElement, true),
      Expected(SequenceEndKind, None, Nothing, false),
      SENTINEL]
  }

  /** A sequence of mappings. */
  function ListOf(process: Process): seq<Expected> {
    [
      Expected(SequenceStartKind, None, Nothing, false),
      Expected(MappingStartKind, None, process, true),
      Expected(SequenceEndKind, None, Nothing, false),
      SENTINEL]
  }

  /** The table ends in the sentinel and in no other place, and the entry before it must be
      matched. */
  predicate Guarded(entries: seq<Expected>) {
    && |entries| >= 2 && entries[|entries| - 1] == SENTINEL && !entries[|entries| - 2].next
    && forall i :: 0 <= i < |entries| - 1 ==> entries[i].kind != NoKind
  }

  lemma TablesGuarded(table: Table)
    ensures Guarded(Entries(table))
  {
  }

  /** expected_event_match */
  predicate Matches(event: Event, expected: Expected) {
    && KindOf(event) == expected.kind
    && (event.Scalar? && expected.scalar.Some? ==> EqualFold(event.value, expected.scalar.value))
  }

  /** The entry that takes the event: the first match from `offset` on, past entries that may be
      skipped. It is never the sentinel. */
  function Scan(entries: seq<Expected>, offset: nat, event: Event): (r: Option<nat>)
    requires Guarded(entries) && offset < |entries| - 1
    ensures r.Some? ==> offset <= r.value < |entries| - 1 && Matches(event, entries[r.value])
    ensures r.Some? ==> forall i :: offset <= i < r.value ==> entries[i].next && !Matches(event, entries[i])
    decreases |entries| - offset
  {
    if Matches(event, entries[offset]) then Some(offset)
    else if entries[offset].next then Scan(entries, offset + 1, event)
    else None
  }

  // ---------------------------------------------------------------------------
  // The interpreter
  // ---------------------------------------------------------------------------

  /** isspace in the C locale. */
  predicate IsSpace(c: char) { c == ' ' || '\t' <= c <= '\r' }

  predicate ValidMetric(s: string) { exists i :: 0 <= i < |s| && !IsSpace(s[i]) }

  function ActionOf(s: string): Option<Router.Action> {
    if EqualFold(s, "ACCEPT") then Some(Router.Accept)
    else if EqualFold(s, "REJECT") then Some(Router.Reject)
    else None
  }

  /** A word is read as an action exactly if it is that word, in any case. */
  lemma ActionIff(s: string)
    ensures ActionOf(s) == Some(Router.Accept) <==> EqualFold(s, "accept")
    ensures ActionOf(s) == Some(Router.Reject) <==> EqualFold(s, "reject")
  {
    SameWord("ACCEPT", "accept");
    SameWord("REJECT", "reject");
    hide EqualFold;
    FoldJoins("ACCEPT", "accept", s);
    FoldJoins("REJECT", "reject", s);
    if EqualFold(s, "ACCEPT") && EqualFold(s, "REJECT") {
      FoldJoins(s, "ACCEPT", "REJECT");
      DifferentWords();
    }
    if EqualFold(s, "ACCEPT") { FoldJoins(s, "ACCEPT", "accept"); }
    if EqualFold(s, "accept") { FoldJoins(s, "accept", "ACCEPT"); FoldJoins("ACCEPT", "accept", "ACCEPT"); }
    if EqualFold(s, "REJECT") { FoldJoins(s, "REJECT", "reject"); }
    if EqualFold(s, "reject") { FoldJoins(s, "reject", "REJECT"); FoldJoins("REJECT", "reject", "REJECT"); }
  }

  lemma DifferentWords()
    ensures !EqualFold("ACCEPT", "REJECT")
  {
    assert "ACCEPT"[0] == 'A' && "REJECT"[0] == 'R';
  }

  /** A word in capitals and the same in small letters. */
  lemma SameWord(u: string, l: string)
    requires |u| == |l| && forall i :: 0 <= i < |u| ==> Cases(u[i], l[i])
    ensures EqualFold(u, l)
  {
    EqualFoldIff(u, l);
  }

  /** A metric is refused exactly if all its characters are white space. */
  lemma MetricIff(s: string)
    ensures !ValidMetric(s) <==> forall i :: 0 <= i < |s| ==> s[i] in [' ', '\t', '\n', 11 as char, 12 as char, '\r']
  {
    forall i | 0 <= i < |s| ensures IsSpace(s[i]) <==> s[i] in [' ', '\t', '\n', 11 as char, 12 as char, '\r'] {
      SpaceIff(s[i]);
    }
  }

  lemma SpaceIff(c: char)
    ensures IsSpace(c) <==> c in [' ', '\t', '\n', 11 as char, 12 as char, '\r']
  {
  }

  /** What has been built, and the events that are left. */
  datatype Loaded = Failed | Loaded(config: Config, rest: seq<Event>)

  /** handle_expected_events from entry `offset` on. The hexadecimal numbers of prefixes are read
      by `hex`. */
  function Handle(table: Table, offset: nat, events: seq<Event>, c: Config, hex: string -> byte): (r: Loaded)
    requires offset < |Entries(table)|
    ensures r.Loaded? ==> |r.rest| <= |events|
    decreases |events|, 0
  {
    TablesGuarded(table);
    var entries := Entries(table);
    if offset == |entries| - 1 then Loaded(c, events)
    else if events == [] then Failed
    else
      match Scan(entries, offset, events[0])
      case None => Failed
      case Some(i) =>
        match Run(entries[i].process, events[0], events[1..], c, hex)
        case Failed => Failed
        case Loaded(c', rest) => Handle(table, if entries[i].next then offset else i + 1, rest, c', hex)
  }

  lemma HandleEnd(table: Table, offset: nat, events: seq<Event>, c: Config, hex: string -> byte)
    requires offset < |Entries(table)|
    ensures offset == |Entries(table)| - 1 ==> Handle(table, offset, events, c, hex) == Loaded(c, events)
    ensures offset < |Entries(table)| - 1 && events == [] ==> Handle(table, offset, events, c, hex) == Failed
  {
  }

  lemma HandleFails(table: Table, offset: nat, event: Event, rest: seq<Event>, c: Config, hex: string -> byte)
    requires Guarded(Entries(table)) && offset < |Entries(table)| - 1
    requires Scan(Entries(table), offset, event) == None
    ensures Handle(table, offset, [event] + rest, c, hex) == Failed
  {
    hide Entries, Run, Scan;
  }

  /** One event is taken. */
  lemma HandleTakes(table: Table, offset: nat, event: Event, rest: seq<Event>, c: Config, hex: string -> byte, i: nat)
    requires Guarded(Entries(table)) && offset < |Entries(table)| - 1
    requires Scan(Entries(table), offset, event) == Some(i)
    ensures var expected := Entries(table)[i];
            var r := Run(expected.process, event, rest, c, hex);
            Handle(table, offset, [event] + rest, c, hex)
            == if r.Failed? then Failed
               else Handle(table, if expected.next then offset else i + 1, r.rest, r.config, hex)
  {
    hide Entries, Run, Scan;
    assert ([event] + rest)[1..] == rest;
  }

  /** The value of a key. */
  predicate StartsScalar(events: seq<Event>) { events != [] && events[0].Scalar? }

  /** The process functions. */
  function Run(process: Process, event: Event, events: seq<Event>, c: Config, hex: string -> byte): (r: Loaded)
    ensures r.Loaded? ==> |r.rest| <= |events|
    decreases |events|, 1
  {
    match process
    case Nothing => Loaded(c, events)
    case Ports => Handle(PortsTable, 0, events, c, hex)
    case Rules => Handle(RulesTable, 0, events, c, hex)
    case Filters => Handle(FiltersTable, 0, events, c, hex)
    case Prefix => Handle(PrefixTable, 0, events, c, hex)
    case APort =>
      var r := Handle(PortTable, 0, events, AddPort(c, NEW_PORT), hex);
      if r.Loaded? && |c.ports| < |r.config.ports| && ValidMetric(r.config.ports[|c.ports|].metric) then r else Failed
    case ARule => if HasPort(c) then Handle(RuleTable, 0, events, AddRule(c, NEW_RULE), hex) else Failed
    case AFilter => if HasRule(c) then Handle(FilterTable, 0, events, AddFilter(c, NEW_FILTER), hex) else Failed
    case PrefixElement =>
      if HasFilter(c) && event.Scalar? then
        Loaded(SetFilter(c, LastFilter(c).(data := LastFilter(c).data + [hex(event.value)])), events)
      else Failed
    case _ =>
      if StartsScalar(events) then
        var c' := Assign(process, events[0].value, c);
        if c'.Some? then Loaded(c'.value, events[1..]) else Failed
      else Failed
  }

  /** The process functions that take one string. */
  function Assign(process: Process, s: string, c: Config): Option<Config> {
    match process
    case RouterName => Some(c.(name := s))
    case PortName => if HasPort(c) then Some(SetPort(c, LastPort(c).(name := s))) else None
    case PubAddr => if HasPort(c) then Some(SetPort(c, LastPort(c).(pubAddr := s))) else None
    case SubAddr => if HasPort(c) then Some(SetPort(c, LastPort(c).(subAddr := s))) else None
    case PortMetric =>
      if HasPort(c) && ValidMetric(s) then Some(SetPort(c, LastPort(c).(metric := s))) else None
    case DstPort => if HasRule(c) then Some(SetRule(c, LastRule(c).(dstName := s))) else None
    case AnAction =>
      if HasFilter(c) && ActionOf(s).Some? then Some(SetFilter(c, LastFilter(c).(action := ActionOf(s).value)))
      else None
    case _ => None
  }

  // ---------------------------------------------------------------------------
  // Destinations
  // ---------------------------------------------------------------------------

  /** The first port of that name, up to case, from `k` on. */
  function FirstPort(ports: seq<Port>, k: nat, name: string): (r: Option<nat>)
    requires k <= |ports|
    ensures r.Some? ==> k <= r.value < |ports| && EqualFold(name, ports[r.value].name)
    ensures forall i :: k <= i < (if r.Some? then r.value else |ports|) ==> !EqualFold(name, ports[i].name)
    decreases |ports| - k
  {
    if k == |ports| then None
    else if EqualFold(name, ports[k].name) then Some(k)
    else FirstPort(ports, k + 1, name)
  }

  function ResolveRule(r: Rule, ports: seq<Port>): Rule {
    r.(dst := FirstPort(ports, 0, r.dstName))
  }

  function ResolveRules(rules: seq<Rule>, ports: seq<Port>): (r: seq<Rule>)
    ensures |r| == |rules| && forall j :: 0 <= j < |rules| ==> r[j] == ResolveRule(rules[j], ports)
  {
    seq(|rules|, j requires 0 <= j < |rules| => ResolveRule(rules[j], ports))
  }

  function ResolvePort(p: Port, ports: seq<Port>): Port {
    p.(rules := ResolveRules(p.rules, ports))
  }

  /** Every rule with its destination. */
  function Resolve(c: Config): (r: Config)
    ensures r.name == c.name && |r.ports| == |c.ports|
    ensures forall i :: 0 <= i < |c.ports| ==> r.ports[i] == ResolvePort(c.ports[i], c.ports)
  {
    c.(ports := seq(|c.ports|, i requires 0 <= i < |c.ports| => ResolvePort(c.ports[i], c.ports)))
  }

  predicate RulesResolvable(rules: seq<Rule>, ports: seq<Port>) {
    forall j :: 0 <= j < |rules| ==> FirstPort(ports, 0, rules[j].dstName).Some?
  }

  predicate Resolvable(c: Config) {
    forall i :: 0 <= i < |c.ports| ==> RulesResolvable(c.ports[i].rules, c.ports)
  }

  /** What router_cfg_load gives. */
  function LoadedFrom(events: seq<Event>, hex: string -> byte): Option<Config> {
    var r := Handle(RouterTable, 0, events, NEW_CONFIG, hex);
    if r.Loaded? && Resolvable(r.config) then Some(Resolve(r.config)) else None
  }
}
