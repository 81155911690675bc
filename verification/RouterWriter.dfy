/** Every configuration can be written, so the loader undoes a writer. */
module RouterWriter {
  import opened Basics
  import opened CaseFold
  import opened RouterLoad
  import opened RouterDocs
  import opened RouterConfigs
  import Router

  function Spell(data: seq<byte>, spell: byte -> string): seq<string> {
    if data == [] then [] else [spell(data[0])] + Spell(data[1..], spell)
  }

  function WriteFilter(f: Router.Filter, spell: byte -> string): FilterDoc {
    [ActionEntry("action", if f.action == Router.Accept then "ACCEPT" else "REJECT"),
     PrefixEntry("prefix", Spell(f.data, spell))]
  }

  function WriteFilters(filters: seq<Router.Filter>, spell: byte -> string): seq<FilterDoc> {
    if filters == [] then [] else [WriteFilter(filters[0], spell)] + WriteFilters(filters[1..], spell)
  }

  function WriteRule(r: Rule, spell: byte -> string): RuleDoc {
    [DstEntry("dst_port", r.dstName), FiltersEntry("filters", WriteFilters(r.filters, spell))]
  }

  function WriteRules(rules: seq<Rule>, spell: byte -> string): seq<RuleDoc> {
    if rules == [] then [] else [WriteRule(rules[0], spell)] + WriteRules(rules[1..], spell)
  }

  function WritePort(p: Port, spell: byte -> string): PortDoc {
    [TextEntry(NameField, "name", p.name), TextEntry(MetricField, "metric", p.metric),
     TextEntry(PubField, "pub_addr", p.pubAddr), TextEntry(SubField, "sub_addr", p.subAddr),
     RulesEntry("forwarding_rules", WriteRules(p.rules, spell))]
  }

  function WritePorts(ports: seq<Port>, spell: byte -> string): seq<PortDoc> {
    if ports == [] then [] else [WritePort(ports[0], spell)] + WritePorts(ports[1..], spell)
  }

  function Write(c: Config, spell: byte -> string): RouterDoc {
    [NameEntry("name", c.name), PortsEntry("ports", WritePorts(c.ports, spell))]
  }

  ghost predicate Spells(spell: byte -> string, hex: string -> byte) { forall b :: hex(spell(b)) == b }

  lemma {:induction false} SpellReads(data: seq<byte>, spell: byte -> string, hex: string -> byte)
    requires Spells(spell, hex)
    ensures Bytes(Spell(data, spell), hex) == data
  {
    if data != [] {
      SpellReads(data[1..], spell, hex);
      var s := Spell(data, spell);
      assert s[1..] == Spell(data[1..], spell) && s[0] == spell(data[0]);
      assert hex(spell(data[0])) == data[0];
      assert Bytes(s, hex) == [hex(s[0])] + Bytes(s[1..], hex);
      assert data == [data[0]] + data[1..];
    }
  }

  lemma FilterIsWritten(f: Router.Filter, spell: byte -> string, hex: string -> byte)
    requires Spells(spell, hex)
    ensures FilterWrites(WriteFilter(f, spell), f, hex)
  {
    hide Spells, Bytes, Spell;
    SpellReads(f.data, spell, hex);
    var doc := WriteFilter(f, spell);
    var d1: FilterDoc := [doc[1]];
    assert doc[1..] == d1 && d1[1..] == [];
    Actions();
    FoldSame("prefix");
    FoldSame("action");
    OnePrefix(d1);
    assert FilterAgrees(d1, f, hex);
  }

  lemma OnePrefix(doc: FilterDoc)
    requires |doc| == 1 && doc[0].PrefixEntry?
    ensures PrefixOnce(doc) && HasPrefix(doc)
  {
    assert PrefixOnce(doc[1..]) && !HasPrefix(doc[1..]);
  }

  lemma Actions()
    ensures ActionOf("ACCEPT") == Some(Router.Accept) && ActionOf("REJECT") == Some(Router.Reject)
  {
    assert "REJECT"[0] == 'R' && "ACCEPT"[0] == 'A';
  }

  lemma {:induction false} FiltersAreWritten(filters: seq<Router.Filter>, spell: byte -> string, hex: string -> byte)
    requires Spells(spell, hex)
    ensures FiltersWrite(WriteFilters(filters, spell), filters, hex)
  {
    hide Spells, FilterWrites, WriteFilter;
    if filters != [] {
      FilterIsWritten(filters[0], spell, hex);
      FiltersAreWritten(filters[1..], spell, hex);
      assert WriteFilters(filters, spell)[1..] == WriteFilters(filters[1..], spell);
    }
  }

  lemma RuleIsWritten(r: Rule, spell: byte -> string, hex: string -> byte)
    requires Spells(spell, hex) && r.dst == None
    ensures RuleWrites(WriteRule(r, spell), r, hex)
  {
    hide Spells, FiltersWrite, WriteFilters;
    FiltersAreWritten(r.filters, spell, hex);
    var doc := WriteRule(r, spell);
    var d1: RuleDoc := [doc[1]];
    assert doc[1..] == d1 && d1[1..] == [];
    FoldSame("dst_port");
    FoldSame("filters");
    OneFilters(d1);
    assert RuleAgrees(d1, r, hex);
  }

  lemma OneFilters(doc: RuleDoc)
    requires |doc| == 1 && doc[0].FiltersEntry?
    ensures FiltersOnce(doc) && HasFilters(doc)
  {
    assert FiltersOnce(doc[1..]) && !HasFilters(doc[1..]);
  }

  ghost predicate Unbound(rules: seq<Rule>) { forall j :: 0 <= j < |rules| ==> rules[j].dst == None }

  lemma {:induction false} RulesAreWritten(rules: seq<Rule>, spell: byte -> string, hex: string -> byte)
    requires Spells(spell, hex) && Unbound(rules)
    ensures RulesWrite(WriteRules(rules, spell), rules, hex)
  {
    hide Spells, RuleWrites, WriteRule;
    if rules != [] {
      RuleIsWritten(rules[0], spell, hex);
      RulesAreWritten(rules[1..], spell, hex);
      assert WriteRules(rules, spell)[1..] == WriteRules(rules[1..], spell);
    }
  }

  lemma PortIsWritten(p: Port, spell: byte -> string, hex: string -> byte)
    requires Spells(spell, hex) && Unbound(p.rules)
    ensures PortWrites(WritePort(p, spell), p, hex)
  {
    hide Spells, RulesWrite, WriteRules;
    RulesAreWritten(p.rules, spell, hex);
    FoldSame("name");
    FoldSame("metric");
    FoldSame("pub_addr");
    FoldSame("sub_addr");
    FoldSame("forwarding_rules");
    var doc := WritePort(p, spell);
    var d4: PortDoc := [doc[4]];
    var d3, d2, d1 := [doc[3]] + d4, [doc[2], doc[3]] + d4, [doc[1], doc[2], doc[3]] + d4;
    assert d4[1..] == [] && d3[1..] == d4 && d2[1..] == d3 && d1[1..] == d2 && doc[1..] == d1;
    hide EqualFold;
    assert PortAgrees(d4, p, hex) && RulesOnce(d4) && HasRules(d4);
    assert PortAgrees(d3, p, hex) && RulesOnce(d3) && HasRules(d3) && HasField(d3, SubField);
    assert PortAgrees(d2, p, hex) && RulesOnce(d2) && HasRules(d2) && HasField(d2, SubField) && HasField(d2, PubField);
    assert PortAgrees(d1, p, hex) && RulesOnce(d1) && HasRules(d1) && HasField(d1, SubField) && HasField(d1, PubField);
    assert HasField(d1, MetricField);
  }

  lemma {:induction false} PortsAreWritten(ports: seq<Port>, spell: byte -> string, hex: string -> byte)
    requires Spells(spell, hex) && forall i :: 0 <= i < |ports| ==> Unbound(ports[i].rules)
    ensures PortsWrite(WritePorts(ports, spell), ports, hex)
  {
    hide Spells, PortWrites, WritePort, Unbound;
    if ports != [] {
      PortIsWritten(ports[0], spell, hex);
      PortsAreWritten(ports[1..], spell, hex);
      assert WritePorts(ports, spell)[1..] == WritePorts(ports[1..], spell);
    }
  }

  /** Loading what was written gives the configuration back, bound to its destinations. */
  lemma LoadWrite(c: Config, spell: byte -> string, hex: string -> byte)
    requires Spells(spell, hex) && forall i :: 0 <= i < |c.ports| ==> Unbound(c.ports[i].rules)
    requires AllMeasured(c) && Resolvable(c)
    ensures LoadedFrom(Document(Write(c, spell)), hex) == Some(Resolve(c))
  {
    hide Spells, PortsWrite, WritePorts, Unbound, AllMeasured, Resolvable, Resolve, LoadedFrom, Document;
    PortsAreWritten(c.ports, spell, hex);
    var doc := Write(c, spell);
    var d1: RouterDoc := [doc[1]];
    assert doc[1..] == d1 && d1[1..] == [];
    FoldSame("name");
    FoldSame("ports");
    OnePorts(d1);
    assert ConfigAgrees(d1, c, hex);
    RoundTrip(Write(c, spell), c, hex);
  }

  lemma OnePorts(doc: RouterDoc)
    requires |doc| == 1 && doc[0].PortsEntry?
    ensures PortsOnce(doc) && HasPorts(doc)
  {
    assert PortsOnce(doc[1..]) && !HasPorts(doc[1..]);
  }
}
