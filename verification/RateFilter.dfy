/** The rate filter of filter_sbp.c: for every message type the first rule lets each d-th
    message through. */
module RateFilter {
  import opened Basics

  newtype uint8 = x: int | 0 <= x < 256

  const SBP_MSG_TYPE_OFFSET := 1
  const SBP_MSG_SIZE_MIN := 6

  /** `kind` is a uint16_t, the other two are uint8_t. */
  datatype Rule = Rule(kind: nat, divisor: nat, counter: nat)

  /** The little-endian message type. */
  function Kind(msg: seq<uint8>): nat
    requires |msg| >= SBP_MSG_SIZE_MIN
  {
    (msg[SBP_MSG_TYPE_OFFSET] as int) + 256 * (msg[SBP_MSG_TYPE_OFFSET + 1] as int)
  }

  /** A message that is long enough, with the low byte of type `t` and then its high byte behind the
      preamble. */
  predicate OfType(msg: seq<uint8>, t: nat) {
    |msg| >= 6 && msg[1] as int == t % 256 && msg[2] as int == t / 256
  }

  lemma OfTypeIff(msg: seq<uint8>, t: nat)
    requires |msg| >= SBP_MSG_SIZE_MIN
    ensures OfType(msg, t) <==> Kind(msg) == t
  {
  }

  // ---------------------------------------------------------------------------
  // One message
  // ---------------------------------------------------------------------------

  /** process_rule, with the increment of an eight-bit counter. */
  function Count(r: Rule): (bool, Rule) {
    if r.divisor == 0 then (false, r)
    else
      var counter := (r.counter + 1) % 256;
      if counter >= r.divisor then (true, r.(counter := 0)) else (false, r.(counter := counter))
  }

  /** The position of the first rule for a kind, or the number of rules. */
  function First(rules: seq<Rule>, kind: nat): (i: nat)
    ensures i <= |rules|
    ensures i < |rules| ==> rules[i].kind == kind
    ensures forall j :: 0 <= j < i ==> rules[j].kind != kind
  {
    if rules == [] || rules[0].kind == kind then 0 else 1 + First(rules[1..], kind)
  }

  /** filter_process between reloads: whether the message passes, and the new counters. */
  function Step(rules: seq<Rule>, msg: seq<uint8>): (bool, seq<Rule>) {
    if rules == [] then (true, rules)
    else if |msg| < SBP_MSG_SIZE_MIN then (false, rules)
    else
      var i := First(rules, Kind(msg));
      if i == |rules| then (false, rules)
      else
        var (pass, r) := Count(rules[i]);
        (pass, rules[i := r])
  }

  /** A message of type `t` is decided and counted by the first rule for `t`, and rejected without
      one. */
  lemma StepOfType(rules: seq<Rule>, msg: seq<uint8>, t: nat, i: nat)
    requires rules != [] && OfType(msg, t)
    requires i <= |rules| && (i < |rules| ==> rules[i].kind == t) && forall j :: 0 <= j < i ==> rules[j].kind != t
    ensures Step(rules, msg)
         == if i == |rules| then (false, rules) else (Count(rules[i]).0, rules[i := Count(rules[i]).1])
  {
    OfTypeIff(msg, t);
    FirstIs(rules, t, i);
  }

  class Filter {
    const rules: array<Rule>

    constructor (lines: seq<Option<(nat, nat)>>)
      ensures fresh(rules) && rules[..] == Loaded(lines)
    {
      var loaded := LoadConfig(lines);
      rules := new Rule[|loaded|](i requires 0 <= i < |loaded| => loaded[i]);
    }

    /** filter_process; true stands for the return value 0. */
    method Process(msg: seq<uint8>) returns (pass: bool)
      modifies rules
      ensures (pass, rules[..]) == Step(old(rules[..]), msg)
    {
      if rules.Length == 0 {
        return true;
      }
      if |msg| < SBP_MSG_SIZE_MIN {
        return false;
      }
      var kind := Kind(msg);
      var i := 0;
      while i < rules.Length
        invariant 0 <= i <= rules.Length
        invariant forall j :: 0 <= j < i ==> rules[j].kind != kind
        invariant rules[..] == old(rules[..])
      {
        if rules[i].kind == kind {
          FirstIs(rules[..], kind, i);
          pass := CountInPlace(i);
          return;
        }
        i := i + 1;
      }
      FirstIs(rules[..], kind, i);
      return false;
    }

    /** process_rule */
    method CountInPlace(i: nat) returns (pass: bool)
      requires i < rules.Length
      modifies rules
      ensures pass == Count(old(rules[i])).0
      ensures rules[..] == old(rules[..])[i := Count(old(rules[i])).1]
    {
      var r := rules[i];
      if r.divisor == 0 {
        return false;
      }
      r := r.(counter := (r.counter + 1) % 256);
      if r.counter >= r.divisor {
        rules[i] := r.(counter := 0);
        return true;
      }
      rules[i] := r;
      return false;
    }
  }

  lemma FirstIs(rules: seq<Rule>, kind: nat, i: nat)
    requires i <= |rules| && (i < |rules| ==> rules[i].kind == kind)
    requires forall j :: 0 <= j < i ==> rules[j].kind != kind
    ensures First(rules, kind) == i
  {
  }

  /** The pair of a line, truncated to the fields of a rule. */
  function LoadedRule(line: (nat, nat)): Rule {
    Rule(line.0 % 65536, line.1 % 256, 0)
  }

  /** The rules of a file: one per line, or none at all if some line cannot be read. */
  function Loaded(lines: seq<Option<(nat, nat)>>): (rules: seq<Rule>)
    ensures rules == [] || |rules| == |lines|
  {
    if forall i :: 0 <= i < |lines| ==> lines[i].Some?
    then seq(|lines|, i requires 0 <= i < |lines| && lines[i].Some? => LoadedRule(lines[i].value))
    else []
  }

  /** The fields of the rules are those of the lines, cut to sixteen and eight bits; a line that
      cannot be read leaves no rule. */
  lemma LoadedIs(lines: seq<Option<(nat, nat)>>)
    ensures (exists k :: 0 <= k < |lines| && lines[k].None?) ==> Loaded(lines) == []
    ensures (forall k :: 0 <= k < |lines| ==> lines[k].Some?) ==>
              && |Loaded(lines)| == |lines|
              && forall k :: 0 <= k < |lines| ==>
                   && lines[k].value.0 % 65536 == Loaded(lines)[k].kind < 65536
                   && lines[k].value.1 % 256 == Loaded(lines)[k].divisor < 256
                   && Loaded(lines)[k].counter == 0
  {
  }

  /** filter_sbp_load_config; a line that has no two numbers is None. */
  method LoadConfig(lines: seq<Option<(nat, nat)>>) returns (rules: seq<Rule>)
    ensures rules == Loaded(lines)
  {
    rules := [];
    var i := 0;
    while i < |lines|
      invariant i <= |lines| && |rules| == i
      invariant forall k :: 0 <= k < i ==> lines[k].Some? && rules[k] == LoadedRule(lines[k].value)
    {
      if lines[i].None? {
        return [];
      }
      rules := rules + [LoadedRule(lines[i].value)];
      i := i + 1;
    }
  }

  // ---------------------------------------------------------------------------
  // Whole runs
  // ---------------------------------------------------------------------------

  /** The verdicts on a run of messages and the counters after it. */
  function Run(rules: seq<Rule>, msgs: seq<seq<uint8>>): (seq<bool>, seq<Rule>) {
    if msgs == [] then ([], rules)
    else
      var n := |msgs| - 1;
      var (passes, now) := Run(rules, msgs[..n]);
      var (pass, next) := Step(now, msgs[n]);
      (passes + [pass], next)
  }

  /** How many messages of a run are long enough and of this kind. */
  function Occurrences(msgs: seq<seq<uint8>>, kind: nat): nat {
    if msgs == [] then 0
    else
      var n := |msgs| - 1;
      Occurrences(msgs[..n], kind) + (if OfType(msgs[n], kind) then 1 else 0)
  }

  /** The same, counting only those that pass. */
  function Passed(msgs: seq<seq<uint8>>, passes: seq<bool>, kind: nat): nat
    requires |passes| == |msgs|
  {
    if msgs == [] then 0
    else
      var n := |msgs| - 1;
      Passed(msgs[..n], passes[..n], kind)
      + (if passes[n] && OfType(msgs[n], kind) then 1 else 0)
  }

  /** Freshly loaded rules: all counters zero, all fields within their types. */
  ghost predicate Fresh(rules: seq<Rule>) {
    forall k :: 0 <= k < |rules| ==> rules[k].counter == 0 && rules[k].divisor < 256
  }

  lemma LoadedIsFresh(lines: seq<Option<(nat, nat)>>)
    ensures Fresh(Loaded(lines))
  {
  }

  /** The counter of a rule after a run: the messages of its kind modulo its divisor, if it
      is the first of its kind, else zero. */
  ghost predicate CounterIs(rules: seq<Rule>, msgs: seq<seq<uint8>>, k: nat, r: Rule)
    requires k < |rules|
  {
    r == rules[k].(counter :=
      if rules[k].divisor > 0 && First(rules, rules[k].kind) == k
      then Occurrences(msgs, rules[k].kind) % rules[k].divisor else 0)
  }

  lemma ModuloStep(n: nat, d: nat)
    requires d > 0
    ensures (n + 1) % d == if n % d + 1 == d then 0 else n % d + 1
    ensures (n + 1) / d == if n % d + 1 == d then n / d + 1 else n / d
  {
    assert n == n / d * d + n % d;
    if n % d + 1 == d {
      assert n + 1 == (n / d + 1) * d;
      DivModUnique(n + 1, d, n / d + 1, 0);
    } else {
      DivModUnique(n + 1, d, n / d, n % d + 1);
    }
  }

  lemma DivModUnique(n: nat, d: nat, q: nat, r: nat)
    requires d > 0 && n == q * d + r && r < d
    ensures n / d == q && n % d == r
  {
    var p, m := n / d, n % d;
    assert n == p * d + m && m < d;
    if p < q {
      MultipleGap(p, q, d);
    } else if q < p {
      MultipleGap(q, p, d);
    }
  }

  lemma {:induction false} MultipleGap(p: nat, q: nat, d: nat)
    requires p < q
    ensures p * d + d <= q * d
    decreases q
  {
    OneMore(q - 1, d);
    if p < q - 1 { MultipleGap(p, q - 1, d); }
  }

  lemma OneMore(q: nat, d: nat)
    ensures (q + 1) * d == q * d + d
  {
  }

  lemma {:induction false} RunCounters(rules: seq<Rule>, msgs: seq<seq<uint8>>)
    requires Fresh(rules)
    ensures var (passes, now) := Run(rules, msgs);
            |passes| == |msgs| && CountersAre(rules, msgs, now)
    decreases |msgs|
  {
    if msgs != [] {
      var n := |msgs| - 1;
      RunCounters(rules, msgs[..n]);
      StepCounters(rules, msgs, Run(rules, msgs[..n]).1);
    }
  }

  ghost predicate SameKinds(a: seq<Rule>, b: seq<Rule>) {
    |a| == |b| && forall k :: 0 <= k < |a| ==> a[k].kind == b[k].kind
  }

  ghost predicate CountersAre(rules: seq<Rule>, msgs: seq<seq<uint8>>, now: seq<Rule>) {
    |now| == |rules| && forall k :: 0 <= k < |rules| ==> CounterIs(rules, msgs, k, now[k])
  }

  lemma CountersKeepKinds(rules: seq<Rule>, msgs: seq<seq<uint8>>, now: seq<Rule>)
    requires CountersAre(rules, msgs, now)
    ensures SameKinds(rules, now)
  {
    forall k | 0 <= k < |rules| ensures now[k].kind == rules[k].kind {
      assert CounterIs(rules, msgs, k, now[k]);
    }
  }

  lemma StepCounters(rules: seq<Rule>, msgs: seq<seq<uint8>>, now: seq<Rule>)
    requires Fresh(rules) && msgs != [] && CountersAre(rules, msgs[..|msgs| - 1], now)
    ensures CountersAre(rules, msgs, Step(now, msgs[|msgs| - 1]).1)
  {
    hide OfType, CounterIs, Fresh;
    var n := |msgs| - 1;
    CountersKeepKinds(rules, msgs[..n], now);
    var next := Step(now, msgs[n]).1;
    forall k | 0 <= k < |rules| ensures CounterIs(rules, msgs, k, next[k]) {
      StepCounter(rules, msgs, now, k);
    }
  }

  lemma StepCounter(rules: seq<Rule>, msgs: seq<seq<uint8>>, now: seq<Rule>, k: nat)
    requires Fresh(rules) && msgs != [] && SameKinds(rules, now) && k < |rules|
    requires CounterIs(rules, msgs[..|msgs| - 1], k, now[k])
    ensures CounterIs(rules, msgs, k, Step(now, msgs[|msgs| - 1]).1[k])
  {
    hide OfType, Kind;
    var n := |msgs| - 1;
    var msg := msgs[n];
    if |msg| >= SBP_MSG_SIZE_MIN {
      SameFirst(rules, now, Kind(msg));
      OfTypeIff(msg, rules[k].kind);
    } else {
      TooShort(msg, rules[k].kind);
    }
    if rules[k].divisor > 0 { ModuloStep(Occurrences(msgs[..n], rules[k].kind), rules[k].divisor); }
  }

  lemma TooShort(msg: seq<uint8>, t: nat)
    requires |msg| < SBP_MSG_SIZE_MIN
    ensures !OfType(msg, t)
  {
  }

  lemma {:induction false} SameFirst(a: seq<Rule>, b: seq<Rule>, kind: nat)
    requires SameKinds(a, b)
    ensures First(a, kind) == First(b, kind)
  {
    var i := First(a, kind);
    FirstIs(b, kind, i);
  }

  /** The counter stays below the divisor, so it never wraps around. */
  lemma CounterNeverWraps(rules: seq<Rule>, msgs: seq<seq<uint8>>, k: nat)
    requires Fresh(rules) && k < |rules|
    ensures var now := Run(rules, msgs).1;
            |now| == |rules| && (now[k].counter == 0 || now[k].counter < now[k].divisor < 256)
  {
    RunCounters(rules, msgs);
    assert CounterIs(rules, msgs, k, Run(rules, msgs).1[k]);
  }

  /** A message of type `t` passes exactly when it is the d-th, 2d-th, ... of its type, whatever comes
      between; without a rule for its type, or with divisor zero, none does. */
  lemma EveryDth(rules: seq<Rule>, msgs: seq<seq<uint8>>, t: nat)
    requires Fresh(rules) && rules != [] && msgs != [] && OfType(msgs[|msgs| - 1], t)
    ensures var n := |msgs| - 1;
            var passes := Run(rules, msgs).0;
            var i := First(rules, t);
            && |passes| == |msgs|
            && (passes[n] <==> i < |rules| && rules[i].divisor > 0 && Occurrences(msgs, t) % rules[i].divisor == 0)
  {
    hide Step, OfType, Fresh;
    var n := |msgs| - 1;
    RunCounters(rules, msgs[..n]);
    var now := Run(rules, msgs[..n]).1;
    var i := First(rules, t);
    CountersKeepKinds(rules, msgs[..n], now);
    SameFirst(rules, now, t);
    StepOfType(now, msgs[n], t, i);
    if i < |rules| {
      CounterPasses(rules, msgs, now[i], t, i);
    }
  }

  lemma CounterPasses(rules: seq<Rule>, msgs: seq<seq<uint8>>, r: Rule, t: nat, i: nat)
    requires Fresh(rules) && msgs != [] && OfType(msgs[|msgs| - 1], t) && i < |rules|
    requires First(rules, t) == i && CounterIs(rules, msgs[..|msgs| - 1], i, r)
    ensures Count(r).0 <==> rules[i].divisor > 0 && Occurrences(msgs, t) % rules[i].divisor == 0
  {
    hide OfType;
    if rules[i].divisor > 0 { ModuloStep(Occurrences(msgs[..|msgs| - 1], t), rules[i].divisor); }
  }

  /** With rules, a message that is too short never passes. */
  lemma ShortRejected(rules: seq<Rule>, msgs: seq<seq<uint8>>)
    requires Fresh(rules) && rules != [] && msgs != [] && |msgs[|msgs| - 1]| < 6
    ensures var passes := Run(rules, msgs).0; |passes| == |msgs| && !passes[|msgs| - 1]
  {
    RunCounters(rules, msgs[..|msgs| - 1]);
  }

  /** Without rules every message passes. */
  lemma {:induction false} AllPassWithout(rules: seq<Rule>, msgs: seq<seq<uint8>>)
    requires rules == []
    ensures Run(rules, msgs).1 == [] && |Run(rules, msgs).0| == |msgs|
    ensures forall i :: 0 <= i < |msgs| ==> Run(rules, msgs).0[i]
  {
    if msgs != [] {
      AllPassWithout(rules, msgs[..|msgs| - 1]);
    }
  }

  /** Of n messages of a type exactly n / d pass. */
  lemma {:induction false} PassedShare(rules: seq<Rule>, msgs: seq<seq<uint8>>, t: nat)
    requires Fresh(rules) && rules != []
    ensures var passes := Run(rules, msgs).0;
            var i := First(rules, t);
            && |passes| == |msgs|
            && Passed(msgs, passes, t)
               == if i < |rules| && rules[i].divisor > 0 then Occurrences(msgs, t) / rules[i].divisor else 0
    decreases |msgs|
  {
    hide Step, OfType;
    if msgs != [] {
      var n := |msgs| - 1;
      var i := First(rules, t);
      PassedShare(rules, msgs[..n], t);
      if OfType(msgs[n], t) { EveryDth(rules, msgs, t); }
      assert Run(rules, msgs).0[..n] == Run(rules, msgs[..n]).0;
      if i < |rules| && rules[i].divisor > 0 { ModuloStep(Occurrences(msgs[..n], t), rules[i].divisor); }
    }
  }

  /** The first line of a file that is for type `t`, with divisor `d`, lets each d-th message of that
      type through. */
  lemma FileDecides(lines: seq<Option<(nat, nat)>>, msgs: seq<seq<uint8>>, t: nat, d: nat, i: nat)
    requires (forall k :: 0 <= k < |lines| ==> lines[k].Some?) && i < |lines| && lines[i] == Some((t, d))
    requires t < 65536 && d < 256 && forall j :: 0 <= j < i ==> lines[j].value.0 % 65536 != t
    requires msgs != [] && OfType(msgs[|msgs| - 1], t)
    ensures var passes := Run(Loaded(lines), msgs).0;
            && |passes| == |msgs|
            && (passes[|msgs| - 1] <==> d > 0 && Occurrences(msgs, t) % d == 0)
  {
    hide Run, OfType, Occurrences;
    var rules := Loaded(lines);
    LoadedIsFresh(lines);
    LoadedIs(lines);
    FirstIs(rules, t, i);
    EveryDth(rules, msgs, t);
  }
}
