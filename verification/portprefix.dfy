/** `RulesPortPrefix`: replacing each rule's two port ranges by prefix
    blocks.  Every rule becomes one rule per pair (source-port block,
    destination-port block), source blocks outermost; every other field is
    copied from the original rule. */
module PortPrefix {
  import opened Bits
  import opened RuleModel
  import opened PortMask

  /** The `uint32_t` to `int` conversion at the call of `GetPortMask`:
      values from `2^31` on wrap to negative numbers. */
  function AsInt(x: U32): int
  {
    if x < 0x8000_0000 then x else x - TwoTo32
  }

  /** The `int` to `uint32_t` conversion when a block is stored back. */
  function AsU32(v: int): U32
  {
    v % TwoTo32
  }

  /** A block stored into a rule dimension. */
  function ToField(b: PrefixRange): Field
  {
    Field(AsU32(b.low), AsU32(b.high), b.prefixLen)
  }

  /** The copy of `r` whose source and destination ports are the blocks `s` and `d`. */
  function WithPorts(r: Rule, s: PrefixRange, d: PrefixRange): Rule
  {
    r.(srcPort := ToField(s), dstPort := ToField(d))
  }

  function SrcBlocks(r: Rule): seq<PrefixRange>
  {
    GetPortMask(AsInt(r.srcPort.low), AsInt(r.srcPort.high))
  }

  function DstBlocks(r: Rule): seq<PrefixRange>
  {
    GetPortMask(AsInt(r.dstPort.low), AsInt(r.dstPort.high))
  }

  /** The rules for source block `s` and the first `|ds|` destination blocks. */
  function Row(r: Rule, s: PrefixRange, ds: seq<PrefixRange>): (out: seq<Rule>)
    ensures |out| == |ds|
    ensures forall k :: 0 <= k < |ds| ==> out[k] == WithPorts(r, s, ds[k])
  {
    if ds == [] then []
    else Row(r, s, ds[..|ds| - 1]) + [WithPorts(r, s, ds[|ds| - 1])]
  }

  /** The rules for the source blocks `ss` against the destination blocks `ds`,
      one row per source block. */
  function Cross(r: Rule, ss: seq<PrefixRange>, ds: seq<PrefixRange>): seq<Rule>
  {
    if ss == [] then []
    else Cross(r, ss[..|ss| - 1], ds) + Row(r, ss[|ss| - 1], ds)
  }

  /** The rules one input rule expands into. */
  function ExpandRule(r: Rule): seq<Rule>
  {
    Cross(r, SrcBlocks(r), DstBlocks(r))
  }

  /** The expansions of `rules`, one after the other in input order. */
  function ExpandAll(rules: seq<Rule>): seq<Rule>
  {
    if rules == [] then []
    else ExpandAll(rules[..|rules| - 1]) + ExpandRule(rules[|rules| - 1])
  }

  /** The two inner loops of `RulesPortPrefix` for one rule: for each source
      block, for each destination block, emit the copy with those ports. */
  method ExpandOne(r: Rule, ss: seq<PrefixRange>, ds: seq<PrefixRange>) returns (out: seq<Rule>)
    ensures out == Cross(r, ss, ds)
  {
    out := [];
    for j := 0 to |ss|
      invariant out == Cross(r, ss[..j], ds)
    {
      ghost var before := out;
      for k := 0 to |ds|
        invariant out == before + Row(r, ss[j], ds[..k])
      {
        assert ds[..k + 1][..k] == ds[..k];
        out := out + [WithPorts(r, ss[j], ds[k])];
      }
      assert ds[..|ds|] == ds;
      assert ss[..j + 1][..j] == ss[..j];
    }
    assert ss[..|ss|] == ss;
  }

  /** `RulesPortPrefix`: the expansions of the rules, in input order.
      Freeing the input is a matter of memory ownership only. */
  method RulesPortPrefix(rules: seq<Rule>) returns (out: seq<Rule>)
    ensures out == ExpandAll(rules)
  {
    out := [];
    for i := 0 to |rules|
      invariant out == ExpandAll(rules[..i])
    {
      var expanded := ExpandOne(rules[i], SrcBlocks(rules[i]), DstBlocks(rules[i]));
      assert rules[..i + 1][..i] == rules[..i];
      out := out + expanded;
    }
    assert rules[..|rules|] == rules;
  }

  // ---------------------------------------------------------------------
  // Shape of one expansion
  // ---------------------------------------------------------------------

  /** `m * n` as repeated addition, which keeps the arithmetic below linear. */
  function Times(m: nat, n: nat): nat
  {
    if m == 0 then 0 else Times(m - 1, n) + n
  }

  /** `Times` is the product. */
  lemma {:induction false} TimesIsMul(m: nat, n: nat)
    ensures Times(m, n) == m * n
    decreases m
  {
    if m > 0 {
      TimesIsMul(m - 1, n);
      assert (m - 1) * n + n == m * n;
    }
  }

  lemma {:induction false} TimesMonotone(j: nat, m: nat, n: nat)
    requires j <= m
    ensures Times(j, n) <= Times(m, n)
    decreases m
  {
    if j < m {
      TimesMonotone(j, m - 1, n);
    }
  }

  /** The cross product has one rule per pair of blocks. */
  lemma {:induction false} CrossLength(r: Rule, ss: seq<PrefixRange>, ds: seq<PrefixRange>)
    ensures |Cross(r, ss, ds)| == Times(|ss|, |ds|)
    decreases |ss|
  {
    if ss != [] {
      CrossLength(r, ss[..|ss| - 1], ds);
    }
  }

  /** The number of rules one expansion emits is the product of the two
      block counts. */
  lemma CrossCount(r: Rule, ss: seq<PrefixRange>, ds: seq<PrefixRange>)
    ensures |Cross(r, ss, ds)| == |ss| * |ds|
  {
    CrossLength(r, ss, ds);
    TimesIsMul(|ss|, |ds|);
  }

  /** Row `j` of the cross product starts at `j * |ds|`, so the rules come in
      source-major order. */
  lemma {:induction false} CrossIndex(r: Rule, ss: seq<PrefixRange>, ds: seq<PrefixRange>, j: nat, k: nat)
    requires j < |ss| && k < |ds|
    ensures Times(j, |ds|) + k < |Cross(r, ss, ds)|
            && Cross(r, ss, ds)[Times(j, |ds|) + k] == WithPorts(r, ss[j], ds[k])
    decreases |ss|
  {
    var front := ss[..|ss| - 1];
    CrossLength(r, front, ds);
    if j < |ss| - 1 {
      CrossIndex(r, front, ds, j, k);
      assert front[j] == ss[j];
    }
  }

  /** Every position of the cross product is some pair `(j, k)`. */
  lemma {:induction false} CrossPosition(r: Rule, ss: seq<PrefixRange>, ds: seq<PrefixRange>, i: nat)
    returns (j: nat, k: nat)
    requires i < |Cross(r, ss, ds)|
    ensures j < |ss| && k < |ds| && i == Times(j, |ds|) + k
    decreases |ss|
  {
    var front := ss[..|ss| - 1];
    CrossLength(r, front, ds);
    if i < |Cross(r, front, ds)| {
      j, k := CrossPosition(r, front, ds, i);
    } else {
      j, k := |ss| - 1, i - Times(|ss| - 1, |ds|);
    }
  }

  /** A cross product has `|ss| * |ds|` rules, and the rule at
      `j * |ds| + k` carries source block `j` and destination block `k`. */
  lemma CrossShape(r: Rule, ss: seq<PrefixRange>, ds: seq<PrefixRange>, j: nat, k: nat)
    requires j < |ss| && k < |ds|
    ensures |Cross(r, ss, ds)| == Times(|ss|, |ds|)
    ensures Times(j, |ds|) + k < |Cross(r, ss, ds)|
            && Cross(r, ss, ds)[Times(j, |ds|) + k] == WithPorts(r, ss[j], ds[k])
  {
    CrossLength(r, ss, ds);
    CrossIndex(r, ss, ds, j, k);
  }

  /** Only the port dimensions change: with its ports put back, every rule of
      a cross product is `r`, priority and label included. */
  lemma CrossKeepsOtherFields(r: Rule, ss: seq<PrefixRange>, ds: seq<PrefixRange>, i: nat)
    requires i < |Cross(r, ss, ds)|
    ensures Cross(r, ss, ds)[i].(srcPort := r.srcPort, dstPort := r.dstPort) == r
  {
    var j, k := CrossPosition(r, ss, ds, i);
    CrossIndex(r, ss, ds, j, k);
  }

  lemma ExpandRuleKeepsOtherFields(r: Rule, i: nat)
    requires i < |ExpandRule(r)|
    ensures ExpandRule(r)[i].(srcPort := r.srcPort, dstPort := r.dstPort) == r
  {
    CrossKeepsOtherFields(r, SrcBlocks(r), DstBlocks(r), i);
  }

  // ---------------------------------------------------------------------
  // The expansion classifies the same packets
  // ---------------------------------------------------------------------

  /** A port range `AsInt` leaves alone. */
  predicate SmallPorts(f: Field)
  {
    f.low < 0x8000_0000 && f.high < 0x8000_0000
  }

  /** Some rule of `rules` matches `t`. */
  predicate MatchesSome(rules: seq<Rule>, t: Trace)
  {
    exists i :: 0 <= i < |rules| && Matches(rules[i], t)
  }

  /** A block with non-negative bounds below `2^31` is stored unchanged. */
  lemma ToFieldSmall(b: PrefixRange)
    requires 0 <= b.low <= b.high < 0x8000_0000
    ensures ToField(b) == Field(b.low, b.high, b.prefixLen)
  {
    DivModUnique(b.low, TwoTo32, 0, b.low);
    DivModUnique(b.high, TwoTo32, 0, b.high);
  }

  /** Matching a rule with replaced ports: the other three dimensions as
      before, and the ports inside the two blocks. */
  lemma MatchesWithPorts(r: Rule, s: PrefixRange, d: PrefixRange, t: Trace)
    requires 0 <= s.low <= s.high < 0x8000_0000 && 0 <= d.low <= d.high < 0x8000_0000
    ensures Matches(WithPorts(r, s, d), t) <==>
              && Holds(r.srcIp, t.srcIp) && Holds(r.dstIp, t.dstIp)
              && s.low <= t.srcPort <= s.high && d.low <= t.dstPort <= d.high
              && Holds(r.proto, t.proto)
  {
    ToFieldSmall(s);
    ToFieldSmall(d);
  }

  /** Blocks with non-negative bounds below `2^31`. */
  predicate SmallBlocks(bs: seq<PrefixRange>)
  {
    forall j :: 0 <= j < |bs| ==> 0 <= bs[j].low <= bs[j].high < 0x8000_0000
  }

  /** A packet whose ports lie in some source block and some destination
      block, and which matches the other dimensions of `r`, matches the rule
      for that pair of blocks. */
  lemma CrossCoversIf(r: Rule, ss: seq<PrefixRange>, ds: seq<PrefixRange>, t: Trace)
    requires SmallBlocks(ss) && SmallBlocks(ds)
    requires Holds(r.srcIp, t.srcIp) && Holds(r.dstIp, t.dstIp) && Holds(r.proto, t.proto)
    requires InSomeBlock(ss, t.srcPort) && InSomeBlock(ds, t.dstPort)
    ensures MatchesSome(Cross(r, ss, ds), t)
  {
    var j :| 0 <= j < |ss| && ss[j].low <= t.srcPort <= ss[j].high;
    var k :| 0 <= k < |ds| && ds[k].low <= t.dstPort <= ds[k].high;
    CrossIndex(r, ss, ds, j, k);
    MatchesWithPorts(r, ss[j], ds[k], t);
  }

  /** A packet that matches some rule of a cross product matches the other
      dimensions of `r`, and its ports lie in the blocks of that rule. */
  lemma CrossCoversOnlyIf(r: Rule, ss: seq<PrefixRange>, ds: seq<PrefixRange>, t: Trace)
    requires SmallBlocks(ss) && SmallBlocks(ds)
    requires MatchesSome(Cross(r, ss, ds), t)
    ensures Holds(r.srcIp, t.srcIp) && Holds(r.dstIp, t.dstIp) && Holds(r.proto, t.proto)
    ensures InSomeBlock(ss, t.srcPort) && InSomeBlock(ds, t.dstPort)
  {
    var i :| 0 <= i < |Cross(r, ss, ds)| && Matches(Cross(r, ss, ds)[i], t);
    var j, k := CrossPosition(r, ss, ds, i);
    CrossIndex(r, ss, ds, j, k);
    MatchesWithPorts(r, ss[j], ds[k], t);
  }

  /** A packet matches some rule of a cross product exactly when it matches
      the other three dimensions of `r` and its ports lie in some source
      block and some destination block. */
  lemma CrossCovers(r: Rule, ss: seq<PrefixRange>, ds: seq<PrefixRange>, t: Trace)
    requires SmallBlocks(ss) && SmallBlocks(ds)
    ensures MatchesSome(Cross(r, ss, ds), t) <==>
              && Holds(r.srcIp, t.srcIp) && Holds(r.dstIp, t.dstIp)
              && InSomeBlock(ss, t.srcPort) && InSomeBlock(ds, t.dstPort)
              && Holds(r.proto, t.proto)
  {
    if Holds(r.srcIp, t.srcIp) && Holds(r.dstIp, t.dstIp) && Holds(r.proto, t.proto)
       && InSomeBlock(ss, t.srcPort) && InSomeBlock(ds, t.dstPort) {
      CrossCoversIf(r, ss, ds, t);
    }
    if MatchesSome(Cross(r, ss, ds), t) {
      CrossCoversOnlyIf(r, ss, ds, t);
    }
  }

  /** The blocks of a port range below `2^31` are themselves below `2^31`. */
  lemma SmallRangeBlocks(f: Field)
    requires SmallPorts(f)
    ensures AsInt(f.low) == f.low && AsInt(f.high) == f.high
    ensures SmallBlocks(GetPortMask(f.low, f.high))
  {
  }

  /** A packet matches some rule of an expansion exactly when it matches the
      original rule, for port values below `2^31`. */
  lemma ExpandRuleCovers(r: Rule, t: Trace)
    requires SmallPorts(r.srcPort) && SmallPorts(r.dstPort)
    ensures MatchesSome(ExpandRule(r), t) <==> Matches(r, t)
  {
    SmallRangeBlocks(r.srcPort);
    SmallRangeBlocks(r.dstPort);
    CrossCovers(r, SrcBlocks(r), DstBlocks(r), t);
    CoverExact(r.srcPort.low, r.srcPort.high, t.srcPort);
    CoverExact(r.dstPort.low, r.dstPort.high, t.dstPort);
  }

  lemma MatchesSomeAppend(a: seq<Rule>, b: seq<Rule>, t: Trace)
    ensures MatchesSome(a + b, t) <==> MatchesSome(a, t) || MatchesSome(b, t)
  {
    if MatchesSome(a + b, t) {
      var i :| 0 <= i < |a + b| && Matches((a + b)[i], t);
      if i >= |a| {
        assert Matches(b[i - |a|], t);
      }
    }
    if MatchesSome(b, t) {
      var i :| 0 <= i < |b| && Matches(b[i], t);
      assert Matches((a + b)[|a| + i], t);
    }
    if MatchesSome(a, t) {
      var i :| 0 <= i < |a| && Matches(a[i], t);
      assert Matches((a + b)[i], t);
    }
  }

  /** Some rule of a non-empty list matches exactly when one of the earlier
      rules or the last one does. */
  lemma MatchesSomeSnoc(rules: seq<Rule>, t: Trace)
    requires rules != []
    ensures MatchesSome(rules, t) <==>
              MatchesSome(rules[..|rules| - 1], t) || Matches(rules[|rules| - 1], t)
  {
    var front, last := rules[..|rules| - 1], rules[|rules| - 1];
    assert rules == front + [last];
    MatchesSomeAppend(front, [last], t);
    assert MatchesSome([last], t) <==> Matches(last, t);
  }

  /** Every port range of `rules` lies below `2^31`. */
  predicate AllSmallPorts(rules: seq<Rule>)
  {
    forall i :: 0 <= i < |rules| ==> SmallPorts(rules[i].srcPort) && SmallPorts(rules[i].dstPort)
  }

  /** The whole expanded rule set matches exactly the packets the input rule
      set matches, when every port value is below `2^31`. */
  lemma {:induction false} ExpandAllCovers(rules: seq<Rule>, t: Trace)
    requires AllSmallPorts(rules)
    ensures MatchesSome(ExpandAll(rules), t) <==> MatchesSome(rules, t)
    decreases |rules|
  {
    if rules != [] {
      var front, last := rules[..|rules| - 1], rules[|rules| - 1];
      assert AllSmallPorts(front) by {
        assert forall i :: 0 <= i < |front| ==> front[i] == rules[i];
      }
      ExpandAllCovers(front, t);
      ExpandRuleCovers(last, t);
      MatchesSomeAppend(ExpandAll(front), ExpandRule(last), t);
      MatchesSomeSnoc(rules, t);
    }
  }

  /** A rule whose ports already form one block of each kind is kept as it is. */
  lemma SingleBlockUnchanged(r: Rule)
    requires SrcBlocks(r) == [PrefixRange(r.srcPort.low, r.srcPort.high, r.srcPort.prefixLen)]
    requires DstBlocks(r) == [PrefixRange(r.dstPort.low, r.dstPort.high, r.dstPort.prefixLen)]
    ensures ExpandRule(r) == [r]
  {
    var s, d := SrcBlocks(r)[0], DstBlocks(r)[0];
    CrossShape(r, SrcBlocks(r), DstBlocks(r), 0, 0);
    assert Times(1, 1) == 1;
    DivModUnique(s.low, TwoTo32, 0, s.low);
    DivModUnique(s.high, TwoTo32, 0, s.high);
    DivModUnique(d.low, TwoTo32, 0, d.low);
    DivModUnique(d.high, TwoTo32, 0, d.high);
  }

  /** A rule whose ports are both the full range `0 .. 65535` with prefix
      length 0 expands to itself. */
  lemma FullPortsUnchanged(r: Rule)
    requires r.srcPort == Field(0, 0xffff, 0) && r.dstPort == Field(0, 0xffff, 0)
    ensures ExpandRule(r) == [r]
  {
    FullRangeSingleBlock();
    SingleBlockUnchanged(r);
  }
}
