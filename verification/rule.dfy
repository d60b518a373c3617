/** The rule and trace records shared by every part of the model.

    In the source a rule is a C struct holding `range[5][2]`, `prefix_len[5]`,
    `priority` and `label`; here the two arrays are regrouped per dimension, so
    that `Dim(d)` is `(range[d][0], range[d][1], prefix_len[d])`, and the
    `label` field is called `tag` (`label` is a Dafny keyword). */
module RuleModel {
  import opened Bits

  /** One dimension of a rule: the closed range `[low, high]` and its prefix length. */
  datatype Field = Field(low: U32, high: U32, prefixLen: int)

  /** A zero-filled dimension, as left by `memset` or by the global `rule_empty`. */
  const EmptyField := Field(0, 0, 0)

  datatype Rule = Rule(srcIp: Field, dstIp: Field, srcPort: Field, dstPort: Field,
                       proto: Field, priority: int, tag: int)
  {
    /** Dimension `d` in the source's numbering: 0 source IP, 1 destination IP,
        2 source port, 3 destination port, 4 protocol. */
    function Dim(d: nat): Field
      requires d < 5
    {
      match d
      case 0 => srcIp
      case 1 => dstIp
      case 2 => srcPort
      case 3 => dstPort
      case _ => proto
    }
  }

  /** The zero-initialised global `rule_empty`. */
  const EmptyRule := Rule(EmptyField, EmptyField, EmptyField, EmptyField, EmptyField, 0, 0)

  /** A packet header: the five key values `key[0..4]`, in the same order as a
      rule's dimensions. */
  datatype Trace = Trace(srcIp: U32, dstIp: U32, srcPort: U32, dstPort: U32, proto: U32)
  {
    function Key(d: nat): U32
      requires d < 5
    {
      match d
      case 0 => srcIp
      case 1 => dstIp
      case 2 => srcPort
      case 3 => dstPort
      case _ => proto
    }
  }

  /** The closed range of `f` holds `x`. */
  predicate Holds(f: Field, x: int)
  {
    f.low <= x <= f.high
  }

  /** A trace matches a rule when every key lies in the rule's range for that
      dimension. */
  predicate Matches(r: Rule, t: Trace)
  {
    && Holds(r.srcIp, t.srcIp) && Holds(r.dstIp, t.dstIp)
    && Holds(r.srcPort, t.srcPort) && Holds(r.dstPort, t.dstPort)
    && Holds(r.proto, t.proto)
  }

  /** The same condition, dimension by dimension in the source's numbering. */
  lemma MatchesByDimension(r: Rule, t: Trace)
    ensures Matches(r, t) <==> forall d :: 0 <= d < 5 ==> Holds(r.Dim(d), t.Key(d))
  {
    if forall d :: 0 <= d < 5 ==> Holds(r.Dim(d), t.Key(d)) {
      assert Holds(r.Dim(0), t.Key(0)) && Holds(r.Dim(1), t.Key(1)) && Holds(r.Dim(2), t.Key(2));
      assert Holds(r.Dim(3), t.Key(3)) && Holds(r.Dim(4), t.Key(4));
    }
  }

  /** Every dimension of the rule is a non-empty range. */
  predicate WellFormed(r: Rule)
  {
    forall d :: 0 <= d < 5 ==> r.Dim(d).low <= r.Dim(d).high
  }

  /** Strictly decreasing priorities: the order in which the rules were read. */
  predicate PrioritiesDecrease(rules: seq<Rule>)
  {
    forall a, b :: 0 <= a < b < |rules| ==> rules[a].priority > rules[b].priority
  }
}
