/** `GenerateTraces` and `SameTrace`: one probe packet per rule, built from
    the low end of every range, and field-by-field comparison of two
    packets. */
module Traces {
  import opened RuleModel

  /** The packet whose key in every dimension is the rule's `range[d][0]`. */
  function LowCorner(r: Rule): Trace
  {
    Trace(r.srcIp.low, r.dstIp.low, r.srcPort.low, r.dstPort.low, r.proto.low)
  }

  /** The low corner of a rule has the rule's low end as its key in every
      dimension, and it matches the rule whenever every range is non-empty. */
  lemma LowCornerKeys(r: Rule)
    ensures forall d :: 0 <= d < 5 ==> LowCorner(r).Key(d) == r.Dim(d).low
    ensures WellFormed(r) ==> Matches(r, LowCorner(r))
  {
    var t := LowCorner(r);
    assert forall d :: 0 <= d < 5 ==> t.Key(d) == r.Dim(d).low;
    if WellFormed(r) {
      assert forall d :: 0 <= d < 5 ==> Holds(r.Dim(d), t.Key(d));
      MatchesByDimension(r, t);
    }
  }

  /** One trace per rule, in rule order, each the low corner of its rule. */
  method GenerateTraces(rules: seq<Rule>) returns (traces: seq<Trace>)
    ensures |traces| == |rules|
    ensures forall i, d :: 0 <= i < |rules| && 0 <= d < 5 ==> traces[i].Key(d) == rules[i].Dim(d).low
  {
    traces := [];
    for i := 0 to |rules|
      invariant |traces| == i
      invariant forall i', d :: 0 <= i' < i && 0 <= d < 5 ==> traces[i'].Key(d) == rules[i'].Dim(d).low
    {
      LowCornerKeys(rules[i]);
      traces := traces + [LowCorner(rules[i])];
    }
  }

  /** On rules whose ranges are non-empty every generated trace matches the
      rule it was generated from. */
  lemma GeneratedTracesMatch(rules: seq<Rule>, traces: seq<Trace>)
    requires |traces| == |rules|
    requires forall i, d :: 0 <= i < |rules| && 0 <= d < 5 ==> traces[i].Key(d) == rules[i].Dim(d).low
    requires forall i :: 0 <= i < |rules| ==> WellFormed(rules[i])
    ensures forall i :: 0 <= i < |rules| ==> Matches(rules[i], traces[i])
  {
    forall i | 0 <= i < |rules|
      ensures Matches(rules[i], traces[i])
    {
      assert forall d :: 0 <= d < 5 ==> Holds(rules[i].Dim(d), traces[i].Key(d));
      MatchesByDimension(rules[i], traces[i]);
    }
  }

  /** A trace is determined by its five keys. */
  lemma KeysDetermineTrace(t1: Trace, t2: Trace)
    requires forall d :: 0 <= d < 5 ==> t1.Key(d) == t2.Key(d)
    ensures t1 == t2
  {
    assert t1.Key(0) == t2.Key(0) && t1.Key(1) == t2.Key(1) && t1.Key(2) == t2.Key(2);
    assert t1.Key(3) == t2.Key(3) && t1.Key(4) == t2.Key(4);
  }

  /** The loop over the five keys answers whether the two packets are the
      same packet. */
  method SameTrace(t1: Trace, t2: Trace) returns (same: bool)
    ensures same <==> t1 == t2
  {
    for i := 0 to 5
      invariant forall d :: 0 <= d < i ==> t1.Key(d) == t2.Key(d)
    {
      if t1.Key(i) != t2.Key(i) {
        return false;
      }
    }
    KeysDetermineTrace(t1, t2);
    return true;
  }
}
