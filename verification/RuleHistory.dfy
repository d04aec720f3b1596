/** The commands on a rule table, and which rules they leave in force: of each tag the one set last,
    unless it was deleted since, in the state it was last switched to. */
module RuleHistory {
  import opened Filters

  datatype Op =
    | Set(tag: u16, key: RuleKey, info: RuleInfo)
    | Delete(tag: u16)
    | Enable(tag: u16, state: u8)

  datatype Policy = Policy(key: RuleKey, info: RuleInfo, state: nat)

  ghost function ApplyOp(m: map<int, Policy>, op: Op): map<int, Policy> {
    if op.Set? then m[op.tag as int := Policy(op.key, op.info, ACL_ENABLE)]
    else if op.Delete? then m - {op.tag as int}
    else if op.tag in m then m[op.tag as int := m[op.tag].(state := op.state)]
    else m
  }

  /** The rules in force after a history, as a map from tags. */
  ghost function Policies(history: seq<Op>): map<int, Policy> {
    if history == [] then map[]
    else ApplyOp(Policies(history[..|history| - 1]), history[|history| - 1])
  }

  lemma PoliciesStep(history: seq<Op>, op: Op)
    ensures Policies(history + [op]) == ApplyOp(Policies(history), op)
  {
    assert (history + [op])[..|history|] == history;
  }

  // The same, said of the history itself

  predicate Replaces(op: Op, tag: int) {
    !op.Enable? && op.tag == tag
  }

  predicate Switches(op: Op, tag: int) {
    op.Enable? && op.tag == tag
  }

  /** Command i set the tag, and none after it set or deleted it. */
  ghost predicate LastSet(history: seq<Op>, tag: int, i: nat) {
    i < |history| && history[i].Set? && history[i].tag == tag &&
    forall j | i < j < |history| :: !Replaces(history[j], tag)
  }

  /** Command j is the last to switch the tag. */
  ghost predicate LastSwitch(history: seq<Op>, tag: int, j: nat) {
    j < |history| && Switches(history[j], tag) && forall k | j < k < |history| :: !Switches(history[k], tag)
  }

  /** The state of the rule set by command i: the one it was last switched to since, or enabled. */
  ghost predicate StateSince(history: seq<Op>, tag: int, i: nat, state: nat) {
    (exists j: nat :: i < j && LastSwitch(history, tag, j) && history[j].state == state) ||
    (state == ACL_ENABLE && forall j | i < j < |history| :: !Switches(history[j], tag))
  }

  ghost predicate SetAt(history: seq<Op>, tag: int, i: nat, p: Policy) {
    LastSet(history, tag, i) && p.key == history[i].key && p.info == history[i].info && StateSince(history, tag, i, p.state)
  }

  /** The rule of a tag after a history. */
  ghost predicate InForce(history: seq<Op>, tag: int, p: Policy) {
    exists i: nat :: SetAt(history, tag, i, p)
  }

  lemma SetStep(h: seq<Op>, op: Op, tag: int, p: Policy)
    requires op.Set? && op.tag == tag
    ensures InForce(h + [op], tag, p) <==> p == Policy(op.key, op.info, ACL_ENABLE)
  {
    var e, n := h + [op], |h|;
    assert e[n] == op;
    if InForce(e, tag, p) {
      var i: nat :| SetAt(e, tag, i, p);
      assert i == n;
    }
    if p == Policy(op.key, op.info, ACL_ENABLE) {
      assert SetAt(e, tag, n, p);
    }
  }

  lemma DeleteStep(h: seq<Op>, op: Op, tag: int, p: Policy)
    requires op.Delete? && op.tag == tag
    ensures !InForce(h + [op], tag, p)
  {
    var e := h + [op];
    assert Replaces(e[|h|], tag);
  }

  lemma SwitchStep(h: seq<Op>, op: Op, tag: int, p: Policy)
    requires Switches(op, tag)
    ensures InForce(h + [op], tag, p) <==> p.state == op.state && exists q :: InForce(h, tag, q) && p == q.(state := op.state)
  {
    var e, n := h + [op], |h|;
    assert LastSwitch(e, tag, n);
    if InForce(e, tag, p) {
      var i: nat :| SetAt(e, tag, i, p);
      LastSetFront(h, op, tag, i);
      var state := SomeState(h, tag, i);
      assert SetAt(h, tag, i, p.(state := state));
      assert p == p.(state := state).(state := op.state);
    }
    if q :| InForce(h, tag, q) && p == q.(state := op.state) {
      var i: nat :| SetAt(h, tag, i, q);
      LastSetFront(h, op, tag, i);
      assert SetAt(e, tag, i, p);
    }
  }

  lemma LastSetFront(h: seq<Op>, op: Op, tag: int, i: nat)
    requires !Replaces(op, tag)
    ensures LastSet(h + [op], tag, i) <==> LastSet(h, tag, i)
  {
    var e := h + [op];
    assert forall j | 0 <= j < |h| :: e[j] == h[j];
    assert e[|h|] == op;
  }

  lemma {:induction false} SomeState(h: seq<Op>, tag: int, i: nat) returns (state: nat)
    ensures StateSince(h, tag, i, state)
    decreases |h|
  {
    if |h| <= i + 1 {
      return ACL_ENABLE;
    }
    var n := |h| - 1;
    if Switches(h[n], tag) {
      state := h[n].state;
      assert LastSwitch(h, tag, n);
    } else {
      state := SomeState(h[..n], tag, i);
      StateFront(h[..n], h[n], tag, i, state);
      assert h[..n] + [h[n]] == h;
    }
  }

  lemma StateFront(h: seq<Op>, op: Op, tag: int, i: nat, state: nat)
    requires !Switches(op, tag)
    ensures StateSince(h + [op], tag, i, state) <==> StateSince(h, tag, i, state)
  {
    var e := h + [op];
    assert e[|h|] == op && forall j | 0 <= j < |h| :: e[j] == h[j];
    forall j: nat
      ensures LastSwitch(e, tag, j) <==> LastSwitch(h, tag, j)
    {
    }
  }

  lemma OtherStep(h: seq<Op>, op: Op, tag: int, p: Policy)
    requires op.tag != tag
    ensures InForce(h + [op], tag, p) <==> InForce(h, tag, p)
  {
    hide LastSet, StateSince;
    forall i: nat
      ensures SetAt(h + [op], tag, i, p) <==> SetAt(h, tag, i, p)
    {
      LastSetFront(h, op, tag, i);
      StateFront(h, op, tag, i, p.state);
      LastSetIn(h, tag, i);
    }
  }

  lemma LastSetIn(h: seq<Op>, tag: int, i: nat)
    ensures LastSet(h, tag, i) ==> i < |h| && h[i].Set?
  {
  }

  /** After any history the map has a rule under a tag exactly when it is the tag's rule in force. */
  lemma {:induction false} PoliciesExact(history: seq<Op>, tag: int, p: Policy)
    ensures tag in Policies(history) && Policies(history)[tag] == p <==> InForce(history, tag, p)
  {
    hide InForce;
    if history == [] {
      NothingInForce(tag, p);
    } else {
      var h, op := history[..|history| - 1], history[|history| - 1];
      assert h + [op] == history;
      if op.tag != tag {
        PoliciesExact(h, tag, p);
        OtherStep(h, op, tag, p);
      } else if op.Set? {
        SetStep(h, op, tag, p);
      } else if op.Delete? {
        DeleteStep(h, op, tag, p);
      } else {
        forall q
          ensures tag in Policies(h) && Policies(h)[tag] == q <==> InForce(h, tag, q)
        {
          PoliciesExact(h, tag, q);
        }
        SwitchStep(h, op, tag, p);
      }
    }
  }

  lemma NothingInForce(tag: int, p: Policy)
    ensures !InForce([], tag, p)
  {
  }

  /** A rule that is in force and enabled, and describes the packet. */
  ghost predicate Fires(history: seq<Op>, tag: int, t: Tuple) {
    exists p :: InForce(history, tag, p) && p.state == ACL_ENABLE && KeyMatches(p.key, t)
  }

  /** The smallest tag whose rule applies to the packet, or 0 when none does. */
  ghost predicate Answers(history: seq<Op>, t: Tuple, tag: nat) {
    if tag == 0 then forall k :: !Fires(history, k, t)
    else Fires(history, tag, t) && forall k | Fires(history, k, t) :: tag <= k
  }
}
