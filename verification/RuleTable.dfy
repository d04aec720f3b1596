/** The rule commands end to end: what a packet is tagged with after any history of
    setting, deleting and switching rules, once the rules have been compiled. */
module RuleTable {
  import opened Bitmaps
  import opened EqClasses
  import opened Filters
  import opened RuleHistory
  import opened Sweep
  import opened Classifier
  import opened FiniteSets

  ghost predicate Applies(p: Policy, t: Tuple) {
    p.state == ACL_ENABLE && KeyMatches(p.key, t)
  }

  /** tag is the smallest tag of a rule that applies to the packet, or 0 when none does. */
  ghost predicate IsVerdict(m: map<int, Policy>, t: Tuple, tag: nat) {
    if tag == 0 then forall k | k in m :: !Applies(m[k], t)
    else tag in m && Applies(m[tag], t) && forall k | k in m && Applies(m[k], t) :: tag <= k
  }

  /** A filter array that holds exactly the given rules. */
  ghost predicate Holds(s: seq<Filter>, m: map<int, Policy>) {
    Sorted(s) &&
    (forall i | 0 <= i < |s| ::
      s[i].cost < 0x1_0000 && s[i].cost in m && s[i].dim == DimsOf(m[s[i].cost].key) && s[i].state == m[s[i].cost].state &&
      InfoOf(s[i]) == m[s[i].cost].info) &&
    forall tag | tag in m :: exists i :: 0 <= i < |s| && s[i].cost == tag
  }

  lemma {:induction false} InsertKeeps(s: seq<Filter>, f: Filter, x: Filter)
    requires x in s && x.cost != f.cost
    ensures x in InsertOrReplace(s, f)
  {
    if f.cost > s[0].cost && x != s[0] {
      InsertKeeps(s[1..], f, x);
    }
  }

  lemma {:induction false} InsertHas(s: seq<Filter>, f: Filter)
    ensures f in InsertOrReplace(s, f)
  {
    if s != [] && f.cost > s[0].cost {
      InsertHas(s[1..], f);
    }
  }

  lemma {:induction false} InsertDrops(s: seq<Filter>, f: Filter, x: Filter)
    requires Sorted(s) && x in InsertOrReplace(s, f) && x.cost == f.cost
    ensures x == f
  {
    if s != [] && f.cost >= s[0].cost {
      SortedTail(s);
      if f.cost > s[0].cost {
        InsertDrops(s[1..], f, x);
      }
    }
  }

  lemma HoldsAfterSet(s: seq<Filter>, m: map<int, Policy>, tag: u16, key: RuleKey, info: RuleInfo)
    requires Holds(s, m)
    ensures Holds(InsertOrReplace(s, FilterOf(tag, key, info)), m[tag as int := Policy(key, info, ACL_ENABLE)])
  {
    hide InsertOrReplace, DimsOf;
    var f := FilterOf(tag, key, info);
    var s', m' := InsertOrReplace(s, f), m[tag as int := Policy(key, info, ACL_ENABLE)];
    InsertSorted(s, f);
    InsertMembers(s, f);
    InsertHas(s, f);
    forall i | 0 <= i < |s'|
      ensures s'[i].cost < 0x1_0000
      ensures s'[i].cost in m' && s'[i].dim == DimsOf(m'[s'[i].cost].key) && s'[i].state == m'[s'[i].cost].state
      ensures InfoOf(s'[i]) == m'[s'[i].cost].info
    {
      assert s'[i] in s';
      if s'[i].cost == f.cost {
        InsertDrops(s, f, s'[i]);
      } else {
        assert s'[i] in s;
      }
    }
    forall k | k in m'
      ensures exists i :: 0 <= i < |s'| && s'[i].cost == k
    {
      if k != tag {
        var i :| 0 <= i < |s| && s[i].cost == k;
        InsertKeeps(s, f, s[i]);
      }
    }
  }

  lemma {:induction false} RemoveKeeps(s: seq<Filter>, tag: int, x: Filter)
    requires x in s && x.cost != tag
    ensures x in RemoveTag(s, tag)
  {
    if s[0].cost != tag && x != s[0] {
      RemoveKeeps(s[1..], tag, x);
    }
  }

  lemma {:induction false} RemoveDrops(s: seq<Filter>, tag: int, x: Filter)
    requires Sorted(s) && x in RemoveTag(s, tag)
    ensures x.cost != tag
  {
    SortedTail(s);
    if s[0].cost != tag && x != s[0] {
      RemoveDrops(s[1..], tag, x);
    }
  }

  lemma HoldsAfterDelete(s: seq<Filter>, m: map<int, Policy>, tag: u16)
    requires Holds(s, m)
    ensures Holds(RemoveTag(s, tag), m - {tag as int})
  {
    hide RemoveTag, DimsOf;
    var s' := RemoveTag(s, tag);
    RemoveSorted(s, tag);
    RemoveMembers(s, tag);
    forall i | 0 <= i < |s'|
      ensures s'[i] in s && s'[i].cost != tag
    {
      assert s'[i] in s';
      RemoveDrops(s, tag, s'[i]);
    }
    forall k | k in m && k != tag
      ensures exists i :: 0 <= i < |s'| && s'[i].cost == k
    {
      var i :| 0 <= i < |s| && s[i].cost == k;
      RemoveKeeps(s, tag, s[i]);
    }
  }

  ghost function EnableTag(s: seq<Filter>, tag: u16, state: nat): seq<Filter> {
    seq(|s|, i requires 0 <= i < |s| => if s[i].cost == tag then s[i].(state := state) else s[i])
  }

  lemma HoldsAfterEnable(s: seq<Filter>, m: map<int, Policy>, tag: u16, state: nat)
    requires Holds(s, m)
    ensures Holds(EnableTag(s, tag, state), if tag in m then m[tag as int := m[tag].(state := state)] else m)
  {
    hide DimsOf;
    var s' := EnableTag(s, tag, state);
    var m' := if tag in m then m[tag as int := m[tag].(state := state)] else m;
    forall i | 0 <= i < |s'|
      ensures s'[i].cost == s[i].cost && s'[i].cost in m' && s'[i].dim == DimsOf(m'[s'[i].cost].key) && s'[i].state == m'[s'[i].cost].state
      ensures InfoOf(s'[i]) == m'[s'[i].cost].info
    {
      assert s[i].cost in m;
    }
    forall k | k in m'
      ensures exists i :: 0 <= i < |s'| && s'[i].cost == k
    {
      var i :| 0 <= i < |s| && s[i].cost == k;
      assert s'[i].cost == k;
    }
  }

  /** A packet that the rules can tell about: 0 also stands for no rule, and a full array leaves no
      blank slot to stand for it. */
  ghost predicate Told(m: map<int, Policy>, t: Tuple) {
    !(0 in m && Applies(m[0], t)) && (|m| == MAX_FILTERS ==> exists k :: k in m && Applies(m[k], t))
  }

  lemma {:induction false} CostCount(s: seq<Filter>)
    requires Sorted(s)
    ensures |set i | 0 <= i < |s| :: s[i].cost as int| == |s|
  {
    var all := set i | 0 <= i < |s| :: s[i].cost as int;
    if s != [] {
      var init := s[..|s| - 1];
      CostCount(init);
      var rest := set i | 0 <= i < |init| :: init[i].cost as int;
      assert all == rest + {s[|s| - 1].cost as int};
      assert s[|s| - 1].cost as int !in rest;
    }
  }

  /** The array has a slot for each rule and no more. */
  lemma HeldCount(s: seq<Filter>, m: map<int, Policy>)
    requires Holds(s, m)
    ensures |s| == |m|
  {
    hide DimsOf;
    var all := set i | 0 <= i < |s| :: s[i].cost as int;
    forall tag: int
      ensures tag in all <==> tag in m.Keys
    {
      if tag in m {
        var i :| 0 <= i < |s| && s[i].cost == tag;
        assert s[i].cost as int in all;
      }
    }
    assert all == m.Keys;
    CostCount(s);
  }

  lemma MatchIsApplies(s: Snapshot, m: map<int, Policy>, t: Tuple, j: nat)
    requires s.Valid() && j < s.num && Holds(s.slots[..s.num], m)
    ensures s.slots[j].cost < 0x1_0000 && s.slots[j].cost in m
    ensures FilterMatches(s.slots[j], t) <==> Applies(m[s.slots[j].cost], t)
  {
    hide DimsOf;
    var live := s.slots[..s.num];
    assert live[j] == s.slots[j];
    DimsMeanKey(m[live[j].cost].key, t);
  }

  lemma SlotOf(s: Snapshot, m: map<int, Policy>, tag: int) returns (j: nat)
    requires s.Valid() && Holds(s.slots[..s.num], m) && tag in m
    ensures j < s.num && s.slots[j].cost == tag
  {
    var live := s.slots[..s.num];
    j :| 0 <= j < |live| && live[j].cost == tag;
  }

  lemma SlotsAscend(s: Snapshot, m: map<int, Policy>, i: nat, j: nat)
    requires s.Valid() && Holds(s.slots[..s.num], m) && i <= j < s.num
    ensures s.slots[i].cost <= s.slots[j].cost
  {
    var live := s.slots[..s.num];
    assert live[i] == s.slots[i] && live[j] == s.slots[j];
  }

  /** What the scan comes to: the first slot that matches, or the last slot when none does. */
  lemma {:induction false} FirstMatchSays(s: Snapshot, t: Tuple, i: nat)
    requires s.Valid() && i <= s.num && forall j | 0 <= j < i :: !FilterMatches(s.slots[j], t)
    ensures
      var r := FirstMatch(s, t, i);
      if exists j :: 0 <= j < s.num && FilterMatches(s.slots[j], t) then
        r < s.num && FilterMatches(s.slots[r], t) && forall j | 0 <= j < r :: !FilterMatches(s.slots[j], t)
      else r == MAX_FILTERS - 1
    decreases s.num - i
  {
    hide FilterMatches;
    if i < s.num && !FilterMatches(s.slots[i], t) {
      FirstMatchSays(s, t, i + 1);
    }
  }

  /** A packet that some rule applies to finds the smallest tag of one. */
  lemma MatchedVerdict(s: Snapshot, m: map<int, Policy>, t: Tuple, r: nat)
    requires s.Valid() && r < s.num && Holds(s.slots[..s.num], m)
    requires FilterMatches(s.slots[r], t) && forall j | 0 <= j < r :: !FilterMatches(s.slots[j], t)
    ensures s.slots[r].cost in m && Applies(m[s.slots[r].cost], t) && TagAt(s, r) == s.slots[r].cost
    ensures forall k | k in m && Applies(m[k], t) :: s.slots[r].cost <= k
  {
    hide Holds, FilterMatches, Applies;
    MatchIsApplies(s, m, t, r);
    forall k | k in m && Applies(m[k], t)
      ensures s.slots[r].cost <= k
    {
      var j := SlotOf(s, m, k);
      MatchIsApplies(s, m, t, j);
      SlotsAscend(s, m, r, j);
    }
  }

  lemma NoneApplies(s: Snapshot, m: map<int, Policy>, t: Tuple)
    requires s.Valid() && Holds(s.slots[..s.num], m) && forall j | 0 <= j < s.num :: !FilterMatches(s.slots[j], t)
    ensures forall k | k in m :: !Applies(m[k], t)
  {
    hide Holds, FilterMatches, Applies;
    forall k | k in m
      ensures !Applies(m[k], t)
    {
      var j := SlotOf(s, m, k);
      MatchIsApplies(s, m, t, j);
    }
  }

  lemma {:induction false} LastTag(s: seq<Filter>)
    requires Sorted(s) && s != []
    ensures s[|s| - 1].cost >= |s| - 1
  {
    if |s| > 1 {
      LastTag(s[..|s| - 1]);
    }
  }

  /** Linear scan over a compiled array that holds the rules gives their verdict for a packet, unless
      the rule with tag 0 applies to it, or no rule does and the array has no blank slot left to say so. */
  lemma ScanIsVerdict(s: Snapshot, m: map<int, Policy>, t: Tuple)
    requires s.Valid() && Holds(s.slots[..s.num], m)
    requires s.num < MAX_FILTERS ==> s.slots[MAX_FILTERS - 1] == BLANK
    ensures IsVerdict(m, t, TagAt(s, FirstMatch(s, t, 0))) <==> Told(m, t)
  {
    hide Holds, FilterMatches, Applies, FirstMatch;
    var live := s.slots[..s.num];
    HeldCount(live, m);
    FirstMatchSays(s, t, 0);
    var r := FirstMatch(s, t, 0);
    if j :| 0 <= j < s.num && FilterMatches(s.slots[j], t) {
      MatchedVerdict(s, m, t, r);
    } else {
      NoneApplies(s, m, t);
      if s.num == MAX_FILTERS {
        HeldSorted(live, m);
        LastTag(live);
        MatchIsApplies(s, m, t, MAX_FILTERS - 1);
      }
    }
  }

  lemma HeldSorted(s: seq<Filter>, m: map<int, Policy>)
    requires Holds(s, m)
    ensures Sorted(s)
  {
  }

  lemma HeldRulesSweepable(s: Snapshot, m: map<int, Policy>)
    requires s.Valid() && Holds(s.slots[..s.num], m)
    ensures AllSweepable(s)
  {
    forall i, com | 0 <= i < s.num && 0 <= com < 7
      ensures Sweepable(s.slots[i].dim[com])
    {
      var live := s.slots[..s.num];
      assert live[i] == s.slots[i];
    }
  }

  lemma HoldsUpToSync(a: Snapshot, b: Snapshot, m: map<int, Policy>)
    requires a.Valid() && b.Valid() && SameButSync(a, b) && Holds(a.slots[..a.num], m)
    ensures Holds(b.slots[..b.num], m)
  {
    hide DimsOf;
    var s, s' := a.slots[..a.num], b.slots[..b.num];
    forall i | 0 <= i < |s|
      ensures s'[i].cost == s[i].cost && s'[i].dim == s[i].dim && s'[i].state == s[i].state && InfoOf(s'[i]) == InfoOf(s[i])
    {
    }
    forall tag | tag in m
      ensures exists i :: 0 <= i < |s'| && s'[i].cost == tag
    {
      var i :| 0 <= i < |s| && s[i].cost == tag;
      assert s'[i].cost == tag;
    }
  }

  lemma KeyCount(m: map<int, Policy>, tag: int, p: Policy)
    ensures |m[tag := p]| == |m| + if tag in m then 0 else 1
  {
    assert m[tag := p].Keys == m.Keys + {tag};
  }

  lemma KeyGone(m: map<int, Policy>, tag: int)
    ensures |m - {tag}| == |m| - if tag in m then 1 else 0
  {
    assert (m - {tag}).Keys == m.Keys - {tag};
  }

  /** Deleting a run of tags, in order, sixteen bits each. */
  ghost function Deletes(index: u16, num: nat): (h: seq<Op>)
    ensures |h| == num
  {
    seq(num, i requires 0 <= i < num => Delete((index + i) % 0x1_0000))
  }

  lemma DeletesNext(index: u16, n: nat)
    ensures Deletes(index, 0) == [] && Deletes(index, n + 1) == Deletes(index, n) + [Delete((index + n) % 0x1_0000)]
  {
  }

  /** The array has a rule with a tag exactly when there is such a rule. */
  lemma HeldKeys(s: seq<Filter>, m: map<int, Policy>, tag: int)
    requires Holds(s, m)
    ensures tag in AsMap(s) <==> tag in m
  {
    hide DimsOf, AsMap;
    if tag in AsMap(s) {
      var i := MapKey(s, tag);
      assert s[i].cost == tag;
    }
    if tag in m {
      var i :| 0 <= i < |s| && s[i].cost == tag;
      MapAt(s, i);
    }
  }

  /** And the fields it gives back are the rule's. */
  lemma HeldKey(s: seq<Filter>, m: map<int, Policy>, tag: int)
    requires Holds(s, m) && tag in m && tag in AsMap(s)
    ensures GetFilter(AsMap(s)[tag]) == m[tag].key && AsMap(s)[tag].state == m[tag].state
    ensures InfoOf(AsMap(s)[tag]) == m[tag].info
  {
    hide DimsOf, AsMap, GetFilter;
    var i :| 0 <= i < |s| && s[i].cost == tag;
    MapAt(s, i);
    GetFilterInverts(s[i], m[tag].key);
  }

  /** Every tag that a history sets is one that the host counts rules by. */
  ghost predicate TagsSetInRange(history: seq<Op>) {
    forall i | 0 <= i < |history| && history[i].Set? :: TagInRange(history[i].tag)
  }

  lemma {:induction false} PoliciesInRange(history: seq<Op>)
    requires TagsSetInRange(history)
    ensures forall tag | tag in Policies(history) :: TagInRange(tag)
  {
    if history != [] {
      var init := history[..|history| - 1];
      assert forall i | 0 <= i < |init| :: init[i] == history[i];
      PoliciesInRange(init);
    }
  }

  /** With such tags every packet's verdict is told, and two slots are always free. */
  lemma InRangeIsTold(history: seq<Op>, t: Tuple)
    requires TagsSetInRange(history)
    ensures Told(Policies(history), t) && |Policies(history)| <= MAX_FILTERS - 2
  {
    PoliciesInRange(history);
    var m := Policies(history);
    var keys: set<nat> := set k: nat | k in m;
    assert m.Keys == keys;
    RangeCard(MAX_FILTERS - 1, keys + {0});
  }

  /** The verdict of the rules in force, said of the commands. */
  lemma AnswersAre(history: seq<Op>, t: Tuple)
    ensures forall k: int :: k in Policies(history) && Applies(Policies(history)[k], t) <==> Fires(history, k, t)
    ensures forall tag: nat :: IsVerdict(Policies(history), t, tag) <==> Answers(history, t, tag)
    ensures Told(Policies(history), t) <==>
      !Fires(history, 0, t) && (|Policies(history)| == MAX_FILTERS ==> exists k :: Fires(history, k, t))
  {
    hide Policies, InForce, KeyMatches;
    var m := Policies(history);
    forall k: int
      ensures k in m && Applies(m[k], t) <==> Fires(history, k, t)
    {
      if k in m {
        PoliciesExact(history, k, m[k]);
      }
      if p :| InForce(history, k, p) && p.state == ACL_ENABLE && KeyMatches(p.key, t) {
        PoliciesExact(history, k, p);
      }
    }
  }

  /** The rule commands of one table. The ghost fields remember every command so far, and
      the commands the compiled tables reflect. */
  class RuleEngine {
    const acl: AclData
    ghost var history: seq<Op>
    ghost var published: seq<Op>
    ghost var snapshot: Snapshot
    ghost var ready: bool

    constructor ()
      ensures Valid() && history == [] && !ready
    {
      acl := new AclData();
      history, published, ready := [], [], false;
    }

    ghost predicate Valid()
      reads this, acl, acl.filtset, acl.filtset.filtArr, acl.nodes,
            set n | n in acl.nodes :: n.ces, set n | n in acl.nodes :: n.cell
    {
      acl.Valid() && Holds(acl.filtset.Live(), Policies(history)) && (ready ==> Serves())
    }

    /** The tables answer for the rules of the published history. */
    ghost predicate Serves()
      reads this, acl.nodes, set n | n in acl.nodes :: n.ces, set n | n in acl.nodes :: n.cell
    {
      Compiled(acl.nodes, snapshot) && Holds(snapshot.slots[..snapshot.num], Policies(published)) &&
      (snapshot.num < MAX_FILTERS ==> snapshot.slots[MAX_FILTERS - 1] == BLANK)
    }

    /** Any tag is taken; only the rule that the array has no slot for is not. */
    method RuleAdd(tag: u16, key: RuleKey, info: RuleInfo) returns (fits: bool)
      requires Valid()
      modifies this, acl.filtset, acl.filtset.filtArr
      ensures Valid() && history == old(history) + if fits then [Set(tag, key, info)] else []
      ensures fits <==> tag in Policies(old(history)) || |Policies(old(history))| < MAX_FILTERS
      ensures ready == old(ready) && published == old(published)
    {
      hide Compiled, Holds, Sorted, Policies, InsertOrReplace;
      ghost var live, m := acl.filtset.Live(), Policies(history);
      HoldsAfterSet(live, m, tag, key, info);
      PoliciesStep(history, Set(tag, key, info));
      HeldCount(InsertOrReplace(live, FilterOf(tag, key, info)), m[tag as int := Policy(key, info, ACL_ENABLE)]);
      HeldCount(live, m);
      KeyCount(m, tag, Policy(key, info, ACL_ENABLE));
      fits := acl.filtset.AclSetFilter(tag, key, info);
      if fits {
        history := history + [Set(tag, key, info)];
      }
    }

    method RuleDelOne(tag: u16) returns (found: bool)
      requires Valid()
      modifies this, acl.filtset, acl.filtset.filtArr
      ensures Valid() && history == old(history) + [Delete(tag)]
      ensures found <==> tag in Policies(old(history))
      ensures |Policies(history)| == |Policies(old(history))| - if found then 1 else 0
      ensures ready == old(ready) && published == old(published)
    {
      hide Compiled, Holds, Sorted, Policies, AsMap, RemoveTag;
      KeyGone(Policies(history), tag);
      HoldsAfterDelete(acl.filtset.Live(), Policies(history), tag);
      HeldKeys(acl.filtset.Live(), Policies(history), tag);
      PoliciesStep(history, Delete(tag));
      found := acl.filtset.AclDeleteOneFilterByTagid(tag);
      history := history + [Delete(tag)];
    }

    /** Deletes a run of tags, which goes on from the highest at 0, and counts those that were there. */
    method RuleDel(index: u16, num: u16) returns (count: nat)
      requires Valid()
      modifies this, acl.filtset, acl.filtset.filtArr
      ensures Valid() && history == old(history) + Deletes(index, num)
      ensures count == |Policies(old(history))| - |Policies(history)|
      ensures ready == old(ready) && published == old(published)
    {
      hide Policies, Valid, Deletes;
      count := 0;
      var i: int := 0;
      DeletesNext(index, 0);
      while i < num
        invariant 0 <= i <= num && Valid() && history == old(history) + Deletes(index, i)
        invariant count == |Policies(old(history))| - |Policies(history)|
        invariant ready == old(ready) && published == old(published)
      {
        var tag: u16 := (index + i) % 0x1_0000;
        DeletesNext(index, i);
        var found := RuleDelOne(tag);
        if found {
          count := count + 1;
        }
        i := i + 1;
      }
    }

    /** The rule with a tag: its fields are those of the last command that set it. */
    method RuleGet(tag: u16) returns (r: Found)
      requires Valid()
      ensures r.NotFound? <==> forall p :: !InForce(history, tag, p)
      ensures r.FoundRule? ==> InForce(history, tag, Policy(r.key, r.info, r.state))
    {
      hide Compiled, Serves, Policies, AsMap, GetFilter, DimsOf, InForce;
      HeldKeys(acl.filtset.Live(), Policies(history), tag);
      forall p
        ensures tag in Policies(history) && Policies(history)[tag] == p <==> InForce(history, tag, p)
      {
        PoliciesExact(history, tag, p);
      }
      assert tag in Policies(history) ==> InForce(history, tag, Policies(history)[tag]);
      r := acl.filtset.AclGetFilterByTagid(tag);
      if r.FoundRule? {
        HeldKey(acl.filtset.Live(), Policies(history), tag);
      }
    }

    method RuleEnable(tag: u16, state: u8) returns (found: bool)
      requires Valid()
      modifies this, acl.filtset.filtArr
      ensures Valid() && history == old(history) + [Enable(tag, state)]
      ensures found <==> tag in Policies(old(history))
      ensures ready == old(ready) && published == old(published)
    {
      hide Compiled, Holds, Sorted, Policies;
      HoldsAfterEnable(acl.filtset.Live(), Policies(history), tag, state);
      HeldKeys(acl.filtset.Live(), Policies(history), tag);
      PoliciesStep(history, Enable(tag, state));
      ghost var was := acl.filtset.Live();
      found := acl.filtset.AclEnableOneFilterByTagid(tag, state);
      assert acl.filtset.Live() == EnableTag(was, tag, state);
      history := history + [Enable(tag, state)];
    }

    /** Compiles the current rules; on success packets are classified by exactly these. */
    method RuleUpdate() returns (status: Status)
      requires Valid()
      modifies this, acl.nodes, set n | n in acl.nodes :: n.ces, set n | n in acl.nodes :: n.cell, acl.filtset.filtArr
      ensures Valid() && history == old(history)
      ensures status == BuildStatus(old(Image(acl.filtset)))
      ensures ready <==> status == Done
      ensures ready ==> published == history
    {
      hide Compiled, Holds, BuildStatus;
      ghost var s := Image(acl.filtset);
      status := acl.PreAclLookupByTuple();
      HoldsUpToSync(s, Image(acl.filtset), Policies(history));
      ready := status == Done;
      snapshot, published := s, history;
    }

    /** The tag a packet gets: the smallest tag of a published rule that applies, 0 if none does; and
        exactly when that can be told: unless the rule with tag 0 applies, or no rule does and the
        array has no slot left to say so. */
    method RuleProcess(t: Tuple) returns (tag: nat)
      requires Valid() && ready
      ensures Answers(published, t, tag) <==>
        !Fires(published, 0, t) && (|Policies(published)| == MAX_FILTERS ==> exists k :: Fires(published, k, t))
    {
      AnswersAre(published, t);
      HeldRulesSweepable(snapshot, Policies(published));
      ScanIsVerdict(snapshot, Policies(published), t);
      tag := AclLookupByTuple(acl.nodes, t, snapshot);
    }
  }
}