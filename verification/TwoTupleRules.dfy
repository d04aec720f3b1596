/** The two-tuple rules as a list, the least recently set first: what setting and deleting do
    to it, which rule a packet finds, and how the list divides into the buckets of a hash index. */
module TwoTupleRules {
  import Filters

  const FRCORE_MAX_FILTERS: nat := 2048
  const ACL_INDEX_START: nat := 1
  const ACL_MAX: nat := 2000
  const FRC_ACL_UNKNOWN: nat := 0
  const FRC_ACL_SIP: nat := 1
  const FRC_ACL_DIP: nat := 2
  const FRC_ACL_SP: nat := 3
  const FRC_ACL_DP: nat := 4

  datatype Rule = Rule(index: nat, aclType: nat, oneTuple: nat, proto: nat, op: nat, action: nat, source: nat)

  predicate GoodIndex(i: int) {
    ACL_INDEX_START <= i <= ACL_MAX
  }

  predicate GoodType(t: int) {
    FRC_ACL_SIP <= t <= FRC_ACL_DP
  }

  /** Every rule has an index and a type in range, and no two have one index. */
  ghost predicate RuleList(order: seq<Rule>) {
    (forall i | 0 <= i < |order| :: GoodIndex(order[i].index) && GoodType(order[i].aclType)) &&
    forall i, j | 0 <= i < j < |order| :: order[i].index != order[j].index
  }

  /** Where in the list a rule index stands; the length when it does not. */
  function PlaceOf(order: seq<Rule>, index: nat): (k: nat)
    ensures k <= |order|
    ensures k < |order| ==> order[k].index == index
    ensures forall i | 0 <= i < k :: order[i].index != index
  {
    if order == [] || order[0].index == index then 0 else 1 + PlaceOf(order[1..], index)
  }

  predicate Has(order: seq<Rule>, index: nat) {
    PlaceOf(order, index) < |order|
  }

  function Deleted(order: seq<Rule>, index: nat): seq<Rule> {
    var k := PlaceOf(order, index);
    if k < |order| then order[..k] + order[k + 1..] else order
  }

  function Updated(order: seq<Rule>, r: Rule): seq<Rule> {
    Deleted(order, r.index) + [r]
  }

  lemma PlaceIs(order: seq<Rule>, k: nat)
    requires RuleList(order) && k < |order|
    ensures PlaceOf(order, order[k].index) == k
  {
    var p := PlaceOf(order, order[k].index);
    assert p <= k;
  }

  /** Deleting closes the gap: every other rule stays, in the same order. */
  lemma DeletedAt(order: seq<Rule>, index: nat)
    requires RuleList(order)
    ensures |Deleted(order, index)| == |order| - if Has(order, index) then 1 else 0
    ensures forall j | 0 <= j < |Deleted(order, index)| ::
      Deleted(order, index)[j] == order[if j < PlaceOf(order, index) then j else j + 1] &&
      Deleted(order, index)[j].index != index
  {
    hide PlaceOf, RuleList;
    var e, k := Deleted(order, index), PlaceOf(order, index);
    forall j | 0 <= j < |e|
      ensures e[j] == order[if j < k then j else j + 1] && e[j].index != index
    {
      OnceOnly(order, index, if j < k then j else j + 1);
    }
  }

  /** An index stands in one place only. */
  lemma OnceOnly(order: seq<Rule>, index: nat, j: nat)
    requires RuleList(order) && j < |order| && j != PlaceOf(order, index)
    ensures order[j].index != index
  {
    hide PlaceOf;
  }

  lemma DeletedList(order: seq<Rule>, index: nat)
    requires RuleList(order)
    ensures RuleList(Deleted(order, index)) && !Has(Deleted(order, index), index)
  {
    hide Deleted;
    DeletedAt(order, index);
  }

  lemma DeletedOther(order: seq<Rule>, index: nat, i: nat)
    requires RuleList(order) && i != index
    ensures Has(Deleted(order, index), i) <==> Has(order, i)
    ensures Has(order, i) ==> Deleted(order, index)[PlaceOf(Deleted(order, index), i)] == order[PlaceOf(order, i)]
  {
    hide Deleted, PlaceOf, RuleList;
    DeletedAt(order, index);
    DeletedList(order, index);
    var e, k := Deleted(order, index), PlaceOf(order, index);
    if Has(order, i) {
      var p := PlaceOf(order, i);
      PlaceIs(e, if p < k then p else p - 1);
    }
  }

  lemma UpdatedList(order: seq<Rule>, r: Rule)
    requires RuleList(order) && GoodIndex(r.index) && GoodType(r.aclType)
    ensures RuleList(Updated(order, r)) && PlaceOf(Updated(order, r), r.index) == |Updated(order, r)| - 1
  {
    hide Deleted, PlaceOf;
    DeletedAt(order, r.index);
    DeletedList(order, r.index);
    PlaceIs(Updated(order, r), |Deleted(order, r.index)|);
  }

  lemma UpdatedOther(order: seq<Rule>, r: Rule, i: nat)
    requires RuleList(order) && GoodIndex(r.index) && GoodType(r.aclType) && i != r.index
    ensures Has(Updated(order, r), i) <==> Has(order, i)
    ensures Has(order, i) ==> Updated(order, r)[PlaceOf(Updated(order, r), i)] == order[PlaceOf(order, i)]
  {
    hide Deleted, PlaceOf, RuleList;
    DeletedOther(order, r.index, i);
    UpdatedList(order, r);
    var d, e := Deleted(order, r.index), Updated(order, r);
    if Has(d, i) {
      PlaceIs(e, PlaceOf(d, i));
    }
  }

  // Lookup

  /** The first rule of a type for a value and a protocol: its index, or 0. */
  function FindIn(order: seq<Rule>, aclType: nat, value: nat, proto: nat): nat {
    if order == [] then 0
    else if order[0].aclType == aclType && order[0].oneTuple == value && order[0].proto == proto then order[0].index
    else FindIn(order[1..], aclType, value, proto)
  }

  function ValueOf(t: Filters.Tuple, aclType: nat): nat {
    if aclType == 1 then t.sip else if aclType == 2 then t.dip else if aclType == 3 then t.sp else t.dp
  }

  /** Source address, destination address, source port, destination port: the first that finds. */
  function FindFrom(order: seq<Rule>, t: Filters.Tuple, aclType: nat): nat
    decreases 5 - aclType
  {
    if aclType > FRC_ACL_DP then 0
    else
      var found := FindIn(order, aclType, ValueOf(t, aclType), t.proto);
      if found != 0 then found else FindFrom(order, t, aclType + 1)
  }

  /** A rule names one field of a packet, by its type, and the protocol. */
  ghost predicate Matches(r: Rule, t: Filters.Tuple) {
    r.proto == t.proto &&
    (r.aclType == FRC_ACL_SIP ==> r.oneTuple == t.sip) && (r.aclType == FRC_ACL_DIP ==> r.oneTuple == t.dip) &&
    (r.aclType == FRC_ACL_SP ==> r.oneTuple == t.sp) && (r.aclType == FRC_ACL_DP ==> r.oneTuple == t.dp)
  }

  lemma {:induction false} FindInFirst(order: seq<Rule>, t: Filters.Tuple, aclType: nat)
    requires RuleList(order)
    ensures var found := FindIn(order, aclType, ValueOf(t, aclType), t.proto);
      if found == 0 then forall i | 0 <= i < |order| && order[i].aclType == aclType :: !Matches(order[i], t)
      else Has(order, found) &&
           var k := PlaceOf(order, found);
           order[k].aclType == aclType && Matches(order[k], t) &&
           forall i | 0 <= i < k && order[i].aclType == aclType :: !Matches(order[i], t)
  {
    if order != [] {
      if order[0].aclType == aclType && order[0].oneTuple == ValueOf(t, aclType) && order[0].proto == t.proto {
        PlaceIs(order, 0);
      } else {
        assert forall i | 0 <= i < |order[1..]| :: order[1..][i] == order[i + 1];
        FindInFirst(order[1..], t, aclType);
        var found := FindIn(order, aclType, ValueOf(t, aclType), t.proto);
        if found != 0 {
          PlaceIs(order, PlaceOf(order[1..], found) + 1);
        }
      }
    }
  }

  /** The rule a packet finds: no rule of an earlier type matches, and of its own type it is the
      least recently set that does. Nothing is found exactly when nothing matches. */
  lemma {:induction false} FindFromExact(order: seq<Rule>, t: Filters.Tuple, aclType: nat)
    requires RuleList(order) && aclType >= 1
    ensures var found := FindFrom(order, t, aclType);
      if found == 0 then forall i | 0 <= i < |order| && order[i].aclType >= aclType :: !Matches(order[i], t)
      else Has(order, found) &&
           var k := PlaceOf(order, found);
           order[k].aclType >= aclType && Matches(order[k], t) &&
           (forall i | 0 <= i < |order| && aclType <= order[i].aclType < order[k].aclType :: !Matches(order[i], t)) &&
           forall i | 0 <= i < k && order[i].aclType == order[k].aclType :: !Matches(order[i], t)
    decreases 5 - aclType
  {
    if aclType <= FRC_ACL_DP {
      FindInFirst(order, t, aclType);
      FindFromExact(order, t, aclType + 1);
    } else {
      assert forall i | 0 <= i < |order| :: GoodType(order[i].aclType);
    }
  }

  // Buckets

  /** Any hash of a value and a protocol; the index keeps its low eleven bits. */
  type Hash = (nat, nat) -> nat

  function HashOf(hash: Hash, value: nat, proto: nat): (h: nat)
    ensures h < FRCORE_MAX_FILTERS
  {
    hash(value, proto) % FRCORE_MAX_FILTERS
  }

  function Bucket(aclType: nat, h: nat): (b: int)
    ensures GoodType(aclType) && h < FRCORE_MAX_FILTERS ==> 0 <= b < 4 * FRCORE_MAX_FILTERS
  {
    FRCORE_MAX_FILTERS * (aclType - 1) + h
  }

  function BucketOf(hash: Hash, r: Rule): (b: int)
    ensures GoodType(r.aclType) ==> 0 <= b < 4 * FRCORE_MAX_FILTERS
  {
    Bucket(r.aclType, HashOf(hash, r.oneTuple, r.proto))
  }

  /** The indexes of the rules of one bucket, the least recently set first. */
  ghost function Members(hash: Hash, order: seq<Rule>, b: int): seq<nat> {
    if order == [] then []
    else if BucketOf(hash, order[0]) == b then [order[0].index] + Members(hash, order[1..], b)
    else Members(hash, order[1..], b)
  }

  lemma {:induction false} MembersConcat(hash: Hash, a: seq<Rule>, c: seq<Rule>, b: int)
    ensures Members(hash, a + c, b) == Members(hash, a, b) + Members(hash, c, b)
  {
    hide BucketOf;
    if a == [] {
      assert a + c == c;
    } else {
      assert (a + c)[0] == a[0] && (a + c)[1..] == a[1..] + c;
      MembersConcat(hash, a[1..], c, b);
    }
  }

  lemma MembersOne(hash: Hash, r: Rule, b: int)
    ensures Members(hash, [r], b) == if BucketOf(hash, r) == b then [r.index] else []
  {
    assert [r][1..] == [];
  }

  lemma {:induction false} MembersFrom(hash: Hash, order: seq<Rule>, b: int)
    ensures forall x | x in Members(hash, order, b) :: exists i | 0 <= i < |order| :: order[i].index == x && BucketOf(hash, order[i]) == b
  {
    if order != [] {
      MembersFrom(hash, order[1..], b);
      forall x | x in Members(hash, order, b)
        ensures exists i | 0 <= i < |order| :: order[i].index == x && BucketOf(hash, order[i]) == b
      {
        if x in Members(hash, order[1..], b) {
          var i :| 0 <= i < |order[1..]| && order[1..][i].index == x && BucketOf(hash, order[1..][i]) == b;
          assert order[i + 1].index == x && BucketOf(hash, order[i + 1]) == b;
        } else {
          assert order[0].index == x && BucketOf(hash, order[0]) == b;
        }
      }
    }
  }

  /** Where a value stands in a list; the length when it does not. */
  function IndexIn(list: seq<nat>, x: nat): (k: nat)
    ensures k <= |list| && (k < |list| ==> list[k] == x) && forall i | 0 <= i < k :: list[i] != x
  {
    if list == [] || list[0] == x then 0 else 1 + IndexIn(list[1..], x)
  }

  /** Deleting a rule takes its index out of its own bucket and leaves every other bucket alone. */
  lemma DeletedMembers(hash: Hash, order: seq<Rule>, index: nat, b: int)
    requires RuleList(order) && Has(order, index)
    ensures
      var list := Members(hash, order, b);
      var k := IndexIn(list, index);
      if BucketOf(hash, order[PlaceOf(order, index)]) == b
      then k < |list| && Members(hash, Deleted(order, index), b) == list[..k] + list[k + 1..]
      else Members(hash, Deleted(order, index), b) == list
  {
    hide Members, BucketOf, RuleList, PlaceOf;
    var p := PlaceOf(order, index);
    var r := order[p];
    assert order == order[..p] + ([r] + order[p + 1..]);
    MembersConcat(hash, order[..p], [r] + order[p + 1..], b);
    MembersConcat(hash, [r], order[p + 1..], b);
    MembersConcat(hash, order[..p], order[p + 1..], b);
    MembersOne(hash, r, b);
    if BucketOf(hash, r) == b {
      var list, m := Members(hash, order, b), Members(hash, order[..p], b);
      assert list[|m|] == index;
      MembersFrom(hash, order[..p], b);
      assert index !in m;
      assert forall i | 0 <= i < |m| :: list[i] == m[i];
      assert IndexIn(list, index) == |m|;
    }
  }

  lemma UpdatedMembers(hash: Hash, order: seq<Rule>, r: Rule, b: int)
    ensures Members(hash, Updated(order, r), b) ==
      Members(hash, Deleted(order, r.index), b) + if BucketOf(hash, r) == b then [r.index] else []
  {
    MembersConcat(hash, Deleted(order, r.index), [r], b);
    MembersOne(hash, r, b);
  }

  /** The depths of the first n buckets together. */
  ghost function Depths(hash: Hash, order: seq<Rule>, n: nat): nat {
    if n == 0 then 0 else Depths(hash, order, n - 1) + |Members(hash, order, n - 1)|
  }

  lemma {:induction false} DepthsNext(hash: Hash, order: seq<Rule>, n: nat)
    requires order != [] && BucketOf(hash, order[0]) >= 0
    ensures Depths(hash, order, n) == Depths(hash, order[1..], n) + if BucketOf(hash, order[0]) < n then 1 else 0
  {
    hide BucketOf;
    if n > 0 {
      DepthsNext(hash, order, n - 1);
    }
  }

  /** Every rule is in one bucket and one only: the depths add up to the number of rules. */
  lemma {:induction false} DepthsAddUp(hash: Hash, order: seq<Rule>)
    requires forall i | 0 <= i < |order| :: GoodType(order[i].aclType)
    ensures Depths(hash, order, 4 * FRCORE_MAX_FILTERS) == |order|
  {
    if order == [] {
      DepthsNone(hash, 4 * FRCORE_MAX_FILTERS);
    } else {
      DepthsNext(hash, order, 4 * FRCORE_MAX_FILTERS);
      assert forall i | 0 <= i < |order[1..]| :: order[1..][i] == order[i + 1];
      DepthsAddUp(hash, order[1..]);
    }
  }

  lemma {:induction false} DepthsNone(hash: Hash, n: nat)
    ensures Depths(hash, [], n) == 0
  {
    if n > 0 {
      DepthsNone(hash, n - 1);
    }
  }

  /** No more rules than indexes, so a cell pool of that many always has one for a new rule. */
  lemma {:induction false} FewRules(order: seq<Rule>, bound: nat)
    requires forall i | 0 <= i < |order| :: 1 <= order[i].index <= bound
    requires forall i, j | 0 <= i < j < |order| :: order[i].index != order[j].index
    ensures |order| <= bound
  {
    if order != [] {
      assert 1 <= order[0].index <= bound;
      var k := PlaceOf(order, bound);
      if k < |order| {
        var rest := order[..k] + order[k + 1..];
        assert forall j | 0 <= j < |rest| :: rest[j] == order[if j < k then j else j + 1];
        FewRules(rest, bound - 1);
      } else {
        FewRules(order, bound - 1);
      }
    }
  }

  /** The first match in a rule's bucket is the first match in the whole list. */
  ghost function FirstIn(order: seq<Rule>, list: seq<nat>, value: nat, proto: nat): nat {
    if list == [] then 0
    else if Has(order, list[0]) && order[PlaceOf(order, list[0])].oneTuple == value && order[PlaceOf(order, list[0])].proto == proto
    then list[0]
    else FirstIn(order, list[1..], value, proto)
  }

  lemma {:induction false} BucketFinds(hash: Hash, order: seq<Rule>, k: nat, aclType: nat, value: nat, proto: nat)
    requires RuleList(order) && GoodType(aclType) && k <= |order|
    ensures FirstIn(order, Members(hash, order[k..], Bucket(aclType, HashOf(hash, value, proto))), value, proto) ==
      FindIn(order[k..], aclType, value, proto)
    decreases |order| - k
  {
    hide PlaceOf;
    if k < |order| {
      BucketFinds(hash, order, k + 1, aclType, value, proto);
      PlaceIs(order, k);
      var b := Bucket(aclType, HashOf(hash, value, proto));
      assert order[k..][0] == order[k] && order[k..][1..] == order[k + 1..];
      var rest := Members(hash, order[k + 1..], b);
      if BucketOf(hash, order[k]) == b {
        BucketType(aclType, order[k].aclType, HashOf(hash, value, proto), HashOf(hash, order[k].oneTuple, order[k].proto));
        assert Members(hash, order[k..], b) == [order[k].index] + rest && ([order[k].index] + rest)[1..] == rest;
      } else {
        assert Members(hash, order[k..], b) == rest;
      }
    }
  }

  lemma BucketType(t: nat, u: nat, g: nat, h: nat)
    requires g < FRCORE_MAX_FILTERS && h < FRCORE_MAX_FILTERS && Bucket(t, g) == Bucket(u, h)
    ensures t == u && g == h
  {
  }

  // Histories

  datatype Command = Set(rule: Rule) | Delete(index: nat)
  {
    function Index(): nat {
      if Set? then rule.index else index
    }
  }

  predicate GoodCommand(c: Command) {
    GoodIndex(c.Index()) && (c.Set? ==> GoodType(c.rule.aclType))
  }

  ghost predicate GoodHistory(history: seq<Command>) {
    forall i | 0 <= i < |history| :: GoodCommand(history[i])
  }

  ghost function Applied(order: seq<Rule>, c: Command): seq<Rule> {
    if c.Set? then Updated(order, c.rule) else Deleted(order, c.index)
  }

  /** The rules that a history of commands leaves. */
  ghost function Order(history: seq<Command>): seq<Rule> {
    if history == [] then [] else Applied(Order(history[..|history| - 1]), history[|history| - 1])
  }

  /** Command k set a rule, and none after it was about the rule's index. */
  ghost predicate Current(history: seq<Command>, k: nat) {
    k < |history| && history[k].Set? && forall j | k < j < |history| :: history[j].Index() != history[k].rule.index
  }

  /** What a packet should find: among the rules set last, one that matches and is of the earliest
      type that does, and the least recently set of these; 0 when none matches. */
  ghost predicate Finds(history: seq<Command>, t: Filters.Tuple, index: nat) {
    if index == 0 then forall k: nat | Current(history, k) :: !Matches(history[k].rule, t)
    else exists m: nat :: Current(history, m) && history[m].rule.index == index && FirstMatching(history, t, m)
  }

  ghost predicate FirstMatching(history: seq<Command>, t: Filters.Tuple, m: nat)
    requires Current(history, m)
  {
    Matches(history[m].rule, t) &&
    forall k: nat | Current(history, k) && Matches(history[k].rule, t) ::
      history[m].rule.aclType < history[k].rule.aclType || (history[m].rule.aclType == history[k].rule.aclType && m <= k)
  }

  lemma CurrentIs(history: seq<Command>, index: nat)
    ensures
      var k := LastAbout(history, index);
      k >= 0 && history[k].Set? ==> Current(history, k) && history[k].rule.index == index
    ensures forall k: nat | Current(history, k) && history[k].rule.index == index :: LastAbout(history, index) == k
  {
  }

  /** The last command about an index; -1 when there is none. */
  ghost function LastAbout(history: seq<Command>, index: nat): (k: int)
    ensures -1 <= k < |history|
    ensures k >= 0 ==> history[k].Index() == index
    ensures forall i | k < i < |history| :: history[i].Index() != index
  {
    if history == [] then -1
    else if history[|history| - 1].Index() == index then |history| - 1
    else LastAbout(history[..|history| - 1], index)
  }

  /** The list holds exactly the indexes whose last command set them, with the rule that command
      gave, in the order in which they were last set. */
  ghost predicate Exact(history: seq<Command>, order: seq<Rule>) {
    (forall index: nat :: Has(order, index) <==> LastAbout(history, index) >= 0 && history[LastAbout(history, index)].Set?) &&
    (forall i | 0 <= i < |order| :: LastSet(history, order[i])) &&
    forall i, j | 0 <= i < j < |order| :: LastAbout(history, order[i].index) < LastAbout(history, order[j].index)
  }

  /** The last command about a rule's index is the one that set just that rule. */
  ghost predicate LastSet(history: seq<Command>, r: Rule) {
    LastAbout(history, r.index) >= 0 && history[LastAbout(history, r.index)] == Set(r)
  }

  lemma LastAboutNext(history: seq<Command>, c: Command, index: nat)
    ensures LastAbout(history + [c], index) == if index == c.Index() then |history| else LastAbout(history, index)
  {
    assert (history + [c])[..|history|] == history;
  }

  lemma DeletedExact(history: seq<Command>, order: seq<Rule>, c: Command)
    requires RuleList(order) && Exact(history, order)
    ensures forall index: nat | index != c.Index() ::
      Has(Deleted(order, c.Index()), index) <==>
      LastAbout(history + [c], index) >= 0 && (history + [c])[LastAbout(history + [c], index)].Set?
    ensures var e := Deleted(order, c.Index());
      (forall i | 0 <= i < |e| :: e[i].index != c.Index() && LastSet(history + [c], e[i])) &&
      (forall i, j | 0 <= i < j < |e| :: LastAbout(history + [c], e[i].index) < LastAbout(history + [c], e[j].index)) &&
      forall i | 0 <= i < |e| :: LastAbout(history + [c], e[i].index) < |history|
  {
    hide Deleted, PlaceOf, RuleList, LastAbout;
    var e := Deleted(order, c.Index());
    DeletedAt(order, c.Index());
    forall index: nat | index != c.Index()
      ensures Has(e, index) <==>
        LastAbout(history + [c], index) >= 0 && (history + [c])[LastAbout(history + [c], index)].Set?
    {
      DeletedOther(order, c.Index(), index);
      LastAboutNext(history, c, index);
    }
    forall i | 0 <= i < |e|
      ensures LastSet(history + [c], e[i]) && LastAbout(history + [c], e[i].index) == LastAbout(history, e[i].index)
    {
      LastAboutNext(history, c, e[i].index);
      assert LastSet(history, e[i]);
    }
  }

  lemma AppliedExact(history: seq<Command>, order: seq<Rule>, c: Command)
    requires RuleList(order) && Exact(history, order) && GoodCommand(c)
    ensures RuleList(Applied(order, c)) && Exact(history + [c], Applied(order, c))
  {
    hide Deleted, PlaceOf, RuleList, LastAbout;
    DeletedExact(history, order, c);
    DeletedList(order, c.Index());
    LastAboutNext(history, c, c.Index());
    if c.Set? {
      UpdatedList(order, c.rule);
      forall index: nat | index != c.Index()
        ensures Has(Updated(order, c.rule), index) <==> Has(Deleted(order, c.Index()), index)
      {
        DeletedOther(order, c.Index(), index);
        UpdatedOther(order, c.rule, index);
      }
    }
  }

  /** After any history of commands the rule list is exact. */
  lemma {:induction false} OrderExact(history: seq<Command>)
    requires GoodHistory(history)
    ensures RuleList(Order(history)) && Exact(history, Order(history))
  {
    hide Exact, RuleList, Applied;
    if history == [] {
      NoneExact();
    } else {
      var n := |history| - 1;
      assert forall i | 0 <= i < n :: history[..n][i] == history[i];
      OrderExact(history[..n]);
      assert history[..n] + [history[n]] == history;
      AppliedExact(history[..n], Order(history[..n]), history[n]);
    }
  }

  lemma NoneExact()
    ensures RuleList([]) && Exact([], [])
  {
  }
}
