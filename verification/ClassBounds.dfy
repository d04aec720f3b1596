/** How many classes the four-phase tables need, from the values that the rules name: a bound that an
    operator can work out before compiling. */
module ClassBounds {
  import opened Bitmaps
  import opened EqClasses
  import opened Filters
  import opened Sweep
  import opened Classifier
  import opened RuleHistory
  import opened RuleTable
  import opened RuleBatch
  import opened FiniteSets

  // The rules of a field by the value they name

  const SIP: nat := 0
  const DIP: nat := 1
  const PROTO: nat := 4

  /** The five fields of a rule. */
  function KeyField(k: RuleKey, f: nat): nat {
    if f == SIP then k.sip else if f == DIP then k.dip else if f == 2 then k.sp else if f == 3 then k.dp else k.proto
  }

  /** The rule field that a sweep is about. */
  function FieldOf(com: nat): nat {
    if com < 2 then SIP else if com < 4 then DIP else com - 2
  }

  /** What the sweep sees of a value: a half of an address, or all of it. */
  function Part(com: nat, x: nat): nat {
    if com == 0 || com == 2 then x / 0x1_0000 else if com == 1 || com == 3 then x % 0x1_0000 else x
  }

  ghost function Active(m: map<int, Policy>): (tags: set<int>)
    ensures forall tag :: tag in tags <==> tag in m && m[tag].state == ACL_ENABLE
  {
    set tag | tag in m && m[tag].state == ACL_ENABLE
  }

  /** The distinct values, not counting zero, that the enabled rules give a field. */
  ghost function Values(m: map<int, Policy>, f: nat): set<nat> {
    set tag | tag in Active(m) && Named(m, f, tag) != 0 :: Named(m, f, tag)
  }

  function Named(m: map<int, Policy>, f: nat, tag: int): nat {
    if tag in m then KeyField(m[tag].key, f) else 0
  }

  /** What the enabled rule in a slot gives the field. */
  ghost predicate Gives(s: Snapshot, m: map<int, Policy>, i: nat, f: nat, x: nat)
    requires s.Valid()
  {
    i < s.num && s.slots[i].state == ACL_ENABLE && s.slots[i].cost in m && KeyField(m[s.slots[i].cost].key, f) == x
  }

  /** The rules that leave a field open. */
  ghost function Wild(s: Snapshot, m: map<int, Policy>, f: nat): (r: RuleSet)
    requires s.Valid()
    ensures forall i: nat :: i in r <==> Gives(s, m, i, f, 0)
  {
    set i: nat | i < s.num && Gives(s, m, i, f, 0)
  }

  /** The rules that take a value of the field. */
  ghost function Taking(s: Snapshot, m: map<int, Policy>, f: nat, x: nat): (r: RuleSet)
    requires s.Valid()
    ensures forall i: nat :: i in r <==> Gives(s, m, i, f, 0) || Gives(s, m, i, f, x)
  {
    set i: nat | i < s.num && (Gives(s, m, i, f, 0) || Gives(s, m, i, f, x))
  }

  lemma SlotDims(s: Snapshot, m: map<int, Policy>, i: nat)
    requires s.Valid() && Holds(s.slots[..s.num], m) && i < s.num
    ensures s.slots[i].cost in m && s.slots[i].dim == DimsOf(m[s.slots[i].cost].key)
    ensures s.slots[i].state == m[s.slots[i].cost].state
    ensures s.slots[i].state == ACL_ENABLE ==> forall com: nat | com < 7 :: Sweepable(s.slots[i].dim[com])
  {
    hide DimsOf;
    HeldRulesSweepable(s, m);
    var live := s.slots[..s.num];
    assert live[i] == s.slots[i];
  }

  lemma DimsContain(k: RuleKey, com: nat, v: nat)
    requires com < 7 && v < POINTS
    ensures Contains(DimsOf(k)[com], v) <==>
      var x := KeyField(k, FieldOf(com));
      if x == 0 then com == 6 ==> v <= 255 else Part(com, x) == v
  {
  }

  /** An enabled rule is open at a value when it leaves the field open or names that value there. */
  lemma RowSays(s: Snapshot, m: map<int, Policy>, com: nat, v: nat, i: nat)
    requires s.Valid() && Holds(s.slots[..s.num], m) && com < 7 && v < POINTS
    ensures i in SweepSet(s, com, v) <==>
      (Gives(s, m, i, FieldOf(com), 0) && (com == 6 ==> v <= 255)) ||
      exists x: nat :: x != 0 && Gives(s, m, i, FieldOf(com), x) && Part(com, x) == v
  {
    hide Holds, DimsOf, KeyField, FieldOf, Part;
    if i < s.num && s.slots[i].state == ACL_ENABLE {
      SlotDims(s, m, i);
      var k := m[s.slots[i].cost].key;
      DimsContain(k, com, v);
      SweepBitClosedForm(s.slots[i].dim[com], v);
      assert Gives(s, m, i, FieldOf(com), KeyField(k, FieldOf(com)));
    }
  }

  lemma GivenIsValue(s: Snapshot, m: map<int, Policy>, i: nat, f: nat, x: nat)
    requires s.Valid() && Holds(s.slots[..s.num], m) && Gives(s, m, i, f, x) && x != 0
    ensures x in Values(m, f)
  {
    hide Holds, DimsOf, KeyField;
    SlotDims(s, m, i);
    assert s.slots[i].cost as int in Active(m);
  }

  // Bounds on the classes

  /** Rows that are all images of a few values, or among a few more. */
  lemma ClassesWithin(rows: seq<RuleSet>, xs: set<nat>, g: nat -> RuleSet, rest: set<RuleSet>)
    requires forall z | z in rows :: z in rest || exists x :: x in xs && z == g(x)
    ensures |Uniq(rows)| <= |xs| + |rest|
  {
    hide Uniq;
    var image := set x | x in xs :: g(x);
    ImageBound(xs, image, g);
    UniqSound(rows);
    DistinctCard(Uniq(rows), image + rest);
  }

  /** Where no rule's value is, the rows are the rules that leave the field open, if any. */
  lemma RestRow(s: Snapshot, m: map<int, Policy>, com: nat, v: nat)
    requires s.Valid() && Holds(s.slots[..s.num], m) && com < 7 && v < POINTS
    requires forall x | x in Values(m, FieldOf(com)) :: Part(com, x) != v
    ensures SweepSet(s, com, v) == if com == 6 && v > 255 then {} else Wild(s, m, FieldOf(com))
  {
    hide Holds, SweepSet, Values, Part, Gives, FieldOf;
    forall i: nat
      ensures i in SweepSet(s, com, v) <==> i in Wild(s, m, FieldOf(com)) && (com == 6 ==> v <= 255)
    {
      RowSays(s, m, com, v, i);
      if x: nat :| x != 0 && Gives(s, m, i, FieldOf(com), x) && Part(com, x) == v {
        GivenIsValue(s, m, i, FieldOf(com), x);
      }
    }
  }

  /** The rules open where a value is. */
  ghost function OpenAt(s: Snapshot, com: nat, x: nat): RuleSet
    requires s.Valid() && com < 7
  {
    SweepSet(s, com, Part(com, x))
  }

  lemma EachRow(s: Snapshot, m: map<int, Policy>, com: nat, z: RuleSet)
    requires s.Valid() && Holds(s.slots[..s.num], m) && com < 7 && z in SweepRows(s, com, POINTS)
    ensures z == Wild(s, m, FieldOf(com)) || (com == 6 && z == {}) ||
      exists x :: x in Values(m, FieldOf(com)) && z == OpenAt(s, com, x)
  {
    hide Holds, SweepSet, Values, Part, Wild, FieldOf;
    var v :| 0 <= v < POINTS && SweepRows(s, com, POINTS)[v] == z;
    if x :| x in Values(m, FieldOf(com)) && Part(com, x) == v {
      assert z == OpenAt(s, com, x);
    } else {
      RestRow(s, m, com, v);
    }
  }

  /** A field has a class for each value, one more for the rest, and for the protocol one for the
      numbers past 255. */
  lemma FieldBound(s: Snapshot, m: map<int, Policy>, com: nat)
    requires s.Valid() && Holds(s.slots[..s.num], m) && com < 7
    ensures |Classes0(s, com)| <= |Values(m, FieldOf(com))| + if com == 6 then 2 else 1
  {
    hide Holds, SweepRows, SweepSet, Uniq, Values, OpenAt, Wild, FieldOf;
    forall z | z in SweepRows(s, com, POINTS)
      ensures z == Wild(s, m, FieldOf(com)) || (com == 6 && z == {}) ||
        exists x :: x in Values(m, FieldOf(com)) && z == OpenAt(s, com, x)
    {
      EachRow(s, m, com, z);
    }
    ClassesWithin(SweepRows(s, com, POINTS), Values(m, FieldOf(com)), (x: nat) => OpenAt(s, com, x),
                  if com == 6 then {Wild(s, m, FieldOf(com)), {}} else {Wild(s, m, FieldOf(com))});
  }

  /** A field's values are no more than the rules that name one. */
  lemma ValuesBound(m: map<int, Policy>, f: nat)
    ensures |Values(m, f)| <= |m.Keys|
    ensures (exists tag :: tag in Active(m) && Named(m, f, tag) == 0) ==> |Values(m, f)| < |m.Keys|
  {
    hide Named;
    var naming := set tag | tag in Active(m) && Named(m, f, tag) != 0;
    var name := (tag: int) => Named(m, f, tag);
    var image := set tag | tag in naming :: name(tag);
    ImageBound(naming, image, name);
    forall x | x in Values(m, f)
      ensures x in image
    {
      var tag :| tag in Active(m) && Named(m, f, tag) != 0 && Named(m, f, tag) == x;
      assert tag in naming && name(tag) == x;
    }
    SubsetCard(Values(m, f), image);
    SubsetCard(naming, m.Keys);
    if tag :| tag in Active(m) && Named(m, f, tag) == 0 {
      SubsetCard(naming + {tag}, m.Keys);
    }
  }

  /** Phase 0 fits the class list whatever rules are in force, as long as a slot is left. */
  lemma PhaseZeroFits(s: Snapshot, m: map<int, Policy>, com: nat)
    requires s.Valid() && Holds(s.slots[..s.num], m) && com < 7
    ensures |Classes0(s, com)| <= s.num + 1
  {
    hide Holds, SweepRows, SweepSet, Uniq, Values, OpenAt, FieldOf, KeyField;
    HeldCount(s.slots[..s.num], m);
    FieldBound(s, m, com);
    ValuesBound(m, FieldOf(com));
    var f := FieldOf(com);
    if i: nat :| Gives(s, m, i, f, 0) {
      SlotDims(s, m, i);
      assert s.slots[i].cost as int in Active(m);
    } else {
      NoWildBound(s, m, com);
    }
  }

  lemma NoWildBound(s: Snapshot, m: map<int, Policy>, com: nat)
    requires s.Valid() && Holds(s.slots[..s.num], m) && com < 7 && forall i: nat :: !Gives(s, m, i, FieldOf(com), 0)
    ensures |Classes0(s, com)| <= |Values(m, FieldOf(com))| + 1
  {
    hide Holds, SweepRows, SweepSet, Uniq, Values, OpenAt, Wild, FieldOf, Gives;
    assert Wild(s, m, FieldOf(com)) == {};
    forall z | z in SweepRows(s, com, POINTS)
      ensures z == {} || exists x :: x in Values(m, FieldOf(com)) && z == OpenAt(s, com, x)
    {
      EachRow(s, m, com, z);
    }
    ClassesWithin(SweepRows(s, com, POINTS), Values(m, FieldOf(com)), (x: nat) => OpenAt(s, com, x), {{}});
  }

  lemma {:induction false} CrossMember(aa: seq<RuleSet>, bs: seq<RuleSet>, z: RuleSet) returns (a: RuleSet, b: RuleSet)
    requires z in Cross(aa, bs)
    ensures a in aa && b in bs && z == a * b
  {
    var init, last := aa[..|aa| - 1], aa[|aa| - 1];
    if z in Cross(init, bs) {
      a, b := CrossMember(init, bs, z);
    } else {
      var j :| 0 <= j < |bs| && CrossRow(last, bs)[j] == z;
      a, b := last, bs[j];
    }
  }

  /** Both halves of an address together single out the rules that take the address. */
  lemma HalvesMeet(s: Snapshot, m: map<int, Policy>, h: nat, u: nat, v: nat)
    requires s.Valid() && Holds(s.slots[..s.num], m) && h < 2 && u < POINTS && v < POINTS
    ensures SweepSet(s, 2 * h, u) * SweepSet(s, 2 * h + 1, v) == Taking(s, m, h, u * POINTS + v)
  {
    hide Holds, SweepSet, Taking, KeyField;
    var both, taking := SweepSet(s, 2 * h, u) * SweepSet(s, 2 * h + 1, v), Taking(s, m, h, u * POINTS + v);
    forall i: nat
      ensures i in both <==> i in taking
    {
      RowSays(s, m, 2 * h, u, i);
      RowSays(s, m, 2 * h + 1, v, i);
    }
  }

  lemma AddressRow(s: Snapshot, m: map<int, Policy>, h: nat, z: RuleSet)
    requires s.Valid() && Holds(s.slots[..s.num], m) && h < 2 && z in Rows1(s, h)
    ensures z == Wild(s, m, h) || exists x :: x in Values(m, h) && z == Taking(s, m, h, x)
  {
    hide Holds, SweepSet, Taking, Values, Classes0, Gives;
    var a, b := CrossMember(Classes0(s, 2 * h), Classes0(s, 2 * h + 1), z);
    var u := ClassHasRow(s, 2 * h, a);
    var v := ClassHasRow(s, 2 * h + 1, b);
    HalvesMeet(s, m, h, u, v);
    var x := u * POINTS + v;
    if x !in Values(m, h) {
      forall i: nat | Gives(s, m, i, h, x) && x != 0
        ensures false
      {
        GivenIsValue(s, m, i, h, x);
      }
      assert forall i: nat :: i in z <==> i in Wild(s, m, h);
    }
  }

  /** An address has a class for each value and one more, though its halves have more in between. */
  lemma AddressBound(s: Snapshot, m: map<int, Policy>, h: nat)
    requires s.Valid() && Holds(s.slots[..s.num], m) && h < 2
    ensures |Uniq(Rows1(s, h))| <= |Values(m, h)| + 1
  {
    hide Holds, Rows1, Uniq, Values, Taking, Wild;
    forall z | z in Rows1(s, h)
      ensures z == Wild(s, m, h) || exists x :: x in Values(m, h) && z == Taking(s, m, h, x)
    {
      AddressRow(s, m, h, z);
    }
    ClassesWithin(Rows1(s, h), Values(m, h), (x: nat) => Taking(s, m, h, x), {Wild(s, m, h)});
  }

  ghost function Meetings(xs: set<RuleSet>, ys: set<RuleSet>): set<RuleSet> {
    set x, y | x in xs && y in ys :: x * y
  }

  ghost function MeetingsOf(x: RuleSet, ys: set<RuleSet>): set<RuleSet> {
    set y | y in ys :: x * y
  }

  lemma MeetingsStep(xs: set<RuleSet>, ys: set<RuleSet>, x: RuleSet)
    requires x in xs
    ensures Meetings(xs, ys) == Meetings(xs - {x}, ys) + MeetingsOf(x, ys)
  {
    forall z
      ensures z in Meetings(xs, ys) <==> z in Meetings(xs - {x}, ys) || z in MeetingsOf(x, ys)
    {
    }
  }

  lemma {:induction false} MeetingsBound(xs: set<RuleSet>, ys: set<RuleSet>)
    ensures |Meetings(xs, ys)| <= |xs| * |ys|
  {
    if xs == {} {
      assert Meetings(xs, ys) == {};
    } else {
      var x :| x in xs;
      MeetingsBound(xs - {x}, ys);
      MeetingsStep(xs, ys, x);
      ImageBound(ys, MeetingsOf(x, ys), (y: RuleSet) => x * y);
      UnionBound(Meetings(xs - {x}, ys), MeetingsOf(x, ys), |xs| - 1, |ys|);
    }
  }

  lemma UnionBound(a: set<RuleSet>, b: set<RuleSet>, m: nat, n: nat)
    requires |a| <= m * n && |b| <= n
    ensures |a + b| <= (m + 1) * n
  {
  }

  lemma PortsBound(s: Snapshot, m: map<int, Policy>)
    requires s.Valid() && Holds(s.slots[..s.num], m)
    ensures |Uniq(Rows1(s, 2))| <= |Rows1(s, 2)| <= (|Values(m, 2)| + 1) * (|Values(m, 3)| + 1)
  {
    hide Holds, Uniq, Values, Cross, SweepRows;
    FieldBound(s, m, 4);
    FieldBound(s, m, 5);
    CrossLength(Classes0(s, 4), Classes0(s, 5));
    UniqSound(Rows1(s, 2));
    ProductBound(|Classes0(s, 4)|, |Values(m, 2)| + 1, |Classes0(s, 5)|, |Values(m, 3)| + 1);
  }

  lemma ProductBound(a: nat, x: nat, b: nat, y: nat)
    requires a <= x && b <= y
    ensures a * b <= x * y
  {
    assert a * b <= x * b <= x * y;
  }

  /** The protocol's classes other than that of no rule. */
  lemma ProtocolBound(s: Snapshot, m: map<int, Policy>, open: set<RuleSet>)
    requires s.Valid() && Holds(s.slots[..s.num], m) && open == set z | z in Classes0(s, 6) && z != {}
    ensures |open| <= |Values(m, PROTO)| + 1
  {
    hide Holds, Uniq, SweepRows, Values, OpenAt, Wild;
    var xs := Values(m, PROTO);
    var image := set x | x in xs :: OpenAt(s, 6, x);
    UniqSound(SweepRows(s, 6, POINTS));
    forall z | z in open
      ensures z in image + {Wild(s, m, PROTO)}
    {
      EachRow(s, m, 6, z);
    }
    ImageBound(xs, image, (x: nat) => OpenAt(s, 6, x));
    SubsetCard(open, image + {Wild(s, m, PROTO)});
  }

  /** The ports and the protocol together: a class for each combination, and one for no rule. */
  lemma TransportBound(s: Snapshot, m: map<int, Policy>)
    requires s.Valid() && Holds(s.slots[..s.num], m)
    ensures |Uniq(Rows2(s, 1))| <= (|Values(m, 2)| + 1) * (|Values(m, 3)| + 1) * (|Values(m, PROTO)| + 1) + 1
  {
    hide Holds, Uniq, Values, Cross, Rows1, Classes0;
    var ports, open := set x | x in Uniq(Rows1(s, 2)), set z | z in Classes0(s, 6) && z != {};
    var all := Meetings(ports, open);
    PortsBound(s, m);
    SeqCard(Uniq(Rows1(s, 2)), ports);
    ProtocolBound(s, m, open);
    MeetingsBound(ports, open);
    UniqSound(Rows2(s, 1));
    forall z | z in Uniq(Rows2(s, 1))
      ensures z in all + {{}}
    {
      var a, b := CrossMember(Uniq(Rows1(s, 2)), Classes0(s, 6), z);
      if b == {} {
        assert z == {};
      } else {
        assert a in ports && b in open;
      }
    }
    DistinctCard(Uniq(Rows2(s, 1)), all + {{}});
    ProductBound(|ports|, (|Values(m, 2)| + 1) * (|Values(m, 3)| + 1), |open|, |Values(m, PROTO)| + 1);
  }

  // What an operator can check

  /** The combinations of values, other values counted as one: of the two addresses. */
  ghost function Addresses(m: map<int, Policy>): nat {
    (|Values(m, SIP)| + 1) * (|Values(m, DIP)| + 1)
  }

  /** And of ports and protocol. */
  ghost function Transports(m: map<int, Policy>): nat {
    (|Values(m, 2)| + 1) * (|Values(m, 3)| + 1) * (|Values(m, PROTO)| + 1)
  }

  lemma FactorsBelow(a: nat, b: nat)
    ensures a + 1 <= (a + 1) * (b + 1) && b + 1 <= (a + 1) * (b + 1)
  {
  }

  lemma AddressesSay(m: map<int, Policy>)
    ensures |Values(m, SIP)| + 1 <= Addresses(m) && |Values(m, DIP)| + 1 <= Addresses(m)
  {
    FactorsBelow(|Values(m, SIP)|, |Values(m, DIP)|);
  }

  lemma TransportsSay(m: map<int, Policy>)
    ensures (|Values(m, 2)| + 1) * (|Values(m, 3)| + 1) <= Transports(m)
    ensures |Values(m, 2)| + 1 <= Transports(m) && |Values(m, 3)| + 1 <= Transports(m)
    ensures |Values(m, PROTO)| + 1 <= Transports(m)
  {
    hide Values;
    FactorsBelow(|Values(m, 2)|, |Values(m, 3)|);
    FactorsBelow((|Values(m, 2)| + 1) * (|Values(m, 3)| + 1) - 1, |Values(m, PROTO)|);
  }

  /** Class lists of the first phase fit. */
  lemma FieldsFit(s: Snapshot, m: map<int, Policy>)
    requires s.Valid() && Holds(s.slots[..s.num], m) && Addresses(m) <= MAX_FILTERS && Transports(m) < MAX_FILTERS
    ensures Phase0Status(s) == Done
  {
    hide Holds, Classes0, Values, Addresses, Transports;
    AddressesSay(m);
    TransportsSay(m);
    forall com: nat | com < 7
      ensures |Classes0(s, com)| <= MAX_FILTERS
    {
      FieldBound(s, m, com);
    }
  }

  /** A product of two class lists. */
  lemma RowsCount(aa: seq<RuleSet>, bs: seq<RuleSet>, a: nat, b: nat)
    requires |aa| <= a && |bs| <= b
    ensures |Uniq(Cross(aa, bs))| <= |Cross(aa, bs)| <= a * b
  {
    hide Uniq, Cross;
    CrossLength(aa, bs);
    UniqSound(Cross(aa, bs));
    ProductBound(|aa|, a, |bs|, b);
  }

  /** Compiling never writes past a class list when the rules' values have few enough combinations. */
  lemma RulesFit(s: Snapshot, m: map<int, Policy>)
    requires s.Valid() && Holds(s.slots[..s.num], m) && Addresses(m) <= MAX_FILTERS && Transports(m) < MAX_FILTERS
    ensures BuildStatus(s) != ListOverrun
  {
    hide Holds, Uniq, Cross, Values, SweepRows, Transports;
    FieldsFit(s, m);
    AddressesSay(m);
    TransportsSay(m);
    AddressBound(s, m, 0);
    AddressBound(s, m, 1);
    PortsBound(s, m);
    RowsCount(Uniq(Rows1(s, 0)), Uniq(Rows1(s, 1)), |Values(m, SIP)| + 1, |Values(m, DIP)| + 1);
    TransportCount(s, m);
  }

  lemma TransportCount(s: Snapshot, m: map<int, Policy>)
    requires s.Valid() && Holds(s.slots[..s.num], m)
    ensures |Uniq(Rows2(s, 1))| <= Transports(m) + 1
  {
    hide Holds, Uniq, Values, Rows2;
    TransportBound(s, m);
  }

  lemma TransportCells(s: Snapshot, m: map<int, Policy>)
    requires s.Valid() && Holds(s.slots[..s.num], m)
    ensures |Rows2(s, 1)| <= 2 * Transports(m)
  {
    hide Holds, Uniq, Cross, Values, Classes0, Rows1;
    var ports, e := (|Values(m, 2)| + 1) * (|Values(m, 3)| + 1), |Values(m, PROTO)|;
    PortsBound(s, m);
    FieldBound(s, m, 6);
    RowsCount(Uniq(Rows1(s, 2)), Classes0(s, 6), ports, e + 2);
    assert ports * (e + 2) == ports * (e + 1) + ports;
    TransportsSay(m);
  }

  /** And it succeeds when the tables' cells are few enough as well. */
  lemma RulesCompile(s: Snapshot, m: map<int, Policy>)
    requires s.Valid() && Holds(s.slots[..s.num], m) && Addresses(m) <= MAX_FILTERS && Transports(m) < MAX_FILTERS
    requires |Values(m, SIP)| < 1000 && |Values(m, DIP)| < 1000
    requires Addresses(m) * (Transports(m) + 1) <= ACL_MAX_CELL
    ensures BuildStatus(s) == Done
  {
    hide Holds, Uniq, Cross, Values, Classes0;
    RulesFit(s, m);
    forall h: nat | h < 2
      ensures |Rows1(s, h)| <= ACL_MAX_CELL
    {
      FieldBound(s, m, 2 * h);
      FieldBound(s, m, 2 * h + 1);
      RowsCount(Classes0(s, 2 * h), Classes0(s, 2 * h + 1), 1000, 1000);
    }
    AddressBound(s, m, 0);
    AddressBound(s, m, 1);
    PortsBound(s, m);
    TransportsSay(m);
    RowsCount(Uniq(Rows1(s, 0)), Uniq(Rows1(s, 1)), |Values(m, SIP)| + 1, |Values(m, DIP)| + 1);
    TransportCells(s, m);
    TransportCount(s, m);
    RowsCount(Uniq(Rows2(s, 0)), Uniq(Rows2(s, 1)), Addresses(m), Transports(m) + 1);
  }

  /** What an operator can work out from the commands before compiling. */
  lemma CommandsFit(engine: RuleEngine)
    requires engine.Valid()
    requires Addresses(Policies(engine.history)) <= MAX_FILTERS && Transports(Policies(engine.history)) < MAX_FILTERS
    ensures Image(engine.acl.filtset).Valid() && BuildStatus(Image(engine.acl.filtset)) != ListOverrun
  {
    hide Holds, BuildStatus, Policies, Addresses, Transports, Compiled;
    RulesFit(Image(engine.acl.filtset), Policies(engine.history));
  }
}
