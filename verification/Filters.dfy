/** The filter array of frcore_acl.c: rules kept in order of their tag, lowest tag
    (highest priority) first, and a blank slot everywhere past the last rule. */
module Filters {
  import opened Bitmaps

  const ACL_UNSET: nat := 0
  const ACL_DISABLE: nat := 1
  const ACL_ENABLE: nat := 2
  const ACL_NOSYNC: nat := 0
  const ACL_SYNC: nat := 1

  type u32 = x: int | 0 <= x < 0x1_0000_0000
  type u16 = x: int | 0 <= x < 0x1_0000
  type u8 = x: int | 0 <= x < 0x100

  /** An inclusive range of field values. */
  datatype Range = Range(lo: u32, hi: u32)

  predicate Contains(r: Range, x: int) {
    r.lo <= x <= r.hi
  }

  type Dims = d: seq<Range> | |d| == 7 witness seq(7, _ => Range(0, 0))

  datatype Filter = Filter(cost: u32, sync: nat, state: nat, op: u16, action: u16,
                           ruleType: u16, ruleSource: u16, dim: Dims)

  const BLANK := Filter(0, ACL_NOSYNC, ACL_UNSET, 0, 0, 0, 0, seq(7, _ => Range(0, 0)))

  /** What an operator sets: each of the five fields, zero meaning any value. */
  datatype RuleKey = RuleKey(sip: u32, dip: u32, sp: u16, dp: u16, proto: u16)

  datatype RuleInfo = RuleInfo(op: u16, action: u16, ruleType: u16, ruleSource: u16)

  /** The header fields of a packet. */
  datatype Tuple = Tuple(sip: u32, dip: u32, sp: u16, dp: u16, proto: u8)

  /** The seven values the classifier looks at: both addresses are split in half. */
  function Fields(t: Tuple): (f: seq<int>)
    ensures |f| == 7 && forall c | 0 <= c < 7 :: 0 <= f[c] < 0x1_0000
  {
    [t.sip / 0x1_0000, t.sip % 0x1_0000, t.dip / 0x1_0000, t.dip % 0x1_0000, t.sp, t.dp, t.proto]
  }

  predicate FilterMatches(f: Filter, t: Tuple) {
    f.state == ACL_ENABLE && forall c | 0 <= c < 7 :: Contains(f.dim[c], Fields(t)[c])
  }

  predicate FieldMatches(want: int, have: int) {
    want == 0 || want == have
  }

  predicate KeyMatches(k: RuleKey, t: Tuple) {
    FieldMatches(k.sip, t.sip) && FieldMatches(k.dip, t.dip) &&
    FieldMatches(k.sp, t.sp) && FieldMatches(k.dp, t.dp) && FieldMatches(k.proto, t.proto)
  }

  // Reading a rule's fields into ranges

  /** Byte i of an address, the most significant first. */
  function AddressByte(ip: u32, i: nat): u8
    requires i < 4
  {
    if i == 0 then ip / 0x100_0000
    else if i == 1 then ip / 0x1_0000 % 0x100
    else if i == 2 then ip / 0x100 % 0x100
    else ip % 0x100
  }

  lemma AddressBytes(ip: u32)
    ensures AddressByte(ip, 0) as int * 0x100 + AddressByte(ip, 1) == ip / 0x1_0000
    ensures AddressByte(ip, 2) as int * 0x100 + AddressByte(ip, 3) == ip % 0x1_0000
    ensures ip == 0 ==> forall i: nat | i < 4 :: AddressByte(ip, i) == 0
  {
    HalfBytes(ip, ip / 0x1_0000, ip % 0x1_0000);
  }

  /** The bytes of a number are those of its halves. */
  lemma HalfBytes(x: nat, h: nat, l: nat)
    requires x == 0x1_0000 * h + l && l < 0x1_0000
    ensures x / 0x100_0000 == h / 0x100 && x / 0x1_0000 == h
    ensures x / 0x100 % 0x100 == l / 0x100 && x % 0x100 == l % 0x100
  {
    assert x / 0x100 == 0x100 * h + l / 0x100;
    assert x == 0x100 * (0x100 * h + l / 0x100) + l % 0x100;
  }

  /** The ranges of the two halves of an address: a set address matches exactly itself and an
      unset one anything. The prefix is 32 or 0 bits, so only whole bytes are ever masked. */
  method ReadIpRange(ip: u32) returns (high: Range, low: Range)
    ensures ip != 0 ==> high == Range(ip / 0x1_0000, ip / 0x1_0000)
    ensures ip != 0 ==> low == Range(ip % 0x1_0000, ip % 0x1_0000)
    ensures ip == 0 ==> high == Range(0, 0xffff) && low == Range(0, 0xffff)
  {
    AddressBytes(ip);
    hide AddressByte;
    var mask := if ip != 0 then 32 else 0;
    var ptrange := new int[4](i requires 0 <= i < 4 => AddressByte(ip, i));
    mask := 32 - mask;
    var masklit1 := mask / 8;
    var i := 3;
    while i > 3 - masklit1
      invariant 3 - masklit1 <= i <= 3
      invariant forall k | i < k < 4 :: ptrange[k] == 0
      invariant forall k | 0 <= k <= i :: ptrange[k] == AddressByte(ip, k)
    {
      ptrange[i] := 0;
      i := i - 1;
    }
    var highFrom: u32 := ptrange[0] * 0x100 + ptrange[1];
    var lowFrom: u32 := ptrange[2] * 0x100 + ptrange[3];
    i := 3;
    while i > 3 - masklit1
      invariant 3 - masklit1 <= i <= 3
      invariant forall k | i < k < 4 :: ptrange[k] == 255
      invariant masklit1 == 0 ==> forall k | 0 <= k < 4 :: ptrange[k] == AddressByte(ip, k)
    {
      ptrange[i] := 255;
      i := i - 1;
    }
    high := Range(highFrom, ptrange[0] * 0x100 + ptrange[1]);
    low := Range(lowFrom, ptrange[2] * 0x100 + ptrange[3]);
  }

  function PortRange(port: u16): (r: Range)
    ensures forall x: u16 :: Contains(r, x) <==> FieldMatches(port, x)
  {
    if port != 0 then Range(port, port) else Range(0, 0xffff)
  }

  function ProtocolRange(proto: u16): (r: Range)
    ensures forall x: u8 :: Contains(r, x) <==> FieldMatches(proto, x)
  {
    if proto == 0 then Range(0, 255) else Range(proto, proto)
  }

  ghost function AddressRanges(ip: u32): (Range, Range) {
    if ip == 0 then (Range(0, 0xffff), Range(0, 0xffff))
    else (Range(ip / 0x1_0000, ip / 0x1_0000), Range(ip % 0x1_0000, ip % 0x1_0000))
  }

  /** The seven ranges stored for a rule. */
  ghost function DimsOf(k: RuleKey): Dims {
    [AddressRanges(k.sip).0, AddressRanges(k.sip).1, AddressRanges(k.dip).0, AddressRanges(k.dip).1,
     PortRange(k.sp), PortRange(k.dp), ProtocolRange(k.proto)]
  }

  /** The ranges accept exactly the packets the rule's fields describe. */
  lemma DimsMeanKey(k: RuleKey, t: Tuple)
    ensures (forall c | 0 <= c < 7 :: Contains(DimsOf(k)[c], Fields(t)[c])) <==> KeyMatches(k, t)
  {
    var d, f := DimsOf(k), Fields(t);
    assert Contains(d[0], f[0]) && Contains(d[1], f[1]) <==> FieldMatches(k.sip, t.sip);
    assert Contains(d[2], f[2]) && Contains(d[3], f[3]) <==> FieldMatches(k.dip, t.dip);
    assert Contains(d[4], f[4]) <==> FieldMatches(k.sp, t.sp);
    assert Contains(d[5], f[5]) <==> FieldMatches(k.dp, t.dp);
    assert Contains(d[6], f[6]) <==> FieldMatches(k.proto, t.proto);
  }

  /** Reading a rule back from its ranges. */
  function GetFilter(f: Filter): RuleKey {
    RuleKey(f.dim[0].lo % 0x1_0000 * 0x1_0000 + f.dim[1].lo % 0x1_0000,
            f.dim[2].lo % 0x1_0000 * 0x1_0000 + f.dim[3].lo % 0x1_0000,
            f.dim[4].lo % 0x1_0000, f.dim[5].lo % 0x1_0000, f.dim[6].lo % 0x1_0000)
  }

  /** What was set is what is read back. */
  lemma GetFilterInverts(f: Filter, k: RuleKey)
    requires f.dim == DimsOf(k)
    ensures GetFilter(f) == k
  {
  }

  /** What a filter keeps of a rule besides its fields. */
  function InfoOf(f: Filter): RuleInfo {
    RuleInfo(f.op, f.action, f.ruleType, f.ruleSource)
  }

  ghost function FilterOf(tag: u16, k: RuleKey, info: RuleInfo): Filter {
    Filter(tag, ACL_NOSYNC, ACL_ENABLE, info.op, info.action, info.ruleType, info.ruleSource, DimsOf(k))
  }

  lemma FilterTag(tag: u16, k: RuleKey, info: RuleInfo)
    ensures FilterOf(tag, k, info).cost == tag
  {
  }

  // The array as a sequence, and the sequence as a map from tag to rule

  ghost predicate Sorted(s: seq<Filter>) {
    forall i, j | 0 <= i < j < |s| :: s[i].cost < s[j].cost
  }

  ghost predicate TagInRange(tag: int) {
    1 <= tag <= MAX_FILTERS - 2
  }

  ghost predicate TagsInRange(s: seq<Filter>) {
    forall i | 0 <= i < |s| :: TagInRange(s[i].cost)
  }

  ghost function AsMap(s: seq<Filter>): map<int, Filter> {
    if s == [] then map[] else AsMap(s[1..])[s[0].cost := s[0]]
  }

  lemma {:induction false} SortedBound(s: seq<Filter>, i: nat)
    requires Sorted(s) && TagsInRange(s) && i < |s|
    ensures s[i].cost >= i + 1
  {
    if i > 0 {
      SortedBound(s, i - 1);
    }
  }

  /** Distinct tags below the last two slots cannot fill the array. */
  lemma FewFilters(s: seq<Filter>)
    requires Sorted(s) && TagsInRange(s)
    ensures |s| <= MAX_FILTERS - 2
  {
    if s != [] {
      SortedBound(s, |s| - 1);
    }
  }

  ghost function InsertOrReplace(s: seq<Filter>, f: Filter): seq<Filter> {
    if s == [] then [f]
    else if f.cost < s[0].cost then [f] + s
    else if f.cost == s[0].cost then [f] + s[1..]
    else [s[0]] + InsertOrReplace(s[1..], f)
  }

  ghost function RemoveTag(s: seq<Filter>, tag: int): seq<Filter> {
    if s == [] then []
    else if s[0].cost == tag then s[1..]
    else [s[0]] + RemoveTag(s[1..], tag)
  }

  lemma SortedTail(s: seq<Filter>)
    requires Sorted(s) && s != []
    ensures Sorted(s[1..])
  {
    forall i, j | 0 <= i < j < |s[1..]|
      ensures s[1..][i].cost < s[1..][j].cost
    {
      assert s[1..][i] == s[i + 1] && s[1..][j] == s[j + 1];
    }
  }

  lemma SortedCons(f: Filter, s: seq<Filter>)
    requires Sorted(s) && forall x | x in s :: f.cost < x.cost
    ensures Sorted([f] + s)
  {
  }

  lemma {:induction false} MapAt(s: seq<Filter>, i: nat)
    requires Sorted(s) && i < |s|
    ensures s[i].cost in AsMap(s) && AsMap(s)[s[i].cost] == s[i]
  {
    if i > 0 {
      SortedTail(s);
      MapAt(s[1..], i - 1);
      assert s[0].cost < s[i].cost;
    }
  }

  lemma {:induction false} MapKey(s: seq<Filter>, tag: int) returns (i: nat)
    requires tag in AsMap(s)
    ensures i < |s| && s[i].cost == tag && AsMap(s)[tag] in s
  {
    if s[0].cost == tag {
      return 0;
    }
    i := MapKey(s[1..], tag);
    i := i + 1;
  }

  lemma MissingTag(s: seq<Filter>, tag: int)
    ensures (forall i | 0 <= i < |s| :: s[i].cost != tag) ==> tag !in AsMap(s)
  {
    if tag in AsMap(s) {
      var i := MapKey(s, tag);
    }
  }

  lemma {:induction false} InsertMembers(s: seq<Filter>, f: Filter)
    ensures forall x | x in InsertOrReplace(s, f) :: x == f || x in s
  {
    if s != [] && f.cost > s[0].cost {
      InsertMembers(s[1..], f);
    }
  }

  lemma {:induction false} InsertSorted(s: seq<Filter>, f: Filter)
    requires Sorted(s)
    ensures Sorted(InsertOrReplace(s, f))
  {
    if s != [] {
      SortedTail(s);
      if f.cost > s[0].cost {
        InsertSorted(s[1..], f);
        InsertMembers(s[1..], f);
        SortedCons(s[0], InsertOrReplace(s[1..], f));
      }
    }
  }

  /** Setting a rule is insertion or replacement in the map from tags to rules. */
  lemma {:induction false} InsertIsMapUpdate(s: seq<Filter>, f: Filter)
    ensures AsMap(InsertOrReplace(s, f)) == AsMap(s)[f.cost := f]
  {
    if s == [] {
    } else if f.cost < s[0].cost {
      assert ([f] + s)[1..] == s;
    } else if f.cost == s[0].cost {
      assert ([f] + s[1..])[1..] == s[1..];
    } else {
      InsertIsMapUpdate(s[1..], f);
      assert ([s[0]] + InsertOrReplace(s[1..], f))[1..] == InsertOrReplace(s[1..], f);
    }
  }

  lemma {:induction false} RemoveMembers(s: seq<Filter>, tag: int)
    ensures forall x | x in RemoveTag(s, tag) :: x in s
  {
    if s != [] && s[0].cost != tag {
      RemoveMembers(s[1..], tag);
    }
  }

  lemma {:induction false} RemoveSorted(s: seq<Filter>, tag: int)
    requires Sorted(s)
    ensures Sorted(RemoveTag(s, tag))
  {
    if s != [] {
      SortedTail(s);
      if s[0].cost != tag {
        RemoveSorted(s[1..], tag);
        RemoveMembers(s[1..], tag);
        SortedCons(s[0], RemoveTag(s[1..], tag));
      }
    }
  }

  /** Deleting a rule is removal from the map. */
  lemma {:induction false} RemoveIsMapRemoval(s: seq<Filter>, tag: int)
    requires Sorted(s)
    ensures AsMap(RemoveTag(s, tag)) == AsMap(s) - {tag}
  {
    if s != [] {
      SortedTail(s);
      if s[0].cost == tag {
        if tag in AsMap(s[1..]) {
          var i := MapKey(s[1..], tag);
        }
      } else {
        hide Sorted;
        RemoveIsMapRemoval(s[1..], tag);
        assert ([s[0]] + RemoveTag(s[1..], tag))[1..] == RemoveTag(s[1..], tag);
      }
    }
  }

  lemma {:induction false} InsertAt(s: seq<Filter>, f: Filter, i: nat)
    requires i <= |s| && forall j | 0 <= j < i :: s[j].cost < f.cost
    ensures i < |s| && f.cost == s[i].cost ==> InsertOrReplace(s, f) == s[i := f]
    ensures i == |s| || f.cost < s[i].cost ==> InsertOrReplace(s, f) == s[..i] + [f] + s[i..]
  {
    if i > 0 {
      InsertAt(s[1..], f, i - 1);
      assert s == [s[0]] + s[1..];
      if i < |s| && f.cost == s[i].cost {
        assert s[i := f] == [s[0]] + s[1..][i - 1 := f];
      }
    }
  }

  lemma {:induction false} RemoveAt(s: seq<Filter>, tag: int, i: nat)
    requires i <= |s| && forall j | 0 <= j < i :: s[j].cost != tag
    ensures i < |s| && s[i].cost == tag ==> RemoveTag(s, tag) == s[..i] + s[i + 1..]
    ensures i == |s| ==> RemoveTag(s, tag) == s
  {
    if i > 0 {
      RemoveAt(s[1..], tag, i - 1);
    }
  }

  datatype Found = NotFound | FoundRule(ruleId: nat, state: nat, info: RuleInfo, key: RuleKey)

  /** The slots from index to n have moved one back; those before and after are the same. */
  ghost predicate MovedBack(a: seq<Filter>, b: seq<Filter>, n: nat, index: nat) {
    |a| == |b| && index <= n < |a| &&
    (forall k | 0 <= k <= index || n < k < |a| :: b[k] == a[k]) &&
    forall k | index <= k < n :: b[k + 1] == a[k]
  }

  /** Which makes room for one more. */
  lemma MadeRoom(a: seq<Filter>, b: seq<Filter>, n: nat, index: nat, f: Filter)
    requires MovedBack(a, b, n, index)
    ensures
      var c := b[index := f];
      c[..n + 1] == a[..n][..index] + [f] + a[..n][index..] && forall k | n < k < |c| :: c[k] == a[k]
  {
    var c := b[index := f];
    forall k | index < k <= n
      ensures c[k] == a[k - 1]
    {
      assert b[(k - 1) + 1] == a[k - 1];
    }
  }

  /** The slots after index, up to n, have moved one forward; those before and after are the same. */
  ghost predicate MovedForward(a: seq<Filter>, b: seq<Filter>, n: nat, index: nat) {
    |a| == |b| && index < n <= |a| &&
    (forall k | 0 <= k < index || n <= k < |a| :: b[k] == a[k]) &&
    forall k | index < k < n :: b[k - 1] == a[k]
  }

  /** Which closes the gap. */
  lemma GapClosed(a: seq<Filter>, b: seq<Filter>, n: nat, index: nat)
    requires MovedForward(a, b, n, index)
    ensures b[..n - 1] == a[..n][..index] + a[..n][index + 1..]
    ensures |b| == |a| && forall k | n <= k < |b| :: b[k] == a[k]
  {
    forall k | index <= k < n - 1
      ensures b[k] == a[k + 1]
    {
      assert b[(k + 1) - 1] == a[k + 1];
    }
  }

  class FiltSet {
    const filtArr: array<Filter>
    var numFilters: nat

    constructor ()
      ensures Valid() && fresh(filtArr) && numFilters == 0
    {
      filtArr := new Filter[MAX_FILTERS](_ => BLANK);
      numFilters := 0;
    }

    /** The rules in force, in array order. */
    ghost function Live(): seq<Filter>
      requires numFilters <= filtArr.Length
      reads this, filtArr
    {
      filtArr[..numFilters]
    }

    ghost predicate Valid()
      reads this, filtArr
    {
      Spare() && Sorted(Live())
    }

    /** The slots past the rules are blank. */
    ghost predicate Spare()
      reads this, filtArr
    {
      filtArr.Length == MAX_FILTERS && numFilters <= MAX_FILTERS &&
      forall i | numFilters <= i < MAX_FILTERS :: filtArr[i] == BLANK
    }

    /** Writes a rule into one slot; the rule count grows unless the slot is being covered. */
    method SetFilter(index: nat, targetid: u16, key: RuleKey, info: RuleInfo, cover: bool)
      requires index < filtArr.Length
      modifies this, filtArr
      ensures filtArr[..] == old(filtArr[..])[index := FilterOf(targetid, key, info)]
      ensures numFilters == if cover then old(numFilters) else old(numFilters) + 1
    {
      var highSip, lowSip := ReadIpRange(key.sip);
      var highDip, lowDip := ReadIpRange(key.dip);
      var dim: Dims := [highSip, lowSip, highDip, lowDip, PortRange(key.sp), PortRange(key.dp), ProtocolRange(key.proto)];
      assert dim == DimsOf(key);
      filtArr[index] := Filter(targetid, ACL_NOSYNC, ACL_ENABLE, info.op, info.action, info.ruleType, info.ruleSource, dim);
      if !cover {
        numFilters := numFilters + 1;
      }
    }

    /** Moves the rules from index on one slot back, leaving the slot at index as it was. */
    method MoveBackFrom(index: nat)
      requires index <= numFilters < filtArr.Length
      modifies filtArr
      ensures MovedBack(old(filtArr[..]), filtArr[..], numFilters, index)
    {
      ghost var was := filtArr[..];
      var j := numFilters - 1;
      while j >= index
        invariant index - 1 <= j < numFilters
        invariant forall k | 0 <= k <= j + 1 || numFilters < k < filtArr.Length :: filtArr[k] == was[k]
        invariant forall k | j < k < numFilters :: filtArr[k + 1] == was[k]
      {
        filtArr[j + 1] := filtArr[j];
        j := j - 1;
      }
    }

    /** Adds a rule in tag order, or overwrites the rule that has the tag, whatever the tag. The result
        is false when the rule would be one more than the array has slots, which the code does not look
        for: it stands for the write past the array. */
    method AclSetFilter(targetid: u16, key: RuleKey, info: RuleInfo) returns (fits: bool)
      requires Valid()
      modifies this, filtArr
      ensures Valid()
      ensures
        var after := InsertOrReplace(old(Live()), FilterOf(targetid, key, info));
        fits == (|after| <= MAX_FILTERS) && Live() == if fits then after else old(Live())
    {
      hide InsertOrReplace, Sorted, FilterOf;
      ghost var was, f := Live(), FilterOf(targetid, key, info);
      InsertSorted(was, f);
      FilterTag(targetid, key, info);
      var count := numFilters;
      var i := 0;
      while i < count && filtArr[i].cost < targetid
        invariant 0 <= i <= count
        invariant forall j | 0 <= j < i :: was[j].cost < targetid
      {
        i := i + 1;
      }
      InsertAt(was, f, i);
      if i < count && targetid == filtArr[i].cost {
        SetFilter(i, targetid, key, info, true);
        assert Live() == was[i := f];
        return true;
      }
      if count == MAX_FILTERS {
        return false;
      }
      InsertSlot(i, targetid, key, info);
      return true;
    }

    /** The part of it that makes room and fills it. */
    method InsertSlot(i: nat, targetid: u16, key: RuleKey, info: RuleInfo)
      requires Spare() && i <= numFilters < MAX_FILTERS
      modifies this, filtArr
      ensures Spare() && Live() == old(Live())[..i] + [FilterOf(targetid, key, info)] + old(Live())[i..]
    {
      hide MovedBack, FilterOf;
      MoveBackFrom(i);
      MadeRoom(old(filtArr[..]), filtArr[..], numFilters, i, FilterOf(targetid, key, info));
      SetFilter(i, targetid, key, info, false);
    }

    method InitOneFilterByIndex(index: nat)
      requires index < filtArr.Length
      modifies filtArr
      ensures filtArr[..] == old(filtArr[..])[index := BLANK]
    {
      filtArr[index] := BLANK;
    }

    /** Closes the gap at index by moving every later rule one slot forward. */
    method MoveForwardFrom(index: nat)
      requires index < numFilters <= filtArr.Length
      modifies filtArr
      ensures MovedForward(old(filtArr[..]), filtArr[..], numFilters, index) && filtArr[numFilters - 1] == BLANK
    {
      ghost var was := filtArr[..];
      var count := numFilters;
      var j := index;
      while j < count - 1
        invariant index <= j <= count - 1
        invariant forall k | 0 <= k < index || j <= k < filtArr.Length :: filtArr[k] == was[k]
        invariant forall k | index <= k < j :: filtArr[k] == was[k + 1]
      {
        filtArr[j] := filtArr[j + 1];
        j := j + 1;
      }
      InitOneFilterByIndex(count - 1);
    }

    /** Removes the rule with a tag; reports whether there was one. */
    method AclDeleteOneFilterByTagid(tagid: u16) returns (found: bool)
      requires Valid()
      modifies this, filtArr
      ensures Valid()
      ensures found <==> tagid in AsMap(old(Live()))
      ensures Live() == RemoveTag(old(Live()), tagid)
    {
      hide RemoveTag, AsMap, Sorted;
      ghost var was := Live();
      RemoveSorted(was, tagid);
      RemoveMembers(was, tagid);
      MissingTag(was, tagid);
      var count := numFilters;
      var i := 0;
      while i < count
        invariant 0 <= i <= count
        invariant forall j | 0 <= j < i :: was[j].cost != tagid
      {
        if tagid == filtArr[i].cost {
          RemoveAt(was, tagid, i);
          MapAt(was, i);
          RemoveSlot(i);
          return true;
        }
        i := i + 1;
      }
      RemoveAt(was, tagid, count);
      return false;
    }

    /** The part of it that blanks the last slot or closes the gap. */
    method RemoveSlot(i: nat)
      requires Spare() && i < numFilters
      modifies this, filtArr
      ensures Spare() && Live() == old(Live())[..i] + old(Live())[i + 1..]
    {
      hide MovedForward;
      if i == numFilters - 1 {
        InitOneFilterByIndex(i);
      } else {
        MoveForwardFrom(i);
        GapClosed(old(filtArr[..]), filtArr[..], numFilters, i);
      }
      numFilters := numFilters - 1;
    }

    /** Switches one rule on or off without moving it. */
    method AclEnableOneFilterByTagid(targetid: u16, enable: u8) returns (found: bool)
      requires Valid()
      modifies filtArr
      ensures Valid()
      ensures found <==> targetid in AsMap(old(Live()))
      ensures |Live()| == |old(Live())|
      ensures forall i | 0 <= i < |Live()| ::
        Live()[i] == if old(Live())[i].cost == targetid then old(Live())[i].(state := enable) else old(Live())[i]
    {
      hide AsMap;
      MissingTag(Live(), targetid);
      var i := 0;
      while i < numFilters
        invariant 0 <= i <= numFilters
        invariant forall j | 0 <= j < i :: filtArr[j].cost != targetid
      {
        if targetid == filtArr[i].cost {
          MapAt(Live(), i);
          filtArr[i] := filtArr[i].(state := enable);
          return true;
        }
        i := i + 1;
      }
      return false;
    }

    /** The stored rule with a tag, as the map from tags to rules has it. */
    method AclGetFilterByTagid(tagid: u16) returns (r: Found)
      requires Valid()
      ensures r.NotFound? <==> tagid !in AsMap(Live())
      ensures r.FoundRule? ==>
        var f := AsMap(Live())[tagid];
        r.key == GetFilter(f) && r.state == f.state &&
        r.info == InfoOf(f) &&
        r.ruleId < numFilters && filtArr[r.ruleId] == f
    {
      hide AsMap;
      MissingTag(Live(), tagid);
      var i := 0;
      while i < numFilters
        invariant 0 <= i <= numFilters
        invariant forall j | 0 <= j < i :: filtArr[j].cost != tagid
      {
        if tagid == filtArr[i].cost {
          var f := filtArr[i];
          MapAt(Live(), i);
          return FoundRule(i, f.state, RuleInfo(f.op, f.action, f.ruleType, f.ruleSource), GetFilter(f));
        }
        i := i + 1;
      }
      return NotFound;
    }
  }
}
