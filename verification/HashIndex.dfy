/** The two-tuple filter of frcore_filter.c: an array of rules and a hash table of bucket lists,
    updated in place and kept in agreement. */
module HashIndex {
  import Filters
  import opened TwoTupleRules

  datatype Code = Success | Fail | Param | NotSet

  datatype TwoTupleFilter = TwoTupleFilter(enable: nat, aclType: nat, action: nat, op: nat, aclSource: nat,
                                           proto: nat, oneTuple: nat, index: nat, hash: nat)

  const CLEAR := TwoTupleFilter(0, FRC_ACL_UNKNOWN, 0, 0, 0, 0, 0, 0, 0)

  datatype HashTable = HashTable(list: seq<nat>, bucketDepth: nat, totalCell: nat, delCell: nat)

  const BUCKETS: nat := 4 * FRCORE_MAX_FILTERS

  ghost function Entry(hash: Hash, r: Rule): TwoTupleFilter {
    TwoTupleFilter(1, r.aclType, r.action, r.op, r.source, r.proto, r.oneTuple, r.index, HashOf(hash, r.oneTuple, r.proto))
  }

  /** What the array holds for an index under a rule list. */
  ghost function Slot(hash: Hash, order: seq<Rule>, index: nat): TwoTupleFilter {
    if Has(order, index) then Entry(hash, order[PlaceOf(order, index)]) else CLEAR
  }

  ghost predicate ArrayAgrees(hash: Hash, order: seq<Rule>, filterArr: seq<TwoTupleFilter>) {
    |filterArr| == FRCORE_MAX_FILTERS && forall i | 0 <= i < |filterArr| :: filterArr[i] == Slot(hash, order, i + 1)
  }

  /** A bucket lists the rules that hash there, each once, and its counts are right. */
  ghost predicate BucketAgrees(hash: Hash, order: seq<Rule>, b: int, h: HashTable) {
    h.list == Members(hash, order, b) && h.bucketDepth == |h.list| && h.totalCell - h.delCell == h.bucketDepth
  }

  ghost predicate TableAgrees(hash: Hash, order: seq<Rule>, table: seq<HashTable>) {
    |table| == BUCKETS && forall b | 0 <= b < |table| :: BucketAgrees(hash, order, b, table[b])
  }

  /** Everything together: the array, the buckets, the count and the free cells of the pool. */
  ghost predicate Agrees(hash: Hash, order: seq<Rule>, filterArr: seq<TwoTupleFilter>, table: seq<HashTable>,
                         numFilters: int, freeCells: int) {
    RuleList(order) && ArrayAgrees(hash, order, filterArr) && TableAgrees(hash, order, table) &&
    numFilters == |order| && freeCells == FRCORE_MAX_FILTERS - |order|
  }

  lemma EmptyAgrees(hash: Hash)
    ensures Agrees(hash, [], seq(FRCORE_MAX_FILTERS, _ => CLEAR), seq(BUCKETS, _ => HashTable([], 0, 0, 0)), 0, FRCORE_MAX_FILTERS)
  {
  }

  function WithoutCell(h: HashTable, k: nat): HashTable
    requires k < |h.list| && h.bucketDepth > 0
  {
    HashTable(h.list[..k] + h.list[k + 1..], h.bucketDepth - 1, h.totalCell, h.delCell + 1)
  }

  function WithCell(h: HashTable, index: nat): HashTable {
    HashTable(h.list + [index], h.bucketDepth + 1, h.totalCell + 1, h.delCell)
  }

  lemma SetSlot(hash: Hash, order: seq<Rule>, filterArr: seq<TwoTupleFilter>, r: Rule)
    requires RuleList(order) && ArrayAgrees(hash, order, filterArr) && GoodIndex(r.index) && GoodType(r.aclType)
    ensures ArrayAgrees(hash, Updated(order, r), filterArr[r.index - 1 := Entry(hash, r)])
  {
    hide PlaceOf, Updated, RuleList, Entry;
    UpdatedList(order, r);
    UpdatedLast(order, r);
    var e := filterArr[r.index - 1 := Entry(hash, r)];
    forall i | 0 <= i < |e|
      ensures e[i] == Slot(hash, Updated(order, r), i + 1)
    {
      if i + 1 != r.index {
        UpdatedOther(order, r, i + 1);
      }
    }
  }

  lemma UpdatedLast(order: seq<Rule>, r: Rule)
    ensures |Updated(order, r)| > 0 && Updated(order, r)[|Updated(order, r)| - 1] == r
  {
  }

  lemma ClearSlot(hash: Hash, order: seq<Rule>, filterArr: seq<TwoTupleFilter>, index: nat)
    requires RuleList(order) && ArrayAgrees(hash, order, filterArr) && GoodIndex(index)
    ensures ArrayAgrees(hash, Deleted(order, index), filterArr[index - 1 := CLEAR])
  {
    hide PlaceOf, Deleted, RuleList, Entry;
    DeletedList(order, index);
    var e := filterArr[index - 1 := CLEAR];
    forall i | 0 <= i < |e|
      ensures e[i] == Slot(hash, Deleted(order, index), i + 1)
    {
      if i + 1 != index {
        DeletedOther(order, index, i + 1);
      }
    }
  }

  /** A set rule's own bucket has its cell, found where the list says. */
  lemma RemoveCell(hash: Hash, order: seq<Rule>, table: seq<HashTable>, index: nat)
    requires RuleList(order) && TableAgrees(hash, order, table) && Has(order, index)
    ensures
      var b := BucketOf(hash, order[PlaceOf(order, index)]);
      0 <= b < BUCKETS && table[b].bucketDepth > 0 &&
      var k := IndexIn(table[b].list, index);
      k < |table[b].list| && TableAgrees(hash, Deleted(order, index), table[b := WithoutCell(table[b], k)])
  {
    hide PlaceOf, Deleted, Members, BucketOf, Bucket;
    var b := BucketOf(hash, order[PlaceOf(order, index)]);
    assert BucketAgrees(hash, order, b, table[b]);
    DeletedMembers(hash, order, index, b);
    var e := table[b := WithoutCell(table[b], IndexIn(table[b].list, index))];
    forall c | 0 <= c < |e|
      ensures BucketAgrees(hash, Deleted(order, index), c, e[c])
    {
      assert BucketAgrees(hash, order, c, table[c]);
      DeletedMembers(hash, order, index, c);
    }
  }

  lemma AddCell(hash: Hash, order: seq<Rule>, table: seq<HashTable>, r: Rule)
    requires TableAgrees(hash, Deleted(order, r.index), table) && GoodType(r.aclType)
    ensures
      var b := BucketOf(hash, r);
      0 <= b < BUCKETS && TableAgrees(hash, Updated(order, r), table[b := WithCell(table[b], r.index)])
  {
    hide Members, Updated, Deleted;
    var b := BucketOf(hash, r);
    var e := table[b := WithCell(table[b], r.index)];
    forall c | 0 <= c < |e|
      ensures BucketAgrees(hash, Updated(order, r), c, e[c])
    {
      assert BucketAgrees(hash, Deleted(order, r.index), c, table[c]);
      UpdatedMembers(hash, order, r, c);
    }
  }

  /** What the array says of an index under agreement. */
  lemma SlotSays(hash: Hash, order: seq<Rule>, filterArr: seq<TwoTupleFilter>, index: nat)
    requires RuleList(order) && ArrayAgrees(hash, order, filterArr) && GoodIndex(index)
    ensures filterArr[index - 1].enable != 0 <==> Has(order, index)
    ensures Has(order, index) ==>
      var r := order[PlaceOf(order, index)];
      filterArr[index - 1] == Entry(hash, r) && r.index == index && GoodType(r.aclType)
  {
    hide PlaceOf;
    assert filterArr[index - 1] == Slot(hash, order, index - 1 + 1);
  }

  /** Taking a set rule out of its bucket and the array keeps everything in agreement. */
  lemma DeleteAgrees(hash: Hash, order: seq<Rule>, filterArr: seq<TwoTupleFilter>, table: seq<HashTable>,
                     numFilters: int, freeCells: int, index: nat)
    requires Agrees(hash, order, filterArr, table, numFilters, freeCells) && GoodIndex(index) && Has(order, index)
    ensures
      var b := BucketOf(hash, order[PlaceOf(order, index)]);
      0 <= b < |table| && table[b].bucketDepth > 0 &&
      var k := IndexIn(table[b].list, index);
      k < |table[b].list| &&
      Agrees(hash, Deleted(order, index), filterArr[index - 1 := CLEAR], table[b := WithoutCell(table[b], k)],
             numFilters - 1, freeCells + 1)
  {
    hide PlaceOf, Deleted, BucketOf, ArrayAgrees, TableAgrees, RuleList;
    ClearSlot(hash, order, filterArr, index);
    RemoveCell(hash, order, table, index);
    DeletedList(order, index);
    DeletedAt(order, index);
    TableLength(hash, order, table);
  }

  lemma TableLength(hash: Hash, order: seq<Rule>, table: seq<HashTable>)
    requires TableAgrees(hash, order, table)
    ensures |table| == BUCKETS
  {
  }

  /** Adding a rule that is not there finds a cell free and keeps everything in agreement. */
  lemma AddAgrees(hash: Hash, order: seq<Rule>, filterArr: seq<TwoTupleFilter>, table: seq<HashTable>,
                  numFilters: int, freeCells: int, r: Rule)
    requires Agrees(hash, order, filterArr, table, numFilters, freeCells)
    requires GoodIndex(r.index) && GoodType(r.aclType) && !Has(order, r.index)
    ensures
      var b := BucketOf(hash, r);
      freeCells > 0 && 0 <= b < |table| && r.index <= |filterArr| &&
      Agrees(hash, Updated(order, r), filterArr[r.index - 1 := Entry(hash, r)], table[b := WithCell(table[b], r.index)],
             numFilters + 1, freeCells - 1)
  {
    hide PlaceOf, Entry, BucketOf, TableAgrees;
    SetSlot(hash, order, filterArr, r);
    AddCell(hash, order, table, r);
    TableLength(hash, order, table);
    UpdatedList(order, r);
    assert forall i | 0 <= i < |order| :: GoodIndex(order[i].index);
    FewRules(order, ACL_MAX);
  }

  class TwoTupleAcl {
    const hash: Hash
    const filterArr: array<TwoTupleFilter>
    const hashTable: array<HashTable>
    var numFilters: int
    var freeCells: nat
    /** Every command carried out since the filter was set up. */
    ghost var history: seq<Command>

    ghost predicate Valid()
      reads this, filterArr, hashTable
    {
      GoodHistory(history) && Agrees(hash, Order(history), filterArr[..], hashTable[..], numFilters, freeCells)
    }

    constructor (hash: Hash)
      ensures Valid() && fresh(filterArr) && fresh(hashTable)
      ensures this.hash == hash && history == []
    {
      this.hash := hash;
      filterArr := new TwoTupleFilter[FRCORE_MAX_FILTERS](_ => CLEAR);
      hashTable := new HashTable[BUCKETS](_ => HashTable([], 0, 0, 0));
      numFilters, freeCells, history := 0, FRCORE_MAX_FILTERS, [];
      new;
      EmptyAgrees(hash);
      assert filterArr[..] == seq(FRCORE_MAX_FILTERS, _ => CLEAR);
      assert hashTable[..] == seq(BUCKETS, _ => HashTable([], 0, 0, 0));
    }

    /** The bucket of a type and a hash, when both are in range. */
    method AclGetHashTable(aclType: nat, h: nat) returns (ok: bool, b: nat)
      ensures ok <==> GoodType(aclType) && h < FRCORE_MAX_FILTERS
      ensures ok ==> b == Bucket(aclType, h) < BUCKETS
    {
      if aclType <= FRC_ACL_UNKNOWN || aclType > FRC_ACL_DP {
        return false, 0;
      }
      if h >= FRCORE_MAX_FILTERS {
        return false, 0;
      }
      return true, FRCORE_MAX_FILTERS * (aclType - 1) + h;
    }

    method DeleteOneFilter(index: nat)
      requires 0 < index <= filterArr.Length
      modifies filterArr, this`numFilters
      ensures filterArr[..] == old(filterArr[..])[index - 1 := CLEAR] && numFilters == old(numFilters) - 1
    {
      numFilters := numFilters - 1;
      filterArr[index - 1] := CLEAR;
    }

    method AddOneFilter(r: Rule, h: nat)
      requires 0 < r.index <= filterArr.Length && h == HashOf(hash, r.oneTuple, r.proto)
      modifies filterArr, this`numFilters
      ensures filterArr[..] == old(filterArr[..])[r.index - 1 := Entry(hash, r)] && numFilters == old(numFilters) + 1
    {
      filterArr[r.index - 1] := TwoTupleFilter(1, r.aclType, r.action, r.op, r.source, r.proto, r.oneTuple, r.index, h);
      numFilters := numFilters + 1;
    }

    /** Finds the index's cell in a bucket and unlinks it. */
    method DeleteOneFilterFromHashTable(index: nat, b: nat) returns (rv: Code)
      requires b < hashTable.Length
      modifies hashTable, this`freeCells
      ensures
        var q := old(hashTable[b]);
        var k := IndexIn(q.list, index);
        if q.bucketDepth > 0 && k < |q.list| then
          rv == Success && hashTable[..] == old(hashTable[..])[b := WithoutCell(q, k)] && freeCells == old(freeCells) + 1
        else rv == Fail && hashTable[..] == old(hashTable[..]) && freeCells == old(freeCells)
    {
      var h := hashTable[b];
      if h.bucketDepth == 0 || h.list == [] {
        return Fail;
      }
      var k := 0;
      while k < |h.list| && h.list[k] != index
        invariant k <= |h.list| && forall i | 0 <= i < k :: h.list[i] != index
      {
        k := k + 1;
      }
      if k < |h.list| {
        hashTable[b] := HashTable(h.list[..k] + h.list[k + 1..], h.bucketDepth - 1, h.totalCell, h.delCell + 1);
        freeCells := freeCells + 1;
        return Success;
      }
      return Fail;
    }

    /** Puts the index's cell at the end of the bucket its array entry names. */
    method AddOneFilterToHashTable(index: nat) returns (rv: Code)
      requires 0 < index <= filterArr.Length && hashTable.Length == BUCKETS
      modifies hashTable, this`freeCells
      ensures
        var f := filterArr[index - 1];
        if GoodType(f.aclType) && f.hash < FRCORE_MAX_FILTERS && old(freeCells) > 0 then
          var b := Bucket(f.aclType, f.hash);
          rv == Success && hashTable[..] == old(hashTable[..])[b := WithCell(old(hashTable[..])[b], index)] &&
          freeCells == old(freeCells) - 1
        else rv == Fail && hashTable[..] == old(hashTable[..]) && freeCells == old(freeCells)
    {
      var ok, b := AclGetHashTable(filterArr[index - 1].aclType, filterArr[index - 1].hash);
      if !ok {
        return Fail;
      }
      if freeCells == 0 {
        return Fail;
      }
      freeCells := freeCells - 1;
      var h := hashTable[b];
      hashTable[b] := HashTable(h.list + [index], h.bucketDepth + 1, h.totalCell + 1, h.delCell);
      return Success;
    }
  
    /** Sets a rule, in place of the one its index had if any: it becomes the most recently set.
        Indexes and types out of range are refused, and nothing else can go wrong. */
    method AclSetFilter(r: Rule) returns (rv: Code)
      requires Valid()
      modifies this, filterArr, hashTable
      ensures Valid()
      ensures
        if GoodCommand(Set(r)) then rv == Success && history == old(history) + [Set(r)]
        else rv == Param && history == old(history)
    {
      hide Agrees, Order, PlaceOf, Deleted, Updated, Entry, BucketOf, Bucket, HashOf, RuleList;
      if r.index < ACL_INDEX_START || r.index > ACL_MAX {
        return Param;
      }
      if r.aclType < FRC_ACL_SIP || r.aclType > FRC_ACL_DP {
        return Param;
      }
      ghost var order := Order(history);
      AgreesSays(hash, order, filterArr[..], hashTable[..], numFilters, freeCells, r.index);
      if filterArr[r.index - 1].enable != 0 {
        rv := DeleteSet(r.index, order);
        if rv != Success {
          return;
        }
      }
      DeletedNone(order, r.index);
      rv := AddNew(r, Deleted(order, r.index));
      UpdatedTwice(order, r);
      history := history + [Set(r)];
      OrderNext(old(history), Set(r));
    }

    /** Deletes a rule: gone from its bucket and the array. An index that is not set is reported. */
    method AclDelFilter(index: nat) returns (rv: Code)
      requires Valid()
      modifies this, filterArr, hashTable
      ensures Valid()
      ensures
        if !GoodIndex(index) then rv == Param && history == old(history)
        else if !Has(Order(old(history)), index) then rv == NotSet && history == old(history)
        else rv == Success && history == old(history) + [Delete(index)]
    {
      hide Agrees, Order, PlaceOf, Deleted, Updated, Entry, BucketOf, Bucket, HashOf, RuleList;
      if index < ACL_INDEX_START || index > ACL_MAX {
        return Param;
      }
      ghost var order := Order(history);
      AgreesSays(hash, order, filterArr[..], hashTable[..], numFilters, freeCells, index);
      if filterArr[index - 1].enable == 0 {
        return NotSet;
      }
      rv := DeleteSet(index, order);
      history := history + [Delete(index)];
      OrderNext(old(history), Delete(index));
    }

    /** Deleting a rule that is set, under the lock of its bucket. */
    method DeleteSet(index: nat, ghost order: seq<Rule>) returns (rv: Code)
      requires Agrees(hash, order, filterArr[..], hashTable[..], numFilters, freeCells)
      requires GoodIndex(index) && Has(order, index)
      modifies this`numFilters, this`freeCells, filterArr, hashTable
      ensures rv == Success && Agrees(hash, Deleted(order, index), filterArr[..], hashTable[..], numFilters, freeCells)
    {
      hide Agrees, PlaceOf, Deleted, BucketOf;
      AgreesSays(hash, order, filterArr[..], hashTable[..], numFilters, freeCells, index);
      var f := filterArr[index - 1];
      var ok, b := AclGetHashTable(f.aclType, f.hash);
      EntryBucket(hash, order[PlaceOf(order, index)]);
      DeleteAgrees(hash, order, filterArr[..], hashTable[..], numFilters, freeCells, index);
      rv := DeleteOneFilterFromHashTable(index, b);
      DeleteOneFilter(index);
    }

    /** Adding a rule that is not set, under the lock of its bucket. */
    method AddNew(r: Rule, ghost order: seq<Rule>) returns (rv: Code)
      requires Agrees(hash, order, filterArr[..], hashTable[..], numFilters, freeCells)
      requires GoodCommand(Set(r)) && !Has(order, r.index)
      modifies this`numFilters, this`freeCells, filterArr, hashTable
      ensures rv == Success && Agrees(hash, Updated(order, r), filterArr[..], hashTable[..], numFilters, freeCells)
    {
      hide Agrees, PlaceOf, Updated, BucketOf;
      AgreesSays(hash, order, filterArr[..], hashTable[..], numFilters, freeCells, r.index);
      AddAgrees(hash, order, filterArr[..], hashTable[..], numFilters, freeCells, r);
      EntryBucket(hash, r);
      AddOneFilter(r, HashOf(hash, r.oneTuple, r.proto));
      rv := AddOneFilterToHashTable(r.index);
    }

    /** The rule a packet finds among those set, searching only its four buckets. */
    method FilterLookupByTuple(t: Filters.Tuple) returns (index: nat)
      requires Valid()
      ensures index == FindFrom(Order(history), t, 1) && Finds(history, t, index)
    {
      hide Order, Agrees, PlaceOf, FindIn, FirstIn, Finds;
      LookupOverHistory(history, t);
      var i := 0;
      while i < 4
        invariant 0 <= i <= 4 && FindFrom(Order(history), t, 1) == FindFrom(Order(history), t, i + 1)
      {
        index := Search(i + 1, ValueOf(t, i + 1), t.proto);
        if index != 0 {
          return;
        }
        i := i + 1;
      }
      return 0;
    }

    /** Walks one bucket for the first rule of a value and a protocol. */
    method Search(aclType: nat, value: nat, proto: nat) returns (index: nat)
      requires Valid() && GoodType(aclType)
      ensures index == FindIn(Order(history), aclType, value, proto)
    {
      hide Order, Agrees, PlaceOf, FindIn, Members, FirstIn, BucketOf;
      var h := HashOf(hash, value, proto);
      var ok, b := AclGetHashTable(aclType, h);
      ghost var order := Order(history);
      BucketSays(hash, order, filterArr[..], hashTable[..], numFilters, freeCells, b);
      BucketFinds(hash, order, 0, aclType, value, proto);
      assert order[0..] == order;
      var list := hashTable[b].list;
      var k := 0;
      assert list[0..] == list;
      while k < |list|
        invariant k <= |list| && FirstIn(order, list[k..], value, proto) == FirstIn(order, list, value, proto)
      {
        FirstInNext(order, list, k, value, proto);
        AgreesSays(hash, order, filterArr[..], hashTable[..], numFilters, freeCells, list[k]);
        if filterArr[list[k] - 1].oneTuple == value && filterArr[list[k] - 1].proto == proto {
          return list[k];
        }
        k := k + 1;
      }
      assert list[k..] == [];
      FirstInNone(order, value, proto);
      return 0;
    }
  }

  lemma FirstInNext(order: seq<Rule>, list: seq<nat>, k: nat, value: nat, proto: nat)
    requires k < |list| && Has(order, list[k])
    ensures FirstIn(order, list[k..], value, proto) ==
      if order[PlaceOf(order, list[k])].oneTuple == value && order[PlaceOf(order, list[k])].proto == proto then list[k]
      else FirstIn(order, list[k + 1..], value, proto)
  {
    assert list[k..][0] == list[k] && list[k..][1..] == list[k + 1..];
  }

  lemma FirstInNone(order: seq<Rule>, value: nat, proto: nat)
    ensures FirstIn(order, [], value, proto) == 0
  {
  }

  lemma AgreesSays(hash: Hash, order: seq<Rule>, filterArr: seq<TwoTupleFilter>, table: seq<HashTable>,
                   numFilters: int, freeCells: int, index: nat)
    requires Agrees(hash, order, filterArr, table, numFilters, freeCells) && GoodIndex(index)
    ensures |filterArr| == FRCORE_MAX_FILTERS && |table| == BUCKETS
    ensures filterArr[index - 1].enable != 0 <==> Has(order, index)
    ensures Has(order, index) ==>
      filterArr[index - 1] == Entry(hash, order[PlaceOf(order, index)]) && GoodType(order[PlaceOf(order, index)].aclType)
    ensures RuleList(order)
  {
    SlotSays(hash, order, filterArr, index);
  }

  /** A bucket's list is its members, each of them set. */
  lemma BucketSays(hash: Hash, order: seq<Rule>, filterArr: seq<TwoTupleFilter>, table: seq<HashTable>,
                   numFilters: int, freeCells: int, b: nat)
    requires Agrees(hash, order, filterArr, table, numFilters, freeCells) && b < BUCKETS
    ensures RuleList(order) && |filterArr| == FRCORE_MAX_FILTERS && |table| == BUCKETS
    ensures table[b].list == Members(hash, order, b)
    ensures forall k | 0 <= k < |table[b].list| :: GoodIndex(table[b].list[k]) && Has(order, table[b].list[k])
  {
    hide Members, PlaceOf;
    assert BucketAgrees(hash, order, b, table[b]);
    MembersFrom(hash, order, b);
    var list := table[b].list;
    forall k | 0 <= k < |list|
      ensures GoodIndex(list[k]) && Has(order, list[k])
    {
      assert list[k] in Members(hash, order, b);
      var i :| 0 <= i < |order| && order[i].index == list[k] && BucketOf(hash, order[i]) == b;
      PlaceIs(order, i);
    }
  }

  lemma EntryBucket(hash: Hash, r: Rule)
    ensures BucketOf(hash, r) == Bucket(r.aclType, HashOf(hash, r.oneTuple, r.proto))
    ensures Entry(hash, r).hash == HashOf(hash, r.oneTuple, r.proto) < FRCORE_MAX_FILTERS
  {
  }

  lemma OrderNext(history: seq<Command>, c: Command)
    requires GoodHistory(history) && GoodCommand(c)
    ensures Order(history + [c]) == Applied(Order(history), c) && GoodHistory(history + [c])
  {
    assert (history + [c])[..|history|] == history;
  }

  lemma DeletedNone(order: seq<Rule>, index: nat)
    ensures !Has(order, index) ==> Deleted(order, index) == order
    ensures RuleList(order) ==> !Has(Deleted(order, index), index)
  {
    if RuleList(order) {
      DeletedList(order, index);
    }
  }

  lemma UpdatedTwice(order: seq<Rule>, r: Rule)
    requires RuleList(order)
    ensures Updated(Deleted(order, r.index), r) == Updated(order, r)
  {
    DeletedNone(order, r.index);
    DeletedNone(Deleted(order, r.index), r.index);
  }

  // What agreement means

  ghost function DepthSum(table: seq<HashTable>, n: nat): nat
    requires n <= |table|
  {
    if n == 0 then 0 else DepthSum(table, n - 1) + table[n - 1].bucketDepth
  }

  lemma {:induction false} DepthSumIs(hash: Hash, order: seq<Rule>, table: seq<HashTable>, n: nat)
    requires TableAgrees(hash, order, table) && n <= |table|
    ensures DepthSum(table, n) == Depths(hash, order, n)
  {
    if n > 0 {
      assert BucketAgrees(hash, order, n - 1, table[n - 1]);
      DepthSumIs(hash, order, table, n - 1);
    }
  }

  /** The depths of all the buckets together are the number of filters. */
  lemma DepthsAreFilters(hash: Hash, order: seq<Rule>, filterArr: seq<TwoTupleFilter>, table: seq<HashTable>,
                         numFilters: int, freeCells: int)
    requires Agrees(hash, order, filterArr, table, numFilters, freeCells)
    ensures DepthSum(table, |table|) == numFilters
  {
    hide Depths, DepthSum;
    DepthSumIs(hash, order, table, |table|);
    assert forall i | 0 <= i < |order| :: GoodType(order[i].aclType);
    DepthsAddUp(hash, order);
  }

  /** An enabled index is in the bucket its array entry names, once, and in no other bucket; an
      index that is not enabled is in none. */
  lemma IndexInOneBucket(hash: Hash, order: seq<Rule>, filterArr: seq<TwoTupleFilter>, table: seq<HashTable>,
                         numFilters: int, freeCells: int, index: nat, b: nat)
    requires Agrees(hash, order, filterArr, table, numFilters, freeCells) && GoodIndex(index) && b < |table|
    ensures
      var f := filterArr[index - 1];
      index in table[b].list <==> f.enable != 0 && b == Bucket(f.aclType, f.hash)
    ensures forall i, j | 0 <= i < j < |table[b].list| :: table[b].list[i] != table[b].list[j]
  {
    hide Members, PlaceOf, BucketOf;
    AgreesSays(hash, order, filterArr, table, numFilters, freeCells, index);
    BucketSays(hash, order, filterArr, table, numFilters, freeCells, b);
    MembersFrom(hash, order, b);
    MembersOnce(hash, order, b);
    if Has(order, index) {
      var k := PlaceOf(order, index);
      EntryBucket(hash, order[k]);
      MembersHas(hash, order, k);
      forall i | 0 <= i < |order| && order[i].index == index
        ensures i == k
      {
        PlaceIs(order, i);
      }
    }
  }

  lemma {:induction false} MembersHas(hash: Hash, order: seq<Rule>, k: nat)
    requires k < |order|
    ensures order[k].index in Members(hash, order, BucketOf(hash, order[k]))
  {
    if k > 0 {
      MembersHas(hash, order[1..], k - 1);
    }
  }

  lemma {:induction false} MembersOnce(hash: Hash, order: seq<Rule>, b: int)
    requires RuleList(order)
    ensures forall i, j | 0 <= i < j < |Members(hash, order, b)| :: Members(hash, order, b)[i] != Members(hash, order, b)[j]
  {
    hide BucketOf;
    if order != [] {
      var rest := Members(hash, order[1..], b);
      MembersOnce(hash, order[1..], b);
      MembersFrom(hash, order[1..], b);
      forall i | 0 <= i < |rest|
        ensures rest[i] != order[0].index
      {
        assert rest[i] in rest;
        var j :| 0 <= j < |order[1..]| && order[1..][j].index == rest[i];
        assert order[j + 1].index == rest[i];
      }
      if BucketOf(hash, order[0]) == b {
        assert Members(hash, order, b) == [order[0].index] + rest;
      } else {
        assert Members(hash, order, b) == rest;
      }
    }
  }

  /** After any history a packet finds just the rule it should. */
  lemma LookupOverHistory(history: seq<Command>, t: Filters.Tuple)
    requires GoodHistory(history)
    ensures Finds(history, t, FindFrom(Order(history), t, 1))
  {
    hide LastAbout, PlaceOf, FindFrom, Order, Matches;
    OrderExact(history);
    var found, m := FindFrom(Order(history), t, 1), 0;
    if found != 0 {
      m := FoundIsSet(history, t);
    }
    forall k: nat | Current(history, k) && Matches(history[k].rule, t)
      ensures found != 0 && (history[m].rule.aclType < history[k].rule.aclType ||
        (history[m].rule.aclType == history[k].rule.aclType && m <= k))
    {
      OtherLater(history, t, history[k].rule.index);
      CurrentIs(history, history[k].rule.index);
      if found != 0 {
        CurrentIs(history, found);
      }
    }
  }

  lemma FoundIsSet(history: seq<Command>, t: Filters.Tuple) returns (m: nat)
    requires GoodHistory(history) && FindFrom(Order(history), t, 1) != 0
    ensures Current(history, m) && m < |history| && history[m].Set?
    ensures history[m].rule.index == FindFrom(Order(history), t, 1) && Matches(history[m].rule, t)
  {
    hide LastAbout, PlaceOf, FindFrom, Order, Matches, Current;
    OrderExact(history);
    var order := Order(history);
    FindFromExact(order, t, 1);
    var found := FindFrom(order, t, 1);
    assert LastSet(history, order[PlaceOf(order, found)]);
    m := LastAbout(history, found);
    CurrentIs(history, found);
  }

  /** Any rule that is set and matches comes after the one found. */
  lemma OtherLater(history: seq<Command>, t: Filters.Tuple, other: nat)
    requires GoodHistory(history)
    ensures
      var found, k := FindFrom(Order(history), t, 1), LastAbout(history, other);
      k >= 0 && history[k].Set? && Matches(history[k].rule, t) ==>
        found != 0 &&
        var m := LastAbout(history, found);
        m >= 0 && history[m].Set? &&
        (history[m].rule.aclType < history[k].rule.aclType ||
         (history[m].rule.aclType == history[k].rule.aclType && m <= k))
  {
    hide LastAbout, PlaceOf, FindFrom, Order, Matches;
    OrderExact(history);
    var order, k := Order(history), LastAbout(history, other);
    FindFromExact(order, t, 1);
    var found := FindFrom(order, t, 1);
    if found != 0 {
      assert LastSet(history, order[PlaceOf(order, found)]);
    }
    if k >= 0 && history[k].Set? && Matches(history[k].rule, t) {
      assert Has(order, other);
      var p := PlaceOf(order, other);
      assert LastSet(history, order[p]) && GoodType(order[p].aclType);
      if found != 0 && order[p].aclType == order[PlaceOf(order, found)].aclType {
        assert p >= PlaceOf(order, found);
      }
    }
  }
}
