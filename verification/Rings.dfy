/** The rings of block addresses between the host and the card: an array used modulo its size,
    filled and emptied by copies that go round the end in two parts. */
module Rings {

  datatype Code = Success | NoSpace

  lemma Distribute(size: int, a: int, q: int)
    ensures size * (a - q) == size * a - size * q
  {
  }

  lemma AtLeast(size: nat, d: nat)
    requires d >= 1
    ensures size * d >= size
  {
    Distribute(size, d, 1);
    assert size * (d - 1) >= 0;
  }

  lemma Remainder(x: nat, q: nat, r: nat, size: nat)
    requires r < size && x == size * q + r
    ensures x % size == r
  {
    var d := x / size;
    Distribute(size, d, q);
    Distribute(size, q, d);
    if d > q {
      AtLeast(size, d - q);
    } else if d < q {
      AtLeast(size, q - d);
    }
  }

  /** Going i places on from a point of a ring, with no more than one turn. */
  lemma Around(r: nat, i: nat, size: nat)
    requires 0 < size && i <= size
    ensures (r + i) % size == if r % size + i < size then r % size + i else r % size + i - size
  {
    var at, q := r % size + i, r / size;
    assert r == size * q + r % size;
    if at < size {
      Remainder(r + i, q, at, size);
    } else {
      Distribute(size, q, -1);
      Remainder(r + i, q + 1, at - size, size);
    }
  }

  /** The n places of a ring from point r on. */
  ghost function Window<T>(b: seq<T>, r: nat, n: nat): (s: seq<T>)
    requires |b| > 0
    ensures |s| == n
  {
    seq(n, i requires 0 <= i < n => b[(r + i) % |b|])
  }

  /** A window in one part, or in two around the end. */
  lemma WindowParts<T>(b: seq<T>, r: nat, n: nat)
    requires 0 < |b| && n <= |b|
    ensures
      var at := r % |b|;
      Window(b, r, n) == if at + n <= |b| then b[at..at + n] else b[at..] + b[..at + n - |b|]
  {
    var at := r % |b|;
    var parts := if at + n <= |b| then b[at..at + n] else b[at..] + b[..at + n - |b|];
    forall i | 0 <= i < n
      ensures Window(b, r, n)[i] == parts[i]
    {
      Around(r, i, |b|);
    }
  }

  lemma WindowSplit<T>(b: seq<T>, r: nat, n: nat, k: nat)
    requires 0 < |b| && k <= n
    ensures Window(b, r, n)[..k] == Window(b, r, k) && Window(b, r, n)[k..] == Window(b, r + k, n - k)
  {
    assert forall i | 0 <= i < n - k :: Window(b, r, n)[k..][i] == b[(r + k + i) % |b|];
  }

  /** A ring with values written from point r on, going round the end. */
  function Written<T>(b: seq<T>, r: nat, v: seq<T>): (c: seq<T>)
    requires 0 < |b| && |v| <= |b|
    ensures |c| == |b|
  {
    var at := r % |b|;
    if at + |v| <= |b| then b[..at] + v + b[at + |v|..]
    else v[|b| - at..] + b[at + |v| - |b|..at] + v[..|b| - at]
  }

  /** Writing up to the end and then the rest at the start is writing round the end. */
  lemma TwoParts(b: seq<nat>, c: seq<nat>, d: seq<nat>, r: nat, v: seq<nat>)
    requires 0 < |b| < r % |b| + |v| && |v| <= |b|
    requires c == b[..r % |b|] + v[0..|b| - r % |b|] + b[|b|..]
    requires d == c[..0] + v[|b| - r % |b|..|v|] + c[r % |b| + |v| - |b|..]
    ensures d == Written(b, r, v)
  {
    var at := r % |b|;
    assert c[at + |v| - |b|..] == b[at + |v| - |b|..at] + v[..|b| - at];
  }

  lemma OnePart(b: seq<nat>, c: seq<nat>, r: nat, v: seq<nat>)
    requires 0 < |b| && r % |b| + |v| <= |b|
    requires c == b[..r % |b|] + v[0..|v|] + b[r % |b| + |v|..]
    ensures c == Written(b, r, v)
  {
    assert v[0..|v|] == v;
  }

  lemma TwoCopies(b: seq<nat>, l: seq<nat>, once: seq<nat>, twice: seq<nat>, at: nat, number: nat)
    requires at < |b| < at + number && number <= |b| && number <= |l|
    requires once == l[..0] + b[at..|b|] + l[0 + (|b| - at)..]
    requires twice == once[..|b| - at] + b[0..number - (|b| - at)] + once[number..]
    ensures twice == b[at..] + b[..at + number - |b|] + l[number..]
  {
    assert once[..|b| - at] == b[at..] && once[number..] == l[number..];
  }

  /** Writing one value is writing round the end. */
  lemma WrittenOne<T>(b: seq<T>, r: nat, x: T)
    requires 0 < |b|
    ensures b[r % |b| := x] == Written(b, r, [x])
  {
  }

  /** Values written just past a window come after it. */
  lemma WindowWritten<T>(b: seq<T>, r: nat, n: nat, v: seq<T>)
    requires 0 < |b| && n + |v| <= |b|
    ensures Window(Written(b, r + n, v), r, n + |v|) == Window(b, r, n) + v
  {
    var c, at := Written(b, r + n, v), (r + n) % |b|;
    Around(r, n, |b|);
    forall i | 0 <= i < n + |v|
      ensures Window(c, r, n + |v|)[i] == (Window(b, r, n) + v)[i]
    {
      Around(r, i, |b|);
    }
  }

  class Ring {
    const size: nat
    const buff: array<nat>
    var widx: nat
    var ridx: nat

    ghost predicate Valid()
      reads this, buff
    {
      0 < size == buff.Length && ridx <= widx <= ridx + size
    }

    /** The addresses on the ring, in the order in which they were put. */
    ghost function Contents(): (s: seq<nat>)
      requires Valid()
      reads this, buff
      ensures |s| == widx - ridx
    {
      Window(buff[..], ridx, widx - ridx)
    }

    constructor (size: nat)
      requires size > 0
      ensures Valid() && fresh(buff) && this.size == size && Contents() == []
    {
      this.size := size;
      buff := new nat[size](_ => 0);
      widx, ridx := 0, 0;
    }

    /** Copies n places of the ring, not going round its end, to a local buffer. */
    method CopyOut(offset: nat, n: nat, local: array<nat>, at: nat)
      requires Valid() && offset + n <= size && at + n <= local.Length && local != buff
      modifies local
      ensures local[..] == old(local[..at]) + buff[offset..offset + n] + old(local[at + n..])
    {
      for k := 0 to n
        invariant local[..] == old(local[..at]) + buff[offset..offset + k] + old(local[at + k..])
      {
        local[at + k] := buff[offset + k];
      }
    }

    method CopyIn(offset: nat, n: nat, local: array<nat>, at: nat)
      requires Valid() && offset + n <= size && at + n <= local.Length && local != buff
      modifies buff
      ensures buff[..] == old(buff[..offset]) + local[at..at + n] + old(buff[offset + n..])
    {
      for k := 0 to n
        invariant buff[..] == old(buff[..offset]) + local[at..at + k] + old(buff[offset + k..])
      {
        ghost var rest := old(buff[offset + k..]);
        assert rest[1..] == old(buff[offset + k + 1..]) && local[at..at + k + 1] == local[at..at + k] + [local[at + k]];
        buff[offset + k] := local[at + k];
      }
    }

    /** Copies number places from point r on: up to the end, and the rest from the start. */
    method CopyAround(r: nat, number: nat, local: array<nat>)
      requires Valid() && number <= size && number <= local.Length && local != buff
      modifies local
      ensures local[..] == Window(buff[..], r, number) + old(local[number..])
    {
      hide Window;
      var offset := r % size;
      var len1 := if size - offset < number then size - offset else number;
      WindowParts(buff[..], r, number);
      CopyOut(offset, len1, local, 0);
      ghost var once := local[..];
      if len1 < number {
        CopyOut(0, number - len1, local, len1);
        TwoCopies(buff[..], old(local[..]), once, local[..], offset, number);
      } else {
        assert old(local[..0]) == [];
      }
    }

    method StoreAround(r: nat, number: nat, local: array<nat>)
      requires Valid() && number <= size && number <= local.Length && local != buff
      modifies buff
      ensures buff[..] == Written(old(buff[..]), r, local[..number])
    {
      hide Written;
      var offset := r % size;
      var len1 := if size - offset < number then size - offset else number;
      ghost var v := local[..number];
      assert local[0..len1] == v[0..len1] && local[len1..number] == v[len1..number];
      CopyIn(offset, len1, local, 0);
      ghost var b := buff[..];
      if len1 < number {
        CopyIn(0, number - len1, local, len1);
        TwoParts(old(buff[..]), b, buff[..], r, v);
      } else {
        OnePart(old(buff[..]), b, r, v);
      }
    }

    /** Takes the first number addresses into a local buffer, or none when there are not so many. */
    method AvailGet(number: nat, local: array<nat>) returns (rv: Code)
      requires Valid() && number <= local.Length && local != buff
      modifies this`ridx, local
      ensures Valid()
      ensures
        if number <= |old(Contents())| then
          rv == Success && local[..] == old(Contents())[..number] + old(local[number..]) &&
          Contents() == old(Contents())[number..]
        else rv == NoSpace && Contents() == old(Contents()) && local[..] == old(local[..])
    {
      hide Window;
      if widx - ridx < number {
        return NoSpace;
      }
      WindowSplit(buff[..], ridx, widx - ridx, number);
      CopyAround(ridx, number, local);
      ridx := ridx + number;
      return Success;
    }

    /** Puts addresses at the end, all of them or, when they do not fit, none. */
    method ComplPut(number: nat, local: array<nat>) returns (rv: Code)
      requires Valid() && number <= local.Length && number <= size && local != buff
      modifies this`widx, buff
      ensures Valid()
      ensures
        if |old(Contents())| + number <= size then
          rv == Success && Contents() == old(Contents()) + local[..number]
        else rv == NoSpace && Contents() == old(Contents())
    {
      hide Window, Written;
      if widx - ridx > size - number {
        return NoSpace;
      }
      WindowWritten(buff[..], ridx, widx - ridx, local[..number]);
      StoreAround(widx, number, local);
      widx := widx + number;
      return Success;
    }

    /** The host's put of one address. */
    method PutOne(addr: nat) returns (ok: bool)
      requires Valid()
      modifies this`widx, buff
      ensures Valid() && ok == (|old(Contents())| < size)
      ensures Contents() == if ok then old(Contents()) + [addr] else old(Contents())
    {
      hide Window;
      ok := widx - ridx < size;
      if ok {
        WindowWritten(buff[..], ridx, widx - ridx, [addr]);
        ghost var b := buff[..];
        buff[widx % size] := addr;
        assert buff[..] == Written(b, widx, [addr]);
        widx := widx + 1;
      }
    }

    /** The host's get of one address. */
    method GetOne() returns (ok: bool, addr: nat)
      requires Valid()
      modifies this`ridx
      ensures Valid() && ok == (old(Contents()) != [])
      ensures ok ==> addr == old(Contents())[0] && Contents() == old(Contents())[1..]
      ensures !ok ==> Contents() == old(Contents())
    {
      ok, addr := widx > ridx, 0;
      if ok {
        WindowSplit(buff[..], ridx, widx - ridx, 1);
        addr := buff[ridx % size];
        ridx := ridx + 1;
      }
    }
  }
}
