/** When the loops of FRU reading end: the read loop for devices that answer
    the same question always the same way, and the walk over multi-records. */
module FruTermination {
  import opened Bytes
  import opened FruRead

  /** A device whose answers do not depend on how often it was asked. */
  ghost predicate Stationary(d: Device)
  {
    forall n: nat, k: nat, offset: uint16, count: byte :: d(n, offset, count) == d(k, offset, count)
  }

  lemma {:induction false} TryReadIsStationary(d: Device, n: nat, k: nat, offset: uint16, count: byte)
    requires Stationary(d)
    ensures TryRead(d, n, offset, count).0 == TryRead(d, k, offset, count).0
    decreases count
  {
    assert d(n, offset, count) == d(k, offset, count);
    if count > 0 {
      TryReadIsStationary(d, n + 1, k + 1, offset, count - 1);
    }
  }

  /** No answer counts more bytes than were asked for; it may count none. */
  ghost predicate Modest(d: Device)
  {
    forall n: nat, offset: uint16, count: byte :: WithinCount(count, d(n, offset, count))
  }

  predicate WithinCount(count: byte, r: Reply)
  {
    r.Answer? ==> r.countReturned <= count
  }

  lemma {:induction false} TryReadIsModest(d: Device, n: nat, offset: uint16, count: byte)
    requires Modest(d)
    ensures var r := TryRead(d, n, offset, count).0;
      r.Some? ==> r.value.Answer? && r.value.countReturned <= count
    decreases count
  {
    if count > 0 {
      assert WithinCount(count, d(n, offset, count));
      TryReadIsModest(d, n + 1, offset, count - 1);
    }
  }

  /** Reading on from here, some answer counts no bytes before everything is read
      or a read fails. */
  predicate Stalls(d: Device, n: nat, offset: uint16, length: uint16)
    decreases length
  {
    length > 0 &&
    match TryRead(d, n, offset, FirstCount(length))
    case (Some(Answer(k, _)), n1) => k == 0 || (k <= length && Stalls(d, n1, (offset + k) % 0x1_0000, length - k))
    case _ => false
  }

  lemma {:induction false} StallsIsStationary(d: Device, n: nat, k: nat, offset: uint16, length: uint16)
    requires Stationary(d)
    ensures Stalls(d, n, offset, length) <==> Stalls(d, k, offset, length)
    decreases length
  {
    hide TryRead, Stationary;
    if length > 0 {
      TryReadIsStationary(d, n, k, offset, FirstCount(length));
      var (t, n1) := TryRead(d, n, offset, FirstCount(length));
      var k1 := TryRead(d, k, offset, FirstCount(length)).1;
      if t.Some? && t.value.Answer? && 0 < t.value.countReturned <= length {
        var got := t.value.countReturned;
        StallsIsStationary(d, n1, k1, (offset + got) % 0x1_0000, length - got);
      }
    }
  }

  /** From a device that answers the same question always the same way and never
      counts more than was asked: reading never ends if and only if some answer
      on the way counts no bytes; otherwise it ends within as many rounds as
      there are bytes to read. */
  lemma {:induction false} ReadNeverEndsIffStalls(d: Device, n: nat, offset: uint16, length: uint16, fuel: nat)
    requires Stationary(d) && Modest(d)
    ensures Stalls(d, n, offset, length) ==> ReadAll(d, n, offset, length, fuel).0 == Unfinished
    ensures !Stalls(d, n, offset, length) && fuel >= length as nat ==> ReadAll(d, n, offset, length, fuel).0 != Unfinished
    decreases fuel
  {
    hide TryRead, Stationary, Modest, FirstCount;
    if length > 0 && fuel > 0 {
      var count := FirstCount(length);
      FirstCountIsPositive(length);
      TryReadIsModest(d, n, offset, count);
      var (t, n1) := TryRead(d, n, offset, count);
      if t.Some? {
        var k := t.value.countReturned;
        assert (length - k) % 0x1_0000 == length - k;
        var next: uint16 := (offset + k) % 0x1_0000;
        ReadNeverEndsIffStalls(d, n1, next, length - k, fuel - 1);
        if k == 0 {
          StallsIsStationary(d, n, n1, offset, length);
        }
      }
    }
  }

  lemma FirstCountIsPositive(length: uint16)
    ensures FirstCount(length) <= length && (length > 0 ==> FirstCount(length) > 0)
  {}

  /** So a device that always answers with count 0 is asked for ever. */
  lemma CountZeroNeverEnds(d: Device, n: nat, offset: uint16, length: uint16, fuel: nat)
    requires forall n: nat, offset: uint16, count: byte :: d(n, offset, count) == Answer(0, [])
    requires length > 0
    ensures ReadAll(d, n, offset, length, fuel).0 == Unfinished
  {
    hide ReadAll;
    assert Stationary(d);
    assert Modest(d);
    assert Stalls(d, n, offset, length);
    ReadNeverEndsIffStalls(d, n, offset, length, fuel);
  }

  /** One round of the read loop, for a stationary device: what is left to read
      determines the rest, because offset and length always add up to the same. */
  function Round(d: Device, end: uint16, length: uint16): Option<uint16>
  {
    match TryRead(d, 0, (end - length) % 0x1_0000, FirstCount(length)).0
    case Some(Answer(k, _)) => Some((length - k) % 0x1_0000)
    case _ => None
  }

  predicate EndsIn(d: Device, end: uint16, length: uint16, fuel: nat)
    decreases fuel
  {
    length == 0
    || (fuel > 0 && (Round(d, end, length).None? || EndsIn(d, end, Round(d, end, length).value, fuel - 1)))
  }

  lemma OneRoundOfRead(d: Device, n: nat, offset: uint16, length: uint16, fuel: nat)
    requires length > 0 && fuel > 0
    ensures var (t, n1) := TryRead(d, n, offset, FirstCount(length));
      ReadAll(d, n, offset, length, fuel).0 == Unfinished
      <==> t.Some? && t.value.Answer? && var k := t.value.countReturned;
           ReadAll(d, n1, (offset + k) % 0x1_0000, (length - k) % 0x1_0000, fuel - 1).0 == Unfinished
  {
    hide TryRead;
  }

  lemma OneRoundOfEnds(d: Device, offset: uint16, length: uint16, fuel: nat)
    requires length > 0 && fuel > 0
    ensures var end, t := (offset + length) % 0x1_0000, TryRead(d, 0, offset, FirstCount(length)).0;
      !EndsIn(d, end, length, fuel)
      <==> t.Some? && t.value.Answer? && !EndsIn(d, end, (length - t.value.countReturned) % 0x1_0000, fuel - 1)
  {
    hide TryRead;
    SameEnd(offset, length, 0);
  }

  lemma NoRound(d: Device, n: nat, offset: uint16, length: uint16, fuel: nat)
    requires length == 0 || fuel == 0
    ensures ReadAll(d, n, offset, length, fuel).0 != Unfinished <==> length == 0
    ensures EndsIn(d, (offset + length) % 0x1_0000, length, fuel) <==> length == 0
  {}

  lemma {:induction false} ReadEnds(d: Device, n: nat, offset: uint16, length: uint16, fuel: nat)
    requires Stationary(d)
    ensures ReadAll(d, n, offset, length, fuel).0 != Unfinished <==> EndsIn(d, (offset + length) % 0x1_0000, length, fuel)
    decreases fuel
  {
    hide TryRead, Stationary, FirstCount, ReadAll, EndsIn;
    if length == 0 || fuel == 0 {
      NoRound(d, n, offset, length, fuel);
    } else {
      OneRoundOfRead(d, n, offset, length, fuel);
      OneRoundOfEnds(d, offset, length, fuel);
      TryReadIsStationary(d, n, 0, offset, FirstCount(length));
      var (t, n1) := TryRead(d, n, offset, FirstCount(length));
      if t.Some? && t.value.Answer? {
        var k := t.value.countReturned;
        SameEnd(offset, length, k);
        ReadEnds(d, n1, (offset + k) % 0x1_0000, (length - k) % 0x1_0000, fuel - 1);
      }
    }
  }

  lemma SameEnd(offset: uint16, length: uint16, k: byte)
    ensures ((offset + length) % 0x1_0000 - length) % 0x1_0000 == offset
    ensures ((offset + k) % 0x1_0000 + (length - k) % 0x1_0000) % 0x1_0000 == (offset + length) % 0x1_0000
  {}

  /** The lengths from which the loop ends within fuel rounds. */
  ghost function Ending(d: Device, end: uint16, fuel: nat): set<uint16>
  {
    set length: uint16 | EndsIn(d, end, length, fuel)
  }

  lemma {:induction false} EndingGrows(d: Device, end: uint16, length: uint16, fuel: nat)
    ensures EndsIn(d, end, length, fuel) ==> EndsIn(d, end, length, fuel + 1)
    decreases fuel
  {
    hide Round;
    if length > 0 && fuel > 0 && Round(d, end, length).Some? {
      EndingGrows(d, end, Round(d, end, length).value, fuel - 1);
    }
  }

  /** Once a further round lets no further length end, no number of rounds does. */
  lemma {:induction false} EndingStays(d: Device, end: uint16, fuel: nat, more: nat, length: uint16)
    requires Ending(d, end, fuel + 1) == Ending(d, end, fuel) && more >= fuel
    ensures EndsIn(d, end, length, more) ==> length in Ending(d, end, fuel)
    decreases more
  {
    hide Round;
    if more == fuel || length == 0 {
    } else if Round(d, end, length).Some? && EndsIn(d, end, length, more) {
      EndingStays(d, end, fuel, more - 1, Round(d, end, length).value);
      assert EndsIn(d, end, length, fuel + 1);
      assert length in Ending(d, end, fuel + 1);
    } else if Round(d, end, length).None? {
      assert length in Ending(d, end, fuel + 1);
    }
  }

  lemma {:induction false} EndingIsLarge(d: Device, end: uint16, fuel: nat)
    requires forall f: nat :: f < fuel ==> Ending(d, end, f + 1) != Ending(d, end, f)
    ensures |Ending(d, end, fuel)| > fuel
    decreases fuel
  {
    hide EndsIn;
    if fuel == 0 {
      ZeroEnds(d, end);
    } else {
      EndingIsLarge(d, end, fuel - 1);
      var small, large := Ending(d, end, fuel - 1), Ending(d, end, fuel);
      forall length: uint16 | length in small
        ensures length in large
      {
        EndingGrows(d, end, length, fuel - 1);
      }
      ProperSubset(small, large);
    }
  }

  lemma ZeroEnds(d: Device, end: uint16)
    ensures |Ending(d, end, 0)| > 0
  {
    assert 0 in Ending(d, end, 0);
  }

  lemma ProperSubset(small: set<uint16>, large: set<uint16>)
    requires small < large
    ensures |small| < |large|
  {
    assert large == small + (large - small);
    assert large - small != {};
  }

  lemma {:induction false} AtMost(s: set<uint16>, n: nat)
    requires forall x <- s :: x < n
    ensures |s| <= n
    decreases n
  {
    if n > 0 {
      var rest := set x | x in s && x < n - 1;
      AtMost(rest, n - 1);
      assert s <= rest + (if n - 1 < 0x1_0000 then {(n - 1) as int} else {});
      if n - 1 in s {
        assert s == rest + {n - 1};
      } else {
        assert s == rest;
      }
    } else {
      assert s == {};
    }
  }

  /** From a device that answers the same question always the same way, whatever
      it counts, the read loop ends within 65535 rounds or never. */
  lemma EndsSoonOrNever(d: Device, n: nat, offset: uint16, length: uint16, fuel: nat)
    requires Stationary(d) && fuel >= 0xffff
    ensures ReadAll(d, n, offset, length, fuel).0 == Unfinished <==> ReadAll(d, n, offset, length, 0xffff).0 == Unfinished
  {
    hide EndsIn, ReadAll, Stationary;
    var end: uint16 := (offset + length) % 0x1_0000;
    ReadEnds(d, n, offset, length, fuel);
    ReadEnds(d, n, offset, length, 0xffff);
    EndsWithin(d, end, length, fuel);
  }

  lemma EndsWithin(d: Device, end: uint16, length: uint16, fuel: nat)
    requires fuel >= 0xffff
    ensures EndsIn(d, end, length, fuel) <==> EndsIn(d, end, length, 0xffff)
  {
    hide EndsIn;
    if f: nat :| f < 0xffff && Ending(d, end, f + 1) == Ending(d, end, f) {
      if EndsIn(d, end, length, fuel) {
        EndingStays(d, end, f, fuel, length);
      }
      GrowsFrom(d, end, length, f, 0xffff);
    } else {
      EndingIsLarge(d, end, 0xffff);
      AtMost(Ending(d, end, 0xffff), 0x1_0000);
      AllEnd(d, end, length);
    }
    GrowsFrom(d, end, length, 0xffff, fuel);
  }

  lemma {:induction false} GrowsFrom(d: Device, end: uint16, length: uint16, f: nat, g: nat)
    requires f <= g
    ensures EndsIn(d, end, length, f) ==> EndsIn(d, end, length, g)
    decreases g
  {
    hide EndsIn;
    if f < g {
      GrowsFrom(d, end, length, f, g - 1);
      EndingGrows(d, end, length, g - 1);
    }
  }

  lemma AllEnd(d: Device, end: uint16, length: uint16)
    requires |Ending(d, end, 0xffff)| > 0xffff
    ensures EndsIn(d, end, length, 0xffff)
  {
    hide EndsIn;
    var s := Ending(d, end, 0xffff);
    if length !in s {
      WithoutOne(s, length, 0x1_0000);
    }
  }

  /** A set of numbers below n that lacks one of them has fewer than n elements. */
  lemma {:induction false} WithoutOne(s: set<uint16>, x: uint16, n: nat)
    requires (forall y <- s :: y < n) && x < n && x !in s
    ensures |s| < n
  {
    assert |s + {x}| == |s| + 1;
    AtMost(s + {x}, n);
  }

  /** A record with 251 data bytes that is not the last one is read for ever. */
  lemma {:induction false} Length251NeverEnds(d: Device, m: bytes, n: nat, offset: uint16, fuel: nat, patience: nat)
    requires Honest(d, m) && Obliging(d, m) && patience >= 260
    requires RecordFits(m, offset) && m[offset + 2] == 251 && m[offset + 1] < 0x80
    requires forall k: nat :: GivesLength(d(k, offset, 5))
    ensures var w := WalkFrom(d, n, offset, fuel, patience);
      w.result == Unfinished && w.offsets == seq(fuel, _ => offset)
    decreases fuel
  {
    hide Honest, Obliging, ReadRecord, WalkFrom, GivesLength;
    if fuel == 0 {
      NoRecord(d, n, offset, patience);
    } else {
      RecordIsRead(d, m, n, offset, patience);
      assert GivesLength(d(n, offset, 5));
      OneRecord(d, n, offset, fuel, patience);
      InMemory(d, m);
      NextOffsetIsRight(offset, 251);
      Length251NeverEnds(d, m, ReadRecord(d, n, offset, patience).1, offset, fuel - 1, patience);
      assert seq(fuel, _ => offset) == [offset] + seq(fuel - 1, _ => offset);
    }
  }
}
