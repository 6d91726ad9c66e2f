/** The streaming digest of utils/md2/md2.go, with its arrays updated in place. */
module Md2Digest {
  import opened Bytes
  import opened Md2

  method CopyOf(a: array<byte>) returns (b: array<byte>)
    ensures fresh(b) && b[..] == a[..]
  {
    b := new byte[a.Length](_ => 0);
    forall i | 0 <= i < a.Length {
      b[i] := a[i];
    }
  }

  lemma WholeBlocks(n: nat)
    ensures 16 * (n / 16) == n - n % 16 && 16 * (n / 16) % 16 == 0
  {}

  lemma StepSixteen(q: nat, hi: nat)
    requires q < hi && (hi - q) % 16 == 0
    ensures q + 16 <= hi && (hi - (q + 16)) % 16 == 0
  {}

  class Digest {
    const pi: Table
    const digest: array<byte>  // the running checksum
    const state: array<byte>
    const x: array<byte>       // bytes that do not make a block yet
    var nx: byte               // how many of them there are

    /** Every byte written so far, in the order in which it is or will be hashed. */
    ghost var absorbed: bytes

    predicate Shape()
    {
      digest.Length == 16 && state.Length == 48 && x.Length == 16 && digest != state && digest != x && state != x
    }

    ghost function CurrentCore(): Core
      requires Shape()
      reads digest, state
    {
      Core(state[..], digest[..])
    }

    /** The arrays are a function of the bytes written, however they came. */
    ghost predicate Valid()
      reads this, digest, state, x
    {
      Holds(PartsOf(absorbed))
    }

    constructor (table: Table)
      ensures Valid() && absorbed == [] && pi == table
      ensures fresh(digest) && fresh(state) && fresh(x)
    {
      pi := table;
      digest := new byte[16](_ => 0);
      state := new byte[48](_ => 0);
      x := new byte[16](_ => 0);
      nx := 0;
      absorbed := [];
      new;
      assert state[..] == Fill(0, 48) && digest[..] == Fill(0, 16);
    }

    /** The copy that Sum works on. */
    constructor Copy(d0: Digest)
      requires d0.Valid()
      ensures Valid() && absorbed == d0.absorbed && pi == d0.pi
      ensures fresh(digest) && fresh(state) && fresh(x)
    {
      pi := d0.pi;
      var digestCopy := CopyOf(d0.digest);
      var stateCopy := CopyOf(d0.state);
      var xCopy := CopyOf(d0.x);
      digest, state, x := digestCopy, stateCopy, xCopy;
      nx := d0.nx;
      absorbed := d0.absorbed;
      new;
      assert x[..nx] == x[..][..nx] == d0.x[..nx];
    }

    /** Hashes the 16 bytes of p from lo on; p may be the checksum array itself. */
    method Block(p: array<byte>, lo: nat)
      requires Shape() && p != state && lo + 16 <= p.Length
      modifies state, digest
      ensures CurrentCore() == Absorb(pi, old(CurrentCore()), old(p[lo..lo + 16]))
    {
      LoadBlock(p, lo);
      Mix();
      UpdateChecksum(p, lo);
    }

    method LoadBlock(p: array<byte>, lo: nat)
      requires Shape() && p != state && lo + 16 <= p.Length
      modifies state
      ensures state[..] == Load(old(state[..]), p[lo..lo + 16])
    {
      ghost var before := state[..];
      for i := 0 to 16
        invariant state[..16] == before[..16]
        invariant state[16..16 + i] == p[lo..lo + i]
        invariant forall k :: 32 <= k < 32 + i ==> state[k] == Xor(p[lo + k - 32], before[k - 32])
      {
        assert state[i] == state[..16][i] == before[i];
        state[i + 16] := p[lo + i];
        state[i + 32] := Xor(p[lo + i], state[i]);
      }
    }

    method Mix()
      requires Shape()
      modifies state
      ensures state[..] == Rounds(pi, old(state[..]), ROUNDS).0
    {
      var t: byte := 0;
      for i := 0 to ROUNDS
        invariant (state[..], t) == Rounds(pi, old(state[..]), i)
      {
        ghost var y: State48, u := state[..], t;
        for j := 0 to 48
          invariant (state[..], t) == Inner(pi, y, u, j)
        {
          ghost var z := state[..];
          state[j] := Xor(state[j], pi[t]);
          t := state[j];
          assert state[..] == z[j := t];
        }
        t := (t + i) % 0x100;
      }
    }

    method UpdateChecksum(p: array<byte>, lo: nat)
      requires Shape() && p != state && lo + 16 <= p.Length
      modifies digest
      ensures digest[..] == SumPrefix(pi, old(digest[..]), old(p[lo..lo + 16]), 16).0
    {
      ghost var sum: Block16, block: Block16 := digest[..], p[lo..lo + 16];
      var t := digest[15];
      for i := 0 to 16
        invariant (digest[..], t) == SumPrefix(pi, sum, block, i)
        invariant digest[i..] == sum[i..]
        invariant p != digest ==> p[lo..lo + 16] == block
      {
        assert p[lo + i] == block[i];
        ghost var d, u := digest[..], t;
        digest[i] := Xor(digest[i], pi[Xor(p[lo + i], t)]);
        t := digest[i];
        assert digest[..] == d[i := t];
      }
    }

    /** The arrays hold the given hashed and held bytes. */
    ghost predicate Holds(s: Parts)
      reads `nx, digest, state, x
    {
      && Shape() && nx == |s.held| < 16
      && CurrentCore() == AbsorbAll(pi, s.hashed)
      && x[..nx] == s.held
    }

    /** Hashes the 16 bytes of p from q on, behind what is hashed already. */
    method HashNext(p: array<byte>, q: nat, ghost hashed: bytes)
      requires Shape() && q + 16 <= p.Length && p != state
      requires CurrentCore() == AbsorbAll(pi, hashed)
      modifies digest, state
      ensures CurrentCore() == AbsorbAll(pi, hashed + old(p[q..q + 16]))
    {
      AbsorbOneMore(pi, hashed, p[q..q + 16]);
      Block(p, q);
    }

    /** Hashes the blocks of p[lo..hi]; p may be the checksum array if that is
        just one block. */
    method HashBlocks(p: array<byte>, lo: nat, hi: nat, ghost hashed: bytes)
      requires Shape() && lo <= hi <= p.Length && (hi - lo) % 16 == 0 && p != state
      requires p == digest ==> hi - lo == 16
      requires CurrentCore() == AbsorbAll(pi, hashed)
      modifies digest, state
      ensures CurrentCore() == AbsorbAll(pi, hashed + old(p[lo..hi]))
    {
      hide AbsorbAll, Absorb;
      ghost var whole := p[..];
      var q := lo;
      assert hashed + whole[lo..q] == hashed;
      while q < hi
        invariant lo <= q <= hi && (hi - q) % 16 == 0
        invariant q == lo || (p == digest ==> q == hi)
        invariant q == lo || p != digest ==> p[..] == whole
        invariant CurrentCore() == AbsorbAll(pi, hashed + whole[lo..q])
      {
        StepSixteen(q, hi);
        assert p[q..q + 16] == whole[q..q + 16];
        assert hashed + whole[lo..q] + whole[q..q + 16] == hashed + whole[lo..q + 16];
        HashNext(p, q, hashed + whole[lo..q]);
        q := q + 16;
      }
      assert whole[lo..hi] == old(p[lo..hi]);
    }

    lemma HeldLength()
      requires Valid()
      ensures nx == |PartsOf(absorbed).held| && Shape()
    {}

    /** Copies what does not make a block to the front of the buffer. */
    method KeepRest(p: array<byte>, q: nat, hi: nat, ghost s: Parts)
      requires Holds(s) && q <= hi <= p.Length && hi - q < 16 && p != x
      modifies `nx, x
      ensures Holds(if q == hi then s else Parts(s.hashed, old(p[q..hi])))
    {
      if hi - q > 0 {
        nx := hi - q;
        forall k | 0 <= k < hi - q {
          x[k] := p[q + k];
        }
        assert x[..nx] == p[q..hi];
      }
    }

    /** Hashes the whole blocks of p from lo on and keeps the rest. */
    method WriteBlocks(p: array<byte>, lo: nat, hi: nat, ghost s: Parts)
      requires Holds(s) && lo <= hi <= p.Length
      requires p != state && p != x && (p == digest ==> hi - lo == 16)
      modifies `nx, digest, state, x
      ensures Holds(AddBlocks(s, old(p[lo..hi])))
    {
      hide AbsorbAll, Absorb;
      ghost var rest := p[lo..hi];
      var imax := (hi - lo) / 16;
      WholeBlocks(hi - lo);
      var q := lo + 16 * imax;
      assert q - lo == |rest| - |rest| % 16;
      SplitSlice(p[..], lo, q, hi);
      HashBlocks(p, lo, q, s.hashed);
      assert q < hi ==> p[q..hi] == rest[q - lo..];
      KeepRest(p, q, hi, Parts(s.hashed + rest[..q - lo], s.held));
    }

    /** Copies n bytes behind the buffered ones; the index runs off the buffer
        if there is no room for them. */
    method CopyIn(p: array<byte>, lo: nat, n: nat) returns (panics: bool)
      requires Shape() && nx <= 16 && lo + n <= p.Length && p != x
      modifies x
      ensures panics <==> nx + n > 16
      ensures !panics ==> x[..nx + n] == old(x[..nx]) + p[lo..lo + n]
    {
      for i := 0 to n
        invariant nx + i <= 16
        invariant x[..nx + i] == old(x[..nx]) + p[lo..lo + i]
      {
        if nx + i >= 16 {
          return true;
        }
        x[nx + i] := p[lo + i];
      }
      panics := false;
    }

    /** Hashes a full buffer. */
    method HashBuffer(ghost hashed: bytes, ghost now: bytes)
      requires Shape() && nx == |now| == 16
      requires CurrentCore() == AbsorbAll(pi, hashed) && x[..nx] == now
      modifies `nx, digest, state
      ensures nx == 0 && CurrentCore() == AbsorbAll(pi, hashed + now)
    {
      assert x[0..16] == now;
      HashNext(x, 0, hashed);
      nx := 0;
    }

    /** Moves bytes to a buffer that is not empty, and hashes it when it is full. */
    method FillBuffer(p: array<byte>, lo: nat, hi: nat, ghost s: Parts) returns (n: nat, panics: bool)
      requires Holds(s) && nx > 0 && lo <= hi <= p.Length
      requires p != state && p != x && p != digest
      modifies `nx, digest, state, x
      ensures panics <==> Overruns(old(nx), hi - lo)
      ensures n == Taken(old(nx), hi - lo)
      ensures !panics ==> Holds(Fill16(s, p[lo..lo + n]))
    {
      hide AbsorbAll, Absorb;
      n := (hi - lo) % 0x100;
      if (n + nx) % 0x100 > 16 {
        n := 16 - nx;
      }
      panics := CopyIn(p, lo, n);
      if !panics {
        nx := nx + n;
        if nx == 16 {
          HashBuffer(s.hashed, s.held + p[lo..lo + n]);
        }
      }
    }

    /** Fills a buffer that is not empty, then hashes blocks and keeps the rest. */
    method WriteBytes(p: array<byte>, lo: nat, hi: nat, ghost s: Parts) returns (n: nat, panics: bool)
      requires Holds(s) && lo <= hi <= p.Length
      requires p != state && p != x && (p == digest ==> nx == 0 && hi - lo == 16)
      modifies `nx, digest, state, x
      ensures panics <==> Overruns(old(nx), hi - lo)
      ensures n == Taken(old(nx), hi - lo)
      ensures !panics ==> Holds(AddBlocks(Fill16(s, old(p[lo..hi])[..n]), old(p[lo..hi])[n..]))
    {
      hide AbsorbAll, Absorb, Fill16, AddBlocks, Taken, Overruns;
      ghost var whole := p[..];
      NothingTaken(s, p[lo..hi]);
      n, panics := 0, false;
      if nx > 0 {
        n, panics := FillBuffer(p, lo, hi, s);
      }
      if !panics {
        SplitSlice(whole, lo, lo + n, hi);
        assert p[..] == whole;
        WriteBlocks(p, lo + n, hi, Fill16(s, whole[lo..lo + n]));
      }
    }

    /** Appends p[lo..hi] to the message, unless the narrowed length makes it
        run off the buffer or puts the bytes out of order. */
    method Write(p: array<byte>, lo: nat, hi: nat) returns (panics: bool)
      requires Valid() && lo <= hi <= p.Length
      requires p != state && p != x && (p == digest ==> nx == 0 && hi - lo == 16)
      modifies this, digest, state, x
      ensures panics <==> Overruns(old(nx), hi - lo)
      ensures !panics ==> Valid() && absorbed == Written(old(absorbed), old(p[lo..hi]))
    {
      hide AbsorbAll, Absorb, Fill16, AddBlocks, Written, PartsOf, Taken, Overruns, Holds;
      ghost var data := p[lo..hi];
      assert |PartsOf(absorbed).held| == |absorbed| % 16 == nx by { WholeParts(absorbed); HeldLength(); }
      var n;
      n, panics := WriteBytes(p, lo, hi, PartsOf(absorbed));
      if !panics {
        WriteParts(absorbed, data);
        absorbed := Written(absorbed, data);
      }
    }

    /** The digest of everything written, appended to `input`; the receiver can
        go on writing. */
    method Sum(input: bytes) returns (out: bytes)
      requires Valid()
      ensures out == input + RfcDigest(pi, absorbed)
    {
      hide AbsorbAll, Absorb, RfcDigest, PartsOf, Written;
      SumWrites(pi, absorbed);
      var d := new Digest.Copy(this);
      var len := nx;
      var tmp := new byte[16](_ => 16 - len);
      assert tmp[0..16 - len] == PadBlock(|absorbed|) by { WholeParts(absorbed); }
      var panics := d.Write(tmp, 0, 16 - len);
      assert d.digest[0..16] == d.digest[..];
      panics := d.Write(d.digest, 0, 16);
      out := input + d.state[0..16];
      assert d.state[0..16] == d.state[..][..16];
    }
  }
}
