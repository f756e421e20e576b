/**
 Moving bits between frames.

 Every table-driven converter of gapk copies bit `from.pos[i]` of one frame to bit `to.pos[i]` of
 another, for each `i`.  `Move` says what the result is bit by bit; `Loop` is what the C loops compute,
 one in-place write at a time.  `LoopIsMove` connects the two and `MoveMove` is the law behind all
 round trips.
 */
module Placement {
  import opened Bits

  predicate Distinct(s: seq<nat>) {
    forall i, j :: 0 <= i < j < |s| ==> s[i] != s[j]
  }

  predicate Below(s: seq<nat>, n: nat) {
    forall i :: 0 <= i < |s| ==> s[i] < n
  }

  predicate Permutation(t: seq<nat>, n: nat) {
    |t| == n && Below(t, n) && Distinct(t)
  }

  function Upto(n: nat): (r: set<nat>)
    ensures |r| == n && forall v: nat :: v in r <==> v < n
  {
    if n == 0 then {} else Upto(n - 1) + {n - 1}
  }

  function Image(t: seq<nat>): set<nat> {
    set v | v in t
  }

  lemma {:induction false} DistinctCount(t: seq<nat>)
    requires Distinct(t)
    ensures |Image(t)| == |t|
  {
    if t == [] {
    } else {
      var last := |t| - 1;
      DistinctCount(t[..last]);
      assert Image(t) == Image(t[..last]) + {t[last]};
    }
  }

  /** Distinct entries below `n`, `n` of them, leave no value out (the pigeonhole principle). */
  lemma PermutationHits(t: seq<nat>, n: nat, v: nat)
    requires Permutation(t, n) && v < n
    ensures v in t
  {
    if v !in t {
      DistinctCount(t);
      SubsetCount(Image(t), Upto(n) - {v});
      assert false;
    }
  }

  lemma PermutationCovers(t: seq<nat>, n: nat)
    requires Permutation(t, n)
    ensures forall v: nat :: v in t <==> v < n
  {
    forall v: nat
      ensures v in t <==> v < n
    {
      if v < n {
        PermutationHits(t, n, v);
      }
    }
  }

  lemma {:induction false} SubsetCount(a: set<nat>, b: set<nat>)
    requires a <= b
    ensures |a| <= |b|
  {
    if a == {} {
    } else {
      var x :| x in a;
      SubsetCount(a - {x}, b - {x});
    }
  }

  function IndexOf(s: seq<nat>, v: nat): (i: nat)
    requires v in s
    ensures i < |s| && s[i] == v
  {
    if s[|s| - 1] == v then |s| - 1 else IndexOf(s[..|s| - 1], v)
  }

  /** One end of a conversion: a `len`-byte frame read in order `o` whose `i`-th payload bit is bit `pos[i]`. */
  datatype Side = Side(o: Order, len: nat, pos: seq<nat>) {
    predicate Valid() {
      Distinct(pos) && Below(pos, 8 * len)
    }
  }

  /** `base` with every payload bit taken from `src`. */
  function Move(from: Side, to: Side, base: seq<byte>, src: seq<byte>): (dst: seq<byte>)
    requires |from.pos| == |to.pos|
  {
    Pack(to.o, to.len, (p: nat) => if p in to.pos then Get(from.o, src, from.pos[IndexOf(to.pos, p)])
                            else Get(to.o, base, p))
  }

  lemma MoveBits(from: Side, to: Side, base: seq<byte>, src: seq<byte>)
    requires |from.pos| == |to.pos| && to.Valid()
    ensures |Move(from, to, base, src)| == to.len
    ensures forall i :: 0 <= i < |to.pos| ==>
      Get(to.o, Move(from, to, base, src), to.pos[i]) == Get(from.o, src, from.pos[i])
    ensures forall p: nat :: p < 8 * to.len && p !in to.pos ==>
      Get(to.o, Move(from, to, base, src), p) == Get(to.o, base, p)
  {
    forall i | 0 <= i < |to.pos|
      ensures IndexOf(to.pos, to.pos[i]) == i
    {
    }
  }

  /**
   If payload bits `i` and `j` are the source bits `a` and `b`, in either order, both frames agree on "one of
   the two is set".
   */
  lemma PairMoved(from: Side, to: Side, base: seq<byte>, src: seq<byte>, i: nat, j: nat, a: nat, b: nat)
    requires |from.pos| == |to.pos| && to.Valid() && i < |to.pos| && j < |to.pos|
    requires (from.pos[i] == a && from.pos[j] == b) || (from.pos[i] == b && from.pos[j] == a)
    ensures var dst := Move(from, to, base, src);
      (Get(to.o, dst, to.pos[i]) || Get(to.o, dst, to.pos[j])) == (Get(from.o, src, a) || Get(from.o, src, b))
  {
    MoveBits(from, to, base, src);
  }

  /** `Move` is the only frame with those bits. */
  lemma MoveUnique(from: Side, to: Side, base: seq<byte>, src: seq<byte>, dst: seq<byte>)
    requires |from.pos| == |to.pos| && to.Valid() && |dst| == to.len
    requires forall i :: 0 <= i < |to.pos| ==> Get(to.o, dst, to.pos[i]) == Get(from.o, src, from.pos[i])
    requires forall p: nat :: p < 8 * to.len && p !in to.pos ==> Get(to.o, dst, p) == Get(to.o, base, p)
    ensures dst == Move(from, to, base, src)
  {
    var m := Move(from, to, base, src);
    MoveBits(from, to, base, src);
    forall p: nat | p < 8 * to.len
      ensures Get(to.o, dst, p) == Get(to.o, m, p)
    {
      if p in to.pos {
        var i := IndexOf(to.pos, p);
        assert to.pos[i] == p;
      }
    }
    SameBits(to.o, dst, m);
  }

  /** Composition: what lies outside the payload in the middle frame never matters. */
  lemma MoveMove(a: Side, b: Side, c: Side, base1: seq<byte>, base2: seq<byte>, src: seq<byte>)
    requires |a.pos| == |b.pos| == |c.pos| && b.Valid() && c.Valid()
    ensures Move(b, c, base2, Move(a, b, base1, src)) == Move(a, c, base2, src)
  {
    MoveBits(a, b, base1, src);
    MoveBits(b, c, base2, Move(a, b, base1, src));
    MoveUnique(a, c, base2, src, Move(b, c, base2, Move(a, b, base1, src)));
  }

  /** Moving onto itself, a frame made of payload bits only is unchanged. */
  lemma MoveAll(side: Side, base: seq<byte>, x: seq<byte>)
    requires side.Valid() && |x| == side.len
    requires forall p: nat :: p < 8 * side.len ==> p in side.pos
    ensures Move(side, side, base, x) == x
  {
    MoveUnique(side, side, base, x, x);
  }

  /** The first `k` iterations of a conversion loop on a destination buffer that holds `init`. */
  function Loop(init: seq<byte>, from: Side, to: Side, src: seq<byte>, k: nat): (dst: seq<byte>)
    requires |from.pos| == |to.pos| && Below(to.pos, 8 * |init|) && k <= |to.pos|
    ensures |dst| == |init|
  {
    if k == 0 then init
    else Put(to.o, Loop(init, from, to, src, k - 1), to.pos[k - 1], Get(from.o, src, from.pos[k - 1]))
  }

  lemma {:induction false} LoopBits(init: seq<byte>, from: Side, to: Side, src: seq<byte>, k: nat)
    requires |from.pos| == |to.pos| && Below(to.pos, 8 * |init|) && k <= |to.pos| && Distinct(to.pos)
    ensures forall i :: 0 <= i < k ==>
      Get(to.o, Loop(init, from, to, src, k), to.pos[i]) == Get(from.o, src, from.pos[i])
    ensures forall p: nat :: p !in to.pos[..k] ==>
      Get(to.o, Loop(init, from, to, src, k), p) == Get(to.o, init, p)
  {
    if k == 0 {
    } else {
      LoopBits(init, from, to, src, k - 1);
    }
  }

  lemma {:induction false} LoopTail(init: seq<byte>, from: Side, to: Side, src: seq<byte>, k: nat)
    requires |from.pos| == |to.pos| && to.Valid() && to.len <= |init| && k <= |to.pos|
    ensures Below(to.pos, 8 * |init|)
    ensures Loop(init, from, to, src, k)[to.len..] == init[to.len..]
  {
    if k == 0 {
    } else {
      LoopTail(init, from, to, src, k - 1);
    }
  }

  lemma LoopPrefix(init: seq<byte>, from: Side, to: Side, base: seq<byte>, src: seq<byte>)
    requires |from.pos| == |to.pos| && to.Valid() && to.len <= |init|
    requires forall p: nat :: p < 8 * to.len && p !in to.pos ==> Get(to.o, init, p) == Get(to.o, base, p)
    ensures Below(to.pos, 8 * |init|)
    ensures Loop(init, from, to, src, |to.pos|)[..to.len] == Move(from, to, base, src)
  {
    var all := Loop(init, from, to, src, |to.pos|);
    LoopBits(init, from, to, src, |to.pos|);
    assert to.pos[..|to.pos|] == to.pos;
    var dst := all[..to.len];
    forall p: nat | p < 8 * to.len ensures Get(to.o, dst, p) == Get(to.o, all, p) {
      PrefixBit(to.o, all, to.len, p);
    }
    MoveUnique(from, to, base, src, dst);
  }

  lemma PrefixBit(o: Order, s: seq<byte>, n: nat, p: nat)
    requires n <= |s| && p < 8 * n
    ensures Get(o, s[..n], p) == Get(o, s, p)
  {
  }

  /**
   The loop computes `Move`, whatever the buffer held before, as soon as the bits it never writes were
   given their final value up front; bytes past the frame stay as they were.
   */
  lemma LoopIsMove(init: seq<byte>, from: Side, to: Side, base: seq<byte>, src: seq<byte>)
    requires |from.pos| == |to.pos| && to.Valid() && to.len <= |init|
    requires forall p: nat :: p < 8 * to.len && p !in to.pos ==> Get(to.o, init, p) == Get(to.o, base, p)
    ensures Below(to.pos, 8 * |init|)
    ensures Loop(init, from, to, src, |to.pos|) == Move(from, to, base, src) + init[to.len..]
  {
    LoopPrefix(init, from, to, base, src);
    LoopTail(init, from, to, src, |to.pos|);
    Split(Loop(init, from, to, src, |to.pos|), to.len);
  }

  lemma Split(s: seq<byte>, n: nat)
    requires n <= |s|
    ensures s == s[..n] + s[n..]
  {
  }

  /** The loop on a buffer whose first `to.len` bytes were cleared. */
  lemma LoopIsMoveCleared(rest: seq<byte>, from: Side, to: Side, src: seq<byte>)
    requires |from.pos| == |to.pos| && to.Valid()
    ensures Below(to.pos, 8 * (to.len + |rest|))
    ensures Loop(Zeros(to.len) + rest, from, to, src, |to.pos|) == Move(from, to, Zeros(to.len), src) + rest
  {
    var init := Zeros(to.len) + rest;
    assert forall p: nat :: p < 8 * to.len ==> Get(to.o, init, p) == Get(to.o, Zeros(to.len), p);
    LoopIsMove(init, from, to, Zeros(to.len), src);
  }

  /** When a loop writes the first `bits` bits and the last byte was cleared first, no stale bit is left. */
  lemma TailCleared(o: Order, t: seq<nat>, bits: nat, n: nat, init: seq<byte>)
    requires Permutation(t, bits) && 0 < n <= |init| && 8 * n - 8 <= bits <= 8 * n && init[n - 1] == 0
    ensures forall p: nat :: p < 8 * n && p !in t ==> p >= bits && Get(o, init, p) == Get(o, Zeros(n), p)
  {
    ZerosAreClear(o, n);
    PermutationCovers(t, bits);
    forall p: nat | bits <= p < 8 * n
      ensures !Get(o, init, p)
    {
      ZeroByte(o, init, p);
    }
  }

  lemma RunPermutes(n: nat)
    ensures Permutation(Run(0, n), n)
  {
  }

  /** The first `n` bit positions shifted by `at`. */
  function Run(at: nat, n: nat): (pos: seq<nat>)
    ensures |pos| == n && forall i :: 0 <= i < n ==> pos[i] == at + i
  {
    seq(n, i requires 0 <= i => at + i)
  }

  /** `i >= gap ? i + 4 : i`, the TI layout with its 4 unused bits. */
  function Gapped(n: nat, gap: nat): (pos: seq<nat>)
    ensures |pos| == n && forall i :: 0 <= i < n ==> pos[i] == if i >= gap then i + 4 else i
  {
    seq(n, i requires 0 <= i => if i >= gap then i + 4 else i)
  }

  /** Exactly the positions below `n + 4` outside the gap occur. */
  lemma GappedHits(n: nat, gap: nat, p: nat)
    requires gap <= n
    ensures p in Gapped(n, gap) <==> p < n + 4 && !(gap <= p < gap + 4)
  {
    var pos := Gapped(n, gap);
    if p < gap {
      assert pos[p] == p;
    } else if gap + 4 <= p < n + 4 {
      assert pos[p - 4] == p;
    }
  }

  lemma RunHits(at: nat, n: nat, p: nat)
    ensures p in Run(at, n) <==> at <= p < at + n
  {
    if at <= p < at + n {
      assert Run(at, n)[p - at] == p;
    }
  }

  /** `x` with every bit from `bits` on cleared. */
  function ClearFrom(bits: nat, x: seq<byte>): (r: seq<byte>)
    ensures |r| == |x|
    ensures forall p: nat :: Get(Msb, r, p) == (p < bits && Get(Msb, x, p))
  {
    Pack(Msb, |x|, (p: nat) => p < bits && Get(Msb, x, p))
  }

  /**
   A table-driven format: where the payload bits sit in the canonical frame and in the format's own
   frame, and what the format stores outside its payload.
   */
  datatype Layout = Layout(canon: Side, side: Side, base: seq<byte>) {
    predicate Valid() {
      canon.Valid() && side.Valid() && |canon.pos| == |side.pos| && |base| == side.len
    }

    function FromCanon(x: seq<byte>): seq<byte>
      requires Valid()
    {
      Move(canon, side, base, x)
    }

    function ToCanon(y: seq<byte>): seq<byte>
      requires Valid()
    {
      Move(side, canon, Zeros(canon.len), y)
    }

    /** The payload of a canonical frame is its first `bits` bits. */
    ghost predicate Covers(bits: nat) {
      canon.o == Msb && bits <= 8 * canon.len && forall p: nat :: p in canon.pos <==> p < bits
    }

    /** A format whose table is a permutation of the first `bits` bits holds exactly these. */
    lemma PermutationPayload(bits: nat)
      requires canon.o == Msb && bits <= 8 * canon.len && Permutation(canon.pos, bits)
      ensures Covers(bits)
    {
      PermutationCovers(canon.pos, bits);
    }

    /** Through the format and back, a canonical frame only loses the bits that are no payload. */
    lemma RoundTrip(bits: nat, x: seq<byte>)
      requires Valid() && Covers(bits) && |x| == canon.len
      ensures ToCanon(FromCanon(x)) == ClearFrom(bits, x)
    {
      MoveMove(canon, side, canon, base, Zeros(canon.len), x);
      ZerosAreClear(Msb, canon.len);
      MoveUnique(canon, canon, Zeros(canon.len), x, ClearFrom(bits, x));
    }

    /** Unused canonical bits are not looked at... */
    lemma IgnoresTail(bits: nat, x: seq<byte>)
      requires Valid() && Covers(bits)
      ensures FromCanon(ClearFrom(bits, x)) == FromCanon(x)
    {
      MoveBits(canon, side, base, x);
      forall i | 0 <= i < |side.pos|
        ensures Get(side.o, FromCanon(x), side.pos[i]) == Get(Msb, ClearFrom(bits, x), canon.pos[i])
      {
        assert canon.pos[i] in canon.pos;
      }
      MoveUnique(canon, side, base, ClearFrom(bits, x), FromCanon(x));
    }

    /** ... and always come out clear. */
    lemma ClearsTail(bits: nat, y: seq<byte>)
      requires Valid() && Covers(bits)
      ensures ClearFrom(bits, ToCanon(y)) == ToCanon(y)
    {
      MoveBits(side, canon, Zeros(canon.len), y);
      ZerosAreClear(Msb, canon.len);
      SameBits(Msb, ClearFrom(bits, ToCanon(y)), ToCanon(y));
    }

    /** Through canonical form and back, a frame of the format only gets its unused bits reset. */
    lemma SideRoundTrip(y: seq<byte>)
      requires Valid()
      ensures FromCanon(ToCanon(y)) == Move(side, side, base, y)
    {
      MoveMove(side, canon, side, Zeros(canon.len), base, y);
    }

    /** Payload bit `i` of both conversions, and the bits that no payload bit sits on. */
    lemma Lands(z: seq<byte>, i: nat, p: nat)
      requires Valid() && i < |side.pos|
      ensures Get(side.o, FromCanon(z), side.pos[i]) == Get(canon.o, z, canon.pos[i])
      ensures Get(canon.o, ToCanon(z), canon.pos[i]) == Get(side.o, z, side.pos[i])
      ensures p < 8 * side.len && p !in side.pos ==> Get(side.o, FromCanon(z), p) == Get(side.o, base, p)
      ensures p < 8 * canon.len && p !in canon.pos ==> !Get(canon.o, ToCanon(z), p)
    {
      MoveBits(canon, side, base, z);
      MoveBits(side, canon, Zeros(canon.len), z);
      ZerosAreClear(canon.o, canon.len);
    }

    lemma Lengths(z: seq<byte>)
      requires Valid()
      ensures |FromCanon(z)| == side.len && |ToCanon(z)| == canon.len
    {
    }
  }
}
