/** The growing buffer of the fast printer. */
module PrintBuffers {
  import opened Bits
  import opened CText

  // Text in front of an array ------------------------------------------------

  /** The array starts with the text `t`. */
  ghost predicate Filled(out: array<byte>, t: seq<byte>)
    reads out
  {
    |t| <= out.Length && out[..|t|] == t
  }

  /** `*ptr++=c` behind the text `t`. */
  method Put(out: array<byte>, ptr: nat, c: byte, ghost t: seq<byte>) returns (ptr': nat, ghost t': seq<byte>)
    requires Filled(out, t) && ptr == |t| < out.Length
    modifies out
    ensures t' == t + [c] && Filled(out, t') && ptr' == |t'|
  {
    out[ptr] := c;
    ptr' := ptr + 1;
    t' := t + [c];
  }

  /** `strcpy` and `memcpy` without the terminator. */
  method Copy(out: array<byte>, ptr: nat, s: seq<byte>, ghost t: seq<byte>) returns (ptr': nat, ghost t': seq<byte>)
    requires Filled(out, t) && ptr == |t| && ptr + |s| <= out.Length
    modifies out
    ensures t' == t + s && Filled(out, t') && ptr' == |t'|
  {
    ptr', t' := ptr, t;
    for i := 0 to |s|
      invariant t' == t + s[..i] && Filled(out, t') && ptr' == |t'|
    {
      ptr', t' := Put(out, ptr', s[i], t');
    }
    assert s[..|s|] == s;
  }

  method PutIf(out: array<byte>, ptr: nat, on: bool, c: byte, ghost t: seq<byte>)
    returns (ptr': nat, ghost t': seq<byte>)
    requires Filled(out, t) && ptr == |t| && (on ==> ptr < out.Length)
    modifies out
    ensures t' == (if on then t + [c] else t) && Filled(out, t') && ptr' == |t'|
  {
    ptr', t' := ptr, t;
    if on { ptr', t' := Put(out, ptr, c, t); }
  }

  // pow2gt -------------------------------------------------------------------

  const MAX: nat := 0x4000_0000

  /** On the arguments `ensure` has, where no shift meets the sign bit. */
  function Pow2Gt(x: nat): nat
    requires 1 <= x
  {
    Smear(Smear(Smear(Smear(Smear(x - 1, 1), 2), 4), 8), 16) + 1
  }

  ghost predicate IsPow2(x: nat) {
    exists n: nat :: x == Pow2(n)
  }

  lemma {:induction false} ShrIsLess(x: nat, k: nat)
    ensures Shr(x, k) <= x
  {
    if k > 0 { ShrIsLess(x / 2, k - 1); }
  }

  lemma SmearStep(x: nat, n: nat, k: nat)
    requires TopOnes(x, n, if k <= n then k else n)
    ensures TopOnes(Smear(x, k), n, if 2 * k <= n then 2 * k else n)
  {
    if k <= n {
      SmearDoubles(x, n, k, if 2 * k <= n then 2 * k else n);
    } else {
      ShrIsLess(x, k);
      OrBounds(x, Shr(x, k), n);
    }
  }

  /** The number of bits of `x`. */
  ghost function BitLength(x: nat): nat {
    if x == 0 then 0 else 1 + BitLength(x / 2)
  }

  lemma {:induction false} LeadingOne(x: nat)
    requires x > 0
    ensures BitLength(x) >= 1 && Pow2(BitLength(x) - 1) <= x < Pow2(BitLength(x))
  {
    if x > 1 { LeadingOne(x / 2); }
  }

  lemma {:induction false} AtMostThirtyBits(x: nat, n: nat)
    requires x < Pow2(n)
    ensures BitLength(x) <= n
  {
    if x > 0 && n > 0 { AtMostThirtyBits(x / 2, n - 1); }
  }

  /** `pow2gt(x)` is the least power of two that is at least `x`. */
  lemma Pow2GtIsLeast(x: nat)
    requires 1 <= x <= MAX
    ensures x <= Pow2Gt(x) <= MAX && IsPow2(Pow2Gt(x))
    ensures forall m: nat :: x <= Pow2(m) ==> Pow2Gt(x) <= Pow2(m)
  {
    hide Smear;
    var y := x - 1;
    Thirty();
    if y == 0 {
      SmearZero();
      assert Pow2(0) == 1;
      forall m: nat ensures 1 <= Pow2(m) { Pow2Monotone(0, m); }
    } else {
      var n := BitLength(y);
      LeadingOne(y);
      AtMostThirtyBits(y, 30);
      SmearStep(y, n, 1);
      SmearStep(Smear(y, 1), n, 2);
      SmearStep(Smear(Smear(y, 1), 2), n, 4);
      SmearStep(Smear(Smear(Smear(y, 1), 2), 4), n, 8);
      SmearStep(Smear(Smear(Smear(Smear(y, 1), 2), 4), 8), n, 16);
      assert Pow2Gt(x) == Pow2(n);
      Pow2Monotone(n, 30);
      forall m: nat | x <= Pow2(m) ensures Pow2(n) <= Pow2(m) {
        if m < n { Pow2Monotone(m, n - 1); } else { Pow2Monotone(n, m); }
      }
    }
  }

  lemma Thirty()
    ensures Pow2(30) == MAX
  {
    ShlPow2(10, 10);
    ShlPow2(20, 10);
    ShlTimes(1, 10);
    ShlTimes(1024, 10);
    ShlTimes(0x10_0000, 10);
  }

  lemma SmearZero()
    ensures forall k :: Smear(0, k) == 0
  {
    forall k ensures Smear(0, k) == 0 {
      ShrIsLess(0, k);
      OrZero(0);
    }
  }

  /** Of two different powers of two, the larger is at least twice the smaller. */
  lemma Pow2Gap(a: nat, b: nat)
    requires IsPow2(a) && IsPow2(b) && a < b
    ensures 2 * a <= b
  {
    var m, n :| a == Pow2(m) && b == Pow2(n);
    if n <= m { Pow2Monotone(n, m); } else { Pow2Monotone(m, n); }
  }

  // The buffer ---------------------------------------------------------------

  class PrintBuffer {
    var buffer: array<byte>
    var length: nat
    var offset: nat
    ghost var copied: nat       // bytes moved by all reallocations so far
    ghost const prebuffer: nat  // the first length

    /** With the account of what growing has cost: less than what it ended with. */
    ghost predicate Valid()
      reads this
    {
      && length == buffer.Length && offset <= length
      && (if copied == 0 then length == prebuffer || IsPow2(length) else IsPow2(length) && copied < prebuffer + length)
    }

    constructor (prebuffer: nat)
      ensures Valid() && fresh(buffer) && offset == 0 && length == prebuffer == this.prebuffer && copied == 0
    {
      this.prebuffer := prebuffer;
      buffer := new byte[prebuffer];
      length, offset, copied := prebuffer, 0, 0;
    }

    /**
     `ensure`: room for `needed` bytes from the offset on, with all bytes so
     far in place, in the old buffer or in a new one of the next power of two.
     */
    method Ensure(needed: nat) returns (ptr: nat)
      requires Valid() && offset + needed <= MAX
      modifies `buffer, `length, `copied
      ensures Valid() && ptr == offset && offset + needed <= length
      ensures old(length) <= length && buffer[..old(length)] == old(buffer[..])
      ensures if old(offset) + needed <= old(length) then buffer == old(buffer) && copied == old(copied)
              else fresh(buffer) && length == Pow2Gt(old(offset) + needed) && copied == old(copied) + old(length)
    {
      hide Pow2Gt, Smear, Or, Shr, Pow2;
      var size := needed + offset;
      if size <= length { return offset; }
      var newsize := Pow2Gt(size);
      Pow2GtIsLeast(size);
      var newbuffer := new byte[newsize];
      ghost var t: seq<byte> := [];
      var at;
      at, t := Copy(newbuffer, 0, buffer[..length], t);
      assert buffer[..length] == buffer[..];
      assert t == buffer[..];
      if copied > 0 { Pow2Gap(length, newsize); }
      copied := copied + length;
      length := newsize;
      buffer := newbuffer;
      ptr := offset;
    }

    /** `update`: where the text that starts at the offset ends. */
    method Update(ghost t: seq<byte>) returns (end: nat)
      requires Valid() && Filled(buffer, t + [NUL]) && offset <= |t| && NUL !in t[offset..]
      ensures end == |t|
    {
      ghost var u := t + [NUL];
      assert forall i :: 0 <= i < |u| ==> buffer[i] == u[i];
      assert forall i :: offset <= i < |t| ==> t[i] == t[offset..][i - offset];
      end := offset;
      while buffer[end] != NUL
        invariant offset <= end <= |t|
        decreases |t| - end
      {
        end := end + 1;
      }
    }
  }
}
