/**
 * The int16 circular buffer (circbuf.h, circbuf.c): a sample array with a
 * write pointer. `put` advances the pointer and stores the new sample there;
 * `get` and `set` address the sample `offset` places behind the pointer.
 */
module CircBuf {
  import opened Ints

  /** circbuf_int16_t: the buffer contents (its length is `len`) and the write pointer. */
  datatype Ring = Ring(buf: seq<I16>, ptr: int)

  /** The pointer addresses a slot of a non-empty buffer. */
  predicate Valid(c: Ring)
  {
    |c.buf| >= 1 && 0 <= c.ptr < |c.buf|
  }

  /**
   * The offsets `get`/`set` can address without leaving the array: the source
   * adds `len` once to a negative index, so the index `ptr - offset` must lie
   * in [-len, len).
   */
  predicate Addressable(c: Ring, offset: int)
  {
    -|c.buf| <= c.ptr - offset < |c.buf|
  }

  /** clear_circbuf_int16_t: every slot becomes 0 and the pointer returns to 0. */
  method Clear(c: Ring) returns (r: Ring)
    ensures |r.buf| == |c.buf| && r.ptr == 0
    ensures forall i :: 0 <= i < |r.buf| ==> r.buf[i] == 0
    ensures |c.buf| >= 1 ==> Valid(r)
  {
    var b := c.buf;
    var i := 0;
    while i < |b|
      invariant 0 <= i <= |b| == |c.buf|
      invariant forall j :: 0 <= j < i ==> b[j] == 0
    {
      b := b[i := 0];
      i := i + 1;
    }
    r := Ring(b, 0);
  }

  /** init_circbuf_int16_t: adopt the caller's array, whatever it held, and clear it. */
  method Init(storage: seq<I16>) returns (r: Ring)
    ensures |r.buf| == |storage| && r.ptr == 0
    ensures forall i :: 0 <= i < |r.buf| ==> r.buf[i] == 0
  {
    r := Clear(Ring(storage, 0));
  }

  /** put_circbuf_int16_t: advance the pointer, wrapping at `len`, and store the sample there. */
  function Put(c: Ring, x: I16): (r: Ring)
    requires Valid(c)
    ensures Valid(r) && |r.buf| == |c.buf|
    ensures r.ptr == (c.ptr + 1) % |c.buf|
    ensures r.buf[r.ptr] == x
    ensures forall i :: 0 <= i < |c.buf| && i != r.ptr ==> r.buf[i] == c.buf[i]
  {
    var p := c.ptr + 1;
    var p := if p == |c.buf| then 0 else p;
    ModUnique(c.ptr + 1, |c.buf|, if p == 0 then 1 else 0, p);
    Ring(c.buf[p := x], p)
  }

  /** The array index that `get`/`set` compute for `offset`. */
  function Slot(c: Ring, offset: int): (i: int)
    requires Addressable(c, offset)
    ensures 0 <= i < |c.buf|
    ensures i == (c.ptr - offset) % |c.buf|
  {
    var p := c.ptr - offset;
    var i := if p < 0 then |c.buf| + p else p;
    ModUnique(p, |c.buf|, if p < 0 then -1 else 0, i);
    i
  }

  /** get_circbuf_int16_t: the sample `offset` places behind the pointer. */
  function Get(c: Ring, offset: int): (v: I16)
    requires Addressable(c, offset)
    ensures v == c.buf[(c.ptr - offset) % |c.buf|]
  {
    c.buf[Slot(c, offset)]
  }

  /** set_circbuf_int16_t: overwrite the sample `offset` places behind the pointer. */
  function Set(c: Ring, x: I16, offset: int): (r: Ring)
    requires Addressable(c, offset)
    ensures r.ptr == c.ptr && |r.buf| == |c.buf|
    ensures r.buf[(c.ptr - offset) % |c.buf|] == x
    ensures forall i :: 0 <= i < |c.buf| && i != (c.ptr - offset) % |c.buf| ==> r.buf[i] == c.buf[i]
  {
    Ring(c.buf[Slot(c, offset) := x], c.ptr)
  }

  /** In a valid buffer every offset in [0, len) is addressable. */
  lemma ValidAddressable(c: Ring, offset: int)
    requires Valid(c) && 0 <= offset < |c.buf|
    ensures Addressable(c, offset)
  {
  }

  /** The sample just put is the one at offset 0. */
  lemma PutGet(c: Ring, x: I16)
    requires Valid(c)
    ensures Addressable(Put(c, x), 0) && Get(Put(c, x), 0) == x
  {
  }

  /** A put moves every older sample one offset further back. */
  lemma PutShift(c: Ring, x: I16, k: int)
    requires Valid(c) && 1 <= k < |c.buf|
    ensures Addressable(Put(c, x), k) && Addressable(c, k - 1)
    ensures Get(Put(c, x), k) == Get(c, k - 1)
  {
    var r := Put(c, x);
    var n := |c.buf|;
    if c.ptr + 1 == n {
      assert r.ptr == 0;
      assert Slot(r, k) == n - k == Slot(c, k - 1);
    } else {
      assert r.ptr == c.ptr + 1;
      assert Slot(r, k) == Slot(c, k - 1);
    }
    assert Slot(r, k) != r.ptr;
  }

  /** A set is read back by a get at the same offset, and the pointer stays. */
  lemma SetGet(c: Ring, x: I16, offset: int)
    requires Addressable(c, offset)
    ensures Addressable(Set(c, x, offset), offset)
    ensures Get(Set(c, x, offset), offset) == x
    ensures Set(c, x, offset).ptr == c.ptr
  {
  }

  /** A set leaves every other offset of a valid buffer as it was. */
  lemma SetOther(c: Ring, x: I16, offset: int, other: int)
    requires Valid(c) && 0 <= offset < |c.buf| && 0 <= other < |c.buf| && other != offset
    ensures Addressable(Set(c, x, offset), other) && Addressable(c, other)
    ensures Get(Set(c, x, offset), other) == Get(c, other)
  {
    assert Slot(c, offset) != Slot(c, other);
  }

  /** A run of puts, oldest first. */
  function PutAll(c: Ring, xs: seq<I16>): (r: Ring)
    requires Valid(c)
    ensures Valid(r) && |r.buf| == |c.buf|
    ensures r.ptr == (c.ptr + |xs|) % |c.buf|
    decreases |xs|
  {
    if xs == [] then c
    else
      var r0 := PutAll(c, xs[..|xs| - 1]);
      ModSucc(c.ptr + |xs| - 1, |c.buf|);
      Put(r0, xs[|xs| - 1])
  }

  /** After at most `len` puts, offset k reads the sample put k calls before the last one. */
  lemma {:induction false} PutAllHistory(c: Ring, xs: seq<I16>, k: int)
    requires Valid(c) && |xs| <= |c.buf| && 0 <= k < |xs|
    ensures Addressable(PutAll(c, xs), k)
    ensures Get(PutAll(c, xs), k) == xs[|xs| - 1 - k]
    decreases |xs|
  {
    var init := xs[..|xs| - 1];
    var r0 := PutAll(c, init);
    if k == 0 {
      PutGet(r0, xs[|xs| - 1]);
    } else {
      PutShift(r0, xs[|xs| - 1], k);
      PutAllHistory(c, init, k - 1);
      assert init[|init| - 1 - (k - 1)] == xs[|xs| - 1 - k];
    }
  }
}
