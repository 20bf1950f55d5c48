// Byte slices as Go has them: a window on a shared array, with room to grow behind it.
module GoSlices {
  type Byte = bv8

  datatype Slice = Slice(buf: array<Byte>, off: nat, len: nat, cap: nat) {
    ghost predicate Ok() {
      len <= cap && off + cap <= buf.Length
    }

    function Bytes(): (b: seq<Byte>)
      requires Ok()
      reads buf
      ensures |b| == len
    {
      buf[off..off + len]
    }

    /** s[lo:hi] keeps the array and the room behind it. */
    function Sub(lo: nat, hi: nat): (t: Slice)
      requires lo <= hi <= len <= cap
      ensures Ok() ==> t.Ok()
    {
      Slice(buf, off + lo, hi - lo, cap - lo)
    }

    /** `t` starts where this slice ends, in the same array, inside this slice's capacity. */
    predicate Adjoins(t: Slice) {
      t.buf == buf && t.off == off + len && len + t.len <= cap
    }
  }

  lemma SubBytes(s: Slice, lo: nat, hi: nat)
    requires lo <= hi <= s.len && s.Ok()
    ensures s.Sub(lo, hi).Bytes() == s.Bytes()[lo..hi]
  {
  }

  function Zeros(n: nat): (z: seq<Byte>)
    ensures |z| == n && forall i :: 0 <= i < n ==> z[i] == 0
  {
    seq(n, _ => 0)
  }

  /** The contents of an array after `data` was written at `at`. */
  function Overwritten(b: seq<Byte>, at: nat, data: seq<Byte>): (r: seq<Byte>)
    requires at + |data| <= |b|
    ensures |r| == |b|
  {
    b[..at] + data + b[at + |data|..]
  }

  /** Byte by byte: the written ones there, the others as they were. */
  lemma OverwrittenAt(b: seq<Byte>, at: nat, data: seq<Byte>, i: nat)
    requires at + |data| <= |b| && i < |b|
    ensures Overwritten(b, at, data)[i] == if at <= i < at + |data| then data[i - at] else b[i]
  {
  }

  /** Writing leaves an array as it is exactly when the data was there already. */
  lemma OverwrittenIsSameExactly(b: seq<Byte>, at: nat, data: seq<Byte>)
    requires at + |data| <= |b|
    ensures Overwritten(b, at, data) == b <==> b[at..at + |data|] == data
  {
  }

  lemma AWindow(s: Slice)
    requires s.Ok()
    ensures s.Bytes() == s.buf[..][s.off..s.off + s.len]
  {
  }

  /** Appending to a slice what already follows it writes nothing new. */
  lemma AppendingTheNeighbourIsHarmless(s: Slice, t: Slice)
    requires s.Ok() && t.Ok() && s.Adjoins(t)
    ensures Overwritten(s.buf[..], s.off + s.len, t.Bytes()) == s.buf[..]
  {
  }

  method Make(data: seq<Byte>, room: nat) returns (s: Slice)
    ensures s.Ok() && fresh(s.buf) && s.Bytes() == data
    ensures s.off == 0 && s.len == |data| && s.cap == |data| + room == s.buf.Length
  {
    var buf := new Byte[|data| + room](i => if 0 <= i < |data| then data[i] else 0);
    s := Slice(buf, 0, |data|, |data| + room);
    assert s.Bytes() == data;
  }

  /** append(s, t...): in place when the room behind `s` is enough, else in a new array whose
      size the runtime chooses. */
  method Append(s: Slice, t: Slice, room: nat) returns (r: Slice)
    requires s.Ok() && t.Ok()
    modifies s.buf
    ensures r.Ok() && r.Bytes() == old(s.Bytes()) + old(t.Bytes())
    ensures s.Bytes() == old(s.Bytes())
    ensures if s.len + t.len <= s.cap
            then r == s.(len := s.len + t.len) && s.buf[..] == Overwritten(old(s.buf[..]), s.off + s.len, old(t.Bytes()))
            else fresh(r.buf) && s.buf[..] == old(s.buf[..])
  {
    if s.len + t.len <= s.cap {
      var data := t.Bytes();
      forall i | 0 <= i < |data| {
        s.buf[s.off + s.len + i] := data[i];
      }
      assert s.buf[..] == Overwritten(old(s.buf[..]), s.off + s.len, old(t.Bytes()));
      r := s.(len := s.len + t.len);
      assert r.Bytes() == old(s.Bytes()) + old(t.Bytes());
    } else {
      r := Make(s.Bytes() + t.Bytes(), room);
    }
  }

  method ZeroBytes(s: Slice)
    requires s.Ok()
    modifies s.buf
    ensures s.Bytes() == Zeros(s.len)
    ensures s.buf[..] == Overwritten(old(s.buf[..]), s.off, Zeros(s.len))
  {
    for i := 0 to s.len
      invariant forall k :: s.off <= k < s.off + i ==> s.buf[k] == 0
      invariant forall k :: 0 <= k < s.buf.Length && !(s.off <= k < s.off + i) ==> s.buf[k] == old(s.buf[k])
    {
      s.buf[s.off + i] := 0;
    }
    assert s.buf[..] == Overwritten(old(s.buf[..]), s.off, Zeros(s.len));
    assert s.Bytes() == Zeros(s.len);
  }
}
