/** The XOR accumulation behind forward error correction: a parity of fragments from which
    any single missing fragment is recovered. */
module XorRecovery {
  import opened Bytes

  /** The byte at a position, zero beyond the end. */
  function At(s: seq<Byte>, i: nat): Byte {
    if i < |s| then s[i] else 0
  }

  /** Byte-wise XOR of two strings, the shorter one continued by zeros. */
  function XorPadded(a: seq<Byte>, b: seq<Byte>): (r: seq<Byte>)
    ensures |r| == if |a| < |b| then |b| else |a|
    ensures forall i :: 0 <= i < |r| ==> r[i] == At(a, i) ^ At(b, i)
  {
    seq(if |a| < |b| then |b| else |a|, i requires 0 <= i => At(a, i) ^ At(b, i))
  }

  /** Accumulates a fragment in place; the target grows with zeros when it is shorter. */
  method XorInto(target: ByteVector?, source: array?<Byte>, length: nat)
    requires target != null && source != null ==> length <= source.Length
    modifies if target == null then {} else {target, target.data}
    ensures target != null && source != null ==>
              target.Contents() == XorPadded(old(target.Contents()), old(source[..length]))
    ensures target != null && source == null ==>
              target.data == old(target.data) && target.Contents() == old(target.Contents())
  {
    if target == null || source == null || length == 0 {
      assert target != null && source != null ==>
          target.Contents() == XorPadded(target.Contents(), source[..0]);
      return;
    }
    ghost var a, b := target.Contents(), source[..length];
    if target.data.Length < length {
      target.Grow(length);
    }
    var data := target.data;
    for index := 0 to length
      invariant target.data == data && data.Length == |XorPadded(a, b)|
      invariant forall i :: 0 <= i < index ==> data[i] == XorPadded(a, b)[i]
      invariant forall i :: index <= i < data.Length ==> data[i] == At(a, i)
      invariant forall i :: index <= i < length ==> source[i] == b[i]
    {
      data[index] := data[index] ^ source[index];
    }
    assert target.Contents() == XorPadded(a, b);
  }

  // ----- the algebra -----

  lemma SameBytes(a: seq<Byte>, b: seq<Byte>)
    requires |a| == |b| && forall i :: 0 <= i < |a| ==> At(a, i) == At(b, i)
    ensures a == b
  {
    forall i | 0 <= i < |a| ensures a[i] == b[i] {
      assert At(a, i) == At(b, i);
    }
  }

  lemma XorAt(a: seq<Byte>, b: seq<Byte>, i: nat)
    ensures At(XorPadded(a, b), i) == At(a, i) ^ At(b, i)
  {
  }

  /** Two fragments can be accumulated in either order. */
  lemma XorExchange(p: seq<Byte>, a: seq<Byte>, b: seq<Byte>)
    ensures XorPadded(XorPadded(p, a), b) == XorPadded(XorPadded(p, b), a)
  {
    var l, r := XorPadded(XorPadded(p, a), b), XorPadded(XorPadded(p, b), a);
    forall i | 0 <= i < |l| ensures At(l, i) == At(r, i) {
      XorAt(XorPadded(p, a), b, i);
      XorAt(p, a, i);
      XorAt(XorPadded(p, b), a, i);
      XorAt(p, b, i);
    }
    SameBytes(l, r);
  }

  /** Accumulating a fragment twice leaves only its length behind. */
  lemma XorTwice(p: seq<Byte>, a: seq<Byte>)
    ensures XorPadded(XorPadded(p, a), a) == Padded(p, |a|)
  {
  }

  /** A string continued by zeros up to a length it may already have. */
  function Padded(s: seq<Byte>, n: nat): seq<Byte> {
    if |s| < n then s + Zeros(n - |s|) else s
  }

  // ----- accumulating fragments -----

  /** The buffer after accumulating fragments one after another. */
  function XorAll(start: seq<Byte>, fragments: seq<seq<Byte>>): (r: seq<Byte>)
    ensures |start| <= |r|
  {
    if fragments == [] then start
    else XorPadded(XorAll(start, fragments[..|fragments| - 1]), fragments[|fragments| - 1])
  }

  lemma XorAllSnoc(start: seq<Byte>, fs: seq<seq<Byte>>, f: seq<Byte>)
    ensures XorAll(start, fs + [f]) == XorPadded(XorAll(start, fs), f)
  {
    assert (fs + [f])[..|fs|] == fs;
  }

  /** The last fragment may as well have come first. */
  lemma {:induction false} XorAllFromStart(start: seq<Byte>, fs: seq<seq<Byte>>, f: seq<Byte>)
    ensures XorAll(XorPadded(start, f), fs) == XorPadded(XorAll(start, fs), f)
  {
    if fs == [] {
    } else {
      var before, last := fs[..|fs| - 1], fs[|fs| - 1];
      XorAllFromStart(start, before, f);
      XorExchange(XorAll(start, before), f, last);
    }
  }

  /** A fragment can be taken out of the middle and accumulated first. */
  lemma {:induction false} XorAllPull(start: seq<Byte>, fs: seq<seq<Byte>>, k: nat)
    requires k < |fs|
    ensures XorAll(start, fs) == XorAll(XorPadded(start, fs[k]), fs[..k] + fs[k + 1..])
  {
    hide XorAll;
    var last := fs[|fs| - 1];
    var before := fs[..|fs| - 1];
    if k == |fs| - 1 {
      assert fs[..k] + fs[k + 1..] == before && before + [last] == fs;
      XorAllSnoc(start, before, last);
      XorAllFromStart(start, before, last);
    } else {
      XorAllPull(start, before, k);
      SkipSnoc(before, last, k);
      assert before + [last] == fs;
      XorAllSnoc(start, before, last);
      XorAllSnoc(XorPadded(start, fs[k]), before[..k] + before[k + 1..], last);
    }
  }

  lemma SkipSnoc(fs: seq<seq<Byte>>, f: seq<Byte>, k: nat)
    requires k < |fs|
    ensures (fs + [f])[..k] + (fs + [f])[k + 1..] == (fs[..k] + fs[k + 1..]) + [f]
  {
  }

  lemma RemoveFromMultiset(fs: seq<seq<Byte>>, k: nat)
    requires k < |fs|
    ensures multiset(fs[..k] + fs[k + 1..]) == multiset(fs) - multiset{fs[k]}
  {
    assert fs == fs[..k] + [fs[k]] + fs[k + 1..];
  }

  /** The order in which fragments are accumulated is irrelevant. */
  lemma {:induction false} OrderIsIrrelevant(start: seq<Byte>, fs: seq<seq<Byte>>, gs: seq<seq<Byte>>)
    requires multiset(fs) == multiset(gs)
    ensures XorAll(start, fs) == XorAll(start, gs)
    decreases |fs|
  {
    hide XorAll;
    assert |fs| == |multiset(fs)| == |multiset(gs)| == |gs|;
    if fs == [] {
      assert gs == [];
    } else {
      assert fs[0] in multiset(gs);
      var k :| 0 <= k < |gs| && gs[k] == fs[0];
      XorAllPull(start, fs, 0);
      XorAllPull(start, gs, k);
      RemoveFromMultiset(fs, 0);
      RemoveFromMultiset(gs, k);
      OrderIsIrrelevant(XorPadded(start, fs[0]), fs[..0] + fs[1..], gs[..k] + gs[k + 1..]);
    }
  }

  lemma {:induction false} LengthCovers(start: seq<Byte>, fs: seq<seq<Byte>>, k: nat)
    requires k < |fs|
    ensures |fs[k]| <= |XorAll(start, fs)|
  {
    if k < |fs| - 1 {
      LengthCovers(start, fs[..|fs| - 1], k);
    }
  }

  /** Accumulating fragments into a long enough buffer twice changes nothing. */
  lemma {:induction false} XorAllTwice(p: seq<Byte>, fs: seq<seq<Byte>>)
    requires forall k :: 0 <= k < |fs| ==> |fs[k]| <= |p|
    ensures XorAll(XorAll(p, fs), fs) == p
  {
    if fs == [] {
    } else {
      var before, last := fs[..|fs| - 1], fs[|fs| - 1];
      XorAllFromStart(XorAll(p, before), before, last);
      XorAllTwice(p, before);
      XorTwice(p, last);
    }
  }

  /** One of the eight bits of a byte. */
  predicate IsBit(bit: Byte) {
    bit in {0x01, 0x02, 0x04, 0x08, 0x10, 0x20, 0x40, 0x80}
  }

  predicate HasBit(b: Byte, bit: Byte) {
    b & bit != 0
  }

  lemma BitOfXor(a: Byte, b: Byte, bit: Byte)
    requires IsBit(bit)
    ensures HasBit(a ^ b, bit) <==> HasBit(a, bit) != HasBit(b, bit)
  {
  }

  lemma BitOfXorPadded(a: seq<Byte>, b: seq<Byte>, i: nat, bit: Byte)
    requires IsBit(bit)
    ensures HasBit(At(XorPadded(a, b), i), bit) <==> HasBit(At(a, i), bit) != HasBit(At(b, i), bit)
  {
    hide HasBit, At, XorPadded;
    XorAt(a, b, i);
    BitOfXor(At(a, i), At(b, i), bit);
  }

  lemma NoBits(i: nat, bit: Byte)
    ensures !HasBit(At([], i), bit)
  {
  }

  /** How many of the fragments have this bit set at this position. */
  function Setting(fragments: seq<seq<Byte>>, i: nat, bit: Byte): nat {
    if fragments == [] then 0
    else
      Setting(fragments[..|fragments| - 1], i, bit) + (if HasBit(At(fragments[|fragments| - 1], i), bit) then 1 else 0)
  }

  /** Each bit of the parity says whether an odd number of fragments have it set. */
  lemma {:induction false} ParityByBit(fragments: seq<seq<Byte>>, i: nat, bit: Byte)
    requires IsBit(bit)
    ensures HasBit(At(XorAll([], fragments), i), bit) <==> Setting(fragments, i, bit) % 2 == 1
  {
    hide IsBit, HasBit, At, XorPadded;
    if fragments == [] {
      NoBits(i, bit);
    } else {
      var before, last := fragments[..|fragments| - 1], fragments[|fragments| - 1];
      ParityByBit(before, i, bit);
      BitOfXorPadded(XorAll([], before), last, i, bit);
    }
  }

  /** The parity is as long as the longest fragment. */
  lemma {:induction false} ParityLength(fragments: seq<seq<Byte>>) returns (longest: nat)
    requires fragments != []
    ensures longest < |fragments| && |fragments[longest]| == |XorAll([], fragments)|
    ensures forall k :: 0 <= k < |fragments| ==> |fragments[k]| <= |fragments[longest]|
  {
    var before, last := fragments[..|fragments| - 1], fragments[|fragments| - 1];
    longest := |fragments| - 1;
    if before != [] {
      var l := ParityLength(before);
      if |last| < |before[l]| {
        longest := l;
      }
    }
  }

  /** Recovery: if all fragments but one arrive, in any order, then accumulating them into
      the parity leaves the missing one, padded with zeros to the length of the parity. */
  lemma MissingFragmentIsRecovered(fs: seq<seq<Byte>>, arrived: seq<seq<Byte>>, missing: seq<Byte>)
    requires multiset(fs) == multiset(arrived) + multiset{missing}
    ensures var parity := XorAll([], fs);
            |missing| <= |parity| && XorAll(parity, arrived) == Padded(missing, |parity|)
  {
    var parity := XorAll([], fs);
    OrderIsIrrelevant([], fs, [missing] + arrived);
    XorAllPull([], [missing] + arrived, 0);
    assert ([missing] + arrived)[..0] + ([missing] + arrived)[1..] == arrived;
    var p := XorPadded([], missing);
    SameBytes(p, missing);
    assert parity == XorAll(missing, arrived);
    XorAllPadding(missing, arrived, |parity|);
    var q := Padded(missing, |parity|);
    forall k | 0 <= k < |arrived| ensures |arrived[k]| <= |q| {
      LengthCovers(missing, arrived, k);
    }
    XorAllTwice(q, arrived);
  }

  /** Padding the buffer beforehand or not makes no difference at full length. */
  lemma {:induction false} XorAllPadding(p: seq<Byte>, fs: seq<seq<Byte>>, n: nat)
    requires |XorAll(p, fs)| <= n
    ensures XorAll(Padded(p, n), fs) == Padded(XorAll(p, fs), n)
  {
    if fs == [] {
    } else {
      var before, last := fs[..|fs| - 1], fs[|fs| - 1];
      XorAllPadding(p, before, n);
      XorOfPadded(XorAll(p, before), last, n);
    }
  }

  lemma XorOfPadded(a: seq<Byte>, f: seq<Byte>, n: nat)
    requires |a| <= n && |f| <= n
    ensures XorPadded(Padded(a, n), f) == Padded(XorPadded(a, f), n)
  {
  }
}
