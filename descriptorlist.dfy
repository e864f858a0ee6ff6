/**
 * Descriptor lists: the descriptor loop of a table, a vector of descriptors
 * edited in place. A DVB private descriptor (tag 0x80 and above) is
 * interpreted in the context of the last private_data_specifier (PDS)
 * descriptor before it, and an MPEG private one in the context of the last
 * registration descriptor.
 */
module DescriptorLists {
  import opened Bytes
  import opened Wrappers
  import opened DataBlocks
  import opened Descriptors
  import Memory

  /** PDS and REGID values are 32-bit; PDS_NULL and REGID_NULL are both all ones. */
  type uint32 = x: nat | x < 0x1_0000_0000
  type uint16 = x: nat | x < 0x1_0000
  const NULL32: uint32 := 0xFFFF_FFFF
  const PDS_NULL: uint32 := NULL32
  const REGID_NULL: uint32 := NULL32

  function Min(a: nat, b: nat): nat { if a <= b then a else b }

  // ---------------------------------------------------------------------
  // PDS and registration context
  // ---------------------------------------------------------------------

  /**
   * UpdatePDS / UpdateREGID: the 32-bit value, big endian, at the start of
   * the payload of a valid descriptor with tag `did` and at least four
   * payload bytes.
   */
  function Value32(c: Content, did: byte): Option<uint32>
  {
    if c.Some? && Tag(c) == did && PayloadSize(c) >= 4 then
      assert Pow256(4) == 0x1_0000_0000;
      Some(Memory.GetUIntBE(c.value[2..], 4))
    else None
  }

  /** The variable after UpdatePDS(v, c) or UpdateREGID(v, c). */
  function Update(v: uint32, c: Content, did: byte): uint32
  {
    if Value32(c, did).Some? then Value32(c, did).value else v
  }

  /** A descriptor that sets a non-null value. */
  predicate Carries(c: Content, did: byte)
  {
    Value32(c, did).Some? && Value32(c, did).value != NULL32
  }

  /**
   * The backward scan of privateDataSpecifier() and registrationId(): the
   * value set by the nearest descriptor before index i that sets a non-null
   * value, or the null value when there is none.
   */
  function LastValue(l: seq<Content>, i: nat, did: byte): uint32
    requires i <= |l|
  {
    if i == 0 then NULL32
    else if Carries(l[i - 1], did) then Value32(l[i - 1], did).value
    else LastValue(l, i - 1, did)
  }

  /**
   * The backward scan gives null exactly when no descriptor before i sets a
   * value, and otherwise the value of the last one that does.
   */
  lemma {:induction false} LastValueSpec(l: seq<Content>, i: nat, did: byte)
    requires i <= |l|
    ensures LastValue(l, i, did) == NULL32 <==> forall k :: 0 <= k < i ==> !Carries(l[k], did)
    ensures LastValue(l, i, did) != NULL32 ==>
              exists j :: 0 <= j < i && Carries(l[j], did) && Value32(l[j], did).value == LastValue(l, i, did) &&
                          forall k :: j < k < i ==> !Carries(l[k], did)
  {
    LastValueNull(l, i, did);
    if LastValue(l, i, did) != NULL32 {
      var j := LastCarrier(l, i, did);
      assert LastCarrierAt(l, i, did, j);
    }
  }

  lemma {:induction false} LastValueNull(l: seq<Content>, i: nat, did: byte)
    requires i <= |l|
    ensures LastValue(l, i, did) == NULL32 <==> forall k :: 0 <= k < i ==> !Carries(l[k], did)
  {
    if i > 0 {
      LastValueNull(l, i - 1, did);
    }
  }

  /** The descriptor at j is the last one before i that sets a value, and sets LastValue. */
  predicate LastCarrierAt(l: seq<Content>, i: nat, did: byte, j: nat)
    requires i <= |l|
  {
    j < i && Carries(l[j], did) && Value32(l[j], did).value == LastValue(l, i, did) &&
    forall k :: j < k < i ==> !Carries(l[k], did)
  }

  lemma {:induction false} LastCarrier(l: seq<Content>, i: nat, did: byte) returns (j: nat)
    requires i <= |l| && LastValue(l, i, did) != NULL32
    ensures LastCarrierAt(l, i, did, j)
  {
    if Carries(l[i - 1], did) {
      j := i - 1;
    } else {
      j := LastCarrier(l, i - 1, did);
    }
  }

  /** The PDS variable after UpdatePDS on each descriptor of l in order, starting from v. */
  function EffectPds(v: uint32, l: seq<Content>): uint32
  {
    if l == [] then v else Update(EffectPds(v, l[..|l| - 1]), l[|l| - 1], DID_DVB_PRIV_DATA_SPECIF)
  }

  lemma {:induction false} EffectPdsCons(v: uint32, c: Content, l: seq<Content>)
    ensures EffectPds(v, [c] + l) == EffectPds(Update(v, c, DID_DVB_PRIV_DATA_SPECIF), l)
    decreases |l|
  {
    if l != [] {
      assert ([c] + l)[..|l|] == [c] + l[..|l| - 1];
      EffectPdsCons(v, c, l[..|l| - 1]);
    }
  }

  /**
   * canRemovePDS(): the descriptor at i is a PDS descriptor and every
   * private descriptor after it has another PDS descriptor between them.
   */
  predicate PdsRemovable(l: seq<Content>, i: nat)
  {
    i < |l| && Tag(l[i]) == DID_DVB_PRIV_DATA_SPECIF &&
    forall j :: i < j < |l| && Tag(l[j]) >= 0x80 ==>
      exists k :: i < k < j && Tag(l[k]) == DID_DVB_PRIV_DATA_SPECIF
  }

  /** canRemovePDS() only looks ahead, so it is the same on a suffix. */
  lemma {:induction false} PdsRemovableSuffix(p: seq<Content>, s: seq<Content>)
    ensures PdsRemovable(p + s, |p|) <==> PdsRemovable(s, 0)
  {
    var l := p + s;
    if PdsRemovable(s, 0) {
      forall j | |p| < j < |l| && Tag(l[j]) >= 0x80
        ensures exists k :: |p| < k < j && Tag(l[k]) == DID_DVB_PRIV_DATA_SPECIF
      {
        assert l[j] == s[j - |p|];
        var k :| 0 < k < j - |p| && Tag(s[k]) == DID_DVB_PRIV_DATA_SPECIF;
        assert l[k + |p|] == s[k];
      }
    }
    if PdsRemovable(l, |p|) {
      assert s[0] == l[|p|];
      forall j | 0 < j < |s| && Tag(s[j]) >= 0x80
        ensures exists k :: 0 < k < j && Tag(s[k]) == DID_DVB_PRIV_DATA_SPECIF
      {
        assert l[j + |p|] == s[j];
        var k :| |p| < k < j + |p| && Tag(l[k]) == DID_DVB_PRIV_DATA_SPECIF;
        assert s[k - |p|] == l[k];
      }
    }
  }

  /** Every private descriptor has some PDS descriptor before it. */
  predicate PdsCovered(l: seq<Content>)
  {
    forall j :: 0 <= j < |l| && Tag(l[j]) >= 0x80 ==>
      exists k :: 0 <= k < j && Tag(l[k]) == DID_DVB_PRIV_DATA_SPECIF
  }

  /** Moving the split point of l = pre + s one element to the right. */
  lemma {:induction false} SplitAfterHead<T>(l: seq<T>, pre: seq<T>, s: seq<T>)
    requires l == pre + s && s != []
    ensures l[..|pre| + 1] == pre + [s[0]] && l[|pre| + 1..] == s[1..]
  {
  }

  /** The list without the element at index i. */
  function RemoveAt(l: seq<Content>, i: nat): (r: seq<Content>)
    requires i < |l|
    ensures |r| == |l| - 1
  {
    l[..i] + l[i + 1..]
  }

  /** Removal keeps every descriptor acceptable. */
  lemma {:induction false} RemoveAtOk(l: seq<Content>, i: nat)
    requires i < |l| && forall j :: 0 <= j < |l| ==> ContentOk(l[j])
    ensures forall j :: 0 <= j < |l| - 1 ==> ContentOk(RemoveAt(l, i)[j])
  {
    forall j | 0 <= j < |l| - 1
      ensures ContentOk(RemoveAt(l, i)[j])
    {
      assert RemoveAt(l, i)[j] == if j < i then l[j] else l[j + 1];
    }
  }

  /** Removing what removeByIndex() allows to remove keeps every private descriptor covered. */
  lemma {:induction false} RemoveKeepsCovered(l: seq<Content>, i: nat)
    requires PdsCovered(l) && i < |l|
    requires Tag(l[i]) != DID_DVB_PRIV_DATA_SPECIF || PdsRemovable(l, i)
    ensures PdsCovered(RemoveAt(l, i))
  {
    var r := RemoveAt(l, i);
    forall j | 0 <= j < |r| && Tag(r[j]) >= 0x80
      ensures exists k :: 0 <= k < j && Tag(r[k]) == DID_DVB_PRIV_DATA_SPECIF
    {
      if j < i {
        assert r[j] == l[j];
        var k :| 0 <= k < j && Tag(l[k]) == DID_DVB_PRIV_DATA_SPECIF;
        assert r[k] == l[k];
      } else {
        assert r[j] == l[j + 1];
        var k :| 0 <= k < j + 1 && Tag(l[k]) == DID_DVB_PRIV_DATA_SPECIF;
        if k < i {
          assert r[k] == l[k];
        } else if k > i {
          assert r[k - 1] == l[k];
        } else {
          var k2 :| i < k2 < j + 1 && Tag(l[k2]) == DID_DVB_PRIV_DATA_SPECIF;
          assert r[k2 - 1] == l[k2];
        }
      }
    }
  }

  // ---------------------------------------------------------------------
  // Binary form of a list
  // ---------------------------------------------------------------------

  /** The bytes of the descriptors of l, one after the other. */
  function Flatten(l: seq<Content>): seq<byte>
  {
    if l == [] then [] else ContentBytes(l[0]) + Flatten(l[1..])
  }

  lemma {:induction false} FlattenConcat(a: seq<Content>, b: seq<Content>)
    ensures Flatten(a + b) == Flatten(a) + Flatten(b)
  {
    if a == [] {
      assert a + b == b;
    } else {
      assert (a + b)[0] == a[0] && (a + b)[1..] == a[1..] + b;
      FlattenConcat(a[1..], b);
    }
  }

  lemma {:induction false} FlattenSnoc(a: seq<Content>, c: Content)
    ensures Flatten(a + [c]) == Flatten(a) + ContentBytes(c)
  {
    FlattenConcat(a, [c]);
    assert [c][1..] == [];
  }

  /** The valid descriptors holding the given bytes. */
  function AsContents(d: seq<seq<byte>>): (r: seq<Content>)
    ensures |r| == |d| && forall i :: 0 <= i < |d| ==> r[i] == Some(d[i])
  {
    if d == [] then [] else [Some(d[0])] + AsContents(d[1..])
  }

  lemma {:induction false} FlattenAsContentsCons(x: seq<byte>, d: seq<seq<byte>>)
    ensures Flatten(AsContents([x] + d)) == x + Flatten(AsContents(d))
  {
    assert ([x] + d)[1..] == d;
  }

  /** Descriptors split off the front of a memory area, and the bytes left. */
  datatype Split = Split(descs: seq<seq<byte>>, rest: seq<byte>)

  /**
   * The loop of add(data, size): consecutive tag/length items, as long as
   * at least two bytes remain and the announced length fits.
   */
  function SplitDescriptors(s: seq<byte>): (r: Split)
    ensures |r.rest| < 2 || r.rest[1] + 2 > |r.rest|
    decreases |s|
  {
    if |s| >= 2 && s[1] + 2 <= |s| then
      var n: nat := s[1] as int + 2;
      var r := SplitDescriptors(s[n..]);
      Split([s[..n]] + r.descs, r.rest)
    else
      Split([], s)
  }

  /** Every item split off is a well-formed descriptor, and the items and the rest make up the area. */
  lemma {:induction false} SplitDescriptorsSpec(s: seq<byte>)
    ensures forall i :: 0 <= i < |SplitDescriptors(s).descs| ==> WellFormed(SplitDescriptors(s).descs[i])
    ensures Flatten(AsContents(SplitDescriptors(s).descs)) + SplitDescriptors(s).rest == s
  {
    SplitWellFormed(s);
    SplitCovers(s);
  }

  lemma {:induction false} SplitWellFormed(s: seq<byte>)
    ensures forall i :: 0 <= i < |SplitDescriptors(s).descs| ==> WellFormed(SplitDescriptors(s).descs[i])
    decreases |s|
  {
    if |s| >= 2 && s[1] + 2 <= |s| {
      var n: nat := s[1] as int + 2;
      var r := SplitDescriptors(s[n..]);
      SplitWellFormed(s[n..]);
      var d := SplitDescriptors(s).descs;
      assert d == [s[..n]] + r.descs;
      forall i | 0 <= i < |d|
        ensures WellFormed(d[i])
      {
        if i > 0 {
          assert d[i] == r.descs[i - 1];
        }
      }
    }
  }

  lemma {:induction false} SplitCovers(s: seq<byte>)
    ensures Flatten(AsContents(SplitDescriptors(s).descs)) + SplitDescriptors(s).rest == s
    decreases |s|
  {
    if |s| >= 2 && s[1] + 2 <= |s| {
      var n: nat := s[1] as int + 2;
      var r := SplitDescriptors(s[n..]);
      SplitCovers(s[n..]);
      var x := s[..n];
      assert SplitDescriptors(s) == Split([x] + r.descs, r.rest);
      FlattenAsContentsCons(x, r.descs);
      SplitAt(s, n, Flatten(AsContents(r.descs)), r.rest);
    }
  }

  lemma {:induction false} SplitAt<T>(s: seq<T>, n: nat, f: seq<T>, rest: seq<T>)
    requires n <= |s| && s[n..] == f + rest
    ensures (s[..n] + f) + rest == s
  {
    assert s == s[..n] + s[n..];
  }

  lemma {:induction false} SliceOfSuffix<T>(l: seq<T>, i: nat, k: nat)
    requires i + k <= |l|
    ensures l[i..][..k] == l[i..i + k]
  {
    assert |l[i..][..k]| == k;
    forall m | 0 <= m < k
      ensures l[i..][..k][m] == l[i..i + k][m]
    {
    }
  }

  lemma {:induction false} SliceSnoc<T>(l: seq<T>, i: nat, j: nat)
    requires i <= j < |l|
    ensures l[i..j + 1] == l[i..j] + [l[j]]
  {
    assert |l[i..j + 1]| == |l[i..j] + [l[j]]|;
    forall m | 0 <= m < j + 1 - i
      ensures l[i..j + 1][m] == (l[i..j] + [l[j]])[m]
    {
    }
  }

  lemma AppendAssoc<T>(a: seq<T>, b: seq<T>, c: seq<T>)
    ensures (a + b) + c == a + (b + c)
  {
  }

  /** The loop invariant of add(data, size): `done` split off, `s` still to split. */
  predicate SplitInv(whole: seq<byte>, done: seq<seq<byte>>, s: seq<byte>)
  {
    SplitDescriptors(whole) == Split(done + SplitDescriptors(s).descs, SplitDescriptors(s).rest)
  }

  /** One iteration of the loop of add(data, size), on values. */
  lemma {:induction false} SplitLoopStep(whole: seq<byte>, done: seq<seq<byte>>, s: seq<byte>, n: nat)
    requires |s| >= 2 && n == s[1] as int + 2 && n <= |s|
    requires SplitInv(whole, done, s)
    ensures SplitInv(whole, done + [s[..n]], s[n..])
    ensures AsContents(done + [s[..n]]) == AsContents(done) + [Some(s[..n])]
  {
    var r := SplitDescriptors(s[n..]);
    assert SplitDescriptors(s) == Split([s[..n]] + r.descs, r.rest);
    assert done + ([s[..n]] + r.descs) == (done + [s[..n]]) + r.descs;
  }

  /** When the loop of add(data, size) stops, `done` is the whole split and `s` its rest. */
  lemma {:induction false} SplitLoopEnd(whole: seq<byte>, done: seq<seq<byte>>, s: seq<byte>)
    requires !(|s| >= 2 && s[1] as int + 2 <= |s|)
    requires SplitInv(whole, done, s)
    ensures SplitDescriptors(whole).descs == done && SplitDescriptors(whole).rest == s
  {
    assert SplitDescriptors(s) == Split([], s);
    assert done + [] == done;
  }

  /** Splitting the binary form of a list of valid descriptors gives back the list. */
  lemma {:induction false} SplitFlatten(l: seq<Content>)
    requires forall i :: 0 <= i < |l| ==> l[i].Some? && WellFormed(l[i].value)
    ensures AsContents(SplitDescriptors(Flatten(l)).descs) == l
    ensures SplitDescriptors(Flatten(l)).rest == []
  {
    if l != [] {
      var d := l[0].value;
      var t := Flatten(l[1..]);
      SplitFlatten(l[1..]);
      assert Flatten(l) == d + t;
      SplitCons(d, t);
      var r := SplitDescriptors(t);
      AsContentsCons(d, r.descs);
      assert l == [Some(d)] + l[1..];
    }
  }

  /** A well-formed descriptor in front of an area is split off first. */
  lemma {:induction false} SplitCons(d: seq<byte>, t: seq<byte>)
    requires WellFormed(d)
    ensures SplitDescriptors(d + t) == Split([d] + SplitDescriptors(t).descs, SplitDescriptors(t).rest)
  {
    var s := d + t;
    var n: nat := d[1] as int + 2;
    assert s[1] == d[1];
    assert s[..n] == d;
    assert s[n..] == t;
  }

  lemma {:induction false} AsContentsCons(x: seq<byte>, d: seq<seq<byte>>)
    ensures AsContents([x] + d) == [Some(x)] + AsContents(d)
  {
    assert ([x] + d)[1..] == d;
  }

  /** The bytes serialize() writes from `start` up to `next`. */
  function WrittenBytes(l: seq<Content>, start: nat, next: nat): seq<byte>
  {
    if start <= next <= |l| then Flatten(l[start..next]) else []
  }

  lemma {:induction false} WrittenSnoc(l: seq<Content>, start: nat, next: nat)
    requires start <= next < |l|
    ensures WrittenBytes(l, start, next + 1) == WrittenBytes(l, start, next) + ContentBytes(l[next])
  {
    FlattenSnoc(l[start..next], l[next]);
    assert l[start..next + 1] == l[start..next] + [l[next]];
  }

  /** The loop of serialize(addr, size, start) over the descriptors of l. */
  method SerializeFrom(l: seq<Content>, buf: array<byte>, addr: nat, size: nat, start: nat)
    returns (next: nat, newAddr: nat, newSize: nat)
    requires addr + size <= buf.Length
    modifies buf
    ensures start <= next
    ensures start >= |l| ==> next == start
    ensures start < |l| ==> next <= |l| && (next < |l| ==> |WrittenBytes(l, start, next)| + Size(l[next]) > size)
    ensures |WrittenBytes(l, start, next)| <= size
    ensures newAddr == addr + |WrittenBytes(l, start, next)| && newSize == size - |WrittenBytes(l, start, next)|
    ensures buf[..] == Memory.Spliced(old(buf[..]), addr, WrittenBytes(l, start, next))
  {
    next, newAddr, newSize := start, addr, size;
    ghost var o := buf[..];
    while next < |l| && Size(l[next]) <= newSize
      invariant start <= next && (start >= |l| ==> next == start) && (start < |l| ==> next <= |l|)
      invariant newAddr == addr + |WrittenBytes(l, start, next)| && newSize == size - |WrittenBytes(l, start, next)|
      invariant buf[..] == Memory.Spliced(o, addr, WrittenBytes(l, start, next))
    {
      var c := ContentBytes(l[next]);
      ghost var w, before := WrittenBytes(l, start, next), buf[..];
      Memory.MemCopy(buf, newAddr, c);
      Memory.SpliceStep(o, before, buf[..], addr, w, newAddr, c);
      WrittenSnoc(l, start, next);
      newAddr := newAddr + |c|;
      newSize := newSize - |c|;
      next := next + 1;
    }
  }

  /** Descriptors from `start` up to and including `next` take no more than the whole list. */
  lemma {:induction false} PrefixFits(l: seq<Content>, start: nat, next: nat)
    requires start <= next < |l|
    ensures |Flatten(l[start..next])| + Size(l[next]) <= |Flatten(l)|
  {
    var b, k := l[start..], next + 1 - start;
    SuffixShorter(l, start);
    PrefixShorter(b, k);
    var p, c := l[start..next], l[next];
    SliceOfSuffix(l, start, k);
    SliceSnoc(l, start, next);
    FlattenSnoc(p, c);
  }

  lemma {:induction false} SuffixShorter(l: seq<Content>, i: nat)
    requires i <= |l|
    ensures |Flatten(l[i..])| <= |Flatten(l)|
  {
    FlattenConcat(l[..i], l[i..]);
    assert l == l[..i] + l[i..];
  }

  lemma {:induction false} PrefixShorter(l: seq<Content>, i: nat)
    requires i <= |l|
    ensures |Flatten(l[..i])| <= |Flatten(l)|
  {
    FlattenConcat(l[..i], l[i..]);
    assert l == l[..i] + l[i..];
  }

  /** The bytes written into a zero-filled extension of bb. */
  lemma {:induction false} ZeroTail(initial: seq<byte>, bb: seq<byte>, w: seq<byte>, added: nat)
    requires initial == bb + seq(added, _ => 0) && |w| <= added
    ensures Memory.Spliced(initial, |bb|, w) == bb + w + seq(added - |w|, _ => 0)
  {
    assert initial[..|bb|] == bb;
    assert initial[|bb| + |w|..] == seq(added - |w|, _ => 0);
  }

  /** The 16-bit field of lengthSerialize(): the length or'ed with the reserved bits shifted left. */
  function LengthField(len: nat, reserved: uint16, lengthBits: nat): nat
  {
    OrBits(len, Shl(reserved, Min(lengthBits, 16)), 16)
  }

  /**
   * When the length fits in its bits, the field's low bits give back the
   * length and its high bits are the low bits of the reserved value.
   */
  lemma {:induction false} LengthFieldDecodes(len: nat, reserved: uint16, lengthBits: nat)
    requires len < Pow2(Min(lengthBits, 16))
    ensures LowBits(LengthField(len, reserved, lengthBits), Min(lengthBits, 16)) == len
    ensures Shr(LengthField(len, reserved, lengthBits), Min(lengthBits, 16)) ==
            LowBits(reserved, 16 - Min(lengthBits, 16))
  {
    var b := Min(lengthBits, 16);
    var h := OrBits(0, reserved, 16 - b);
    OrBitsShifted(len, reserved, b, 16);
    OrBitsZero(reserved, 16 - b);
    ShlIsMul(h, b);
    DivModUnique(LengthField(len, reserved, lengthBits), Pow2(b), h, len);
  }

  // ---------------------------------------------------------------------
  // Removal specifications
  // ---------------------------------------------------------------------

  /** check_pds of removeByTag() and search(). */
  predicate CheckPds(tag: byte, pds: uint32)
  {
    pds != 0 && pds != PDS_NULL && tag >= 0x80
  }

  /**
   * The list left by the loop of removeByTag() on the suffix s, `cur` being
   * the PDS in force before s: a matching descriptor is erased, except a
   * PDS descriptor still needed by a later private descriptor.
   */
  function RemoveTag(s: seq<Content>, tag: byte, pds: uint32, cur: uint32): seq<Content>
    decreases |s|
  {
    if s == [] then []
    else if RemovesHead(s, tag, pds, cur) then RemoveTag(s[1..], tag, pds, cur)
    else [s[0]] + RemoveTag(s[1..], tag, pds, if CheckPds(tag, pds) then Update(cur, s[0], DID_DVB_PRIV_DATA_SPECIF) else cur)
  }

  /** The erasure test of removeByTag() on the first descriptor of s. */
  predicate RemovesHead(s: seq<Content>, tag: byte, pds: uint32, cur: uint32)
    requires s != []
  {
    Tag(s[0]) == tag && (!CheckPds(tag, pds) || cur == pds) &&
    (Tag(s[0]) != DID_DVB_PRIV_DATA_SPECIF || PdsRemovable(s, 0))
  }

  /** The PDS in force after the first descriptor of s for removeByTag(). */
  function RemoveTagNext(s: seq<Content>, tag: byte, pds: uint32, cur: uint32): uint32
    requires s != []
  {
    if !RemovesHead(s, tag, pds, cur) && CheckPds(tag, pds) then Update(cur, s[0], DID_DVB_PRIV_DATA_SPECIF) else cur
  }

  lemma {:induction false} RemoveTagStep(s: seq<Content>, tag: byte, pds: uint32, cur: uint32)
    requires s != []
    ensures RemoveTag(s, tag, pds, cur) ==
            (if RemovesHead(s, tag, pds, cur) then [] else [s[0]]) + RemoveTag(s[1..], tag, pds, RemoveTagNext(s, tag, pds, cur))
  {
    if RemovesHead(s, tag, pds, cur) {
      assert [] + RemoveTag(s[1..], tag, pds, cur) == RemoveTag(s[1..], tag, pds, cur);
    }
  }

  /** One iteration of the loop of removeByTag(), on values. */
  lemma {:induction false} RemoveTagLoopStep(l: seq<Content>, pre: seq<Content>, s: seq<Content>, tag: byte, pds: uint32, cur: uint32)
    requires s != [] && RemoveTag(l, tag, pds, 0) == pre + RemoveTag(s, tag, pds, cur)
    ensures RemoveTag(l, tag, pds, 0) ==
            (pre + if RemovesHead(s, tag, pds, cur) then [] else [s[0]]) + RemoveTag(s[1..], tag, pds, RemoveTagNext(s, tag, pds, cur))
  {
    RemoveTagStep(s, tag, pds, cur);
    var x: seq<Content> := if RemovesHead(s, tag, pds, cur) then [] else [s[0]];
    AppendAssoc(pre, x, RemoveTag(s[1..], tag, pds, RemoveTagNext(s, tag, pds, cur)));
  }

  /** Loop invariant of removeByTag(): l0 has become l, whose first `it` entries are final. */
  predicate RemoveTagInv(l0: seq<Content>, l: seq<Content>, it: nat, j: nat, tag: byte, pds: uint32, cur: uint32)
  {
    it <= |l| && j <= |l0| && l[it..] == l0[j..] &&
    RemoveTag(l0, tag, pds, 0) == l[..it] + RemoveTag(l0[j..], tag, pds, cur)
  }

  /** When the loop of removeByTag() has passed the whole list, the list is the result. */
  lemma {:induction false} RemoveTagDone(l0: seq<Content>, l: seq<Content>, it: nat, j: nat, tag: byte, pds: uint32, cur: uint32)
    requires RemoveTagInv(l0, l, it, j, tag, pds, cur) && it == |l|
    ensures j == |l0| && l == RemoveTag(l0, tag, pds, 0)
  {
    assert |l0[j..]| == 0;
    assert l0[j..] == [];
    assert l[..it] == l;
  }

  /** The erasure test of removeByTag() at index `it`, on the whole list. */
  lemma {:induction false} RemovesHeadAt(l: seq<Content>, it: nat, tag: byte, pds: uint32, cur: uint32)
    requires it < |l|
    ensures RemovesHead(l[it..], tag, pds, cur) <==>
            Tag(l[it]) == tag && (!CheckPds(tag, pds) || cur == pds) &&
            (Tag(l[it]) != DID_DVB_PRIV_DATA_SPECIF || PdsRemovable(l, it))
  {
    assert l == l[..it] + l[it..];
    PdsRemovableSuffix(l[..it], l[it..]);
  }

  /** An iteration of removeByTag(), given its erasure decision. */
  lemma {:induction false} RemoveTagDecide(l0: seq<Content>, l: seq<Content>, it: nat, j: nat, tag: byte, pds: uint32, cur: uint32, remove: bool)
    requires RemoveTagInv(l0, l, it, j, tag, pds, cur) && it < |l|
    requires forall k :: 0 <= k < |l| ==> ContentOk(l[k])
    requires remove == (Tag(l[it]) == tag && (!CheckPds(tag, pds) || cur == pds) &&
                        (Tag(l[it]) != DID_DVB_PRIV_DATA_SPECIF || PdsRemovable(l, it)))
    ensures remove ==> RemoveTagInv(l0, RemoveAt(l, it), it, j + 1, tag, pds, cur) &&
                       forall k :: 0 <= k < |l| - 1 ==> ContentOk(RemoveAt(l, it)[k])
    ensures !remove ==> RemoveTagInv(l0, l, it + 1, j + 1, tag, pds,
                                     if CheckPds(tag, pds) then Update(cur, l[it], DID_DVB_PRIV_DATA_SPECIF) else cur)
  {
    RemovesHeadAt(l, it, tag, pds, cur);
    if remove {
      RemoveTagErase(l0, l, it, j, tag, pds, cur);
      RemoveAtOk(l, it);
    } else {
      RemoveTagKeep(l0, l, it, j, tag, pds, cur);
    }
  }

  /** An iteration of removeByTag() that erases the descriptor at `it`. */
  lemma {:induction false} RemoveTagErase(l0: seq<Content>, l: seq<Content>, it: nat, j: nat, tag: byte, pds: uint32, cur: uint32)
    requires RemoveTagInv(l0, l, it, j, tag, pds, cur) && it < |l| && RemovesHead(l[it..], tag, pds, cur)
    ensures RemoveTagInv(l0, RemoveAt(l, it), it, j + 1, tag, pds, cur)
  {
    var pre, s := l[..it], l[it..];
    assert l == pre + s;
    RemoveTagLoopStep(l0, pre, s, tag, pds, cur);
    assert s[1..] == l0[j + 1..];
    assert RemoveAt(l, it) == pre + s[1..];
  }

  /** An iteration of removeByTag() that keeps the descriptor at `it`. */
  lemma {:induction false} RemoveTagKeep(l0: seq<Content>, l: seq<Content>, it: nat, j: nat, tag: byte, pds: uint32, cur: uint32)
    requires RemoveTagInv(l0, l, it, j, tag, pds, cur) && it < |l| && !RemovesHead(l[it..], tag, pds, cur)
    ensures RemoveTagInv(l0, l, it + 1, j + 1, tag, pds, RemoveTagNext(l[it..], tag, pds, cur))
  {
    var pre, s := l[..it], l[it..];
    assert l == pre + s;
    RemoveTagLoopStep(l0, pre, s, tag, pds, cur);
    assert s[1..] == l0[j + 1..];
    SplitAfterHead(l, pre, s);
  }

  /** The descriptors of l whose tag is not `tag`. */
  function WithoutTag(l: seq<Content>, tag: byte): (r: seq<Content>)
  {
    if l == [] then [] else (if Tag(l[0]) == tag then [] else [l[0]]) + WithoutTag(l[1..], tag)
  }

  /** Without a PDS condition, removeByTag() of a tag other than the PDS tag erases exactly that tag. */
  lemma {:induction false} RemoveTagIsFilter(s: seq<Content>, tag: byte, pds: uint32, cur: uint32)
    requires !CheckPds(tag, pds) && tag != DID_DVB_PRIV_DATA_SPECIF
    ensures RemoveTag(s, tag, pds, cur) == WithoutTag(s, tag)
    decreases |s|
  {
    if s != [] {
      RemoveTagIsFilter(s[1..], tag, pds, cur);
    }
  }

  /** Nothing with the tag is left after WithoutTag, and everything else is. */
  lemma {:induction false} WithoutTagSpec(l: seq<Content>, tag: byte)
    ensures forall i :: 0 <= i < |WithoutTag(l, tag)| ==> Tag(WithoutTag(l, tag)[i]) != tag
    ensures forall c :: c in l && Tag(c) != tag ==> c in WithoutTag(l, tag)
    ensures forall c :: c in WithoutTag(l, tag) ==> c in l
  {
    if l != [] {
      WithoutTagSpec(l[1..], tag);
      assert l == [l[0]] + l[1..];
    }
  }

  /** The descriptors of s at the indices where `drop` is false, in their order. */
  function Keep(s: seq<Content>, drop: seq<bool>): (r: seq<Content>)
    requires |drop| == |s|
    ensures |r| <= |s|
  {
    if s == [] then [] else (if drop[0] then [] else [s[0]]) + Keep(s[1..], drop[1..])
  }

  /**
   * The erasures removeByTag() makes, index by index in the original list
   * l, `v` being the PDS in force before l: the tag matches; with the PDS
   * check, the PDS in force before that index in l is the requested one;
   * and a PDS descriptor is erased only when no private descriptor needs it.
   */
  function RemoveMask(l: seq<Content>, tag: byte, pds: uint32, v: uint32): (m: seq<bool>)
    ensures |m| == |l|
    ensures forall i :: 0 <= i < |l| ==>
              m[i] == (Tag(l[i]) == tag && (!CheckPds(tag, pds) || EffectPds(v, l[..i]) == pds) &&
                       (tag != DID_DVB_PRIV_DATA_SPECIF || PdsRemovable(l, i)))
  {
    seq(|l|, i requires 0 <= i < |l| =>
      Tag(l[i]) == tag && (!CheckPds(tag, pds) || EffectPds(v, l[..i]) == pds) &&
      (tag != DID_DVB_PRIV_DATA_SPECIF || PdsRemovable(l, i)))
  }

  /** A descriptor without the PDS tag leaves the PDS in force as it is. */
  lemma {:induction false} UpdateOtherTag(v: uint32, c: Content)
    requires Tag(c) != DID_DVB_PRIV_DATA_SPECIF
    ensures Update(v, c, DID_DVB_PRIV_DATA_SPECIF) == v
  {
  }

  /** Dropping the head of l moves every later erasure decision one index down. */
  lemma {:induction false} RemoveMaskTail(l: seq<Content>, tag: byte, pds: uint32, v: uint32)
    requires l != []
    ensures RemoveMask(l, tag, pds, v)[1..] ==
            RemoveMask(l[1..], tag, pds, if CheckPds(tag, pds) then Update(v, l[0], DID_DVB_PRIV_DATA_SPECIF) else v)
  {
    var w := if CheckPds(tag, pds) then Update(v, l[0], DID_DVB_PRIV_DATA_SPECIF) else v;
    var a, b := RemoveMask(l, tag, pds, v)[1..], RemoveMask(l[1..], tag, pds, w);
    forall i | 0 <= i < |a|
      ensures a[i] == b[i]
    {
      assert l[..i + 1] == [l[0]] + l[1..][..i];
      EffectPdsCons(v, l[0], l[1..][..i]);
      PdsRemovableSuffix(l[..i + 1], l[i + 1..]);
      PdsRemovableSuffix(l[1..][..i], l[1..][i..]);
      assert l[..i + 1] + l[i + 1..] == l;
      assert l[1..][..i] + l[1..][i..] == l[1..];
      assert l[1..][i..] == l[i + 1..];
    }
  }

  /**
   * removeByTag() keeps exactly the descriptors RemoveMask does not mark,
   * in their order: with the PDS check, a private descriptor goes exactly
   * when the PDS in force before it in the original list is the requested
   * one, and a PDS descriptor goes exactly when nothing after it needs it.
   */
  lemma {:induction false} RemoveTagIsKeep(l: seq<Content>, tag: byte, pds: uint32, v: uint32)
    ensures RemoveTag(l, tag, pds, v) == Keep(l, RemoveMask(l, tag, pds, v))
    decreases |l|
  {
    if l != [] {
      var m := RemoveMask(l, tag, pds, v);
      assert l[..0] == [];
      assert m[0] == RemovesHead(l, tag, pds, v);
      RemoveMaskTail(l, tag, pds, v);
      if RemovesHead(l, tag, pds, v) && CheckPds(tag, pds) {
        UpdateOtherTag(v, l[0]);
      }
      RemoveTagIsKeep(l[1..], tag, pds, RemoveTagNext(l, tag, pds, v));
    }
  }

  /**
   * With the PDS check, removeByTag() erases private descriptors only, so
   * the PDS in force after the list is the same as before.
   */
  lemma {:induction false} RemoveTagKeepsPds(l: seq<Content>, tag: byte, pds: uint32, v: uint32)
    requires CheckPds(tag, pds)
    ensures EffectPds(v, RemoveTag(l, tag, pds, v)) == EffectPds(v, l)
    decreases |l|
  {
    if l != [] {
      var w := RemoveTagNext(l, tag, pds, v);
      RemoveTagKeepsPds(l[1..], tag, pds, w);
      assert l == [l[0]] + l[1..];
      EffectPdsCons(v, l[0], l[1..]);
      if RemovesHead(l, tag, pds, v) {
        UpdateOtherTag(v, l[0]);
      } else {
        EffectPdsCons(v, l[0], RemoveTag(l[1..], tag, pds, w));
      }
    }
  }

  /**
   * removeByTag() never leaves a private descriptor without a PDS
   * descriptor before it: the prefix p is already final and s is the
   * rest of the list.
   */
  lemma {:induction false} RemoveTagCoveredFrom(p: seq<Content>, s: seq<Content>, tag: byte, pds: uint32, v: uint32)
    requires PdsCovered(p + s)
    ensures PdsCovered(p + RemoveTag(s, tag, pds, v))
    decreases |s|
  {
    if s != [] {
      var w := RemoveTagNext(s, tag, pds, v);
      if RemovesHead(s, tag, pds, v) {
        PdsRemovableSuffix(p, s);
        RemoveKeepsCovered(p + s, |p|);
        assert RemoveAt(p + s, |p|) == p + s[1..];
        RemoveTagCoveredFrom(p, s[1..], tag, pds, w);
      } else {
        assert p + s == (p + [s[0]]) + s[1..];
        RemoveTagCoveredFrom(p + [s[0]], s[1..], tag, pds, w);
        assert p + RemoveTag(s, tag, pds, v) == (p + [s[0]]) + RemoveTag(s[1..], tag, pds, w);
      }
    }
  }

  /** Whatever the tag, removeByTag() keeps every private descriptor covered by a PDS descriptor. */
  lemma {:induction false} RemoveTagKeepsCovered(l: seq<Content>, tag: byte, pds: uint32)
    requires PdsCovered(l)
    ensures PdsCovered(RemoveTag(l, tag, pds, 0))
  {
    assert [] + l == l;
    RemoveTagCoveredFrom([], l, tag, pds, 0);
    assert [] + RemoveTag(l, tag, pds, 0) == RemoveTag(l, tag, pds, 0);
  }

  /**
   * The list left by removeInvalidPrivateDescriptors() on the suffix s,
   * `pds` being the PDS in force before s: invalid descriptors and private
   * descriptors with no PDS (0 or PDS_NULL) in force are erased.
   */
  function Clean(s: seq<Content>, pds: uint32): seq<Content>
    decreases |s|
  {
    if s == [] then []
    else if s[0].None? then Clean(s[1..], pds)
    else if Tag(s[0]) == DID_DVB_PRIV_DATA_SPECIF then
      [s[0]] + Clean(s[1..], Update(pds, s[0], DID_DVB_PRIV_DATA_SPECIF))
    else if (pds == 0 || pds == PDS_NULL) && Tag(s[0]) >= 0x80 then Clean(s[1..], pds)
    else [s[0]] + Clean(s[1..], pds)
  }

  /** The erasure test of removeInvalidPrivateDescriptors() for a descriptor, `pds` in force. */
  predicate CleanErases(c: Content, pds: uint32)
  {
    c.None? || (Tag(c) != DID_DVB_PRIV_DATA_SPECIF && (pds == 0 || pds == PDS_NULL) && Tag(c) >= 0x80)
  }

  /** Loop invariant of removeInvalidPrivateDescriptors(): l0 has become l, whose first `it` entries are final. */
  predicate CleanInv(l0: seq<Content>, l: seq<Content>, it: nat, j: nat, pds: uint32)
  {
    it <= |l| && j <= |l0| && l[it..] == l0[j..] &&
    Clean(l0, 0) == l[..it] + Clean(l0[j..], pds)
  }

  /** When the loop of removeInvalidPrivateDescriptors() has passed the whole list, the list is the result. */
  lemma {:induction false} CleanDone(l0: seq<Content>, l: seq<Content>, it: nat, j: nat, pds: uint32)
    requires CleanInv(l0, l, it, j, pds) && it == |l|
    ensures j == |l0| && l == Clean(l0, 0)
  {
    assert |l0[j..]| == 0;
    assert l0[j..] == [];
    assert l[..it] == l;
  }

  /** An iteration of removeInvalidPrivateDescriptors() that erases the descriptor at `it`. */
  lemma {:induction false} CleanErase(l0: seq<Content>, l: seq<Content>, it: nat, j: nat, pds: uint32)
    requires CleanInv(l0, l, it, j, pds) && it < |l| && CleanErases(l[it], pds)
    ensures CleanInv(l0, RemoveAt(l, it), it, j + 1, pds)
  {
    var s := l[it..];
    assert s[1..] == l0[j + 1..];
    assert RemoveAt(l, it)[..it] == l[..it];
    assert RemoveAt(l, it)[it..] == s[1..];
  }

  /** An iteration of removeInvalidPrivateDescriptors() that keeps the descriptor at `it`. */
  lemma {:induction false} CleanKeep(l0: seq<Content>, l: seq<Content>, it: nat, j: nat, pds: uint32)
    requires CleanInv(l0, l, it, j, pds) && it < |l| && !CleanErases(l[it], pds)
    ensures CleanInv(l0, l, it + 1, j + 1,
                     if Tag(l[it]) == DID_DVB_PRIV_DATA_SPECIF then Update(pds, l[it], DID_DVB_PRIV_DATA_SPECIF) else pds)
  {
    var pre, s := l[..it], l[it..];
    assert l == pre + s;
    assert s[1..] == l0[j + 1..];
    SplitAfterHead(l, pre, s);
  }

  /** A PDS value that identifies a private data specifier. */
  predicate GoodPds(v: uint32) { v != 0 && v != PDS_NULL }

  /**
   * After removeInvalidPrivateDescriptors(), every descriptor is valid and
   * every private one is in the scope of a real PDS, computed on the
   * cleaned list itself.
   */
  lemma {:induction false} CleanSound(s: seq<Content>, pds: uint32)
    ensures forall i :: 0 <= i < |Clean(s, pds)| ==>
              Clean(s, pds)[i].Some? &&
              (Tag(Clean(s, pds)[i]) >= 0x80 ==> GoodPds(EffectPds(pds, Clean(s, pds)[..i])))
    decreases |s|
  {
    if s != [] {
      var c := s[0];
      if c.None? || (Tag(c) != DID_DVB_PRIV_DATA_SPECIF && (pds == 0 || pds == PDS_NULL) && Tag(c) >= 0x80) {
        CleanSound(s[1..], pds);
      } else {
        var p2 := if Tag(c) == DID_DVB_PRIV_DATA_SPECIF then Update(pds, c, DID_DVB_PRIV_DATA_SPECIF) else pds;
        var rest := Clean(s[1..], p2);
        CleanSound(s[1..], p2);
        assert Clean(s, pds) == [c] + rest;
        assert p2 == Update(pds, c, DID_DVB_PRIV_DATA_SPECIF);
        forall i | 0 < i < |Clean(s, pds)|
          ensures Clean(s, pds)[..i] == [c] + rest[..i - 1]
          ensures EffectPds(pds, Clean(s, pds)[..i]) == EffectPds(p2, rest[..i - 1])
        {
          EffectPdsCons(pds, c, rest[..i - 1]);
        }
        assert Clean(s, pds)[..0] == [];
      }
    }
  }

  /** Cleaning a cleaned list changes nothing. */
  lemma {:induction false} CleanIdempotent(s: seq<Content>, pds: uint32)
    ensures Clean(Clean(s, pds), pds) == Clean(s, pds)
    decreases |s|
  {
    if s != [] {
      var c := s[0];
      if c.None? || (Tag(c) != DID_DVB_PRIV_DATA_SPECIF && (pds == 0 || pds == PDS_NULL) && Tag(c) >= 0x80) {
        CleanIdempotent(s[1..], pds);
      } else {
        var p2 := if Tag(c) == DID_DVB_PRIV_DATA_SPECIF then Update(pds, c, DID_DVB_PRIV_DATA_SPECIF) else pds;
        CleanIdempotent(s[1..], p2);
        assert ([c] + Clean(s[1..], p2))[1..] == Clean(s[1..], p2);
      }
    }
  }

  // ---------------------------------------------------------------------
  // Search specification
  // ---------------------------------------------------------------------

  /** The PDS in force at index j for search() from `start`. */
  function SearchPds(l: seq<Content>, start: nat, j: nat): uint32
    requires start <= j <= |l|
  {
    EffectPds(LastValue(l, start, DID_DVB_PRIV_DATA_SPECIF), l[start..j])
  }

  /** The PDS in force moves past one more descriptor. */
  lemma {:induction false} SearchPdsStep(l: seq<Content>, start: nat, j: nat)
    requires start <= j < |l|
    ensures SearchPds(l, start, j + 1) == Update(SearchPds(l, start, j), l[j], DID_DVB_PRIV_DATA_SPECIF)
  {
    var p := l[start..j + 1];
    SliceSnoc(l, start, j);
    assert p[..|p| - 1] == l[start..j];
  }

  /** The descriptor at j has the tag and, when a PDS is checked, that PDS in force. */
  predicate SearchHit(l: seq<Content>, tag: byte, pds: uint32, start: nat, j: nat)
    requires start <= j < |l|
  {
    Tag(l[j]) == tag && (!CheckPds(tag, pds) || SearchPds(l, start, j) == pds)
  }

  /** The bytes of add32BitDescriptor(). */
  function Descriptor32(did: byte, payload: uint32): (r: seq<byte>)
    ensures WellFormed(r) && Tag(Some(r)) == did
  {
    Make(did, BEBytes(payload, 4))
  }

  /** The descriptor of add32BitDescriptor() carries its payload. */
  lemma {:induction false} Descriptor32Value(did: byte, payload: uint32)
    ensures Value32(Some(Descriptor32(did, payload)), did) == Some(payload)
  {
    var d := Descriptor32(did, payload);
    assert d[2..] == BEBytes(payload, 4);
    Memory.GetPutUIntBE(payload, 4);
    assert Pow256(4) == 0x1_0000_0000;
    ModNoOp(payload, Pow256(4));
  }

  /** The registration id in force at index i, with the top-level list as fallback. */
  function RegistrationAt(l: seq<Content>, i: nat, topLevel: Option<seq<Content>>): uint32
  {
    var v := LastValue(l, Min(i, |l|), DID_MPEG_REGISTRATION);
    if v == REGID_NULL && topLevel.Some? then
      LastValue(topLevel.value, |topLevel.value|, DID_MPEG_REGISTRATION)
    else v
  }

  /** The backward loop of privateDataSpecifier() and registrationId(). */
  method ScanBack(l: seq<Content>, i: nat, did: byte) returns (v: uint32)
    requires i <= |l|
    ensures v == LastValue(l, i, did)
  {
    v := NULL32;
    var index: nat := i;
    while index > 0 && v == NULL32
      invariant index <= i
      invariant v == NULL32 ==> LastValue(l, i, did) == LastValue(l, index, did)
      invariant v != NULL32 ==> v == LastValue(l, i, did)
    {
      ScanBackStep(l, i, index, did);
      index := index - 1;
      v := Update(v, l[index], did);
    }
  }

  /** One step of the backward scan, from a position where nothing was found yet. */
  lemma {:induction false} ScanBackStep(l: seq<Content>, i: nat, index: nat, did: byte)
    requires 0 < index <= i <= |l| && LastValue(l, i, did) == LastValue(l, index, did)
    ensures Update(NULL32, l[index - 1], did) == NULL32 ==> LastValue(l, i, did) == LastValue(l, index - 1, did)
    ensures Update(NULL32, l[index - 1], did) != NULL32 ==> Update(NULL32, l[index - 1], did) == LastValue(l, i, did)
  {
  }

  /**
   * A descriptor list. The shared descriptor objects of the vector are
   * values here: `None` for a descriptor that is invalid.
   */
  class DescriptorList {
    var list: seq<Content>

    /** Every descriptor of the list is invalid or has a consistent length byte. */
    predicate Valid()
      reads this
    {
      forall i :: 0 <= i < |list| ==> ContentOk(list[i])
    }

    /** An empty list. */
    constructor ()
      ensures list == [] && Valid()
    {
      list := [];
    }

    /**
     * add(DescriptorPtr): a null pointer (`None`) or an invalid descriptor
     * is rejected and the list unchanged; otherwise it is appended.
     */
    method Add(desc: Option<Content>) returns (ok: bool)
      requires Valid() && (desc.Some? ==> ContentOk(desc.value))
      modifies this
      ensures Valid()
      ensures ok <==> desc.Some? && desc.value.Some?
      ensures list == if ok then old(list) + [desc.value] else old(list)
    {
      if desc.None? || desc.value.None? {
        return false;
      }
      list := list + [desc.value];
      return true;
    }

    /**
     * add(data, size): appends the descriptors found one after the other in
     * the area; true when the area is not null and is exactly consumed.
     */
    method AddBytes(data: Option<seq<byte>>) returns (ok: bool)
      requires Valid()
      modifies this
      ensures Valid()
      ensures data.None? ==> !ok && list == old(list)
      ensures data.Some? ==>
                list == old(list) + AsContents(SplitDescriptors(data.value).descs) &&
                (ok <==> SplitDescriptors(data.value).rest == [])
    {
      if data.None? {
        return false;
      }
      var s := data.value;
      var success := true;
      ghost var done: seq<seq<byte>> := [];
      assert [] + SplitDescriptors(s).descs == SplitDescriptors(s).descs;
      while |s| >= 2 && s[1] + 2 <= |s|
        invariant Valid() && success
        invariant list == old(list) + AsContents(done)
        invariant SplitInv(data.value, done, s)
        decreases |s|
      {
        var length: nat := s[1] as int + 2;
        var desc := s[..length];
        DescriptorValidation(desc);
        var content := if ValidateLengthField(DescLayout, Some(desc), false) then Some(desc) else None;
        assert content == Some(desc);
        var added := Add(Some(content));
        success := added && success;
        SplitLoopStep(data.value, done, s, length);
        AppendAssoc(old(list), AsContents(done), [content]);
        done := done + [desc];
        s := s[length..];
      }
      SplitLoopEnd(data.value, done, s);
      return success && |s| == 0;
    }

    /**
     * add(addr): the descriptor starting at addr, whose length is read from
     * its second byte; true unless addr is null.
     */
    method AddOne(addr: Option<seq<byte>>) returns (ok: bool)
      requires Valid()
      requires addr.Some? ==> |addr.value| >= 2 && addr.value[1] + 2 <= |addr.value|
      modifies this
      ensures Valid()
      ensures ok <==> addr.Some?
      ensures ok ==> list == old(list) + [Some(addr.value[..addr.value[1] + 2])]
      ensures !ok ==> list == old(list)
    {
      if addr.None? {
        return false;
      }
      var d := addr.value[..addr.value[1] + 2];
      assert d[..d[1] + 2] == d && d[d[1] + 2..] == [];
      ok := AddBytes(Some(d));
    }

    /**
     * binarySize(start, count): the size of the binary form of the
     * descriptors in [start, start + count), clamped to the list.
     */
    method BinarySize(start: nat, count: nat) returns (size: nat)
      ensures var s := Min(start, |list|);
              size == |Flatten(list[s..s + Min(count, |list| - s)])|
    {
      var s := Min(start, |list|);
      var c := Min(count, |list| - s);
      size := 0;
      var i := s;
      while i < s + c
        invariant s <= i <= s + c
        invariant size == |Flatten(list[s..i])|
      {
        FlattenSnoc(list[s..i], list[i]);
        assert list[s..i + 1] == list[s..i] + [list[i]];
        size := size + Size(list[i]);
        i := i + 1;
      }
    }

    /**
     * serialize(addr, size, start): writes whole descriptors from `start`
     * while the next one fits in the remaining size, advances addr and size
     * by the bytes written and returns the index of the first descriptor not
     * written.
     */
    method Serialize(buf: array<byte>, addr: nat, size: nat, start: nat)
      returns (next: nat, newAddr: nat, newSize: nat)
      requires addr + size <= buf.Length
      modifies buf
      ensures start <= next
      ensures start >= |list| ==> next == start
      ensures start < |list| ==> next <= |list| && (next < |list| ==> |WrittenBytes(list, start, next)| + Size(list[next]) > size)
      ensures |WrittenBytes(list, start, next)| <= size
      ensures newAddr == addr + |WrittenBytes(list, start, next)| && newSize == size - |WrittenBytes(list, start, next)|
      ensures buf[..] == Memory.Spliced(old(buf[..]), addr, WrittenBytes(list, start, next))
    {
      next, newAddr, newSize := SerializeFrom(list, buf, addr, size, start);
    }

    /**
     * serialize(ByteBlock, start): extends the block by the binary size of
     * the whole list, then serializes from `start` into the extension; the
     * bytes that the skipped descriptors would have used stay zero.
     */
    method SerializeAppend(bb: seq<byte>, start: nat) returns (r: seq<byte>, added: nat)
      ensures added == |Flatten(list)| && |WrittenBytes(list, start, |list|)| <= added
      ensures r == bb + WrittenBytes(list, start, |list|) + seq(added - |WrittenBytes(list, start, |list|)|, _ => 0)
    {
      // binarySize() counts from 0 with the count NPOS, which covers any vector.
      added := BinarySize(0, |list|);
      assert list[0..0 + Min(|list|, |list|)] == list;
      var buf := new byte[|bb| + added](i requires 0 <= i => if i < |bb| then bb[i] else 0);
      ghost var initial := buf[..];
      assert initial == bb + seq(added, _ => 0);
      var next, _, _ := Serialize(buf, |bb|, added, start);
      if start < |list| && next < |list| {
        PrefixFits(list, start, next);
        assert false;
      }
      r := buf[..];
      ZeroTail(initial, bb, WrittenBytes(list, start, next), added);
    }

    /**
     * lengthSerialize(): like serialize() after a 16-bit field, which
     * receives the number of bytes written or'ed with the reserved bits
     * shifted left by the length size (at most 16 bits).
     */
    method LengthSerialize(buf: array<byte>, addr: nat, size: nat, start: nat, reserved: uint16, lengthBits: nat)
      returns (next: nat, newAddr: nat, newSize: nat)
      requires size >= 2 && addr + size <= buf.Length
      modifies buf
      ensures start <= next
      ensures start >= |list| ==> next == start
      ensures start < |list| ==> next <= |list| && (next < |list| ==> |WrittenBytes(list, start, next)| + Size(list[next]) > size - 2)
      ensures |WrittenBytes(list, start, next)| <= size - 2
      ensures newAddr == addr + 2 + |WrittenBytes(list, start, next)| && newSize == size - 2 - |WrittenBytes(list, start, next)|
      ensures buf[..] == Memory.Spliced(old(buf[..]), addr, BEBytes(LengthField(|WrittenBytes(list, start, next)|, reserved, lengthBits), 2) +
                                                     WrittenBytes(list, start, next))
    {
      ghost var o := buf[..];
      var a2 := addr + 2;
      next, newAddr, newSize := Serialize(buf, a2, size - 2, start);
      ghost var w := WrittenBytes(list, start, next);
      assert buf[..] == Memory.Spliced(o, a2, w);
      var length := newAddr - addr - 2;
      assert length == |w|;
      Memory.SpliceBefore(o, addr, BEBytes(LengthField(length, reserved, lengthBits), 2), w);
      WriteLengthField(buf, addr, length, reserved, lengthBits);
    }

    /** The 16-bit length field of lengthSerialize(), written at addr. */
    method WriteLengthField(buf: array<byte>, addr: nat, length: nat, reserved: uint16, lengthBits: nat)
      requires addr + 2 <= buf.Length
      modifies buf
      ensures buf[..] == Memory.Spliced(old(buf[..]), addr, BEBytes(LengthField(length, reserved, lengthBits), 2))
    {
      Memory.PutUIntBE(buf, addr, 2, OrBits(length, Shl(reserved, Min(lengthBits, 16)), 16));
    }

    /**
     * privateDataSpecifier(index): the PDS of the nearest PDS descriptor
     * before index (clamped to the list) that gives a non-null value.
     */
    method PrivateDataSpecifier(index: nat) returns (pds: uint32)
      ensures pds == LastValue(list, Min(index, |list|), DID_DVB_PRIV_DATA_SPECIF)
    {
      pds := ScanBack(list, Min(index, |list|), DID_DVB_PRIV_DATA_SPECIF);
    }

    /**
     * registrationId(index): the same backward scan for registration
     * descriptors, then over the top-level list of the table (`None` when
     * there is no table, no top-level list, or it is this list).
     */
    method RegistrationId(index: nat, topLevel: Option<seq<Content>>) returns (regid: uint32)
      ensures regid == RegistrationAt(list, index, topLevel)
    {
      regid := ScanBack(list, Min(index, |list|), DID_MPEG_REGISTRATION);
      if regid == REGID_NULL && topLevel.Some? {
        regid := ScanBack(topLevel.value, |topLevel.value|, DID_MPEG_REGISTRATION);
      }
    }

    /** canRemovePDS(index). */
    method CanRemovePDS(index: nat) returns (r: bool)
      ensures r == PdsRemovable(list, index)
    {
      if index >= |list| || Tag(list[index]) != DID_DVB_PRIV_DATA_SPECIF {
        return false;
      }
      var end := index + 1;
      while end < |list|
        invariant index < end <= |list|
        invariant forall j :: index < j < end ==> Tag(list[j]) < 0x80 && Tag(list[j]) != DID_DVB_PRIV_DATA_SPECIF
      {
        var tag := Tag(list[end]);
        if tag >= 0x80 {
          return false;
        }
        if tag == DID_DVB_PRIV_DATA_SPECIF {
          forall j | index < j < |list| && Tag(list[j]) >= 0x80
            ensures exists k :: index < k < j && Tag(list[k]) == DID_DVB_PRIV_DATA_SPECIF
          {
            assert index < end < j;
          }
          return true;
        }
        end := end + 1;
      }
      return true;
    }

    /**
     * add32BitDescriptor(did, payload): appends a descriptor whose payload
     * is the 32-bit value, big endian.
     */
    method Add32BitDescriptor(did: byte, payload: uint32)
      requires Valid()
      modifies this
      ensures Valid()
      ensures list == old(list) + [Some(Descriptor32(did, payload))]
    {
      var data := new byte[6];
      data[0] := did;
      data[1] := 4;
      Memory.PutUIntBE(data, 2, 4, payload);
      assert data[..] == Descriptor32(did, payload);
      DescriptorValidation(data[..]);
      var content := if ValidateLengthField(DescLayout, Some(data[..]), false) then Some(data[..]) else None;
      var _ := Add(Some(content));
    }

    /**
     * addPrivateDataSpecifier(pds): appends a PDS descriptor unless the PDS
     * is 0, PDS_NULL or already in force at the end of the list.
     */
    method AddPrivateDataSpecifier(pds: uint32)
      requires Valid()
      modifies this
      ensures Valid()
      ensures list == if GoodPds(pds) && LastValue(old(list), |old(list)|, DID_DVB_PRIV_DATA_SPECIF) != pds
                      then old(list) + [Some(Descriptor32(DID_DVB_PRIV_DATA_SPECIF, pds))]
                      else old(list)
      ensures GoodPds(pds) ==> LastValue(list, |list|, DID_DVB_PRIV_DATA_SPECIF) == pds
    {
      if pds != 0 && pds != PDS_NULL {
        var current := PrivateDataSpecifier(|list|);
        if current != pds {
          Add32BitDescriptor(DID_DVB_PRIV_DATA_SPECIF, pds);
          Descriptor32Value(DID_DVB_PRIV_DATA_SPECIF, pds);
        }
      }
    }

    /**
     * addRegistration(regid): appends a registration descriptor unless the
     * REGID is REGID_NULL or already in force at the end of the list.
     */
    method AddRegistration(regid: uint32, topLevel: Option<seq<Content>>)
      requires Valid()
      modifies this
      ensures Valid()
      ensures list == if regid != REGID_NULL && RegistrationAt(old(list), |old(list)|, topLevel) != regid
                      then old(list) + [Some(Descriptor32(DID_MPEG_REGISTRATION, regid))]
                      else old(list)
      ensures regid != REGID_NULL ==> RegistrationAt(list, |list|, topLevel) == regid
    {
      if regid != REGID_NULL {
        var current := RegistrationId(|list|, topLevel);
        if current != regid {
          Add32BitDescriptor(DID_MPEG_REGISTRATION, regid);
          Descriptor32Value(DID_MPEG_REGISTRATION, regid);
        }
      }
    }

    /**
     * removeByIndex(index): fails for an index out of the list or a PDS
     * descriptor that a later private descriptor still needs.
     */
    method RemoveByIndex(index: nat) returns (ok: bool)
      requires Valid()
      modifies this
      ensures Valid()
      ensures ok <==> index < |old(list)| &&
                      (Tag(old(list)[index]) != DID_DVB_PRIV_DATA_SPECIF || PdsRemovable(old(list), index))
      ensures list == if ok then RemoveAt(old(list), index) else old(list)
    {
      if index >= |list| {
        return false;
      }
      if Tag(list[index]) == DID_DVB_PRIV_DATA_SPECIF {
        var can := CanRemovePDS(index);
        if !can {
          return false;
        }
      }
      list := RemoveAt(list, index);
      return true;
    }

    /**
     * One iteration of the loop of removeByTag() at index `it`: erases the
     * descriptor or steps over it, updating the PDS in force when `check`.
     */
    method RemoveTagIteration(tag: byte, pds: uint32, check: bool, it: nat, current: uint32, ghost l0: seq<Content>, ghost j: nat)
      returns (removed: bool, next: uint32)
      requires Valid() && check == CheckPds(tag, pds)
      requires RemoveTagInv(l0, list, it, j, tag, pds, current) && it < |list|
      modifies this
      ensures Valid()
      ensures removed ==> RemoveTagInv(l0, list, it, j + 1, tag, pds, next) && |list| == |old(list)| - 1
      ensures !removed ==> RemoveTagInv(l0, list, it + 1, j + 1, tag, pds, next) && list == old(list)
    {
      var itag := Tag(list[it]);
      removed := itag == tag && (!check || current == pds);
      if removed && itag == DID_DVB_PRIV_DATA_SPECIF {
        removed := CanRemovePDS(it);
      }
      RemoveTagDecide(l0, list, it, j, tag, pds, current, removed);
      next := current;
      if removed {
        list := RemoveAt(list, it);
      } else if check {
        next := Update(current, list[it], DID_DVB_PRIV_DATA_SPECIF);
      }
    }

    /**
     * removeByTag(tag, pds): erases the descriptors with the tag (for a
     * private tag and a real PDS, only those in the scope of that PDS),
     * keeping PDS descriptors still needed; returns the number erased.
     */
    method RemoveByTag(tag: byte, pds: uint32) returns (count: nat)
      requires Valid()
      modifies this
      ensures Valid()
      ensures list == RemoveTag(old(list), tag, pds, 0)
      ensures list == Keep(old(list), RemoveMask(old(list), tag, pds, 0))
      ensures PdsCovered(old(list)) ==> PdsCovered(list)
      ensures count == |old(list)| - |list|
    {
      var check := pds != 0 && pds != PDS_NULL && tag >= 0x80;
      var current: uint32 := 0;
      count := 0;
      var it := 0;
      ghost var j := 0;
      while it < |list|
        invariant Valid() && count == j - it
        invariant RemoveTagInv(old(list), list, it, j, tag, pds, current)
        decreases |list| - it
      {
        var removed;
        removed, current := RemoveTagIteration(tag, pds, check, it, current, old(list), j);
        if removed {
          count := count + 1;
        } else {
          it := it + 1;
        }
        j := j + 1;
      }
      RemoveTagDone(old(list), list, it, j, tag, pds, current);
      RemoveTagIsKeep(old(list), tag, pds, 0);
      if PdsCovered(old(list)) {
        RemoveTagKeepsCovered(old(list), tag, pds);
      }
    }

    /**
     * One iteration of the loop of removeInvalidPrivateDescriptors() at
     * index `it`: erases an invalid descriptor or a private one with no real
     * PDS in force, and records the value of a PDS descriptor.
     */
    method CleanIteration(it: nat, pds: uint32, ghost l0: seq<Content>, ghost j: nat) returns (removed: bool, next: uint32)
      requires Valid() && CleanInv(l0, list, it, j, pds) && it < |list|
      modifies this
      ensures Valid()
      ensures removed ==> CleanInv(l0, list, it, j + 1, next) && |list| == |old(list)| - 1
      ensures !removed ==> CleanInv(l0, list, it + 1, j + 1, next) && list == old(list)
    {
      next := pds;
      if list[it].None? {
        CleanErase(l0, list, it, j, pds);
        RemoveAtOk(list, it);
        list := RemoveAt(list, it);
        removed := true;
      } else if Tag(list[it]) == DID_DVB_PRIV_DATA_SPECIF {
        CleanKeep(l0, list, it, j, pds);
        next := Update(pds, list[it], DID_DVB_PRIV_DATA_SPECIF);
        removed := false;
      } else if (pds == 0 || pds == PDS_NULL) && Tag(list[it]) >= 0x80 {
        CleanErase(l0, list, it, j, pds);
        RemoveAtOk(list, it);
        list := RemoveAt(list, it);
        removed := true;
      } else {
        CleanKeep(l0, list, it, j, pds);
        removed := false;
      }
    }

    /**
     * removeInvalidPrivateDescriptors(): erases invalid descriptors and
     * private descriptors that no real PDS is in force for; returns the
     * number erased.
     */
    method RemoveInvalidPrivateDescriptors() returns (count: nat)
      requires Valid()
      modifies this
      ensures Valid()
      ensures list == Clean(old(list), 0)
      ensures count == |old(list)| - |list|
    {
      count := 0;
      var pds: uint32 := 0;
      var it := 0;
      ghost var j := 0;
      while it < |list|
        invariant Valid() && count == j - it
        invariant CleanInv(old(list), list, it, j, pds)
        decreases |list| - it
      {
        var removed;
        removed, pds := CleanIteration(it, pds, old(list), j);
        if removed {
          count := count + 1;
        } else {
          it := it + 1;
        }
        j := j + 1;
      }
      CleanDone(old(list), list, it, j, pds);
    }

    /**
     * search(tag, start, pds): the index of the first descriptor from
     * `start` with the tag and, for a private tag and a real PDS, that PDS
     * in force; the list size (or start) when there is none.
     */
    method Search(tag: byte, start: nat, pds: uint32) returns (index: nat)
      ensures start <= index
      ensures start >= |list| ==> index == start
      ensures start < |list| ==>
                index <= |list| && (index < |list| ==> SearchHit(list, tag, pds, start, index)) &&
                forall j :: start <= j < index ==> !SearchHit(list, tag, pds, start, j)
    {
      var check := pds != 0 && pds != PDS_NULL && tag >= 0x80;
      var current := PDS_NULL;
      if check {
        current := PrivateDataSpecifier(start);
      }
      index := start;
      while index < |list| && (Tag(list[index]) != tag || (check && current != pds))
        invariant start <= index && (start >= |list| ==> index == start) && (start < |list| ==> index <= |list|)
        invariant check && start < |list| ==> current == SearchPds(list, start, index)
        invariant start < |list| ==> forall j :: start <= j < index ==> !SearchHit(list, tag, pds, start, j)
      {
        if check {
          SearchPdsStep(list, start, index);
          current := Update(current, list[index], DID_DVB_PRIV_DATA_SPECIF);
        }
        index := index + 1;
      }
    }
  }
}
