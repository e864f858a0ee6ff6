/**
 * Ordered maps of table entries (AttachedEntryMap and AttachedEntryList).
 * A table keeps its entries (services, streams, events...) in a map sorted
 * by key; each entry carries an `order_hint` giving its place when the
 * table is serialized. Only the keys and the hints are modelled; NPOS as a
 * hint means "unset".
 */
module EntryMaps {
  import opened Wrappers
  import DataBlocks

  const NPOS: nat := DataBlocks.NPOS

  /** (hint, key) lexicographic order: the order of the multimap built by getOrder(). */
  predicate LexLess(m: map<nat, nat>, a: nat, b: nat)
    requires a in m && b in m
  {
    m[a] < m[b] || (m[a] == m[b] && a < b)
  }

  /** s lists every key of m exactly once, sorted by hint, ties by key. */
  predicate IsOrderOf(m: map<nat, nat>, s: seq<nat>)
  {
    (forall i :: 0 <= i < |s| ==> s[i] in m) &&
    (forall k :: k in m ==> k in s) &&
    (forall i, j :: 0 <= i < j < |s| ==> LexLess(m, s[i], s[j]))
  }

  /** nextOrder(): above every hint that is set, and 0 or one above the largest one. */
  predicate IsNextOrder(m: map<nat, nat>, r: nat)
  {
    (forall k :: k in m && m[k] != NPOS ==> m[k] < r) &&
    (r == 0 || exists k :: k in m && m[k] != NPOS && m[k] + 1 == r)
  }

  /** The head of an order comes before every other key. */
  lemma {:induction false} OrderHeadFirst(m: map<nat, nat>, a: seq<nat>, k: nat)
    requires IsOrderOf(m, a) && a != [] && k in m && k != a[0]
    ensures LexLess(m, a[0], k)
  {
    var i :| 0 <= i < |a| && a[i] == k;
    assert i > 0;
  }

  /** Without its head, an order is the order of the other keys. */
  lemma {:induction false} OrderTail(m: map<nat, nat>, a: seq<nat>)
    requires IsOrderOf(m, a) && a != []
    ensures IsOrderOf(m - {a[0]}, a[1..])
  {
    var m' := m - {a[0]};
    forall i | 0 <= i < |a[1..]|
      ensures a[1..][i] in m'
    {
      assert a[1..][i] == a[i + 1];
      assert LexLess(m, a[0], a[i + 1]);
    }
    forall k | k in m'
      ensures k in a[1..]
    {
      var i :| 0 <= i < |a| && a[i] == k;
      assert a[1..][i - 1] == k;
    }
    forall i, j | 0 <= i < j < |a[1..]|
      ensures LexLess(m', a[1..][i], a[1..][j])
    {
      assert a[1..][i] == a[i + 1] && a[1..][j] == a[j + 1];
    }
  }

  /** An order is empty exactly when there are no entries. */
  lemma {:induction false} OrderEmpty(m: map<nat, nat>, a: seq<nat>)
    requires IsOrderOf(m, a)
    ensures a == [] <==> m.Keys == {}
  {
    if a != [] {
      assert a[0] in m.Keys;
    }
  }

  /** There is at most one order of the entries. */
  lemma {:induction false} OrderUnique(m: map<nat, nat>, a: seq<nat>, b: seq<nat>)
    requires IsOrderOf(m, a) && IsOrderOf(m, b)
    ensures a == b
    decreases |a|
  {
    OrderEmpty(m, a);
    OrderEmpty(m, b);
    if a != [] && b != [] {
      if a[0] != b[0] {
        OrderHeadFirst(m, a, b[0]);
        OrderHeadFirst(m, b, a[0]);
        assert false;
      }
      OrderTail(m, a);
      OrderTail(m, b);
      OrderUnique(m - {a[0]}, a[1..], b[1..]);
      Uncons(a);
      Uncons(b);
    }
  }

  lemma {:induction false} Uncons(s: seq<nat>)
    requires s != []
    ensures s == [s[0]] + s[1..]
  {
    assert |s| == |[s[0]] + s[1..]|;
    forall i | 0 <= i < |s|
      ensures s[i] == ([s[0]] + s[1..])[i]
    {
    }
  }

  /** x is the smallest element of s. */
  predicate IsMin(s: set<nat>, x: nat)
  {
    x in s && forall y :: y in s ==> x <= y
  }

  /** x is the largest element of s. */
  predicate IsMax(s: set<nat>, x: nat)
  {
    x in s && forall y :: y in s ==> y <= x
  }

  /** A non-empty finite set of keys has a smallest element. */
  lemma {:induction false} HasMin(s: set<nat>)
    requires s != {}
    ensures exists x :: IsMin(s, x)
    decreases |s|
  {
    var x :| x in s;
    if s == {x} {
      assert IsMin(s, x);
    } else {
      var t := s - {x};
      HasMin(t);
      var z :| IsMin(t, z);
      var w := if x <= z then x else z;
      forall y | y in s
        ensures w <= y
      {
        if y != x {
          assert y in t;
        }
      }
      assert IsMin(s, w);
    }
  }

  /** ... and a largest one. */
  lemma {:induction false} HasMax(s: set<nat>)
    requires s != {}
    ensures exists x :: IsMax(s, x)
    decreases |s|
  {
    var x :| x in s;
    if s == {x} {
      assert IsMax(s, x);
    } else {
      var t := s - {x};
      HasMax(t);
      var z :| IsMax(t, z);
      var w := if z <= x then x else z;
      forall y | y in s
        ensures y <= w
      {
        if y != x {
          assert y in t;
        }
      }
      assert IsMax(s, w);
    }
  }

  /** The smallest key of a non-empty set. */
  function MinKey(s: set<nat>): (r: nat)
    requires s != {}
    ensures r in s && forall y :: y in s ==> r <= y
  {
    HasMin(s);
    var x :| IsMin(s, x);
    x
  }

  /** The largest key of a non-empty set. */
  function MaxKey(s: set<nat>): (r: nat)
    requires s != {}
    ensures r in s && forall y :: y in s ==> y <= r
  {
    HasMax(s);
    var x :| IsMax(s, x);
    x
  }

  /**
   * Inserting key k at the upper bound of its hint keeps the (hint, key)
   * order when k is above every key already placed.
   */
  lemma {:induction false} InsertKeepsOrder(m: map<nat, nat>, s: seq<nat>, pos: nat, k: nat)
    requires k in m && pos <= |s|
    requires forall i :: 0 <= i < |s| ==> s[i] in m && s[i] < k
    requires forall i, j :: 0 <= i < j < |s| ==> s[i] in m && s[j] in m && LexLess(m, s[i], s[j])
    requires forall i :: 0 <= i < pos ==> m[s[i]] <= m[k]
    requires forall i :: pos <= i < |s| ==> m[s[i]] > m[k]
    ensures var t := s[..pos] + [k] + s[pos..];
            forall i, j :: 0 <= i < j < |t| ==> t[i] in m && t[j] in m && LexLess(m, t[i], t[j])
  {
    var t := s[..pos] + [k] + s[pos..];
    forall i, j | 0 <= i < j < |t|
      ensures t[i] in m && t[j] in m && LexLess(m, t[i], t[j])
    {
      if j < pos {
        assert t[i] == s[i] && t[j] == s[j];
      } else if j == pos {
        assert t[i] == s[i] && t[j] == k;
      } else if i < pos {
        assert t[i] == s[i] && t[j] == s[j - 1];
      } else if i == pos {
        assert t[i] == k && t[j] == s[j - 1];
      } else {
        assert t[i] == s[i - 1] && t[j] == s[j - 1];
      }
    }
  }

  /** Where std::multimap::insert puts a new hint h: after every element whose hint is at most h. */
  function UpperBound(m: map<nat, nat>, s: seq<nat>, h: nat): (pos: nat)
    requires forall i :: 0 <= i < |s| ==> s[i] in m
    ensures pos <= |s| && forall i :: 0 <= i < pos ==> m[s[i]] <= h
    ensures pos == |s| || m[s[pos]] > h
  {
    if s == [] || m[s[0]] > h then 0 else 1 + UpperBound(m, s[1..], h)
  }

  /**
   * Loop invariant of getOrder(): `order` holds, in (hint, key) order,
   * exactly the keys outside `rest`, all smaller than the keys in `rest`.
   */
  predicate GetOrderInv(m: map<nat, nat>, order: seq<nat>, rest: set<nat>)
  {
    rest <= m.Keys &&
    (forall x :: x in order ==> x in m && x !in rest) &&
    (forall x :: x in m && x !in rest ==> x in order) &&
    (forall x, y :: x in order && y in rest ==> x < y) &&
    (forall i, j :: 0 <= i < j < |order| ==> order[i] in m && order[j] in m && LexLess(m, order[i], order[j]))
  }

  /** The invariant of getOrder() stated over indices; with nothing left, `order` is the order of m. */
  lemma {:induction false} InvIndices(m: map<nat, nat>, order: seq<nat>, rest: set<nat>)
    requires GetOrderInv(m, order, rest)
    ensures forall i :: 0 <= i < |order| ==> order[i] in m
    ensures rest == {} ==> IsOrderOf(m, order)
  {
    forall i | 0 <= i < |order|
      ensures order[i] in m
    {
      assert order[i] in order;
    }
  }

  /** The elements of a sequence with one element inserted. */
  lemma {:induction false} InsertMembers(s: seq<nat>, pos: nat, k: nat)
    requires pos <= |s|
    ensures forall x :: x in s[..pos] + [k] + s[pos..] <==> x in s || x == k
  {
    assert s == s[..pos] + s[pos..];
  }

  /** One step of getOrder(): the smallest remaining key, inserted at the upper bound of its hint. */
  lemma {:induction false} GetOrderStep(m: map<nat, nat>, order: seq<nat>, rest: set<nat>, k: nat, pos: nat)
    requires GetOrderInv(m, order, rest)
    requires k in rest && forall y :: y in rest ==> k <= y
    requires pos <= |order| && forall i :: 0 <= i < pos ==> m[order[i]] <= m[k]
    requires pos == |order| || m[order[pos]] > m[k]
    ensures GetOrderInv(m, order[..pos] + [k] + order[pos..], rest - {k})
  {
    forall i | pos <= i < |order|
      ensures m[order[i]] > m[k]
    {
      if i > pos {
        assert LexLess(m, order[pos], order[i]);
      }
    }
    forall i | 0 <= i < |order|
      ensures order[i] in m && order[i] < k
    {
      assert order[i] in order;
    }
    InsertKeepsOrder(m, order, pos, k);
    InsertMembers(order, pos, k);
  }

  /** State of the second and third passes of setOrder(): the hints and the counter. */
  datatype Assigned = Assigned(hints: map<nat, nat>, count: nat)

  /** Second pass of setOrder(): listed keys that exist get the counter, in list order. */
  function AssignListed(m: map<nat, nat>, order: seq<nat>, count: nat): (r: Assigned)
    ensures r.hints.Keys == m.Keys
    decreases |order|
  {
    if order == [] then Assigned(m, count)
    else if order[0] in m then AssignListed(m[order[0] := count], order[1..], count + 1)
    else AssignListed(m, order[1..], count)
  }

  /** Third pass: keys of `input` not listed in `order` get the following counter values. */
  function AssignOthers(m: map<nat, nat>, input: seq<nat>, order: seq<nat>, count: nat): (r: Assigned)
    ensures r.hints.Keys == m.Keys
    decreases |input|
  {
    if input == [] then Assigned(m, count)
    else if input[0] !in order && input[0] in m then AssignOthers(m[input[0] := count], input[1..], order, count + 1)
    else AssignOthers(m, input[1..], order, count)
  }

  /** The keys of s that pass the test of the second pass (present in m). */
  function Present(s: seq<nat>, keys: set<nat>): (r: seq<nat>)
    ensures forall i :: 0 <= i < |r| ==> r[i] in keys && r[i] in s
    ensures forall k :: k in s && k in keys ==> k in r
  {
    if s == [] then [] else (if s[0] in keys then [s[0]] else []) + Present(s[1..], keys)
  }

  /** The keys of s that pass the test of the third pass (absent from order). */
  function Unlisted(s: seq<nat>, order: seq<nat>): (r: seq<nat>)
    ensures forall i :: 0 <= i < |r| ==> r[i] !in order && r[i] in s
    ensures forall k :: k in s && k !in order ==> k in r
  {
    if s == [] then [] else (if s[0] !in order then [s[0]] else []) + Unlisted(s[1..], order)
  }

  predicate NoDup(s: seq<nat>)
  {
    forall i, j :: 0 <= i < j < |s| ==> s[i] != s[j]
  }

  lemma {:induction false} NoDupTail(s: seq<nat>)
    requires NoDup(s) && s != []
    ensures NoDup(s[1..]) && s[0] !in s[1..]
  {
    forall i | 0 <= i < |s[1..]|
      ensures s[1..][i] != s[0]
    {
      assert s[1..][i] == s[i + 1];
    }
  }

  /**
   * The counter advances once per listing of a key that exists; the i-th
   * such listing gives its key count + i unless that key is listed again
   * later, so a repeated key keeps the value of its last listing; without
   * duplicates every listed key that exists gets its position. No other
   * hint changes.
   */
  lemma {:induction false} AssignListedSpec(m: map<nat, nat>, order: seq<nat>, count: nat)
    ensures var r := AssignListed(m, order, count);
            var p := Present(order, m.Keys);
            r.count == count + |p| &&
            (forall i :: 0 <= i < |p| && p[i] !in p[i + 1..] ==> r.hints[p[i]] == count + i) &&
            (NoDup(order) ==> forall i :: 0 <= i < |p| ==> r.hints[p[i]] == count + i) &&
            (forall k :: k in m && k !in order ==> r.hints[k] == m[k])
  {
    AssignListedCount(m, order, count);
    AssignListedHints(m, order, count);
    AssignListedKeeps(m, order, count);
    if NoDup(order) {
      var p := Present(order, m.Keys);
      PresentNoDup(order, m.Keys);
    }
  }

  /** Keeping some keys of a list without duplicates keeps it without duplicates. */
  lemma {:induction false} PresentNoDup(s: seq<nat>, keys: set<nat>)
    requires NoDup(s)
    ensures NoDup(Present(s, keys))
    decreases |s|
  {
    if s != [] {
      NoDupTail(s);
      PresentNoDup(s[1..], keys);
      var q := Present(s[1..], keys);
      if s[0] in keys {
        var p := [s[0]] + q;
        assert Present(s, keys) == p;
        forall i, j | 0 <= i < j < |p|
          ensures p[i] != p[j]
        {
          assert p[j] == q[j - 1];
          if i == 0 {
            assert q[j - 1] in q;
          }
        }
      }
    }
  }

  /** The last index at which k occurs in p. */
  lemma {:induction false} LastIndex(p: seq<nat>, k: nat) returns (j: nat)
    requires k in p
    ensures j < |p| && p[j] == k && k !in p[j + 1..]
    decreases |p|
  {
    var n := |p| - 1;
    if p[n] == k {
      j := n;
      assert p[j + 1..] == [];
    } else {
      assert k in p[..n];
      j := LastIndex(p[..n], k);
      assert p[j + 1..] == p[..n][j + 1..] + [p[n]];
    }
  }

  /**
   * setOrder() with a key listed more than once: no key is left with the
   * counter value of an earlier listing of a repeated key, which leaves a
   * gap in the hints.
   */
  lemma {:induction false} SetOrderGap(m: map<nat, nat>, order: seq<nat>, input: seq<nat>)
    requires IsOrderOf(m, input)
    ensures var a := AssignListed(m, order, 0);
            var r := AssignOthers(a.hints, input, order, a.count);
            var p := Present(order, m.Keys);
            forall i, k :: 0 <= i < |p| && p[i] in p[i + 1..] && k in r.hints ==> r.hints[k] != i
  {
    var a := AssignListed(m, order, 0);
    var r := AssignOthers(a.hints, input, order, a.count);
    var p, u := Present(order, m.Keys), Unlisted(input, order);
    AssignListedSpec(m, order, 0);
    OrderNoDup(m, input);
    AssignOthersSpec(a.hints, input, order, a.count);
    forall i, k | 0 <= i < |p| && p[i] in p[i + 1..] && k in r.hints
      ensures r.hints[k] != i
    {
      if k in order {
        assert k in p;
        var j := LastIndex(p, k);
        assert r.hints[k] == a.hints[k] == j;
      } else {
        assert k in input && k in u;
        var v :| 0 <= v < |u| && u[v] == k;
        assert r.hints[k] == a.count + v;
      }
    }
  }

  lemma {:induction false} AssignListedCount(m: map<nat, nat>, order: seq<nat>, count: nat)
    ensures AssignListed(m, order, count).count == count + |Present(order, m.Keys)|
    decreases |order|
  {
    if order != [] {
      var k := order[0];
      if k in m {
        var m' := m[k := count];
        AssignListedCount(m', order[1..], count + 1);
        assert m'.Keys == m.Keys;
      } else {
        AssignListedCount(m, order[1..], count);
      }
    }
  }

  lemma {:induction false} AssignListedKeeps(m: map<nat, nat>, order: seq<nat>, count: nat)
    ensures forall k :: k in m && k !in order ==> AssignListed(m, order, count).hints[k] == m[k]
    decreases |order|
  {
    if order != [] {
      var h := order[0];
      var m' := if h in m then m[h := count] else m;
      var c' := if h in m then count + 1 else count;
      AssignListedKeeps(m', order[1..], c');
      assert AssignListed(m, order, count) == AssignListed(m', order[1..], c');
      forall k | k in m && k !in order
        ensures AssignListed(m, order, count).hints[k] == m[k]
      {
        assert k != h && k !in order[1..];
      }
    }
  }

  lemma {:induction false} AssignListedHints(m: map<nat, nat>, order: seq<nat>, count: nat)
    ensures var r := AssignListed(m, order, count);
            var p := Present(order, m.Keys);
            forall i :: 0 <= i < |p| && p[i] !in p[i + 1..] ==> r.hints[p[i]] == count + i
    decreases |order|
  {
    if order != [] {
      var k := order[0];
      var p := Present(order, m.Keys);
      var r := AssignListed(m, order, count);
      if k in m {
        var m' := m[k := count];
        AssignListedHints(m', order[1..], count + 1);
        AssignListedKeeps(m', order[1..], count + 1);
        assert m'.Keys == m.Keys;
        var q := Present(order[1..], m.Keys);
        assert p == [k] + q;
        assert r == AssignListed(m', order[1..], count + 1);
        forall i | 0 <= i < |p| && p[i] !in p[i + 1..]
          ensures r.hints[p[i]] == count + i
        {
          if i > 0 {
            assert p[i] == q[i - 1] && p[i + 1..] == q[i..];
          } else {
            assert p[1..] == q;
          }
        }
      } else {
        AssignListedHints(m, order[1..], count);
        assert p == Present(order[1..], m.Keys);
      }
    }
  }

  /** The same for the third pass, over the keys of the previous order that are not listed. */
  lemma {:induction false} AssignOthersSpec(m: map<nat, nat>, input: seq<nat>, order: seq<nat>, count: nat)
    requires NoDup(input) && forall i :: 0 <= i < |input| ==> input[i] in m
    ensures var r := AssignOthers(m, input, order, count);
            var u := Unlisted(input, order);
            r.count == count + |u| &&
            (forall i :: 0 <= i < |u| ==> r.hints[u[i]] == count + i) &&
            (forall k :: k in m && (k in order || k !in input) ==> r.hints[k] == m[k])
    decreases |input|
  {
    if input != [] {
      NoDupTail(input);
      var k := input[0];
      var m' := if k !in order then m[k := count] else m;
      var c' := if k !in order then count + 1 else count;
      AssignOthersSpec(m', input[1..], order, c');
      var u := Unlisted(input, order);
      var r := AssignOthers(m, input, order, count);
      assert r == AssignOthers(m', input[1..], order, c');
      forall i | 0 <= i < |u|
        ensures r.hints[u[i]] == count + i
      {
        if k !in order {
          assert u == [k] + Unlisted(input[1..], order);
          if i > 0 {
            assert u[i] == Unlisted(input[1..], order)[i - 1];
          } else {
            assert k !in Unlisted(input[1..], order);
          }
        } else {
          assert u == Unlisted(input[1..], order);
        }
      }
    }
  }

  /** The keys of an order are distinct. */
  lemma {:induction false} OrderNoDup(m: map<nat, nat>, s: seq<nat>)
    requires IsOrderOf(m, s)
    ensures NoDup(s)
  {
    forall i, j | 0 <= i < j < |s|
      ensures s[i] != s[j]
    {
      assert LexLess(m, s[i], s[j]);
    }
  }

  /**
   * The result of setOrder() on a list without duplicates: the listed keys
   * that exist, in list order, then the other keys in their previous order.
   */
  lemma {:induction false} SetOrderResult(m: map<nat, nat>, order: seq<nat>, input: seq<nat>)
    requires NoDup(order) && IsOrderOf(m, input)
    ensures IsOrderOf(AssignOthers(AssignListed(m, order, 0).hints, input, order, AssignListed(m, order, 0).count).hints,
                      Present(order, m.Keys) + Unlisted(input, order))
  {
    var a := AssignListed(m, order, 0);
    var r := AssignOthers(a.hints, input, order, a.count);
    var p, u := Present(order, m.Keys), Unlisted(input, order);
    var s := p + u;
    AssignListedSpec(m, order, 0);
    OrderNoDup(m, input);
    AssignOthersSpec(a.hints, input, order, a.count);
    forall i | 0 <= i < |s|
      ensures s[i] in r.hints && r.hints[s[i]] == i
    {
      if i < |p| {
        assert s[i] == p[i] && p[i] in order;
      } else {
        assert s[i] == u[i - |p|];
      }
    }
    forall k | k in r.hints
      ensures k in s
    {
      if k in order {
        assert k in p;
      } else {
        assert k in input;
        assert k in u;
      }
    }
    IndexOrder(r.hints, s);
  }

  /** Keys whose hints are their positions in s, s covering every key, are in the order s. */
  lemma {:induction false} IndexOrder(h: map<nat, nat>, s: seq<nat>)
    requires forall i :: 0 <= i < |s| ==> s[i] in h && h[s[i]] == i
    requires forall k :: k in h ==> k in s
    ensures IsOrderOf(h, s)
  {
    forall i, j | 0 <= i < j < |s|
      ensures LexLess(h, s[i], s[j])
    {
    }
  }

  /**
   * An AttachedEntryMap (keys and hints). AttachedEntryList is the same
   * map with size_t keys and auto ordering off, plus nextIndex() and
   * newEntry().
   */
  class AttachedEntryMap {
    const autoOrdering: bool
    var hints: map<nat, nat>

    constructor (autoOrdering: bool)
      ensures this.autoOrdering == autoOrdering && hints == map[]
    {
      this.autoOrdering := autoOrdering;
      hints := map[];
    }

    /** nextOrder(): one above the largest hint that is set, 0 when none is. */
    method NextOrder() returns (next: nat)
      ensures IsNextOrder(hints, next)
    {
      next := 0;
      var rest := hints.Keys;
      while rest != {}
        invariant rest <= hints.Keys
        invariant forall k :: k in hints && k !in rest && hints[k] != NPOS ==> hints[k] < next
        invariant next == 0 || exists k :: k in hints && k !in rest && hints[k] != NPOS && hints[k] + 1 == next
        decreases |rest|
      {
        var k :| k in rest;
        if hints[k] != NPOS && hints[k] + 1 > next {
          next := hints[k] + 1;
        }
        rest := rest - {k};
      }
    }

    /**
     * operator[]: creates the entry when missing (hint NPOS); with auto
     * ordering, an entry whose hint is unset gets nextOrder(). Other entries
     * are untouched.
     */
    method Index(key: nat)
      modifies this
      ensures hints.Keys == old(hints).Keys + {key}
      ensures forall k :: k in old(hints) && k != key ==> hints[k] == old(hints)[k]
      ensures var h := if key in old(hints) then old(hints)[key] else NPOS;
              if autoOrdering && h == NPOS then IsNextOrder(old(hints)[key := NPOS], hints[key])
              else hints[key] == h
    {
      if key !in hints {
        hints := hints[key := NPOS];
      }
      if autoOrdering && hints[key] == NPOS {
        assert hints == old(hints)[key := NPOS];
        var next := NextOrder();
        hints := hints[key := next];
      }
    }

    /** The const operator[]: an error (out_of_range) for a missing key. */
    function Get(key: nat): (r: Result<nat, string>)
      reads this
      ensures r.Ok? <==> key in hints
      ensures r.Ok? ==> r.value == hints[key]
    {
      if key in hints then Ok(hints[key]) else Err("unknown key in ts::AbstractTable::AttachedEntryMap")
    }

    /**
     * getOrder(): keys inserted in increasing order in a multimap indexed
     * by hint, each at the upper bound of its hint, then read in order.
     */
    method GetOrder() returns (order: seq<nat>)
      ensures IsOrderOf(hints, order)
    {
      var m := hints;
      order := [];
      var rest := m.Keys;
      while rest != {}
        invariant GetOrderInv(m, order, rest)
        decreases |rest|
      {
        var k := MinKey(rest);
        InvIndices(m, order, rest);
        var pos := UpperBound(m, order, m[k]);
        GetOrderStep(m, order, rest, k, pos);
        order := order[..pos] + [k] + order[pos..];
        rest := rest - {k};
      }
      InvIndices(m, order, rest);
    }

    /**
     * setOrder(order): the listed keys that exist get hints 0, 1, ...
     * in list order, then the other keys the following hints in their
     * previous order (getOrder() before the call).
     */
    method SetOrder(order: seq<nat>)
      modifies this
      ensures hints.Keys == old(hints).Keys
      ensures forall input :: IsOrderOf(old(hints), input) ==>
                var a := AssignListed(old(hints), order, 0);
                hints == AssignOthers(a.hints, input, order, a.count).hints
    {
      var input := GetOrder();
      var count := 0;
      var i := 0;
      while i < |order|
        invariant i <= |order| && hints.Keys == old(hints).Keys
        invariant AssignListed(old(hints), order, 0) == AssignListed(hints, order[i..], count)
      {
        assert order[i..][1..] == order[i + 1..];
        if order[i] in hints {
          hints := hints[order[i] := count];
          count := count + 1;
        }
        i := i + 1;
      }
      assert order[i..] == [];
      ghost var a := AssignListed(old(hints), order, 0);
      i := 0;
      while i < |input|
        invariant i <= |input| && hints.Keys == old(hints).Keys
        invariant AssignOthers(a.hints, input, order, a.count) == AssignOthers(hints, input[i..], order, count)
      {
        assert input[i..][1..] == input[i + 1..];
        if input[i] !in order && input[i] in hints {
          hints := hints[input[i] := count];
          count := count + 1;
        }
        i := i + 1;
      }
      assert input[i..] == [];
      forall other | IsOrderOf(old(hints), other)
        ensures other == input
      {
        OrderUnique(old(hints), other, input);
      }
    }

    /** AttachedEntryList::nextIndex(): 0 when empty, otherwise one above the largest key. */
    function NextIndex(): (r: nat)
      reads this
      ensures r !in hints && forall k :: k in hints ==> k < r
      ensures hints == map[] ==> r == 0
      ensures hints != map[] ==> r - 1 in hints
    {
      if hints == map[] then 0
      else
        assert hints.Keys != {} by {
          var k :| k in hints;
        }
        MaxKey(hints.Keys) + 1
    }

    /** AttachedEntryList::newEntry(): operator[] on nextIndex(). */
    method NewEntry() returns (key: nat)
      modifies this
      ensures key == old(NextIndex()) && key !in old(hints)
      ensures hints.Keys == old(hints).Keys + {key}
      ensures forall k :: k in old(hints) ==> hints[k] == old(hints)[k]
      ensures if autoOrdering then IsNextOrder(old(hints)[key := NPOS], hints[key]) else hints[key] == NPOS
    {
      key := NextIndex();
      Index(key);
    }
  }
}
