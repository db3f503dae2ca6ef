/** The intrusive, cyclic, doubly linked list of list.h. A `struct list_head` is named by its location
    (an integer); the two pointer fields of all of them are two maps. */
module ListHead {

  datatype Links = Links(next: map<int, int>, prev: map<int, int>)

  ghost predicate NoDup(s: seq<int>) {
    forall i, j :: 0 <= i < j < |s| ==> s[i] != s[j]
  }

  function After(h: int, s: seq<int>, i: nat): int {
    if i + 1 < |s| then s[i + 1] else h
  }

  function Before(h: int, s: seq<int>, i: nat): int
    requires i < |s|
  {
    if i > 0 then s[i - 1] else h
  }

  /** Starting at the sentry `h`, `next` visits exactly `s` in order and returns to `h`; `prev` walks back. */
  ghost predicate Ring(l: Links, h: int, s: seq<int>) {
    && NoDup(s) && h !in s
    && h in l.next && l.next[h] == (if s == [] then h else s[0])
    && h in l.prev && l.prev[h] == (if s == [] then h else s[|s| - 1])
    && (forall i {:trigger s[i]} :: 0 <= i < |s| ==> s[i] in l.next && l.next[s[i]] == After(h, s, i))
    && (forall i {:trigger s[i]} :: 0 <= i < |s| ==> s[i] in l.prev && l.prev[s[i]] == Before(h, s, i))
  }

  /** The locations the ring of `h` is threaded through. */
  ghost predicate OnRing(h: int, s: seq<int>, x: int) {
    x == h || x in s
  }

  ghost predicate Apart(h: int, s: seq<int>, h': int, s': seq<int>) {
    forall x :: OnRing(h, s, x) ==> !OnRing(h', s', x)
  }

  function Initialised(l: Links, h: int): Links {
    Links(l.next[h := h], l.prev[h := h])
  }

  function Added(l: Links, e: int, h: int): Links
    requires h in l.next
  {
    var n := l.next[h];
    Links(l.next[e := n][h := e], l.prev[n := e][e := h])
  }

  function Deleted(l: Links, e: int): Links
    requires e in l.next && e in l.prev
  {
    Links(l.next[l.prev[e] := l.next[e]], l.prev[l.next[e] := l.prev[e]])
  }

  /** `s` without its element number `k`. */
  function Without(s: seq<int>, k: nat): seq<int>
    requires k < |s|
  {
    s[..k] + s[k + 1..]
  }

  lemma WithoutElements(s: seq<int>, k: nat)
    requires k < |s| && NoDup(s)
    ensures NoDup(Without(s, k))
    ensures forall x :: x in Without(s, k) <==> x in s && x != s[k]
  {
    var t := Without(s, k);
    forall x ensures x in t <==> x in s && x != s[k] {
      if x in s && x != s[k] {
        var i :| 0 <= i < |s| && s[i] == x;
        assert t[if i < k then i else i - 1] == x;
      }
    }
  }

  /** `list_add` puts the new node first. */
  lemma RingAdd(l: Links, h: int, s: seq<int>, e: int)
    requires Ring(l, h, s) && !OnRing(h, s, e)
    ensures Ring(Added(l, e, h), h, [e] + s)
  {
    var t, l' := [e] + s, Added(l, e, h);
    forall i | 0 <= i < |t|
      ensures t[i] in l'.next && l'.next[t[i]] == After(h, t, i)
      ensures t[i] in l'.prev && l'.prev[t[i]] == Before(h, t, i)
    {
      if i > 0 { assert t[i] == s[i - 1] && s[i - 1] in s; }
      if i > 1 { assert t[i - 1] == s[i - 2] && s[i - 2] != s[i - 1]; }
      if i + 1 < |t| { assert t[i + 1] == s[i]; }
    }
  }

  lemma DelNext(l: Links, h: int, s: seq<int>, k: nat, j: nat)
    requires Ring(l, h, s) && k < |s| && j < |s| && j != k
    ensures var n := Deleted(l, s[k]).next;
            s[j] in n && n[s[j]] == if j + 1 == k then After(h, s, k) else After(h, s, j)
  {
    assert l.prev[s[k]] == Before(h, s, k) && l.next[s[k]] == After(h, s, k);
    assert l.next[s[j]] == After(h, s, j);
    if k > 0 && j != k - 1 { assert s[j] != s[k - 1]; }
  }

  lemma DelPrev(l: Links, h: int, s: seq<int>, k: nat, j: nat)
    requires Ring(l, h, s) && k < |s| && j < |s| && j != k
    ensures var p := Deleted(l, s[k]).prev;
            s[j] in p && p[s[j]] == if j == k + 1 then Before(h, s, k) else Before(h, s, j)
  {
    assert l.prev[s[k]] == Before(h, s, k) && l.next[s[k]] == After(h, s, k);
    assert l.prev[s[j]] == Before(h, s, j);
    if k + 1 < |s| && j != k + 1 { assert s[j] != s[k + 1]; }
  }

  lemma DelHead(l: Links, h: int, s: seq<int>, k: nat)
    requires Ring(l, h, s) && k < |s|
    ensures var l', t := Deleted(l, s[k]), Without(s, k);
            && h in l'.next && l'.next[h] == (if t == [] then h else t[0])
            && h in l'.prev && l'.prev[h] == (if t == [] then h else t[|t| - 1])
  {
    assert l.prev[s[k]] == Before(h, s, k) && l.next[s[k]] == After(h, s, k);
    var t := Without(s, k);
    if t != [] {
      assert t[0] == if k > 0 then s[0] else s[1];
      assert t[|t| - 1] == if k < |t| then s[|t|] else s[|t| - 1];
    }
  }

  lemma WithoutAt(h: int, s: seq<int>, k: nat, i: nat)
    requires k < |s| && i < |s| - 1
    ensures var t, j := Without(s, k), if i < k then i else i + 1;
            && |t| == |s| - 1 && t[i] == s[j]
            && After(h, t, i) == (if j + 1 == k then After(h, s, k) else After(h, s, j))
            && Before(h, t, i) == (if j == k + 1 then Before(h, s, k) else Before(h, s, j))
  {
  }

  /** `list_del` takes out one node and keeps the order of the rest. */
  lemma RingDel(l: Links, h: int, s: seq<int>, k: nat)
    requires Ring(l, h, s) && k < |s|
    ensures Ring(Deleted(l, s[k]), h, Without(s, k))
  {
    hide Deleted, Without, After, Before;
    var t, l' := Without(s, k), Deleted(l, s[k]);
    WithoutElements(s, k);
    DelHead(l, h, s, k);
    WithoutLength(s, k);
    forall i | 0 <= i < |t|
      ensures t[i] in l'.next && l'.next[t[i]] == After(h, t, i)
      ensures t[i] in l'.prev && l'.prev[t[i]] == Before(h, t, i)
    {
      WithoutAt(h, s, k, i);
      DelNext(l, h, s, k, if i < k then i else i + 1);
      DelPrev(l, h, s, k, if i < k then i else i + 1);
    }
  }

  lemma WithoutLength(s: seq<int>, k: nat)
    requires k < |s|
    ensures |Without(s, k)| == |s| - 1
  {
  }

  lemma RingAddFrame(l: Links, h: int, s: seq<int>, e: int, h': int, s': seq<int>)
    requires Ring(l, h, s) && Ring(l, h', s') && Apart(h, s, h', s') && !OnRing(h', s', e)
    ensures Ring(Added(l, e, h), h', s')
  {
    assert OnRing(h, s, h) && OnRing(h, s, l.next[h]);
    forall i | 0 <= i < |s'| ensures OnRing(h', s', s'[i]) { }
  }

  lemma RingDelFrame(l: Links, h: int, s: seq<int>, k: nat, h': int, s': seq<int>)
    requires Ring(l, h, s) && Ring(l, h', s') && Apart(h, s, h', s') && k < |s|
    ensures Ring(Deleted(l, s[k]), h', s')
  {
    assert OnRing(h, s, l.next[s[k]]) && OnRing(h, s, l.prev[s[k]]);
    forall i | 0 <= i < |s'| ensures OnRing(h', s', s'[i]) { }
  }

  lemma RingInit(l: Links, h: int, h': int, s': seq<int>)
    requires Ring(l, h', s') && !OnRing(h', s', h)
    ensures Ring(Initialised(l, h), h', s')
  {
    forall i | 0 <= i < |s'| ensures OnRing(h', s', s'[i]) { }
  }

  // ---------------------------------------------------------------- a family of disjoint rings

  /** The rings of all sentries in `rings`, no two of them threaded through the same location. */
  ghost predicate Family(l: Links, rings: map<int, seq<int>>) {
    && (forall h | h in rings :: Ring(l, h, rings[h]))
    && (forall h, g | h in rings && g in rings && h != g :: Apart(h, rings[h], g, rings[g]))
  }

  ghost predicate Unused(rings: map<int, seq<int>>, x: int) {
    forall h | h in rings :: !OnRing(h, rings[h], x)
  }

  lemma FamilyAdd(l: Links, rings: map<int, seq<int>>, h: int, e: int)
    requires Family(l, rings) && h in rings && Unused(rings, e)
    ensures h in l.next && Family(Added(l, e, h), rings[h := [e] + rings[h]])
  {
    hide Ring, Added;
    HeadLinked(l, h, rings[h]);
    var l', rings' := Added(l, e, h), rings[h := [e] + rings[h]];
    assert forall g, x :: g in rings && OnRing(g, rings'[g], x) ==> OnRing(g, rings[g], x) || (g == h && x == e);
    forall g | g in rings' ensures Ring(l', g, rings'[g]) {
      if g == h { RingAdd(l, h, rings[h], e); } else { RingAddFrame(l, h, rings[h], e, g, rings[g]); }
    }
  }

  lemma HeadLinked(l: Links, h: int, s: seq<int>)
    requires Ring(l, h, s)
    ensures h in l.next && l.next[h] == (if s == [] then h else s[0])
    ensures (l.next[h] == h) <==> s == []
    ensures forall i :: 0 <= i < |s| ==> s[i] in l.next && s[i] in l.prev
  {
    assert s != [] ==> s[0] in s;
  }

  lemma FamilyDel(l: Links, rings: map<int, seq<int>>, h: int, k: nat)
    requires Family(l, rings) && h in rings && k < |rings[h]|
    ensures rings[h][k] in l.next && rings[h][k] in l.prev
    ensures Family(Deleted(l, rings[h][k]), rings[h := Without(rings[h], k)])
    ensures Unused(rings[h := Without(rings[h], k)], rings[h][k])
    ensures NoDup(rings[h])
  {
    hide Ring, Deleted, Without;
    HeadLinked(l, h, rings[h]);
    RingNoDup(l, h, rings[h]);
    WithoutElements(rings[h], k);
    var e := rings[h][k];
    var l', rings' := Deleted(l, e), rings[h := Without(rings[h], k)];
    assert OnRing(h, rings[h], e);
    assert forall g, x :: g in rings && OnRing(g, rings'[g], x) ==> OnRing(g, rings[g], x);
    forall g | g in rings' ensures Ring(l', g, rings'[g]) {
      if g == h { RingDel(l, h, rings[h], k); } else { RingDelFrame(l, h, rings[h], k, g, rings[g]); }
    }
  }

  lemma RingNoDup(l: Links, h: int, s: seq<int>)
    requires Ring(l, h, s)
    ensures NoDup(s) && h !in s
  {
  }

  lemma FamilyInit(l: Links, rings: map<int, seq<int>>, h: int)
    requires Family(l, rings) && Unused(rings, h)
    ensures Family(Initialised(l, h), rings[h := []])
  {
    hide Ring, Initialised;
    var l', rings' := Initialised(l, h), rings[h := []];
    forall g | g in rings' ensures Ring(l', g, rings'[g]) {
      if g == h { RingInitEmpty(l, h); } else { RingInit(l, h, g, rings[g]); }
    }
  }

  lemma RingInitEmpty(l: Links, h: int)
    ensures Ring(Initialised(l, h), h, [])
  {
  }

  /** The memory that holds the list heads. */
  class ListMem {
    var links: Links

    constructor ()
      ensures links == Links(map[], map[])
    {
      links := Links(map[], map[]);
    }

    method InitListHead(list: int)
      modifies this
      ensures links == Initialised(old(links), list)
    {
      links := links.(next := links.next[list := list]);
      links := links.(prev := links.prev[list := list]);
    }

    method ListAddBetween(new_: int, prev: int, next: int)
      modifies this
      ensures links.next == old(links.next)[new_ := next][prev := new_]
      ensures links.prev == old(links.prev)[next := new_][new_ := prev]
    {
      links := links.(prev := links.prev[next := new_]);
      links := links.(next := links.next[new_ := next]);
      links := links.(prev := links.prev[new_ := prev]);
      links := links.(next := links.next[prev := new_]);
    }

    method ListAdd(new_: int, head: int)
      requires head in links.next
      modifies this
      ensures links == Added(old(links), new_, head)
    {
      ListAddBetween(new_, head, links.next[head]);
    }

    method ListDel(entry: int)
      requires entry in links.next && entry in links.prev
      modifies this
      ensures links == Deleted(old(links), entry)
    {
      var prev, next := links.prev[entry], links.next[entry];
      links := links.(prev := links.prev[next := prev]);
      links := links.(next := links.next[prev := next]);
    }

    predicate ListEmpty(head: int)
      requires head in links.next
      reads this
    {
      links.next[head] == head
    }
  }
}
