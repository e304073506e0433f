/**
 * The branching stage of assembler_model.cpp: unitigs, visited largest
 * first, are chained greedily through their right-end neighbours, each
 * neighbour scored by the mate pairs it shares with the chain so far.
 */
module Chains {
  import opened KmerTable
  import opened DeBruijn
  import opened Contigs

  /** cmp: more read ids first, and for as many ids the longer sequence first. */
  predicate Cmp(a: Contig, b: Contig) {
    if |a.sid| == |b.sid| then |a.s| > |b.s| else |a.sid| > |b.sid|
  }

  /**
   * cmp is a strict weak order, as std::sort requires: irreflexive,
   * transitive, and two records are unordered exactly when they have as
   * many ids and as long a sequence.
   */
  lemma CmpIsStrictWeakOrder(a: Contig, b: Contig, c: Contig)
    ensures !Cmp(a, a)
    ensures Cmp(a, b) ==> !Cmp(b, a)
    ensures Cmp(a, b) && Cmp(b, c) ==> Cmp(a, c)
    ensures !Cmp(a, b) && !Cmp(b, a) <==> |a.sid| == |b.sid| && |a.s| == |b.s|
  {
  }

  /**
   * order lists the unitigs 1..|cs|-1 once each, as sort leaves ctgsn: no
   * unitig comes after one it compares before.
   */
  ghost predicate SortedOrder(cs: seq<Contig>, order: seq<int>) {
    && |order| == |cs| - 1
    && (forall p :: 0 <= p < |order| ==> 1 <= order[p] < |cs|)
    && (forall p, q :: 0 <= p < q < |order| ==> order[p] != order[q])
    && (forall p, q :: 0 <= p < q < |order| ==> !Cmp(cs[order[q]], cs[order[p]]))
  }

  /** order lists the unitigs 1..n-1 once each, none after one it compares before. */
  ghost predicate SortedBelow(cs: seq<Contig>, order: seq<int>, n: int) {
    && n <= |cs|
    && |order| == n - 1
    && (forall p :: 0 <= p < |order| ==> 1 <= order[p] < n)
    && (forall p, q :: 0 <= p < q < |order| ==> order[p] != order[q])
    && (forall p, q :: 0 <= p < q < |order| ==> !Cmp(cs[order[q]], cs[order[p]]))
  }

  /**
   * Inserting unitig n after the ones cmp does not put after it, and
   * before the first that it puts after it, keeps the order sorted.
   */
  lemma InsertSorted(cs: seq<Contig>, order: seq<int>, n: int, p: int)
    requires 1 <= n < |cs| && SortedBelow(cs, order, n) && 0 <= p <= |order|
    requires forall q :: 0 <= q < p ==> !Cmp(cs[n], cs[order[q]])
    requires p < |order| ==> Cmp(cs[n], cs[order[p]])
    ensures SortedBelow(cs, order[..p] + [n] + order[p..], n + 1)
  {
    var r := order[..p] + [n] + order[p..];
    InsertAt(order, n, p);
    forall a, b | 0 <= a < b < |r| ensures !Cmp(cs[r[b]], cs[r[a]]) {
      if a == p && Cmp(cs[r[b]], cs[n]) {
        CmpIsStrictWeakOrder(cs[r[b]], cs[n], cs[order[p]]);
      }
    }
  }

  /** Where each element lands when x is inserted at p. */
  lemma InsertAt(order: seq<int>, x: int, p: int)
    requires 0 <= p <= |order|
    ensures |order[..p] + [x] + order[p..]| == |order| + 1
    ensures forall q :: 0 <= q < |order| + 1 ==>
      (order[..p] + [x] + order[p..])[q] == if q < p then order[q] else if q == p then x else order[q - 1]
  {
  }

  /** The mate of read id x: x + 1 for odd x, x - 1 for even x (x & 1 in two's complement is x % 2 here). */
  function Mate(x: int): int {
    if x % 2 == 1 then x + 1 else x - 1
  }

  /** Mating pairs the ids off: the mate's mate is the id itself and no id is its own mate. */
  lemma MateIsInvolution(x: int)
    ensures Mate(Mate(x)) == x && Mate(x) != x
  {
  }

  /** A non-empty set of integers has an element. */
  lemma NonEmpty(S: set<int>)
    requires S != {}
    ensures exists x :: x in S
  {
    var P: set<nat> := set x: nat | x in S;
    var N: set<nat> := set x: int | x in S && x < 0 :: (-x) as nat;
    if P != {} {
      var x :| x in P;
    } else if N != {} {
      var y :| y in N;
      assert -y in S;
    } else {
      assert forall x :: x !in S by {
        forall x ensures x !in S {
          if x >= 0 {
            assert x !in P;
          } else {
            assert (-x) as nat !in N;
          }
        }
      }
      assert false;
    }
  }

  /** The ids of A whose mate is in B. */
  function Mated(A: set<int>, B: set<int>): set<int> {
    set x | x in A && Mate(x) in B
  }

  /** The mate-pair support between two chains: how many ids of A have their mate in B. */
  function Support(A: set<int>, B: set<int>): nat {
    |Mated(A, B)|
  }

  /** The mates of the ids in S. */
  function Mates(S: set<int>): set<int> {
    set x | x in S :: Mate(x)
  }

  /** Mating is one-to-one, so S and its mates are as many. */
  lemma {:induction false} MatesSize(S: set<int>)
    ensures |Mates(S)| == |S|
    decreases |S|
  {
    if S != {} {
      NonEmpty(S);
      var x :| x in S;
      MatesSize(S - {x});
      assert Mates(S) == Mates(S - {x}) + {Mate(x)} by {
        forall y | y in Mates(S) ensures y in Mates(S - {x}) + {Mate(x)} {
          var z :| z in S && y == Mate(z);
          if z != x {
            assert z in S - {x};
          }
        }
      }
      assert Mate(x) !in Mates(S - {x}) by {
        if Mate(x) in Mates(S - {x}) {
          var z :| z in S - {x} && Mate(x) == Mate(z);
          MateIsInvolution(x);
          MateIsInvolution(z);
        }
      }
    }
  }

  /**
   * The support is symmetric: the ids of A mated in B are, through Mate,
   * exactly the ids of B mated in A.
   */
  lemma SupportIsSymmetric(A: set<int>, B: set<int>)
    ensures Support(A, B) == Support(B, A)
  {
    assert Mates(Mated(A, B)) == Mated(B, A) by {
      forall y | y in Mated(B, A) ensures y in Mates(Mated(A, B)) {
        MateIsInvolution(y);
        assert Mate(y) in Mated(A, B);
      }
      forall y | y in Mates(Mated(A, B)) ensures y in Mated(B, A) {
        var x :| x in Mated(A, B) && y == Mate(x);
        MateIsInvolution(x);
      }
    }
    MatesSize(Mated(A, B));
  }

  /**
   * The loop of branching over the ids of the candidate's chain: tpcnt
   * counts those whose mate is among the ids of the current chain.
   */
  method MateCount(A: set<int>, B: set<int>) returns (tpcnt: int)
    ensures tpcnt == Support(A, B)
  {
    tpcnt := 0;
    var rest := A;
    while rest != {}
      invariant rest <= A
      invariant tpcnt == |Mated(A - rest, B)|
      decreases rest
    {
      NonEmpty(rest);
      var x :| x in rest;
      assert Mated(A - (rest - {x}), B) == Mated(A - rest, B) + if Mate(x) in B then {x} else {};
      if x % 2 == 1 {
        if x + 1 in B {
          tpcnt := tpcnt + 1;
        }
      } else {
        if x - 1 in B {
          tpcnt := tpcnt + 1;
        }
      }
      rest := rest - {x};
    }
    assert A - rest == A;
  }

  /**
   * The running choice over candidates tried in order: the score must beat
   * the best so far, which starts at 0 with no unitig chosen.
   */
  function Best(sc: seq<int>, tg: seq<int>): (r: (int, int))
    requires |sc| == |tg|
  {
    if |sc| == 0 then (0, 0)
    else
      var prev := Best(sc[..|sc| - 1], tg[..|tg| - 1]);
      if sc[|sc| - 1] > prev.0 then (sc[|sc| - 1], tg[|tg| - 1]) else prev
  }

  /**
   * The choice is the first candidate with the strictly greatest positive
   * score, and none when no score is positive.
   */
  lemma {:induction false} BestIsFirstMaximum(sc: seq<int>, tg: seq<int>)
    requires |sc| == |tg|
    ensures Best(sc, tg) == (0, 0) || Best(sc, tg).0 > 0
    ensures Best(sc, tg).0 == 0 <==> forall j :: 0 <= j < |sc| ==> sc[j] <= 0
    ensures Best(sc, tg).0 > 0 ==>
      (exists j :: 0 <= j < |sc| && sc[j] == Best(sc, tg).0 && tg[j] == Best(sc, tg).1
         && (forall i :: 0 <= i < j ==> sc[i] < sc[j]))
    ensures forall j :: 0 <= j < |sc| ==> sc[j] <= Best(sc, tg).0
  {
    if |sc| > 0 {
      var n := |sc| - 1;
      BestIsFirstMaximum(sc[..n], tg[..n]);
      var prev := Best(sc[..n], tg[..n]);
      if sc[n] > prev.0 {
        assert forall i :: 0 <= i < n ==> sc[i] == sc[..n][i];
      } else if prev.0 > 0 {
        var j :| 0 <= j < n && sc[..n][j] == prev.0 && tg[..n][j] == prev.1
          && (forall i :: 0 <= i < j ==> sc[..n][i] < sc[..n][j]);
        assert sc[j] == prev.0 && tg[j] == prev.1;
      }
    }
  }

  /**
   * The chain structure while branching runs on records cs with headers
   * hd: indices in range, nxt and prv mutually inverse, each unitig with
   * no predecessor its own header, the sentinel unlinked, and hd exactly
   * the unitigs with no predecessor.
   */
  ghost predicate Linked(cs: seq<Contig>, hd: set<int>) {
    && |cs| >= 1
    && cs[0].nxt == 0 && cs[0].prv == 0
    && (forall i :: 0 <= i < |cs| ==> 0 <= cs[i].nxt < |cs| && 0 <= cs[i].prv < |cs| && 0 <= cs[i].hdr < |cs|)
    && (forall i :: 1 <= i < |cs| && cs[i].nxt != 0 ==> cs[cs[i].nxt].prv == i)
    && (forall i :: 1 <= i < |cs| && cs[i].prv != 0 ==> cs[cs[i].prv].nxt == i)
    && (forall i :: 1 <= i < |cs| && cs[i].prv == 0 ==> cs[i].hdr == i)
    && (forall i :: i in hd <==> 1 <= i < |cs| && cs[i].prv == 0)
  }

  /** Freshly built unitigs after the sentinel are linked trivially: each is its own chain. */
  lemma UnitigsAreLinked(cs: seq<Contig>)
    requires |cs| >= 1 && cs[0] == Sentinel
    requires forall i :: 1 <= i < |cs| ==> Unlinked(cs[i], i)
    ensures Linked(cs, Span(1, |cs|))
  {
  }

  /**
   * The five updates of a commit: ind's next is m, m's previous is ind,
   * the header H of ind's chain takes m's header's ids and appends its
   * sequence, and m's header becomes H.
   */
  function Link(cs: seq<Contig>, ind: int, m: int): seq<Contig>
    requires 0 <= ind < |cs| && 0 <= m < |cs| && 0 <= cs[ind].hdr < |cs| && 0 <= cs[m].hdr < |cs|
  {
    var c1 := cs[ind := cs[ind].(nxt := m)];
    var c2 := c1[m := c1[m].(prv := ind)];
    var H, M := c2[ind].hdr, c2[m].hdr;
    var c3 := c2[H := c2[H].(sid := c2[H].sid + c2[M].sid)];
    var c4 := c3[H := c3[H].(s := c3[H].s + c3[M].s)];
    c4[m := c4[m].(hdr := c4[ind].hdr)]
  }

  /** Link record by record: only ind's nxt, m's prv and hdr, and the header H's ids and sequence change. */
  lemma LinkAt(cs: seq<Contig>, ind: int, m: int, i: int)
    requires 0 <= ind < |cs| && 0 <= m < |cs| && 0 <= cs[ind].hdr < |cs| && 0 <= cs[m].hdr < |cs|
    requires 0 <= i < |cs|
    ensures var H, M := cs[ind].hdr, cs[m].hdr;
      && |Link(cs, ind, m)| == |cs|
      && Link(cs, ind, m)[i] == Contig(
           cs[i].ctind,
           if i == H then cs[H].s + cs[M].s else cs[i].s,
           if i == H then cs[H].sid + cs[M].sid else cs[i].sid,
           if i == ind then m else cs[i].nxt,
           if i == m then ind else cs[i].prv,
           if i == m then H else cs[i].hdr)
  {
  }

  /**
   * A commit from the tail ind of a chain to a unitig m heading a chain:
   * the two are linked, the header H of ind's chain gains m's ids and m's
   * whole sequence with nothing trimmed, m's header becomes H, and
   * nothing else changes. When m is H itself the chain is closed on
   * itself and H's sequence doubled.
   */
  lemma LinkJoins(cs: seq<Contig>, hd: set<int>, ind: int, m: int)
    requires Linked(cs, hd) && 1 <= ind < |cs| && 1 <= m < |cs|
    requires cs[ind].nxt == 0 && cs[m].prv == 0
    ensures var r := Link(cs, ind, m);
      var H := cs[ind].hdr;
      && |r| == |cs|
      && r[ind].nxt == m && r[m].prv == ind && r[m].hdr == H
      && r[H].sid == cs[H].sid + cs[m].sid
      && r[H].s == cs[H].s + cs[m].s
      && (forall i :: 0 <= i < |cs| && i != ind && i != m && i != H ==> r[i] == cs[i])
  {
    var H := cs[ind].hdr;
    LinkAt(cs, ind, m, ind);
    LinkAt(cs, ind, m, m);
    LinkAt(cs, ind, m, H);
    forall i | 0 <= i < |cs| && i != ind && i != m && i != H
      ensures Link(cs, ind, m)[i] == cs[i]
    {
      LinkAt(cs, ind, m, i);
    }
  }

  /** What Link does to each record, as LinkAt states it. */
  ghost predicate Commits(cs: seq<Contig>, ind: int, m: int, r: seq<Contig>)
    requires 0 <= ind < |cs| && 0 <= m < |cs| && 0 <= cs[ind].hdr < |cs| && 0 <= cs[m].hdr < |cs|
  {
    && |r| == |cs|
    && forall i :: 0 <= i < |cs| ==> r[i] == Contig(
         cs[i].ctind,
         if i == cs[ind].hdr then cs[cs[ind].hdr].s + cs[cs[m].hdr].s else cs[i].s,
         if i == cs[ind].hdr then cs[cs[ind].hdr].sid + cs[cs[m].hdr].sid else cs[i].sid,
         if i == ind then m else cs[i].nxt,
         if i == m then ind else cs[i].prv,
         if i == m then cs[ind].hdr else cs[i].hdr)
  }

  /** Link performs the record updates Commits describes. */
  lemma LinkCommits(cs: seq<Contig>, ind: int, m: int)
    requires 0 <= ind < |cs| && 0 <= m < |cs| && 0 <= cs[ind].hdr < |cs| && 0 <= cs[m].hdr < |cs|
    ensures Commits(cs, ind, m, Link(cs, ind, m))
  {
    forall i | 0 <= i < |cs|
      ensures Link(cs, ind, m)[i] == Contig(
           cs[i].ctind,
           if i == cs[ind].hdr then cs[cs[ind].hdr].s + cs[cs[m].hdr].s else cs[i].s,
           if i == cs[ind].hdr then cs[cs[ind].hdr].sid + cs[cs[m].hdr].sid else cs[i].sid,
           if i == ind then m else cs[i].nxt,
           if i == m then ind else cs[i].prv,
           if i == m then cs[ind].hdr else cs[i].hdr)
    {
      LinkAt(cs, ind, m, i);
    }
  }

  /** A commit keeps the chain structure, with m no longer a header, and only grows records. */
  lemma LinkKeepsLinked(cs: seq<Contig>, hd: set<int>, ind: int, m: int)
    requires Linked(cs, hd) && 1 <= ind < |cs| && 1 <= m < |cs|
    requires cs[ind].nxt == 0 && cs[m].prv == 0
    ensures Linked(Link(cs, ind, m), hd - {m}) && Grown(cs, Link(cs, ind, m))
  {
    var r := Link(cs, ind, m);
    LinkCommits(cs, ind, m);
    CommitKeepsBounds(cs, hd, ind, m, r);
    CommitKeepsLinks(cs, hd, ind, m, r);
    CommitGrows(cs, hd, ind, m, r);
  }

  lemma CommitKeepsBounds(cs: seq<Contig>, hd: set<int>, ind: int, m: int, r: seq<Contig>)
    requires Linked(cs, hd) && 1 <= ind < |cs| && 1 <= m < |cs|
    requires cs[ind].nxt == 0 && cs[m].prv == 0
    requires Commits(cs, ind, m, r)
    ensures |r| >= 1 && r[0].nxt == 0 && r[0].prv == 0
    ensures forall i :: 0 <= i < |r| ==> 0 <= r[i].nxt < |r| && 0 <= r[i].prv < |r| && 0 <= r[i].hdr < |r|
    ensures forall i :: i in hd - {m} <==> 1 <= i < |r| && r[i].prv == 0
    ensures forall i :: 1 <= i < |r| && r[i].prv == 0 ==> r[i].hdr == i
  {
  }

  lemma CommitKeepsLinks(cs: seq<Contig>, hd: set<int>, ind: int, m: int, r: seq<Contig>)
    requires Linked(cs, hd) && 1 <= ind < |cs| && 1 <= m < |cs|
    requires cs[ind].nxt == 0 && cs[m].prv == 0
    requires Commits(cs, ind, m, r)
    ensures forall i :: 1 <= i < |r| && r[i].nxt != 0 ==> 0 <= r[i].nxt < |r| && r[r[i].nxt].prv == i
    ensures forall i :: 1 <= i < |r| && r[i].prv != 0 ==> 0 <= r[i].prv < |r| && r[r[i].prv].nxt == i
  {
    forall i | 1 <= i < |r| && r[i].nxt != 0
      ensures r[r[i].nxt].prv == i
    {
      if i != ind {
        assert r[i].nxt == cs[i].nxt;
      }
    }
    forall i | 1 <= i < |r| && r[i].prv != 0
      ensures r[r[i].prv].nxt == i
    {
      if i != m {
        assert r[i].prv == cs[i].prv;
      }
    }
  }

  lemma CommitGrows(cs: seq<Contig>, hd: set<int>, ind: int, m: int, r: seq<Contig>)
    requires Linked(cs, hd) && 1 <= ind < |cs| && 1 <= m < |cs|
    requires cs[ind].nxt == 0 && cs[m].prv == 0
    requires Commits(cs, ind, m, r)
    ensures Grown(cs, r)
  {
  }

  /**
   * What branching may do to a record: links once set stay, the sequence
   * and the ids only grow, and the index is kept.
   */
  ghost predicate Grown(cs: seq<Contig>, r: seq<Contig>) {
    && |r| == |cs|
    && forall i :: 0 <= i < |cs| ==>
      && r[i].ctind == cs[i].ctind
      && cs[i].s <= r[i].s
      && cs[i].sid <= r[i].sid
      && (cs[i].nxt != 0 ==> r[i].nxt == cs[i].nxt)
      && (cs[i].prv != 0 ==> r[i].prv == cs[i].prv)
  }

  lemma GrownTrans(a: seq<Contig>, b: seq<Contig>, c: seq<Contig>)
    requires Grown(a, b) && Grown(b, c)
    ensures Grown(a, c)
  {
    forall i | 0 <= i < |a| ensures a[i].s <= c[i].s {
      assert a[i].s == b[i].s[..|a[i].s|];
      assert b[i].s == c[i].s[..|b[i].s|];
    }
  }

  /**
   * The roots of the chains: cid[i] is the head of the chain unitig i is
   * on, a unitig with no predecessor and thus in hd, and rk ranks the
   * unitigs so that each predecessor ranks lower, which rules out a chain
   * closed on itself.
   */
  ghost predicate Rooted(cs: seq<Contig>, hd: set<int>, cid: seq<int>, rk: seq<nat>) {
    && Linked(cs, hd)
    && |cid| == |cs| && |rk| == |cs|
    && forall i :: 1 <= i < |cs| ==>
      && 1 <= cid[i] < |cs| && cs[cid[i]].prv == 0 && cid[cid[i]] == cid[i]
      && (cs[i].prv == 0 ==> cid[i] == i)
      && (cs[i].prv != 0 ==> cid[cs[i].prv] == cid[i] && rk[cs[i].prv] < rk[i])
  }

  /** The unitig reached from i by following prv links back as far as they go. */
  ghost function Head(cs: seq<Contig>, hd: set<int>, cid: seq<int>, rk: seq<nat>, i: int): int
    requires Rooted(cs, hd, cid, rk) && 1 <= i < |cs|
    decreases rk[i]
  {
    if cs[i].prv == 0 then i else Head(cs, hd, cid, rk, cs[i].prv)
  }

  /**
   * In rooted records, walking back from any unitig along prv ends, at
   * its root, which is a header.
   */
  lemma {:induction false} HeadIsRoot(cs: seq<Contig>, hd: set<int>, cid: seq<int>, rk: seq<nat>, i: int)
    requires Rooted(cs, hd, cid, rk) && 1 <= i < |cs|
    ensures Head(cs, hd, cid, rk, i) == cid[i] && cid[i] in hd
    decreases rk[i]
  {
    if cs[i].prv != 0 {
      HeadIsRoot(cs, hd, cid, rk, cs[i].prv);
    }
  }

  /** Before branching every unitig is a chain of its own, its own root. */
  lemma SinglesAreRooted(cs: seq<Contig>, hd: set<int>)
    requires Linked(cs, hd) && forall i :: 0 <= i < |cs| ==> cs[i].prv == 0
    ensures Rooted(cs, hd, seq(|cs|, i => i), seq(|cs|, i => 0))
  {
  }

  /** The roots after the chain rooted at m joins the chain rooted at H. */
  function Reroot(cid: seq<int>, m: int, H: int): (r: seq<int>)
    ensures |r| == |cid| && forall j :: 0 <= j < |cid| ==> r[j] == if cid[j] == m then H else cid[j]
  {
    seq(|cid|, j requires 0 <= j < |cid| => if cid[j] == m then H else cid[j])
  }

  /** The ranks after the chain rooted at m is moved d places up. */
  function Rerank(cid: seq<int>, rk: seq<nat>, m: int, d: nat): (r: seq<nat>)
    requires |cid| == |rk|
    ensures |r| == |rk| && forall j :: 0 <= j < |rk| ==> r[j] == if cid[j] == m then rk[j] + d else rk[j]
  {
    seq(|rk|, j requires 0 <= j < |rk| => if cid[j] == m then rk[j] + d else rk[j])
  }

  /**
   * A commit that joins the chain rooted at m onto the tail of another
   * chain keeps every unitig rooted: m's chain takes the other chain's
   * root and is ranked above its tail.
   */
  lemma LinkKeepsRoots(cs: seq<Contig>, hd: set<int>, cid: seq<int>, rk: seq<nat>, ind: int, m: int)
    requires Rooted(cs, hd, cid, rk) && 1 <= ind < |cs| && 1 <= m < |cs|
    requires cs[ind].nxt == 0 && cs[m].prv == 0 && cs[ind].hdr == cid[ind] && m != cid[ind]
    ensures Rooted(Link(cs, ind, m), hd - {m}, Reroot(cid, m, cid[ind]), Rerank(cid, rk, m, rk[ind] + 1))
  {
    var r := Link(cs, ind, m);
    var H := cid[ind];
    var cid', rk' := Reroot(cid, m, H), Rerank(cid, rk, m, rk[ind] + 1);
    LinkKeepsLinked(cs, hd, ind, m);
    LinkCommits(cs, ind, m);
    CommitKeepsRoots(cs, hd, cid, rk, ind, m, r, cid', rk');
  }

  lemma CommitKeepsRoots(cs: seq<Contig>, hd: set<int>, cid: seq<int>, rk: seq<nat>, ind: int, m: int,
                         r: seq<Contig>, cid': seq<int>, rk': seq<nat>)
    requires Rooted(cs, hd, cid, rk) && 1 <= ind < |cs| && 1 <= m < |cs|
    requires cs[ind].nxt == 0 && cs[m].prv == 0 && cs[ind].hdr == cid[ind] && m != cid[ind]
    requires Commits(cs, ind, m, r) && Linked(r, hd - {m})
    requires cid' == Reroot(cid, m, cid[ind]) && rk' == Rerank(cid, rk, m, rk[ind] + 1)
    ensures Rooted(r, hd - {m}, cid', rk')
  {
    forall i | 1 <= i < |cs|
      ensures 1 <= cid'[i] < |cs| && r[cid'[i]].prv == 0 && cid'[cid'[i]] == cid'[i]
      ensures r[i].prv == 0 ==> cid'[i] == i
      ensures r[i].prv != 0 ==> cid'[r[i].prv] == cid'[i] && rk'[r[i].prv] < rk'[i]
    {
      if i != m && cs[i].prv != 0 {
        assert r[i].prv == cs[i].prv;
      }
    }
  }

  /** The ids and sequence of a unitig end: the last k-1 characters. */
  function Suffix(s: string, k: int): string
    requires k >= 1 && |s| >= k - 1
  {
    s[|s| - k + 1..]
  }

  /** The first k-1 characters. */
  function Prefix(s: string, k: int): string
    requires k >= 1 && |s| >= k - 1
  {
    s[..k - 1]
  }

  /**
   * tips_removal's test: a unitig shorter than 2k whose suffix has no
   * successor or whose prefix has no predecessor among the keys K.
   */
  predicate IsTip(K: set<string>, s: string, k: int)
    requires k >= 1 && |s| >= k - 1
  {
    (|LeftOf(K, Prefix(s, k), Bases)| == 0 || |RightOf(K, Suffix(s, k), Bases)| == 0) && |s| < 2 * k
  }

  /** A tip is a short unitig at a dead end: no base extends its suffix to a key, or none its prefix. */
  lemma TipIsDeadEnd(K: set<string>, s: string, k: int)
    requires k >= 1 && |s| >= k - 1
    ensures IsTip(K, s, k) <==>
      && ((forall c :: c in Bases ==> [c] + Prefix(s, k) !in K) || (forall c :: c in Bases ==> Suffix(s, k) + [c] !in K))
      && |s| < 2 * k
  {
    var l, r := LeftOf(K, Prefix(s, k), Bases), RightOf(K, Suffix(s, k), Bases);
    if |l| > 0 {
      assert l[0] in l;
    }
    if |r| > 0 {
      assert r[0] in r;
    }
  }

  /** Every record after the sentinel is at least k-1 long, so its ends can be taken. */
  ghost predicate LongEnough(cs: seq<Contig>, k: int) {
    k >= 1 && forall i :: 1 <= i < |cs| ==> |cs[i].s| >= k - 1
  }

  /** The unitigs below n that tips_removal marks. */
  ghost function TipsBelow(K: set<string>, cs: seq<Contig>, k: int, n: int): set<int>
    requires LongEnough(cs, k)
  {
    set i | 1 <= i < n && i < |cs| && IsTip(K, cs[i].s, k)
  }

  /** Growing records keeps them long enough, and every key and header still names one. */
  lemma GrownScorable(h: map<string, Kmer>, cs: seq<Contig>, r: seq<Contig>, k: int)
    requires Scorable(h, cs, k) && Grown(cs, r)
    requires forall i :: 0 <= i < |r| ==> 0 <= r[i].hdr < |r|
    ensures Scorable(h, r, k)
  {
    forall i | 1 <= i < |r| ensures |r[i].s| >= k - 1 {
      assert |cs[i].s| <= |r[i].s|;
    }
  }

  /**
   * The extension loop of branching from the head ind0 of records c0 with
   * headers hd0, at the tail ind: the records are rooted and scorable,
   * have only grown, headers have only left, and ind is on ind0's chain
   * with its root as its header.
   */
  ghost predicate Extending(h: map<string, Kmer>, c0: seq<Contig>, hd0: set<int>, ind0: int, k: int,
                            cs: seq<Contig>, hd: set<int>, cid: seq<int>, rk: seq<nat>, ind: int) {
    && Rooted(cs, hd, cid, rk) && Scorable(h, cs, k)
    && Grown(c0, cs) && hd <= hd0
    && 1 <= ind0 < |cs| && 1 <= ind < |cs| && cs[ind].hdr == cid[ind] && cid[ind] == cid[ind0]
  }

  /** The choice from a tail in the loop's state names a header, so it can be committed. */
  lemma ExtendChoice(h: map<string, Kmer>, c0: seq<Contig>, hd0: set<int>, ind0: int, k: int,
                     cs: seq<Contig>, hd: set<int>, cid: seq<int>, rk: seq<nat>, ind: int, tip: set<int>, m: int)
    requires Extending(h, c0, hd0, ind0, k, cs, hd, cid, rk, ind)
    requires m == OpenChoice(h, cs, tip, ind, k) && m != 0
    ensures 1 <= m < |cs| && cs[m].hdr == m && 0 <= cs[ind].hdr < |cs|
  {
    OpenChoiceIsBest(h, cs, tip, ind, k);
  }

  /** A commit from a tail to the head of another chain keeps the records rooted and scorable. */
  lemma LinkKeepsAll(h: map<string, Kmer>, cs: seq<Contig>, hd: set<int>, cid: seq<int>, rk: seq<nat>,
                     ind: int, m: int, k: int)
    requires Rooted(cs, hd, cid, rk) && Scorable(h, cs, k) && 1 <= ind < |cs| && 1 <= m < |cs|
    requires cs[ind].nxt == 0 && cs[m].prv == 0 && cs[ind].hdr == cid[ind] && m != cid[ind]
    ensures Rooted(Link(cs, ind, m), hd - {m}, Reroot(cid, m, cid[ind]), Rerank(cid, rk, m, rk[ind] + 1))
    ensures Scorable(h, Link(cs, ind, m), k) && Grown(cs, Link(cs, ind, m))
    ensures Link(cs, ind, m)[m].hdr == cid[ind]
  {
    LinkKeepsLinked(cs, hd, ind, m);
    LinkKeepsRoots(cs, hd, cid, rk, ind, m);
    LinkJoins(cs, hd, ind, m);
    GrownScorable(h, cs, Link(cs, ind, m), k);
  }

  /** Every table entry names a record, and so does every header field: what scoring a branch reads. */
  ghost predicate Scorable(h: map<string, Kmer>, cs: seq<Contig>, k: int) {
    && LongEnough(cs, k)
    && (forall w :: w in h ==> 1 <= h[w].utgno < |cs|)
    && (forall i :: 0 <= i < |cs| ==> 0 <= cs[i].hdr < |cs|)
  }

  /**
   * The score of the branch through key w from unitig ind as branching
   * computes it: if w is a key whose unitig heads a chain and is not a tip,
   * the mate-pair support of that unitig's header ids with the ids of
   * ind's chain, and otherwise 0, which never beats the best so far.
   */
  function Score(h: map<string, Kmer>, cs: seq<Contig>, tip: set<int>, ind: int, w: string): nat
    requires Scorable(h, cs, 1) && 0 <= ind < |cs|
  {
    if w in h && cs[h[w].utgno].prv == 0 && h[w].utgno !in tip then
      Support(cs[cs[h[w].utgno].hdr].sid, cs[cs[ind].hdr].sid)
    else 0
  }

  /** The score with the head of ind's own chain ruled out as a successor. */
  function OpenScore(h: map<string, Kmer>, cs: seq<Contig>, tip: set<int>, ind: int, w: string): nat
    requires Scorable(h, cs, 1) && 0 <= ind < |cs|
  {
    if w in h && h[w].utgno == cs[ind].hdr then 0 else Score(h, cs, tip, ind, w)
  }

  /** The unitig a key belongs to. */
  function Target(h: map<string, Kmer>, w: string): int {
    if w in h then h[w].utgno else 0
  }

  /** The keys extending the suffix o by each base, in cmap order. */
  function Ends(o: string): (r: seq<string>)
    ensures |r| == 4 && forall j :: 0 <= j < 4 ==> r[j] == o + [Bases[j]]
  {
    seq(4, j requires 0 <= j < 4 => o + [Bases[j]])
  }

  function Scores(h: map<string, Kmer>, cs: seq<Contig>, tip: set<int>, ind: int, ws: seq<string>): (r: seq<int>)
    requires Scorable(h, cs, 1) && 0 <= ind < |cs|
    ensures |r| == |ws| && forall j :: 0 <= j < |ws| ==> r[j] == Score(h, cs, tip, ind, ws[j])
  {
    seq(|ws|, j requires 0 <= j < |ws| => Score(h, cs, tip, ind, ws[j]))
  }

  function OpenScores(h: map<string, Kmer>, cs: seq<Contig>, tip: set<int>, ind: int, ws: seq<string>): (r: seq<int>)
    requires Scorable(h, cs, 1) && 0 <= ind < |cs|
    ensures |r| == |ws| && forall j :: 0 <= j < |ws| ==> r[j] == OpenScore(h, cs, tip, ind, ws[j])
  {
    seq(|ws|, j requires 0 <= j < |ws| => OpenScore(h, cs, tip, ind, ws[j]))
  }

  function Targets(h: map<string, Kmer>, ws: seq<string>): (r: seq<int>)
    ensures |r| == |ws| && forall j :: 0 <= j < |ws| ==> r[j] == Target(h, ws[j])
  {
    seq(|ws|, j requires 0 <= j < |ws| => Target(h, ws[j]))
  }

  /** The successor branching picks for the tail ind, 0 for none: the running best over the four ends. */
  function Choice(h: map<string, Kmer>, cs: seq<Contig>, tip: set<int>, ind: int, k: int): int
    requires Scorable(h, cs, k) && 1 <= ind < |cs|
  {
    var ws := Ends(Suffix(cs[ind].s, k));
    Best(Scores(h, cs, tip, ind, ws), Targets(h, ws)).1
  }

  /** The successor picked when the head of ind's own chain is not a candidate. */
  function OpenChoice(h: map<string, Kmer>, cs: seq<Contig>, tip: set<int>, ind: int, k: int): int
    requires Scorable(h, cs, k) && 1 <= ind < |cs|
  {
    var ws := Ends(Suffix(cs[ind].s, k));
    Best(OpenScores(h, cs, tip, ind, ws), Targets(h, ws)).1
  }

  /**
   * The chosen successor, if any, is the first right neighbour of ind's
   * suffix, in A, T, G, C order, with the strictly greatest positive
   * score; it heads a chain other than ind's own and is not a tip. None is
   * chosen exactly when no neighbour scores above 0.
   */
  lemma OpenChoiceIsBest(h: map<string, Kmer>, cs: seq<Contig>, tip: set<int>, ind: int, k: int)
    requires Scorable(h, cs, k) && 1 <= ind < |cs|
    ensures var ws := Ends(Suffix(cs[ind].s, k));
      var sc := OpenScores(h, cs, tip, ind, ws);
      var m := OpenChoice(h, cs, tip, ind, k);
      && (m == 0 <==> forall j :: 0 <= j < 4 ==> sc[j] == 0)
      && (m != 0 ==>
            && 0 < m < |cs| && cs[m].prv == 0 && m !in tip && m != cs[ind].hdr
            && exists j :: 0 <= j < 4 && ws[j] in h && h[ws[j]].utgno == m
                 && sc[j] > 0 && (forall i :: 0 <= i < j ==> sc[i] < sc[j])
                 && (forall i :: 0 <= i < 4 ==> sc[i] <= sc[j]))
  {
    var ws := Ends(Suffix(cs[ind].s, k));
    var sc := OpenScores(h, cs, tip, ind, ws);
    var tg := Targets(h, ws);
    BestIsFirstMaximum(sc, tg);
    var m := Best(sc, tg).1;
    if Best(sc, tg).0 > 0 {
      var j :| 0 <= j < |sc| && sc[j] == Best(sc, tg).0 && tg[j] == m && (forall i :: 0 <= i < j ==> sc[i] < sc[j]);
      assert ws[j] in h && h[ws[j]].utgno == m;
    }
  }

  /**
   * The records the unitig stage leaves after the sentinel, every key
   * consumed, are ready for branching: each unitig its own chain and
   * header, every key naming a unitig, every unitig at least k long.
   */
  lemma BuiltIsScorable(h0: map<string, Kmer>, h: map<string, Kmer>, cs: seq<Contig>, k: int)
    requires |cs| >= 1 && cs[0] == Sentinel && Built(h0, h, cs, 1, k)
    requires forall w :: w in h ==> !Live(h, w)
    ensures Linked(cs, Span(1, |cs|)) && Scorable(h, cs, k)
    ensures forall i :: 0 <= i < |cs| ==> cs[i].prv == 0
  {
    BuiltUnitigs(h0, h, cs, k);
    UnitigsAreLinked(cs);
  }

  /** The records after the sentinel are fresh unitigs at least k long. */
  lemma BuiltUnitigs(h0: map<string, Kmer>, h: map<string, Kmer>, cs: seq<Contig>, k: int)
    requires |cs| >= 1 && Built(h0, h, cs, 1, k)
    ensures forall i :: 1 <= i < |cs| ==> Unlinked(cs[i], i) && |cs[i].s| >= k
  {
    forall i | 1 <= i < |cs| ensures Unlinked(cs[i], i) && |cs[i].s| >= k {
      assert UnitigAt(h0, h, cs, i, k);
    }
  }

  /**
   * A circular unitig as the unitig stage leaves it (k = 2, windows AC
   * and CA, the walk stopping where it meets its own start), covered by
   * the mates 1 and 2.
   */
  const CycleTable: map<string, Kmer> := map["AC" := Kmer(1, []), "CA" := Kmer(1, [])]
  const CycleRecords: seq<Contig> := [Sentinel, Contig(1, "ACA", {1, 2}, 0, 0, 1)]

  lemma CycleEnds()
    ensures Scorable(CycleTable, CycleRecords, 2)
    ensures Ends(Suffix(CycleRecords[1].s, 2)) == ["AA", "AT", "AG", "AC"]
  {
    assert Suffix(CycleRecords[1].s, 2) == "A";
    var ws := Ends("A");
    assert Bases[0] == 'A' && Bases[1] == 'T' && Bases[2] == 'G' && Bases[3] == 'C';
    assert ws[0] == "AA" && ws[1] == "AT" && ws[2] == "AG" && ws[3] == "AC";
  }

  /** The unitig's ids are two mates, so its support with itself is 2. */
  lemma CycleSupport()
    ensures Support({1, 2}, {1, 2}) == 2
  {
    assert Mated({1, 2}, {1, 2}) == {1, 2} by {
      assert Mate(1) == 2 && Mate(2) == 1;
    }
  }

  /** Of the four ends of the suffix A, only AC is a key, of the unitig itself. */
  lemma CycleScores()
    ensures Scorable(CycleTable, CycleRecords, 2)
    ensures Scores(CycleTable, CycleRecords, {}, 1, ["AA", "AT", "AG", "AC"]) == [0, 0, 0, 2]
    ensures Targets(CycleTable, ["AA", "AT", "AG", "AC"]) == [0, 0, 0, 1]
  {
    CycleEnds();
    CycleSupport();
    var ws := ["AA", "AT", "AG", "AC"];
    assert "AA" !in CycleTable && "AT" !in CycleTable && "AG" !in CycleTable && "AC" in CycleTable;
    assert Score(CycleTable, CycleRecords, {}, 1, ws[3]) == 2;
  }

  /** Scored as written, the unitig's suffix A leads back to its own head, which is chosen. */
  lemma CycleChoosesOwnHead()
    ensures Scorable(CycleTable, CycleRecords, 2)
    ensures Choice(CycleTable, CycleRecords, {}, 1, 2) == 1 == CycleRecords[1].hdr
  {
    CycleEnds();
    CycleScores();
    var sc, tg := [0, 0, 0, 2], [0, 0, 0, 1];
    assert sc[..3] == [0, 0, 0] && tg[..3] == [0, 0, 0];
    assert Best([0, 0, 0], [0, 0, 0]) == (0, 0) by {
      assert [0, 0, 0][..2] == [0, 0];
      assert [0, 0][..1] == [0];
      assert [0][..0] == [];
    }
  }

  /** With its own head ruled out, the unitig has no successor. */
  lemma CycleHasNoOpenChoice()
    ensures Scorable(CycleTable, CycleRecords, 2)
    ensures OpenChoice(CycleTable, CycleRecords, {}, 1, 2) == 0
  {
    CycleEnds();
    OpenChoiceIsBest(CycleTable, CycleRecords, {}, 1, 2);
  }

  /**
   * Committing that choice closes the unitig on itself: its sequence is
   * doubled and no header is left, so nothing of it is output although it
   * exists; with its own head ruled out no commit happens.
   */
  lemma CycleDropsChain()
    ensures Linked(CycleRecords, {1}) && Scorable(CycleTable, CycleRecords, 2)
    ensures Choice(CycleTable, CycleRecords, {}, 1, 2) == 1
    ensures Link(CycleRecords, 1, 1)[1].s == "ACAACA"
    ensures Linked(Link(CycleRecords, 1, 1), {}) && |Link(CycleRecords, 1, 1)| == 2
    ensures OpenChoice(CycleTable, CycleRecords, {}, 1, 2) == 0
  {
    CycleChoosesOwnHead();
    CycleHasNoOpenChoice();
    assert Linked(CycleRecords, {1});
    LinkKeepsLinked(CycleRecords, {1}, 1, 1);
    LinkJoins(CycleRecords, {1}, 1, 1);
  }

  /**
   * The least element of a non-empty set of integers exists: std::set
   * hands its elements out least first.
   */
  lemma {:induction false} HasLeast(S: set<int>)
    requires S != {}
    ensures exists x :: x in S && forall y :: y in S ==> x <= y
    decreases |S|
  {
    NonEmpty(S);
    var x :| x in S;
    if S != {x} {
      NonEmpty(S - {x});
      HasLeast(S - {x});
      var z :| z in S - {x} && forall y :: y in S - {x} ==> z <= y;
      forall y | y in S && y != x ensures z <= y {
        assert y in S - {x};
      }
      if x > z {
        assert z in S;
      }
    }
  }
}
