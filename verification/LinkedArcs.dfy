/** How the profiler keeps its chains of arcs in two arrays: `froms` holds the index of each
    chain's first entry, every `tos` entry the index of the next, and 0 ends a chain. */
module LinkedArcs {
  import opened ArcTable

  datatype Tostruct = Tostruct(selfpc: nat, count: nat, link: nat)

  ghost predicate InRange(tos: seq<Tostruct>, ids: seq<nat>) {
    forall k | 0 <= k < |ids| :: 0 < ids[k] < |tos|
  }

  function Next(ids: seq<nat>, k: nat): nat {
    if k + 1 < |ids| then ids[k + 1] else 0
  }

  /** `ids` are the entries met when walking from `head`. */
  ghost predicate Linked(tos: seq<Tostruct>, head: nat, ids: seq<nat>)
    requires InRange(tos, ids)
  {
    && head == (if ids == [] then 0 else ids[0])
    && forall k | 0 <= k < |ids| :: tos[ids[k]].link == Next(ids, k)
  }

  ghost predicate DistinctCallees(tos: seq<Tostruct>, ids: seq<nat>)
    requires InRange(tos, ids)
  {
    forall k, l | 0 <= k < l < |ids| :: tos[ids[k]].selfpc != tos[ids[l]].selfpc
  }

  ghost function ChainOf(tos: seq<Tostruct>, ids: seq<nat>): (c: Chain)
    requires InRange(tos, ids)
    ensures |c| == |ids|
    ensures forall k | 0 <= k < |ids| :: c[k] == Arc(tos[ids[k]].selfpc, tos[ids[k]].count)
  {
    seq(|ids|, k requires 0 <= k < |ids| => Arc(tos[ids[k]].selfpc, tos[ids[k]].count))
  }

  /** The walk of one chain. It is acyclic, since its callees and with them its entries are distinct. */
  ghost predicate ChainShape(tos: seq<Tostruct>, head: nat, ids: seq<nat>) {
    InRange(tos, ids) && Linked(tos, head, ids) && DistinctCallees(tos, ids)
  }

  ghost predicate Owned(ids: seq<nat>, used: nat, slotOf: seq<nat>, slot: nat) {
    forall k | 0 <= k < |ids| :: ids[k] <= used && ids[k] < |slotOf| && slotOf[ids[k]] == slot
  }

  /** The arrays with the chains they hold: `nodes` lists each chain's entries, `slotOf` tells
      which chain an entry is in. */
  datatype Table = Table(froms: seq<nat>, tos: seq<Tostruct>, used: nat, nodes: seq<seq<nat>>, slotOf: seq<nat>)

  /** Every entry from 1 to `used` is in exactly one chain, that of `slotOf`. */
  ghost predicate Shape(t: Table) {
    && |t.nodes| == |t.froms| && |t.slotOf| == |t.tos| && t.used < |t.tos|
    && (forall s | 0 <= s < |t.nodes| :: ChainShape(t.tos, t.froms[s], t.nodes[s]))
    && (forall s | 0 <= s < |t.nodes| :: Owned(t.nodes[s], t.used, t.slotOf, s))
    && (forall i | 1 <= i <= t.used :: t.slotOf[i] < |t.nodes| && i in t.nodes[t.slotOf[i]])
  }

  ghost function ChainsOf(t: Table): (cs: seq<Chain>)
    requires Shape(t)
    ensures |cs| == |t.nodes|
    ensures forall s | 0 <= s < |cs| :: cs[s] == ChainOf(t.tos, t.nodes[s])
  {
    seq(|t.nodes|, s requires 0 <= s < |t.nodes| => ChainOf(t.tos, t.nodes[s]))
  }

  /** A chain is untouched by changes to other entries. */
  lemma ChainUnaffected(tos: seq<Tostruct>, tos': seq<Tostruct>, head: nat, ids: seq<nat>)
    requires ChainShape(tos, head, ids) && |tos'| == |tos|
    requires forall k | 0 <= k < |ids| :: tos'[ids[k]] == tos[ids[k]]
    ensures ChainShape(tos', head, ids)
    ensures ChainOf(tos', ids) == ChainOf(tos, ids)
  {
  }

  // Linking a new entry in at the head.

  lemma InsertedLinks(tos: seq<Tostruct>, tos': seq<Tostruct>, head: nat, ids: seq<nat>, n: nat, k: nat)
    requires InRange(tos, ids) && Linked(tos, head, ids)
    requires 0 < n < |tos| == |tos'| && tos'[n].link == head && k < |[n] + ids|
    requires forall k | 0 <= k < |ids| :: tos'[ids[k]] == tos[ids[k]]
    ensures 0 < ([n] + ids)[k] < |tos'| && tos'[([n] + ids)[k]].link == Next([n] + ids, k)
  {
    if 0 < k {
      assert tos[ids[k - 1]].link == Next(ids, k - 1);
    }
  }

  lemma InsertedChain(tos: seq<Tostruct>, tos': seq<Tostruct>, head: nat, ids: seq<nat>, n: nat, selfpc: nat)
    requires ChainShape(tos, head, ids) && 0 < n < |tos| == |tos'| && tos'[n] == Tostruct(selfpc, 1, head)
    requires forall k | 0 <= k < |ids| :: tos[ids[k]].selfpc != selfpc && tos'[ids[k]] == tos[ids[k]]
    ensures ChainShape(tos', n, [n] + ids)
    ensures ChainOf(tos', [n] + ids) == Touch(ChainOf(tos, ids), selfpc)
  {
    hide Touch, Next;
    var ids' := [n] + ids;
    forall k: nat | k < |ids'| ensures 0 < ids'[k] < |tos'| && tos'[ids'[k]].link == Next(ids', k) {
      InsertedLinks(tos, tos', head, ids, n, k);
    }
    assert DistinctCallees(tos', ids') by {
      hide Linked;
    }
    TouchAbsent(ChainOf(tos, ids), selfpc);
  }

  lemma TouchAbsent(chain: Chain, selfpc: nat)
    requires forall k | 0 <= k < |chain| :: chain[k].selfpc != selfpc
    ensures Touch(chain, selfpc) == [Arc(selfpc, 1)] + chain
  {
  }

  lemma TouchPresent(chain: Chain, k: nat)
    requires Distinct(chain) && k < |chain|
    ensures Touch(chain, chain[k].selfpc) ==
            [Arc(chain[k].selfpc, chain[k].count + 1)] + chain[..k] + chain[k + 1..]
  {
    FindInDistinct(chain, k);
  }

  ghost function Inserted(t: Table, slot: nat, tos': seq<Tostruct>): Table
    requires Shape(t) && slot < |t.froms| && t.used + 1 < |t.tos|
  {
    var n := t.used + 1;
    Table(t.froms[slot := n], tos', n, t.nodes[slot := [n] + t.nodes[slot]], t.slotOf[n := slot])
  }

  lemma InsertKeepsChains(t: Table, slot: nat, selfpc: nat, tos': seq<Tostruct>, s: nat)
    requires Shape(t) && slot < |t.froms| && t.used + 1 < |t.tos| && s < |t.froms|
    requires forall k | 0 <= k < |t.nodes[slot]| :: t.tos[t.nodes[slot][k]].selfpc != selfpc
    requires |tos'| == |t.tos| && tos'[t.used + 1] == Tostruct(selfpc, 1, t.froms[slot])
    requires forall i | 1 <= i <= t.used :: tos'[i] == t.tos[i]
    ensures var u := Inserted(t, slot, tos');
            && ChainShape(tos', u.froms[s], u.nodes[s]) && Owned(u.nodes[s], u.used, u.slotOf, s)
            && ChainOf(tos', u.nodes[s])
            == if s == slot then Touch(ChainOf(t.tos, t.nodes[s]), selfpc) else ChainOf(t.tos, t.nodes[s])
  {
    hide Touch, Linked, DistinctCallees, Next;
    assert ChainShape(t.tos, t.froms[s], t.nodes[s]) && Owned(t.nodes[s], t.used, t.slotOf, s);
    if s == slot {
      InsertedChain(t.tos, tos', t.froms[s], t.nodes[s], t.used + 1, selfpc);
    } else {
      ChainUnaffected(t.tos, tos', t.froms[s], t.nodes[s]);
    }
  }

  lemma InsertKeepsShape(t: Table, slot: nat, selfpc: nat, tos': seq<Tostruct>)
    requires Shape(t) && slot < |t.froms| && t.used + 1 < |t.tos|
    requires forall k | 0 <= k < |t.nodes[slot]| :: t.tos[t.nodes[slot][k]].selfpc != selfpc
    requires |tos'| == |t.tos| && tos'[t.used + 1] == Tostruct(selfpc, 1, t.froms[slot])
    requires forall i | 1 <= i <= t.used :: tos'[i] == t.tos[i]
    ensures Shape(Inserted(t, slot, tos'))
    ensures ChainsOf(Inserted(t, slot, tos')) == ChainsOf(t)[slot := Touch(ChainsOf(t)[slot], selfpc)]
  {
    hide Touch, Linked, DistinctCallees, Owned;
    var u := Inserted(t, slot, tos');
    forall s: nat | s < |u.nodes|
      ensures ChainShape(tos', u.froms[s], u.nodes[s]) && Owned(u.nodes[s], u.used, u.slotOf, s)
      ensures ChainOf(tos', u.nodes[s])
           == if s == slot then Touch(ChainOf(t.tos, t.nodes[s]), selfpc) else ChainOf(t.tos, t.nodes[s])
    {
      InsertKeepsChains(t, slot, selfpc, tos', s);
    }
    forall i | 1 <= i <= u.used ensures u.slotOf[i] < |u.nodes| && i in u.nodes[u.slotOf[i]] {
      if i == u.used {
        assert u.nodes[slot][0] == i;
      } else {
        var ids := t.nodes[t.slotOf[i]];
        var k :| 0 <= k < |ids| && ids[k] == i;
        assert ([u.used] + ids)[k + 1] == i;
      }
    }
  }

  // Moving a found entry to the head.

  ghost function ToFront(ids: seq<nat>, k: nat): seq<nat>
    requires k < |ids|
  {
    [ids[k]] + ids[..k] + ids[k + 1..]
  }

  /** The entry table after entry `k` of a chain was counted and, unless it led already, unlinked
      and put first. */
  ghost predicate Moved(tos: seq<Tostruct>, tos': seq<Tostruct>, head: nat, ids: seq<nat>, k: nat)
    requires InRange(tos, ids) && k < |ids| && |tos'| == |tos|
  {
    && (forall i | 0 <= i < |tos| && i != ids[k] && (0 < k ==> i != ids[k - 1]) :: tos'[i] == tos[i])
    && tos'[ids[k]] == Tostruct(tos[ids[k]].selfpc, tos[ids[k]].count + 1, if k == 0 then tos[ids[k]].link else head)
    && (0 < k ==> tos'[ids[k - 1]] == tos[ids[k - 1]].(link := tos[ids[k]].link))
  }

  lemma MovedEntry(tos: seq<Tostruct>, tos': seq<Tostruct>, head: nat, ids: seq<nat>, k: nat, j: nat)
    requires ChainShape(tos, head, ids) && k < |ids| && |tos'| == |tos| && Moved(tos, tos', head, ids, k) && j < |ids|
    ensures tos'[ids[j]].selfpc == tos[ids[j]].selfpc
    ensures tos'[ids[j]].count == tos[ids[j]].count + if j == k then 1 else 0
    ensures j != k && j + 1 != k ==> tos'[ids[j]].link == Next(ids, j)
    ensures j + 1 == k ==> tos'[ids[j]].link == Next(ids, k)
    ensures j == k ==> tos'[ids[j]].link == if k == 0 then Next(ids, k) else ids[0]
  {
    assert tos[ids[j]].link == Next(ids, j) && tos[ids[k]].link == Next(ids, k);
    assert j < k ==> ids[j] != ids[k];
    assert k < j ==> ids[j] != ids[k];
    if 0 < k {
      assert j < k - 1 ==> ids[j] != ids[k - 1];
      assert k - 1 < j ==> ids[j] != ids[k - 1];
    }
  }

  /** The old place of what is at place `i` once entry `k` has moved to the front. */
  function OldPlace(i: nat, k: nat): nat {
    if i == 0 then k else if i <= k then i - 1 else i
  }

  lemma MovedLink(tos: seq<Tostruct>, tos': seq<Tostruct>, head: nat, ids: seq<nat>, k: nat, i: nat)
    requires ChainShape(tos, head, ids) && k < |ids| && |tos'| == |tos| && Moved(tos, tos', head, ids, k) && i < |ids|
    ensures var ids', j := ToFront(ids, k), OldPlace(i, k);
            && 0 < ids'[i] == ids[j] < |tos'|
            && tos'[ids'[i]].link == Next(ids', i)
            && tos'[ids'[i]].selfpc == tos[ids[j]].selfpc
            && tos'[ids'[i]].count == tos[ids[j]].count + if i == 0 then 1 else 0
  {
    hide Moved, ChainShape;
    ChainInRange(tos, head, ids);
    var ids', j := ToFront(ids, k), OldPlace(i, k);
    assert ids'[i] == ids[j];
    MovedEntry(tos, tos', head, ids, k, j);
  }

  lemma ChainInRange(tos: seq<Tostruct>, head: nat, ids: seq<nat>)
    requires ChainShape(tos, head, ids)
    ensures InRange(tos, ids)
  {
  }

  lemma MovedChain(tos: seq<Tostruct>, tos': seq<Tostruct>, head: nat, ids: seq<nat>, k: nat)
    requires ChainShape(tos, head, ids) && k < |ids| && |tos'| == |tos| && Moved(tos, tos', head, ids, k)
    ensures ChainShape(tos', ids[k], ToFront(ids, k))
    ensures ChainOf(tos', ToFront(ids, k)) == Touch(ChainOf(tos, ids), tos[ids[k]].selfpc)
  {
    hide Touch, Moved, ToFront, Next, OldPlace;
    var ids', chain := ToFront(ids, k), ChainOf(tos, ids);
    ToFrontLength(ids, k);
    forall i: nat | i < |ids'|
      ensures 0 < ids'[i] < |tos'| && tos'[ids'[i]].link == Next(ids', i)
    {
      MovedLink(tos, tos', head, ids, k, i);
    }
    assert ids'[0] == ids[k];
    forall i: nat, j: nat | i < j < |ids'| ensures tos'[ids'[i]].selfpc != tos'[ids'[j]].selfpc {
      MovedLink(tos, tos', head, ids, k, i);
      MovedLink(tos, tos', head, ids, k, j);
      OldPlacesDiffer(i, j, k, |ids|);
      var a, b := OldPlace(i, k), OldPlace(j, k);
      assert a < b || b < a;
    }
    MovedContents(tos, tos', head, ids, k);
  }

  lemma ToFrontLength(ids: seq<nat>, k: nat)
    requires k < |ids|
    ensures |ToFront(ids, k)| == |ids| && ToFront(ids, k)[0] == ids[k]
  {
  }

  lemma OldPlacesDiffer(i: nat, j: nat, k: nat, n: nat)
    requires i < j < n && k < n
    ensures OldPlace(i, k) != OldPlace(j, k) && OldPlace(i, k) < n && OldPlace(j, k) < n
  {
  }

  lemma MovedContents(tos: seq<Tostruct>, tos': seq<Tostruct>, head: nat, ids: seq<nat>, k: nat)
    requires ChainShape(tos, head, ids) && k < |ids| && |tos'| == |tos| && Moved(tos, tos', head, ids, k) && InRange(tos', ToFront(ids, k))
    ensures ChainOf(tos', ToFront(ids, k)) == Touch(ChainOf(tos, ids), tos[ids[k]].selfpc)
  {
    hide Touch, Moved, Next, Linked;
    var ids', chain := ToFront(ids, k), ChainOf(tos, ids);
    TouchPresent(chain, k);
    var touched := [Arc(chain[k].selfpc, chain[k].count + 1)] + chain[..k] + chain[k + 1..];
    forall i: nat | i < |ids'| ensures ChainOf(tos', ids')[i] == touched[i] {
      MovedLink(tos, tos', head, ids, k, i);
    }
  }

  ghost function Promoted(t: Table, slot: nat, k: nat, tos': seq<Tostruct>): Table
    requires Shape(t) && slot < |t.froms| && k < |t.nodes[slot]|
  {
    var ids := t.nodes[slot];
    t.(froms := t.froms[slot := ids[k]], tos := tos', nodes := t.nodes[slot := ToFront(ids, k)])
  }

  lemma MoveKeepsChains(t: Table, slot: nat, k: nat, tos': seq<Tostruct>, s: nat)
    requires Shape(t) && slot < |t.froms| && s < |t.froms|
    requires InRange(t.tos, t.nodes[slot]) && k < |t.nodes[slot]| && |tos'| == |t.tos|
    requires Moved(t.tos, tos', t.froms[slot], t.nodes[slot], k)
    ensures var u := Promoted(t, slot, k, tos');
            && ChainShape(tos', u.froms[s], u.nodes[s]) && Owned(u.nodes[s], u.used, u.slotOf, s)
            && ChainOf(tos', u.nodes[s])
            == if s == slot then Touch(ChainOf(t.tos, t.nodes[s]), t.tos[t.nodes[s][k]].selfpc)
               else ChainOf(t.tos, t.nodes[s])
  {
    hide Touch, Linked, DistinctCallees, Next;
    var ids := t.nodes[slot];
    assert ChainShape(t.tos, t.froms[s], t.nodes[s]) && Owned(t.nodes[s], t.used, t.slotOf, s);
    assert ChainShape(t.tos, t.froms[slot], ids) && Owned(ids, t.used, t.slotOf, slot);
    if s == slot {
      MovedChain(t.tos, tos', t.froms[s], t.nodes[s], k);
    } else {
      forall j | 0 <= j < |t.nodes[s]| ensures tos'[t.nodes[s][j]] == t.tos[t.nodes[s][j]] {
        assert t.slotOf[t.nodes[s][j]] == s && t.slotOf[ids[k]] == slot;
        assert 0 < k ==> t.slotOf[ids[k - 1]] == slot;
      }
      ChainUnaffected(t.tos, tos', t.froms[s], t.nodes[s]);
    }
  }

  lemma MoveKeepsShape(t: Table, slot: nat, k: nat, tos': seq<Tostruct>)
    requires Shape(t) && slot < |t.froms|
    requires InRange(t.tos, t.nodes[slot]) && k < |t.nodes[slot]| && |tos'| == |t.tos|
    requires Moved(t.tos, tos', t.froms[slot], t.nodes[slot], k)
    ensures Shape(Promoted(t, slot, k, tos'))
    ensures ChainsOf(Promoted(t, slot, k, tos'))
         == ChainsOf(t)[slot := Touch(ChainsOf(t)[slot], t.tos[t.nodes[slot][k]].selfpc)]
  {
    hide Touch, Linked, DistinctCallees, Owned;
    var u := Promoted(t, slot, k, tos');
    var selfpc := t.tos[t.nodes[slot][k]].selfpc;
    forall s: nat | s < |u.nodes|
      ensures ChainShape(tos', u.froms[s], u.nodes[s]) && Owned(u.nodes[s], u.used, u.slotOf, s)
      ensures ChainOf(tos', u.nodes[s])
           == if s == slot then Touch(ChainOf(t.tos, t.nodes[s]), selfpc) else ChainOf(t.tos, t.nodes[s])
    {
      MoveKeepsChains(t, slot, k, tos', s);
    }
    forall i | 1 <= i <= u.used ensures u.slotOf[i] < |u.nodes| && i in u.nodes[u.slotOf[i]] {
      var ids := t.nodes[t.slotOf[i]];
      var j :| 0 <= j < |ids| && ids[j] == i;
      if t.slotOf[i] == slot {
        assert ToFront(ids, k)[if j == k then 0 else if j < k then j + 1 else j] == i;
      }
    }
  }
}
