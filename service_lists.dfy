/**
 * The shape shared by the store's log and metric families: per-service
 * lists in first-seen service order, a cap per list, and an index from
 * entry id to entry. `ident` and `owner` give an entry's id and service.
 */
module ServiceLists {
  import opened StoreSpec

  /** The lists, the order in which their services were first seen, and the by-id index. */
  datatype Family<T> = Family(lists: map<string, seq<T>>, order: seq<string>, byId: map<string, T>)

  /** The key order lists every service once. */
  ghost predicate OrderValid<T>(f: Family<T>)
  {
    Distinct(f.order) && (forall s :: s in f.lists <==> s in f.order)
  }

  /** Every list is within the cap and holds no entry twice. */
  ghost predicate ListsBounded<T>(f: Family<T>, cap: nat)
  {
    forall s :: s in f.lists ==> |f.lists[s]| <= cap && Distinct(f.lists[s])
  }

  /** Every stored entry sits in its own service's list and is found in the index under its id. */
  ghost predicate Indexed<T(!new)>(f: Family<T>, ident: T -> string, owner: T -> string)
  {
    forall s, x :: s in f.lists && x in f.lists[s] ==> owner(x) == s && ident(x) in f.byId && f.byId[ident(x)] == x
  }

  /** The index files every entry under its own id. */
  ghost predicate IdsMatch<T>(f: Family<T>, ident: T -> string)
  {
    forall k :: k in f.byId ==> ident(f.byId[k]) == k
  }

  /** Every entry of the index is stored, in its own service's list: the index holds nothing stale. */
  ghost predicate IndexStored<T(!new)>(f: Family<T>, owner: T -> string)
  {
    forall k :: k in f.byId ==> owner(f.byId[k]) in f.lists && f.byId[k] in f.lists[owner(f.byId[k])]
  }

  ghost predicate FamilyValid<T(!new)>(f: Family<T>, cap: nat, ident: T -> string, owner: T -> string)
  {
    OrderValid(f) && ListsBounded(f, cap) && Indexed(f, ident, owner) && IdsMatch(f, ident)
  }

  /**
   * `lists[owner(x)].append(x)`, `byId[ident(x)] = x`, then, when that list
   * exceeds `cap`, `pop(0)` of its oldest entry and `del` of that entry's id.
   * A service seen for the first time goes to the end of the key order.
   */
  function Append<T>(f: Family<T>, x: T, cap: nat, ident: T -> string, owner: T -> string): Family<T>
    requires cap >= 1
  {
    var s := owner(x);
    var before := ListOf(f.lists, s);
    var order := if s in f.lists then f.order else f.order + [s];
    var byId := if |before| + 1 > cap then f.byId[ident(x) := x] - {ident(before[0])} else f.byId[ident(x) := x];
    Family(f.lists[s := CapAppend(before, x, cap)], order, byId)
  }

  /** `Append` of every element of `xs` in turn. */
  function AppendAll<T>(f: Family<T>, xs: seq<T>, cap: nat, ident: T -> string, owner: T -> string): Family<T>
    requires cap >= 1
  {
    if xs == [] then f
    else Append(AppendAll(f, xs[..|xs| - 1], cap, ident, owner), xs[|xs| - 1], cap, ident, owner)
  }

  /** The elements of `xs` that belong to `service`, in order. */
  function OwnedBy<T>(xs: seq<T>, owner: T -> string, service: string): seq<T>
  {
    if xs == [] then []
    else
      var n := |xs| - 1;
      OwnedBy(xs[..n], owner, service) + (if owner(xs[n]) == service then [xs[n]] else [])
  }

  /** The services of `xs`. */
  function Owners<T>(xs: seq<T>, owner: T -> string): set<string>
  {
    if xs == [] then {} else Owners(xs[..|xs| - 1], owner) + {owner(xs[|xs| - 1])}
  }

  /** The ids of `xs`. */
  function Idents<T>(xs: seq<T>, ident: T -> string): set<string>
  {
    if xs == [] then {} else Idents(xs[..|xs| - 1], ident) + {ident(xs[|xs| - 1])}
  }

  /** The ids of `xs`, in order: what a batch insert returns. */
  function IdList<T>(xs: seq<T>, ident: T -> string): seq<string>
  {
    if xs == [] then [] else IdList(xs[..|xs| - 1], ident) + [ident(xs[|xs| - 1])]
  }

  /** `IdList` holds one id per element, in the elements' order. */
  lemma {:induction false} IdListMembers<T>(xs: seq<T>, ident: T -> string)
    ensures |IdList(xs, ident)| == |xs|
    ensures forall i :: 0 <= i < |xs| ==> IdList(xs, ident)[i] == ident(xs[i])
  {
    if xs != [] {
      IdListMembers(xs[..|xs| - 1], ident);
    }
  }

  /** Every id of `xs` is in `Idents(xs, ident)`. */
  lemma {:induction false} IdentsMembers<T>(xs: seq<T>, ident: T -> string, k: string)
    ensures k in Idents(xs, ident) <==> exists i :: 0 <= i < |xs| && ident(xs[i]) == k
  {
    if xs != [] {
      var n := |xs| - 1;
      IdentsMembers(xs[..n], ident, k);
      if k in Idents(xs[..n], ident) {
        var i :| 0 <= i < n && ident(xs[..n][i]) == k;
        assert ident(xs[i]) == k;
      }
      if exists i :: 0 <= i < |xs| && ident(xs[i]) == k {
        var i :| 0 <= i < |xs| && ident(xs[i]) == k;
        if i < n { assert xs[..n][i] == xs[i]; }
      }
    }
  }

  lemma DistinctCapAppend<T>(l: seq<T>, x: T, cap: nat)
    requires cap >= 1 && Distinct(l) && x !in l
    ensures Distinct(CapAppend(l, x, cap))
  {
    var grown := l + [x];
    assert Distinct(grown);
    if |grown| > cap {
      assert forall i, j :: 0 <= i < j < |grown| - 1 ==> grown[1..][i] == grown[i + 1] && grown[1..][j] == grown[j + 1];
    }
  }

  /** An entry of a list after a capped append is the new one or an old one that was not evicted. */
  lemma CapAppendMember<T>(l: seq<T>, x: T, cap: nat, y: T)
    requires cap >= 1 && Distinct(l) && y in CapAppend(l, x, cap)
    ensures y == x || y in l
    ensures y != x && |l| + 1 > cap ==> y != l[0]
  {
    var r := CapAppend(l, x, cap);
    var j :| 0 <= j < |r| && r[j] == y;
    if y != x {
      if |l| + 1 > cap {
        assert r == (l + [x])[1..];
        assert j + 1 < |l| && y == l[j + 1];
      } else {
        assert r == l + [x];
      }
    }
  }

  /** An old entry survives a capped append unless it is the evicted head. */
  lemma CapAppendKeeps<T>(l: seq<T>, x: T, cap: nat, y: T)
    requires cap >= 1 && y in l && (|l| + 1 <= cap || y != l[0])
    ensures y in CapAppend(l, x, cap)
  {
    var j :| 0 <= j < |l| && l[j] == y;
    if |l| + 1 > cap {
      assert CapAppend(l, x, cap) == (l + [x])[1..];
      assert (l + [x])[1..][j - 1] == y;
    } else {
      assert CapAppend(l, x, cap) == l + [x];
      assert (l + [x])[j] == y;
    }
  }

  /** An append keeps the index free of stale entries: the evicted entry's id goes with it. */
  lemma AppendKeepsStored<T(!new)>(f: Family<T>, x: T, cap: nat, ident: T -> string, owner: T -> string)
    requires cap >= 1 && IdsMatch(f, ident) && IndexStored(f, owner)
    ensures IndexStored(Append(f, x, cap, ident, owner), owner)
  {
    var g := Append(f, x, cap, ident, owner);
    var before := ListOf(f.lists, owner(x));
    forall k | k in g.byId
      ensures owner(g.byId[k]) in g.lists && g.byId[k] in g.lists[owner(g.byId[k])]
    {
      if k != ident(x) {
        var y := f.byId[k];
        assert g.byId[k] == y && ident(y) == k;
        if owner(y) == owner(x) {
          assert y in before;
          CapAppendKeeps(before, x, cap, y);
        }
      }
    }
  }

  lemma AppendKeepsOrder<T>(f: Family<T>, x: T, cap: nat, ident: T -> string, owner: T -> string)
    requires cap >= 1 && OrderValid(f)
    ensures OrderValid(Append(f, x, cap, ident, owner))
  {
    if owner(x) !in f.lists {
      DistinctAppend(f.order, owner(x));
    }
  }

  lemma AppendKeepsBounds<T(!new)>(f: Family<T>, x: T, cap: nat, ident: T -> string, owner: T -> string)
    requires cap >= 1 && ListsBounded(f, cap) && Indexed(f, ident, owner)
    requires ident(x) !in f.byId
    ensures ListsBounded(Append(f, x, cap, ident, owner), cap)
  {
    var before := ListOf(f.lists, owner(x));
    assert x in before ==> ident(x) in f.byId;
    DistinctCapAppend(before, x, cap);
  }

  /** A kept entry of the appended-to list is still indexed after the append. */
  lemma SameListStaysIndexed<T(!new)>(f: Family<T>, x: T, cap: nat, ident: T -> string, owner: T -> string, y: T)
    requires cap >= 1 && ListsBounded(f, cap) && Indexed(f, ident, owner) && IdsMatch(f, ident)
    requires ident(x) !in f.byId
    requires y in CapAppend(ListOf(f.lists, owner(x)), x, cap)
    ensures owner(y) == owner(x)
    ensures var g := Append(f, x, cap, ident, owner); ident(y) in g.byId && g.byId[ident(y)] == y
  {
    var before := ListOf(f.lists, owner(x));
    CapAppendMember(before, x, cap, y);
    if y != x {
      assert y in f.lists[owner(x)];
      if |before| + 1 > cap {
        assert before[0] in f.lists[owner(x)];
        assert ident(y) != ident(before[0]);
      }
    }
  }

  /** An entry of another service's list is still indexed after the append. */
  lemma OtherListStaysIndexed<T(!new)>(f: Family<T>, x: T, cap: nat, ident: T -> string, owner: T -> string,
                                       t: string, y: T)
    requires cap >= 1 && Indexed(f, ident, owner)
    requires ident(x) !in f.byId
    requires t in f.lists && t != owner(x) && y in f.lists[t]
    ensures var g := Append(f, x, cap, ident, owner); ident(y) in g.byId && g.byId[ident(y)] == y
  {
    var before := ListOf(f.lists, owner(x));
    if |before| + 1 > cap {
      assert before[0] in f.lists[owner(x)];
      assert ident(y) != ident(before[0]);
    }
  }

  lemma AppendKeepsIndexed<T(!new)>(f: Family<T>, x: T, cap: nat, ident: T -> string, owner: T -> string)
    requires cap >= 1 && ListsBounded(f, cap) && Indexed(f, ident, owner) && IdsMatch(f, ident)
    requires ident(x) !in f.byId
    ensures Indexed(Append(f, x, cap, ident, owner), ident, owner)
    ensures IdsMatch(Append(f, x, cap, ident, owner), ident)
  {
    var g := Append(f, x, cap, ident, owner);
    forall t, y | t in g.lists && y in g.lists[t]
      ensures owner(y) == t && ident(y) in g.byId && g.byId[ident(y)] == y
    {
      if t == owner(x) {
        SameListStaysIndexed(f, x, cap, ident, owner, y);
      } else {
        OtherListStaysIndexed(f, x, cap, ident, owner, t, y);
      }
    }
  }

  /**
   * Appending an entry with a fresh id keeps the family valid: the key
   * order, the caps, and an index that holds every stored entry (so the
   * eviction's `del` always finds its key).
   */
  lemma AppendKeepsValid<T(!new)>(f: Family<T>, x: T, cap: nat, ident: T -> string, owner: T -> string)
    requires cap >= 1 && FamilyValid(f, cap, ident, owner)
    requires ident(x) !in f.byId
    ensures FamilyValid(Append(f, x, cap, ident, owner), cap, ident, owner)
    ensures var g := Append(f, x, cap, ident, owner); ident(x) in g.byId && g.byId[ident(x)] == x
  {
    var before := ListOf(f.lists, owner(x));
    if |before| + 1 > cap {
      assert before[0] in f.lists[owner(x)];
    }
    AppendKeepsOrder(f, x, cap, ident, owner);
    AppendKeepsBounds(f, x, cap, ident, owner);
    AppendKeepsIndexed(f, x, cap, ident, owner);
  }

  /**
   * What one append does: the entry is last in its service's list and found
   * under its id; the index gains at most that id; every other service's
   * list is untouched; the list grows unless it was already full. On an
   * eviction the evicted entry's id leaves the index; every other index
   * entry, stale ones included, stays as it was.
   */
  lemma AppendEffect<T>(f: Family<T>, x: T, cap: nat, ident: T -> string, owner: T -> string)
    requires cap >= 1
    ensures var g := Append(f, x, cap, ident, owner); var l := g.lists[owner(x)];
      owner(x) in g.lists && l[|l| - 1] == x
    ensures Append(f, x, cap, ident, owner).byId.Keys <= f.byId.Keys + {ident(x)}
    ensures Append(f, x, cap, ident, owner).lists.Keys == f.lists.Keys + {owner(x)}
    ensures var g := Append(f, x, cap, ident, owner);
      forall s :: s in f.lists && s != owner(x) ==> g.lists[s] == f.lists[s]
    ensures var g := Append(f, x, cap, ident, owner); var before := ListOf(f.lists, owner(x));
      |g.lists[owner(x)]| == |before| + 1 <==> |before| < cap
    ensures var g := Append(f, x, cap, ident, owner); var before := ListOf(f.lists, owner(x));
      |before| >= cap ==> ident(before[0]) !in g.byId
    ensures var g := Append(f, x, cap, ident, owner); var before := ListOf(f.lists, owner(x));
      |before| < cap || ident(before[0]) != ident(x) ==> ident(x) in g.byId && g.byId[ident(x)] == x
    ensures var g := Append(f, x, cap, ident, owner); var before := ListOf(f.lists, owner(x));
      forall k :: k in f.byId && k != ident(x) && (|before| < cap || k != ident(before[0]))
        ==> k in g.byId && g.byId[k] == f.byId[k]
  {
  }

  lemma {:induction false} AppendAllKeys<T>(f: Family<T>, xs: seq<T>, cap: nat, ident: T -> string, owner: T -> string)
    requires cap >= 1
    ensures AppendAll(f, xs, cap, ident, owner).lists.Keys == f.lists.Keys + Owners(xs, owner)
    ensures AppendAll(f, xs, cap, ident, owner).byId.Keys <= f.byId.Keys + Idents(xs, ident)
  {
    if xs != [] {
      var init := xs[..|xs| - 1];
      AppendAllKeys(f, init, cap, ident, owner);
      AppendEffect(AppendAll(f, init, cap, ident, owner), xs[|xs| - 1], cap, ident, owner);
    }
  }

  /**
   * One step of a batch with fresh, pairwise distinct ids: the next entry's
   * id is still fresh, and the step is one `Append`.
   */
  lemma AppendAllStep<T>(f: Family<T>, xs: seq<T>, i: nat, cap: nat, ident: T -> string, owner: T -> string)
    requires cap >= 1 && i < |xs|
    requires forall k :: 0 <= k < |xs| ==> ident(xs[k]) !in f.byId
    requires forall k, l :: 0 <= k < l < |xs| ==> ident(xs[k]) != ident(xs[l])
    ensures ident(xs[i]) !in AppendAll(f, xs[..i], cap, ident, owner).byId
    ensures AppendAll(f, xs[..i + 1], cap, ident, owner) == Append(AppendAll(f, xs[..i], cap, ident, owner), xs[i], cap, ident, owner)
    ensures Owners(xs[..i + 1], owner) == Owners(xs[..i], owner) + {owner(xs[i])}
    ensures IdList(xs[..i + 1], ident) == IdList(xs[..i], ident) + [ident(xs[i])]
  {
    AppendAllKeys(f, xs[..i], cap, ident, owner);
    IdentsMembers(xs[..i], ident, ident(xs[i]));
    assert xs[..i + 1][..i] == xs[..i];
  }

  /** A batch of entries with fresh, pairwise distinct ids keeps the family valid. */
  lemma {:induction false} AppendAllKeepsValid<T(!new)>(f: Family<T>, xs: seq<T>, cap: nat, ident: T -> string, owner: T -> string)
    requires cap >= 1 && FamilyValid(f, cap, ident, owner)
    requires forall i :: 0 <= i < |xs| ==> ident(xs[i]) !in f.byId
    requires forall i, j :: 0 <= i < j < |xs| ==> ident(xs[i]) != ident(xs[j])
    ensures FamilyValid(AppendAll(f, xs, cap, ident, owner), cap, ident, owner)
  {
    if xs != [] {
      var n := |xs| - 1;
      var init := xs[..n];
      AppendAllKeepsValid(f, init, cap, ident, owner);
      AppendAllKeys(f, init, cap, ident, owner);
      IdentsMembers(init, ident, ident(xs[n]));
      assert ident(xs[n]) !in Idents(init, ident);
      AppendKeepsValid(AppendAll(f, init, cap, ident, owner), xs[n], cap, ident, owner);
    }
  }

  /** After a batch, each service's list is its old list extended by its own share of the batch, capped at each step. */
  lemma {:induction false} AppendAllLists<T>(f: Family<T>, xs: seq<T>, cap: nat, ident: T -> string, owner: T -> string, s: string)
    requires cap >= 1
    ensures ListOf(AppendAll(f, xs, cap, ident, owner).lists, s) == CapAppendAll(ListOf(f.lists, s), OwnedBy(xs, owner, s), cap)
  {
    if xs != [] {
      var n := |xs| - 1;
      AppendAllLists(f, xs[..n], cap, ident, owner, s);
      var mine := OwnedBy(xs[..n], owner, s);
      if owner(xs[n]) == s {
        assert (mine + [xs[n]])[..|mine|] == mine;
      } else {
        assert OwnedBy(xs, owner, s) == mine + [];
        assert mine + [] == mine;
      }
    }
  }

  /**
   * Cap invariant over a batch: each service's list ends up holding exactly
   * the `cap` most recent of its old entries followed by its share of the batch.
   */
  lemma AppendAllKeepsLatest<T(!new)>(f: Family<T>, xs: seq<T>, cap: nat, ident: T -> string, owner: T -> string, s: string)
    requires cap >= 1 && FamilyValid(f, cap, ident, owner)
    ensures ListOf(AppendAll(f, xs, cap, ident, owner).lists, s) == LastN(ListOf(f.lists, s) + OwnedBy(xs, owner, s), cap)
  {
    AppendAllLists(f, xs, cap, ident, owner, s);
    CapAppendAllKeepsLatest(ListOf(f.lists, s), OwnedBy(xs, owner, s), cap);
  }

  /** A filtered duplicate-free list stays duplicate-free. */
  lemma {:induction false} NewerDistinct<T(!new)>(l: seq<T>, key: T -> int, cutoff: int)
    requires Distinct(l)
    ensures Distinct(Newer(l, key, cutoff))
  {
    if l != [] {
      NewerDistinct(l[1..], key, cutoff);
      NewerMembers(l[1..], key, cutoff);
      var rest := Newer(l[1..], key, cutoff);
      assert l[0] !in l[1..];
      assert l[0] !in rest;
    }
  }

  /**
   * The retention sweep, with the swept entries taken out of the index as
   * well, keeps the family valid: the lists only lose entries, and the
   * index keeps exactly the stored ones that remain.
   */
  lemma SweepKeepsValid<T(!new)>(f: Family<T>, cap: nat, ident: T -> string, owner: T -> string, key: T -> int, cutoff: int)
    requires FamilyValid(f, cap, ident, owner)
    ensures FamilyValid(Family(Sweep(f.lists, key, cutoff), f.order, PruneIndex(f.byId, key, cutoff)), cap, ident, owner)
  {
    var g := Family(Sweep(f.lists, key, cutoff), f.order, PruneIndex(f.byId, key, cutoff));
    forall s | s in g.lists ensures |g.lists[s]| <= cap && Distinct(g.lists[s]) {
      NewerDistinct(f.lists[s], key, cutoff);
    }
    forall s | s in g.lists
      ensures forall x :: x in g.lists[s] <==> x in f.lists[s] && key(x) > cutoff
    {
      NewerMembers(f.lists[s], key, cutoff);
    }
  }

  /** The sweep with its index pruning keeps the index free of stale entries. */
  lemma SweepKeepsStored<T(!new)>(f: Family<T>, owner: T -> string, key: T -> int, cutoff: int)
    requires IndexStored(f, owner)
    ensures IndexStored(Family(Sweep(f.lists, key, cutoff), f.order, PruneIndex(f.byId, key, cutoff)), owner)
  {
    var g := Family(Sweep(f.lists, key, cutoff), f.order, PruneIndex(f.byId, key, cutoff));
    forall k | k in g.byId
      ensures owner(g.byId[k]) in g.lists && g.byId[k] in g.lists[owner(g.byId[k])]
    {
      var y := f.byId[k];
      NewerMembers(f.lists[owner(y)], key, cutoff);
    }
  }

  /**
   * After the sweep with its index pruning, an entry swept out of its list
   * is no longer found by id, and a kept entry still is.
   */
  lemma SweepDropsSweptIds<T(!new)>(f: Family<T>, cap: nat, ident: T -> string, owner: T -> string, key: T -> int, cutoff: int)
    requires FamilyValid(f, cap, ident, owner)
    ensures var byId := PruneIndex(f.byId, key, cutoff);
      forall s, x :: s in f.lists && x in f.lists[s] ==>
        (key(x) <= cutoff ==> ident(x) !in byId) && (key(x) > cutoff ==> ident(x) in byId && byId[ident(x)] == x)
  {
  }
}
