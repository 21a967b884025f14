/**
 * The engine's `HashSet<OrbitalBody>` as an enumeration-ordered sequence.
 *
 * Bodies compare and hash by ID alone, so the set holds at most one body per
 * ID. `Add` appends a body whose ID is new and ignores one whose ID is present;
 * `RemoveWhere` drops the matching members and keeps the others in order.
 */
module BodySet {
  import opened Models

  /** No two members share an ID: the set invariant under ID equality. */
  predicate DistinctIds(s: seq<OrbitalBody>) {
    forall j, k :: 0 <= j < k < |s| ==> s[j].ID != s[k].ID
  }

  /** The IDs of the members. */
  function IdsOf(s: seq<OrbitalBody>): set<int> {
    set k | 0 <= k < |s| :: s[k].ID
  }

  /** What the engine keeps true of its store: distinct IDs, each drawn from
      the counter before `next`, and positive masses (the merge divides by
      the total mass). */
  ghost predicate WellFormed(s: seq<OrbitalBody>, next: int) {
    DistinctIds(s) && forall k :: 0 <= k < |s| ==> 0 <= s[k].ID < next && s[k].KgMass > 0.0
  }

  /** The engine's state: its bodies and the ID counter `_currentID`. */
  datatype Store = Store(bodies: seq<OrbitalBody>, nextId: int)

  /** HashSet.Add: appends `x` unless a member with its ID is present. */
  function Insert(s: seq<OrbitalBody>, x: OrbitalBody): seq<OrbitalBody> {
    if x.ID in IdsOf(s) then s else s + [x]
  }

  lemma IdsOfAppend(s: seq<OrbitalBody>, x: OrbitalBody)
    ensures IdsOf(s + [x]) == IdsOf(s) + {x.ID}
  {
    var t := s + [x];
    forall id | id in IdsOf(t) ensures id in IdsOf(s) + {x.ID} {
      var k :| 0 <= k < |t| && t[k].ID == id;
      if k < |s| {
        assert s[k] == t[k];
      }
    }
    forall id | id in IdsOf(s) + {x.ID} ensures id in IdsOf(t) {
      if id == x.ID {
        assert t[|s|] == x;
      } else {
        var k :| 0 <= k < |s| && s[k].ID == id;
        assert t[k] == s[k];
      }
    }
  }

  /** Add never loses a member, keeps IDs distinct, and the set afterwards holds
      exactly one body with the added ID: the earlier one if there was one. */
  lemma InsertProperties(s: seq<OrbitalBody>, x: OrbitalBody)
    requires DistinctIds(s)
    ensures DistinctIds(Insert(s, x))
    ensures IdsOf(Insert(s, x)) == IdsOf(s) + {x.ID}
    ensures x.ID !in IdsOf(s) ==> Insert(s, x) == s + [x]
    ensures forall k :: 0 <= k < |s| ==> Insert(s, x)[k] == s[k]
  {
    if x.ID !in IdsOf(s) {
      IdsOfAppend(s, x);
      forall k | 0 <= k < |s| ensures s[k].ID != x.ID {
        assert s[k].ID in IdsOf(s);
      }
    }
  }

  // ---------------------------------------------------------------------------
  // Removal
  // ---------------------------------------------------------------------------

  /** The members whose ID is not in `ids`, in order. */
  function RemoveIds(s: seq<OrbitalBody>, ids: set<int>): seq<OrbitalBody> {
    if s == [] then []
    else (if s[0].ID in ids then [] else [s[0]]) + RemoveIds(s[1..], ids)
  }

  /** The members whose ID is in `ids`, in order. */
  function KeepIds(s: seq<OrbitalBody>, ids: set<int>): seq<OrbitalBody> {
    if s == [] then []
    else (if s[0].ID in ids then [s[0]] else []) + KeepIds(s[1..], ids)
  }

  lemma {:induction false} RemoveNoIds(s: seq<OrbitalBody>)
    ensures RemoveIds(s, {}) == s
  {
    if s != [] {
      RemoveNoIds(s[1..]);
      assert s == [s[0]] + s[1..];
    }
  }

  /** HashSet.RemoveWhere(x => x.GetHashCode() == h). */
  function RemoveHash(s: seq<OrbitalBody>, h: int, mix: int -> int): seq<OrbitalBody> {
    if s == [] then []
    else (if HashCode(s[0], mix) == h then [] else [s[0]]) + RemoveHash(s[1..], h, mix)
  }

  /** With an injective mixer, removing by the hash code of a body with ID `id`
      after removing the IDs `ids` is removing the IDs `ids + {id}`. */
  lemma {:induction false} RemoveHashIsRemoveId(s: seq<OrbitalBody>, ids: set<int>, id: int, mix: int -> int)
    requires Injective(mix)
    ensures RemoveHash(RemoveIds(s, ids), mix(id), mix) == RemoveIds(s, ids + {id})
  {
    if s != [] {
      RemoveHashIsRemoveId(s[1..], ids, id, mix);
      var head := if s[0].ID in ids then [] else [s[0]];
      assert RemoveIds(s, ids) == head + RemoveIds(s[1..], ids);
      RemoveHashAppend(head, RemoveIds(s[1..], ids), mix(id), mix);
      if head != [] {
        assert head[1..] == [];
      }
    }
  }

  lemma RemoveHashAppend(a: seq<OrbitalBody>, b: seq<OrbitalBody>, h: int, mix: int -> int)
    requires |a| <= 1
    ensures RemoveHash(a + b, h, mix) == RemoveHash(a, h, mix) + RemoveHash(b, h, mix)
  {
    if a == [] {
      assert a + b == b;
    } else {
      assert (a + b)[1..] == b;
      assert a[1..] == [];
    }
  }

  lemma {:induction false} RemoveIdsMembers(s: seq<OrbitalBody>, ids: set<int>)
    ensures forall x :: x in RemoveIds(s, ids) <==> x in s && x.ID !in ids
    ensures |RemoveIds(s, ids)| + |KeepIds(s, ids)| == |s|
  {
    if s != [] {
      RemoveIdsMembers(s[1..], ids);
      assert s == [s[0]] + s[1..];
    }
  }

  lemma {:induction false} KeepIdsMembers(s: seq<OrbitalBody>, ids: set<int>)
    ensures forall x :: x in KeepIds(s, ids) <==> x in s && x.ID in ids
  {
    if s != [] {
      KeepIdsMembers(s[1..], ids);
      assert s == [s[0]] + s[1..];
    }
  }

  lemma TailDistinct(s: seq<OrbitalBody>)
    requires s != [] && DistinctIds(s)
    ensures DistinctIds(s[1..])
    ensures forall y :: y in s[1..] ==> y.ID != s[0].ID
  {
    var t := s[1..];
    forall j, k | 0 <= j < k < |t| ensures t[j].ID != t[k].ID {
      assert t[j] == s[j + 1] && t[k] == s[k + 1];
    }
    forall y | y in t ensures y.ID != s[0].ID {
      var k :| 0 <= k < |t| && t[k] == y;
      assert s[k + 1] == y;
    }
  }

  /** Removal keeps the IDs distinct. */
  lemma {:induction false} RemoveIdsDistinct(s: seq<OrbitalBody>, ids: set<int>)
    requires DistinctIds(s)
    ensures DistinctIds(RemoveIds(s, ids))
  {
    if s != [] {
      var t := s[1..];
      TailDistinct(s);
      RemoveIdsDistinct(t, ids);
      RemoveIdsMembers(t, ids);
      if s[0].ID !in ids {
        ConsDistinct(s[0], RemoveIds(t, ids));
      }
    }
  }

  /** Keeping some IDs keeps them distinct. */
  lemma {:induction false} KeepIdsDistinct(s: seq<OrbitalBody>, ids: set<int>)
    requires DistinctIds(s)
    ensures DistinctIds(KeepIds(s, ids))
  {
    if s != [] {
      var t := s[1..];
      TailDistinct(s);
      KeepIdsDistinct(t, ids);
      KeepIdsMembers(t, ids);
      if s[0].ID in ids {
        ConsDistinct(s[0], KeepIds(t, ids));
      }
    }
  }

  /** Removal removes exactly the IDs asked for. */
  lemma {:induction false} RemoveIdsIds(s: seq<OrbitalBody>, ids: set<int>)
    ensures IdsOf(RemoveIds(s, ids)) == IdsOf(s) - ids
  {
    if s != [] {
      var t := s[1..];
      RemoveIdsIds(t, ids);
      assert s == [s[0]] + t;
      IdsOfCons(s[0], t);
      if s[0].ID !in ids {
        IdsOfCons(s[0], RemoveIds(t, ids));
      } else {
        assert RemoveIds(s, ids) == RemoveIds(t, ids);
      }
    }
  }

  lemma ConsDistinct(x: OrbitalBody, t: seq<OrbitalBody>)
    requires DistinctIds(t)
    requires forall y :: y in t ==> y.ID != x.ID
    ensures DistinctIds([x] + t)
  {
    var s := [x] + t;
    forall j, k | 0 <= j < k < |s| ensures s[j].ID != s[k].ID {
      assert s[k] == t[k - 1];
      if j > 0 {
        assert s[j] == t[j - 1];
      }
    }
  }

  lemma IdsOfCons(x: OrbitalBody, t: seq<OrbitalBody>)
    ensures IdsOf([x] + t) == {x.ID} + IdsOf(t)
  {
    var s := [x] + t;
    forall id | id in IdsOf(s) ensures id in {x.ID} + IdsOf(t) {
      var k :| 0 <= k < |s| && s[k].ID == id;
      if k > 0 {
        assert s[k] == t[k - 1];
      }
    }
    forall id | id in IdsOf(t) ensures id in IdsOf(s) {
      var k :| 0 <= k < |t| && t[k].ID == id;
      assert s[k + 1] == t[k];
    }
    assert s[0] == x;
  }

  /** Every sum over the set splits into the members removed and the members kept. */
  lemma {:induction false} SumSplit(s: seq<OrbitalBody>, ids: set<int>, f: OrbitalBody -> real)
    ensures Sum(s, f) == Sum(RemoveIds(s, ids), f) + Sum(KeepIds(s, ids), f)
  {
    if s != [] {
      SumSplit(s[1..], ids, f);
      var r, k := RemoveIds(s[1..], ids), KeepIds(s[1..], ids);
      if s[0].ID in ids {
        assert RemoveIds(s, ids) == r;
        assert KeepIds(s, ids) == [s[0]] + k;
        assert ([s[0]] + k)[1..] == k;
      } else {
        assert KeepIds(s, ids) == k;
        assert RemoveIds(s, ids) == [s[0]] + r;
        assert ([s[0]] + r)[1..] == r;
      }
    }
  }

  /** In a sequence with distinct IDs every member occurs once. */
  lemma {:induction false} DistinctCounts(s: seq<OrbitalBody>)
    requires DistinctIds(s)
    ensures forall x :: multiset(s)[x] == if x in s then 1 else 0
  {
    if s != [] {
      var t := s[1..];
      assert s == [s[0]] + t;
      assert DistinctIds(t) by {
        forall j, k | 0 <= j < k < |t| ensures t[j].ID != t[k].ID {
          assert t[j] == s[j + 1] && t[k] == s[k + 1];
        }
      }
      DistinctCounts(t);
      assert s[0] !in t by {
        forall k | 0 <= k < |t| ensures t[k] != s[0] {
          assert t[k] == s[k + 1];
        }
      }
    }
  }

  /**
   * The members of a set `s` whose IDs are those of a subset `c` are `c`
   * itself, up to order.
   */
  lemma KeepIdsOfSubset(s: seq<OrbitalBody>, c: seq<OrbitalBody>)
    requires DistinctIds(s) && DistinctIds(c)
    requires forall x :: x in c ==> x in s
    ensures multiset(KeepIds(s, IdsOf(c))) == multiset(c)
    ensures |KeepIds(s, IdsOf(c))| == |c|
  {
    var kept := KeepIds(s, IdsOf(c));
    KeepIdsMembers(s, IdsOf(c));
    KeepIdsDistinct(s, IdsOf(c));
    SubsetByIds(s, c, kept);
    SameDistinctMembers(kept, c);
  }

  /** Within a set of distinct IDs, the members carrying the IDs of a subset
      `c` are the members of `c`. */
  lemma SubsetByIds(s: seq<OrbitalBody>, c: seq<OrbitalBody>, kept: seq<OrbitalBody>)
    requires DistinctIds(s)
    requires forall x :: x in c ==> x in s
    requires forall x :: x in kept <==> x in s && x.ID in IdsOf(c)
    ensures forall x :: x in kept <==> x in c
  {
    forall x ensures x in kept <==> x in c {
      if x in kept {
        var m :| m in c && m.ID == x.ID by {
          var k :| 0 <= k < |c| && c[k].ID == x.ID;
          assert c[k] in c;
        }
        var j :| 0 <= j < |s| && s[j] == x;
        var l :| 0 <= l < |s| && s[l] == m;
        assert j == l;
      }
      if x in c {
        var k :| 0 <= k < |c| && c[k] == x;
        assert x.ID in IdsOf(c);
      }
    }
  }

  /** Two sequences of distinct IDs with the same members are permutations
      of each other. */
  lemma SameDistinctMembers(a: seq<OrbitalBody>, b: seq<OrbitalBody>)
    requires DistinctIds(a) && DistinctIds(b)
    requires forall x :: x in a <==> x in b
    ensures multiset(a) == multiset(b)
    ensures |a| == |b|
  {
    DistinctCounts(a);
    DistinctCounts(b);
    assert multiset(a) == multiset(b);
    assert |a| == |multiset(a)| == |multiset(b)| == |b|;
  }
}
