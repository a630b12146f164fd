/** The duplicate-detection key of the generator:
    `JSON.stringify(prendasOutfit.map(p => p.id_prenda).sort())`. Two
    outfits collide exactly when they hold the same ids with the same
    multiplicities. The model sorts numerically; any fixed total order gives
    the same collisions, which is all the generator uses the key for. */
module OutfitKey {
  import opened Garments

  /** `prendasOutfit.map(p => p.id_prenda)`. */
  function Ids(o: seq<Item>): (r: seq<int>)
    ensures |r| == |o|
    decreases |o|
  {
    if |o| == 0 then [] else Ids(o[..|o| - 1]) + [o[|o| - 1].id]
  }

  /** The k-th id is the k-th item's. */
  lemma {:induction false} IdsAt(o: seq<Item>, k: nat)
    requires k < |o|
    ensures Ids(o)[k] == o[k].id
    decreases |o|
  {
    if k < |o| - 1 {
      IdsAt(o[..|o| - 1], k);
    }
  }

  predicate Sorted(s: seq<int>) {
    forall i, j :: 0 <= i < j < |s| ==> s[i] <= s[j]
  }

  /** Insert `x` before the first larger-or-equal element. */
  function Insert(x: int, s: seq<int>): seq<int>
    decreases |s|
  {
    if |s| == 0 then [x]
    else if x <= s[0] then [x] + s
    else [s[0]] + Insert(x, s[1..])
  }

  /** Inserting adds `x` and nothing else. */
  lemma {:induction false} InsertMultiset(x: int, s: seq<int>)
    ensures multiset(Insert(x, s)) == multiset(s) + multiset{x}
    decreases |s|
  {
    if |s| > 0 && x > s[0] {
      InsertMultiset(x, s[1..]);
      assert s == [s[0]] + s[1..];
    }
  }

  /** Inserting into a sorted sequence keeps it sorted. */
  lemma {:induction false} InsertSorted(x: int, s: seq<int>)
    requires Sorted(s)
    ensures Sorted(Insert(x, s))
    decreases |s|
  {
    if |s| > 0 && x > s[0] {
      var rest := Insert(x, s[1..]);
      InsertSorted(x, s[1..]);
      InsertMultiset(x, s[1..]);
      forall k | 0 <= k < |rest| ensures s[0] <= rest[k] {
        assert rest[k] in multiset(s[1..]) + multiset{x};
        if rest[k] != x {
          assert rest[k] in s[1..];
          var j :| 0 <= j < |s| - 1 && s[1..][j] == rest[k];
          assert s[0] <= s[j + 1];
        }
      }
    }
  }

  lemma InsertFacts(x: int, s: seq<int>)
    requires Sorted(s)
    ensures Sorted(Insert(x, s))
    ensures multiset(Insert(x, s)) == multiset(s) + multiset{x}
  {
    InsertSorted(x, s);
    InsertMultiset(x, s);
  }

  /** Insertion sort. */
  function Sort(s: seq<int>): seq<int>
    decreases |s|
  {
    if |s| == 0 then [] else Insert(s[|s| - 1], Sort(s[..|s| - 1]))
  }

  /** `Sort` gives a sorted rearrangement of its input. */
  lemma {:induction false} SortFacts(s: seq<int>)
    ensures Sorted(Sort(s))
    ensures multiset(Sort(s)) == multiset(s)
    decreases |s|
  {
    if |s| > 0 {
      SortFacts(s[..|s| - 1]);
      InsertFacts(s[|s| - 1], Sort(s[..|s| - 1]));
      assert s == s[..|s| - 1] + [s[|s| - 1]];
    }
  }

  /** The key of an outfit. */
  function Key(o: seq<Item>): seq<int> {
    Sort(Ids(o))
  }

  /** The key is the outfit's ids, sorted. */
  lemma KeyFacts(o: seq<Item>)
    ensures Sorted(Key(o))
    ensures multiset(Key(o)) == multiset(Ids(o))
  {
    SortFacts(Ids(o));
  }

  /** Two sorted sequences with the same elements start alike. */
  lemma SortedHeads(a: seq<int>, b: seq<int>)
    requires Sorted(a) && Sorted(b) && multiset(a) == multiset(b) && |a| > 0
    ensures |b| > 0 && a[0] == b[0]
  {
    assert a[0] in multiset(b) by { assert a[0] in multiset(a); }
    var i :| 0 <= i < |b| && b[i] == a[0];
    assert b[0] in multiset(a) by { assert b[0] in multiset(b); }
    var j :| 0 <= j < |a| && a[j] == b[0];
    assert b[0] <= b[i] && a[0] <= a[j];
  }

  /** Removing the same first element leaves the same elements. */
  lemma TailMultiset(a: seq<int>, b: seq<int>)
    requires |a| > 0 && |b| > 0 && a[0] == b[0] && multiset(a) == multiset(b)
    ensures multiset(a[1..]) == multiset(b[1..])
  {
    assert a == [a[0]] + a[1..] && b == [b[0]] + b[1..];
    assert multiset(a[1..]) == multiset(a) - multiset{a[0]};
    assert multiset(b[1..]) == multiset(b) - multiset{b[0]};
  }

  /** A sorted sequence is determined by its multiset of elements. */
  lemma {:induction false} SortedUnique(a: seq<int>, b: seq<int>)
    requires Sorted(a) && Sorted(b) && multiset(a) == multiset(b)
    ensures a == b
    decreases |a|
  {
    assert |a| == |multiset(a)| && |b| == |multiset(b)|;
    if |a| > 0 {
      SortedHeads(a, b);
      TailMultiset(a, b);
      SortedUnique(a[1..], b[1..]);
      assert a == [a[0]] + a[1..] && b == [b[0]] + b[1..];
    }
  }

  /** Two outfits share a key exactly when their ids agree as multisets, so
      reordered candidates collide and nothing else does. */
  lemma KeyEqualIff(a: seq<Item>, b: seq<Item>)
    ensures Key(a) == Key(b) <==> multiset(Ids(a)) == multiset(Ids(b))
  {
    KeyFacts(a);
    KeyFacts(b);
    if multiset(Ids(a)) == multiset(Ids(b)) {
      SortedUnique(Key(a), Key(b));
    }
  }

  /** Reordering an outfit does not change its key. */
  lemma KeyIgnoresOrder(a: seq<Item>, b: seq<Item>)
    requires multiset(a) == multiset(b)
    ensures Key(a) == Key(b)
  {
    MultisetIds(a, b);
    KeyEqualIff(a, b);
  }

  lemma {:induction false} IdsAppend(a: seq<Item>, b: seq<Item>)
    ensures Ids(a + b) == Ids(a) + Ids(b)
    decreases |b|
  {
    if |b| == 0 {
      assert a + b == a;
    } else {
      IdsAppend(a, b[..|b| - 1]);
      DropLastOfAppend(a, b);
    }
  }

  /** Removing the same element from two equal multisets leaves equal ones. */
  lemma RemoveMatching(a: seq<Item>, b: seq<Item>, j: nat)
    requires multiset(a) == multiset(b) && |a| > 0 && j < |b| && b[j] == a[0]
    ensures multiset(a[1..]) == multiset(b[..j] + b[j + 1..])
  {
    var x, left, right := a[0], b[..j], b[j + 1..];
    assert b == left + [x] + right;
    assert a == [x] + a[1..];
    forall v ensures multiset(a[1..])[v] == multiset(left + right)[v] {
      assert multiset(a)[v] == multiset{x}[v] + multiset(a[1..])[v];
      assert multiset(b)[v] == multiset(left)[v] + multiset{x}[v] + multiset(right)[v];
    }
  }

  /** The ids of `b` are those of `b` without its j-th item, plus that
      item's id. */
  lemma IdsRemove(b: seq<Item>, j: nat)
    requires j < |b|
    ensures multiset(Ids(b)) == multiset(Ids(b[..j] + b[j + 1..])) + multiset{b[j].id}
  {
    var left, right := b[..j], b[j + 1..];
    SplitAt(b, j);
    IdsAppend(left + [b[j]], right);
    IdsAppend(left, [b[j]]);
    IdsAppend(left, right);
    IdsSingle(b[j]);
    assert Ids(b) == Ids(left) + [b[j].id] + Ids(right);
  }

  lemma DropLastOfAppend(a: seq<Item>, b: seq<Item>)
    requires |b| > 0
    ensures (a + b)[..|a + b| - 1] == a + b[..|b| - 1]
    ensures (a + b)[|a + b| - 1] == b[|b| - 1]
  {
  }

  lemma SplitAt(b: seq<Item>, j: nat)
    requires j < |b|
    ensures b == b[..j] + [b[j]] + b[j + 1..]
  {
  }

  lemma IdsSingle(x: Item)
    ensures Ids([x]) == [x.id]
  {
    assert [x][..0] == [];
  }

  /** Taking the same item off both sides keeps equal id multisets
      equal. */
  lemma IdsStep(a: seq<Item>, b: seq<Item>, j: nat)
    requires |a| > 0 && j < |b| && b[j] == a[0]
    requires multiset(Ids(a[1..])) == multiset(Ids(b[..j] + b[j + 1..]))
    ensures multiset(Ids(a)) == multiset(Ids(b))
  {
    IdsRemove(b, j);
    IdsCons(a);
  }

  lemma IdsCons(a: seq<Item>)
    requires |a| > 0
    ensures multiset(Ids(a)) == multiset(Ids(a[1..])) + multiset{a[0].id}
  {
    assert a == [a[0]] + a[1..];
    IdsAppend([a[0]], a[1..]);
    IdsSingle(a[0]);
  }

  lemma {:induction false} MultisetIds(a: seq<Item>, b: seq<Item>)
    requires multiset(a) == multiset(b)
    ensures multiset(Ids(a)) == multiset(Ids(b))
    decreases |a|
  {
    if |a| == 0 {
      assert |b| == |multiset(b)| == 0;
      assert Ids(a) == [] == Ids(b);
    } else {
      assert a[0] in multiset(b) by { assert a[0] in multiset(a); }
      var j :| 0 <= j < |b| && b[j] == a[0];
      RemoveMatching(a, b, j);
      MultisetIds(a[1..], b[..j] + b[j + 1..]);
      IdsStep(a, b, j);
    }
  }
}
