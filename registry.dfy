/** The checked-out registry `_outItems`, a `List<T>`, and the two ways the hooks
    update it: `Add` guarded by `Contains`, and `Remove`. */
module Registry {
  import opened Types

  /** No item appears twice. */
  predicate NoDups(s: seq<Item>) {
    forall i, j :: 0 <= i < j < |s| ==> s[i] != s[j]
  }

  /** The distinct items of a list. */
  function Members(s: seq<Item>): set<Item> {
    set x | x in s
  }

  /** Position of the first occurrence of `x`, as `List.IndexOf` finds it. */
  function IndexOf(s: seq<Item>, x: Item): (k: nat)
    requires x in s
    ensures k < |s| && s[k] == x && x !in s[..k]
  {
    if s[0] == x then 0 else 1 + IndexOf(s[1..], x)
  }

  /** `if (!list.Contains(x)) list.Add(x)`: the item is present afterwards, the
      earlier entries keep their places, and no duplicate is ever introduced. */
  function AddIfAbsent(s: seq<Item>, x: Item): (r: seq<Item>)
    ensures x in r
    ensures Members(r) == Members(s) + {x}
    ensures s <= r && |r| <= |s| + 1
    ensures NoDups(s) ==> NoDups(r)
  {
    if x in s then s else s + [x]
  }

  /** Adding never drops an entry. */
  lemma AddIfAbsentKeeps(s: seq<Item>, x: Item, y: Item)
    requires y in s
    ensures y in AddIfAbsent(s, x)
  {
  }

  /** `List.Remove(x)`: deletes the first occurrence of `x`, if any. */
  function Remove(s: seq<Item>, x: Item): (r: seq<Item>)
    ensures x !in s ==> r == s
    ensures multiset(r) == multiset(s) - multiset{x}
  {
    if s == [] then []
    else if s[0] == x then
      assert s == [x] + s[1..];
      s[1..]
    else
      assert s == [s[0]] + s[1..];
      [s[0]] + Remove(s[1..], x)
  }

  /** Removing keeps everything else in place: exactly the entry at the first
      occurrence of `x` is deleted. */
  lemma {:induction false} RemoveKeepsOrder(s: seq<Item>, x: Item)
    requires x in s
    ensures Remove(s, x) == s[..IndexOf(s, x)] + s[IndexOf(s, x) + 1..]
  {
    if s[0] != x {
      RemoveKeepsOrder(s[1..], x);
      SkipInTail(s, IndexOf(s[1..], x));
    }
  }

  /** Deleting entry `k` of the tail of `s` is deleting entry `k + 1` of `s` itself. */
  lemma SkipInTail<T>(s: seq<T>, k: nat)
    requires k + 1 < |s|
    ensures [s[0]] + (s[1..][..k] + s[1..][k + 1..]) == s[..k + 1] + s[k + 2..]
  {
    assert s[..k + 1] == [s[0]] + s[1..][..k];
    assert s[k + 2..] == s[1..][k + 1..];
  }

  /** On a duplicate-free list, removing `x` removes it completely and keeps the
      list duplicate-free. */
  lemma {:induction false} RemoveNoDups(s: seq<Item>, x: Item)
    requires NoDups(s)
    ensures NoDups(Remove(s, x)) && x !in Remove(s, x)
  {
    if s != [] {
      NoDupsTail(s);
      if s[0] != x {
        RemoveNoDups(s[1..], x);
        RemoveAbsent(s[1..], x, s[0]);
        assert Remove(s, x) == [s[0]] + Remove(s[1..], x);
        NoDupsCons(s[0], Remove(s[1..], x));
      }
    }
  }

  /** The tail of a duplicate-free list is duplicate-free and misses the head. */
  lemma NoDupsTail(s: seq<Item>)
    requires s != [] && NoDups(s)
    ensures NoDups(s[1..]) && s[0] !in s[1..]
  {
    var t := s[1..];
    forall i, j | 0 <= i < j < |t| ensures t[i] != t[j] {
      assert t[i] == s[i + 1] && t[j] == s[j + 1];
    }
    forall j | 0 <= j < |t| ensures t[j] != s[0] {
      assert t[j] == s[j + 1];
    }
  }

  /** Removing never brings in an item that was absent. */
  lemma RemoveAbsent(t: seq<Item>, x: Item, y: Item)
    requires y !in t
    ensures y !in Remove(t, x)
  {
    assert y !in multiset(t);
  }

  /** Putting an item that is absent in front of a duplicate-free list keeps it duplicate-free. */
  lemma NoDupsCons(a: Item, t: seq<Item>)
    requires NoDups(t) && a !in t
    ensures NoDups([a] + t)
  {
    var u := [a] + t;
    forall i, j | 0 <= i < j < |u| ensures u[i] != u[j] {
      assert u[j] == t[j - 1];
      if i > 0 {
        assert u[i] == t[i - 1];
      }
    }
  }

  /** On a duplicate-free list, removing `x` takes exactly `x` out of the members. */
  lemma RemoveMembers(s: seq<Item>, x: Item)
    requires NoDups(s)
    ensures Members(Remove(s, x)) == Members(s) - {x}
  {
    RemoveNoDups(s, x);
    var r := Remove(s, x);
    forall y | y in Members(r) ensures y in Members(s) - {x} {
      RemoveKeepsOthers(s, x, y);
    }
    forall y | y in Members(s) - {x} ensures y in Members(r) {
      RemoveKeepsOthers(s, x, y);
    }
  }

  /** Removing `x` keeps every other item exactly where membership is concerned. */
  lemma RemoveKeepsOthers(s: seq<Item>, x: Item, y: Item)
    requires y != x
    ensures y in Remove(s, x) <==> y in s
  {
    assert (y in Remove(s, x) <==> y in multiset(Remove(s, x))) && (y in s <==> y in multiset(s));
  }

  /** Without duplicates, the length of the registry is the number of distinct
      checked-out items. */
  lemma {:induction false} DistinctCount(s: seq<Item>)
    ensures NoDups(s) ==> |Members(s)| == |s|
  {
    if s != [] && NoDups(s) {
      assert NoDups(s[1..]);
      DistinctCount(s[1..]);
      assert Members(s) == {s[0]} + Members(s[1..]);
      assert s[0] !in Members(s[1..]);
    }
  }

  /** Adding an item that is already registered changes nothing: the create hook
      followed by the take hook registers a new item once. */
  lemma AddIfAbsentIdempotent(s: seq<Item>, x: Item)
    ensures AddIfAbsent(AddIfAbsent(s, x), x) == AddIfAbsent(s, x)
  {
  }

  /** Removing the first entry of a duplicate-free list leaves exactly the rest. */
  lemma RemoveFirst(s: seq<Item>)
    requires s != [] && NoDups(s)
    ensures Remove(s, s[0]) == s[1..]
  {
  }
}
