/**
 * A JavaScript `Set` of object references, as the sequence of its elements in
 * insertion order (the order `values()` yields them): no element twice, `add`
 * appends an absent element, `delete` takes an element out and keeps the order
 * of the rest, and `size` is the length.
 */
module InsertionSet {
  /** No element occurs twice. */
  predicate NoDup<T(==)>(s: seq<T>) {
    forall i, j :: 0 <= i < j < |s| ==> s[i] != s[j]
  }

  /** Set.prototype.add */
  function Add<T(==)>(s: seq<T>, x: T): seq<T> {
    if x in s then s else s + [x]
  }

  /** Set.prototype.delete */
  function Remove<T(==)>(s: seq<T>, x: T): seq<T> {
    if s == [] then []
    else if s[0] == x then Remove(s[1..], x)
    else [s[0]] + Remove(s[1..], x)
  }

  /** `add` makes `x` a member and keeps the others; an absent `x` goes last and grows the size by one. */
  lemma AddFacts<T>(s: seq<T>, x: T)
    ensures forall y :: y in Add(s, x) <==> y in s || y == x
    ensures NoDup(s) ==> NoDup(Add(s, x))
    ensures x !in s ==> |Add(s, x)| == |s| + 1 && Add(s, x)[|s|] == x && Add(s, x)[..|s|] == s
    ensures x in s ==> Add(s, x) == s
  {
  }

  /** `delete` removes `x` and keeps the others; a present `x` shrinks the size by one. */
  lemma {:induction false} RemoveFacts<T>(s: seq<T>, x: T)
    ensures forall y :: y in Remove(s, x) <==> y in s && y != x
    ensures NoDup(s) ==> NoDup(Remove(s, x))
    ensures NoDup(s) && x in s ==> |Remove(s, x)| == |s| - 1
    ensures x !in s ==> Remove(s, x) == s
  {
    if s != [] {
      RemoveFacts(s[1..], x);
      assert s == [s[0]] + s[1..];
      if NoDup(s) {
        assert NoDup(s[1..]);
        if s[0] != x {
          var r := Remove(s, x);
          assert r == [s[0]] + Remove(s[1..], x);
          forall i, j | 0 <= i < j < |r| ensures r[i] != r[j] {
            if i == 0 {
              assert r[j] in Remove(s[1..], x);
            }
          }
        }
      }
    }
  }

  /** Deleting what was just added restores the set. */
  lemma {:induction false} RemoveAdd<T>(s: seq<T>, x: T)
    requires x !in s
    ensures Remove(Add(s, x), x) == s
  {
    if s != [] {
      assert (s + [x])[1..] == s[1..] + [x];
      RemoveAdd(s[1..], x);
    } else {
      assert [x][1..] == [];
    }
  }
}
