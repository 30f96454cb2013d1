/** The bookmark list held by the app's bookmark context: a list of
    opportunity names that starts empty and changes only through toggles. */
module Bookmarks {

  type Name = string

  /** No name occurs twice in `s`. */
  ghost predicate NoDuplicates(s: seq<Name>)
  {
    forall i, j :: 0 <= i < j < |s| ==> s[i] != s[j]
  }

  /** `y` occurs somewhere before an occurrence of `z` in `s`. */
  ghost predicate Before(s: seq<Name>, y: Name, z: Name)
  {
    exists i, j :: 0 <= i < j < |s| && s[i] == y && s[j] == z
  }

  /** `filter((n) => n !== x)`: every element of `s` except the copies of `x`,
      in their original order. */
  function Without(s: seq<Name>, x: Name): (r: seq<Name>)
    ensures x !in r
    ensures forall y :: y != x ==> (y in r <==> y in s)
    ensures multiset(r) == multiset(s)[x := 0]
    ensures |r| <= |s|
  {
    if s == [] then []
    else
      assert s == [s[0]] + s[1..];
      if s[0] == x then Without(s[1..], x) else [s[0]] + Without(s[1..], x)
  }

  /** The updater passed to `setBookmarked`: drop every copy of a bookmarked
      name, or append a name that is not bookmarked yet. */
  function ToggleSeq(prev: seq<Name>, name: Name): (r: seq<Name>)
    ensures name in r <==> name !in prev
    ensures forall y :: y != name ==> (y in r <==> y in prev)
    ensures name in prev ==> multiset(r) == multiset(prev)[name := 0]
    ensures name !in prev ==> |r| == |prev| + 1 && r[|prev|] == name && r[..|prev|] == prev
  {
    if name in prev then Without(prev, name) else prev + [name]
  }

  /** An odd number of toggles. */
  predicate Odd(k: nat)
  {
    k % 2 == 1
  }

  /** The list after toggling each of `names` in turn, starting from `s`: a name
      is in it exactly when it was in `s` and was toggled an even number of times,
      or was not in `s` and was toggled an odd number of times. */
  function ToggleAll(s: seq<Name>, names: seq<Name>): (r: seq<Name>)
    ensures forall y :: y in r <==> ((y in s) != Odd(multiset(names)[y]))
    decreases |names|
  {
    if names == [] then s
    else
      var r := ToggleAll(ToggleSeq(s, names[0]), names[1..]);
      ToggleAllStep(s, names, r);
      r
  }

  /** Splitting off the first toggle of a run keeps the parity rule of `ToggleAll`. */
  lemma ToggleAllStep(s: seq<Name>, names: seq<Name>, r: seq<Name>)
    requires names != []
    requires forall y :: y in r <==> ((y in ToggleSeq(s, names[0])) != Odd(multiset(names[1..])[y]))
    ensures forall y :: y in r <==> ((y in s) != Odd(multiset(names)[y]))
  {
    assert names == [names[0]] + names[1..];
    forall y ensures y in r <==> ((y in s) != Odd(multiset(names)[y])) {
      assert multiset(names)[y] == multiset(names[1..])[y] + (if y == names[0] then 1 else 0);
    }
  }

  /** An order pair lies in a list exactly when it starts at the head or lies in the tail. */
  lemma BeforeCons(s: seq<Name>, y: Name, z: Name)
    requires s != []
    ensures Before(s, y, z) <==> (s[0] == y && z in s[1..]) || Before(s[1..], y, z)
  {
  }

  lemma BeforeAppend(s: seq<Name>, y: Name, z: Name, x: Name)
    requires z != x
    ensures Before(s + [x], y, z) <==> Before(s, y, z)
  {
    var t := s + [x];
    if Before(t, y, z) {
      var i, j :| 0 <= i < j < |t| && t[i] == y && t[j] == z;
      assert j < |s| && s[i] == y && s[j] == z;
    }
    if Before(s, y, z) {
      var i, j :| 0 <= i < j < |s| && s[i] == y && s[j] == z;
      assert t[i] == y && t[j] == z;
    }
  }

  /** The names other than `x` keep their relative order when `x` is filtered out. */
  lemma {:induction false} WithoutKeepsOrder(s: seq<Name>, x: Name, y: Name, z: Name)
    requires y != x && z != x
    ensures Before(Without(s, x), y, z) <==> Before(s, y, z)
  {
    if s != [] {
      WithoutKeepsOrder(s[1..], x, y, z);
      BeforeCons(s, y, z);
      if s[0] != x {
        BeforeCons(Without(s, x), y, z);
        assert Without(s, x)[1..] == Without(s[1..], x);
      }
    }
  }

  lemma {:induction false} WithoutAbsent(s: seq<Name>, x: Name)
    requires x !in s
    ensures Without(s, x) == s
  {
    if s != [] {
      WithoutAbsent(s[1..], x);
    }
  }

  lemma {:induction false} WithoutAppended(s: seq<Name>, x: Name)
    ensures Without(s + [x], x) == Without(s, x)
  {
    if s == [] {
      assert [x][1..] == [];
    } else {
      assert (s + [x])[1..] == s[1..] + [x];
      WithoutAppended(s[1..], x);
    }
  }

  /** A list is duplicate-free exactly when its head is not in its tail and its tail is duplicate-free. */
  lemma NoDuplicatesCons(s: seq<Name>)
    requires s != []
    ensures NoDuplicates(s) <==> s[0] !in s[1..] && NoDuplicates(s[1..])
  {
  }

  lemma {:induction false} WithoutNoDuplicates(s: seq<Name>, x: Name)
    requires NoDuplicates(s)
    ensures NoDuplicates(Without(s, x))
  {
    if s != [] {
      NoDuplicatesCons(s);
      WithoutNoDuplicates(s[1..], x);
      if s[0] != x {
        var r := Without(s, x);
        assert r[0] == s[0] && r[1..] == Without(s[1..], x);
        NoDuplicatesCons(r);
      }
    }
  }

  /** In a list without duplicates, filtering out a present name removes exactly one element. */
  lemma {:induction false} WithoutLengthPresent(s: seq<Name>, x: Name)
    requires NoDuplicates(s) && x in s
    ensures |Without(s, x)| == |s| - 1
  {
    NoDuplicatesCons(s);
    if s[0] == x {
      WithoutAbsent(s[1..], x);
    } else {
      WithoutLengthPresent(s[1..], x);
    }
  }

  /** Toggling a name leaves every other name's relative order as it was. */
  lemma ToggleKeepsOrder(prev: seq<Name>, name: Name, y: Name, z: Name)
    requires y != name && z != name
    ensures Before(ToggleSeq(prev, name), y, z) <==> Before(prev, y, z)
  {
    if name in prev {
      WithoutKeepsOrder(prev, name, y, z);
    } else {
      BeforeAppend(prev, y, z, name);
    }
  }

  /** Toggling a name that is not bookmarked, twice, gives back the original list. */
  lemma ToggleTwiceAbsent(prev: seq<Name>, name: Name)
    requires name !in prev
    ensures ToggleSeq(ToggleSeq(prev, name), name) == prev
  {
    WithoutAppended(prev, name);
    WithoutAbsent(prev, name);
  }

  /** Toggling keeps a list free of duplicates. */
  lemma ToggleNoDuplicates(prev: seq<Name>, name: Name)
    requires NoDuplicates(prev)
    ensures NoDuplicates(ToggleSeq(prev, name))
  {
    if name in prev {
      WithoutNoDuplicates(prev, name);
    }
  }

  /** On a list without duplicates, a toggle changes the length by exactly one. */
  lemma ToggleLength(prev: seq<Name>, name: Name)
    requires NoDuplicates(prev)
    ensures |ToggleSeq(prev, name)| == if name in prev then |prev| - 1 else |prev| + 1
  {
    if name in prev {
      WithoutLengthPresent(prev, name);
    }
  }

  /** Any run of toggles from a duplicate-free list stays duplicate-free. */
  lemma {:induction false} ToggleAllNoDuplicates(s: seq<Name>, names: seq<Name>)
    requires NoDuplicates(s)
    ensures NoDuplicates(ToggleAll(s, names))
    decreases |names|
  {
    if names != [] {
      ToggleNoDuplicates(s, names[0]);
      ToggleAllNoDuplicates(ToggleSeq(s, names[0]), names[1..]);
    }
  }

  /** The list the app starts with, `[]`, never acquires duplicates through toggles. */
  lemma ReachableNoDuplicates(names: seq<Name>)
    ensures NoDuplicates(ToggleAll([], names))
  {
    ToggleAllNoDuplicates([], names);
  }

  /** The `bookmarked` state of the bookmark provider. */
  class BookmarkStore {
    var bookmarked: seq<Name>

    /** The state the app reaches through toggles alone. */
    ghost predicate Valid()
      reads this
    {
      NoDuplicates(bookmarked)
    }

    /** `useState([])`. */
    constructor ()
      ensures Valid()
      ensures bookmarked == []
    {
      bookmarked := [];
    }

    /** `toggleBookmark(name)`: replaces the state with the updater's result. */
    method Toggle(name: Name)
      requires Valid()
      modifies this
      ensures Valid()
      ensures bookmarked == ToggleSeq(old(bookmarked), name)
      ensures name in bookmarked <==> name !in old(bookmarked)
      ensures forall y :: y != name ==> (y in bookmarked <==> y in old(bookmarked))
      ensures |bookmarked| == if name in old(bookmarked) then |old(bookmarked)| - 1 else |old(bookmarked)| + 1
    {
      ToggleNoDuplicates(bookmarked, name);
      ToggleLength(bookmarked, name);
      bookmarked := ToggleSeq(bookmarked, name);
    }
  }
}
