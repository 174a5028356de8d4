/**
 * `UniqueList` (pypy/translator/gensupp.py): a list whose `append1` adds an
 * element only when it is not there already. Hashable elements are looked
 * up in the side dictionary `dic`; unhashable ones by a scan of the list.
 * Elements given to the constructor are not entered in `dic`.
 */
module UniqueLists {

  /** The two pieces of state `append1` reads and writes. */
  datatype ListState<T> = ListState(items: seq<T>, dic: set<T>)

  /** The state after `append1(arg)`; `hashable` says whether `dic[arg]` can be evaluated. */
  function Appended<T(==)>(st: ListState<T>, hashable: bool, arg: T): (r: ListState<T>)
    ensures r == st <==> (if hashable then arg in st.dic else arg in st.items)
    ensures r != st ==> r.items == st.items + [arg] && arg in r.items
  {
    if hashable then
      if arg in st.dic then st else ListState(st.items + [arg], st.dic + {arg})
    else
      if arg in st.items then st else ListState(st.items + [arg], st.dic)
  }

  /**
   * What `append1` maintains when the list started out as `items[..start]`:
   * `dic` holds exactly the hashable elements appended since, and those
   * appended elements are pairwise distinct.
   */
  ghost predicate Tracks<T>(st: ListState<T>, start: nat, hashable: T -> bool) {
    start <= |st.items| &&
    (forall x :: x in st.dic ==> x in st.items[start..] && hashable(x)) &&
    (forall i :: start <= i < |st.items| && hashable(st.items[i]) ==> st.items[i] in st.dic) &&
    forall i, j :: start <= i < j < |st.items| ==> st.items[i] != st.items[j]
  }

  /** The list grows by at most one element and keeps what it had. */
  lemma AppendedGrowsByAtMostOne<T>(st: ListState<T>, hashable: bool, arg: T)
    ensures Appended(st, hashable, arg).items == st.items ||
            Appended(st, hashable, arg).items == st.items + [arg]
  {
  }

  /** Afterwards `arg` is in the list. */
  lemma AppendedContains<T>(st: ListState<T>, start: nat, hashable: T -> bool, arg: T)
    requires Tracks(st, start, hashable)
    ensures arg in Appended(st, hashable(arg), arg).items
  {
    if hashable(arg) && arg in st.dic {
      assert arg in st.items[start..];
      var k :| 0 <= k < |st.items[start..]| && st.items[start..][k] == arg;
      assert st.items[start + k] == arg;
    }
  }

  /** A second `append1(arg)` changes nothing. */
  lemma AppendedIdempotent<T>(st: ListState<T>, hashable: bool, arg: T)
    ensures Appended(Appended(st, hashable, arg), hashable, arg) == Appended(st, hashable, arg)
  {
  }

  /** `append1` keeps `dic` in step with the list and adds no duplicate. */
  lemma AppendedTracks<T>(st: ListState<T>, start: nat, hashable: T -> bool, arg: T)
    requires Tracks(st, start, hashable)
    ensures Tracks(Appended(st, hashable(arg), arg), start, hashable)
  {
    var st' := Appended(st, hashable(arg), arg);
    if st' != st {
      assert st'.items == st.items + [arg];
      assert st'.items[start..] == st.items[start..] + [arg];
      assert arg !in st.items[start..];
      forall i | start <= i < |st.items|
        ensures st'.items[i] != arg
      {
        assert st.items[start..][i - start] == st.items[i];
      }
    }
  }

  class UniqueList<T(==)> {
    var items: seq<T>
    var dic: set<T>
    /** Whether Python can hash a value: an attribute of the value, fixed per list here. */
    const hashable: T -> bool
    /** How many elements the constructor was given. */
    ghost const start: nat

    ghost predicate Valid()
      reads this
    {
      Tracks(ListState(items, dic), start, hashable)
    }

    constructor(init: seq<T>, hashable: T -> bool)
      ensures Valid()
      ensures items == init && dic == {} && this.hashable == hashable
    {
      items := init;
      dic := {};
      this.hashable := hashable;
      start := |init|;
    }

    method Append1(arg: T)
      modifies this
      requires Valid()
      ensures Valid()
      ensures ListState(items, dic) == Appended(old(ListState(items, dic)), hashable(arg), arg)
      ensures arg in items
    {
      AppendedTracks(ListState(items, dic), start, hashable, arg);
      AppendedContains(ListState(items, dic), start, hashable, arg);
      if hashable(arg) {
        if arg !in dic {
          dic := dic + {arg};
          items := items + [arg];
        }
      } else {
        if arg !in items {
          items := items + [arg];
        }
      }
    }
  }
}
