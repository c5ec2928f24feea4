/** Small helpers that several modules share. */
module Lists {
  datatype Option<T> = None | Some(value: T)

  /** The last n elements, or all of them when there are fewer. */
  function Latest<T>(s: seq<T>, n: int): seq<T> {
    if n <= 0 then [] else if |s| <= n then s else s[|s| - n..]
  }

  /** The chosen items are those that are kept, in order; they stand at the given places. */
  ghost predicate IsSelection<T(!new)>(items: seq<T>, keep: T -> bool, places: seq<int>, chosen: seq<T>) {
    && |places| == |chosen|
    && Ascending(places)
    && (forall k :: 0 <= k < |places| ==> 0 <= places[k] < |items| && chosen[k] == items[places[k]] && keep(chosen[k]))
    && (forall i :: 0 <= i < |items| && keep(items[i]) ==> i in places)
  }

  /** One more item at the end. */
  lemma SelectionAppend<T(!new)>(items: seq<T>, keep: T -> bool, places: seq<int>, chosen: seq<T>, last: T)
    requires IsSelection(items, keep, places, chosen)
    ensures IsSelection(items + [last], keep, if keep(last) then places + [|items|] else places,
                        if keep(last) then chosen + [last] else chosen)
  {
    forall i | 0 <= i < |items| + 1 && keep((items + [last])[i])
      ensures i in if keep(last) then places + [|items|] else places
    {
      if i < |items| {
        assert keep(items[i]) && i in places;
      }
    }
  }

  ghost predicate Ascending(s: seq<int>) {
    forall k, l :: 0 <= k < l < |s| ==> s[k] < s[l]
  }

  lemma AscendingTail(s: seq<int>)
    requires Ascending(s) && s != []
    ensures Ascending(s[1..]) && forall x :: x in s[1..] <==> x in s && x != s[0]
  {
    assert s == [s[0]] + s[1..];
    forall x | x in s[1..]
      ensures x != s[0]
    {
      var k :| 0 <= k < |s| - 1 && s[1..][k] == x;
      assert s[k + 1] == x;
    }
  }

  lemma AscendingHead(s: seq<int>, x: int)
    requires Ascending(s) && x in s
    ensures s[0] <= x
  {
  }

  /** Ascending lists of the same elements are equal. */
  lemma {:induction false} AscendingIsUnique(s: seq<int>, t: seq<int>)
    requires Ascending(s) && Ascending(t) && forall x :: x in s <==> x in t
    ensures s == t
  {
    assert t != [] ==> t[0] in t;
    if s != [] {
      assert s[0] in s && s[0] in t && t[0] in t;
      AscendingHead(s, t[0]);
      AscendingHead(t, s[0]);
      AscendingTail(s);
      AscendingTail(t);
      AscendingIsUnique(s[1..], t[1..]);
      assert s == [s[0]] + s[1..] && t == [t[0]] + t[1..];
    }
  }
}
