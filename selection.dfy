/** Order-preserving selection from a sequence, the shape of every loop in
    the renamer that appends the items passing a test. */
module Selection {

  predicate NoDups<T(==)>(s: seq<T>) {
    forall i, j :: 0 <= i < j < |s| ==> s[i] != s[j]
  }

  /** The items of `s` that pass `keep`, in their order in `s`. */
  function Select<T>(s: seq<T>, keep: T -> bool): (r: seq<T>)
    ensures |r| <= |s|
  {
    if |s| == 0 then []
    else Select(s[..|s| - 1], keep) + (if keep(s[|s| - 1]) then [s[|s| - 1]] else [])
  }

  /** The positions in `s` of the selected items. */
  ghost function Origin<T>(s: seq<T>, keep: T -> bool): seq<nat> {
    if |s| == 0 then []
    else Origin(s[..|s| - 1], keep) + (if keep(s[|s| - 1]) then [|s| - 1] else [])
  }

  /** The selection is exactly the items that pass, in increasing position. */
  lemma {:induction false} SelectOrigin<T>(s: seq<T>, keep: T -> bool)
    ensures |Origin(s, keep)| == |Select(s, keep)|
    ensures forall k :: 0 <= k < |Origin(s, keep)| ==>
      Origin(s, keep)[k] < |s| && keep(s[Origin(s, keep)[k]]) && Select(s, keep)[k] == s[Origin(s, keep)[k]]
    ensures forall k1, k2 :: 0 <= k1 < k2 < |Origin(s, keep)| ==> Origin(s, keep)[k1] < Origin(s, keep)[k2]
    ensures forall i :: 0 <= i < |s| && keep(s[i]) ==> i in Origin(s, keep)
  {
    if |s| > 0 {
      var init := s[..|s| - 1];
      SelectOrigin(init, keep);
      assert forall i :: 0 <= i < |init| ==> init[i] == s[i];
    }
  }

  lemma {:induction false} SelectMembers<T>(s: seq<T>, keep: T -> bool)
    ensures forall x :: x in Select(s, keep) <==> x in s && keep(x)
  {
    if |s| > 0 {
      var init := s[..|s| - 1];
      SelectMembers(init, keep);
      assert s == init + [s[|s| - 1]];
    }
  }

  lemma {:induction false} SelectAppend<T>(a: seq<T>, b: seq<T>, keep: T -> bool)
    ensures Select(a + b, keep) == Select(a, keep) + Select(b, keep)
  {
    if |b| > 0 {
      var init := b[..|b| - 1];
      assert (a + b)[..|a + b| - 1] == a + init;
      SelectAppend(a, init, keep);
    } else {
      assert a + b == a;
    }
  }

  /** Selecting from a duplicate-free sequence gives a duplicate-free one. */
  lemma {:induction false} SelectNoDups<T>(s: seq<T>, keep: T -> bool)
    requires NoDups(s)
    ensures NoDups(Select(s, keep))
  {
    if |s| > 0 {
      var init := s[..|s| - 1];
      SelectNoDups(init, keep);
      SelectMembers(init, keep);
    }
  }
}
