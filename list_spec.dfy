/** Sequence-level definitions that the linked list's operations are specified
    against, with the lemmas that say what those definitions mean. */
module ListSpec {

  /** Outcome of a read that the list answers either with a value or by raising. */
  datatype Result<T> = Ok(value: T) | Err

  /** A value or Python's `None`. */
  datatype Option<T> = None | Some(value: T)

  /** Every element of `s` equals `v`. */
  predicate AllEqual<T(==)>(s: seq<T>, v: T) {
    forall i :: 0 <= i < |s| ==> s[i] == v
  }

  /** The lowest index at which `v` occurs in `s`. */
  function IndexOf<T(==)>(s: seq<T>, v: T): (i: nat)
    requires v in s
    ensures i < |s| && s[i] == v
    ensures v !in s[..i]
  {
    if s[0] == v then 0
    else
      var j := IndexOf(s[1..], v);
      assert s[..j + 1] == [s[0]] + s[1..][..j];
      1 + j
  }

  /** `s` without its first occurrence of `v`; `s` itself when `v` does not occur. */
  function RemoveFirst<T(==)>(s: seq<T>, v: T): (r: seq<T>)
    ensures v !in s ==> r == s
    ensures v in s ==> |r| == |s| - 1
  {
    if v in s then
      var i := IndexOf(s, v);
      s[..i] + s[i + 1..]
    else s
  }

  /** `s` with every occurrence of `v` taken out, the rest kept in order. */
  function Filter<T(==)>(s: seq<T>, v: T): (r: seq<T>)
    ensures v !in r
    ensures |r| <= |s|
    decreases |s|
  {
    if s == [] then []
    else
      var init, last := s[..|s| - 1], s[|s| - 1];
      assert s == init + [last];
      Filter(init, v) + (if last == v then [] else [last])
  }

  /** Filtering keeps every element other than `v` exactly as often as before. */
  lemma {:induction false} FilterCount<T>(s: seq<T>, v: T)
    ensures multiset(Filter(s, v)) == multiset(s)[v := 0]
    decreases |s|
  {
    if s != [] {
      var init, last := s[..|s| - 1], s[|s| - 1];
      assert s == init + [last];
      FilterCount(init, v);
    }
  }

  /** Filtering from the front: the head goes when it equals `v`, then the rest
      is filtered. */
  lemma {:induction false} FilterCons<T>(s: seq<T>, v: T)
    requires s != []
    ensures Filter(s, v) == (if s[0] == v then [] else [s[0]]) + Filter(s[1..], v)
    decreases |s|
  {
    if |s| > 1 {
      var init := s[..|s| - 1];
      FilterCons(init, v);
      assert init[0] == s[0] && init[1..] == s[1..][..|s| - 2];
    } else {
      assert s[..0] == [] && s[1..] == [];
    }
  }

  /** What the list's remove-all walk leaves of `s`, processing it left to right.
      A matching element is unlinked from the last node the walk kept, except
      while the walk is still behind a matching head: the head is already
      detached then, so unlinking edits the detached node and the element stays. */
  function RemoveAllAsWritten<T(==)>(s: seq<T>, v: T): (r: seq<T>)
    ensures |r| <= |s|
    decreases |s|
  {
    if |s| <= 1 then Filter(s, v)
    else
      var r, last := RemoveAllAsWritten(s[..|s| - 1], v), s[|s| - 1];
      if last != v || (s[0] == v && AllEqual(s[1..], v)) then r + [last] else r
  }

  /** The remove-all walk drops only copies of `v`: every other element stays
      exactly as often as before. */
  lemma {:induction false} RemoveAllOnlyDropsMatches<T>(s: seq<T>, v: T)
    ensures forall x :: x != v ==> multiset(RemoveAllAsWritten(s, v))[x] == multiset(s)[x]
    decreases |s|
  {
    if |s| <= 1 {
      FilterCount(s, v);
    } else {
      var init, last := s[..|s| - 1], s[|s| - 1];
      RemoveAllOnlyDropsMatches(init, v);
      var r := RemoveAllAsWritten(init, v);
      var keep := last != v || (s[0] == v && AllEqual(s[1..], v));
      assert RemoveAllAsWritten(s, v) == if keep then r + [last] else r;
      assert s == init + [last];
      SnocCount(init, last, r, v, keep);
    }
  }

  /** Appending `last` to the input, and to the output unless it is `v`, keeps the
      counts of everything but `v` equal. */
  lemma SnocCount<T>(init: seq<T>, last: T, r: seq<T>, v: T, keep: bool)
    requires forall x :: x != v ==> multiset(r)[x] == multiset(init)[x]
    requires !keep ==> last == v
    ensures forall x :: x != v ==> multiset(if keep then r + [last] else r)[x] == multiset(init + [last])[x]
  {
    assert multiset(init + [last]) == multiset(init) + multiset{last};
    if keep {
      assert multiset(r + [last]) == multiset(r) + multiset{last};
    }
  }

  /** Removing the first occurrence leaves one occurrence fewer of `v` and every
      other element as often as before; without an occurrence nothing changes. */
  lemma RemoveFirstCount<T>(s: seq<T>, v: T)
    ensures v in s ==> multiset(RemoveFirst(s, v)) == multiset(s) - multiset{v}
    ensures v in s ==> |RemoveFirst(s, v)| == |s| - 1
    ensures v !in s ==> RemoveFirst(s, v) == s
  {
    if v in s {
      var i := IndexOf(s, v);
      assert s == s[..i] + [s[i]] + s[i + 1..];
    }
  }

  /** When `v` first occurs at `k`, removing the first occurrence splices out index `k`. */
  lemma RemoveFirstAt<T>(s: seq<T>, v: T, k: nat)
    requires k < |s| && s[k] == v && v !in s[..k]
    ensures RemoveFirst(s, v) == s[..k] + s[k + 1..]
  {
  }

  /** When the head does not match, the remove-all walk removes every occurrence. */
  lemma {:induction false} RemoveAllHeadDiffers<T>(s: seq<T>, v: T)
    requires s != [] && s[0] != v
    ensures RemoveAllAsWritten(s, v) == Filter(s, v)
  {
    if |s| > 1 {
      var init := s[..|s| - 1];
      assert init[0] == s[0];
      RemoveAllHeadDiffers(init, v);
    }
  }

  /** While the head and everything after it match, the walk keeps all but the head. */
  lemma {:induction false} RemoveAllLeadingRun<T>(s: seq<T>, v: T)
    requires s != [] && s[0] == v && AllEqual(s[1..], v)
    ensures RemoveAllAsWritten(s, v) == s[1..]
  {
    if |s| > 1 {
      var init := s[..|s| - 1];
      assert init[0] == s[0];
      assert AllEqual(init[1..], v) by {
        forall i | 0 <= i < |init[1..]| ensures init[1..][i] == v {
          assert init[1..][i] == s[1..][i];
        }
      }
      RemoveAllLeadingRun(init, v);
      assert s[1..] == init[1..] + [s[|s| - 1]];
    }
  }

  /** Once the walk has met a non-matching element after a matching head, the rest
      is filtered: the result is the matching run after the head, then the filter
      of what follows it. */
  lemma {:induction false} RemoveAllAfterRun<T>(s: seq<T>, v: T, j: nat)
    requires 1 <= j < |s| && s[0] == v && AllEqual(s[1..j], v) && s[j] != v
    ensures RemoveAllAsWritten(s, v) == s[1..j] + Filter(s[j..], v)
    decreases |s|
  {
    if j == |s| - 1 {
      RemoveAllRunThenLast(s, v);
    } else {
      var init, last := s[..|s| - 1], s[|s| - 1];
      assert s == init + [last];
      assert init[0] == s[0] && init[j] == s[j] && init[1..j] == s[1..j];
      RemoveAllAfterRun(init, v, j);
      RemoveAllPastRun(s, v, j, init, last, s[1..j], init[j..]);
      assert s[j..] == init[j..] + [last];
    }
  }

  /** The inductive step of `RemoveAllAfterRun`, for `s` made of `init` and
      `last`: past the run, one more element is kept exactly when it differs
      from `v`, as filtering keeps it. */
  lemma RemoveAllPastRun<T>(s: seq<T>, v: T, j: nat, init: seq<T>, last: T, run: seq<T>, rest: seq<T>)
    requires s == init + [last] && 1 <= j < |init| && s[j] != v
    requires run == s[1..j] && rest == init[j..]
    requires RemoveAllAsWritten(init, v) == run + Filter(rest, v)
    ensures RemoveAllAsWritten(s, v) == run + Filter(rest + [last], v)
  {
    FilterSnoc(rest + [last], rest, last, v);
    assert s[..|s| - 1] == init;
    if last == v {
      RemoveAllDropsLast(s, v, j);
    } else {
      RemoveAllKeepsLast(s, v);
    }
  }

  /** Filtering a sequence that ends in `last` filters what comes before it and
      keeps `last` unless it is `v`. */
  lemma FilterSnoc<T>(s: seq<T>, init: seq<T>, last: T, v: T)
    requires s == init + [last]
    ensures Filter(s, v) == Filter(init, v) + (if last == v then [] else [last])
  {
    assert s[..|s| - 1] == init;
  }

  /** A matching head, a run of matches, and one last element that differs:
      the walk keeps everything after the head, which is the run followed by
      the filter of the last element. */
  lemma RemoveAllRunThenLast<T>(s: seq<T>, v: T)
    requires 2 <= |s| && s[0] == v && AllEqual(s[1..|s| - 1], v) && s[|s| - 1] != v
    ensures RemoveAllAsWritten(s, v) == s[1..|s| - 1] + Filter(s[|s| - 1..], v)
  {
    var init, run, last := s[..|s| - 1], s[1..|s| - 1], s[|s| - 1];
    RemoveAllRunBeforeLast(s, v);
    RemoveAllKeepsLast(s, v);
    FilterKeepsOne(last, v);
    calc {
      RemoveAllAsWritten(s, v);
      RemoveAllAsWritten(init, v) + [last];
      run + Filter([last], v);
      { assert s[|s| - 1..] == [last]; }
      run + Filter(s[|s| - 1..], v);
    }
  }

  /** A single element other than `v` survives filtering. */
  lemma FilterKeepsOne<T>(x: T, v: T)
    requires x != v
    ensures Filter([x], v) == [x]
  {
    assert [x][..0] == [];
  }

  /** A matching head followed only by matches, seen from a longer sequence. */
  lemma RemoveAllRunBeforeLast<T>(s: seq<T>, v: T)
    requires 2 <= |s| && s[0] == v && AllEqual(s[1..|s| - 1], v)
    ensures RemoveAllAsWritten(s[..|s| - 1], v) == s[1..|s| - 1]
  {
    var init := s[..|s| - 1];
    assert init[0] == v && init[1..] == s[1..|s| - 1];
    RemoveAllLeadingRun(init, v);
  }

  /** A last element that differs from `v` is kept. */
  lemma RemoveAllKeepsLast<T>(s: seq<T>, v: T)
    requires 2 <= |s| && s[|s| - 1] != v
    ensures RemoveAllAsWritten(s, v) == RemoveAllAsWritten(s[..|s| - 1], v) + [s[|s| - 1]]
  {
  }

  /** Past a mismatch after the head, the walk drops a last element equal to `v`. */
  lemma RemoveAllDropsLast<T>(s: seq<T>, v: T, j: nat)
    requires 1 <= j < |s| && s[j] != v && s[|s| - 1] == v
    ensures RemoveAllAsWritten(s, v) == RemoveAllAsWritten(s[..|s| - 1], v)
  {
    assert !AllEqual(s[1..], v) by {
      assert s[1..][j - 1] == s[j];
    }
  }

  /** One more step of the remove-all walk: the element at `k` is kept when it
      differs from `v`, or while everything from the head up to it matches. */
  lemma RemoveAllStep<T>(s: seq<T>, v: T, k: nat)
    requires 0 < k < |s|
    ensures RemoveAllAsWritten(s[..k + 1], v) ==
      RemoveAllAsWritten(s[..k], v) +
      (if s[k] != v || (s[0] == v && AllEqual(s[1..k], v)) then [s[k]] else [])
    ensures AllEqual(s[1..k + 1], v) <==> AllEqual(s[1..k], v) && s[k] == v
  {
    var t := s[..k + 1];
    assert t[..|t| - 1] == s[..k] && t[0] == s[0] && t[|t| - 1] == s[k];
    assert t[1..] == s[1..k] + [s[k]] == s[1..k + 1];
  }

  /** The remove-all walk leaves an occurrence of `v` behind exactly when the
      first two elements both match. */
  lemma {:induction false} RemoveAllLeavesMatch<T>(s: seq<T>, v: T)
    ensures v in RemoveAllAsWritten(s, v) <==> |s| >= 2 && s[0] == v && s[1] == v
  {
    if s == [] {
    } else if s[0] != v {
      RemoveAllHeadDiffers(s, v);
    } else if AllEqual(s[1..], v) {
      LeavesMatchLeadingRun(s, v);
    } else {
      var j := MismatchAfterHead(s, v);
      LeavesMatchAfterRun(s, v, j);
    }
  }

  /** Past the head of a sequence whose tail is not all `v`, a first mismatch `j`
      exists, with only copies of `v` between the head and it. */
  lemma MismatchAfterHead<T>(s: seq<T>, v: T) returns (j: nat)
    requires s != [] && !AllEqual(s[1..], v)
    ensures 1 <= j < |s| && AllEqual(s[1..j], v) && s[j] != v
  {
    var i := FirstMismatchIndex(s[1..], v);
    FirstMismatch(s[1..], v);
    j := i + 1;
    assert s[1..][..i] == s[1..j] && s[j] == s[1..][i];
  }

  /** The leading-run case of `RemoveAllLeavesMatch`. */
  lemma LeavesMatchLeadingRun<T>(s: seq<T>, v: T)
    requires s != [] && s[0] == v && AllEqual(s[1..], v)
    ensures v in RemoveAllAsWritten(s, v) <==> |s| >= 2 && s[1] == v
  {
    RemoveAllLeadingRun(s, v);
    if |s| >= 2 {
      assert s[1..][0] == s[1];
    }
  }

  /** The case of `RemoveAllLeavesMatch` where the first mismatch is at `j`. */
  lemma LeavesMatchAfterRun<T>(s: seq<T>, v: T, j: nat)
    requires 1 <= j < |s| && s[0] == v && AllEqual(s[1..j], v) && s[j] != v
    ensures v in RemoveAllAsWritten(s, v) <==> s[1] == v
  {
    RemoveAllAfterRun(s, v, j);
    if j == 1 {
      assert s[1..j] == [];
    } else {
      assert s[1..j][0] == s[1];
    }
  }

  /** On `[1, 1, 2]`, removing every `1` the way the list's walk does keeps the
      second `1`, where removing every occurrence leaves only `2`. */
  lemma RemoveAllKeepsSecondMatch()
    ensures RemoveAllAsWritten([1, 1, 2], 1) == [1, 2]
    ensures Filter([1, 1, 2], 1) == [2]
  {
    var s := [1, 1, 2];
    assert s[..2] == [1, 1] && s[1..] == [1, 2] && [1, 1][..1] == [1];
    assert s[..|s| - 1] == [1, 1] && [1, 1][..|[1, 1]| - 1] == [1] && [1][..0] == [];
  }

  /** Lowest index of an element of `s` that differs from `v`. */
  function FirstMismatchIndex<T(==)>(s: seq<T>, v: T): (i: nat)
    requires !AllEqual(s, v)
    ensures i < |s| && s[i] != v
    decreases |s|
  {
    if s[0] != v then 0
    else
      assert !AllEqual(s[1..], v) by {
        var k :| 0 <= k < |s| && s[k] != v;
        assert s[1..][k - 1] == s[k];
      }
      1 + FirstMismatchIndex(s[1..], v)
  }

  /** Everything before the first mismatch equals `v`. */
  lemma {:induction false} FirstMismatch<T>(s: seq<T>, v: T)
    requires !AllEqual(s, v)
    ensures AllEqual(s[..FirstMismatchIndex(s, v)], v)
    decreases |s|
  {
    if s[0] == v {
      FirstMismatch(s[1..], v);
      var i := FirstMismatchIndex(s[1..], v);
      assert s[..i + 1] == [s[0]] + s[1..][..i];
    }
  }
}
