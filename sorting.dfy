/**
 * Line 9 of runrun_telegram_report.py: the task list is sorted in place by
 * project name, a missing or empty name sorting as "". Python's list.sort is
 * stable, and compares string keys lexicographically by code point.
 *
 * SortByProject is the specification (insertion of each task, left to right,
 * after every task whose key is not greater); SortTasksInPlace is the in-place
 * sort, proved to produce it; the lemmas show that SortByProject is a sorted,
 * stable permutation and the only one.
 */
module ProjectSort {
  import opened PyStr
  import opened Tasks

  /** The sort key of line 9: the project name, or "" when it is missing or empty. */
  function SortKey(t: Task): (k: string)
    ensures Truthy(t.projectName) ==> k == t.projectName.value
    ensures !Truthy(t.projectName) ==> k == ""
  {
    Or(t.projectName, "")
  }

  /** `SortKey(x) <= SortKey(y)` as Python compares the keys. */
  predicate KeyLe(x: Task, y: Task) {
    LexLe(SortKey(x), SortKey(y))
  }

  ghost predicate SortedByKey(s: seq<Task>) {
    forall i, j :: 0 <= i < j < |s| ==> KeyLe(s[i], s[j])
  }

  /** The tasks of `s` whose key is `k`, in their order in `s`. */
  function WithKey(s: seq<Task>, k: string): (r: seq<Task>)
    ensures |r| <= |s|
  {
    if s == [] then []
    else WithKey(s[..|s| - 1], k) + (if SortKey(s[|s| - 1]) == k then [s[|s| - 1]] else [])
  }

  /** Where `x` goes in `t`: after the last task whose key is not greater than its own. */
  function InsertPos(t: seq<Task>, x: Task): (p: nat)
    ensures p <= |t|
    ensures p == 0 || KeyLe(t[p - 1], x)
    ensures forall i :: p <= i < |t| ==> !KeyLe(t[i], x)
  {
    if t == [] || KeyLe(t[|t| - 1], x) then |t| else InsertPos(t[..|t| - 1], x)
  }

  function Insert(t: seq<Task>, x: Task): (r: seq<Task>)
    ensures |r| == |t| + 1
  {
    t[..InsertPos(t, x)] + [x] + t[InsertPos(t, x)..]
  }

  /** The list sorted as line 9 sorts it. */
  function SortByProject(s: seq<Task>): (r: seq<Task>)
    ensures |r| == |s|
  {
    if s == [] then [] else Insert(SortByProject(s[..|s| - 1]), s[|s| - 1])
  }

  // ---------------------------------------------------------------------------
  // The sort in place
  // ---------------------------------------------------------------------------

  /** `tasks.sort(key=...)`: a stable insertion sort on the array. */
  method SortTasksInPlace(a: array<Task>)
    modifies a
    ensures a[..] == SortByProject(old(a[..]))
  {
    ghost var input := a[..];
    var i := 0;
    while i < a.Length
      invariant 0 <= i <= a.Length
      invariant a[..i] == SortByProject(input[..i])
      invariant a[i..] == input[i..]
    {
      assert a[i] == input[i];
      InsertAt(a, i);
      SortPrefixStep(input, i);
      assert a[i + 1..] == input[i + 1..];
      i := i + 1;
    }
    assert input[..a.Length] == input;
  }

  /** Sorting one more element of the input inserts it into the sorted prefix. */
  lemma SortPrefixStep(s: seq<Task>, i: nat)
    requires i < |s|
    ensures SortByProject(s[..i + 1]) == Insert(SortByProject(s[..i]), s[i])
  {
    assert s[..i + 1][..i] == s[..i];
  }

  /** One step of the sort: moves `a[i]` left into the sorted prefix `a[..i]`. */
  method InsertAt(a: array<Task>, i: nat)
    requires i < a.Length
    modifies a
    ensures a[..i + 1] == Insert(old(a[..i]), old(a[i]))
    ensures forall k :: i < k < a.Length ==> a[k] == old(a[k])
  {
    var x := a[i];
    ghost var t := a[..i];
    var j := i;
    while j > 0 && !KeyLe(a[j - 1], x)
      invariant 0 <= j <= i
      invariant forall k :: 0 <= k < j ==> a[k] == t[k]
      invariant forall k :: j < k <= i ==> a[k] == t[k - 1]
      invariant forall k :: i < k < a.Length ==> a[k] == old(a[k])
      invariant forall k :: j <= k < i ==> !KeyLe(t[k], x)
    {
      a[j] := a[j - 1];
      j := j - 1;
    }
    a[j] := x;
    ShiftedIsInsert(t, x, j, a[..i + 1]);
  }

  /** The array prefix after the shifting loop: `t` with `x` placed at the insertion point. */
  lemma ShiftedIsInsert(t: seq<Task>, x: Task, j: nat, s: seq<Task>)
    requires j <= |t| && |s| == |t| + 1
    requires forall k :: 0 <= k < j ==> s[k] == t[k]
    requires s[j] == x
    requires forall k :: j < k <= |t| ==> s[k] == t[k - 1]
    requires j == 0 || KeyLe(t[j - 1], x)
    requires forall k :: j <= k < |t| ==> !KeyLe(t[k], x)
    ensures s == Insert(t, x)
  {
    InsertPosIs(t, x, j);
    ghost var r := t[..j] + [x] + t[j..];
    forall k | 0 <= k < |s|
      ensures s[k] == r[k]
    {
      if k < j {
        assert r[k] == t[k];
      } else if k > j {
        assert r[k] == t[k - 1];
      }
    }
  }

  /** The insertion point is the one after the last task whose key is not greater than that of `x`. */
  lemma {:induction false} InsertPosIs(t: seq<Task>, x: Task, j: nat)
    requires j <= |t|
    requires j == 0 || KeyLe(t[j - 1], x)
    requires forall k :: j <= k < |t| ==> !KeyLe(t[k], x)
    ensures InsertPos(t, x) == j
  {
    if j < |t| {
      var init := t[..|t| - 1];
      assert j == 0 || init[j - 1] == t[j - 1];
      InsertPosIs(init, x, j);
    }
  }

  // ---------------------------------------------------------------------------
  // The sort permutes
  // ---------------------------------------------------------------------------

  lemma InsertPermutes(t: seq<Task>, x: Task)
    ensures multiset(Insert(t, x)) == multiset(t) + multiset{x}
  {
    var p := InsertPos(t, x);
    assert t == t[..p] + t[p..];
  }

  /** The sorted list holds the same tasks as the input, each as often. */
  lemma {:induction false} SortPermutes(s: seq<Task>)
    ensures multiset(SortByProject(s)) == multiset(s)
  {
    if s != [] {
      var init := s[..|s| - 1];
      SortPermutes(init);
      InsertPermutes(SortByProject(init), s[|s| - 1]);
      assert s == init + [s[|s| - 1]];
    }
  }

  // ---------------------------------------------------------------------------
  // The sort orders
  // ---------------------------------------------------------------------------

  lemma InsertSorted(t: seq<Task>, x: Task)
    requires SortedByKey(t)
    ensures SortedByKey(Insert(t, x))
  {
    var p := InsertPos(t, x);
    var r := Insert(t, x);
    assert |r| == |t| + 1;
    forall i, j | 0 <= i < j < |r| ensures KeyLe(r[i], r[j]) {
      if j < p {
        assert r[i] == t[i] && r[j] == t[j];
      } else if j == p {
        assert r[i] == t[i] && r[j] == x;
        if i < p - 1 {
          LexLeTransitive(SortKey(t[i]), SortKey(t[p - 1]), SortKey(x));
        }
      } else if i < p {
        assert r[i] == t[i] && r[j] == t[j - 1];
      } else if i == p {
        assert r[i] == x && r[j] == t[j - 1];
        LexLeTotal(SortKey(x), SortKey(t[j - 1]));
      } else {
        assert r[i] == t[i - 1] && r[j] == t[j - 1];
      }
    }
  }

  /** The sorted list is in non-decreasing order of project key. */
  lemma {:induction false} SortIsSorted(s: seq<Task>)
    ensures SortedByKey(SortByProject(s))
  {
    if s != [] {
      SortIsSorted(s[..|s| - 1]);
      InsertSorted(SortByProject(s[..|s| - 1]), s[|s| - 1]);
    }
  }

  // ---------------------------------------------------------------------------
  // The sort is stable
  // ---------------------------------------------------------------------------

  lemma {:induction false} WithKeyAppend(a: seq<Task>, b: seq<Task>, k: string)
    ensures WithKey(a + b, k) == WithKey(a, k) + WithKey(b, k)
  {
    if b == [] {
      assert a + b == a;
    } else {
      WithKeyAppend(a, b[..|b| - 1], k);
      assert (a + b)[..|a + b| - 1] == a + b[..|b| - 1];
      assert (a + b)[|a + b| - 1] == b[|b| - 1];
    }
  }

  lemma InsertWithKey(t: seq<Task>, x: Task, k: string)
    ensures WithKey(Insert(t, x), k) == WithKey(t, k) + (if SortKey(x) == k then [x] else [])
  {
    var p := InsertPos(t, x);
    if SortKey(x) == k {
      // every task after the insertion point has a key greater than k
      NoneWithKey(t[p..], x, k);
    }
    SplitWithKey(t, x, k, p);
  }

  /** Placing `x` at `p` adds it at the end of its key's run when no later task shares its key. */
  lemma SplitWithKey(t: seq<Task>, x: Task, k: string, p: nat)
    requires p <= |t|
    requires SortKey(x) == k ==> WithKey(t[p..], k) == []
    ensures WithKey(t[..p] + [x] + t[p..], k) == WithKey(t, k) + (if SortKey(x) == k then [x] else [])
  {
    var before, after := t[..p], t[p..];
    var hx: seq<Task> := if SortKey(x) == k then [x] else [];
    var wb, wa := WithKey(before, k), WithKey(after, k);
    assert WithKey((before + [x]) + after, k) == (wb + hx) + wa by {
      WithKeyAppend(before + [x], after, k);
      WithKeyAppend(before, [x], k);
      assert WithKey([x], k) == hx by {
        assert [x][..0] == [];
      }
    }
    assert WithKey(t, k) == wb + wa by {
      assert before + after == t;
      WithKeyAppend(before, after, k);
    }
    assert (wb + hx) + wa == wb + (hx + wa);
  }

  lemma {:induction false} NoneWithKey(u: seq<Task>, x: Task, k: string)
    requires SortKey(x) == k
    requires forall i :: 0 <= i < |u| ==> !KeyLe(u[i], x)
    ensures WithKey(u, k) == []
  {
    if u != [] {
      NoneWithKey(u[..|u| - 1], x, k);
      LexLeReflexive(k);
    }
  }

  /** Tasks with equal keys keep their input order: the sort is stable. */
  lemma {:induction false} SortIsStable(s: seq<Task>, k: string)
    ensures WithKey(SortByProject(s), k) == WithKey(s, k)
  {
    if s != [] {
      SortIsStable(s[..|s| - 1], k);
      InsertWithKey(SortByProject(s[..|s| - 1]), s[|s| - 1], k);
    }
  }

  // ---------------------------------------------------------------------------
  // Sorted and stable determine the result
  // ---------------------------------------------------------------------------

  /** A key-sorted list is determined by its runs of equal keys. */
  lemma {:induction false} SortedUnique(a: seq<Task>, b: seq<Task>)
    requires SortedByKey(a) && SortedByKey(b)
    requires forall k :: WithKey(a, k) == WithKey(b, k)
    ensures a == b
  {
    if a == [] && b != [] {
      LastInOwnRun(b);
      assert false;
    } else if a != [] && b == [] {
      LastInOwnRun(a);
      assert false;
    } else if a != [] && b != [] {
      var a', b' := a[..|a| - 1], b[..|b| - 1];
      LastsAgree(a, b);
      forall k ensures WithKey(a', k) == WithKey(b', k) {
        DropLastWithKey(a, b, k);
      }
      assert SortedByKey(a') && SortedByKey(b');
      SortedUnique(a', b');
      assert a == a' + [a[|a| - 1]] && b == b' + [b[|b| - 1]];
    }
  }

  /** Two key-sorted lists that agree on every key's tasks end with the same key. */
  lemma LastKeysAgree(a: seq<Task>, b: seq<Task>)
    requires a != [] && b != []
    requires SortedByKey(a) && SortedByKey(b)
    requires forall k :: WithKey(a, k) == WithKey(b, k)
    ensures SortKey(a[|a| - 1]) == SortKey(b[|b| - 1])
  {
    var kx, ky := SortKey(a[|a| - 1]), SortKey(b[|b| - 1]);
    assert LexLe(kx, ky) by {
      LastInOwnRun(a);
      assert WithKey(b, kx) != [];
      LastKeyIsLargest(b, kx);
    }
    assert LexLe(ky, kx) by {
      LastInOwnRun(b);
      assert WithKey(a, ky) != [];
      LastKeyIsLargest(a, ky);
    }
    LexLeAntisymmetric(kx, ky);
  }

  /** Two key-sorted lists that agree on every key's tasks end with the same task. */
  lemma LastsAgree(a: seq<Task>, b: seq<Task>)
    requires a != [] && b != []
    requires SortedByKey(a) && SortedByKey(b)
    requires forall k :: WithKey(a, k) == WithKey(b, k)
    ensures a[|a| - 1] == b[|b| - 1]
  {
    var x, y := a[|a| - 1], b[|b| - 1];
    LastKeysAgree(a, b);
    var wa, wb := WithKey(a, SortKey(x)), WithKey(b, SortKey(x));
    assert wa == WithKey(a[..|a| - 1], SortKey(x)) + [x];
    assert wb == WithKey(b[..|b| - 1], SortKey(x)) + [y];
    assert wa[|wa| - 1] == x && wb[|wb| - 1] == y;
  }

  /** Two lists that agree on every key's tasks and end with the same task still agree once it is dropped. */
  lemma DropLastWithKey(a: seq<Task>, b: seq<Task>, k: string)
    requires a != [] && b != [] && a[|a| - 1] == b[|b| - 1]
    requires WithKey(a, k) == WithKey(b, k)
    ensures WithKey(a[..|a| - 1], k) == WithKey(b[..|b| - 1], k)
  {
    var x := a[|a| - 1];
    var h: seq<Task> := if SortKey(x) == k then [x] else [];
    var wa, wb := WithKey(a, k), WithKey(b, k);
    assert wa == WithKey(a[..|a| - 1], k) + h;
    assert wb == WithKey(b[..|b| - 1], k) + h;
    assert WithKey(a[..|a| - 1], k) == wa[..|wa| - |h|];
    assert WithKey(b[..|b| - 1], k) == wb[..|wb| - |h|];
  }

  lemma LastInOwnRun(s: seq<Task>)
    requires s != []
    ensures WithKey(s, SortKey(s[|s| - 1])) != []
  {
  }

  /** If a sorted list holds a task with key k, its last task's key is at least k. */
  lemma LastKeyIsLargest(s: seq<Task>, k: string)
    requires s != [] && SortedByKey(s)
    requires WithKey(s, k) != []
    ensures LexLe(k, SortKey(s[|s| - 1]))
  {
    var i := SomeWithKey(s, k);
    if i < |s| - 1 {
      assert KeyLe(s[i], s[|s| - 1]);
    } else {
      LexLeReflexive(k);
    }
  }

  lemma {:induction false} SomeWithKey(s: seq<Task>, k: string) returns (i: nat)
    requires WithKey(s, k) != []
    ensures i < |s| && SortKey(s[i]) == k
  {
    if SortKey(s[|s| - 1]) == k {
      i := |s| - 1;
    } else {
      i := SomeWithKey(s[..|s| - 1], k);
    }
  }

  /**
   * Python's promise for `list.sort` (ordered, and stable) pins the result down:
   * any key-sorted list that keeps every key's tasks in input order is
   * SortByProject of the input.
   */
  lemma SortIsTheStableSort(s: seq<Task>, r: seq<Task>)
    requires SortedByKey(r)
    requires forall k :: WithKey(r, k) == WithKey(s, k)
    ensures r == SortByProject(s)
  {
    SortIsSorted(s);
    forall k ensures WithKey(r, k) == WithKey(SortByProject(s), k) {
      SortIsStable(s, k);
    }
    SortedUnique(r, SortByProject(s));
  }
}
