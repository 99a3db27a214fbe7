/** The three heap operations of the C++ standard library that algebra.cpp calls, on pairs ordered by
    exponent. Only their contracts are relied on. */
module ExponentHeap {

  datatype BaseAndExponent<T> = BaseAndExponent(base: T, exponent: nat)

  function Parent(k: nat): nat {
    if k == 0 then 0 else (k - 1) / 2
  }

  ghost predicate AtMost<T>(s: seq<BaseAndExponent<T>>, child: nat, parent: nat) {
    child < |s| && parent < |s| && s[child].exponent <= s[parent].exponent
  }

  ghost predicate BelowParent<T>(s: seq<BaseAndExponent<T>>, k: nat) {
    AtMost(s, k, Parent(k))
  }

  // The first n pairs form a binary heap with a largest exponent on top.
  ghost predicate IsHeap<T>(s: seq<BaseAndExponent<T>>, n: nat) {
    forall k: nat :: 0 < k < n ==> BelowParent(s, k)
  }

  lemma {:induction false} TopIsLargest<T>(s: seq<BaseAndExponent<T>>, n: nat, k: nat)
    requires n <= |s| && IsHeap(s, n) && k < n
    ensures s[k].exponent <= s[0].exponent
  {
    if k > 0 {
      assert BelowParent(s, k);
      TopIsLargest(s, n, Parent(k));
    }
  }

  function Swapped<T>(s: seq<T>, i: nat, j: nat): seq<T>
    requires i < |s| && j < |s|
  {
    s[i := s[j]][j := s[i]]
  }

  method Swap<T>(a: array<T>, i: nat, j: nat)
    requires i < a.Length && j < a.Length
    modifies a
    ensures a[..] == Swapped(old(a[..]), i, j)
    ensures multiset(a[..]) == old(multiset(a[..]))
  {
    a[i], a[j] := a[j], a[i];
  }

  // Only the pair at i may be larger than its parent; its children are in order with that parent.
  ghost predicate HeapExceptUp<T>(s: seq<BaseAndExponent<T>>, n: nat, i: nat) {
    && (forall k: nat :: 0 < k < n && k != i ==> BelowParent(s, k))
    && (forall k: nat :: 0 < k < n && Parent(k) == i && i > 0 ==> AtMost(s, k, Parent(i)))
  }

  lemma SwapUp<T>(s: seq<BaseAndExponent<T>>, n: nat, i: nat)
    requires 0 < i < n <= |s| && HeapExceptUp(s, n, i) && s[Parent(i)].exponent < s[i].exponent
    ensures HeapExceptUp(Swapped(s, i, Parent(i)), n, Parent(i))
  {
    var p, t := Parent(i), Swapped(s, i, Parent(i));
    forall k: nat | 0 < k < n && k != p
      ensures BelowParent(t, k)
    {
      assert k != i ==> BelowParent(s, k);
      assert Parent(k) == i ==> AtMost(s, k, p);
    }
    forall k: nat | 0 < k < n && Parent(k) == p && p > 0
      ensures AtMost(t, k, Parent(p))
    {
      assert BelowParent(s, p) && (k != i ==> BelowParent(s, k));
    }
  }

  method PushHeap<T>(a: array<BaseAndExponent<T>>, n: nat)
    requires 0 < n <= a.Length && IsHeap(a[..], n - 1)
    modifies a
    ensures IsHeap(a[..], n)
    ensures multiset(a[..]) == old(multiset(a[..]))
  {
    hide BelowParent;
    var i := n - 1;
    while i > 0 && a[Parent(i)].exponent < a[i].exponent
      invariant 0 <= i < n
      invariant HeapExceptUp(a[..], n, i)
      invariant multiset(a[..]) == old(multiset(a[..]))
    {
      SwapUp(a[..], n, i);
      Swap(a, i, Parent(i));
      i := Parent(i);
    }
    HeapRestored(a[..], n, i);
  }

  lemma HeapRestored<T>(s: seq<BaseAndExponent<T>>, n: nat, i: nat)
    requires i < n <= |s| && HeapExceptUp(s, n, i)
    requires i == 0 || s[i].exponent <= s[Parent(i)].exponent
    ensures IsHeap(s, n)
  {
  }

  method MakeHeap<T>(a: array<BaseAndExponent<T>>)
    modifies a
    ensures IsHeap(a[..], a.Length)
    ensures multiset(a[..]) == old(multiset(a[..]))
  {
    for n := 0 to a.Length
      invariant IsHeap(a[..], n)
      invariant multiset(a[..]) == old(multiset(a[..]))
    {
      PushHeap(a, n + 1);
    }
  }

  // Only the children of i may be larger than it; they are in order with its parent.
  ghost predicate HeapExceptDown<T>(s: seq<BaseAndExponent<T>>, n: nat, i: nat) {
    && (forall k: nat :: 0 < k < n && Parent(k) != i ==> BelowParent(s, k))
    && (forall k: nat :: 0 < k < n && Parent(k) == i && i > 0 ==> AtMost(s, k, Parent(i)))
  }

  lemma SwapFirst<T>(s: seq<BaseAndExponent<T>>, n: nat)
    requires 0 < n <= |s| && IsHeap(s, n)
    ensures HeapExceptDown(Swapped(s, 0, n - 1), n - 1, 0)
  {
    forall k: nat | 0 < k < n - 1 && Parent(k) != 0
      ensures BelowParent(Swapped(s, 0, n - 1), k)
    {
      assert BelowParent(s, k);
    }
  }

  lemma SwapDown<T>(s: seq<BaseAndExponent<T>>, n: nat, i: nat, child: nat)
    requires child < n <= |s| && child > 0 && Parent(child) == i && HeapExceptDown(s, n, i)
    requires s[i].exponent < s[child].exponent
    requires forall k: nat :: 0 < k < n && Parent(k) == i ==> AtMost(s, k, child)
    ensures HeapExceptDown(Swapped(s, i, child), n, child)
  {
    var t := Swapped(s, i, child);
    forall k: nat | 0 < k < n && Parent(k) != child
      ensures BelowParent(t, k)
    {
      assert Parent(k) != i ==> BelowParent(s, k);
      assert Parent(k) == i ==> AtMost(s, k, child);
      assert i > 0 ==> AtMost(s, child, Parent(i));
    }
    forall k: nat | 0 < k < n && Parent(k) == child
      ensures AtMost(t, k, Parent(child))
    {
      assert BelowParent(s, k);
    }
  }

  lemma HeapSettled<T>(s: seq<BaseAndExponent<T>>, n: nat, i: nat)
    requires i < |s| && n <= |s| && HeapExceptDown(s, n, i)
    requires forall k: nat :: 0 < k < n && Parent(k) == i ==> s[k].exponent <= s[i].exponent
    ensures IsHeap(s, n)
  {
    forall k: nat | 0 < k < n
      ensures BelowParent(s, k)
    {
      if Parent(k) == i { assert s[k].exponent <= s[i].exponent; }
    }
  }

  method PopHeap<T>(a: array<BaseAndExponent<T>>, n: nat)
    requires 0 < n <= a.Length && IsHeap(a[..], n)
    modifies a
    ensures IsHeap(a[..], n - 1)
    ensures a[n - 1] == old(a[0])
    ensures multiset(a[..]) == old(multiset(a[..]))
  {
    hide BelowParent, AtMost;
    SwapFirst(a[..], n);
    Swap(a, 0, n - 1);
    SiftDown(a, n);
  }

  // The first element moves down to where the heap allows it.
  method SiftDown<T>(a: array<BaseAndExponent<T>>, n: nat)
    requires 0 < n <= a.Length && HeapExceptDown(a[..], n - 1, 0)
    modifies a
    ensures IsHeap(a[..], n - 1)
    ensures a[n - 1] == old(a[n - 1])
    ensures multiset(a[..]) == old(multiset(a[..]))
  {
    hide BelowParent;
    var i := 0;
    while 2 * i + 1 < n - 1
      invariant 0 <= i < n
      invariant HeapExceptDown(a[..], n - 1, i)
      invariant a[n - 1] == old(a[n - 1])
      invariant multiset(a[..]) == old(multiset(a[..]))
    {
      var child := 2 * i + 1;
      if child + 1 < n - 1 && a[child].exponent < a[child + 1].exponent {
        child := child + 1;
      }
      assert forall k: nat :: 0 < k < n - 1 && Parent(k) == i ==> AtMost(a[..], k, child);
      if a[child].exponent <= a[i].exponent {
        HeapSettled(a[..], n - 1, i);
        return;
      }
      SwapDown(a[..], n - 1, i, child);
      Swap(a, i, child);
      i := child;
    }
    HeapSettled(a[..], n - 1, i);
  }
}
