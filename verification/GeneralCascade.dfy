/** GeneralCascadeMultiplication of algebra.cpp: a sum of many multiples, by repeatedly dividing the
    largest exponent by the next largest. */
module GeneralCascade {
  import opened Arithmetic
  import opened AbelianGroup
  import opened ExponentHeap
  import Simultaneous = SimultaneousMultiplication
  import Cascade = CascadeMultiplication

  ghost function Term<T>(G: Group<T>, p: BaseAndExponent<T>): T {
    Mul(G, p.exponent, p.base)
  }

  // The sum of exponent * base over the pairs.
  ghost function Total<T>(G: Group<T>, s: seq<BaseAndExponent<T>>): T {
    if s == [] then G.identity else G.add(Total(G, s[..|s| - 1]), Term(G, s[|s| - 1]))
  }

  ghost function ExponentSum<T>(s: seq<BaseAndExponent<T>>): nat {
    if s == [] then 0 else ExponentSum(s[..|s| - 1]) + s[|s| - 1].exponent
  }

  ghost predicate Bounded<T>(G: Group<T>, s: seq<BaseAndExponent<T>>, limit: nat) {
    forall p :: p in s ==> G.contains(p.base) && p.exponent <= limit
  }

  lemma TermContained<T(!new)>(G: Group<T>, p: BaseAndExponent<T>)
    requires IsAbelianGroup(G) && G.contains(p.base)
    ensures G.contains(Term(G, p))
  {
    MulContained(G, p.exponent, p.base);
  }

  lemma {:induction false} TotalContained<T(!new)>(G: Group<T>, s: seq<BaseAndExponent<T>>, limit: nat)
    requires IsAbelianGroup(G) && Bounded(G, s, limit)
    ensures G.contains(Total(G, s))
  {
    assert Laws(G, G.identity, G.identity, G.identity);
    if s != [] {
      var front, last := s[..|s| - 1], s[|s| - 1];
      TotalContained(G, front, limit);
      MulContained(G, last.exponent, last.base);
      assert Laws(G, Total(G, front), Term(G, last), G.identity);
    }
  }

  // ----- The total does not depend on the order -----

  function Without<T>(s: seq<T>, i: nat): seq<T>
    requires i < |s|
  {
    s[..i] + s[i + 1..]
  }

  lemma {:induction false} TotalWithout<T(!new)>(G: Group<T>, s: seq<BaseAndExponent<T>>, i: nat, limit: nat)
    requires IsAbelianGroup(G) && Bounded(G, s, limit) && i < |s|
    ensures Total(G, s) == G.add(Total(G, Without(s, i)), Term(G, s[i]))
    ensures ExponentSum(s) == ExponentSum(Without(s, i)) + s[i].exponent
  {
    hide IsAbelianGroup, Term, Total, ExponentSum;
    var front, last := s[..|s| - 1], s[|s| - 1];
    LastTerm(G, s);
    if i == |s| - 1 {
      assert Without(s, i) == front;
    } else {
      TotalWithout(G, front, i, limit);
      var rest := Without(s, i);
      assert rest[..|rest| - 1] == Without(front, i) && rest[|rest| - 1] == last;
      LastTerm(G, rest);
      TotalContained(G, Without(front, i), limit);
      TermContained(G, s[i]);
      TermContained(G, last);
      SwapLastTwo(G, Total(G, Without(front, i)), Term(G, s[i]), Term(G, last));
    }
  }

  lemma LastTerm<T>(G: Group<T>, s: seq<BaseAndExponent<T>>)
    requires s != []
    ensures Total(G, s) == G.add(Total(G, s[..|s| - 1]), Term(G, s[|s| - 1]))
    ensures ExponentSum(s) == ExponentSum(s[..|s| - 1]) + s[|s| - 1].exponent
  {
  }

  lemma SwapLastTwo<T(!new)>(G: Group<T>, a: T, b: T, c: T)
    requires IsAbelianGroup(G) && G.contains(a) && G.contains(b) && G.contains(c)
    ensures G.add(G.add(a, b), c) == G.add(G.add(a, c), b)
  {
    assert Laws(G, a, b, c) && Laws(G, a, c, b) && Laws(G, b, c, a);
  }

  // A permutation of `s` has the last element of `s` somewhere; the rest is a permutation of the rest.
  lemma FindLast<T>(s: seq<T>, t: seq<T>) returns (i: nat)
    requires s != [] && multiset(s) == multiset(t)
    ensures i < |t| && t[i] == s[|s| - 1]
    ensures multiset(Without(t, i)) == multiset(s[..|s| - 1])
  {
    var front, last := s[..|s| - 1], s[|s| - 1];
    assert s == front + [last];
    assert last in multiset(t);
    i :| 0 <= i < |t| && t[i] == last;
    assert t == t[..i] + [last] + t[i + 1..];
    assert multiset(Without(t, i)) == multiset(t) - multiset{last};
  }

  lemma BoundedOfPermutation<T>(G: Group<T>, s: seq<BaseAndExponent<T>>, t: seq<BaseAndExponent<T>>, limit: nat)
    requires Bounded(G, s, limit) && multiset(s) == multiset(t)
    ensures Bounded(G, t, limit)
  {
    forall p | p in t ensures p in s { assert p in multiset(t); }
  }

  lemma {:induction false} TotalOfPermutation<T(!new)>(G: Group<T>, s: seq<BaseAndExponent<T>>, t: seq<BaseAndExponent<T>>,
                                                       limit: nat)
    requires IsAbelianGroup(G) && Bounded(G, s, limit) && multiset(s) == multiset(t)
    ensures Bounded(G, t, limit) && Total(G, t) == Total(G, s) && ExponentSum(t) == ExponentSum(s)
  {
    hide IsAbelianGroup, Term;
    BoundedOfPermutation(G, s, t, limit);
    if s == [] {
      assert |multiset(t)| == 0;
    } else {
      var i := FindLast(s, t);
      TotalOfPermutation(G, s[..|s| - 1], Without(t, i), limit);
      TotalWithout(G, t, i, limit);
    }
  }

  // ----- One step -----

  // The first pair takes q copies of the last base, the last exponent falls to the remainder: nothing is lost.
  lemma DivideStep<T(!new)>(G: Group<T>, s: seq<BaseAndExponent<T>>, q: nat, r: nat, limit: nat)
    requires IsAbelianGroup(G) && Bounded(G, s, limit) && |s| >= 2
    requires s[|s| - 1].exponent == q * s[0].exponent + r && r < s[0].exponent <= s[|s| - 1].exponent
    ensures var last := s[|s| - 1];
            var t := s[|s| - 1 := BaseAndExponent(last.base, r)]
                      [0 := BaseAndExponent(G.add(s[0].base, Mul(G, q, last.base)), s[0].exponent)];
            && Bounded(G, t, limit) && Total(G, t) == Total(G, s)
            && ExponentSum(t) < ExponentSum(s)
  {
    hide IsAbelianGroup, Mul;
    var n, first, last := |s|, s[0], s[|s| - 1];
    var first' := BaseAndExponent(G.add(first.base, Mul(G, q, last.base)), first.exponent);
    var last' := BaseAndExponent(last.base, r);
    var t := s[n - 1 := last'][0 := first'];
    var mid := s[1..n - 1];
    MulContained(G, q, last.base);
    SumContained(G, first.base, Mul(G, q, last.base));
    TotalWithout(G, s[..n - 1], 0, limit);
    assert Without(s[..n - 1], 0) == mid;
    assert Bounded(G, t, limit);
    TotalWithout(G, t[..n - 1], 0, limit);
    assert Without(t[..n - 1], 0) == mid;
    TotalContained(G, mid, limit);
    RegroupTerms(G, Total(G, mid), first, last, q, r);
  }

  lemma SumContained<T(!new)>(G: Group<T>, a: T, b: T)
    requires IsAbelianGroup(G) && G.contains(a) && G.contains(b)
    ensures G.contains(G.add(a, b))
  {
    assert Laws(G, a, b, a);
  }

  lemma RegroupTerms<T(!new)>(G: Group<T>, m: T, first: BaseAndExponent<T>, last: BaseAndExponent<T>, q: nat, r: nat)
    requires IsAbelianGroup(G) && G.contains(m) && G.contains(first.base) && G.contains(last.base)
    requires last.exponent == q * first.exponent + r
    ensures G.add(G.add(m, Mul(G, first.exponent, G.add(first.base, Mul(G, q, last.base)))), Mul(G, r, last.base))
         == G.add(G.add(m, Term(G, first)), Term(G, last))
  {
    hide IsAbelianGroup, Mul;
    assert Term(G, first) == Mul(G, first.exponent, first.base) && Term(G, last) == Mul(G, last.exponent, last.base);
    hide Term;
    var e := first.exponent;
    var a, b, c := Mul(G, e, first.base), Mul(G, e * q, last.base), Mul(G, r, last.base);
    MulContained(G, q, last.base);
    MulOfSum(G, e, first.base, Mul(G, q, last.base));
    MulOfMul(G, e, q, last.base);
    MulSum(G, e * q, r, last.base);
    assert e * q + r == last.exponent;
    MulContained(G, e, first.base);
    MulContained(G, e * q, last.base);
    MulContained(G, r, last.base);
    Reassociate(G, m, a, b, c);
  }

  lemma Reassociate<T(!new)>(G: Group<T>, m: T, a: T, b: T, c: T)
    requires IsAbelianGroup(G) && G.contains(m) && G.contains(a) && G.contains(b) && G.contains(c)
    ensures G.add(G.add(m, G.add(a, b)), c) == G.add(G.add(m, a), G.add(b, c))
  {
    assert Laws(G, m, a, b) && Laws(G, b, c, a);
    assert Laws(G, G.add(m, a), b, c);
  }

  // Every exponent but the last is zero: the last term is the total.
  lemma {:induction false} OneTermLeft<T(!new)>(G: Group<T>, s: seq<BaseAndExponent<T>>, limit: nat)
    requires IsAbelianGroup(G) && Bounded(G, s, limit) && |s| > 0
    requires forall k :: 0 <= k < |s| - 1 ==> s[k].exponent == 0
    ensures Total(G, s) == Term(G, s[|s| - 1])
  {
    hide IsAbelianGroup;
    var last := s[|s| - 1];
    MulContained(G, last.exponent, last.base);
    AddIdentity(G, Term(G, last));
    if |s| > 1 {
      OneTermLeft(G, s[..|s| - 1], limit);
    }
  }

  lemma AddIdentity<T(!new)>(G: Group<T>, a: T)
    requires IsAbelianGroup(G) && G.contains(a)
    ensures G.add(G.identity, a) == a
  {
    assert Laws(G, a, a, a);
  }

  // ----- The whole cascade -----

  // `limit` bounds every exponent that is handed on to a scalar multiplication; EcpMultiplication, whose scalar
  // multiplication leads back to a cascade, has its recursion end by it.
  method GeneralCascadeMultiplication<T(!new)>(G: Group<T>, range: array<BaseAndExponent<T>>, ghost limit: nat)
    returns (result: T)
    requires IsAbelianGroup(G) && range.Length > 0 && Bounded(G, range[..], limit)
    modifies range
    ensures result == Total(G, old(range[..]))
  {
    hide IsAbelianGroup, Mul;
    var n := range.Length;
    if n == 1 {
      OneTermLeft(G, range[..], limit);
      result := Simultaneous.ScalarMultiply(G, range[0].base, range[0].exponent);
    } else if n == 2 {
      OneTermLeft(G, range[..1], limit);
      assert range[..][..1] == range[..1];
      result := Cascade.CascadeScalarMultiply(G, range[0].base, range[0].exponent, range[1].base, range[1].exponent);
    } else {
      TakeFirst(G, range, limit);
      while range[0].exponent != 0
        invariant Ready(G, range[..], limit)
        invariant Total(G, range[..]) == Total(G, old(range[..]))
        decreases ExponentSum(range[..])
      {
        ReduceLast(G, range, limit);
      }
      LastIsTotal(G, range[..], limit);
      result := Simultaneous.ScalarMultiply(G, range[n - 1].base, range[n - 1].exponent);
    }
  }

  // One turn of the loop: the largest exponent but one divides the largest, the quotient's copies of the base move over.
  method ReduceLast<T(!new)>(G: Group<T>, range: array<BaseAndExponent<T>>, ghost limit: nat)
    requires IsAbelianGroup(G) && range.Length > 1 && Ready(G, range[..], limit) && range[0].exponent != 0
    modifies range
    ensures Ready(G, range[..], limit)
    ensures Total(G, range[..]) == Total(G, old(range[..]))
    ensures ExponentSum(range[..]) < ExponentSum(old(range[..]))
  {
    hide IsAbelianGroup, Mul, Total, ExponentSum;
    var base := range[range.Length - 1].base;
    var q := DivideLast(G, range, limit);
    var copies;
    if q == 1 {
      MulOne(G, base);
      copies := base;
    } else {
      copies := Simultaneous.ScalarMultiply(G, base, q);
    }
    MoveCopies(G, range, copies, old(range[..]), q, limit);
  }

  // The last exponent has fallen to its remainder by the first one.
  ghost predicate Divided<T>(s: seq<BaseAndExponent<T>>, t: seq<BaseAndExponent<T>>, q: nat) {
    && |s| == |t| > 1
    && t == s[|s| - 1 := BaseAndExponent(s[|s| - 1].base, t[|s| - 1].exponent)]
    && s[|s| - 1].exponent == q * s[0].exponent + t[|s| - 1].exponent
    && t[|s| - 1].exponent < s[0].exponent <= s[|s| - 1].exponent
  }

  method DivideLast<T(!new)>(G: Group<T>, range: array<BaseAndExponent<T>>, ghost limit: nat) returns (q: nat)
    requires range.Length > 1 && Ready(G, range[..], limit) && range[0].exponent != 0
    modifies range
    ensures Divided(old(range[..]), range[..], q) && q <= limit
  {
    var last := range.Length - 1;
    ghost var s := range[..];
    assert s[last] in s;
    var t := range[last].exponent;
    DivMod(t, range[0].exponent);
    q := t / range[0].exponent;
    MulAtLeast(q, s[0].exponent);
    range[last] := BaseAndExponent(range[last].base, t % range[0].exponent);
  }

  // The copies of the last base join the first, and the pairs find their places again.
  method MoveCopies<T(!new)>(G: Group<T>, range: array<BaseAndExponent<T>>, copies: T, ghost s: seq<BaseAndExponent<T>>,
                             ghost q: nat, ghost limit: nat)
    requires IsAbelianGroup(G) && Ready(G, s, limit) && Divided(s, range[..], q)
    requires copies == Mul(G, q, s[|s| - 1].base)
    modifies range
    ensures Ready(G, range[..], limit)
    ensures Total(G, range[..]) == Total(G, s) && ExponentSum(range[..]) < ExponentSum(s)
  {
    hide IsAbelianGroup, Mul, Total, ExponentSum;
    var n := range.Length;
    DivideStep(G, s, q, range[n - 1].exponent, limit);
    range[0] := BaseAndExponent(G.add(range[0].base, copies), range[0].exponent);
    assert IsHeap(range[..], n - 1) by { SameExponents(s, range[..], n - 1); }
    ghost var u := range[..];
    PushHeap(range, n);
    TotalOfPermutation(G, u, range[..], limit);
    TakeLargest(G, range, limit);
  }

  // Before the loop.
  method TakeFirst<T(!new)>(G: Group<T>, range: array<BaseAndExponent<T>>, ghost limit: nat)
    requires IsAbelianGroup(G) && range.Length > 1 && Bounded(G, range[..], limit)
    modifies range
    ensures Ready(G, range[..], limit) && Total(G, range[..]) == Total(G, old(range[..]))
  {
    hide IsAbelianGroup, Total, ExponentSum;
    MakeHeap(range);
    TotalOfPermutation(G, old(range[..]), range[..], limit);
    TakeLargest(G, range, limit);
  }

  // After the loop.
  lemma LastIsTotal<T(!new)>(G: Group<T>, s: seq<BaseAndExponent<T>>, limit: nat)
    requires IsAbelianGroup(G) && Ready(G, s, limit) && s[0].exponent == 0
    ensures Total(G, s) == Term(G, s[|s| - 1])
  {
    hide IsAbelianGroup, Total, Term;
    forall k | 0 <= k < |s| - 1
      ensures s[k].exponent == 0
    {
      TopIsLargest(s, |s| - 1, k);
    }
    OneTermLeft(G, s, limit);
  }

  // The last pair has a largest exponent, the first a largest of the others.
  ghost predicate Ready<T>(G: Group<T>, s: seq<BaseAndExponent<T>>, limit: nat) {
    |s| > 1 && Bounded(G, s, limit) && IsHeap(s, |s| - 1) && s[0].exponent <= s[|s| - 1].exponent
  }

  method TakeLargest<T(!new)>(G: Group<T>, range: array<BaseAndExponent<T>>, ghost limit: nat)
    requires IsAbelianGroup(G) && range.Length > 1 && Bounded(G, range[..], limit) && IsHeap(range[..], range.Length)
    modifies range
    ensures Ready(G, range[..], limit)
    ensures Total(G, range[..]) == Total(G, old(range[..])) && ExponentSum(range[..]) == ExponentSum(old(range[..]))
  {
    hide IsAbelianGroup;
    ghost var s := range[..];
    PopHeap(range, range.Length);
    TotalOfPermutation(G, s, range[..], limit);
    assert range[..][0] in multiset(range[..]);
    ghost var k :| 0 <= k < |s| && s[k] == range[0];
    TopIsLargest(s, |s|, k);
  }

  lemma SameExponents<T>(s: seq<BaseAndExponent<T>>, t: seq<BaseAndExponent<T>>, n: nat)
    requires n <= |s| && n <= |t| && IsHeap(s, n)
    requires forall k :: 0 <= k < n ==> s[k].exponent == t[k].exponent
    ensures IsHeap(t, n)
  {
    forall k: nat | 0 < k < n
      ensures BelowParent(t, k)
    {
      assert BelowParent(s, k);
    }
  }
}
