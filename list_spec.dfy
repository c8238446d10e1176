/**
  Value-level meaning of the operations of the linked list: each function
  below gives the contents of the list after one operation, as a function of
  the contents before it. The class in linked_list.dfy is proved against them.
 */
module ListSpec {

  /** The sequence with its first element equal to `t` taken out (`remove`);
      the sequence itself when no element equals `t`. */
  function WithoutFirst<T(==)>(s: seq<T>, t: T): (r: seq<T>)
    ensures |r| == if t in s then |s| - 1 else |s|
  {
    if s == [] then []
    else if s[0] == t then s[1..]
    else [s[0]] + WithoutFirst(s[1..], t)
  }

  /** Removing the first occurrence cuts out exactly the element at its index. */
  lemma {:induction false} WithoutFirstAt<T>(s: seq<T>, t: T, k: nat)
    requires k < |s| && s[k] == t && t !in s[..k]
    ensures WithoutFirst(s, t) == s[..k] + s[k + 1..]
  {
    if k == 0 {
    } else {
      assert s[0] != t by { assert s[0] == s[..k][0]; }
      assert t !in s[1..][..k - 1] by { assert s[1..][..k - 1] == s[..k][1..]; }
      WithoutFirstAt(s[1..], t, k - 1);
      assert s[..k] == [s[0]] + s[1..][..k - 1];
      assert s[k + 1..] == s[1..][k..];
    }
  }

  /** Nothing is removed when no element equals `t`. */
  lemma {:induction false} WithoutFirstAbsent<T>(s: seq<T>, t: T)
    requires t !in s
    ensures WithoutFirst(s, t) == s
  {
    if s != [] {
      assert t !in s[1..];
      WithoutFirstAbsent(s[1..], t);
    }
  }

  /** `remove` takes away one copy of `t` and nothing else. */
  lemma {:induction false} WithoutFirstMultiset<T>(s: seq<T>, t: T)
    ensures multiset(WithoutFirst(s, t)) == multiset(s) - multiset{t}
  {
    if s == [] {
    } else {
      assert s == [s[0]] + s[1..];
      if s[0] != t {
        WithoutFirstMultiset(s[1..], t);
      }
    }
  }

  /** The sequence with every element equal to `t` taken out, survivors in
      their original order (`remove_all`). */
  function Without<T(==)>(s: seq<T>, t: T): (r: seq<T>)
    ensures |r| <= |s|
  {
    if s == [] then []
    else if s[0] == t then Without(s[1..], t)
    else [s[0]] + Without(s[1..], t)
  }

  lemma {:induction false} WithoutAppend<T>(a: seq<T>, b: seq<T>, t: T)
    ensures Without(a + b, t) == Without(a, t) + Without(b, t)
  {
    if a == [] {
      assert a + b == b;
    } else {
      assert (a + b)[1..] == a[1..] + b;
      WithoutAppend(a[1..], b, t);
    }
  }

  /** No element equal to `t` survives, and every other element keeps its
      number of occurrences. */
  lemma {:induction false} WithoutMultiset<T>(s: seq<T>, t: T)
    ensures multiset(Without(s, t)) == multiset(s)[t := 0]
  {
    if s == [] {
    } else {
      assert s == [s[0]] + s[1..];
      WithoutMultiset(s[1..], t);
    }
  }

  /** `Without` leaves a sequence unchanged exactly when `t` does not occur in it. */
  lemma {:induction false} WithoutIdentity<T>(s: seq<T>, t: T)
    ensures Without(s, t) == s <==> t !in s
  {
    WithoutMultiset(s, t);
    if t in s {
      assert multiset(Without(s, t))[t] == 0 < multiset(s)[t];
    } else if s != [] {
      assert t !in s[1..];
      WithoutIdentity(s[1..], t);
    }
  }

  /** Dropping one element equal to `t` does not change what survives `Without`. */
  lemma {:induction false} WithoutDropHit<T>(s: seq<T>, t: T, i: nat)
    requires i < |s| && s[i] == t
    ensures Without(s[..i] + s[i + 1..], t) == Without(s, t)
  {
    assert s == s[..i] + ([s[i]] + s[i + 1..]);
    WithoutAppend(s[..i], [s[i]] + s[i + 1..], t);
    WithoutAppend(s[..i], s[i + 1..], t);
  }

  /** The sequence in the opposite order (`reverse`). */
  function Reversed<T>(s: seq<T>): (r: seq<T>)
    ensures |r| == |s|
  {
    if s == [] then [] else Reversed(s[1..]) + [s[0]]
  }

  lemma {:induction false} ReversedAt<T>(s: seq<T>, k: nat)
    requires k < |s|
    ensures Reversed(s)[k] == s[|s| - 1 - k]
  {
    if k < |s| - 1 {
      ReversedAt(s[1..], k);
    }
  }

  /** Reversing twice gives back the original order. */
  lemma {:induction false} ReversedTwice<T>(s: seq<T>)
    ensures Reversed(Reversed(s)) == s
  {
    forall k | 0 <= k < |s|
      ensures Reversed(Reversed(s))[k] == s[k]
    {
      ReversedAt(Reversed(s), k);
      ReversedAt(s, |s| - 1 - k);
    }
  }

  /** The sequence cut to length `n`, or padded to length `n` with `fill` (`resize`). */
  function Resized<T>(s: seq<T>, n: nat, fill: T): (r: seq<T>)
    ensures |r| == n
    ensures forall i :: 0 <= i < n && i < |s| ==> r[i] == s[i]
    ensures forall i :: |s| <= i < n ==> r[i] == fill
  {
    if n <= |s| then s[..n] else s + seq(n - |s|, _ => fill)
  }
}
