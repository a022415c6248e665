/** Order-preserving selection from sequences, the one list idiom the
    modelled program uses everywhere (`for node in base: if ...: sl.append(node)`). */
module Seqs {
  import opened Results

  /** The elements of `s` satisfying `p`, in their original order. */
  function Select<T(!new)>(s: seq<T>, p: T -> bool): (r: seq<T>)
    ensures |r| <= |s|
    ensures forall x :: x in r <==> x in s && p(x)
    ensures forall i :: 0 <= i < |r| ==> p(r[i])
  {
    if s == [] then [] else (if p(s[0]) then [s[0]] else []) + Select(s[1..], p)
  }

  /** The index of the first element satisfying `p` (the first node a DOM
      search returns), or None. */
  function FindFirst<T>(s: seq<T>, p: T -> bool): (r: Option<nat>)
    ensures r.Some? ==> r.value < |s| && p(s[r.value])
    ensures r.Some? ==> forall j :: 0 <= j < r.value ==> !p(s[j])
    ensures r.None? <==> forall j :: 0 <= j < |s| ==> !p(s[j])
  {
    if s == [] then None
    else if p(s[0]) then Some(0)
    else match FindFirst(s[1..], p)
         case None => None
         case Some(i) => Some(i + 1)
  }

  /** The negation of a test. */
  function Not<T>(p: T -> bool): T -> bool
  {
    x => !p(x)
  }

  /** The conjunction of two tests. */
  function And<T>(p: T -> bool, q: T -> bool): T -> bool
  {
    x => p(x) && q(x)
  }

  /** Elements that satisfy `p` and those that do not together make up `s`. */
  lemma {:induction false} SelectSplit<T(!new)>(s: seq<T>, p: T -> bool)
    ensures |Select(s, p)| + |Select(s, Not(p))| == |s|
    ensures multiset(Select(s, p)) + multiset(Select(s, Not(p))) == multiset(s)
  {
    if s != [] {
      SelectSplit(s[1..], p);
      assert s == [s[0]] + s[1..];
    }
  }

  /** `r` can be obtained from `s` by deleting elements (order is kept). */
  predicate IsSubseq<T(==,!new)>(r: seq<T>, s: seq<T>)
  {
    if r == [] then true
    else if s == [] then false
    else if r[0] == s[0] then IsSubseq(r[1..], s[1..])
    else IsSubseq(r, s[1..])
  }

  /** No element occurs twice. */
  predicate NoDup<T(==,!new)>(s: seq<T>)
  {
    forall i, j :: 0 <= i < j < |s| ==> s[i] != s[j]
  }

  lemma {:induction false} SelectAppend<T(!new)>(a: seq<T>, b: seq<T>, p: T -> bool)
    ensures Select(a + b, p) == Select(a, p) + Select(b, p)
  {
    if a == [] {
      assert a + b == b;
    } else {
      assert (a + b)[0] == a[0];
      assert (a + b)[1..] == a[1..] + b;
      SelectAppend(a[1..], b, p);
    }
  }

  /** Two predicates that agree on the elements of `s` select the same thing. */
  lemma {:induction false} SelectCongruent<T(!new)>(s: seq<T>, p: T -> bool, q: T -> bool)
    requires forall x :: x in s ==> p(x) == q(x)
    ensures Select(s, p) == Select(s, q)
  {
    if s != [] {
      assert forall x :: x in s[1..] ==> x in s;
      SelectCongruent(s[1..], p, q);
    }
  }

  /** Filtering twice is filtering once by the conjunction. */
  lemma {:induction false} SelectSelect<T(!new)>(s: seq<T>, p: T -> bool, q: T -> bool)
    ensures Select(Select(s, p), q) == Select(s, And(p, q))
  {
    if s != [] {
      SelectSelect(s[1..], p, q);
      var head := if p(s[0]) then [s[0]] else [];
      SelectAppend(head, Select(s[1..], p), q);
    }
  }

  /** Selection keeps the whole sequence exactly when every element passes. */
  lemma SelectKeepsAll<T(!new)>(s: seq<T>, p: T -> bool)
    ensures Select(s, p) == s <==> forall i :: 0 <= i < |s| ==> p(s[i])
  {
    if forall i :: 0 <= i < |s| ==> p(s[i]) {
      SelectAllPass(s, p);
    }
  }

  lemma {:induction false} SelectAllPass<T(!new)>(s: seq<T>, p: T -> bool)
    requires forall i :: 0 <= i < |s| ==> p(s[i])
    ensures Select(s, p) == s
  {
    if s != [] {
      assert forall i :: 0 <= i < |s[1..]| ==> p(s[1..][i]) by {
        forall i | 0 <= i < |s[1..]| ensures p(s[1..][i]) { assert s[1..][i] == s[i + 1]; }
      }
      SelectAllPass(s[1..], p);
      assert p(s[0]);
      assert Select(s, p) == [s[0]] + s[1..];
      assert [s[0]] + s[1..] == s;
    }
  }

  lemma {:induction false} SelectIsSubseq<T(!new)>(s: seq<T>, p: T -> bool)
    ensures IsSubseq(Select(s, p), s)
  {
    if s != [] {
      SelectIsSubseq(s[1..], p);
      var rest := Select(s[1..], p);
      if p(s[0]) {
        assert Select(s, p) == [s[0]] + rest;
        assert ([s[0]] + rest)[1..] == rest;
      } else {
        assert Select(s, p) == rest;
        SubseqDropHead(rest, s);
      }
    }
  }

  /** A subsequence of the tail is a subsequence of the whole. */
  lemma {:induction false} SubseqDropHead<T(!new)>(r: seq<T>, s: seq<T>)
    requires s != [] && IsSubseq(r, s[1..])
    ensures IsSubseq(r, s)
    decreases |s|, 0
  {
    if r != [] && r[0] == s[0] {
      SubseqTail(r, s[1..]);
    }
  }

  /** Dropping the first element of a subsequence keeps it a subsequence. */
  lemma {:induction false} SubseqTail<T(!new)>(r: seq<T>, s: seq<T>)
    requires r != [] && IsSubseq(r, s)
    ensures IsSubseq(r[1..], s)
    decreases |s|, 1
  {
    if s == [] {
    } else if r[0] == s[0] {
      SubseqDropHead(r[1..], s);
    } else {
      SubseqTail(r, s[1..]);
      SubseqDropHead(r[1..], s);
    }
  }

  lemma {:induction false} SubseqMembers<T(!new)>(r: seq<T>, s: seq<T>)
    requires IsSubseq(r, s)
    ensures forall x :: x in r ==> x in s
    decreases |s|
  {
    if r != [] && s != [] {
      if r[0] == s[0] {
        SubseqMembers(r[1..], s[1..]);
        assert forall x :: x in r ==> x == r[0] || x in r[1..];
      } else {
        SubseqMembers(r, s[1..]);
      }
    }
  }

  lemma {:induction false} SubseqTransitive<T(!new)>(a: seq<T>, b: seq<T>, c: seq<T>)
    requires IsSubseq(a, b) && IsSubseq(b, c)
    ensures IsSubseq(a, c)
    decreases |c|
  {
    if a == [] {
    } else if c == [] {
    } else if b[0] == c[0] {
      if a[0] == b[0] {
        SubseqTransitive(a[1..], b[1..], c[1..]);
      } else {
        SubseqTransitive(a, b[1..], c[1..]);
        SubseqDropHead(a, c);
      }
    } else {
      SubseqTransitive(a, b, c[1..]);
      SubseqDropHead(a, c);
    }
  }

  /** In a duplicate-free sequence, keeping exactly the members of one of
      its subsequences gives back that subsequence. */
  lemma {:induction false} SelectMembersOfSubseq<T(!new)>(r: seq<T>, s: seq<T>)
    requires NoDup(s) && IsSubseq(r, s)
    ensures Select(s, x => x in r) == r
    decreases |s|
  {
    if s == [] {
    } else {
      assert NoDup(s[1..]) by {
        forall i, j | 0 <= i < j < |s[1..]| ensures s[1..][i] != s[1..][j] {
          assert s[1..][i] == s[i + 1] && s[1..][j] == s[j + 1];
        }
      }
      assert s[0] !in s[1..] by {
        forall k | 0 <= k < |s[1..]| ensures s[1..][k] != s[0] {
          assert s[1..][k] == s[k + 1];
        }
      }
      if r != [] && r[0] == s[0] {
        SubseqMembers(r[1..], s[1..]);
        assert forall x :: x in s[1..] ==> ((x in r) == (x in r[1..])) by {
          assert forall x :: x in r <==> x == r[0] || x in r[1..];
        }
        SelectCongruent(s[1..], x => x in r, x => x in r[1..]);
        SelectMembersOfSubseq(r[1..], s[1..]);
        assert r == [r[0]] + r[1..];
      } else {
        if r != [] {
          assert IsSubseq(r, s[1..]);
        }
        SubseqMembers(r, s[1..]);
        assert s[0] !in r;
        SelectMembersOfSubseq(r, s[1..]);
      }
    }
  }
}
