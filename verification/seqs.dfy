/** Order-preserving queries over a collection held as a sequence in its
    natural order: the shape of `find(predicate)`, `findById` and
    `findByIdAndDelete` on a document collection. */
module Seqs {
  import opened Common

  /** The elements of `s` satisfying `p`, in their original order. */
  function Filter<T(!new)>(s: seq<T>, p: T -> bool): (r: seq<T>)
    ensures |r| <= |s|
    ensures forall i :: 0 <= i < |r| ==> p(r[i])
    ensures forall x :: multiset(r)[x] == if p(x) then multiset(s)[x] else 0
    decreases |s|
  {
    if s == [] then []
    else
      var rest := Filter(s[1..], p);
      assert s == [s[0]] + s[1..];
      if p(s[0]) then [s[0]] + rest else rest
  }

  /** Membership in a filtered sequence, read off the multiset contract. */
  lemma FilterMembership<T(!new)>(s: seq<T>, p: T -> bool, x: T)
    ensures x in Filter(s, p) <==> x in s && p(x)
  {
    var r := Filter(s, p);
    assert x in r <==> multiset(r)[x] > 0;
    assert x in s <==> multiset(s)[x] > 0;
  }

  /** The first element of `s` satisfying `p`: what `findById` returns. */
  function FindFirst<T>(s: seq<T>, p: T -> bool): (r: Option<T>)
    ensures r.None? <==> forall i :: 0 <= i < |s| ==> !p(s[i])
    ensures r.Some? ==> exists i :: 0 <= i < |s| && s[i] == r.value && p(s[i])
                                   && forall j :: 0 <= j < i ==> !p(s[j])
    decreases |s|
  {
    if s == [] then None
    else if p(s[0]) then Some(s[0])
    else
      var r := FindFirst(s[1..], p);
      if r.Some? then
        ghost var i :| 0 <= i < |s[1..]| && s[1..][i] == r.value && p(s[1..][i])
                       && forall j :: 0 <= j < i ==> !p(s[1..][j]);
        assert s[i + 1] == r.value;
        assert forall j :: 0 <= j < i + 1 ==> !p(s[j]) by {
          forall j | 0 <= j < i + 1 ensures !p(s[j]) {
            if j > 0 { assert s[j] == s[1..][j - 1]; }
          }
        }
        r
      else r
  }

  /** Every element of `s` satisfying `p` replaced by `x`, positions kept. */
  function ReplaceWhere<T>(s: seq<T>, p: T -> bool, x: T): (r: seq<T>)
    ensures |r| == |s|
    ensures forall i :: 0 <= i < |s| ==> r[i] == if p(s[i]) then x else s[i]
  {
    seq(|s|, i requires 0 <= i < |s| => if p(s[i]) then x else s[i])
  }

  /** Filtering out the one element that fails `p` splices it out. */
  lemma {:induction false} FilterRemovesOne<T(!new)>(s: seq<T>, p: T -> bool, i: int)
    requires 0 <= i < |s| && !p(s[i])
    requires forall j :: 0 <= j < |s| && j != i ==> p(s[j])
    ensures Filter(s, p) == s[..i] + s[i + 1..]
    decreases |s|
  {
    var t := s[1..];
    FilterCons(s, p);
    if i == 0 {
      TailAllSatisfy(s, p);
      FilterKeepsAll(t, p);
    } else {
      TailAllButOneSatisfy(s, p, i);
      FilterRemovesOne(t, p, i - 1);
      SpliceCons(s, i);
    }
  }

  lemma TailAllSatisfy<T>(s: seq<T>, p: T -> bool)
    requires |s| > 0
    requires forall j :: 0 < j < |s| ==> p(s[j])
    ensures forall j :: 0 <= j < |s[1..]| ==> p(s[1..][j])
  {
    forall j | 0 <= j < |s[1..]| ensures p(s[1..][j]) {
      assert s[1..][j] == s[j + 1];
    }
  }

  lemma TailAllButOneSatisfy<T>(s: seq<T>, p: T -> bool, i: int)
    requires 0 < i < |s|
    requires forall j :: 0 <= j < |s| && j != i ==> p(s[j])
    ensures forall j :: 0 <= j < |s[1..]| && j != i - 1 ==> p(s[1..][j])
  {
    forall j | 0 <= j < |s[1..]| && j != i - 1 ensures p(s[1..][j]) {
      assert s[1..][j] == s[j + 1];
    }
  }

  /** Splicing position `i > 0` out of `s` keeps the head in front. */
  lemma SpliceCons<T>(s: seq<T>, i: int)
    requires 0 < i < |s|
    ensures s[..i] + s[i + 1..] == [s[0]] + (s[1..][..i - 1] + s[1..][i..])
  {
    assert s[1..][..i - 1] == s[1..i];
    assert s[1..][i..] == s[i + 1..];
    assert s[..i] == [s[0]] + s[1..i];
  }

  /** One step of the filter: the head is kept exactly when it satisfies `p`. */
  lemma FilterCons<T(!new)>(s: seq<T>, p: T -> bool)
    requires |s| > 0
    ensures Filter(s, p) == if p(s[0]) then [s[0]] + Filter(s[1..], p) else Filter(s[1..], p)
  {
  }

  /** Filtering with a predicate every element satisfies changes nothing. */
  lemma {:induction false} FilterKeepsAll<T(!new)>(s: seq<T>, p: T -> bool)
    requires forall j :: 0 <= j < |s| ==> p(s[j])
    ensures Filter(s, p) == s
    decreases |s|
  {
    if s != [] {
      FilterKeepsAll(s[1..], p);
      assert s == [s[0]] + s[1..];
    }
  }
}
