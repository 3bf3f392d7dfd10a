/**
  The order in which the store lists its keys: strict lexicographic order on
  strings, comparing characters by code point (the order of a sorted list of
  str keys), together with an insertion sort that produces the strictly
  increasing sequence of a finite set of keys.
 */
module KeyOrder {

  /** `a` sorts strictly before `b`: a proper prefix comes first, otherwise the
      first differing character decides. */
  predicate Less(a: string, b: string)
    decreases |a|
  {
    0 < |b| && (|a| == 0 || a[0] < b[0] || (a[0] == b[0] && Less(a[1..], b[1..])))
  }

  lemma {:induction false} LessIrreflexive(a: string)
    ensures !Less(a, a)
    decreases |a|
  {
    if 0 < |a| {
      LessIrreflexive(a[1..]);
    }
  }

  lemma {:induction false} LessTransitive(a: string, b: string, c: string)
    requires Less(a, b) && Less(b, c)
    ensures Less(a, c)
    decreases |a|
  {
    if 0 < |a| && a[0] == b[0] && b[0] == c[0] {
      LessTransitive(a[1..], b[1..], c[1..]);
    }
  }

  /** Any two distinct keys are ordered one way or the other. */
  lemma {:induction false} LessTotal(a: string, b: string)
    requires a != b
    ensures Less(a, b) || Less(b, a)
    decreases |a|
  {
    if 0 < |a| && 0 < |b| && a[0] == b[0] {
      assert a == [a[0]] + a[1..] && b == [b[0]] + b[1..];
      LessTotal(a[1..], b[1..]);
    }
  }

  /** Every key is strictly below every later key, so no key repeats. */
  ghost predicate StrictlySorted(r: seq<string>) {
    forall i, j :: 0 <= i < j < |r| ==> Less(r[i], r[j])
  }

  lemma StrictlySortedDistinct(r: seq<string>, i: int, j: int)
    requires StrictlySorted(r)
    requires 0 <= i < |r| && 0 <= j < |r| && i != j
    ensures r[i] != r[j]
  {
    if i < j {
      LessIrreflexive(r[i]);
    } else {
      LessIrreflexive(r[j]);
    }
  }

  /** Inserts a new key into a strictly sorted sequence at its place. */
  function Insert(r: seq<string>, x: string): (r': seq<string>)
    requires StrictlySorted(r) && x !in r
    ensures StrictlySorted(r')
    ensures forall y :: y in r' <==> y in r || y == x
    ensures |r'| == |r| + 1
    decreases |r|
  {
    if |r| == 0 then
      [x]
    else if Less(x, r[0]) then
      InsertFrontSorted(r, x);
      [x] + r
    else
      LessTotal(x, r[0]);
      var tail := Insert(r[1..], x);
      InsertBehindSorted(r, x, tail);
      [r[0]] + tail
  }

  lemma InsertFrontSorted(r: seq<string>, x: string)
    requires StrictlySorted(r) && 0 < |r| && Less(x, r[0])
    ensures StrictlySorted([x] + r)
  {
    forall j | 0 < j < |r|
      ensures Less(x, r[j])
    {
      LessTransitive(x, r[0], r[j]);
    }
  }

  lemma InsertBehindSorted(r: seq<string>, x: string, tail: seq<string>)
    requires StrictlySorted(r) && 0 < |r| && Less(r[0], x)
    requires StrictlySorted(tail)
    requires forall y :: y in tail <==> y in r[1..] || y == x
    ensures StrictlySorted([r[0]] + tail)
  {
    forall j | 0 <= j < |tail|
      ensures Less(r[0], tail[j])
    {
      assert tail[j] in tail;
    }
  }

  /** The keys of `ks` in strictly increasing order. */
  method SortKeys(ks: set<string>) returns (r: seq<string>)
    ensures StrictlySorted(r)
    ensures forall k :: k in r <==> k in ks
  {
    r := [];
    var rest := ks;
    while rest != {}
      invariant rest <= ks
      invariant StrictlySorted(r)
      invariant forall k :: k in r <==> k in ks && k !in rest
      decreases rest
    {
      var x :| x in rest;
      r := Insert(r, x);
      rest := rest - {x};
    }
  }
}
