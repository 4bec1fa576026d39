/** The "keep what a per-element parser accepts" pattern used by the parsing
    loops (`for x in xs: ... if ok: out.append(y)`). */
module Seqs {
  import opened Wrappers

  function OptionToSeq<T>(o: Option<T>): seq<T> {
    if o.Some? then [o.value] else []
  }

  /** The results `f` accepts, in the order of `xs`. */
  function FilterMap<T, U>(f: T -> Option<U>, xs: seq<T>): seq<U> {
    if xs == [] then []
    else FilterMap(f, xs[..|xs| - 1]) + OptionToSeq(f(xs[|xs| - 1]))
  }

  /** The positions of `xs` that `f` accepts, in increasing order. */
  function Accepted<T, U>(f: T -> Option<U>, xs: seq<T>): (idx: seq<nat>)
    ensures forall k :: 0 <= k < |idx| ==> idx[k] < |xs|
    ensures forall k, l :: 0 <= k < l < |idx| ==> idx[k] < idx[l]
  {
    if xs == [] then []
    else Accepted(f, xs[..|xs| - 1]) + (if f(xs[|xs| - 1]).Some? then [|xs| - 1] else [])
  }

  /** The k-th result is what `f` returns for the k-th accepted element, and
      exactly the accepted elements contribute: order is kept and no element
      contributes twice. */
  lemma {:induction false} FilterMapAccepted<T, U>(f: T -> Option<U>, xs: seq<T>)
    ensures |FilterMap(f, xs)| == |Accepted(f, xs)|
    ensures forall k :: 0 <= k < |FilterMap(f, xs)| ==>
              f(xs[Accepted(f, xs)[k]]) == Some(FilterMap(f, xs)[k])
    ensures forall j :: 0 <= j < |xs| ==> (f(xs[j]).Some? <==> j in Accepted(f, xs))
  {
    if xs != [] {
      FilterMapAccepted(f, xs[..|xs| - 1]);
      FilterMapAcceptedStep(f, xs);
    }
  }

  lemma FilterMapAcceptedStep<T, U>(f: T -> Option<U>, xs: seq<T>)
    requires xs != []
    requires var init := xs[..|xs| - 1];
             && |FilterMap(f, init)| == |Accepted(f, init)|
             && (forall k :: 0 <= k < |FilterMap(f, init)| ==>
                   f(init[Accepted(f, init)[k]]) == Some(FilterMap(f, init)[k]))
             && (forall j :: 0 <= j < |init| ==> (f(init[j]).Some? <==> j in Accepted(f, init)))
    ensures |FilterMap(f, xs)| == |Accepted(f, xs)|
    ensures forall k :: 0 <= k < |FilterMap(f, xs)| ==>
              f(xs[Accepted(f, xs)[k]]) == Some(FilterMap(f, xs)[k])
    ensures forall j :: 0 <= j < |xs| ==> (f(xs[j]).Some? <==> j in Accepted(f, xs))
  {
    var init, last := xs[..|xs| - 1], xs[|xs| - 1];
    var fm, ac := FilterMap(f, init), Accepted(f, init);
    var fm', ac' := FilterMap(f, xs), Accepted(f, xs);
    var extra := if f(last).Some? then [|init|] else [];
    assert fm' == fm + OptionToSeq(f(last));
    assert ac' == ac + extra;
    forall k | 0 <= k < |fm'| ensures f(xs[ac'[k]]) == Some(fm'[k]) {
      if k < |fm| {
        assert fm'[k] == fm[k] && ac'[k] == ac[k] && xs[ac[k]] == init[ac[k]];
      }
    }
    forall j | 0 <= j < |xs| ensures f(xs[j]).Some? <==> j in ac' {
      if j < |init| {
        assert xs[j] == init[j];
        assert j in ac' <==> j in ac;
      } else {
        assert j !in ac;
      }
    }
  }

  /** One more element of a prefix adds its own result, if any. */
  lemma FilterMapPrefix<T, U>(f: T -> Option<U>, xs: seq<T>, i: nat)
    requires i < |xs|
    ensures FilterMap(f, xs[..i + 1]) == FilterMap(f, xs[..i]) + OptionToSeq(f(xs[i]))
  {
    assert xs[..i + 1][..i] == xs[..i];
  }

  /** At most one result per element. */
  lemma {:induction false} FilterMapLength<T, U>(f: T -> Option<U>, xs: seq<T>)
    ensures |FilterMap(f, xs)| <= |xs|
  {
    if xs != [] {
      FilterMapLength(f, xs[..|xs| - 1]);
    }
  }

  /** Filtering distributes over concatenation. */
  lemma {:induction false} FilterMapAppend<T, U>(f: T -> Option<U>, a: seq<T>, b: seq<T>)
    ensures FilterMap(f, a + b) == FilterMap(f, a) + FilterMap(f, b)
  {
    if b == [] {
      assert a + b == a;
    } else {
      var init, last := b[..|b| - 1], b[|b| - 1];
      FilterMapAppend(f, a, init);
      assert (a + b)[..|a + b| - 1] == a + init && (a + b)[|a + b| - 1] == last;
      assert FilterMap(f, a + b) == FilterMap(f, a + init) + OptionToSeq(f(last));
      assert FilterMap(f, b) == FilterMap(f, init) + OptionToSeq(f(last));
    }
  }

  /** Every result satisfies whatever `f` guarantees of its results. */
  lemma {:induction false} FilterMapAll<T, U>(f: T -> Option<U>, xs: seq<T>, p: U -> bool)
    requires forall x :: f(x).Some? ==> p(f(x).value)
    ensures forall k :: 0 <= k < |FilterMap(f, xs)| ==> p(FilterMap(f, xs)[k])
  {
    if xs != [] {
      FilterMapAll(f, xs[..|xs| - 1], p);
    }
  }

}
