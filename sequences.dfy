/** Swift array helpers: `first` and `compactMap`. */
module Sequences {
  import opened Wrappers

  /** `xs.first`. */
  function First<T>(xs: seq<T>): (r: Option<T>)
    ensures r.Some? <==> xs != []
    ensures r.Some? ==> r.value == xs[0]
  {
    if xs == [] then None else Some(xs[0])
  }

  /** `xs?.first` on an optional array. */
  function FirstOf<T>(xs: Option<seq<T>>): Option<T>
  {
    if xs.Some? then First(xs.value) else None
  }

  /** `xs.compactMap(f)`: the non-nil results of `f`, in the order of `xs`. */
  function CompactMap<A, B>(xs: seq<A>, f: A -> Option<B>): (r: seq<B>)
    ensures |r| <= |xs|
  {
    if xs == [] then []
    else (if f(xs[0]).Some? then [f(xs[0]).value] else []) + CompactMap(xs[1..], f)
  }

  /** compactMap distributes over concatenation. */
  lemma {:induction false} CompactMapAppend<A, B>(xs: seq<A>, ys: seq<A>, f: A -> Option<B>)
    ensures CompactMap(xs + ys, f) == CompactMap(xs, f) + CompactMap(ys, f)
  {
    if xs == [] {
      assert xs + ys == ys;
    } else {
      var head := if f(xs[0]).Some? then [f(xs[0]).value] else [];
      assert (xs + ys)[0] == xs[0];
      assert (xs + ys)[1..] == xs[1..] + ys;
      calc {
        CompactMap(xs + ys, f);
        head + CompactMap(xs[1..] + ys, f);
        { CompactMapAppend(xs[1..], ys, f); }
        head + (CompactMap(xs[1..], f) + CompactMap(ys, f));
        (head + CompactMap(xs[1..], f)) + CompactMap(ys, f);
      }
    }
  }

  /** When `f` never yields nil, compactMap is a plain map: one output per input, in order. */
  lemma {:induction false} CompactMapTotal<A, B>(xs: seq<A>, f: A -> Option<B>)
    requires forall i | 0 <= i < |xs| :: f(xs[i]).Some?
    ensures |CompactMap(xs, f)| == |xs|
    ensures forall i | 0 <= i < |xs| :: CompactMap(xs, f)[i] == f(xs[i]).value
  {
    if xs != [] {
      CompactMapTotal(xs[1..], f);
    }
  }

  /** Every output of compactMap is the image of some input. */
  lemma {:induction false} CompactMapFrom<A, B>(xs: seq<A>, f: A -> Option<B>, k: nat)
    requires k < |CompactMap(xs, f)|
    ensures exists i | 0 <= i < |xs| :: f(xs[i]) == Some(CompactMap(xs, f)[k])
  {
    if f(xs[0]).Some? && k == 0 {
      assert f(xs[0]) == Some(CompactMap(xs, f)[0]);
    } else {
      var k' := if f(xs[0]).Some? then k - 1 else k;
      CompactMapFrom(xs[1..], f, k');
      var i :| 0 <= i < |xs[1..]| && f(xs[1..][i]) == Some(CompactMap(xs[1..], f)[k']);
      assert f(xs[i + 1]) == Some(CompactMap(xs, f)[k]);
    }
  }

  /** A single input contributes its image when it has one and nothing otherwise. */
  lemma CompactMapSingle<A, B>(x: A, f: A -> Option<B>)
    ensures CompactMap([x], f) == if f(x).Some? then [f(x).value] else []
  {
    assert [x][1..] == [];
  }
}
