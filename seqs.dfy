/** Order-preserving sequence helpers shared by both build scripts. */
module Seqs {

  /** `Array.prototype.filter`: the elements satisfying `keep`, in their original order. */
  function Filter<T(!new)>(s: seq<T>, keep: T -> bool): (r: seq<T>)
    ensures |r| <= |s|
    ensures forall x :: x in r <==> x in s && keep(x)
    decreases |s|
  {
    if |s| == 0 then []
    else (if keep(s[0]) then [s[0]] else []) + Filter(s[1..], keep)
  }

  /** Filtering distributes over concatenation, so the relative order of kept elements is preserved. */
  lemma {:induction false} FilterAppend<T(!new)>(a: seq<T>, b: seq<T>, keep: T -> bool)
    ensures Filter(a + b, keep) == Filter(a, keep) + Filter(b, keep)
    decreases |a|
  {
    if |a| == 0 {
      assert a + b == b;
    } else {
      assert (a + b)[0] == a[0];
      assert (a + b)[1..] == a[1..] + b;
      FilterAppend(a[1..], b, keep);
    }
  }

  /** The filter of a single element is that element or nothing. */
  lemma FilterSingleton<T(!new)>(x: T, keep: T -> bool)
    ensures Filter([x], keep) == if keep(x) then [x] else []
  {
    assert [x][1..] == [];
  }

  /** Elements rejected by the filter do not influence its result, wherever they sit. */
  lemma FilterSkipsRejected<T(!new)>(a: seq<T>, x: T, b: seq<T>, keep: T -> bool)
    requires !keep(x)
    ensures Filter(a + [x] + b, keep) == Filter(a + b, keep)
  {
    FilterAppend(a + [x], b, keep);
    FilterAppend(a, [x], keep);
    FilterSingleton(x, keep);
    FilterAppend(a, b, keep);
  }

  /** The index of the first element failing `ok` (|s| when all pass), the point where a
      loop with an early exit stops. */
  function FirstFailing<T>(s: seq<T>, ok: T -> bool): (k: nat)
    ensures k <= |s|
    ensures forall j | 0 <= j < k :: ok(s[j])
    ensures k < |s| ==> !ok(s[k])
    decreases |s|
  {
    if |s| == 0 then 0
    else if !ok(s[0]) then 0
    else 1 + FirstFailing(s[1..], ok)
  }

  /** The three facts of `FirstFailing`'s contract pin it down: any index with them is it. */
  lemma FirstFailingIsUnique<T>(s: seq<T>, ok: T -> bool, k: nat)
    requires k <= |s|
    requires forall j | 0 <= j < k :: ok(s[j])
    requires k < |s| ==> !ok(s[k])
    ensures FirstFailing(s, ok) == k
  {
  }
}
