/**
 * The source-B loader, the lookup loop and the export loop are each a single
 * pass over their input rows that emits zero or one output row per input row,
 * appending to an output list. (The cover stage rewrites its rows in place and
 * does not use this shape.) This module gives that shape once, with the
 * positions of the inputs that survive.
 */
module Selection {
  import opened Wrappers

  /** What one step appends to the output list. */
  function Emit<U>(o: Option<U>): (r: seq<U>)
    ensures o.None? ==> r == []
    ensures o.Some? ==> r == [o.value]
  {
    if o.Some? then [o.value] else []
  }

  /** The outputs of `f` over `s`, in input order, dropping the `None`s. */
  function FilterMap<T, U>(s: seq<T>, f: T --> Option<U>): (r: seq<U>)
    requires forall i :: 0 <= i < |s| ==> f.requires(s[i])
    ensures |r| <= |s|
    decreases |s|
  {
    if s == [] then []
    else FilterMap(s[..|s| - 1], f) + Emit(f(s[|s| - 1]))
  }

  /** The positions of `s` at which `f` gives a value, in increasing order. */
  function Kept<T, U>(s: seq<T>, f: T --> Option<U>): (idx: seq<nat>)
    requires forall i :: 0 <= i < |s| ==> f.requires(s[i])
    decreases |s|
  {
    if s == [] then []
    else Kept(s[..|s| - 1], f) + if f(s[|s| - 1]).Some? then [|s| - 1] else []
  }

  /** One more input appends its step's output, if any. */
  lemma FilterMapSnoc<T, U>(s: seq<T>, x: T, f: T --> Option<U>)
    requires forall i :: 0 <= i < |s| ==> f.requires(s[i])
    requires f.requires(x)
    ensures FilterMap(s + [x], f) == FilterMap(s, f) + Emit(f(x))
  {
    assert (s + [x])[..|s|] == s;
  }

  /**
   * The output is order-preserving: its k-th element is what `f` gives at the
   * k-th surviving position, the surviving positions increase, and a position
   * survives exactly when `f` gives a value there.
   */
  lemma {:induction false} FilterMapInOrder<T, U>(s: seq<T>, f: T --> Option<U>)
    requires forall i :: 0 <= i < |s| ==> f.requires(s[i])
    ensures |Kept(s, f)| == |FilterMap(s, f)|
    ensures forall k :: 0 <= k < |Kept(s, f)| ==>
      Kept(s, f)[k] < |s| && f(s[Kept(s, f)[k]]) == Some(FilterMap(s, f)[k])
    ensures forall k, l :: 0 <= k < l < |Kept(s, f)| ==> Kept(s, f)[k] < Kept(s, f)[l]
    ensures forall i :: 0 <= i < |s| ==> (f(s[i]).Some? <==> i in Kept(s, f))
    decreases |s|
  {
    if s != [] {
      var n := |s| - 1;
      var init := s[..n];
      FilterMapInOrder(init, f);
      assert forall i :: 0 <= i < n ==> init[i] == s[i];
      var idx, r := Kept(s, f), FilterMap(s, f);
      assert idx == Kept(init, f) + if f(s[n]).Some? then [n] else [];
      assert r == FilterMap(init, f) + Emit(f(s[n]));
      forall i | 0 <= i < |s|
        ensures f(s[i]).Some? <==> i in idx
      {
        if i < n {
          assert i in Kept(init, f) <==> i in idx;
        }
      }
    }
  }
}
