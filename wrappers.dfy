/** An optional value, Python's `None` or a present value, and sequences of them. */
module Wrappers {

  datatype Option<T> = None | Some(value: T)

  /** The values present in `opts`, in order: a list built by appending only the present ones. */
  function Somes<T>(opts: seq<Option<T>>): (vs: seq<T>)
    ensures |vs| <= |opts|
  {
    if opts == [] then []
    else
      var front := Somes(opts[..|opts| - 1]);
      match opts[|opts| - 1]
      case None => front
      case Some(v) => front + [v]
  }

  /** The indices at which `opts` holds a value, in increasing order. */
  function Positions<T>(opts: seq<Option<T>>): seq<nat> {
    if opts == [] then []
    else
      var front := Positions(opts[..|opts| - 1]);
      if opts[|opts| - 1].Some? then front + [|opts| - 1] else front
  }

  /**
   * `Somes` keeps order and drops nothing but absent values: value `k` is
   * found at index `Positions(opts)[k]`, the indices increase, and every
   * present value's index is among them.
   */
  lemma {:induction false} PositionsSpec<T>(opts: seq<Option<T>>)
    ensures |Positions(opts)| == |Somes(opts)|
    ensures forall k :: 0 <= k < |Positions(opts)| ==>
      Positions(opts)[k] < |opts| && opts[Positions(opts)[k]] == Some(Somes(opts)[k])
    ensures forall k, m :: 0 <= k < m < |Positions(opts)| ==> Positions(opts)[k] < Positions(opts)[m]
    ensures forall j :: 0 <= j < |opts| && opts[j].Some? ==> j in Positions(opts)
  {
    if opts != [] {
      var n := |opts| - 1;
      var front := opts[..n];
      PositionsSpec(front);
      assert forall j :: 0 <= j < n ==> opts[j] == front[j];
    }
  }

  /** Keeping the present values of a concatenation keeps those of each part in turn. */
  lemma {:induction false} SomesAppend<T>(a: seq<Option<T>>, b: seq<Option<T>>)
    ensures Somes(a + b) == Somes(a) + Somes(b)
    decreases |b|
  {
    if b == [] {
      assert a + b == a;
    } else {
      var b' := b[..|b| - 1];
      assert (a + b)[..|a + b| - 1] == a + b';
      SomesAppend(a, b');
    }
  }
}

