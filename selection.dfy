/**
 * The shape shared by the page object's extraction loops: walk rows in
 * order, skip the rows that yield no record, append the record of every
 * other row. FilterMap is that loop as a function; KeptIndices names the
 * rows it keeps, and FilterMapExact proves that the result is exactly the
 * records of those rows, in row order.
 */
module Selection {
  import opened Wrappers

  /** The one-element list of a present value, the empty list otherwise. */
  function OptionList<U>(o: Option<U>): (s: seq<U>)
    ensures |s| <= 1
    ensures o.Some? <==> |s| == 1
    ensures o.Some? ==> s == [o.value]
  {
    match o
    case None => []
    case Some(y) => [y]
  }

  /** The records `f` gives for the elements of `xs`, in order, with the
      elements that give None skipped. */
  function FilterMap<T, U>(xs: seq<T>, f: T -> Option<U>): (ys: seq<U>)
    ensures |ys| <= |xs|
  {
    if xs == [] then [] else FilterMap(xs[..|xs| - 1], f) + OptionList(f(xs[|xs| - 1]))
  }

  /** The positions of the elements of `xs` that give a record, ascending. */
  function KeptIndices<T, U>(xs: seq<T>, f: T -> Option<U>): seq<nat> {
    if xs == [] then []
    else KeptIndices(xs[..|xs| - 1], f) + (if f(xs[|xs| - 1]).Some? then [|xs| - 1] else [])
  }

  /** `ks` lists, in strictly ascending order, exactly the positions of `xs`
      whose element gives a record, and `ys` holds those records in that
      order. */
  ghost predicate IsSelection<T, U>(xs: seq<T>, f: T -> Option<U>, ks: seq<nat>, ys: seq<U>) {
    && |ks| == |ys|
    && (forall k | 0 <= k < |ks| :: ks[k] < |xs| && f(xs[ks[k]]) == Some(ys[k]))
    && (forall k, l | 0 <= k < l < |ks| :: ks[k] < ks[l])
    && (forall j | 0 <= j < |xs| :: f(xs[j]).Some? <==> j in ks)
  }

  /** The kept positions are positions of `xs`, in strictly ascending
      order. */
  lemma {:induction false} KeptIndicesAscending<T, U>(xs: seq<T>, f: T -> Option<U>)
    ensures forall k | 0 <= k < |KeptIndices(xs, f)| :: KeptIndices(xs, f)[k] < |xs|
    ensures forall k, l | 0 <= k < l < |KeptIndices(xs, f)| :: KeptIndices(xs, f)[k] < KeptIndices(xs, f)[l]
  {
    if xs != [] {
      var init := xs[..|xs| - 1];
      KeptIndicesAscending(init, f);
      var ks0, ks := KeptIndices(init, f), KeptIndices(xs, f);
      if f(xs[|xs| - 1]).Some? {
        assert ks == ks0 + [|xs| - 1];
        forall k, l | 0 <= k < l < |ks| ensures ks[k] < ks[l] {
          if l < |ks0| {
            assert ks[k] == ks0[k] && ks[l] == ks0[l];
          } else {
            assert ks[k] == ks0[k];
          }
        }
      } else {
        assert ks == ks0;
      }
    }
  }

  /** A position is kept exactly when its element gives a record. */
  lemma {:induction false} KeptIndicesMembers<T, U>(xs: seq<T>, f: T -> Option<U>)
    ensures forall j | 0 <= j < |xs| :: f(xs[j]).Some? <==> j in KeptIndices(xs, f)
  {
    if xs != [] {
      var init := xs[..|xs| - 1];
      KeptIndicesMembers(init, f);
      KeptIndicesAscending(init, f);
      assert forall j | 0 <= j < |init| :: xs[j] == init[j];
      assert |xs| - 1 !in KeptIndices(init, f);
    }
  }

  /** The k-th record is the record of the k-th kept element. */
  lemma {:induction false} KeptIndicesRecords<T, U>(xs: seq<T>, f: T -> Option<U>)
    ensures var ks, ys := KeptIndices(xs, f), FilterMap(xs, f);
      && |ks| == |ys|
      && (forall k | 0 <= k < |ks| :: ks[k] < |xs| && f(xs[ks[k]]) == Some(ys[k]))
  {
    if xs != [] {
      var init := xs[..|xs| - 1];
      KeptIndicesRecords(init, f);
      KeptIndicesAscending(init, f);
      assert forall j | 0 <= j < |init| :: xs[j] == init[j];
    }
  }

  /** FilterMap keeps every element that gives a record and no other, in
      their order. */
  lemma FilterMapExact<T, U>(xs: seq<T>, f: T -> Option<U>)
    ensures IsSelection(xs, f, KeptIndices(xs, f), FilterMap(xs, f))
  {
    KeptIndicesAscending(xs, f);
    KeptIndicesMembers(xs, f);
    KeptIndicesRecords(xs, f);
  }

  /** Filtering a concatenation filters each part and concatenates. */
  lemma {:induction false} FilterMapAppend<T, U>(xs: seq<T>, zs: seq<T>, f: T -> Option<U>)
    ensures FilterMap(xs + zs, f) == FilterMap(xs, f) + FilterMap(zs, f)
  {
    if zs == [] {
      assert xs + zs == xs;
    } else {
      var zs' := zs[..|zs| - 1];
      assert (xs + zs)[..|xs + zs| - 1] == xs + zs';
      FilterMapAppend(xs, zs', f);
    }
  }

  /** One more element read: its record, if any, is appended. */
  lemma FilterMapStep<T, U>(xs: seq<T>, i: nat, f: T -> Option<U>)
    requires i < |xs|
    ensures FilterMap(xs[..i + 1], f) == FilterMap(xs[..i], f) + OptionList(f(xs[i]))
  {
    assert xs[..i + 1][..i] == xs[..i];
  }

  /** One iteration of an extraction loop: `acc` holds `prefix` followed by
      the records of the first `j` elements; appending the record of element
      `j`, when it gives one, yields `prefix` followed by the records of the
      first `j + 1` elements. */
  lemma FilterMapAdvance<T, U>(prefix: seq<U>, xs: seq<T>, j: nat, f: T -> Option<U>, acc: seq<U>, next: seq<U>)
    requires j < |xs|
    requires acc == prefix + FilterMap(xs[..j], f)
    requires next == (if f(xs[j]).Some? then acc + [f(xs[j]).value] else acc)
    ensures next == prefix + FilterMap(xs[..j + 1], f)
  {
    FilterMapStep(xs, j, f);
    if f(xs[j]).Some? {
      assert OptionList(f(xs[j])) == [f(xs[j]).value];
    } else {
      assert FilterMap(xs[..j], f) + OptionList(f(xs[j])) == FilterMap(xs[..j], f);
    }
  }

  /** FilterMapAdvance with nothing collected before the loop. */
  lemma FilterMapExtend<T, U>(xs: seq<T>, j: nat, f: T -> Option<U>, acc: seq<U>, next: seq<U>)
    requires j < |xs|
    requires acc == FilterMap(xs[..j], f)
    requires next == (if f(xs[j]).Some? then acc + [f(xs[j]).value] else acc)
    ensures next == FilterMap(xs[..j + 1], f)
  {
    FilterMapStep(xs, j, f);
    if f(xs[j]).Some? {
      assert OptionList(f(xs[j])) == [f(xs[j]).value];
    } else {
      assert FilterMap(xs[..j], f) + OptionList(f(xs[j])) == FilterMap(xs[..j], f);
    }
  }

  /** When every element gives a record, nothing is skipped. */
  lemma {:induction false} FilterMapKeepsAll<T, U>(xs: seq<T>, f: T -> Option<U>)
    requires forall j | 0 <= j < |xs| :: f(xs[j]).Some?
    ensures |FilterMap(xs, f)| == |xs|
    ensures forall j | 0 <= j < |xs| :: f(xs[j]) == Some(FilterMap(xs, f)[j])
  {
    if xs != [] {
      var init := xs[..|xs| - 1];
      FilterMapKeepsAll(init, f);
      assert forall j | 0 <= j < |init| :: xs[j] == init[j];
    }
  }
}
