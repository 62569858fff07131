/**
 * Index bookkeeping shared by both classes: boolean masks turned into index
 * lists (`np.where(mask)[0]`), Python's negative indices, numpy fancy
 * assignment `data[indices] = value`, and the vertex deletion of
 * `delete_verts`, which keeps the remaining vertices in their order.
 */
module Indices {
  import opened Wrappers

  predicate Increasing(s: seq<nat>) {
    forall a, b :: 0 <= a < b < |s| ==> s[a] < s[b]
  }

  /** `np.where(mask)[0]` restricted to positions i and later. */
  function WhereFrom(mask: seq<bool>, i: nat): (r: seq<nat>)
    requires i <= |mask|
    ensures forall j :: 0 <= j < |r| ==> i <= r[j] < |mask| && mask[r[j]]
    ensures forall k :: i <= k < |mask| && mask[k] ==> k in r
    ensures Increasing(r)
    decreases |mask| - i
  {
    if i == |mask| then []
    else if mask[i] then [i] + WhereFrom(mask, i + 1)
    else WhereFrom(mask, i + 1)
  }

  /** `np.where(mask)[0]`: the positions of the true entries, ascending. */
  function Where(mask: seq<bool>): (r: seq<nat>)
    ensures Increasing(r)
    ensures forall j :: 0 <= j < |r| ==> r[j] < |mask|
    ensures forall k :: 0 <= k < |mask| ==> (mask[k] <==> k in r)
  {
    WhereFrom(mask, 0)
  }

  /** The mask of length n that is true exactly at the listed positions. */
  function MaskOf(idx: seq<nat>, n: nat): (m: seq<bool>)
    ensures |m| == n && forall k :: 0 <= k < n ==> (m[k] <==> k in idx)
  {
    seq(n, k requires 0 <= k < n => k in idx)
  }

  /** Two ascending index lists with the same members are the same list. */
  lemma {:induction false} IncreasingUnique(s: seq<nat>, t: seq<nat>)
    requires Increasing(s) && Increasing(t)
    requires forall x :: x in s <==> x in t
    ensures s == t
  {
    if |s| > 0 {
      assert s[0] in t;
    }
    if |t| > 0 {
      assert t[0] in s;
    }
    if |s| > 0 && |t| > 0 {
      assert s[0] == t[0];
      forall x
        ensures x in s[1..] <==> x in t[1..]
      {
        if x in s[1..] {
          var a :| 0 <= a < |s[1..]| && s[1..][a] == x;
          assert s[a + 1] == x && x > s[0];
          assert x in s;
          var b :| 0 <= b < |t| && t[b] == x;
          assert b > 0 && t[1..][b - 1] == x;
        }
        if x in t[1..] {
          var a :| 0 <= a < |t[1..]| && t[1..][a] == x;
          assert t[a + 1] == x && x > t[0];
          assert x in t;
          var b :| 0 <= b < |s| && s[b] == x;
          assert b > 0 && s[1..][b - 1] == x;
        }
      }
      IncreasingUnique(s[1..], t[1..]);
      assert s == [s[0]] + s[1..] && t == [t[0]] + t[1..];
    }
  }

  /** A mask and its index list carry the same information. */
  lemma WhereRoundTrip(mask: seq<bool>, idx: seq<nat>)
    ensures MaskOf(Where(mask), |mask|) == mask
    ensures Increasing(idx) && (forall j :: 0 <= j < |idx| ==> idx[j] < |mask|) ==>
      Where(MaskOf(idx, |mask|)) == idx
  {
    if Increasing(idx) && (forall j :: 0 <= j < |idx| ==> idx[j] < |mask|) {
      IncreasingUnique(Where(MaskOf(idx, |mask|)), idx);
    }
  }

  /** Python sequences accept -n <= i < n. */
  predicate InRange(i: int, n: nat) {
    -(n as int) <= i < n
  }

  /** The element a valid index i addresses: negative indices count from the end. */
  function Wrap(i: int, n: nat): (k: nat)
    requires InRange(i, n)
    ensures k < n && (k == i || k == i + n)
  {
    if i < 0 then i + n else i
  }

  /** Element k of a length-n sequence is addressed by one of the indices. */
  predicate Hit(ks: seq<int>, n: nat, k: nat) {
    exists j :: 0 <= j < |ks| && InRange(ks[j], n) && Wrap(ks[j], n) == k
  }

  predicate AllInRange(ks: seq<int>, n: nat) {
    forall j :: 0 <= j < |ks| ==> InRange(ks[j], n)
  }

  /** The left-hand side of a numpy fancy assignment: a boolean mask or an index list. */
  datatype Selector = ByMask(bits: seq<bool>) | ByIndex(ks: seq<int>)

  /** Element k of a length-n array is selected. */
  predicate Selected(sel: Selector, n: nat, k: nat) {
    match sel
    case ByMask(bits) => k < |bits| && bits[k]
    case ByIndex(ks) => Hit(ks, n, k)
  }

  /** The writes `data[i] = v` for each listed index in turn. */
  function Overwrite<T>(data: seq<T>, ks: seq<int>, v: T): (r: seq<T>)
    requires AllInRange(ks, |data|)
    ensures |r| == |data|
    ensures forall k :: 0 <= k < |data| ==> r[k] == if Hit(ks, |data|, k) then v else data[k]
    decreases |ks|
  {
    if |ks| == 0 then data
    else
      var rest := Overwrite(data[Wrap(ks[0], |data|) := v], ks[1..], v);
      assert forall k :: 0 <= k < |data| ==> (Hit(ks, |data|, k) <==> Wrap(ks[0], |data|) == k || Hit(ks[1..], |data|, k)) by {
        forall k | 0 <= k < |data| && Hit(ks, |data|, k) && Wrap(ks[0], |data|) != k
          ensures Hit(ks[1..], |data|, k)
        {
          var j :| 0 <= j < |ks| && InRange(ks[j], |data|) && Wrap(ks[j], |data|) == k;
          assert ks[1..][j - 1] == ks[j];
        }
        forall k | 0 <= k < |data| && Hit(ks[1..], |data|, k)
          ensures Hit(ks, |data|, k)
        {
          var j :| 0 <= j < |ks| - 1 && InRange(ks[1..][j], |data|) && Wrap(ks[1..][j], |data|) == k;
          assert ks[j + 1] == ks[1..][j];
        }
      }
      rest
  }

  /**
   * `data[sel] = v`: a mask must have one entry per element (numpy raises
   * IndexError otherwise) and every listed index must be in range; the
   * selected elements take v and all others keep their value.
   */
  function Assign<T>(data: seq<T>, sel: Selector, v: T): (r: Result<seq<T>>)
    ensures sel.ByMask? ==> (r.Err? <==> |sel.bits| != |data|)
    ensures sel.ByIndex? ==> (r.Err? <==> !AllInRange(sel.ks, |data|))
    ensures r.Err? ==> r.error == if sel.ByMask? then LengthMismatch else IndexOutOfRange
    ensures r.Ok? ==> |r.value| == |data|
    ensures r.Ok? ==> forall k :: 0 <= k < |data| ==>
      r.value[k] == if Selected(sel, |data|, k) then v else data[k]
  {
    match sel
    case ByMask(bits) =>
      if |bits| != |data| then Err(LengthMismatch)
      else Ok(seq(|data|, k requires 0 <= k < |data| => if bits[k] then v else data[k]))
    case ByIndex(ks) =>
      if !AllInRange(ks, |data|) then Err(IndexOutOfRange)
      else Ok(Overwrite(data, ks, v))
  }

  /** Assigning through a mask is assigning through its `np.where` index list. */
  lemma AssignMaskAsIndices<T>(data: seq<T>, bits: seq<bool>, v: T)
    requires |bits| == |data|
    ensures Assign(data, ByIndex(Where(bits)), v) == Assign(data, ByMask(bits), v)
  {
    var idx := Where(bits);
    forall k | 0 <= k < |data|
      ensures Hit(idx, |data|, k) <==> bits[k]
    {
      if bits[k] {
        var j :| 0 <= j < |idx| && idx[j] == k;
        assert InRange(idx[j], |data|) && Wrap(idx[j], |data|) == k;
      }
    }
    assert Assign(data, ByIndex(idx), v).value == Assign(data, ByMask(bits), v).value;
  }

  /** Repeating an assignment changes nothing more. */
  lemma AssignIdempotent<T>(data: seq<T>, sel: Selector, v: T)
    requires Assign(data, sel, v).Ok?
    ensures Assign(Assign(data, sel, v).value, sel, v) == Assign(data, sel, v)
  {
    var once := Assign(data, sel, v).value;
    assert Assign(once, sel, v).value == once;
  }

  /** What `delete` receives: a list of flags or a list of indices. */
  datatype DeleteArg = Flags(bits: seq<bool>) | Numbers(ks: seq<int>)

  /**
   * The index list `delete` hands on: `index[0]` decides between flags and
   * numbers, so an empty list fails before anything else; flags become the
   * positions of their true entries.
   */
  function DeleteIndices(arg: DeleteArg): (r: Result<seq<int>>)
    ensures r.Err? <==> (arg.Flags? && |arg.bits| == 0) || (arg.Numbers? && |arg.ks| == 0)
    ensures r.Err? ==> r.error == EmptyIndex
    ensures r.Ok? && arg.Numbers? ==> r.value == arg.ks
    ensures r.Ok? && arg.Flags? ==> forall k :: 0 <= k < |arg.bits| ==> (arg.bits[k] <==> k in r.value)
    ensures r.Ok? && arg.Flags? ==> forall j :: 0 <= j < |r.value| ==> 0 <= r.value[j] < |arg.bits|
  {
    match arg
    case Flags(bits) =>
      if |bits| == 0 then Err(EmptyIndex)
      else
        Ok(Where(bits))
    case Numbers(ks) =>
      if |ks| == 0 then Err(EmptyIndex) else Ok(ks)
  }

  /** The elements from i on that no index addresses, ascending. */
  function KeepFrom(n: nat, ks: seq<int>, i: nat): (r: seq<nat>)
    requires i <= n
    ensures forall j :: 0 <= j < |r| ==> i <= r[j] < n && !Hit(ks, n, r[j])
    ensures forall k :: i <= k < n && !Hit(ks, n, k) ==> k in r
    ensures Increasing(r)
    decreases n - i
  {
    if i == n then []
    else if Hit(ks, n, i) then KeepFrom(n, ks, i + 1)
    else [i] + KeepFrom(n, ks, i + 1)
  }

  /**
   * `delete_verts(index)` on n vertices: every index must address a vertex
   * (`bm.verts[i]` raises IndexError otherwise); the vertices that remain
   * are those no index addresses, in their original order.
   */
  function Survivors(n: nat, ks: seq<int>): (r: Result<seq<nat>>)
    ensures r.Err? <==> !AllInRange(ks, n)
    ensures r.Err? ==> r.error == IndexOutOfRange
    ensures r.Ok? ==> Increasing(r.value)
    ensures r.Ok? ==> forall j :: 0 <= j < |r.value| ==> r.value[j] < n
    ensures r.Ok? ==> forall k :: 0 <= k < n ==> (k in r.value <==> !Hit(ks, n, k))
  {
    if !AllInRange(ks, n) then Err(IndexOutOfRange) else Ok(KeepFrom(n, ks, 0))
  }

  /** The rows at the kept positions, in the order given. */
  function Select<T>(s: seq<T>, keep: seq<nat>): (r: seq<T>)
    requires forall j :: 0 <= j < |keep| ==> keep[j] < |s|
    ensures |r| == |keep| && forall j :: 0 <= j < |keep| ==> r[j] == s[keep[j]]
  {
    seq(|keep|, j requires 0 <= j < |keep| => s[keep[j]])
  }

  /** Deleting by a full-length mask keeps exactly the unflagged elements. */
  lemma DeleteByMask(bits: seq<bool>)
    requires |bits| > 0
    ensures DeleteIndices(Flags(bits)).Ok?
    ensures Survivors(|bits|, DeleteIndices(Flags(bits)).value) ==
      Ok(Where(seq(|bits|, k requires 0 <= k < |bits| => !bits[k])))
  {
    var n := |bits|;
    var ks := DeleteIndices(Flags(bits)).value;
    var keep := Survivors(n, ks).value;
    var other := Where(seq(n, k requires 0 <= k < n => !bits[k]));
    forall k | 0 <= k < n
      ensures Hit(ks, n, k) <==> bits[k]
    {
      if bits[k] {
        var j :| 0 <= j < |ks| && ks[j] == k;
        assert InRange(ks[j], n) && Wrap(ks[j], n) == k;
      }
    }
    forall x
      ensures x in keep <==> x in other
    {
      if x in keep {
        var j :| 0 <= j < |keep| && keep[j] == x;
      }
    }
    IncreasingUnique(keep, other);
  }

  /** The rows of one per-vertex array that survive; an array of another length is not touched. */
  function KeepRows<T>(rows: seq<T>, n: nat, keep: seq<nat>): (r: seq<T>)
    requires forall j :: 0 <= j < |keep| ==> keep[j] < n
    ensures |rows| == n ==> r == Select(rows, keep)
    ensures |rows| == n ==> |r| == |keep|
    ensures |rows| != n ==> r == rows
  {
    if |rows| == n then Select(rows, keep) else rows
  }
}
