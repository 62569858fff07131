/** Species labels and the element symbols derived from them. */
module Labels {

  /** `sep` occurs in `s` starting at position p. */
  predicate OccursAt(s: string, sep: string, p: nat) {
    p + |sep| <= |s| && s[p..p + |sep|] == sep
  }

  /** An occurrence in the tail is an occurrence one position later in the whole. */
  lemma OccursShift(s: string, sep: string)
    requires |s| > 0
    ensures forall p: nat :: OccursAt(s[1..], sep, p) <==> OccursAt(s, sep, p + 1)
    ensures forall p: nat :: 1 <= p ==> (OccursAt(s, sep, p) <==> OccursAt(s[1..], sep, p - 1))
  {
    forall p: nat
      ensures OccursAt(s[1..], sep, p) <==> OccursAt(s, sep, p + 1)
    {
      if p + |sep| <= |s[1..]| {
        assert s[1..][p..p + |sep|] == s[p + 1..p + 1 + |sep|];
      }
    }
  }

  /** Python's `s.split(sep)[0]`: the part of s before the first occurrence of sep. */
  function SplitHead(s: string, sep: string): (r: string)
    requires |sep| > 0
    ensures |r| <= |s| && r == s[..|r|]
    ensures forall p :: 0 <= p < |r| ==> !OccursAt(s, sep, p)
    ensures |r| < |s| ==> OccursAt(s, sep, |r|)
    decreases |s|
  {
    if |s| < |sep| then s
    else if s[..|sep|] == sep then ""
    else
      var t := SplitHead(s[1..], sep);
      OccursShift(s, sep);
      assert s[0..|sep|] == s[..|sep|];
      [s[0]] + t
  }

  /**
   * The head is the only prefix with no occurrence of sep before its end
   * and an occurrence right at its end, unless it is all of s.
   */
  lemma SplitHeadUnique(s: string, sep: string, r: string)
    requires |sep| > 0 && |r| <= |s| && r == s[..|r|]
    requires forall p :: 0 <= p < |r| ==> !OccursAt(s, sep, p)
    requires |r| < |s| ==> OccursAt(s, sep, |r|)
    ensures SplitHead(s, sep) == r
  {
    var h := SplitHead(s, sep);
    var hl: nat, rl: nat := |h|, |r|;
    assert hl < rl ==> !OccursAt(s, sep, hl);
    assert rl < hl ==> !OccursAt(s, sep, rl);
    assert h == s[..|h|];
  }

  /** A one-character separator occurs exactly where that character stands. */
  lemma OccursChar(s: string, c: char, p: nat)
    ensures OccursAt(s, [c], p) <==> p < |s| && s[p] == c
  {
    if p < |s| {
      assert s[p..p + 1] == [s[p]];
    }
  }

  /** `(a + '_' + b).split('_')[0] == a` for a label part a without `'_'`, and a label without one is its own element. */
  lemma ElementOfJoin(a: string, b: string)
    requires forall i :: 0 <= i < |a| ==> a[i] != '_'
    ensures ElementOf(a + "_" + b) == a
    ensures ElementOf(a) == a
  {
    var s := a + "_" + b;
    forall p | 0 <= p < |a|
      ensures !OccursAt(s, "_", p) && !OccursAt(a, "_", p)
    {
      OccursChar(s, '_', p);
      OccursChar(a, '_', p);
    }
    OccursChar(s, '_', |a|);
    assert s[..|a|] == a;
    SplitHeadUnique(s, "_", a);
    SplitHeadUnique(a, "_", a);
  }

  /** The element a species label stands for: `'Fe_up'` denotes `'Fe'`. */
  function ElementOf(species: string): string {
    SplitHead(species, "_")
  }

  /** The element `Batoms.replace` gives a species it has to define: the part before `'_1'`. */
  function ReplacementElementOf(species: string): string {
    SplitHead(species, "_1")
  }
}
