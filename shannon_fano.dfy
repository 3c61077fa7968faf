/** Shannon-Fano code assignment of the `shannon_fano` table generator.

    The implementation file of that package is not part of this model; its behaviour is
    reconstructed from lib/compression/vlc/table/shannon_fano/shannon_fano_test.go. Records
    are sorted by descending quantity, the list is cut where the two halves' quantity sums
    are closest, the left half's codes get a 0 bit and the right half's a 1 bit, and both
    halves are cut again until each holds one record. */
module ShannonFano {
  import opened Binary

  /** `code`: a character, how often it occurs, and its code, the low `size` bits of `bits`
      read most significant first. */
  datatype Code = Code(ch: char, quantity: nat, bits: nat, size: nat)

  /** The code of a record as '0'/'1' text (Go's `%0*b` of `bits` at width `size`). */
  function Pattern(c: Code): string {
    BinDigits(c.bits, c.size)
  }

  // ---------------------------------------------------------------------------
  // bestDvividerPosition

  function Sum(codes: seq<Code>): nat {
    if codes == [] then 0 else Sum(codes[..|codes| - 1]) + codes[|codes| - 1].quantity
  }

  function Abs(x: int): nat {
    if x < 0 then -x else x
  }

  /** |sum of the right part - sum of the left part| when the list is cut before index i. */
  function Imbalance(codes: seq<Code>, i: nat): nat
    requires i <= |codes|
  {
    Abs(Sum(codes[i..]) - Sum(codes[..i]))
  }

  predicate AllPositive(codes: seq<Code>) {
    forall k :: 0 <= k < |codes| ==> codes[k].quantity > 0
  }

  /** `bestDvividerPosition`: 0 (no cut) for fewer than two records; otherwise the prefix
      sums are scanned left to right and the scan stops at the first cut that does not
      improve on the previous one. */
  function BestDividerPosition(codes: seq<Code>): (r: nat)
    ensures |codes| < 2 ==> r == 0
    ensures |codes| >= 2 ==> 1 <= r < |codes|
  {
    if |codes| < 2 then 0
    else
      var total := Sum(codes);
      var left := codes[0].quantity;
      DividerScan(codes, 1, left, total, Abs(total - 2 * left))
  }

  /** The scan after cut i, whose left sum is `left` and whose imbalance is `diff`. */
  function DividerScan(codes: seq<Code>, i: nat, left: int, total: int, diff: int): (r: nat)
    requires 1 <= i < |codes|
    ensures i <= r < |codes|
    decreases |codes| - i
  {
    if i + 1 == |codes| then i
    else
      var left' := left + codes[i].quantity;
      var diff' := Abs(total - 2 * left');
      if diff' >= diff then i else DividerScan(codes, i + 1, left', total, diff')
  }

  lemma {:induction false} SumSplit(codes: seq<Code>, i: nat)
    requires i <= |codes|
    ensures Sum(codes[..i]) + Sum(codes[i..]) == Sum(codes)
    decreases |codes|
  {
    if i < |codes| {
      var init := codes[..|codes| - 1];
      SumSplit(init, i);
      assert init[..i] == codes[..i];
      assert codes[i..][..|codes[i..]| - 1] == init[i..];
    } else {
      assert codes[..i] == codes;
      assert codes[i..] == [];
    }
  }

  lemma SumPrefixStep(codes: seq<Code>, i: nat)
    requires i < |codes|
    ensures Sum(codes[..i + 1]) == Sum(codes[..i]) + codes[i].quantity
  {
    assert codes[..i + 1][..i] == codes[..i];
  }

  lemma {:induction false} SumPrefixMonotone(codes: seq<Code>, i: nat, j: nat)
    requires i <= j <= |codes|
    ensures Sum(codes[..i]) <= Sum(codes[..j])
    decreases j - i
  {
    if i < j {
      SumPrefixStep(codes, j - 1);
      SumPrefixMonotone(codes, i, j - 1);
    }
  }

  /** The imbalance of cut i as the distance of the left sum from half the total. */
  lemma ImbalanceByPrefix(codes: seq<Code>, i: nat)
    requires i <= |codes|
    ensures Imbalance(codes, i) == Abs(Sum(codes) - 2 * Sum(codes[..i]))
  {
    SumSplit(codes, i);
  }

  /** Once the imbalance stops falling it never falls again: the signed difference
      total - 2*left only decreases, so after it reaches zero or below it moves away. */
  lemma CrossingIsFinal(codes: seq<Code>, i: nat)
    requires 1 <= i && i + 1 < |codes| && codes[i].quantity > 0
    requires Imbalance(codes, i + 1) >= Imbalance(codes, i)
    ensures forall j :: i <= j < |codes| ==> Imbalance(codes, i) <= Imbalance(codes, j)
  {
    var total, left := Sum(codes), Sum(codes[..i]);
    SumPrefixStep(codes, i);
    ImbalanceByPrefix(codes, i);
    ImbalanceByPrefix(codes, i + 1);
    assert total - 2 * (left + codes[i].quantity) <= 0;
    forall j | i + 1 <= j < |codes| ensures Imbalance(codes, i) <= Imbalance(codes, j) {
      SumPrefixMonotone(codes, i + 1, j);
      ImbalanceByPrefix(codes, j);
    }
  }

  /** Every cut before i is strictly worse than i. */
  predicate WorseBefore(codes: seq<Code>, i: nat)
    requires i <= |codes|
  {
    forall j :: 1 <= j < i ==> Imbalance(codes, j) > Imbalance(codes, i)
  }

  /** r balances the two sums best among all cuts, and no earlier cut does as well. */
  predicate FirstBestCut(codes: seq<Code>, r: nat)
    requires r < |codes|
  {
    && 1 <= r
    && (forall j :: 1 <= j < |codes| ==> Imbalance(codes, r) <= Imbalance(codes, j))
    && WorseBefore(codes, r)
  }

  lemma WorseBeforeStep(codes: seq<Code>, i: nat)
    requires i < |codes| && WorseBefore(codes, i) && Imbalance(codes, i + 1) < Imbalance(codes, i)
    ensures WorseBefore(codes, i + 1)
  {
  }

  /** The scan invariant: every cut before the current one is strictly worse than it. */
  lemma {:induction false} DividerScanOptimal(codes: seq<Code>, i: nat, left: int, total: int, diff: int)
    requires 1 <= i < |codes| && AllPositive(codes)
    requires left == Sum(codes[..i]) && total == Sum(codes) && diff == Imbalance(codes, i)
    requires WorseBefore(codes, i)
    ensures FirstBestCut(codes, DividerScan(codes, i, left, total, diff))
    decreases |codes| - i
  {
    var left' := left + codes[i].quantity;
    var diff' := Abs(total - 2 * left');
    if i + 1 < |codes| {
      ImbalanceStep(codes, i, left, total);
    }
    if i + 1 == |codes| || diff' >= diff {
      assert DividerScan(codes, i, left, total, diff) == i;
      BestAtStop(codes, i);
    } else {
      assert DividerScan(codes, i, left, total, diff) == DividerScan(codes, i + 1, left', total, diff');
      WorseBeforeStep(codes, i);
      DividerScanOptimal(codes, i + 1, left', total, diff');
    }
  }

  /** Where the scan stops, at the last cut or where the imbalance stops falling, it has
      found the first best cut. */
  lemma BestAtStop(codes: seq<Code>, i: nat)
    requires 1 <= i < |codes| && AllPositive(codes) && WorseBefore(codes, i)
    requires i + 1 == |codes| || Imbalance(codes, i + 1) >= Imbalance(codes, i)
    ensures FirstBestCut(codes, i)
  {
    if i + 1 < |codes| {
      assert codes[i].quantity > 0;
      CrossingIsFinal(codes, i);
    }
  }

  /** The scan's running sums are the left sum and imbalance of the next cut. */
  lemma ImbalanceStep(codes: seq<Code>, i: nat, left: int, total: int)
    requires i + 1 < |codes| && left == Sum(codes[..i]) && total == Sum(codes)
    ensures left + codes[i].quantity == Sum(codes[..i + 1])
    ensures Abs(total - 2 * (left + codes[i].quantity)) == Imbalance(codes, i + 1)
  {
    SumPrefixStep(codes, i);
    ImbalanceByPrefix(codes, i + 1);
  }

  /** With positive quantities the chosen cut balances the two sums best, and the
      smallest such cut wins a tie. */
  lemma BestDividerBalances(codes: seq<Code>)
    requires |codes| >= 2 && AllPositive(codes)
    ensures var r := BestDividerPosition(codes);
      && (forall j :: 1 <= j < |codes| ==> Imbalance(codes, r) <= Imbalance(codes, j))
      && (forall j :: 1 <= j < r ==> Imbalance(codes, j) > Imbalance(codes, r))
  {
    var total: int, left: int := Sum(codes), codes[0].quantity;
    SumPrefixStep(codes, 0);
    ImbalanceByPrefix(codes, 1);
    assert codes[..0] == [];
    assert Abs(total - 2 * left) == Imbalance(codes, 1);
    DividerScanOptimal(codes, 1, left, total, Imbalance(codes, 1));
    assert FirstBestCut(codes, BestDividerPosition(codes));
  }

  // ---------------------------------------------------------------------------
  // assingCodes

  /** One level of the partition: every code gains one bit, 0 before the cut d and 1 from
      it on. */
  function Extend(codes: seq<Code>, d: nat): (r: seq<Code>)
    ensures |r| == |codes|
  {
    seq(|codes|, i requires 0 <= i < |codes| =>
      codes[i].(bits := 2 * codes[i].bits + (if i < d then 0 else 1), size := codes[i].size + 1))
  }

  /** What `assingCodes` leaves in the slice: each record's code extended by its path
      through the recursive partition. */
  function Assign(codes: seq<Code>): (r: seq<Code>)
    ensures |r| == |codes|
    decreases |codes|
  {
    if |codes| < 2 then codes
    else
      var d := BestDividerPosition(codes);
      var extended := Extend(codes, d);
      Assign(extended[..d]) + Assign(extended[d..])
  }

  /** Only codes change: every record keeps its place, character and quantity. */
  lemma {:induction false} AssignKeepsRecords(codes: seq<Code>)
    ensures forall i :: 0 <= i < |codes| ==>
      Assign(codes)[i].ch == codes[i].ch && Assign(codes)[i].quantity == codes[i].quantity
    decreases |codes|
  {
    if |codes| >= 2 {
      var d := BestDividerPosition(codes);
      var extended := Extend(codes, d);
      var left, right := Assign(extended[..d]), Assign(extended[d..]);
      AssignKeepsRecords(extended[..d]);
      AssignKeepsRecords(extended[d..]);
      assert Assign(codes) == left + right;
      forall i | 0 <= i < |codes|
        ensures Assign(codes)[i].ch == codes[i].ch && Assign(codes)[i].quantity == codes[i].quantity
      {
        if i < d {
          assert Assign(codes)[i] == left[i] && extended[..d][i] == extended[i];
        } else {
          assert Assign(codes)[i] == right[i - d] && extended[d..][i - d] == extended[i];
        }
      }
    }
  }

  /** One level of `assingCodes` in place: shift every code of a[lo..hi] left by one bit
      and set the new bit from the cut d on. */
  method ExtendCodes(a: array<Code>, lo: nat, hi: nat, d: nat)
    requires lo <= hi <= a.Length
    modifies a
    ensures a[..] == ExtendRange(old(a[..]), lo, hi, d)
  {
    ghost var s0 := a[..];
    ghost var extended := Extend(s0[lo..hi], d);
    for i := lo to hi
      invariant a.Length == |s0|
      invariant forall k :: 0 <= k < lo ==> a[k] == s0[k]
      invariant forall k :: lo <= k < i ==> a[k] == extended[k - lo]
      invariant forall k :: i <= k < a.Length ==> a[k] == s0[k]
    {
      var c := a[i];
      assert c == s0[lo..hi][i - lo];
      a[i] := c.(bits := 2 * c.bits + (if i - lo < d then 0 else 1), size := c.size + 1);
    }
    ghost var t := ExtendRange(s0, lo, hi, d);
    forall k | 0 <= k < a.Length ensures a[k] == t[k] {
      if k < lo {
        assert t[k] == s0[..lo][k];
      } else if k < hi {
        assert t[k] == extended[k - lo];
      } else {
        assert t[k] == s0[hi..][k - hi];
      }
    }
    assert a[..] == t;
  }

  /** `assingCodes` on the sub-slice a[lo..hi]: extend every code by one bit in place,
      then recurse on the two halves, which share the array as Go sub-slices do. */
  method AssignCodes(a: array<Code>, lo: nat, hi: nat)
    requires lo <= hi <= a.Length
    modifies a
    ensures a[..] == AssignRange(old(a[..]), lo, hi)
    decreases hi - lo
  {
    ghost var s0 := a[..];
    if hi - lo < 2 {
      AssignRangeShort(s0, lo, hi);
      return;
    }
    assert a[lo..hi] == s0[lo..hi];
    var d := BestDividerPosition(a[lo..hi]);
    ExtendCodes(a, lo, hi, d);
    ghost var s1 := a[..];
    AssignCodes(a, lo, lo + d);
    ghost var s2 := a[..];
    assert s2 == AssignRange(s1, lo, lo + d);
    AssignCodes(a, lo + d, hi);
    ghost var s3 := a[..];
    AssignSteps(s0, lo, hi, d, s1, s2, s3);
  }

  /** The three array states of one `assingCodes` call, after the extension and after each
      half, compose to the whole slice being assigned. */
  lemma AssignSteps(s0: seq<Code>, lo: nat, hi: nat, d: nat, s1: seq<Code>, s2: seq<Code>, s3: seq<Code>)
    requires lo <= hi <= |s0| && hi - lo >= 2 && d == BestDividerPosition(s0[lo..hi])
    requires s1 == ExtendRange(s0, lo, hi, d)
    requires s2 == AssignRange(s1, lo, lo + d)
    requires s3 == AssignRange(s2, lo + d, hi)
    ensures s3 == AssignRange(s0, lo, hi)
  {
    var extended := Extend(s0[lo..hi], d);
    AssignUnfold(s0[lo..hi], d);
    Splice(s0, s1, s2, s3, lo, d, hi, extended, Assign(s1[lo..lo + d]), Assign(s2[lo + d..hi]));
  }

  /** s with the slice s[lo..hi] replaced by `mid`. */
  function Replace(s: seq<Code>, lo: nat, hi: nat, mid: seq<Code>): (r: seq<Code>)
    requires lo <= hi <= |s|
    ensures |mid| == hi - lo ==> |r| == |s|
  {
    s[..lo] + mid + s[hi..]
  }

  /** s with the codes of the slice s[lo..hi] extended by one bit, cut at d. */
  function ExtendRange(s: seq<Code>, lo: nat, hi: nat, d: nat): (r: seq<Code>)
    requires lo <= hi <= |s|
    ensures |r| == |s|
  {
    Replace(s, lo, hi, Extend(s[lo..hi], d))
  }

  /** s with the slice s[lo..hi] coded as `assingCodes` codes it. */
  function AssignRange(s: seq<Code>, lo: nat, hi: nat): (r: seq<Code>)
    requires lo <= hi <= |s|
    ensures |r| == |s|
  {
    Replace(s, lo, hi, Assign(s[lo..hi]))
  }

  /** A slice of fewer than two records is left as it is. */
  lemma AssignRangeShort(s: seq<Code>, lo: nat, hi: nat)
    requires lo <= hi <= |s| && hi - lo < 2
    ensures AssignRange(s, lo, hi) == s
  {
    assert s == s[..lo] + s[lo..hi] + s[hi..];
  }

  /** One level of the recursion of Assign. */
  lemma AssignUnfold(codes: seq<Code>, d: nat)
    requires |codes| >= 2 && d == BestDividerPosition(codes)
    ensures Assign(codes) == Assign(Extend(codes, d)[..d]) + Assign(Extend(codes, d)[d..])
  {
  }

  /** Replacing s0[lo..hi] by `mid`, then the first d elements of that by `left`, then the
      rest of it by `right`, leaves `left + right` in place of s0[lo..hi]. */
  lemma Splice(s0: seq<Code>, s1: seq<Code>, s2: seq<Code>, s3: seq<Code>, lo: nat, d: nat, hi: nat,
               mid: seq<Code>, left: seq<Code>, right: seq<Code>)
    requires lo + d <= hi <= |s0| && |mid| == hi - lo && |left| == d && |right| == hi - lo - d
    requires s1 == s0[..lo] + mid + s0[hi..]
    requires s2 == s1[..lo] + left + s1[lo + d..]
    requires s3 == s2[..lo + d] + right + s2[hi..]
    ensures s1[lo..lo + d] == mid[..d] && s2[lo + d..hi] == mid[d..]
    ensures s3 == s0[..lo] + (left + right) + s0[hi..]
  {
    var p, q := s0[..lo], s0[hi..];
    var x, y := mid[..d], mid[d..];
    assert mid == x + y;
    assert s1 == p + x + (y + q);
    Pieces(p, x, y + q);
    assert s2 == (p + left) + y + q;
    Pieces(p + left, y, q);
    Regroup(p, left, right, q);
  }

  lemma Regroup(p: seq<Code>, x: seq<Code>, y: seq<Code>, q: seq<Code>)
    ensures (p + x) + y + q == p + (x + y) + q
  {
  }

  /** The three pieces of a concatenation, as slices. */
  lemma Pieces(p: seq<Code>, x: seq<Code>, q: seq<Code>)
    ensures (p + x + q)[..|p|] == p
    ensures (p + x + q)[|p|..|p| + |x|] == x
    ensures (p + x + q)[|p| + |x|..] == q
  {
  }

  // ---------------------------------------------------------------------------
  // The prefix property

  /** No record's code is a prefix of another record's code. */
  predicate PrefixFree(codes: seq<Code>) {
    forall i, j :: 0 <= i < |codes| && 0 <= j < |codes| && i != j ==> !(Pattern(codes[i]) <= Pattern(codes[j]))
  }

  /** All records carry the same code so far. */
  predicate Uniform(codes: seq<Code>, bits: nat, size: nat) {
    forall i :: 0 <= i < |codes| ==> codes[i].bits == bits && codes[i].size == size
  }

  predicate Fits(c: Code) {
    c.bits < Pow2(c.size)
  }

  /** Every record's code starts with `p`, fits its width and is longer than `p`
      (or, with `strict` false, at least as long). */
  predicate Extends(codes: seq<Code>, p: string, strict: bool) {
    forall i :: 0 <= i < |codes| ==>
      p <= Pattern(codes[i]) && Fits(codes[i]) && (if strict then codes[i].size > |p| else codes[i].size >= |p|)
  }

  /** The recursive bipartition yields a prefix-free code: started from one common code,
      every result extends it, fits its width, and no result is a prefix of another. */
  lemma {:induction false} AssignPrefixFree(codes: seq<Code>, bits: nat, size: nat)
    requires Uniform(codes, bits, size) && bits < Pow2(size)
    ensures PrefixFree(Assign(codes))
    ensures Extends(Assign(codes), BinDigits(bits, size), |codes| >= 2)
    decreases |codes|
  {
    var p := BinDigits(bits, size);
    if |codes| < 2 {
      UniformShort(codes, bits, size);
    } else {
      var d := BestDividerPosition(codes);
      var extended := Extend(codes, d);
      var left, right := extended[..d], extended[d..];
      ExtendUniform(codes, bits, size, d);
      AssignPrefixFree(left, 2 * bits, size + 1);
      AssignPrefixFree(right, 2 * bits + 1, size + 1);
      HalvesJoin(Assign(left), Assign(right), bits, size, |left| >= 2, |right| >= 2);
      AssignedFromHalves(codes, d, p);
    }
  }

  /** Fewer than two records keep the common code they start with. */
  lemma UniformShort(codes: seq<Code>, bits: nat, size: nat)
    requires |codes| < 2 && Uniform(codes, bits, size) && bits < Pow2(size)
    ensures PrefixFree(Assign(codes)) && Extends(Assign(codes), BinDigits(bits, size), false)
  {
    assert Assign(codes) == codes;
    assert Extends(codes, BinDigits(bits, size), false);
  }

  /** What holds of the two coded halves holds of the coded whole. */
  lemma AssignedFromHalves(codes: seq<Code>, d: nat, p: string)
    requires |codes| >= 2 && d == BestDividerPosition(codes)
    requires var joined := Assign(Extend(codes, d)[..d]) + Assign(Extend(codes, d)[d..]);
      PrefixFree(joined) && Extends(joined, p, true)
    ensures PrefixFree(Assign(codes)) && Extends(Assign(codes), p, true)
  {
    AssignUnfold(codes, d);
  }

  /** The two coded halves, below the patterns of 2*bits and 2*bits+1 one bit wider, form
      a prefix-free list strictly below the pattern of `bits`. */
  lemma HalvesJoin(al: seq<Code>, ar: seq<Code>, bits: nat, size: nat, strictLeft: bool, strictRight: bool)
    requires PrefixFree(al) && PrefixFree(ar)
    requires Extends(al, BinDigits(2 * bits, size + 1), strictLeft)
    requires Extends(ar, BinDigits(2 * bits + 1, size + 1), strictRight)
    ensures PrefixFree(al + ar) && Extends(al + ar, BinDigits(bits, size), true)
  {
    var p := BinDigits(bits, size);
    BinDigitsPush(bits, size, 0);
    BinDigitsPush(bits, size, 1);
    assert BinDigits(2 * bits, size + 1) == p + ['0'];
    ExtendsLoose(al, p + ['0'], strictLeft);
    ExtendsLoose(ar, p + ['1'], strictRight);
    JoinHalves(al, ar, p);
  }

  lemma ExtendsLoose(codes: seq<Code>, p: string, strict: bool)
    requires Extends(codes, p, strict)
    ensures Extends(codes, p, false)
  {
  }

  /** Splitting a uniform list and extending its codes by one bit leaves two uniform
      halves whose codes still fit. */
  lemma ExtendUniform(codes: seq<Code>, bits: nat, size: nat, d: nat)
    requires Uniform(codes, bits, size) && bits < Pow2(size) && d <= |codes|
    ensures Uniform(Extend(codes, d)[..d], 2 * bits, size + 1)
    ensures Uniform(Extend(codes, d)[d..], 2 * bits + 1, size + 1)
    ensures 2 * bits + 1 < Pow2(size + 1)
  {
  }

  /** Two prefix-free lists, one below p+"0" and one below p+"1", form a prefix-free list
      below p. */
  lemma JoinHalves(al: seq<Code>, ar: seq<Code>, p: string)
    requires PrefixFree(al) && PrefixFree(ar)
    requires Extends(al, p + ['0'], false) && Extends(ar, p + ['1'], false)
    ensures PrefixFree(al + ar) && Extends(al + ar, p, true)
  {
    var r := al + ar;
    var d := |al|;
    forall i | 0 <= i < |r| ensures p <= Pattern(r[i]) && Fits(r[i]) && r[i].size > |p| {
      if i < d {
        assert r[i] == al[i];
        PrefixTrans(p, p + ['0'], Pattern(al[i]));
      } else {
        assert r[i] == ar[i - d];
        PrefixTrans(p, p + ['1'], Pattern(ar[i - d]));
      }
    }
    forall i, j | 0 <= i < |r| && 0 <= j < |r| && i != j
      ensures !(Pattern(r[i]) <= Pattern(r[j]))
    {
      if i < d && j < d {
        assert r[i] == al[i] && r[j] == al[j];
      } else if i >= d && j >= d {
        assert r[i] == ar[i - d] && r[j] == ar[j - d];
      } else if i < d {
        assert r[i] == al[i] && r[j] == ar[j - d];
        CrossNotPrefix(p, Pattern(r[i]), Pattern(r[j]), '0', '1');
      } else {
        assert r[i] == ar[i - d] && r[j] == al[j];
        CrossNotPrefix(p, Pattern(r[i]), Pattern(r[j]), '1', '0');
      }
    }
  }

  lemma PrefixTrans(x: string, y: string, z: string)
    requires x <= y && y <= z
    ensures x <= z
  {
    assert z[..|x|] == y[..|x|];
  }

  /** Strings that branch apart after a common prefix are not prefixes of one another. */
  lemma CrossNotPrefix(p: string, x: string, y: string, bx: char, cy: char)
    requires bx != cy && p + [bx] <= x && p + [cy] <= y
    ensures !(x <= y)
  {
    assert x[|p|] == bx && y[|p|] == cy;
  }

  // ---------------------------------------------------------------------------
  // build

  function Count(text: string, c: char): nat {
    if text == [] then 0
    else Count(text[..|text| - 1], c) + (if text[|text| - 1] == c then 1 else 0)
  }

  /** The characters of `text`, each once, in order of first occurrence. */
  function Distinct(text: string): (r: string)
    ensures forall c :: c in r <==> c in text
    ensures forall i, j :: 0 <= i < j < |r| ==> r[i] != r[j]
  {
    if text == [] then ""
    else
      var init := Distinct(text[..|text| - 1]);
      var last := text[|text| - 1];
      assert forall c :: c in text <==> c in text[..|text| - 1] || c == last by {
        assert text == text[..|text| - 1] + [last];
      }
      if last in init then init else init + [last]
  }

  /** The frequency records of `text`: one per distinct character, first seen first, with
      no code yet. */
  function Records(text: string): seq<Code> {
    var cs := Distinct(text);
    seq(|cs|, i requires 0 <= i < |cs| => Code(cs[i], Count(text, cs[i]), 0, 0))
  }

  predicate Descending(codes: seq<Code>) {
    forall i, j :: 0 <= i < j < |codes| ==> codes[i].quantity >= codes[j].quantity
  }

  predicate DistinctChars(codes: seq<Code>) {
    forall i, j :: 0 <= i < j < |codes| ==> codes[i].ch != codes[j].ch
  }

  /** Insert x before the first record with a smaller quantity (after all equal ones). */
  function Insert(x: Code, sorted: seq<Code>): (r: seq<Code>)
    ensures multiset(r) == multiset(sorted) + multiset{x}
    ensures r[0] == x || (sorted != [] && r[0] == sorted[0])
  {
    if sorted == [] || x.quantity >= sorted[0].quantity then [x] + sorted
    else
      assert sorted == [sorted[0]] + sorted[1..];
      [sorted[0]] + Insert(x, sorted[1..])
  }

  /** No record of `codes` has a quantity above q. */
  predicate AtMost(codes: seq<Code>, q: nat) {
    forall k :: 0 <= k < |codes| ==> codes[k].quantity <= q
  }

  lemma {:induction false} InsertAtMost(x: Code, sorted: seq<Code>, q: nat)
    requires AtMost(sorted, q) && x.quantity <= q
    ensures AtMost(Insert(x, sorted), q)
  {
    if sorted != [] && x.quantity < sorted[0].quantity {
      InsertAtMost(x, sorted[1..], q);
    }
  }

  /** Inserting into a descending sequence keeps it descending. */
  lemma {:induction false} InsertDescending(x: Code, sorted: seq<Code>)
    requires Descending(sorted)
    ensures Descending(Insert(x, sorted))
  {
    if sorted == [] {
      assert Insert(x, sorted) == [x];
    } else if x.quantity >= sorted[0].quantity {
      assert AtMost(sorted, x.quantity) by {
        forall k | 0 <= k < |sorted| ensures sorted[k].quantity <= x.quantity {
          assert k == 0 || sorted[0].quantity >= sorted[k].quantity;
        }
      }
      DescendingCons(x, sorted);
    } else {
      var rest := Insert(x, sorted[1..]);
      assert Descending(sorted[1..]) && AtMost(sorted[1..], sorted[0].quantity) by {
        forall k | 0 <= k < |sorted| - 1 ensures sorted[1..][k] == sorted[k + 1] {}
      }
      InsertDescending(x, sorted[1..]);
      InsertAtMost(x, sorted[1..], sorted[0].quantity);
      DescendingCons(sorted[0], rest);
    }
  }

  lemma DescendingCons(h: Code, rest: seq<Code>)
    requires Descending(rest) && AtMost(rest, h.quantity)
    ensures Descending([h] + rest)
  {
    var r := [h] + rest;
    forall i, j | 0 <= i < j < |r| ensures r[i].quantity >= r[j].quantity {
      if i == 0 {
        assert r[j] == rest[j - 1];
      } else {
        assert r[i] == rest[i - 1] && r[j] == rest[j - 1];
      }
    }
  }

  /** Records ordered by descending quantity; equal quantities keep their order. */
  function SortByQuantity(codes: seq<Code>): (r: seq<Code>)
    ensures multiset(r) == multiset(codes)
    ensures Descending(r)
  {
    if codes == [] then []
    else
      assert codes == [codes[0]] + codes[1..];
      var rest := SortByQuantity(codes[1..]);
      InsertDescending(codes[0], rest);
      Insert(codes[0], rest)
  }

  lemma {:induction false} InsertDistinct(x: Code, sorted: seq<Code>)
    requires DistinctChars(sorted)
    requires Avoids(sorted, x.ch)
    ensures DistinctChars(Insert(x, sorted))
  {
    if sorted == [] || x.quantity >= sorted[0].quantity {
      DistinctCons(x, sorted);
    } else {
      var rest := Insert(x, sorted[1..]);
      assert DistinctChars(sorted[1..]) && Avoids(sorted[1..], x.ch) && Avoids(sorted[1..], sorted[0].ch) by {
        forall k | 0 <= k < |sorted| - 1 ensures sorted[1..][k] == sorted[k + 1] {}
      }
      InsertDistinct(x, sorted[1..]);
      InsertAvoids(x, sorted[1..], sorted[0].ch);
      DistinctCons(sorted[0], rest);
    }
  }

  /** No record of `codes` is for character c. */
  predicate Avoids(codes: seq<Code>, c: char) {
    forall k :: 0 <= k < |codes| ==> codes[k].ch != c
  }

  lemma {:induction false} InsertAvoids(x: Code, sorted: seq<Code>, c: char)
    requires Avoids(sorted, c) && x.ch != c
    ensures Avoids(Insert(x, sorted), c)
  {
    if sorted != [] && x.quantity < sorted[0].quantity {
      InsertAvoids(x, sorted[1..], c);
    }
  }

  lemma DistinctCons(h: Code, rest: seq<Code>)
    requires DistinctChars(rest) && Avoids(rest, h.ch)
    ensures DistinctChars([h] + rest)
  {
    var r := [h] + rest;
    forall i, j | 0 <= i < j < |r| ensures r[i].ch != r[j].ch {
      if i == 0 {
        assert r[j] == rest[j - 1];
      } else {
        assert r[i] == rest[i - 1] && r[j] == rest[j - 1];
      }
    }
  }

  /** Sorting keeps the characters distinct. */
  lemma {:induction false} SortDistinct(codes: seq<Code>)
    requires DistinctChars(codes)
    ensures DistinctChars(SortByQuantity(codes))
  {
    if codes != [] {
      var tail := codes[1..];
      assert DistinctChars(tail) && Avoids(tail, codes[0].ch) by {
        forall k | 0 <= k < |tail| ensures tail[k] == codes[k + 1] {}
      }
      SortDistinct(tail);
      var sorted := SortByQuantity(tail);
      AvoidsPermutation(tail, sorted, codes[0].ch);
      InsertDistinct(codes[0], sorted);
      assert SortByQuantity(codes) == Insert(codes[0], sorted);
    }
  }

  /** Reordering records does not bring in a character. */
  lemma AvoidsPermutation(a: seq<Code>, b: seq<Code>, c: char)
    requires multiset(a) == multiset(b) && Avoids(a, c)
    ensures Avoids(b, c)
  {
    forall k | 0 <= k < |b| ensures b[k].ch != c {
      assert b[k] in multiset(a);
    }
  }

  /** `encodingTable`: the records keyed by character. */
  function ToTable(codes: seq<Code>): (r: map<char, Code>)
    ensures forall c :: c in r <==> exists i :: 0 <= i < |codes| && codes[i].ch == c
  {
    if codes == [] then map[]
    else
      var init := codes[..|codes| - 1];
      var last := codes[|codes| - 1];
      assert forall i :: 0 <= i < |init| ==> init[i] == codes[i];
      ToTable(init)[last.ch := last]
  }

  lemma {:induction false} ToTableAt(codes: seq<Code>, i: nat)
    requires DistinctChars(codes) && i < |codes|
    ensures codes[i].ch in ToTable(codes) && ToTable(codes)[codes[i].ch] == codes[i]
  {
    var init := codes[..|codes| - 1];
    if i < |init| {
      assert DistinctChars(init);
      ToTableAt(init, i);
    }
  }

  /** `build`: frequency records sorted by descending quantity, codes coded, and the
      result keyed by character. */
  function Build(text: string): map<char, Code> {
    ToTable(Assign(SortByQuantity(Records(text))))
  }

  /** The same computation as the source writes it: the records sorted, then codes
      assigned in place and the table filled. */
  method BuildTable(text: string) returns (tbl: map<char, Code>)
    ensures tbl == Build(text)
  {
    var sorted := SortByQuantity(Records(text));
    tbl := CodeTable(sorted);
  }

  /** The sorted records copied into a slice, `assingCodes` run on it in place, then the
      table filled from the slice. */
  method CodeTable(sorted: seq<Code>) returns (tbl: map<char, Code>)
    ensures tbl == ToTable(Assign(sorted))
  {
    var a := CopyToArray(sorted);
    AssignCodes(a, 0, a.Length);
    ReplaceWhole(sorted, Assign(sorted));
    assert a[..] == AssignRange(sorted, 0, |sorted|);
    tbl := TableOf(a);
  }

  method CopyToArray(s: seq<Code>) returns (a: array<Code>)
    ensures fresh(a) && a[..] == s
  {
    a := new Code[|s|];
    for i := 0 to a.Length
      invariant a[..i] == s[..i]
    {
      a[i] := s[i];
    }
  }

  /** The table filled from the slice, one record after another. */
  method TableOf(a: array<Code>) returns (tbl: map<char, Code>)
    ensures tbl == ToTable(a[..])
  {
    tbl := map[];
    for i := 0 to a.Length
      invariant tbl == ToTable(a[..i])
    {
      assert a[..i + 1][..i] == a[..i];
      tbl := tbl[a[i].ch := a[i]];
    }
    assert a[..a.Length] == a[..];
  }

  lemma ReplaceWhole(s: seq<Code>, mid: seq<Code>)
    requires |mid| == |s|
    ensures s[0..|s|] == s && Replace(s, 0, |s|, mid) == mid
  {
    assert s[..0] == [] && s[|s|..] == [];
  }

  lemma RecordsFacts(text: string)
    ensures DistinctChars(Records(text))
    ensures Uniform(Records(text), 0, 0)
    ensures forall k :: 0 <= k < |Records(text)| ==>
      Records(text)[k].ch in text && Records(text)[k].quantity == Count(text, Records(text)[k].ch)
    ensures forall c :: c in text ==> exists k :: 0 <= k < |Records(text)| && Records(text)[k].ch == c
  {
    var cs := Distinct(text);
    forall c | c in text ensures exists k :: 0 <= k < |Records(text)| && Records(text)[k].ch == c {
      var k :| 0 <= k < |cs| && cs[k] == c;
      assert Records(text)[k].ch == c;
    }
  }

  /** Sorting the frequency records keeps them distinct, code-less and counted. */
  lemma SortedRecords(text: string)
    ensures var sorted := SortByQuantity(Records(text));
      && DistinctChars(sorted) && Uniform(sorted, 0, 0)
      && (forall i :: 0 <= i < |sorted| ==> sorted[i].ch in text && sorted[i].quantity == Count(text, sorted[i].ch))
      && (forall c :: c in text ==> exists i :: 0 <= i < |sorted| && sorted[i].ch == c)
  {
    var records := Records(text);
    RecordsFacts(text);
    var sorted := SortByQuantity(records);
    SortDistinct(records);
    forall i | 0 <= i < |sorted|
      ensures sorted[i].bits == 0 && sorted[i].size == 0
      ensures sorted[i].ch in text && sorted[i].quantity == Count(text, sorted[i].ch)
    {
      assert sorted[i] in multiset(records);
    }
    forall c | c in text ensures exists i :: 0 <= i < |sorted| && sorted[i].ch == c {
      var k :| 0 <= k < |records| && records[k].ch == c;
      assert records[k] in multiset(sorted);
    }
  }

  /** The table built from distinct records without codes has one entry per record, under
      its character and with its quantity, and no entry's code is a prefix of another's. */
  lemma CodeTableCorrect(sorted: seq<Code>)
    requires DistinctChars(sorted) && Uniform(sorted, 0, 0)
    ensures forall c :: c in ToTable(Assign(sorted)) <==> exists i :: 0 <= i < |sorted| && sorted[i].ch == c
    ensures forall i :: 0 <= i < |sorted| ==>
      sorted[i].ch in ToTable(Assign(sorted))
      && ToTable(Assign(sorted))[sorted[i].ch].ch == sorted[i].ch
      && ToTable(Assign(sorted))[sorted[i].ch].quantity == sorted[i].quantity
    ensures forall c1, c2 :: c1 in ToTable(Assign(sorted)) && c2 in ToTable(Assign(sorted)) && c1 != c2 ==>
      !(Pattern(ToTable(Assign(sorted))[c1]) <= Pattern(ToTable(Assign(sorted))[c2]))
    ensures forall c :: c in ToTable(Assign(sorted)) ==>
      Fits(ToTable(Assign(sorted))[c]) && (|sorted| >= 2 ==> ToTable(Assign(sorted))[c].size >= 1)
  {
    var coded := Assign(sorted);
    AssignKeepsRecords(sorted);
    AssignPrefixFree(sorted, 0, 0);
    assert DistinctChars(coded);
    TableFacts(coded);
    TableFits(coded, |sorted| >= 2);
  }

  /** Records that extend the empty code, fit their widths and (when `strict`) are at
      least one bit long give table entries that do the same. */
  lemma TableFits(coded: seq<Code>, strict: bool)
    requires DistinctChars(coded) && Extends(coded, BinDigits(0, 0), strict)
    ensures forall c :: c in ToTable(coded) ==> Fits(ToTable(coded)[c]) && (strict ==> ToTable(coded)[c].size >= 1)
  {
    var tbl := ToTable(coded);
    forall c | c in tbl ensures Fits(tbl[c]) && (strict ==> tbl[c].size >= 1) {
      var i :| 0 <= i < |coded| && coded[i].ch == c;
      ToTableAt(coded, i);
    }
  }

  /** Keyed by character, distinct prefix-free records give a table whose entries are the
      records and whose codes are prefix-free. */
  lemma TableFacts(coded: seq<Code>)
    requires DistinctChars(coded) && PrefixFree(coded)
    ensures forall i :: 0 <= i < |coded| ==> coded[i].ch in ToTable(coded) && ToTable(coded)[coded[i].ch] == coded[i]
    ensures forall c1, c2 :: c1 in ToTable(coded) && c2 in ToTable(coded) && c1 != c2 ==>
      !(Pattern(ToTable(coded)[c1]) <= Pattern(ToTable(coded)[c2]))
  {
    var tbl := ToTable(coded);
    forall i | 0 <= i < |coded| ensures coded[i].ch in tbl && tbl[coded[i].ch] == coded[i] {
      ToTableAt(coded, i);
    }
    forall c1, c2 | c1 in tbl && c2 in tbl && c1 != c2
      ensures !(Pattern(tbl[c1]) <= Pattern(tbl[c2]))
    {
      var i :| 0 <= i < |coded| && coded[i].ch == c1;
      var j :| 0 <= j < |coded| && coded[j].ch == c2;
    }
  }

  lemma SortedLength(text: string)
    ensures |SortByQuantity(Records(text))| == |Distinct(text)|
  {
    assert |multiset(SortByQuantity(Records(text)))| == |multiset(Records(text))|;
  }

  /** The table has one entry per character of the text, under its own character, with
      the number of times it occurs; and no entry's code is a prefix of another's. */
  lemma BuildCorrect(text: string)
    ensures forall c :: c in Build(text) <==> c in text
    ensures forall c :: c in Build(text) ==> Build(text)[c].ch == c && Build(text)[c].quantity == Count(text, c)
    ensures forall c1, c2 :: c1 in Build(text) && c2 in Build(text) && c1 != c2 ==>
      !(Pattern(Build(text)[c1]) <= Pattern(Build(text)[c2]))
    ensures forall c :: c in Build(text) ==> Fits(Build(text)[c])
    ensures |Distinct(text)| >= 2 ==> forall c :: c in Build(text) ==> Build(text)[c].size >= 1
  {
    var sorted := SortByQuantity(Records(text));
    SortedRecords(text);
    CodeTableCorrect(sorted);
    SortedLength(text);
    var tbl := ToTable(Assign(sorted));
    assert tbl == Build(text);
    forall c | c in tbl ensures c in text && tbl[c].ch == c && tbl[c].quantity == Count(text, c) {
      var i :| 0 <= i < |sorted| && sorted[i].ch == c;
    }
  }

  // ---------------------------------------------------------------------------
  // The vectors of shannon_fano_test.go

  /** A test record: only the quantity is set. */
  function Weight(q: nat): Code {
    Code(0 as char, q, 0, 0)
  }

  lemma DividerExamples()
    ensures BestDividerPosition([Weight(2)]) == 0
    ensures BestDividerPosition([Weight(2), Weight(2)]) == 1
    ensures BestDividerPosition([Weight(2), Weight(1), Weight(1)]) == 1
    ensures BestDividerPosition([Weight(2), Weight(2), Weight(1), Weight(1), Weight(1), Weight(1)]) == 2
  {
    var w1, w2 := Weight(1), Weight(2);
    var six := [w2, w2, w1, w1, w1, w1];
    assert Sum([w2]) == 2;
    assert Sum([w2, w2]) == 4 by { assert [w2, w2][..1] == [w2]; }
    assert Sum([w2, w2, w1]) == 5 by { assert [w2, w2, w1][..2] == [w2, w2]; }
    assert Sum([w2, w2, w1, w1]) == 6 by { assert [w2, w2, w1, w1][..3] == [w2, w2, w1]; }
    assert Sum([w2, w2, w1, w1, w1]) == 7 by { assert [w2, w2, w1, w1, w1][..4] == [w2, w2, w1, w1]; }
    assert Sum(six) == 8 by { assert six[..5] == [w2, w2, w1, w1, w1]; }
    assert Sum([w2, w1]) == 3 by { assert [w2, w1][..1] == [w2]; }
    assert Sum([w2, w1, w1]) == 4 by { assert [w2, w1, w1][..2] == [w2, w1]; }
  }

  /** Two records are always cut between them: the first gets a 0 bit, the second a 1. */
  lemma AssignPair(x: Code, y: Code)
    ensures Assign([x, y]) == [x.(bits := 2 * x.bits, size := x.size + 1), y.(bits := 2 * y.bits + 1, size := y.size + 1)]
  {
    var e := Extend([x, y], 1);
    assert BestDividerPosition([x, y]) == 1;
    assert e[..1] == [e[0]] && e[1..] == [e[1]];
  }

  /** A three-record list cut after its first record: the first record gets code 0, the
      other two the codes 10 and 11. */
  lemma AssignFirstThenPair(codes: seq<Code>)
    requires |codes| == 3 && BestDividerPosition(codes) == 1
    requires Uniform(codes, 0, 0)
    ensures Assign(codes) == [codes[0].(size := 1), codes[1].(bits := 2, size := 2), codes[2].(bits := 3, size := 2)]
  {
    var e := Extend(codes, 1);
    assert e[..1] == [e[0]] && e[1..] == [e[1], e[2]];
    AssignPair(e[1], e[2]);
  }

  lemma AssignExamples()
    ensures Assign([Weight(2), Weight(2)]) == [Code(0 as char, 2, 0, 1), Code(0 as char, 2, 1, 1)]
    ensures Assign([Weight(2), Weight(1), Weight(1)])
      == [Code(0 as char, 2, 0, 1), Code(0 as char, 1, 2, 2), Code(0 as char, 1, 3, 2)]
    ensures Assign([Weight(1), Weight(1), Weight(1)])
      == [Code(0 as char, 1, 0, 1), Code(0 as char, 1, 2, 2), Code(0 as char, 1, 3, 2)]
  {
    AssignPair(Weight(2), Weight(2));
    DividerExamples();
    AssignFirstThenPair([Weight(2), Weight(1), Weight(1)]);
    var w1 := Weight(1);
    assert Sum([w1]) == 1;
    assert Sum([w1, w1]) == 2 by { assert [w1, w1][..1] == [w1]; }
    assert Sum([w1, w1, w1]) == 3 by { assert [w1, w1, w1][..2] == [w1, w1]; }
    assert BestDividerPosition([w1, w1, w1]) == 1;
    AssignFirstThenPair([w1, w1, w1]);
  }

  lemma PrefixesExample()
    ensures "abbbcc"[..5] == "abbbc" && "abbbc"[..4] == "abbb" && "abbb"[..3] == "abb"
    ensures "abb"[..2] == "ab" && "ab"[..1] == "a" && "a"[..0] == ""
  {
  }

  lemma DistinctExample()
    ensures Distinct("abbbcc") == "abc"
  {
    PrefixesExample();
    assert Distinct("a") == "a" by { assert Distinct("") == ""; }
    assert Distinct("ab") == "ab" by { assert "a"[0] != 'b'; }
    assert Distinct("abb") == "ab" by { assert "ab"[1] == 'b'; }
    assert Distinct("abbb") == "ab" by { assert "ab"[1] == 'b'; }
    assert Distinct("abbbc") == "abc" by { assert "ab"[0] != 'c' && "ab"[1] != 'c'; }
    assert "abc"[2] == 'c';
  }

  lemma CountExample()
    ensures Count("abbbcc", 'a') == 1 && Count("abbbcc", 'b') == 3 && Count("abbbcc", 'c') == 2
  {
    PrefixesExample();
    assert Count("a", 'a') == 1 && Count("a", 'b') == 0 && Count("a", 'c') == 0;
    assert Count("ab", 'a') == 1 && Count("ab", 'b') == 1 && Count("ab", 'c') == 0;
    assert Count("abb", 'a') == 1 && Count("abb", 'b') == 2 && Count("abb", 'c') == 0;
    assert Count("abbb", 'a') == 1 && Count("abbb", 'b') == 3 && Count("abbb", 'c') == 0;
    assert Count("abbbc", 'a') == 1 && Count("abbbc", 'b') == 3 && Count("abbbc", 'c') == 1;
  }

  lemma RecordsExample()
    ensures Records("abbbcc") == [Code('a', 1, 0, 0), Code('b', 3, 0, 0), Code('c', 2, 0, 0)]
  {
    DistinctExample();
    CountExample();
  }

  lemma SortExample()
    ensures SortByQuantity([Code('a', 1, 0, 0), Code('b', 3, 0, 0), Code('c', 2, 0, 0)])
      == [Code('b', 3, 0, 0), Code('c', 2, 0, 0), Code('a', 1, 0, 0)]
  {
    var a, b, c := Code('a', 1, 0, 0), Code('b', 3, 0, 0), Code('c', 2, 0, 0);
    SortPairExample();
    InsertLastExample();
    assert [a, b, c][1..] == [b, c];
  }

  lemma SortPairExample()
    ensures SortByQuantity([Code('b', 3, 0, 0), Code('c', 2, 0, 0)]) == [Code('b', 3, 0, 0), Code('c', 2, 0, 0)]
  {
    var b, c := Code('b', 3, 0, 0), Code('c', 2, 0, 0);
    assert SortByQuantity([c]) == [c] by { assert [c][1..] == []; }
    assert [b, c][1..] == [c];
  }

  lemma InsertLastExample()
    ensures Insert(Code('a', 1, 0, 0), [Code('b', 3, 0, 0), Code('c', 2, 0, 0)])
      == [Code('b', 3, 0, 0), Code('c', 2, 0, 0), Code('a', 1, 0, 0)]
  {
    var a, b, c := Code('a', 1, 0, 0), Code('b', 3, 0, 0), Code('c', 2, 0, 0);
    assert Insert(a, [c]) == [c, a] by { assert [c][1..] == []; }
    assert [b, c][1..] == [c];
  }

  lemma AssignBuildExample()
    ensures Assign([Code('b', 3, 0, 0), Code('c', 2, 0, 0), Code('a', 1, 0, 0)])
      == [Code('b', 3, 0, 1), Code('c', 2, 2, 2), Code('a', 1, 3, 2)]
  {
    var a, b, c := Code('a', 1, 0, 0), Code('b', 3, 0, 0), Code('c', 2, 0, 0);
    assert Sum([b]) == 3;
    assert Sum([b, c]) == 5 by { assert [b, c][..1] == [b]; }
    assert Sum([b, c, a]) == 6 by { assert [b, c, a][..2] == [b, c]; }
    assert BestDividerPosition([b, c, a]) == 1;
    AssignFirstThenPair([b, c, a]);
  }

  lemma TableExample()
    ensures ToTable([Code('b', 3, 0, 1), Code('c', 2, 2, 2), Code('a', 1, 3, 2)])
      == map['a' := Code('a', 1, 3, 2), 'b' := Code('b', 3, 0, 1), 'c' := Code('c', 2, 2, 2)]
  {
    var coded := [Code('b', 3, 0, 1), Code('c', 2, 2, 2), Code('a', 1, 3, 2)];
    assert coded[..2] == [coded[0], coded[1]] && coded[..2][..1] == [coded[0]];
  }

  /** The `build` vector of the test file: "abbbcc" gives b -> 0, c -> 10, a -> 11. */
  lemma BuildExample()
    ensures Build("abbbcc") == map[
      'a' := Code('a', 1, 3, 2),
      'b' := Code('b', 3, 0, 1),
      'c' := Code('c', 2, 2, 2)]
  {
    RecordsExample();
    SortExample();
    AssignBuildExample();
    TableExample();
  }
}
