/**
 * The driver's comparison plan. For each identity group, in the map's key
 * order, the nested loops visit every pair (i, j) with i < j of the group's
 * copies and attach both under aliases built from the identity and each
 * copy's label, with every character outside [A-Za-z0-9_] turned into '_'.
 * What the database engine then does with the two attachments is not modelled;
 * a plan entry records what the loops hand to it.
 */
module Comparison {
  import opened Wrappers
  import opened Traversal

  // ---------------------------------------------------------------------------
  // Aliases

  /** The characters `[a-zA-Z0-9_]` that the sanitiser keeps. */
  predicate IsAliasChar(c: char) {
    ('a' <= c <= 'z') || ('A' <= c <= 'Z') || ('0' <= c <= '9') || c == '_'
  }

  /** `s.replace(/[^a-zA-Z0-9_]/g, "_")`: same length, only alias characters, every alias
      character kept where it was, every other character replaced by '_'. */
  function Sanitize(s: string): (r: string)
    ensures |r| == |s|
    ensures forall i :: 0 <= i < |s| ==> IsAliasChar(r[i])
    ensures forall i :: 0 <= i < |s| && IsAliasChar(s[i]) ==> r[i] == s[i]
    ensures forall i :: 0 <= i < |s| && !IsAliasChar(s[i]) ==> r[i] == '_'
  {
    if s == [] then [] else [if IsAliasChar(s[0]) then s[0] else '_'] + Sanitize(s[1..])
  }

  /** Sanitising is idempotent. */
  lemma SanitizeIdempotent(s: string)
    ensures Sanitize(Sanitize(s)) == Sanitize(s)
  {
  }

  /** A string of alias characters only is left as it is. */
  lemma SanitizeKeeps(s: string)
    requires forall i :: 0 <= i < |s| ==> IsAliasChar(s[i])
    ensures Sanitize(s) == s
  {
  }

  /** A label as a template literal renders it: the text, or "undefined" when there is none. */
  function LabelText(position: Option<string>): (r: string)
    ensures position.Some? ==> r == position.value
    ensures position.None? ==> r == "undefined"
  {
    match position
    case Some(text) => text
    case None => "undefined"
  }

  /** The alias of one side: `${storename}_${positionName}`, sanitised. */
  function Alias(store: string, position: Option<string>): (r: string)
    ensures |r| == |store| + 1 + |LabelText(position)|
    ensures forall i :: 0 <= i < |r| ==> IsAliasChar(r[i])
  {
    Sanitize(store + "_" + LabelText(position))
  }

  /** Labels made only of alias characters give distinct aliases when they differ. */
  lemma AliasesOfCleanLabelsDiffer(store: string, x: string, y: string)
    requires forall i :: 0 <= i < |store| ==> IsAliasChar(store[i])
    requires forall i :: 0 <= i < |x| ==> IsAliasChar(x[i])
    requires forall i :: 0 <= i < |y| ==> IsAliasChar(y[i])
    requires x != y
    ensures Alias(store, Some(x)) != Alias(store, Some(y))
  {
    AliasChars(store, x);
    AliasChars(store, y);
    SanitizeKeeps(store + "_" + x);
    SanitizeKeeps(store + "_" + y);
    var n := |store| + 1;
    assert (store + "_" + x)[n..] == x;
    assert (store + "_" + y)[n..] == y;
  }

  lemma AliasChars(store: string, x: string)
    requires forall i :: 0 <= i < |store| ==> IsAliasChar(store[i])
    requires forall i :: 0 <= i < |x| ==> IsAliasChar(x[i])
    ensures forall i :: 0 <= i < |store + "_" + x| ==> IsAliasChar((store + "_" + x)[i])
  {
  }

  /** Labels that differ only outside the alias characters share one alias: "a b" and "a-b"
      both become "a_b". */
  lemma AliasesCollide(store: string)
    ensures Alias(store, Some("a b")) == Alias(store, Some("a-b"))
  {
    var s1, s2 := store + "_" + "a b", store + "_" + "a-b";
    assert forall i :: 0 <= i < |s1| && i != |store| + 2 ==> s1[i] == s2[i];
    assert !IsAliasChar(s1[|store| + 2]) && !IsAliasChar(s2[|store| + 2]);
  }

  // ---------------------------------------------------------------------------
  // Pairs

  /** The pairs (i, j), j' <= j < n, the inner loop visits for row i from j'. */
  function Row(i: nat, j: nat, n: nat): (r: seq<(nat, nat)>)
    ensures |r| == if j <= n then n - j else 0
    ensures forall p :: p in r <==> p.0 == i && j <= p.1 < n
    decreases n - j
  {
    if j >= n then [] else [(i, j)] + Row(i, j + 1, n)
  }

  /** The pairs the outer loop visits from row i on: exactly those with i <= p.0 < p.1 < n. */
  function PairsFrom(i: nat, n: nat): (r: seq<(nat, nat)>)
    ensures forall p :: p in r <==> i <= p.0 < p.1 < n
    decreases n - i
  {
    if i >= n then [] else Row(i, i + 1, n) + PairsFrom(i + 1, n)
  }

  /** All pairs of a group of size n, in the order of the nested loops. */
  function Pairs(n: nat): (r: seq<(nat, nat)>)
    ensures forall p :: p in r <==> p.0 < p.1 < n
  {
    PairsFrom(0, n)
  }

  /** `p` comes strictly before `q` in the loops' (row-major) order. */
  predicate Before(p: (nat, nat), q: (nat, nat)) {
    p.0 < q.0 || (p.0 == q.0 && p.1 < q.1)
  }

  predicate StrictlyOrdered(ps: seq<(nat, nat)>) {
    forall a, b :: 0 <= a < b < |ps| ==> Before(ps[a], ps[b])
  }

  lemma OrderedConcat(x: seq<(nat, nat)>, y: seq<(nat, nat)>)
    requires StrictlyOrdered(x) && StrictlyOrdered(y)
    requires forall p, q :: p in x && q in y ==> Before(p, q)
    ensures StrictlyOrdered(x + y)
  {
    forall a, b | 0 <= a < b < |x + y|
      ensures Before((x + y)[a], (x + y)[b])
    {
      if b < |x| {
        assert (x + y)[a] == x[a] && (x + y)[b] == x[b];
      } else if a < |x| {
        assert (x + y)[a] == x[a] && (x + y)[b] == y[b - |x|];
      } else {
        assert (x + y)[a] == y[a - |x|] && (x + y)[b] == y[b - |x|];
      }
    }
  }

  lemma {:induction false} RowOrdered(i: nat, j: nat, n: nat)
    ensures StrictlyOrdered(Row(i, j, n))
    decreases n - j
  {
    if j < n {
      RowOrdered(i, j + 1, n);
      OrderedConcat([(i, j)], Row(i, j + 1, n));
    }
  }

  lemma {:induction false} PairsFromOrdered(i: nat, n: nat)
    ensures StrictlyOrdered(PairsFrom(i, n))
    decreases n - i
  {
    if i < n {
      RowOrdered(i, i + 1, n);
      PairsFromOrdered(i + 1, n);
      OrderedConcat(Row(i, i + 1, n), PairsFrom(i + 1, n));
    }
  }

  /** The loops visit the pairs in strictly increasing row-major order, so no pair twice. */
  lemma PairsOnce(n: nat)
    ensures StrictlyOrdered(Pairs(n))
    ensures forall a, b :: 0 <= a < b < |Pairs(n)| ==> Pairs(n)[a] != Pairs(n)[b]
  {
    PairsFromOrdered(0, n);
  }

  lemma {:induction false} PairsFromCount(i: nat, n: nat)
    requires i <= n
    ensures 2 * |PairsFrom(i, n)| == (n - i) * (n - i - 1)
    decreases n - i
  {
    if i < n {
      PairsFromCount(i + 1, n);
      var rest := |PairsFrom(i + 1, n)|;
      assert |PairsFrom(i, n)| == (n - (i + 1)) + rest;
      TriangleStep(i, n, rest);
    }
  }

  lemma TriangleStep(i: int, n: int, rest: int)
    requires 2 * rest == (n - (i + 1)) * (n - (i + 1) - 1)
    ensures 2 * ((n - (i + 1)) + rest) == (n - i) * (n - i - 1)
  {
  }

  /** A group of n copies gives n(n-1)/2 pairs; one copy, or none, gives none. */
  lemma PairCount(n: nat)
    ensures |Pairs(n)| == n * (n - 1) / 2
    ensures n <= 1 ==> Pairs(n) == []
  {
    PairsFromCount(0, n);
  }

  // ---------------------------------------------------------------------------
  // The plan

  /** What the loops hand to the database engine for one pair: the identity, the two
      indices, and for each side its alias and path. */
  datatype PairComparison = PairComparison(store: string, first: nat, second: nat,
                                           alias1: string, path1: string,
                                           alias2: string, path2: string)

  /** The attach job for pair p: both copies' paths, each under its own alias; copies that
      share a label share an alias. */
  function Compare(store: string, files: seq<StoreFile>, p: (nat, nat)): (r: PairComparison)
    requires p.0 < |files| && p.1 < |files|
    ensures r.store == store && r.first == p.0 && r.second == p.1
    ensures r.path1 == files[p.0].path && r.path2 == files[p.1].path
    ensures forall i :: 0 <= i < |r.alias1| ==> IsAliasChar(r.alias1[i])
    ensures forall i :: 0 <= i < |r.alias2| ==> IsAliasChar(r.alias2[i])
    ensures files[p.0].positionName == files[p.1].positionName ==> r.alias1 == r.alias2
  {
    PairComparison(store, p.0, p.1, Alias(store, files[p.0].positionName), files[p.0].path,
                   Alias(store, files[p.1].positionName), files[p.1].path)
  }

  /** Every pair of `ps` indexes a group of size n. */
  predicate InRange(ps: seq<(nat, nat)>, n: nat) {
    forall p :: p in ps ==> p.0 < n && p.1 < n
  }

  /** The comparisons for the pairs `ps` of a group, in order. */
  function CompareEach(store: string, files: seq<StoreFile>, ps: seq<(nat, nat)>): (r: seq<PairComparison>)
    requires InRange(ps, |files|)
    ensures |r| == |ps|
  {
    seq(|ps|, k requires 0 <= k < |ps| => Compare(store, files, ps[k]))
  }

  lemma CompareEachConcat(store: string, files: seq<StoreFile>, x: seq<(nat, nat)>, y: seq<(nat, nat)>)
    requires InRange(x, |files|) && InRange(y, |files|)
    ensures CompareEach(store, files, x + y) == CompareEach(store, files, x) + CompareEach(store, files, y)
  {
  }

  /** The comparisons of one group: one per pair, in loop order. */
  function GroupComparisons(store: string, files: seq<StoreFile>): (r: seq<PairComparison>)
    ensures forall k :: 0 <= k < |r| ==> r[k].store == store && r[k].first < r[k].second < |files|
  {
    CompareEach(store, files, Pairs(|files|))
  }

  /** The comparisons of a group pair its copies i < j, each pair once, n(n-1)/2 in all,
      whether or not the two labels differ. */
  lemma GroupComparisonsArePairs(store: string, files: seq<StoreFile>)
    ensures |GroupComparisons(store, files)| == |files| * (|files| - 1) / 2
    ensures forall k :: 0 <= k < |GroupComparisons(store, files)| ==>
              var c := GroupComparisons(store, files)[k];
              c.first < c.second < |files| && c == Compare(store, files, (c.first, c.second))
    ensures forall a, b :: 0 <= a < b < |GroupComparisons(store, files)| ==>
              (GroupComparisons(store, files)[a].first, GroupComparisons(store, files)[a].second)
              != (GroupComparisons(store, files)[b].first, GroupComparisons(store, files)[b].second)
  {
    PairCount(|files|);
    PairsOnce(|files|);
    var ps := Pairs(|files|);
    forall k | 0 <= k < |ps|
      ensures (GroupComparisons(store, files)[k].first, GroupComparisons(store, files)[k].second) == ps[k]
    {
    }
  }

  /** Two copies labelled alike are still compared, and both sides get the same alias. */
  lemma SameLabelStillCompared(store: string, files: seq<StoreFile>)
    requires |files| == 2 && files[0].positionName == files[1].positionName
    ensures GroupComparisons(store, files) == [Compare(store, files, (0, 1))]
    ensures GroupComparisons(store, files)[0].alias1 == GroupComparisons(store, files)[0].alias2
  {
    assert Row(1, 2, 2) == [] && PairsFrom(2, 2) == [];
    assert Pairs(2) == [(0, 1)];
  }

  /** The comparisons of the groups `keys`, in that order. */
  function Plan(g: Groups, keys: seq<string>): (r: seq<PairComparison>)
    ensures forall c :: c in r ==> c.store in keys
    decreases |keys|
  {
    if keys == [] then []
    else
      var last := keys[|keys| - 1];
      Plan(g, keys[..|keys| - 1]) + GroupComparisons(last, Lookup(g, last))
  }

  /** The driver loop: every group in key order, and within it every pair i < j. */
  method CompareAll(groups: PositionFiles) returns (plan: seq<PairComparison>)
    requires groups.Valid()
    ensures plan == Plan(groups.Value(), groups.order)
  {
    plan := [];
    var s := 0;
    while s < |groups.order|
      invariant 0 <= s <= |groups.order|
      invariant plan == Plan(groups.Value(), groups.order[..s])
    {
      var storename := groups.order[s];
      var positionFiles := groups.files[storename];
      var comparisons := ComparePairs(storename, positionFiles);
      assert groups.order[..s + 1][..s] == groups.order[..s];
      assert Lookup(groups.Value(), storename) == positionFiles;
      plan := plan + comparisons;
      s := s + 1;
    }
    assert groups.order[..|groups.order|] == groups.order;
  }

  /** The two nested index loops over one group. */
  method ComparePairs(storename: string, positionFiles: seq<StoreFile>) returns (plan: seq<PairComparison>)
    ensures plan == GroupComparisons(storename, positionFiles)
  {
    plan := [];
    ghost var n := |positionFiles|;
    var i := 0;
    while i < |positionFiles|
      invariant 0 <= i <= n
      invariant InRange(PairsFrom(i, n), n)
      invariant plan + CompareEach(storename, positionFiles, PairsFrom(i, n))
             == GroupComparisons(storename, positionFiles)
    {
      var j := i + 1;
      assert PairsFrom(i, n) == Row(i, j, n) + PairsFrom(i + 1, n);
      while j < |positionFiles|
        invariant i + 1 <= j <= n
        invariant InRange(Row(i, j, n) + PairsFrom(i + 1, n), n)
        invariant plan + CompareEach(storename, positionFiles, Row(i, j, n) + PairsFrom(i + 1, n))
               == GroupComparisons(storename, positionFiles)
      {
        var p1DbName := Sanitize(storename + "_" + LabelText(positionFiles[i].positionName));
        var p2DbName := Sanitize(storename + "_" + LabelText(positionFiles[j].positionName));
        InnerStep(storename, positionFiles, i, j);
        plan := plan + [PairComparison(storename, i, j, p1DbName, positionFiles[i].path,
                                       p2DbName, positionFiles[j].path)];
        j := j + 1;
      }
      assert Row(i, j, n) + PairsFrom(i + 1, n) == PairsFrom(i + 1, n);
      i := i + 1;
    }
  }

  /** One turn of the inner loop: pair (i, j), then the rest of row i and the rows after. */
  lemma InnerStep(store: string, files: seq<StoreFile>, i: nat, j: nat)
    requires i < j < |files|
    ensures InRange(Row(i, j + 1, |files|) + PairsFrom(i + 1, |files|), |files|)
    ensures CompareEach(store, files, Row(i, j, |files|) + PairsFrom(i + 1, |files|))
         == [Compare(store, files, (i, j))]
            + CompareEach(store, files, Row(i, j + 1, |files|) + PairsFrom(i + 1, |files|))
  {
    var n := |files|;
    var rest := Row(i, j + 1, n) + PairsFrom(i + 1, n);
    RestInRange(i, j, n);
    assert Row(i, j, n) + PairsFrom(i + 1, n) == [(i, j)] + rest;
    CompareCons(store, files, (i, j), rest);
  }

  lemma CompareCons(store: string, files: seq<StoreFile>, p: (nat, nat), rest: seq<(nat, nat)>)
    requires p.0 < |files| && p.1 < |files| && InRange(rest, |files|)
    ensures InRange([p] + rest, |files|)
    ensures CompareEach(store, files, [p] + rest) == [Compare(store, files, p)] + CompareEach(store, files, rest)
  {
    CompareEachConcat(store, files, [p], rest);
  }

  lemma RestInRange(i: nat, j: nat, n: nat)
    requires i < j < n
    ensures InRange(Row(i, j + 1, n) + PairsFrom(i + 1, n), n)
  {
    forall p | p in Row(i, j + 1, n) + PairsFrom(i + 1, n)
      ensures p.0 < n && p.1 < n
    {
      assert p in Row(i, j + 1, n) || p in PairsFrom(i + 1, n);
    }
  }
}
