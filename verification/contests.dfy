/** The contest list the component displays: the catalog returned by the
    contest-list call, filtered to the "Div. 2" rounds and cut to the first 100. */
module Contests {
  import opened Text

  /** A catalog entry; the component reads only `id` and `name`. */
  datatype Contest = Contest(id: int, name: string)

  /** The substring a contest name must contain to be displayed. */
  const Div2Marker: string := "Div. 2"

  /** The number of contests kept after filtering. */
  const DisplayLimit: nat := 100

  predicate IsDiv2(c: Contest) {
    Includes(c.name, Div2Marker)
  }

  function Min(a: int, b: int): int {
    if a <= b then a else b
  }

  /** The number of Div. 2 contests in `catalog`, counted independently of
      the filter below. */
  function CountDiv2(catalog: seq<Contest>): nat
    decreases |catalog|
  {
    if |catalog| == 0 then 0
    else CountDiv2(catalog[..|catalog| - 1]) + (if IsDiv2(catalog[|catalog| - 1]) then 1 else 0)
  }

  /** `Array.prototype.filter` with the Div. 2 test: the catalog is visited
      left to right and each match is appended to the result. */
  function Div2Only(catalog: seq<Contest>): (r: seq<Contest>)
    ensures |r| == CountDiv2(catalog)
    ensures forall c :: c in r <==> c in catalog && IsDiv2(c)
    decreases |catalog|
  {
    if |catalog| == 0 then []
    else
      var last := catalog[|catalog| - 1];
      Div2Only(catalog[..|catalog| - 1]) + (if IsDiv2(last) then [last] else [])
  }

  /** `Array.prototype.slice(0, n)`: the first `n` entries, or all of them
      when there are fewer. */
  function SliceFront<T>(s: seq<T>, n: nat): (r: seq<T>)
    ensures |r| == Min(|s|, n)
    ensures r == s[..|r|]
  {
    if |s| <= n then s else s[..n]
  }

  /** The list the component shows (the filter and slice of the contest-list
      handler): at most 100 entries, each a Div. 2 contest from the catalog,
      and every Div. 2 contest when there are no more than 100 of them. */
  function DisplayedContests(catalog: seq<Contest>): (r: seq<Contest>)
    ensures |r| == Min(CountDiv2(catalog), DisplayLimit)
    ensures forall i :: 0 <= i < |r| ==> IsDiv2(r[i]) && r[i] in catalog
    ensures CountDiv2(catalog) <= DisplayLimit ==>
              forall c :: c in catalog && IsDiv2(c) ==> c in r
  {
    var all := Div2Only(catalog);
    var r := SliceFront(all, DisplayLimit);
    assert forall i :: 0 <= i < |r| ==> r[i] == all[i];
    r
  }

  /** `pos` lists the catalog positions the filter takes its entries from:
      entry k of the filter is the catalog entry at `pos[k]`, a Div. 2 contest
      with exactly k Div. 2 contests before it, and the positions strictly
      increase. */
  ghost predicate FilterPositions(catalog: seq<Contest>, pos: seq<nat>) {
    && |pos| == |Div2Only(catalog)|
    && (forall k :: 0 <= k < |pos| ==>
          && pos[k] < |catalog|
          && catalog[pos[k]] == Div2Only(catalog)[k]
          && IsDiv2(catalog[pos[k]])
          && CountDiv2(catalog[..pos[k]]) == k)
    && (forall k, l :: 0 <= k < l < |pos| ==> pos[k] < pos[l])
  }

  /** The filter and the count over a catalog with one more entry. */
  lemma Div2OnlySnoc(init: seq<Contest>, x: Contest)
    ensures Div2Only(init + [x]) == Div2Only(init) + (if IsDiv2(x) then [x] else [])
    ensures CountDiv2(init + [x]) == CountDiv2(init) + (if IsDiv2(x) then 1 else 0)
  {
  }

  /** Appending an entry changes neither an earlier entry nor the count
      before it. */
  lemma PrefixKept(init: seq<Contest>, x: Contest, j: nat)
    requires j < |init|
    ensures (init + [x])[j] == init[j]
    ensures CountDiv2((init + [x])[..j]) == CountDiv2(init[..j])
  {
    assert (init + [x])[..j] == init[..j];
  }

  /** Appending an entry keeps every earlier position valid. */
  lemma EarlierPositionsKept(init: seq<Contest>, x: Contest, p: seq<nat>)
    requires FilterPositions(init, p)
    ensures forall k :: 0 <= k < |p| ==>
              && p[k] < |init|
              && (init + [x])[p[k]] == Div2Only(init + [x])[k]
              && IsDiv2((init + [x])[p[k]])
              && CountDiv2((init + [x])[..p[k]]) == k
  {
    Div2OnlySnoc(init, x);
    forall k | 0 <= k < |p|
      ensures (init + [x])[p[k]] == Div2Only(init + [x])[k]
      ensures CountDiv2((init + [x])[..p[k]]) == k
    {
      PrefixKept(init, x, p[k]);
    }
  }

  /** Appending a non-matching entry keeps the positions as they are. */
  lemma SkipStep(init: seq<Contest>, x: Contest, p: seq<nat>)
    requires FilterPositions(init, p) && !IsDiv2(x)
    ensures FilterPositions(init + [x], p)
  {
    Div2OnlySnoc(init, x);
    EarlierPositionsKept(init, x, p);
  }

  /** Appending a matching entry adds its position at the end. */
  lemma KeepStep(init: seq<Contest>, x: Contest, p: seq<nat>)
    requires FilterPositions(init, p) && IsDiv2(x)
    ensures FilterPositions(init + [x], p + [|init|])
  {
    var catalog := init + [x];
    var pos := p + [|init|];
    Div2OnlySnoc(init, x);
    EarlierPositionsKept(init, x, p);
    assert catalog[..|init|] == init;
    assert forall k :: 0 <= k < |p| ==> pos[k] == p[k];
  }

  /** The filter keeps catalog order: there is a position list for it. */
  lemma {:induction false} Div2OnlyPositions(catalog: seq<Contest>) returns (pos: seq<nat>)
    ensures FilterPositions(catalog, pos)
    decreases |catalog|
  {
    if |catalog| == 0 {
      pos := [];
    } else {
      var n := |catalog| - 1;
      var p := Div2OnlyPositions(catalog[..n]);
      assert catalog == catalog[..n] + [catalog[n]];
      if IsDiv2(catalog[n]) {
        KeepStep(catalog[..n], catalog[n], p);
        pos := p + [n];
      } else {
        SkipStep(catalog[..n], catalog[n], p);
        pos := p;
      }
    }
  }

  /** The displayed list is the first min(100, #matches) Div. 2 contests of the
      catalog, in catalog order: its k-th entry sits at the catalog position
      of the k-th match. */
  lemma DisplayedAreFirstMatches(catalog: seq<Contest>) returns (pos: seq<nat>)
    ensures |pos| == |DisplayedContests(catalog)| == Min(CountDiv2(catalog), DisplayLimit)
    ensures forall k :: 0 <= k < |pos| ==>
              && pos[k] < |catalog|
              && catalog[pos[k]] == DisplayedContests(catalog)[k]
              && IsDiv2(catalog[pos[k]])
              && CountDiv2(catalog[..pos[k]]) == k
    ensures forall k, l :: 0 <= k < l < |pos| ==> pos[k] < pos[l]
  {
    var all := Div2OnlyPositions(catalog);
    var r := DisplayedContests(catalog);
    pos := all[..|r|];
  }

  /** A name without a full stop cannot contain the marker. */
  lemma NoStopNotDiv2(c: Contest)
    requires forall j :: 0 <= j < |c.name| ==> c.name[j] != '.'
    ensures !IsDiv2(c)
  {
    IncludesIffOccurs(c.name, Div2Marker);
    if IsDiv2(c) {
      var i :| OccursAt(c.name, Div2Marker, i);
      OccurrenceChar(c.name, Div2Marker, i, 3);
      assert false;
    }
  }

  lemma FirstExampleIsDiv2()
    ensures IsDiv2(Contest(1, "Codeforces Round 1 (Div. 2)"))
  {
    var n := "Codeforces Round 1 (Div. 2)";
    assert n[20..26] == Div2Marker;
    assert OccursAt(n, Div2Marker, 20);
    IncludesIffOccurs(n, Div2Marker);
  }

  lemma SecondExampleIsNotDiv2()
    ensures !IsDiv2(Contest(2, "Educational Round"))
  {
    var n := "Educational Round";
    assert '.' !in n;
    NoStopNotDiv2(Contest(2, n));
  }

  /** A Div. 2 round is kept and an Educational round is dropped. */
  lemma MixedCatalogExample()
    ensures DisplayedContests([Contest(1, "Codeforces Round 1 (Div. 2)"), Contest(2, "Educational Round")])
         == [Contest(1, "Codeforces Round 1 (Div. 2)")]
  {
    var c1 := Contest(1, "Codeforces Round 1 (Div. 2)");
    var c2 := Contest(2, "Educational Round");
    FirstExampleIsDiv2();
    SecondExampleIsNotDiv2();
    MatchThenRejectKeepsFirst(c1, c2);
  }

  lemma MatchThenRejectKeepsFirst(a: Contest, b: Contest)
    requires IsDiv2(a) && !IsDiv2(b)
    ensures DisplayedContests([a, b]) == [a]
  {
    assert [a, b][..1] == [a];
    assert [a][..0] == [];
    assert Div2Only([a]) == [a];
    assert Div2Only([a, b]) == [a];
  }
}
