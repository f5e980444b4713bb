/** Which shares a run scans: the include list when one is given, otherwise
    every share the server offers except the excluded ones and the
    administrative ones (whose names end in '$'). */
module ShareSelection {

  const AdminMarker: char := '$'

  /** A share the default selection keeps: not excluded and not administrative.
      The exclusion test comes first, so an excluded name is never indexed. */
  predicate Kept(name: string, exclude: seq<string>)
    requires name in exclude || name != ""
  {
    name !in exclude && name[|name| - 1] != AdminMarker
  }

  /** Only names that are excluded may be empty: the source indexes the last
      character of every other name. */
  ghost predicate IndexableNames(shares: seq<string>, exclude: seq<string>)
  {
    forall i :: 0 <= i < |shares| ==> shares[i] in exclude || shares[i] != ""
  }

  /** The kept shares, in the server's order. */
  function KeptShares(shares: seq<string>, exclude: seq<string>): (r: seq<string>)
    requires IndexableNames(shares, exclude)
    ensures |r| <= |shares|
    ensures forall i :: 0 <= i < |r| ==> r[i] in shares && r[i] !in exclude && r[i] != "" && r[i][|r[i]| - 1] != AdminMarker
  {
    if shares == [] then []
    else
      var rest := KeptShares(shares[1..], exclude);
      if Kept(shares[0], exclude) then [shares[0]] + rest else rest
  }

  /** A name is kept exactly when the server offers it, it is not excluded
      and it does not end in '$'. */
  lemma {:induction false} KeptSharesMembers(shares: seq<string>, exclude: seq<string>)
    requires IndexableNames(shares, exclude)
    ensures forall n :: n in KeptShares(shares, exclude) <==>
      n in shares && n !in exclude && n[|n| - 1] != AdminMarker
  {
    if shares != [] {
      KeptSharesMembers(shares[1..], exclude);
      assert forall n :: n in shares <==> n == shares[0] || n in shares[1..];
    }
  }

  /** `xs` is `ys` with some elements left out, the rest in their order. */
  ghost predicate SubsequenceOf(xs: seq<string>, ys: seq<string>)
    decreases |ys|
  {
    if ys == [] then xs == []
    else (xs != [] && xs[0] == ys[0] && SubsequenceOf(xs[1..], ys[1..])) || SubsequenceOf(xs, ys[1..])
  }

  /** The kept shares keep the server's relative order. */
  lemma {:induction false} KeptSharesInOrder(shares: seq<string>, exclude: seq<string>)
    requires IndexableNames(shares, exclude)
    ensures SubsequenceOf(KeptShares(shares, exclude), shares)
  {
    if shares != [] {
      KeptSharesInOrder(shares[1..], exclude);
      var r := KeptShares(shares, exclude);
      if Kept(shares[0], exclude) {
        assert r[1..] == KeptShares(shares[1..], exclude);
      }
    }
  }

  /** get_shares: a non-empty include list is returned as it is; otherwise
      the share list is filtered. */
  method GetShares(shares: seq<string>, includeList: seq<string>, exclude: seq<string>) returns (result: seq<string>)
    requires includeList == [] ==> IndexableNames(shares, exclude)
    ensures includeList != [] ==> result == includeList
    ensures includeList == [] ==> result == KeptShares(shares, exclude)
  {
    if includeList == [] {
      result := [];
      var i := 0;
      while i < |shares|
        invariant 0 <= i <= |shares|
        invariant result + KeptShares(shares[i..], exclude) == KeptShares(shares, exclude)
      {
        var name := shares[i];
        assert shares[i..][1..] == shares[i + 1..];
        if (name !in exclude) && (name[|name| - 1] != AdminMarker) {
          result := result + [name];
        }
        i := i + 1;
      }
    } else {
      result := includeList;
    }
  }

  /** Shares [A, B, C$] with B excluded and no include list leave [A]. */
  lemma SelectionExample()
    ensures KeptShares(["A", "B", "C$"], ["B"]) == ["A"]
  {
    assert ["A", "B", "C$"][1..] == ["B", "C$"];
    assert ["B", "C$"][1..] == ["C$"];
    assert ["C$"][1..] == [];
  }
}
