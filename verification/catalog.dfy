/**
 * The scan of the NIST compound catalog that runs when a material name is
 * not a chemical formula: a case-insensitive exact match wins and ends the
 * scan; otherwise every entry that contains the name, ignoring case, is a
 * candidate.
 */
module Catalog {
  import opened Wrappers
  import opened Text

  /** `entry.lower() == name.lower()`. */
  predicate SameIgnoringCase(entry: string, name: string)
  {
    Lower(entry) == Lower(name)
  }

  /** `entry.lower().find(name.lower()) >= 0`. */
  predicate ContainsIgnoringCase(entry: string, name: string)
  {
    Find(Lower(entry), Lower(name)) >= 0
  }

  /** `i` is the first catalog index whose entry equals the name ignoring case. */
  ghost predicate IsFirstExact(name: string, catalog: seq<string>, i: nat)
  {
    i < |catalog| && SameIgnoringCase(catalog[i], name) &&
    forall j :: 0 <= j < i ==> !SameIgnoringCase(catalog[j], name)
  }

  /** The index of the first entry equal to the name ignoring case, if any. */
  function FirstExact(name: string, catalog: seq<string>): (r: Option<nat>)
    ensures r.Some? ==> IsFirstExact(name, catalog, r.value)
    ensures r.None? <==> forall j :: 0 <= j < |catalog| ==> !SameIgnoringCase(catalog[j], name)
  {
    if catalog == [] then None
    else match FirstExact(name, catalog[..|catalog| - 1])
      case Some(i) => Some(i)
      case None => if SameIgnoringCase(catalog[|catalog| - 1], name) then Some(|catalog| - 1) else None
  }

  /** The catalog entries that contain the name ignoring case, in catalog order. */
  function SubstringMatches(name: string, catalog: seq<string>): (r: seq<string>)
    ensures |r| <= |catalog|
    ensures forall x :: x in r ==> x in catalog && ContainsIgnoringCase(x, name)
  {
    if catalog == [] then []
    else
      var rest := SubstringMatches(name, catalog[..|catalog| - 1]);
      var last := catalog[|catalog| - 1];
      if ContainsIgnoringCase(last, name) then rest + [last] else rest
  }

  /** Every entry that contains the name is among the substring matches. */
  lemma {:induction false} SubstringMatchesComplete(name: string, catalog: seq<string>, x: string)
    requires x in catalog && ContainsIgnoringCase(x, name)
    ensures x in SubstringMatches(name, catalog)
  {
    var n := |catalog| - 1;
    if x != catalog[n] {
      assert x in catalog[..n] by {
        var i :| 0 <= i < |catalog| && catalog[i] == x;
        assert catalog[..n][i] == x;
      }
      SubstringMatchesComplete(name, catalog[..n], x);
    }
  }

  /** The matches of a catalog split in two are the matches of each part, in order. */
  lemma {:induction false} SubstringMatchesConcat(name: string, a: seq<string>, b: seq<string>)
    ensures SubstringMatches(name, a + b) == SubstringMatches(name, a) + SubstringMatches(name, b)
    decreases |b|
  {
    if b == [] {
      assert a + b == a;
    } else {
      var n := |b| - 1;
      assert (a + b)[..|a + b| - 1] == a + b[..n];
      assert (a + b)[|a + b| - 1] == b[n];
      SubstringMatchesConcat(name, a, b[..n]);
    }
  }

  /** An entry equal to the name ignoring case also contains it. */
  lemma ExactIsSubstring(entry: string, name: string)
    requires SameIgnoringCase(entry, name)
    ensures ContainsIgnoringCase(entry, name)
  {
    assert OccursAt(Lower(entry), Lower(name), 0);
  }

  /**
   * The scan loop: with a case-insensitive exact match the candidate list is
   * exactly the first such entry and `material_type` is set to "nist"
   * (`nist` is true); otherwise the candidates are the substring matches in
   * catalog order and `material_type` is left unassigned.
   */
  method ScanCatalog(name: string, catalog: seq<string>) returns (candidates: seq<string>, nist: bool)
    ensures nist <==> FirstExact(name, catalog).Some?
    ensures nist ==> candidates == [catalog[FirstExact(name, catalog).value]]
    ensures !nist ==> candidates == SubstringMatches(name, catalog)
  {
    candidates, nist := [], false;
    for i := 0 to |catalog|
      invariant !nist
      invariant candidates == SubstringMatches(name, catalog[..i])
      invariant forall j :: 0 <= j < i ==> !SameIgnoringCase(catalog[j], name)
    {
      if Lower(catalog[i]) == Lower(name) {
        nist := true;
        candidates := [catalog[i]];
        assert IsFirstExact(name, catalog, i);
        break;
      } else if Find(Lower(catalog[i]), Lower(name)) >= 0 {
        candidates := candidates + [catalog[i]];
      }
      assert catalog[..i + 1][..i] == catalog[..i];
    }
    if !nist {
      assert catalog[..|catalog|] == catalog;
    }
  }

  /** The exact match wins even when earlier entries were collected as substring matches. */
  lemma ExactMatchResetsCandidates(name: string, catalog: seq<string>, i: nat)
    requires IsFirstExact(name, catalog, i)
    ensures catalog[i] in SubstringMatches(name, catalog)
    ensures SubstringMatches(name, catalog[..i + 1]) == SubstringMatches(name, catalog[..i]) + [catalog[i]]
  {
    ExactIsSubstring(catalog[i], name);
    SubstringMatchesComplete(name, catalog, catalog[i]);
    assert catalog[..i + 1][..i] == catalog[..i];
  }
}
