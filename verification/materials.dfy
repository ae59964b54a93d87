/**
 * Resolving a requested material and its density, as done by
 * `get_refractive_index_from_xraylib` before its per-energy computation, and
 * the main loop that does this for every `--material` argument.
 *
 * The atomic-physics library is not modelled: its answers are parameters.
 * `parse(name)` is the element list of `CompoundParser(name)`, or None when
 * it raises ValueError; `nistDensity(n)` is the density field of
 * `GetCompoundDataNISTByName(n)`; `elementDensity(z)` is `ElementDensity(z)`.
 */
module Materials {
  import opened Wrappers
  import opened Catalog
  import opened Text
  import FileNames

  /** The compound data the density step reads. */
  datatype Compound =
    | Formula(elements: seq<nat>)          // material_type "elements": a parsed formula; nElements is |elements|
    | Nist(name: string, density: real)     // material_type "nist": a catalog record

  /** How the name lookup ends. */
  datatype Lookup =
    | Resolved(compound: Compound)
    | NoUniqueMatch(count: nat, candidates: seq<string>)  // "Found <count> matching materials ...", then exit(1)
    | UnboundMaterialType(candidate: string)              // UnboundLocalError reading material_type

  /**
   * Reference definition of the lookup. A single candidate that is not an
   * exact match reaches the test of `material_type` while that local is still
   * unassigned, so the lookup fails there instead of asking the operator.
   */
  function ExpectedLookup(name: string, parsed: Option<seq<nat>>, catalog: seq<string>,
                          nistDensity: string -> real): Lookup
  {
    match parsed
    case Some(elements) => Resolved(Formula(elements))
    case None =>
      match FirstExact(name, catalog)
      case Some(i) => Resolved(Nist(catalog[i], nistDensity(catalog[i])))
      case None =>
        var matches := SubstringMatches(name, catalog);
        if |matches| == 1 then UnboundMaterialType(matches[0]) else NoUniqueMatch(|matches|, matches)
  }

  /** The lookup part of `get_refractive_index_from_xraylib`. */
  method LookUp(name: string, parsed: Option<seq<nat>>, catalog: seq<string>,
                nistDensity: string -> real) returns (r: Lookup)
    ensures r == ExpectedLookup(name, parsed, catalog, nistDensity)
  {
    var materialType: Option<string> := None;  // None: the local is not yet bound
    match parsed {
      case Some(elements) =>
        materialType := Some("elements");
        r := Resolved(Formula(elements));
      case None =>
        var candidates, nist := ScanCatalog(name, catalog);
        if nist {
          materialType := Some("nist");
        }
        if |candidates| == 1 {
          if materialType.None? {
            r := UnboundMaterialType(candidates[0]);
          } else {
            r := Resolved(Nist(candidates[0], nistDensity(candidates[0])));
          }
        } else {
          r := NoUniqueMatch(|candidates|, candidates);
        }
    }
  }

  /**
   * A name that is not a formula resolves only through an exact catalog match:
   * the catalog record is the first entry equal to the name ignoring case, and
   * a single near miss fails with UnboundMaterialType.
   */
  lemma CatalogOnlyByExactMatch(name: string, catalog: seq<string>, nistDensity: string -> real)
    ensures ExpectedLookup(name, None, catalog, nistDensity).Resolved? <==>
              exists i :: 0 <= i < |catalog| && SameIgnoringCase(catalog[i], name)
    ensures forall n, d :: ExpectedLookup(name, None, catalog, nistDensity) == Resolved(Nist(n, d)) ==>
              FirstExact(name, catalog).Some? && n == catalog[FirstExact(name, catalog).value] &&
              SameIgnoringCase(n, name) && d == nistDensity(n)
    ensures ExpectedLookup(name, None, catalog, nistDensity).UnboundMaterialType? <==>
              FirstExact(name, catalog).None? && |SubstringMatches(name, catalog)| == 1
  {
  }

  /**
   * A single near miss: "gal" is not a formula, no entry equals it, and
   * "Gallium" is the one entry containing it. The run fails on the unbound
   * `material_type` instead of asking "Did you mean Gallium".
   */
  lemma NearMissFailsUnbound(nistDensity: string -> real)
    ensures ExpectedLookup("gal", None, ["Gallium", "Water"], nistDensity) == UnboundMaterialType("Gallium")
  {
    assert Lower("gal") == "gal";
    assert Lower("Gallium") == "gallium";
    assert Lower("Water") == "water";
    assert OccursAt("gallium", "gal", 0);
    forall i: nat
      ensures !OccursAt("water", "gal", i)
    {
      if i + 3 <= 5 {
        assert "water"[i] in "wat";
        assert "water"[i..i + 3][0] == "water"[i] != 'g';
      }
    }
    assert Find("water", "gal") == -1;
    assert SubstringMatches("gal", ["Gallium", "Water"]) == ["Gallium"] by {
      assert ["Gallium", "Water"][..1] == ["Gallium"];
      assert ["Gallium"][..0] == [];
    }
  }

  /** When the scan fails, the reported count is that of the listed candidates, and never 1. */
  lemma FailureReportsCandidates(name: string, catalog: seq<string>, nistDensity: string -> real)
    ensures ExpectedLookup(name, None, catalog, nistDensity).NoUniqueMatch? ==>
              var l := ExpectedLookup(name, None, catalog, nistDensity);
              l.count == |l.candidates| != 1 &&
              (forall x :: x in catalog && ContainsIgnoringCase(x, name) ==> x in l.candidates) &&
              (forall x :: x in l.candidates ==> x in catalog && ContainsIgnoringCase(x, name))
  {
    if ExpectedLookup(name, None, catalog, nistDensity).NoUniqueMatch? {
      forall x | x in catalog && ContainsIgnoringCase(x, name)
        ensures x in SubstringMatches(name, catalog)
      {
        SubstringMatchesComplete(name, catalog, x);
      }
    }
  }

  /** The density chosen for a material, and whether the missing-density warning was printed. */
  datatype DensityChoice = DensityChoice(density: Option<real>, warned: bool)

  /**
   * The density step: an explicit density always wins; otherwise a catalog
   * compound takes its catalog density and a one-element formula takes the
   * element's density; a formula with several elements gets the warning
   * "Please provide density of element compounds!" and no density.
   */
  function ResolveDensity(compound: Compound, given: Option<real>, elementDensity: nat -> real): (d: DensityChoice)
    ensures given.Some? ==> d == DensityChoice(given, false)
    ensures d.warned <==> d.density.None?
    ensures d.density.None? <==> given.None? && compound.Formula? && |compound.elements| != 1
    ensures compound.Nist? ==> d.density == Some(if given.Some? then given.value else compound.density)
  {
    match compound
    case Nist(_, catalogDensity) =>
      if given.None? then DensityChoice(Some(catalogDensity), false) else DensityChoice(given, false)
    case Formula(elements) =>
      if given.Some? then DensityChoice(given, false)
      else if |elements| == 1 then DensityChoice(Some(elementDensity(elements[0])), false)
      else DensityChoice(None, true)
  }

  /** The first present value of a priority list, if any. */
  function FirstAvailable(sources: seq<Option<real>>): (r: Option<real>)
    ensures r.None? <==> forall k :: 0 <= k < |sources| ==> sources[k].None?
    ensures r.Some? ==> exists k :: 0 <= k < |sources| && sources[k] == r &&
                          forall j :: 0 <= j < k ==> sources[j].None?
  {
    if sources == [] then None
    else if sources[0].Some? then sources[0]
    else
      var rest := FirstAvailable(sources[1..]);
      assert forall k :: 1 <= k < |sources| ==> sources[k] == sources[1..][k - 1];
      rest
  }

  /** The density sources in priority order: explicit, catalog, single element. */
  function DensitySources(compound: Compound, given: Option<real>, elementDensity: nat -> real): seq<Option<real>>
  {
    [ given,
      if compound.Nist? then Some(compound.density) else None,
      if compound.Formula? && |compound.elements| == 1 then Some(elementDensity(compound.elements[0])) else None ]
  }

  /** The density step picks the first available source in priority order. */
  lemma DensityIsFirstAvailable(compound: Compound, given: Option<real>, elementDensity: nat -> real)
    ensures ResolveDensity(compound, given, elementDensity).density ==
              FirstAvailable(DensitySources(compound, given, elementDensity))
  {
    var sources := DensitySources(compound, given, elementDensity);
    assert sources[1..][1..] == [sources[2]];
  }

  /** The density given on the command line to material `i`. */
  datatype DensityPick = Picked(density: Option<real>) | DensityIndexError

  /**
   * `args.density[i]` when `--density` was given (IndexError when the list is
   * shorter than the material list), None when it was not.
   */
  function DensityFor(densities: Option<seq<real>>, i: nat): (r: DensityPick)
    ensures r.DensityIndexError? <==> densities.Some? && i >= |densities.value|
    ensures r.Picked? ==> r.density == (if densities.Some? then Some(densities.value[i]) else None)
  {
    match densities
    case None => Picked(None)
    case Some(ds) => if i < |ds| then Picked(Some(ds[i])) else DensityIndexError
  }

  /** The answers of the atomic-physics library for one run. */
  datatype Library = Library(
    parse: string -> Option<seq<nat>>,
    catalog: seq<string>,
    nistDensity: string -> real,
    elementDensity: nat -> real)

  /** What the run did for one material before its refractive indices are computed. */
  datatype Prepared = Prepared(path: string, compound: Compound, density: DensityChoice)

  /** Why the run stopped. */
  datatype Stop = DensityIndex | LookupFailed(lookup: Lookup)

  datatype Step = Done(prepared: Prepared) | Stopped(reason: Stop)

  /** Reference definition of the handling of material `i` of the command line. */
  function MaterialStep(materials: seq<string>, densities: Option<seq<real>>, output: string,
                        lib: Library, i: nat): Step
    requires i < |materials|
  {
    match DensityFor(densities, i)
    case DensityIndexError => Stopped(DensityIndex)
    case Picked(given) =>
      var name := materials[i];
      match ExpectedLookup(name, lib.parse(name), lib.catalog, lib.nistDensity)
      case Resolved(compound) =>
        Done(Prepared(output + FileNames.Stem(name) + ".txt", compound,
                      ResolveDensity(compound, given, lib.elementDensity)))
      case failed => Stopped(LookupFailed(failed))
  }

  /**
   * The main loop: materials are handled in order, each written to
   * `output + get_filename(...)`, and the first failure ends the whole run.
   */
  method ProcessMaterials(energies: seq<real>, materials: seq<string>, densities: Option<seq<real>>,
                          output: string, lib: Library) returns (prepared: seq<Prepared>, stop: Option<Stop>)
    ensures |prepared| <= |materials|
    ensures forall k :: 0 <= k < |prepared| ==>
              MaterialStep(materials, densities, output, lib, k) == Done(prepared[k])
    ensures stop.None? ==> |prepared| == |materials|
    ensures stop.Some? ==>
              |prepared| < |materials| &&
              MaterialStep(materials, densities, output, lib, |prepared|) == Stopped(stop.value)
  {
    prepared, stop := [], None;
    for i := 0 to |materials|
      invariant |prepared| == i
      invariant forall k :: 0 <= k < i ==> MaterialStep(materials, densities, output, lib, k) == Done(prepared[k])
    {
      var name := materials[i];
      var given: Option<real>;
      match DensityFor(densities, i) {
        case DensityIndexError =>
          stop := Some(DensityIndex);
          return;
        case Picked(d) =>
          given := d;
      }
      var lookup := LookUp(name, lib.parse(name), lib.catalog, lib.nistDensity);
      if !lookup.Resolved? {
        stop := Some(LookupFailed(lookup));
        return;
      }
      var choice := ResolveDensity(lookup.compound, given, lib.elementDensity);
      var fileName := FileNames.GetFilename(energies, name);
      prepared := prepared + [Prepared(output + fileName, lookup.compound, choice)];
    }
  }

  /** Material `i` is given `args.density[i]`, or no explicit density when `--density` is absent. */
  lemma DensityAlignment(materials: seq<string>, densities: Option<seq<real>>, output: string,
                         lib: Library, i: nat)
    requires i < |materials|
    requires MaterialStep(materials, densities, output, lib, i).Done?
    ensures densities.Some? ==>
              i < |densities.value| &&
              MaterialStep(materials, densities, output, lib, i).prepared.density ==
                DensityChoice(Some(densities.value[i]), false)
    ensures densities.None? ==>
              var p := MaterialStep(materials, densities, output, lib, i).prepared;
              p.density == ResolveDensity(p.compound, None, lib.elementDensity)
  {
  }

  /** The run stops on a density index exactly when fewer densities than materials were given. */
  lemma DensityIndexStop(materials: seq<string>, densities: Option<seq<real>>, output: string, lib: Library)
    requires densities.Some? && |densities.value| < |materials|
    ensures MaterialStep(materials, densities, output, lib, |densities.value|) == Stopped(DensityIndex)
    ensures forall k :: 0 <= k < |densities.value| ==>
              MaterialStep(materials, densities, output, lib, k) != Stopped(DensityIndex)
  {
  }
}
