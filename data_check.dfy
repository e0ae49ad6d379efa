/** `check_data` and the script's entry point.  For every NetCDF base name
    the script regenerates a reference file from the CDL description with
    `ncgen`, compares the two `field` arrays and counts the roots whose
    arrays are not close; the run fails when the count is positive.  The
    comparison itself (reading both files and `numpy.allclose`) is the
    parameter `agrees`, a predicate on the root. */
module DataCheck {
  import opened FileNames
  import opened Pairing

  /** `'{}_ref.nc'.format(root)`: the temporary reference file. */
  function ReferenceName(root: string): string
  {
    root + "_ref.nc"
  }

  /** The reference file is never the test file `root.nc` of the same
      root, but it is the test file `(root + "_ref").nc` of the root
      `root_ref`, and it passes the NetCDF filter with that base name.  When
      `root_ref.nc` and `root_ref.cdl` are listed as well, the visit of `root`
      overwrites and then deletes the file the visit of `root_ref` opens, so
      that root's outcome depends on the order of the visits. */
  lemma ReferenceNameProperties(root: string)
    requires '.' !in root
    ensures ReferenceName(root) == (root + "_ref") + ".nc"
    ensures ReferenceName(root) != root + ".nc"
    ensures Selected(ReferenceName(root), "nc")
    ensures BaseName(ReferenceName(root)) == root + "_ref"
  {
    assert ReferenceName(root) == (root + "_ref") + "." + "nc";
    assert |ReferenceName(root)| != |root + ".nc"|;
    BaseNameOfExtended(root + "_ref", "nc");
    SelectedIsSuffix(ReferenceName(root), "nc");
    assert ReferenceName(root)[|ReferenceName(root)| - 2..] == "nc";
  }

  /** `a.b.nc` pairs with `a.b.cdl` (both have base name `ab`), yet the data
      check then opens `ab.nc` and reads `ab.cdl`, files the listing does not
      hold: the base name is not the name of any entry. */
  lemma DottedEntriesPairUnderOtherNames()
    ensures CdlBaseNames(["a.b.nc", "a.b.cdl"]) == ["ab"] == NetcdfBaseNames(["a.b.nc", "a.b.cdl"])
    ensures "ab" + ".nc" !in ["a.b.nc", "a.b.cdl"] && "ab" + ".cdl" !in ["a.b.nc", "a.b.cdl"]
  {
    var listing := ["a.b.nc", "a.b.cdl"];
    DottedSample();
    assert CdlBaseNames(listing) == ["ab"] by {
      FiltersDisjoint("a.b.nc");
      BaseNamesOfTwo("a.b.nc", "a.b.cdl", "cdl");
    }
    assert NetcdfBaseNames(listing) == ["ab"] by {
      FiltersDisjoint("a.b.cdl");
      BaseNamesOfTwo("a.b.nc", "a.b.cdl", "nc");
    }
    DottedSampleFilesAbsent();
  }

  lemma DottedSample()
    ensures BaseName("a.b.nc") == "ab" && BaseName("a.b.cdl") == "ab"
    ensures Selected("a.b.nc", "nc") && Selected("a.b.cdl", "cdl")
  {
    InnerDotsDropped("cdl");
    InnerDotsDropped("nc");
    assert "a.b." + "cdl" == "a.b.cdl" && "a.b." + "nc" == "a.b.nc";
    SelectedIsSuffix("a.b.nc", "nc");
    SelectedIsSuffix("a.b.cdl", "cdl");
  }

  lemma DottedSampleFilesAbsent()
    ensures "ab" + ".nc" !in ["a.b.nc", "a.b.cdl"] && "ab" + ".cdl" !in ["a.b.nc", "a.b.cdl"]
  {
    assert |"ab" + ".nc"| != |"a.b.nc"| && |"ab" + ".nc"| != |"a.b.cdl"|;
    assert ("ab" + ".cdl")[1] != "a.b.nc"[1] && |"ab" + ".cdl"| != |"a.b.cdl"|;
  }

  /** The argument vector of the `ncgen` call. */
  function NcgenArgs(root: string): seq<string>
  {
    ["ncgen", "-k", "nc4", "-o", ReferenceName(root), root + ".cdl"]
  }

  /** What one iteration of the loop does with a root: the command it runs,
      the test file it opens, and whether the comparison passed. */
  datatype Visit = Visit(root: string, command: seq<string>, testFile: string, passed: bool)

  /** The number of roots whose comparison fails. */
  function Failures(roots: seq<string>, agrees: string -> bool): nat
  {
    if roots == [] then 0
    else Failures(roots[..|roots| - 1], agrees) + (if agrees(roots[|roots| - 1]) then 0 else 1)
  }

  /** The positions of the failing roots. */
  ghost function FailingPositions(roots: seq<string>, agrees: string -> bool): set<nat>
  {
    set i: nat | i < |roots| && !agrees(roots[i])
  }

  /** The counter counts exactly the failing positions. */
  lemma {:induction false} FailuresCountsFailingPositions(roots: seq<string>, agrees: string -> bool)
    ensures Failures(roots, agrees) == |FailingPositions(roots, agrees)|
  {
    if roots != [] {
      var n := |roots| - 1;
      var front := roots[..n];
      FailuresCountsFailingPositions(front, agrees);
      var before := FailingPositions(front, agrees);
      if agrees(roots[n]) {
        assert FailingPositions(roots, agrees) == before;
      } else {
        assert FailingPositions(roots, agrees) == before + {n};
        assert n !in before;
      }
    }
  }

  /** No failure is counted exactly when every root's comparison passes. */
  lemma {:induction false} NoFailuresIffAllAgree(roots: seq<string>, agrees: string -> bool)
    ensures Failures(roots, agrees) == 0 <==> forall r :: r in roots ==> agrees(r)
  {
    if roots != [] {
      var n := |roots| - 1;
      var front := roots[..n];
      assert roots == front + [roots[n]];
      NoFailuresIffAllAgree(front, agrees);
    }
  }

  /** At most one failure per root. */
  lemma {:induction false} FailuresBounded(roots: seq<string>, agrees: string -> bool)
    ensures Failures(roots, agrees) <= |roots|
  {
    if roots != [] {
      FailuresBounded(roots[..|roots| - 1], agrees);
    }
  }

  /** The loop of `check_data`: every root is visited, whatever happened
      to the earlier ones, and `nfailures` counts the failing ones; the
      function then returns normally or calls `sys.exit(1)`. */
  method CheckData(listing: seq<string>, agrees: string -> bool) returns (nfailures: nat, visits: seq<Visit>, status: Status)
    ensures nfailures == Failures(NetcdfBaseNames(listing), agrees)
    ensures |visits| == |NetcdfBaseNames(listing)|
    ensures forall i :: 0 <= i < |visits| ==>
      var root := NetcdfBaseNames(listing)[i];
      visits[i] == Visit(root, NcgenArgs(root), root + ".nc", agrees(root))
    ensures status == if nfailures > 0 then Exits(1) else Continues
    ensures status == Continues <==> forall r :: r in NetcdfBaseNames(listing) ==> agrees(r)
  {
    var netcdfFileroot := NetcdfBaseNames(listing);
    nfailures := 0;
    visits := [];
    for i := 0 to |netcdfFileroot|
      invariant nfailures == Failures(netcdfFileroot[..i], agrees)
      invariant |visits| == i
      invariant forall k :: 0 <= k < i ==>
        visits[k] == Visit(netcdfFileroot[k], NcgenArgs(netcdfFileroot[k]), netcdfFileroot[k] + ".nc", agrees(netcdfFileroot[k]))
    {
      var netcdfFile := netcdfFileroot[i];
      var passed := agrees(netcdfFile);
      if !passed {
        nfailures := nfailures + 1;
      }
      visits := visits + [Visit(netcdfFile, NcgenArgs(netcdfFile), netcdfFile + ".nc", passed)];
      assert netcdfFileroot[..i + 1][..i] == netcdfFileroot[..i];
    }
    assert netcdfFileroot[..|netcdfFileroot|] == netcdfFileroot;
    NoFailuresIffAllAgree(netcdfFileroot, agrees);
    status := if nfailures > 0 then Exits(1) else Continues;
  }

  /** The script's entry point: the pairing check, then, only if it did not
      end the process, the data check.  The result is the process's exit
      status. */
  method RunChecks(listing: seq<string>, agrees: string -> bool) returns (exitCode: int)
    ensures exitCode == 0 || exitCode == 1
    ensures exitCode == 0 <==>
      && multiset(CdlBaseNames(listing)) == multiset(NetcdfBaseNames(listing))
      && forall r :: r in NetcdfBaseNames(listing) ==> agrees(r)
  {
    var pairing := CheckFilesMatch(listing);
    match PairingStatus(pairing)
    case Exits(code) =>
      return code;
    case Continues =>
      var nfailures, visits, status := CheckData(listing, agrees);
      exitCode := if status.Exits? then status.code else 0;
  }
}
