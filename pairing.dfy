/** `check_files_match`: every NetCDF output must have a CDL description
    with the same base name and vice versa.  The script copies the two
    base-name lists and shrinks each copy with `list.remove`, once per name
    of the other list that also occurs in the original; what is left over in
    either copy is reported and the process exits with status 1. */
module Pairing {
  import opened PyBuiltins
  import opened FileNames

  /** `s` with, for every name `x`, its leftmost `m[x]` occurrences taken
      out (all of them when `m[x]` is larger); everything else keeps its
      order.  This is what the removal loops leave in the copied list. */
  function DropLeftmost<T(==)>(s: seq<T>, m: multiset<T>): seq<T>
  {
    if s == [] then []
    else if s[0] in m then DropLeftmost(s[1..], m - multiset{s[0]})
    else [s[0]] + DropLeftmost(s[1..], m)
  }

  /** Counted with multiplicity, what is left is the original minus the
      occurrences asked for. */
  lemma {:induction false} DropLeftmostMultiset<T(!new)>(s: seq<T>, m: multiset<T>)
    ensures multiset(DropLeftmost(s, m)) == multiset(s) - m
  {
    if s != [] {
      var x, t := s[0], s[1..];
      assert s == [x] + t;
      if x in m {
        DropLeftmostMultiset(t, m - multiset{x});
        assert multiset(s) - m == multiset(t) - (m - multiset{x});
      } else {
        DropLeftmostMultiset(t, m);
        assert multiset(s) - m == multiset{x} + (multiset(t) - m);
      }
    }
  }

  /** `a` is obtained from `b` by deleting elements, without reordering. */
  predicate IsSubsequence<T(==)>(a: seq<T>, b: seq<T>)
  {
    a == [] || (b != [] && ((a[0] == b[0] && IsSubsequence(a[1..], b[1..])) || IsSubsequence(a, b[1..])))
  }

  /** `s` with every member of `xs` taken out, in the order of `s`. */
  function Without<T(==,!new)>(s: seq<T>, xs: seq<T>): (r: seq<T>)
    ensures forall y :: y in r <==> y in s && y !in xs
  {
    if s == [] then []
    else
      assert s == [s[0]] + s[1..];
      if s[0] in xs then Without(s[1..], xs) else [s[0]] + Without(s[1..], xs)
  }

  predicate NoDuplicates<T(==)>(s: seq<T>)
  {
    forall i, j :: 0 <= i < j < |s| ==> s[i] != s[j]
  }

  ghost function Elements<T(!new)>(s: seq<T>): set<T>
  {
    set x | x in s
  }

  /** The loop `for x in source: if x in guard: copy.remove(x)` raises
      `ValueError` exactly when some name occurs in `guard` but fewer times
      than in `source`: the copy runs out of that name before `source` does. */
  ghost predicate RemoveRaises<T(!new)>(source: seq<T>, guard: seq<T>)
  {
    exists x :: 0 < multiset(guard)[x] < multiset(source)[x]
  }

  /** The result of one removal loop: the shrunken copy, or the name whose
      `remove` raised. */
  datatype Removal<T> = Removed(residual: seq<T>) | Raised(name: T)

  lemma {:induction false} DropLeftmostNothing<T(!new)>(s: seq<T>)
    ensures DropLeftmost(s, multiset{}) == s
  {
    if s != [] {
      DropLeftmostNothing(s[1..]);
    }
  }

  /** Names that do not occur in `s` never matter. */
  lemma {:induction false} DropLeftmostAbsent<T(!new)>(s: seq<T>, m: multiset<T>, x: T)
    requires x !in s
    ensures DropLeftmost(s, m + multiset{x}) == DropLeftmost(s, m)
  {
    if s != [] {
      var y, t := s[0], s[1..];
      assert s == [y] + t;
      if y in m {
        assert (m + multiset{x}) - multiset{y} == (m - multiset{y}) + multiset{x};
        DropLeftmostAbsent(t, m - multiset{y}, x);
      } else {
        DropLeftmostAbsent(t, m, x);
      }
    }
  }

  /** One more `remove(x)` on the copy is the same as asking for one more
      occurrence of `x` to be dropped. */
  lemma {:induction false} DropLeftmostStep<T(!new)>(s: seq<T>, m: multiset<T>, x: T)
    requires x in DropLeftmost(s, m)
    ensures ListRemove(DropLeftmost(s, m), x) == Some(DropLeftmost(s, m + multiset{x}))
  {
    var y, t := s[0], s[1..];
    assert s == [y] + t;
    if y in m {
      assert (m + multiset{x}) - multiset{y} == (m - multiset{y}) + multiset{x};
      DropLeftmostStep(t, m - multiset{y}, x);
    } else if y == x {
      assert (m + multiset{x}) - multiset{x} == m;
      assert ([x] + DropLeftmost(t, m))[1..] == DropLeftmost(t, m);
    } else {
      var k := DropLeftmost(t, m);
      assert ([y] + k)[1..] == k;
      DropLeftmostStep(t, m, x);
    }
  }

  /** Whatever is left over was in the original list. */
  lemma DropLeftmostWithin<T(!new)>(s: seq<T>, m: multiset<T>)
    ensures forall y :: y in DropLeftmost(s, m) ==> y in s
  {
    DropLeftmostMultiset(s, m);
    forall y | y in DropLeftmost(s, m) ensures y in s {
      assert y in multiset(DropLeftmost(s, m));
    }
  }

  /** What the removal loops leave is a subsequence of the original list. */
  lemma {:induction false} DropLeftmostIsSubsequence<T(!new)>(s: seq<T>, m: multiset<T>)
    ensures IsSubsequence(DropLeftmost(s, m), s)
  {
    if s != [] {
      var x, t := s[0], s[1..];
      if x in m {
        DropLeftmostIsSubsequence(t, m - multiset{x});
      } else {
        DropLeftmostIsSubsequence(t, m);
        assert ([x] + DropLeftmost(t, m))[1..] == DropLeftmost(t, m);
      }
    }
  }

  lemma {:induction false} DropLeftmostDistinctGeneral<T(!new)>(s: seq<T>, m: multiset<T>, xs: seq<T>)
    requires NoDuplicates(s)
    requires forall y :: y in s ==> (y in m <==> y in xs)
    ensures DropLeftmost(s, m) == Without(s, xs)
  {
    if s != [] {
      var x, t := s[0], s[1..];
      assert s == [x] + t;
      assert x !in t;
      assert NoDuplicates(t) by {
        forall i, j | 0 <= i < j < |t| ensures t[i] != t[j] {
          assert s[i + 1] != s[j + 1];
        }
      }
      if x in m {
        assert forall y :: y in t ==> (y in m - multiset{x} <==> y in m);
        DropLeftmostDistinctGeneral(t, m - multiset{x}, xs);
      } else {
        DropLeftmostDistinctGeneral(t, m, xs);
      }
    }
  }

  /** For a duplicate-free list, the removal leaves exactly the names that
      the other list does not contain, in their original order. */
  lemma DropLeftmostOfDistinct<T(!new)>(s: seq<T>, xs: seq<T>)
    requires NoDuplicates(s)
    ensures DropLeftmost(s, multiset(xs)) == Without(s, xs)
  {
    DropLeftmostDistinctGeneral(s, multiset(xs), xs);
  }

  lemma {:induction false} DistinctCountsAtMostOne<T(!new)>(s: seq<T>, x: T)
    requires NoDuplicates(s)
    ensures multiset(s)[x] <= 1
  {
    if s != [] {
      var y, t := s[0], s[1..];
      assert s == [y] + t;
      assert NoDuplicates(t) by {
        forall i, j | 0 <= i < j < |t| ensures t[i] != t[j] {
          assert s[i + 1] != s[j + 1];
        }
      }
      DistinctCountsAtMostOne(t, x);
      assert y !in t;
    }
  }

  /** Between duplicate-free lists no `remove` can raise, and having the
      same multiset of names is having the same set of names. */
  lemma DistinctLists<T(!new)>(a: seq<T>, b: seq<T>)
    requires NoDuplicates(a) && NoDuplicates(b)
    ensures !RemoveRaises(a, b) && !RemoveRaises(b, a)
    ensures multiset(a) == multiset(b) <==> Elements(a) == Elements(b)
  {
    forall x ensures multiset(a)[x] <= 1 && multiset(b)[x] <= 1 {
      DistinctCountsAtMostOne(a, x);
      DistinctCountsAtMostOne(b, x);
    }
    if Elements(a) == Elements(b) {
      forall x ensures multiset(a)[x] == multiset(b)[x] {
        assert x in a <==> x in Elements(a);
        assert x in b <==> x in Elements(b);
      }
    }
    if multiset(a) == multiset(b) {
      forall x ensures x in Elements(a) <==> x in Elements(b) {
        assert x in a <==> x in multiset(a);
        assert x in b <==> x in multiset(b);
      }
    }
  }

  /** The `remove` for `source[i]` finds the copy out of that name once the
      earlier names have used up all its occurrences in `guard`. */
  lemma RaisesAt<T(!new)>(source: seq<T>, guard: seq<T>, i: nat)
    requires i < |source| && source[i] in guard
    requires source[i] !in DropLeftmost(guard, multiset(source[..i]))
    ensures 0 < multiset(guard)[source[i]] < multiset(source)[source[i]]
    ensures RemoveRaises(source, guard)
  {
    var x, used := source[i], multiset(source[..i]);
    DropLeftmostMultiset(guard, used);
    assert multiset(DropLeftmost(guard, used))[x] == (multiset(guard) - used)[x] == 0;
    assert source == source[..i] + [x] + source[i + 1..];
  }

  /** No name of `guard` has been asked for more often than it occurs there. */
  ghost predicate WithinGuard<T(!new)>(used: multiset<T>, guard: seq<T>)
  {
    forall y {:trigger used[y]} :: y in guard ==> used[y] <= multiset(guard)[y]
  }

  /** A successful `remove(x)` keeps the copy equal to `DropLeftmost` and
      keeps every name within its count in `guard`. */
  lemma WithinGuardStep<T(!new)>(used: multiset<T>, guard: seq<T>, x: T)
    requires WithinGuard(used, guard)
    requires x in DropLeftmost(guard, used)
    ensures ListRemove(DropLeftmost(guard, used), x) == Some(DropLeftmost(guard, used + multiset{x}))
    ensures WithinGuard(used + multiset{x}, guard)
  {
    DropLeftmostStep(guard, used, x);
    DropLeftmostMultiset(guard, used);
    assert multiset(DropLeftmost(guard, used))[x] > 0;
  }

  lemma NeverRaises<T(!new)>(source: seq<T>, guard: seq<T>)
    requires WithinGuard(multiset(source), guard)
    ensures !RemoveRaises(source, guard)
  {
    forall x ensures !(0 < multiset(guard)[x] < multiset(source)[x]) {
      if 0 < multiset(guard)[x] {
        assert x in guard;
      }
    }
  }

  /** One iteration of a removal loop, stated on the prefix of `source`
      already handled: when the name is in `guard` and still in the copy,
      `remove` takes the copy to the next `DropLeftmost`; otherwise the copy
      is already the next one.  Either way no name exceeds its count. */
  lemma RemovalStep<T(!new)>(source: seq<T>, guard: seq<T>, i: nat)
    requires i < |source| && WithinGuard(multiset(source[..i]), guard)
    requires source[i] in guard ==> source[i] in DropLeftmost(guard, multiset(source[..i]))
    ensures WithinGuard(multiset(source[..i + 1]), guard)
    ensures DropLeftmost(guard, multiset(source[..i + 1])) ==
      if source[i] in guard then ListRemove(DropLeftmost(guard, multiset(source[..i])), source[i]).value
      else DropLeftmost(guard, multiset(source[..i]))
  {
    var x, used := source[i], multiset(source[..i]);
    assert source[..i + 1] == source[..i] + [x];
    if x in guard {
      WithinGuardStep(used, guard, x);
    } else {
      DropLeftmostAbsent(guard, used, x);
      assert WithinGuard(used + multiset{x}, guard) by {
        forall y | y in guard ensures (used + multiset{x})[y] <= multiset(guard)[y] {
          assert y != x;
        }
      }
    }
  }

  /** Where the loop `for x in rest: if x in guard: copy.remove(x)` ends,
      started from `copy`: the final copy, or the name whose `remove`
      raised. */
  function RemovalLoop<T(==)>(copy: seq<T>, rest: seq<T>, guard: seq<T>): Removal<T>
    decreases |rest|
  {
    if rest == [] then Removed(copy)
    else if rest[0] in guard then
      match ListRemove(copy, rest[0])
      case None => Raised(rest[0])
      case Some(c) => RemovalLoop(c, rest[1..], guard)
    else RemovalLoop(copy, rest[1..], guard)
  }

  /** The loop from position `i` on, with the copy as the earlier names left
      it: it raises exactly when some name is outnumbered, and otherwise
      leaves `DropLeftmost(guard, multiset(source))`. */
  lemma {:induction false} RemovalLoopFrom<T(!new)>(source: seq<T>, guard: seq<T>, i: nat)
    requires i <= |source| && WithinGuard(multiset(source[..i]), guard)
    ensures var r := RemovalLoop(DropLeftmost(guard, multiset(source[..i])), source[i..], guard);
      && (r.Removed? <==> !RemoveRaises(source, guard))
      && (r.Removed? ==> r.residual == DropLeftmost(guard, multiset(source)))
      && (r.Raised? ==> 0 < multiset(guard)[r.name] < multiset(source)[r.name])
    decreases |source| - i
  {
    var copy := DropLeftmost(guard, multiset(source[..i]));
    if i == |source| {
      assert source[..i] == source;
      NeverRaises(source, guard);
    } else {
      var x := source[i];
      assert source[i..][0] == x && source[i..][1..] == source[i + 1..];
      if x in guard && x !in copy {
        RaisesAt(source, guard, i);
      } else {
        RemovalStep(source, guard, i);
        RemovalLoopFrom(source, guard, i + 1);
      }
    }
  }

  /** The whole loop, started from an untouched copy of `guard`. */
  lemma RemovalLoopOutcome<T(!new)>(source: seq<T>, guard: seq<T>)
    ensures var r := RemovalLoop(guard, source, guard);
      && (r.Removed? <==> !RemoveRaises(source, guard))
      && (r.Removed? ==> r.residual == DropLeftmost(guard, multiset(source)))
      && (r.Raised? ==> 0 < multiset(guard)[r.name] < multiset(source)[r.name])
  {
    DropLeftmostNothing(guard);
    assert source[..0] == [] && source[0..] == source;
    RemovalLoopFrom(source, guard, 0);
  }

  /** One removal loop of the script (lines 18-22 with `source` the CDL
      names and `guard` the NetCDF names, lines 18-19 and 23-25 the other
      way round): copy `guard`, then for each name of `source` that occurs in
      the original `guard`, `remove` it from the copy.  The original lists
      are values here and cannot change; only the copy does. */
  method RemoveMatched<T(==,!new)>(source: seq<T>, guard: seq<T>) returns (r: Removal<T>)
    ensures r == RemovalLoop(guard, source, guard)
    ensures r.Removed? <==> !RemoveRaises(source, guard)
    ensures r.Removed? ==> r.residual == DropLeftmost(guard, multiset(source))
    ensures r.Raised? ==> 0 < multiset(guard)[r.name] < multiset(source)[r.name]
  {
    RemovalLoopOutcome(source, guard);
    var copy := guard;
    var i := 0;
    while i < |source|
      invariant i <= |source|
      invariant RemovalLoop(copy, source[i..], guard) == RemovalLoop(guard, source, guard)
    {
      var x := source[i];
      assert source[i..][0] == x && source[i..][1..] == source[i + 1..];
      if x in guard {
        var removed := ListRemove(copy, x);
        if removed.None? {
          return Raised(x);
        }
        copy := removed.value;
      }
      i := i + 1;
    }
    return Removed(copy);
  }

  /** `'{}.<ext>'.format(f)` for every name, in order. */
  function WithExtension(names: seq<string>, ext: string): (r: seq<string>)
    ensures |r| == |names|
  {
    seq(|names|, i requires 0 <= i < |names| => names[i] + "." + ext)
  }

  /** A reported file name is picked by the same filter and has the
      residual name as its base name. */
  lemma WithExtensionRoundTrip(names: seq<string>, ext: string)
    requires forall i :: 0 <= i < |names| ==> '.' !in names[i]
    requires |ext| > 0 && '.' !in ext
    ensures forall i :: 0 <= i < |names| ==> Selected(WithExtension(names, ext)[i], ext) && BaseName(WithExtension(names, ext)[i]) == names[i]
  {
    forall i | 0 <= i < |names|
      ensures Selected(WithExtension(names, ext)[i], ext) && BaseName(WithExtension(names, ext)[i]) == names[i]
    {
      var f := names[i] + "." + ext;
      assert WithExtension(names, ext)[i] == f;
      BaseNameOfExtended(names[i], ext);
      SelectedIsSuffix(f, ext);
      assert f[|f| - |ext|..] == ext;
    }
  }

  /** A message on standard error listing the files of one kind that have
      no partner. */
  datatype Report =
    | NoNetcdfFor(files: seq<string>)   // "The following cdl files do not have a corresponding netcdf file"
    | NoCdlFor(files: seq<string>)      // "The following NetCDF files do not have a corresponding cdl file"

  /** The messages written after `FAIL`: the CDL leftovers first, then the
      NetCDF leftovers, each only when there is something to list. */
  function MismatchReports(cdlLeft: seq<string>, netcdfLeft: seq<string>): (reports: seq<Report>)
    ensures forall k :: 0 <= k < |reports| ==> |reports[k].files| > 0
    ensures |cdlLeft| > 0 <==> NoNetcdfFor(WithExtension(cdlLeft, "cdl")) in reports
    ensures |netcdfLeft| > 0 <==> NoCdlFor(WithExtension(netcdfLeft, "nc")) in reports
    ensures |reports| == (if |cdlLeft| > 0 then 1 else 0) + (if |netcdfLeft| > 0 then 1 else 0)
    ensures forall k :: 0 <= k < |reports| ==>
      reports[k] == NoNetcdfFor(WithExtension(cdlLeft, "cdl")) || reports[k] == NoCdlFor(WithExtension(netcdfLeft, "nc"))
    ensures |reports| == 2 ==> reports[0].NoNetcdfFor? && reports[1].NoCdlFor?
  {
    (if |cdlLeft| > 0 then [NoNetcdfFor(WithExtension(cdlLeft, "cdl"))] else [])
    + (if |netcdfLeft| > 0 then [NoCdlFor(WithExtension(netcdfLeft, "nc"))] else [])
  }

  /** What `check_files_match` ends in. */
  datatype PairingOutcome =
    | Matched                                                              // "OK", returns normally
    | Mismatched(cdlLeft: seq<string>, netcdfLeft: seq<string>, reports: seq<Report>)  // "FAIL", sys.exit(1)
    | RemoveFailed(name: string)                                           // uncaught ValueError from list.remove

  /** How the process continues after a check: it goes on, or it ends with
      an exit status (an uncaught exception ends a Python process with
      status 1). */
  datatype Status = Continues | Exits(code: int)

  function PairingStatus(o: PairingOutcome): (s: Status)
    ensures s == Continues <==> o.Matched?
    ensures s != Continues ==> s == Exits(1)
  {
    if o.Matched? then Continues else Exits(1)
  }

  lemma EmptyResidualsIffSameNames(a: seq<string>, b: seq<string>)
    ensures (multiset(a) - multiset(b) == multiset{} && multiset(b) - multiset(a) == multiset{}) <==> multiset(a) == multiset(b)
  {
    if multiset(a) - multiset(b) == multiset{} && multiset(b) - multiset(a) == multiset{} {
      forall x ensures multiset(a)[x] == multiset(b)[x] {
        assert (multiset(a) - multiset(b))[x] == 0;
        assert (multiset(b) - multiset(a))[x] == 0;
      }
    }
  }

  /** The pairing check on one directory listing. */
  method CheckFilesMatch(listing: seq<string>) returns (outcome: PairingOutcome)
    ensures outcome.Matched? <==> multiset(CdlBaseNames(listing)) == multiset(NetcdfBaseNames(listing))
    ensures outcome.RemoveFailed? <==>
      RemoveRaises(CdlBaseNames(listing), NetcdfBaseNames(listing)) || RemoveRaises(NetcdfBaseNames(listing), CdlBaseNames(listing))
    ensures outcome.RemoveFailed? ==>
      var cdl, nc := multiset(CdlBaseNames(listing)), multiset(NetcdfBaseNames(listing));
      0 < nc[outcome.name] < cdl[outcome.name]
      || (!RemoveRaises(CdlBaseNames(listing), NetcdfBaseNames(listing)) && 0 < cdl[outcome.name] < nc[outcome.name])
    ensures outcome.Mismatched? ==>
      && outcome.cdlLeft == DropLeftmost(CdlBaseNames(listing), multiset(NetcdfBaseNames(listing)))
      && outcome.netcdfLeft == DropLeftmost(NetcdfBaseNames(listing), multiset(CdlBaseNames(listing)))
      && (|outcome.cdlLeft| > 0 || |outcome.netcdfLeft| > 0)
      && outcome.reports == MismatchReports(outcome.cdlLeft, outcome.netcdfLeft)
      && (forall y :: y in outcome.cdlLeft ==> y in CdlBaseNames(listing))
      && (forall y :: y in outcome.netcdfLeft ==> y in NetcdfBaseNames(listing))
    ensures NoDuplicates(CdlBaseNames(listing)) && NoDuplicates(NetcdfBaseNames(listing)) ==>
      && !outcome.RemoveFailed?
      && (outcome.Matched? <==> Elements(CdlBaseNames(listing)) == Elements(NetcdfBaseNames(listing)))
      && (outcome.Mismatched? ==>
            && outcome.cdlLeft == Without(CdlBaseNames(listing), NetcdfBaseNames(listing))
            && outcome.netcdfLeft == Without(NetcdfBaseNames(listing), CdlBaseNames(listing)))
  {
    var cdlFilenames := CdlBaseNames(listing);
    var netcdfFilenames := NetcdfBaseNames(listing);
    EmptyResidualsIffSameNames(cdlFilenames, netcdfFilenames);
    DropLeftmostMultiset(cdlFilenames, multiset(netcdfFilenames));
    DropLeftmostMultiset(netcdfFilenames, multiset(cdlFilenames));
    if NoDuplicates(cdlFilenames) && NoDuplicates(netcdfFilenames) {
      DistinctLists(cdlFilenames, netcdfFilenames);
      DropLeftmostOfDistinct(cdlFilenames, netcdfFilenames);
      DropLeftmostOfDistinct(netcdfFilenames, cdlFilenames);
    }
    var first := RemoveMatched(cdlFilenames, netcdfFilenames);
    if first.Raised? {
      return RemoveFailed(first.name);
    }
    var second := RemoveMatched(netcdfFilenames, cdlFilenames);
    if second.Raised? {
      return RemoveFailed(second.name);
    }
    var netcdfFnames, cdlFnames := first.residual, second.residual;
    if |cdlFnames| == 0 && |netcdfFnames| == 0 {
      return Matched;
    }
    assert multiset(cdlFnames) != multiset{} || multiset(netcdfFnames) != multiset{};
    DropLeftmostWithin(cdlFilenames, multiset(netcdfFilenames));
    DropLeftmostWithin(netcdfFilenames, multiset(cdlFilenames));
    return Mismatched(cdlFnames, netcdfFnames, MismatchReports(cdlFnames, netcdfFnames));
  }

  /** Two CDL entries with one base name and a single NetCDF entry with
      that name: the second `remove` of the first loop raises. */
  lemma OutnumberedCdlNameRaises(c1: string, c2: string, n: string)
    requires Selected(c1, "cdl") && Selected(c2, "cdl") && Selected(n, "nc")
    requires BaseName(c1) == BaseName(c2) == BaseName(n)
    ensures RemoveRaises(CdlBaseNames([c1, c2, n]), NetcdfBaseNames([c1, c2, n]))
  {
    var b := BaseName(n);
    assert CdlBaseNames([c1, c2, n]) == [b, b] by {
      FiltersDisjoint(n);
      BaseNamesOfThree(c1, c2, n, "cdl");
    }
    assert NetcdfBaseNames([c1, c2, n]) == [b] by {
      FiltersDisjoint(c1);
      FiltersDisjoint(c2);
      BaseNamesOfThree(c1, c2, n, "nc");
    }
    assert 0 < multiset([b])[b] < multiset([b, b])[b];
  }

  /** `a.b.cdl` and `ab.cdl` both have base name `ab`; with only `ab.nc` to
      match them, the second `remove('ab')` of the first loop raises. */
  lemma DuplicateCdlNamesRaise()
    ensures RemoveRaises(CdlBaseNames(["a.b.cdl", "ab.cdl", "ab.nc"]), NetcdfBaseNames(["a.b.cdl", "ab.cdl", "ab.nc"]))
  {
    InnerDotsDropped("cdl");
    InnerDotsDropped("nc");
    SampleSelection();
    OutnumberedCdlNameRaises("a.b.cdl", "ab.cdl", "ab.nc");
  }

  lemma SampleSelection()
    ensures "a.b." + "cdl" == "a.b.cdl" && "ab." + "cdl" == "ab.cdl" && "ab." + "nc" == "ab.nc"
    ensures Selected("a.b.cdl", "cdl") && Selected("ab.cdl", "cdl") && Selected("ab.nc", "nc")
  {
    SelectedIsSuffix("a.b.cdl", "cdl");
    SelectedIsSuffix("ab.cdl", "cdl");
    SelectedIsSuffix("ab.nc", "nc");
  }
}
