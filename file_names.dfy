/** How `check_files_match` and `check_data` turn directory entries into
    base names: which entries are picked (`f[-3:] == 'cdl'`, `f[-2:] == 'nc'`)
    and what is kept of each (`''.join(f.split('.')[:-1])`). */
module FileNames {
  import opened PyBuiltins

  /** The base name exactly as the script computes it: split on every `.`,
      drop the last piece and glue the others together with no separator,
      so inner dots disappear. */
  function BaseName(f: string): string
  {
    var parts := Split(f, '.');
    Concat(parts[..|parts| - 1])
  }

  /** The part of `f` before its last `.`, or the empty string when `f`
      has no `.` at all. */
  function Stem(f: string): (r: string)
    ensures '.' !in f ==> r == []
    ensures '.' in f ==> |r| < |f| && r == f[..|r|] && f[|r|] == '.' && '.' !in f[|r| + 1..]
  {
    if f == [] then []
    else
      var t, c := f[..|f| - 1], f[|f| - 1];
      assert f == t + [c];
      if c == '.' then
        assert f[|t| + 1..] == [];
        t
      else
        var r := Stem(t);
        assert '.' in f ==> '.' in t;
        assert '.' in t ==> f[|r| + 1..] == t[|r| + 1..] + [c] && f[..|r|] == t[..|r|];
        r
  }

  /** The base name is the stem (everything before the last `.`) with all
      of its remaining dots deleted. */
  lemma {:induction false} BaseNameIsErasedStem(f: string)
    ensures BaseName(f) == Erase(Stem(f), '.')
  {
    if f != [] {
      var t, c := f[..|f| - 1], f[|f| - 1];
      var p := Split(t, '.');
      if c == '.' {
        assert (p + [[]])[..|p|] == p;
        ConcatSplit(t, '.');
      } else {
        var q := p[..|p| - 1] + [p[|p| - 1] + [c]];
        assert q[..|q| - 1] == p[..|p| - 1];
        BaseNameIsErasedStem(t);
      }
    }
  }

  /** A base name never contains a dot. */
  lemma BaseNameHasNoDots(f: string)
    ensures '.' !in BaseName(f)
  {
    BaseNameIsErasedStem(f);
  }

  /** A name with no `.` at all (`"xnc"`, `"cdl"`) has the empty base name. */
  lemma DotlessBaseNameIsEmpty(f: string)
    requires '.' !in f
    ensures BaseName(f) == []
  {
    BaseNameIsErasedStem(f);
  }

  /** Appending `.ext` (with no dot in `ext`) and taking the base name
      again gives the name back, minus its dots. */
  lemma BaseNameOfDotted(b: string, ext: string)
    requires '.' !in ext
    ensures BaseName(b + "." + ext) == Erase(b, '.')
  {
    var f := b + "." + ext;
    assert f[|b|] == '.' && f[|b| + 1..] == ext;
    assert Stem(f) == b;
    BaseNameIsErasedStem(f);
  }

  /** Appending `.ext` to a dot-free name and taking the base name again
      gives the name back. */
  lemma BaseNameOfExtended(b: string, ext: string)
    requires '.' !in b && '.' !in ext
    ensures BaseName(b + "." + ext) == b
  {
    BaseNameOfDotted(b, ext);
    EraseAbsent(b, '.');
  }

  lemma EraseSample()
    ensures Erase("a.b", '.') == "ab"
  {
    assert "a.b"[..2] == "a." && "a."[..1] == "a" && "a"[..0] == [];
    assert Erase("a", '.') == "a";
  }

  /** Two different entries can share a base name: the dots of `a.b.nc`
      vanish, so it collides with `ab.nc` (and `a.b.cdl` with `ab.cdl`). */
  lemma InnerDotsDropped(ext: string)
    requires '.' !in ext
    ensures BaseName("a.b." + ext) == "ab" == BaseName("ab." + ext)
  {
    assert BaseName("a.b." + ext) == "ab" by {
      assert "a.b." + ext == "a.b" + "." + ext;
      BaseNameOfDotted("a.b", ext);
      EraseSample();
    }
    assert BaseName("ab." + ext) == "ab" by {
      assert "ab." + ext == "ab" + "." + ext;
      BaseNameOfExtended("ab", ext);
    }
  }

  /** The selection test `f[-n:] == suffix` of the script. */
  predicate Selected(f: string, suffix: string)
    requires |suffix| > 0
  {
    Tail(f, |suffix|) == suffix
  }

  /** An entry is picked exactly when its last characters are the suffix;
      no dot is needed, and an entry shorter than the suffix is skipped. */
  lemma SelectedIsSuffix(f: string, suffix: string)
    requires |suffix| > 0
    ensures Selected(f, suffix) <==> |f| >= |suffix| && f[|f| - |suffix|..] == suffix
    ensures |f| < |suffix| ==> !Selected(f, suffix)
  {
  }

  /** `[''.join(f.split('.')[:-1]) for f in listing if f[-n:] == suffix]`:
      the base names of the selected entries, in listing order and with
      repetitions. */
  function SelectedBaseNames(listing: seq<string>, suffix: string): (names: seq<string>)
    requires |suffix| > 0
    ensures |names| <= |listing|
    ensures forall i :: 0 <= i < |names| ==> '.' !in names[i]
  {
    if listing == [] then []
    else
      var front, f := listing[..|listing| - 1], listing[|listing| - 1];
      assert listing == front + [f];
      var rest := SelectedBaseNames(front, suffix);
      if Selected(f, suffix) then
        BaseNameHasNoDots(f);
        rest + [BaseName(f)]
      else rest
  }

  /** A name is in the comprehension exactly when some selected entry has
      it as its base name. */
  lemma {:induction false} SelectedBaseNamesMembers(listing: seq<string>, suffix: string)
    requires |suffix| > 0
    ensures forall x :: x in SelectedBaseNames(listing, suffix) <==> exists f :: f in listing && Selected(f, suffix) && BaseName(f) == x
  {
    if listing != [] {
      var front, f := listing[..|listing| - 1], listing[|listing| - 1];
      assert listing == front + [f];
      SelectedBaseNamesMembers(front, suffix);
    }
  }

  /** The entry `f` is picked by the filter and has base name `x`. */
  ghost predicate Hit(f: string, suffix: string, x: string)
    requires |suffix| > 0
  {
    Selected(f, suffix) && BaseName(f) == x
  }

  /** The positions of `s` whose element satisfies `p`. */
  ghost function Positions<T>(s: seq<T>, p: T -> bool): set<nat>
  {
    set i: nat | i < |s| && p(s[i])
  }

  lemma PositionsSnoc<T>(front: seq<T>, f: T, p: T -> bool)
    ensures Positions(front + [f], p) == Positions(front, p) + (if p(f) then {|front|} else {})
    ensures |front| !in Positions(front, p)
  {
    var l := front + [f];
    forall i: nat | i < |front| ensures l[i] == front[i] {
    }
    assert l[|front|] == f;
  }

  /** The positions of the listing whose entry is picked and has base name `x`. */
  ghost function Hits(listing: seq<string>, suffix: string, x: string): set<nat>
    requires |suffix| > 0
  {
    Positions(listing, e => Hit(e, suffix, x))
  }

  /** The comprehension holds each name exactly as many times as there are
      picked entries with that base name. */
  lemma {:induction false} SelectedBaseNamesCount(listing: seq<string>, suffix: string, x: string)
    requires |suffix| > 0
    ensures multiset(SelectedBaseNames(listing, suffix))[x] == |Hits(listing, suffix, x)|
  {
    if listing == [] {
      assert Hits(listing, suffix, x) == {};
    } else {
      var front, f := listing[..|listing| - 1], listing[|listing| - 1];
      assert listing == front + [f];
      SelectedBaseNamesCount(front, suffix, x);
      PositionsSnoc(front, f, e => Hit(e, suffix, x));
      SelectedBaseNamesSnoc(front, f, suffix);
      var p := if Selected(f, suffix) then [BaseName(f)] else [];
      assert multiset(SelectedBaseNames(listing, suffix)) == multiset(SelectedBaseNames(front, suffix)) + multiset(p);
      assert multiset(p)[x] == if Hit(f, suffix, x) then 1 else 0;
    }
  }

  lemma SelectedBaseNamesSnoc(listing: seq<string>, f: string, suffix: string)
    requires |suffix| > 0
    ensures SelectedBaseNames(listing + [f], suffix)
      == SelectedBaseNames(listing, suffix) + (if Selected(f, suffix) then [BaseName(f)] else [])
  {
    assert (listing + [f])[..|listing|] == listing;
  }

  lemma ShortSnocs<T>(a: T, b: T, c: T)
    ensures [] + [a] == [a] && [a] + [b] == [a, b] && [a, b] + [c] == [a, b, c]
  {
  }

  /** The base names of a two-entry listing, for one filter. */
  lemma BaseNamesOfTwo(f1: string, f2: string, suffix: string)
    requires |suffix| > 0
    ensures SelectedBaseNames([f1, f2], suffix) ==
      (if Selected(f1, suffix) then [BaseName(f1)] else [])
      + (if Selected(f2, suffix) then [BaseName(f2)] else [])
  {
    var p1 := if Selected(f1, suffix) then [BaseName(f1)] else [];
    ShortSnocs(f1, f2, f2);
    assert SelectedBaseNames([f1], suffix) == p1 by {
      SelectedBaseNamesSnoc([], f1, suffix);
      assert [] + p1 == p1;
    }
    SelectedBaseNamesSnoc([f1], f2, suffix);
  }

  /** The base names of a three-entry listing, for one filter. */
  lemma BaseNamesOfThree(f1: string, f2: string, f3: string, suffix: string)
    requires |suffix| > 0
    ensures SelectedBaseNames([f1, f2, f3], suffix) ==
      (if Selected(f1, suffix) then [BaseName(f1)] else [])
      + (if Selected(f2, suffix) then [BaseName(f2)] else [])
      + (if Selected(f3, suffix) then [BaseName(f3)] else [])
  {
    var p1 := if Selected(f1, suffix) then [BaseName(f1)] else [];
    var p2 := if Selected(f2, suffix) then [BaseName(f2)] else [];
    ShortSnocs(f1, f2, f3);
    assert SelectedBaseNames([f1], suffix) == p1 by {
      SelectedBaseNamesSnoc([], f1, suffix);
      assert [] + p1 == p1;
    }
    assert SelectedBaseNames([f1, f2], suffix) == p1 + p2 by {
      SelectedBaseNamesSnoc([f1], f2, suffix);
    }
    SelectedBaseNamesSnoc([f1, f2], f3, suffix);
  }

  /** `cdl_filenames`: base names of the entries ending in `cdl`. */
  function CdlBaseNames(listing: seq<string>): seq<string>
  {
    SelectedBaseNames(listing, "cdl")
  }

  /** `netcdf_filenames` (and `netcdf_fileroot`): base names of the entries
      ending in `nc`. */
  function NetcdfBaseNames(listing: seq<string>): seq<string>
  {
    SelectedBaseNames(listing, "nc")
  }

  /** No entry is picked by both filters, since `cdl` ends in `l` and `nc` in `c`. */
  lemma FiltersDisjoint(f: string)
    ensures !(Selected(f, "cdl") && Selected(f, "nc"))
  {
    SelectedIsSuffix(f, "cdl");
    SelectedIsSuffix(f, "nc");
    assert Selected(f, "cdl") ==> f[|f| - 1] == 'l';
    assert Selected(f, "nc") ==> f[|f| - 1] == 'c';
  }
}
