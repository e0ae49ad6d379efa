/** The few Python built-ins the checker script relies on, written out over
    sequences: `str.split`, `str.join`, negative slicing `s[-n:]` and
    `list.remove`.  Strings are `seq<char>`, lists are `seq`. */
module PyBuiltins {

  datatype Option<T> = None | Some(value: T)

  /** `sep.join(parts)` for a one-character separator. */
  function Join(parts: seq<string>, sep: char): string
  {
    if |parts| == 0 then []
    else if |parts| == 1 then parts[0]
    else Join(parts[..|parts| - 1], sep) + [sep] + parts[|parts| - 1]
  }

  /** `''.join(parts)`: the pieces glued together with nothing between them. */
  function Concat(parts: seq<string>): string
  {
    if parts == [] then [] else Concat(parts[..|parts| - 1]) + parts[|parts| - 1]
  }

  /** `s` with every occurrence of `c` deleted. */
  function Erase(s: string, c: char): (r: string)
    ensures c !in r
    ensures |r| <= |s|
    ensures forall d :: d != c ==> (d in r <==> d in s)
  {
    if s == [] then []
    else if s[|s| - 1] == c then Erase(s[..|s| - 1], c)
    else
      assert s == s[..|s| - 1] + [s[|s| - 1]];
      Erase(s[..|s| - 1], c) + [s[|s| - 1]]
  }

  /** `s.split(sep)`: the maximal runs between occurrences of `sep`, from
      left to right.  There is always at least one piece (`"".split('.')`
      is `['']`), and an empty piece stands between two adjacent separators
      and at either end next to a separator. */
  function Split(s: string, sep: char): (parts: seq<string>)
    ensures |parts| >= 1
    ensures forall i :: 0 <= i < |parts| ==> sep !in parts[i]
  {
    if s == [] then [[]]
    else
      var p := Split(s[..|s| - 1], sep);
      var c := s[|s| - 1];
      if c == sep then p + [[]]
      else p[..|p| - 1] + [p[|p| - 1] + [c]]
  }

  /** Splitting and joining again with the same separator gives the string back. */
  lemma {:induction false} JoinSplit(s: string, sep: char)
    ensures Join(Split(s, sep), sep) == s
  {
    if s != [] {
      var t, c := s[..|s| - 1], s[|s| - 1];
      assert s == t + [c];
      var p := Split(t, sep);
      JoinSplit(t, sep);
      if c == sep {
        assert (p + [[]])[..|p|] == p;
      } else {
        var q := p[..|p| - 1] + [p[|p| - 1] + [c]];
        assert q[..|q| - 1] == p[..|p| - 1];
      }
    }
  }

  /** Gluing the pieces of a split back together without separators is the
      same as deleting every separator. */
  lemma {:induction false} ConcatSplit(s: string, sep: char)
    ensures Concat(Split(s, sep)) == Erase(s, sep)
  {
    if s != [] {
      var t, c := s[..|s| - 1], s[|s| - 1];
      var p := Split(t, sep);
      ConcatSplit(t, sep);
      if c == sep {
        ConcatSnoc(p, []);
      } else {
        var n := |p|;
        var front := p[..n - 1];
        assert p == front + [p[n - 1]];
        ConcatSnoc(front, p[n - 1]);
        ConcatSnoc(front, p[n - 1] + [c]);
        assert Split(s, sep) == front + [p[n - 1] + [c]];
        assert Erase(s, sep) == Erase(t, sep) + [c];
      }
    }
  }

  lemma ConcatSnoc(parts: seq<string>, last: string)
    ensures Concat(parts + [last]) == Concat(parts) + last
  {
    assert (parts + [last])[..|parts|] == parts;
  }

  /** Erasing a character that does not occur changes nothing. */
  lemma {:induction false} EraseAbsent(s: string, c: char)
    requires c !in s
    ensures Erase(s, c) == s
  {
    if s != [] {
      assert c !in s[..|s| - 1];
      EraseAbsent(s[..|s| - 1], c);
    }
  }

  /** Python's `s[-n:]` for `n >= 1`: the last `n` characters, or the whole
      string when it is shorter than `n` (no error is raised). */
  function Tail(s: string, n: nat): (r: string)
    requires 0 < n
    ensures |r| == if |s| < n then |s| else n
    ensures r == s[|s| - |r|..]
  {
    if |s| <= n then s else s[|s| - n..]
  }

  /** Python's `s.remove(x)`: `None` stands for the `ValueError` raised when
      `x` is not in `s`; otherwise the leftmost occurrence is taken out. */
  function ListRemove<T(==)>(s: seq<T>, x: T): (r: Option<seq<T>>)
    ensures r.None? <==> x !in s
    ensures r.Some? ==> |r.value| == |s| - 1
  {
    if s == [] then None
    else if s[0] == x then
      assert s == [x] + s[1..];
      Some(s[1..])
    else
      match ListRemove(s[1..], x)
      case None => None
      case Some(t) =>
        assert s == [s[0]] + s[1..];
        Some([s[0]] + t)
  }

  /** Python's `s.index(x)`: the position of the leftmost occurrence. */
  function IndexOf<T(==)>(s: seq<T>, x: T): (i: nat)
    requires x in s
    ensures i < |s| && s[i] == x && x !in s[..i]
  {
    if s[0] == x then 0
    else
      assert s == [s[0]] + s[1..];
      var j := IndexOf(s[1..], x);
      assert s[..j + 1] == [s[0]] + s[1..][..j];
      j + 1
  }

  /** What `remove` takes out is the leftmost occurrence of `x`. */
  lemma {:induction false} ListRemoveLeftmost<T(!new)>(s: seq<T>, x: T)
    requires x in s
    ensures ListRemove(s, x) == Some(s[..IndexOf(s, x)] + s[IndexOf(s, x) + 1..])
  {
    if s[0] != x {
      var u := s[1..];
      assert x in u by { assert s == [s[0]] + u; }
      var j := IndexOf(u, x);
      var t := u[..j] + u[j + 1..];
      assert ListRemove(u, x) == Some(t) by { ListRemoveLeftmost(u, x); }
      assert IndexOf(s, x) == j + 1;
      assert [s[0]] + t == s[..j + 1] + s[j + 2..] by {
        assert s[..j + 1] == [s[0]] + u[..j];
        assert s[j + 2..] == u[j + 1..];
      }
    } else {
      assert s[..0] + s[1..] == s[1..];
    }
  }

  /** `remove` takes out one `x` and keeps every other element. */
  lemma ListRemoveMultiset<T(!new)>(s: seq<T>, x: T)
    requires x in s
    ensures multiset(ListRemove(s, x).value) == multiset(s) - multiset{x}
  {
    var i := IndexOf(s, x);
    ListRemoveLeftmost(s, x);
    assert s == s[..i] + [x] + s[i + 1..];
  }
}
