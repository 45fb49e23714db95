/**
 * The JavaScript array and string built-ins that the extractor and the graph
 * writer are assembled from: `filter`, `map`, `find`, `concat`, `join`, and a
 * `split` that serves as the inverse of `join` in the lemmas.
 */
module Sequences {

  datatype Option<T> = None | Some(value: T)

  /** `Array.prototype.filter`: the elements of `s` that satisfy `p`, in order. */
  function Filter<T>(p: T -> bool, s: seq<T>): (r: seq<T>)
    ensures |r| <= |s|
  {
    if s == [] then [] else (if p(s[0]) then [s[0]] else []) + Filter(p, s[1..])
  }

  /** The filtered sequence holds exactly the elements of `s` that satisfy `p`. */
  lemma {:induction false} FilterMembers<T>(p: T -> bool, s: seq<T>)
    ensures forall i :: 0 <= i < |Filter(p, s)| ==> Filter(p, s)[i] in s && p(Filter(p, s)[i])
    ensures forall i :: 0 <= i < |s| && p(s[i]) ==> s[i] in Filter(p, s)
  {
    if s != [] {
      FilterMembers(p, s[1..]);
      var r, rest := Filter(p, s), Filter(p, s[1..]);
      if p(s[0]) {
        assert r == [s[0]] + rest;
        forall i | 0 <= i < |r| ensures r[i] in s && p(r[i]) {
          if i > 0 {
            assert r[i] == rest[i - 1];
          }
        }
      } else {
        assert r == rest;
      }
      forall i | 0 <= i < |s| && p(s[i]) ensures s[i] in r {
        if i > 0 {
          assert s[i] == s[1..][i - 1];
        }
      }
    }
  }

  function Map<T, U>(f: T -> U, s: seq<T>): (r: seq<U>)
    ensures |r| == |s|
    ensures forall i :: 0 <= i < |s| ==> r[i] == f(s[i])
  {
    seq(|s|, i requires 0 <= i < |s| => f(s[i]))
  }

  /** A value is in the image of the filtered sequence exactly when some element that satisfies `p` maps to it. */
  lemma MapFilterMembers<T, U>(f: T -> U, p: T -> bool, s: seq<T>)
    ensures forall u :: u in Map(f, Filter(p, s)) <==> exists i :: 0 <= i < |s| && p(s[i]) && f(s[i]) == u
  {
    var kept := Filter(p, s);
    var image := Map(f, kept);
    FilterMembers(p, s);
    forall u | u in image
      ensures exists i :: 0 <= i < |s| && p(s[i]) && f(s[i]) == u
    {
      var k :| 0 <= k < |image| && image[k] == u;
      var i :| 0 <= i < |s| && s[i] == kept[k];
    }
    forall u | exists i :: 0 <= i < |s| && p(s[i]) && f(s[i]) == u
      ensures u in image
    {
      var i :| 0 <= i < |s| && p(s[i]) && f(s[i]) == u;
      var k :| 0 <= k < |kept| && kept[k] == s[i];
      assert image[k] == u;
    }
  }

  lemma MapAppend<T, U>(f: T -> U, a: seq<T>, b: seq<T>)
    ensures Map(f, a + b) == Map(f, a) + Map(f, b)
  {
  }

  /** `Array.prototype.find`: the first element of `s` that satisfies `p`, if any. */
  function Find<T>(p: T -> bool, s: seq<T>): (r: Option<T>)
    ensures r.None? <==> forall i :: 0 <= i < |s| ==> !p(s[i])
    ensures r.Some? ==> exists k :: 0 <= k < |s| && s[k] == r.value && p(s[k]) &&
                                    forall i :: 0 <= i < k ==> !p(s[i])
  {
    if s == [] then None
    else if p(s[0]) then Some(s[0])
    else Find(p, s[1..])
  }

  /** The elements held by the `Some` entries, in order: `.filter(Boolean)` over values that are objects or `undefined`. */
  function Somes<T>(xs: seq<Option<T>>): (r: seq<T>)
    ensures |r| <= |xs|
  {
    if xs == [] then []
    else (if xs[0].Some? then [xs[0].value] else []) + Somes(xs[1..])
  }

  /** Exactly the values of the `Some` entries survive. */
  lemma {:induction false} SomesMembers<T>(xs: seq<Option<T>>)
    ensures forall i :: 0 <= i < |Somes(xs)| ==> Some(Somes(xs)[i]) in xs
    ensures forall i :: 0 <= i < |xs| && xs[i].Some? ==> xs[i].value in Somes(xs)
  {
    if xs != [] {
      SomesMembers(xs[1..]);
      var r, rest := Somes(xs), Somes(xs[1..]);
      if xs[0].Some? {
        assert r == [xs[0].value] + rest;
        forall i | 0 <= i < |r| ensures Some(r[i]) in xs {
          if i > 0 {
            assert r[i] == rest[i - 1];
            assert Some(r[i]) in xs[1..];
          }
        }
      } else {
        assert r == rest;
        forall i | 0 <= i < |r| ensures Some(r[i]) in xs {
          assert Some(r[i]) in xs[1..];
        }
      }
      forall i | 0 <= i < |xs| && xs[i].Some? ensures xs[i].value in r {
        if i > 0 {
          assert xs[i] == xs[1..][i - 1];
        }
      }
    }
  }

  lemma {:induction false} SomesAppend<T>(a: seq<Option<T>>, b: seq<Option<T>>)
    ensures Somes(a + b) == Somes(a) + Somes(b)
  {
    if a == [] {
      assert a + b == b;
    } else {
      assert (a + b)[0] == a[0];
      assert (a + b)[1..] == a[1..] + b;
      SomesAppend(a[1..], b);
      var head: seq<T> := if a[0].Some? then [a[0].value] else [];
      assert Somes(a + b) == head + (Somes(a[1..]) + Somes(b));
      assert Somes(a) == head + Somes(a[1..]);
    }
  }

  /** One-level flattening: `[].concat(...ss)`. */
  function Flatten<T>(ss: seq<seq<T>>): seq<T>
  {
    if ss == [] then [] else ss[0] + Flatten(ss[1..])
  }

  /** `ss.reduce((result, s) => result.concat(s), acc)`: the left fold that concatenates onto `acc`. */
  function ConcatFold<T>(acc: seq<T>, ss: seq<seq<T>>): seq<T>
    decreases ss
  {
    if ss == [] then acc else ConcatFold(acc + ss[0], ss[1..])
  }

  lemma {:induction false} ConcatFoldIsFlatten<T>(acc: seq<T>, ss: seq<seq<T>>)
    ensures ConcatFold(acc, ss) == acc + Flatten(ss)
    decreases ss
  {
    if ss != [] {
      ConcatFoldIsFlatten(acc + ss[0], ss[1..]);
      assert acc + ss[0] + Flatten(ss[1..]) == acc + (ss[0] + Flatten(ss[1..]));
    }
  }

  lemma {:induction false} FlattenAppend<T>(a: seq<seq<T>>, b: seq<seq<T>>)
    ensures Flatten(a + b) == Flatten(a) + Flatten(b)
  {
    if a == [] {
      assert a + b == b;
    } else {
      assert (a + b)[1..] == a[1..] + b;
      FlattenAppend(a[1..], b);
    }
  }

  /** The flattening seen around one part: the parts before it, the part itself, then the parts after it. */
  lemma FlattenAround<T>(ss: seq<seq<T>>, i: nat)
    requires i < |ss|
    ensures Flatten(ss) == Flatten(ss[..i]) + ss[i] + Flatten(ss[i + 1..])
  {
    assert ss == ss[..i] + ss[i..];
    FlattenAppend(ss[..i], ss[i..]);
    assert ss[i..][1..] == ss[i + 1..];
  }

  lemma {:induction false} FlattenMembers<T>(ss: seq<seq<T>>, x: T)
    ensures x in Flatten(ss) <==> exists i :: 0 <= i < |ss| && x in ss[i]
  {
    if ss != [] {
      FlattenMembers(ss[1..], x);
      if x in Flatten(ss[1..]) {
        var i :| 0 <= i < |ss[1..]| && x in ss[1..][i];
        assert x in ss[i + 1];
      }
      if exists i :: 0 <= i < |ss| && x in ss[i] {
        var i :| 0 <= i < |ss| && x in ss[i];
        if i > 0 {
          assert x in ss[1..][i - 1];
        }
      }
    }
  }

  /** `Array.prototype.join`: the parts with `sep` between each adjacent pair. */
  function Join(parts: seq<string>, sep: string): string
  {
    if |parts| == 0 then ""
    else if |parts| == 1 then parts[0]
    else parts[0] + sep + Join(parts[1..], sep)
  }

  /** A join of parts whose first part is not empty is not empty. */
  lemma JoinNonEmpty(parts: seq<string>, sep: string)
    requires |parts| > 0 && parts[0] != ""
    ensures Join(parts, sep) != ""
  {
    if |parts| > 1 {
      assert Join(parts, sep)[0] == parts[0][0];
    }
  }

  /** A join of non-empty parts is empty exactly when there are no parts. */
  lemma JoinEmpty(parts: seq<string>, sep: string)
    requires forall i :: 0 <= i < |parts| ==> parts[i] != ""
    ensures Join(parts, sep) == "" <==> |parts| == 0
  {
    if |parts| > 0 {
      JoinNonEmpty(parts, sep);
    }
  }

  /** A join of two or more parts ends with the separator and the last part. */
  lemma {:induction false} JoinLast(parts: seq<string>, sep: string)
    requires |parts| >= 2
    ensures Join(parts, sep) == Join(parts[..|parts| - 1], sep) + sep + parts[|parts| - 1]
  {
    if |parts| > 2 {
      var rest := parts[1..];
      JoinLast(rest, sep);
      assert parts[..|parts| - 1][1..] == rest[..|rest| - 1];
    }
  }

  /** Cuts `s` at every occurrence of `sep`, scanning left to right: the inverse of Join. */
  function Split(s: string, sep: string): (r: seq<string>)
    requires |sep| > 0
    ensures |r| >= 1
    decreases |s|
  {
    if |s| == 0 then [""]
    else if sep <= s then [""] + Split(s[|sep|..], sep)
    else
      var rest := Split(s[1..], sep);
      [[s[0]] + rest[0]] + rest[1..]
  }

  lemma {:induction false} SplitWithoutSeparator(s: string, sep: string)
    requires |sep| > 0 && sep[0] !in s
    ensures Split(s, sep) == [s]
  {
    if |s| > 0 {
      assert s[0] != sep[0];
      SplitWithoutSeparator(s[1..], sep);
      assert [s[0]] + s[1..] == s;
    }
  }

  /** A piece that cannot begin a separator is cut off cleanly at the separator that follows it. */
  lemma {:induction false} SplitAfterPiece(a: string, sep: string, b: string)
    requires |sep| > 0 && sep[0] !in a
    ensures Split(a + sep + b, sep) == [a] + Split(b, sep)
  {
    var s := a + sep + b;
    if |a| == 0 {
      assert s == sep + b;
      assert sep <= s;
      assert s[|sep|..] == b;
    } else {
      assert s[0] == a[0] != sep[0];
      assert s[1..] == a[1..] + sep + b;
      SplitAfterPiece(a[1..], sep, b);
      assert [a[0]] + a[1..] == a;
    }
  }

  /** Split is a left inverse of Join when no part holds the separator's first character. */
  lemma {:induction false} SplitJoin(parts: seq<string>, sep: string)
    requires |parts| > 0 && |sep| > 0
    requires forall i :: 0 <= i < |parts| ==> sep[0] !in parts[i]
    ensures Split(Join(parts, sep), sep) == parts
  {
    if |parts| == 1 {
      SplitWithoutSeparator(parts[0], sep);
    } else {
      SplitAfterPiece(parts[0], sep, Join(parts[1..], sep));
      SplitJoin(parts[1..], sep);
    }
  }

  /** With a one-character separator, splitting distributes over a separator occurrence. */
  lemma {:induction false} SplitAtSeparator(a: string, sep: string, b: string)
    requires |sep| == 1
    ensures Split(a + sep + b, sep) == Split(a, sep) + Split(b, sep)
  {
    var s := a + sep + b;
    if |a| == 0 {
      assert s == sep + b;
      assert sep <= s;
      assert s[|sep|..] == b;
      assert Split(a, sep) == [""];
    } else if sep <= a {
      assert sep <= s;
      assert s[1..] == a[1..] + sep + b;
      SplitAtSeparator(a[1..], sep, b);
    } else {
      assert !(sep <= s);
      assert s[1..] == a[1..] + sep + b;
      SplitAtSeparator(a[1..], sep, b);
    }
  }

  /** The pieces of `sa` then those of `sb`, with the last of `sa` and the first of `sb` fused into one. */
  function Fuse(sa: seq<string>, sb: seq<string>): (r: seq<string>)
    requires |sa| > 0 && |sb| > 0
    ensures |r| == |sa| + |sb| - 1
  {
    sa[..|sa| - 1] + [sa[|sa| - 1] + sb[0]] + sb[1..]
  }

  /**
   * With a one-character separator, the pieces of `a + b` are those of `a` and of `b`,
   * except that the last piece of `a` and the first of `b` fuse into one.
   */
  lemma {:induction false} SplitAppend(a: string, b: string, sep: string)
    requires |sep| == 1
    ensures Split(a + b, sep) == Fuse(Split(a, sep), Split(b, sep))
  {
    var sb := Split(b, sep);
    if |a| == 0 {
      assert a + b == b;
      assert Split(a, sep) == [""];
      FuseEmptyLeft(sb);
    } else {
      var sa' := Split(a[1..], sep);
      SplitAppend(a[1..], b, sep);
      assert (a + b)[0] == a[0] && (a + b)[1..] == a[1..] + b;
      SplitStep(a, sep);
      SplitStep(a + b, sep);
      if a[0] == sep[0] {
        FuseCons("", sa', sb);
      } else {
        FuseGlue(a[0], sa', sb);
      }
    }
  }

  /** One step of the scan, for a one-character separator: either a cut, or one more character of the first piece. */
  lemma SplitStep(s: string, sep: string)
    requires |sep| == 1 && |s| > 0
    ensures var rest := Split(s[1..], sep);
            Split(s, sep) == if s[0] == sep[0] then [""] + rest else [[s[0]] + rest[0]] + rest[1..]
  {
    assert sep <= s <==> s[0] == sep[0];
    assert s[|sep|..] == s[1..];
  }

  lemma FuseEmptyLeft(sb: seq<string>)
    requires |sb| > 0
    ensures Fuse([""], sb) == sb
  {
    assert [""][..0] == [];
    assert "" + sb[0] == sb[0];
    assert [sb[0]] + sb[1..] == sb;
  }

  lemma FuseEmptyRight(sa: seq<string>)
    requires |sa| > 0
    ensures Fuse(sa, [""]) == sa
  {
    assert sa[|sa| - 1] + "" == sa[|sa| - 1];
    assert [""][1..] == [];
    assert sa[..|sa| - 1] + [sa[|sa| - 1]] == sa;
  }

  /**
   * Two newline-free blocks joined on a one-character separator and appended with
   * nothing between them: the last line of the first and the first line of the
   * second run together.
   */
  lemma SplitJoinedBlocks(xs: seq<string>, ys: seq<string>, sep: string)
    requires |sep| == 1
    requires forall i :: 0 <= i < |xs| ==> sep[0] !in xs[i]
    requires forall i :: 0 <= i < |ys| ==> sep[0] !in ys[i]
    ensures Split(Join(xs, sep) + Join(ys, sep), sep) ==
              if |xs| == 0 && |ys| == 0 then [""]
              else if |ys| == 0 then xs
              else if |xs| == 0 then ys
              else Fuse(xs, ys)
  {
    SplitAppend(Join(xs, sep), Join(ys, sep), sep);
    if |xs| > 0 {
      SplitJoin(xs, sep);
    } else {
      assert Split(Join(xs, sep), sep) == [""];
    }
    if |ys| > 0 {
      SplitJoin(ys, sep);
    } else {
      assert Split(Join(ys, sep), sep) == [""];
    }
    if |xs| == 0 {
      FuseEmptyLeft(Split(Join(ys, sep), sep));
    } else if |ys| == 0 {
      FuseEmptyRight(xs);
    }
  }

  /** A whole piece in front of `sa` stays in front of the fused pieces. */
  lemma FuseCons(x: string, sa: seq<string>, sb: seq<string>)
    requires |sa| > 0 && |sb| > 0
    ensures Fuse([x] + sa, sb) == [x] + Fuse(sa, sb)
  {
    var xs := [x] + sa;
    assert xs[..|xs| - 1] == [x] + sa[..|sa| - 1];
    assert xs[|xs| - 1] == sa[|sa| - 1];
  }

  /** A character glued to the front of the first piece of `sa` is glued to the front of the first fused piece. */
  lemma FuseGlue(c: char, sa: seq<string>, sb: seq<string>)
    requires |sa| > 0 && |sb| > 0
    ensures var f := Fuse(sa, sb);
            Fuse([[c] + sa[0]] + sa[1..], sb) == [[c] + f[0]] + f[1..]
  {
    var ga := [[c] + sa[0]] + sa[1..];
    if |sa| == 1 {
      assert ga == [[c] + sa[0]];
      assert Fuse(ga, sb) == [[c] + sa[0] + sb[0]] + sb[1..];
      var f := Fuse(sa, sb);
      assert f == [sa[0] + sb[0]] + sb[1..];
      assert f[0] == sa[0] + sb[0] && f[1..] == sb[1..];
      assert [c] + sa[0] + sb[0] == [c] + f[0];
    } else {
      assert [sa[0]] + sa[1..] == sa;
      FuseCons([c] + sa[0], sa[1..], sb);
      FuseCons(sa[0], sa[1..], sb);
      var f := Fuse(sa, sb);
      assert f[0] == sa[0] && f[1..] == Fuse(sa[1..], sb);
    }
  }

  /** The pieces of every part, in order. */
  function SplitAll(parts: seq<string>, sep: string): seq<string>
    requires |sep| > 0
  {
    if parts == [] then [] else Split(parts[0], sep) + SplitAll(parts[1..], sep)
  }

  lemma SplitAllCons(x: string, xs: seq<string>, sep: string)
    requires |sep| > 0
    ensures SplitAll([x] + xs, sep) == Split(x, sep) + SplitAll(xs, sep)
  {
    assert ([x] + xs)[1..] == xs;
  }

  lemma {:induction false} SplitAllAppend(a: seq<string>, b: seq<string>, sep: string)
    requires |sep| > 0
    ensures SplitAll(a + b, sep) == SplitAll(a, sep) + SplitAll(b, sep)
  {
    if a == [] {
      assert a + b == b;
    } else {
      assert (a + b)[1..] == a[1..] + b;
      SplitAllAppend(a[1..], b, sep);
    }
  }

  /** Parts without the separator are their own pieces. */
  lemma {:induction false} SplitAllWithoutSeparator(parts: seq<string>, sep: string)
    requires |sep| > 0 && forall i :: 0 <= i < |parts| ==> sep[0] !in parts[i]
    ensures SplitAll(parts, sep) == parts
  {
    if parts != [] {
      SplitWithoutSeparator(parts[0], sep);
      SplitAllWithoutSeparator(parts[1..], sep);
    }
  }

  /** Splitting a join on a one-character separator yields the pieces of every part, in order. */
  lemma {:induction false} SplitJoinAll(parts: seq<string>, sep: string)
    requires |parts| > 0 && |sep| == 1
    ensures Split(Join(parts, sep), sep) == SplitAll(parts, sep)
  {
    if |parts| == 1 {
      assert SplitAll(parts, sep) == Split(parts[0], sep) + SplitAll([], sep);
    } else {
      SplitAtSeparator(parts[0], sep, Join(parts[1..], sep));
      SplitJoinAll(parts[1..], sep);
    }
  }
}
