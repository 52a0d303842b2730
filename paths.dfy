/**
 * Paths as std::path sees them on Unix: a path either has a root or not, and
 * beyond the root it is the sequence of its components. Only the operations the
 * redirection uses are modelled: parsing a path string into components,
 * `is_relative`, `strip_prefix`, `join` and `parent`. No `..` is resolved and
 * no symbolic link is followed; like std::path, the model works on the raw
 * components.
 */
module Paths {
  import opened Wrappers

  datatype Path = Path(absolute: bool, comps: seq<string>)

  const Separator: char := '/'

  /** The components a std::path component iterator can yield after the root. */
  predicate IsComponent(c: string) {
    c != "" && c != "." && Separator !in c
  }

  /** Every component is a normal one, except that a relative path may start with ".". */
  predicate WellFormed(p: Path) {
    forall i :: 0 <= i < |p.comps| ==>
      IsComponent(p.comps[i]) || (i == 0 && !p.absolute && p.comps[i] == ".")
  }

  /** Cuts `s` at every separator; the pieces may be empty (doubled or trailing separators). */
  function Split(s: string): (pieces: seq<string>)
    ensures |pieces| >= 1
    ensures forall i :: 0 <= i < |pieces| ==> Separator !in pieces[i]
  {
    if s == [] then [""]
    else if s[0] == Separator then [""] + Split(s[1..])
    else
      var rest := Split(s[1..]);
      [[s[0]] + rest[0]] + rest[1..]
  }

  /** Puts one separator between neighbouring pieces. */
  function Interleave(pieces: seq<string>): (s: string)
    requires |pieces| >= 1
  {
    if |pieces| == 1 then pieces[0] else pieces[0] + [Separator] + Interleave(pieces[1..])
  }

  lemma {:induction false} InterleaveSplit(s: string)
    ensures Interleave(Split(s)) == s
  {
    if s == [] {
    } else if s[0] == Separator {
      InterleaveSplit(s[1..]);
    } else {
      InterleaveSplit(s[1..]);
      var rest := Split(s[1..]);
      if |rest| == 1 {
      } else {
        assert Interleave(Split(s)) == [s[0]] + rest[0] + [Separator] + Interleave(rest[1..]);
      }
    }
  }

  lemma {:induction false} SplitPiece(a: string)
    requires Separator !in a
    ensures Split(a) == [a]
  {
    if a != [] {
      SplitPiece(a[1..]);
      assert a == [a[0]] + a[1..];
    }
  }

  lemma {:induction false} SplitPieceThen(a: string, rest: string)
    requires Separator !in a
    ensures Split(a + [Separator] + rest) == [a] + Split(rest)
  {
    if a == [] {
      assert a + [Separator] + rest == [Separator] + rest;
    } else {
      assert (a + [Separator] + rest)[1..] == a[1..] + [Separator] + rest;
      SplitPieceThen(a[1..], rest);
      assert a == [a[0]] + a[1..];
    }
  }

  /** Splitting undoes interleaving, as long as no piece holds a separator. */
  lemma {:induction false} SplitInterleave(pieces: seq<string>)
    requires |pieces| >= 1
    requires forall i :: 0 <= i < |pieces| ==> Separator !in pieces[i]
    ensures Split(Interleave(pieces)) == pieces
  {
    if |pieces| == 1 {
      SplitPiece(pieces[0]);
    } else {
      SplitInterleave(pieces[1..]);
      SplitPieceThen(pieces[0], Interleave(pieces[1..]));
    }
  }

  /** The pieces that are components: empty pieces and "." pieces are skipped. */
  function Normal(pieces: seq<string>): (cs: seq<string>)
    ensures |cs| <= |pieces|
    ensures forall i :: 0 <= i < |cs| ==> cs[i] in pieces && cs[i] != "" && cs[i] != "."
  {
    if pieces == [] then []
    else (if pieces[0] == "" || pieces[0] == "." then [] else [pieces[0]]) + Normal(pieces[1..])
  }

  lemma {:induction false} NormalOfComponents(cs: seq<string>)
    requires forall i :: 0 <= i < |cs| ==> IsComponent(cs[i])
    ensures Normal(cs) == cs
  {
    if cs != [] {
      NormalOfComponents(cs[1..]);
    }
  }

  /**
   * The path a string denotes (`PathBuf::from` followed by `components`): it has a
   * root when the string starts with the separator; repeated separators, a
   * trailing separator and "." pieces contribute nothing, except that a relative
   * path that starts with "." keeps it as its first component.
   */
  function ParsePath(s: string): (p: Path)
    ensures p.absolute <==> !IsRelative(s)
    ensures WellFormed(p)
  {
    var pieces := Split(s);
    var absolute := |s| > 0 && s[0] == Separator;
    Path(absolute, (if !absolute && pieces[0] == "." then ["."] else []) + Normal(pieces))
  }

  /** `Path::is_relative` on Unix: the string does not start at the root. */
  predicate IsRelative(s: string) {
    !(|s| > 0 && s[0] == Separator)
  }

  /** The string `Path::display` shows: the root, then the components separated by one separator. */
  function Render(p: Path): string {
    (if p.absolute then [Separator] else []) + (if p.comps == [] then "" else Interleave(p.comps))
  }

  /** `is_relative` agrees between a path and its display: the display starts at the root exactly when the path has one. */
  lemma RenderRelative(p: Path)
    requires WellFormed(p)
    ensures IsRelative(Render(p)) <==> !p.absolute
  {
    if !p.absolute && p.comps != [] {
      assert Render(p) == Interleave(p.comps);
      assert IsComponent(p.comps[0]) || p.comps[0] == ".";
      assert Interleave(p.comps)[0] == p.comps[0][0];
    }
  }

  /** The components a well-formed path's display splits into: its components, or one empty piece. */
  lemma SplitBody(p: Path)
    requires WellFormed(p)
    ensures Split(Body(p)) == (if p.comps == [] then [""] else p.comps)
  {
    if p.comps != [] {
      SplitInterleave(p.comps);
    }
  }

  function Body(p: Path): string {
    if p.comps == [] then "" else Interleave(p.comps)
  }

  lemma BodyStart(p: Path)
    requires WellFormed(p) && p.comps != []
    ensures Body(p) != [] && Body(p)[0] == p.comps[0][0]
  {
    var cs := p.comps;
    assert |cs[0]| > 0;
    if |cs| > 1 {
      assert Body(p) == cs[0] + ([Separator] + Interleave(cs[1..]));
    }
  }

  lemma RenderParsesAbsolute(p: Path)
    requires WellFormed(p) && p.absolute
    ensures ParsePath(Render(p)) == p
  {
    var body := Body(p);
    SplitBody(p);
    SplitPieceThen("", body);
    assert Render(p) == "" + [Separator] + body;
    var pieces := Split(Render(p));
    assert pieces == [""] + Split(body);
    if p.comps == [] {
      assert Normal(pieces) == [];
    } else {
      NormalOfComponents(p.comps);
      assert Normal(pieces) == Normal(p.comps);
    }
  }

  lemma RenderParsesDotted(p: Path)
    requires WellFormed(p) && !p.absolute && p.comps != [] && p.comps[0] == "."
    ensures ParsePath(Render(p)) == p
  {
    SplitBody(p);
    BodyStart(p);
    assert Render(p) == Body(p);
    var pieces := Split(Render(p));
    assert pieces == p.comps;
    assert p.comps == ["."] + p.comps[1..];
    NormalOfComponents(p.comps[1..]);
    assert Normal(pieces) == Normal(p.comps[1..]);
  }

  lemma RenderParsesPlain(p: Path)
    requires WellFormed(p) && !p.absolute && p.comps != [] && p.comps[0] != "."
    ensures ParsePath(Render(p)) == p
  {
    SplitBody(p);
    BodyStart(p);
    assert Render(p) == Body(p);
    var pieces := Split(Render(p));
    assert pieces == p.comps;
    NormalOfComponents(p.comps);
    assert ParsePath(Render(p)).comps == [] + p.comps;
  }

  /** Parsing what a well-formed path displays gives that path back. */
  lemma RenderParses(p: Path)
    requires WellFormed(p)
    ensures ParsePath(Render(p)) == p
  {
    if p.absolute {
      RenderParsesAbsolute(p);
    } else if p.comps == [] {
      assert Render(p) == "";
    } else if p.comps[0] == "." {
      RenderParsesDotted(p);
    } else {
      RenderParsesPlain(p);
    }
  }

  /** Cutting at a separator splits the two sides apart. */
  lemma {:induction false} SplitAround(a: string, b: string)
    ensures Split(a + [Separator] + b) == Split(a) + Split(b)
  {
    var s := a + [Separator] + b;
    if a == [] {
      assert s == [Separator] + b;
    } else {
      assert s[0] == a[0];
      assert s[1..] == a[1..] + [Separator] + b;
      SplitAround(a[1..], b);
      var left, right := Split(a[1..]), Split(b);
      if a[0] == Separator {
        assert Split(s) == [""] + (left + right);
      } else {
        var whole := left + right;
        assert whole[0] == left[0];
        assert whole[1..] == left[1..] + right;
        assert Split(s) == [[a[0]] + whole[0]] + whole[1..];
      }
    }
  }

  lemma {:induction false} NormalAppend(x: seq<string>, y: seq<string>)
    ensures Normal(x + y) == Normal(x) + Normal(y)
  {
    if x == [] {
      assert x + y == y;
    } else {
      assert (x + y)[0] == x[0];
      assert (x + y)[1..] == x[1..] + y;
      NormalAppend(x[1..], y);
    }
  }

  /** Two strings with the same root, the same first piece and the same components parse alike. */
  lemma SameParse(s: string, t: string)
    requires IsRelative(s) == IsRelative(t)
    requires Split(s)[0] == Split(t)[0]
    requires Normal(Split(s)) == Normal(Split(t))
    ensures ParsePath(s) == ParsePath(t)
  {
  }

  /** A trailing separator names the same path: "/data/lower/" is "/data/lower". */
  lemma TrailingSeparatorIgnored(a: string)
    requires a != []
    ensures ParsePath(a + [Separator]) == ParsePath(a)
  {
    SplitAround(a, []);
    assert a + [Separator] + [] == a + [Separator];
    NormalAppend(Split(a), [""]);
    assert (a + [Separator])[0] == a[0];
    SameParse(a + [Separator], a);
  }

  /** Splitting a string after a separator that is followed by `rest`. */
  lemma SplitAfterSeparator(a: string, rest: string)
    ensures var s := a + [Separator] + rest;
      Split(s) == Split(a) + Split(rest) && Split(s)[0] == Split(a)[0]
      && Normal(Split(s)) == Normal(Split(a)) + Normal(Split(rest))
      && (IsRelative(s) <==> a != [] && IsRelative(a))
  {
    SplitAround(a, rest);
    NormalAppend(Split(a), Split(rest));
    if a != [] {
      assert (a + [Separator] + rest)[0] == a[0];
    }
  }

  /** An empty or "." piece contributes no component. */
  lemma NormalSkipsPiece(x: string, y: seq<string>)
    requires x == "" || x == "."
    ensures Normal([x] + y) == Normal(y)
  {
    assert ([x] + y)[1..] == y;
  }

  lemma SplitDot(b: string)
    ensures Split(['.', Separator] + b) == ["."] + Split(b)
  {
    SplitPieceThen(".", b);
    assert "." + [Separator] + b == ['.', Separator] + b;
  }

  /** A doubled separator counts as one: "/data//lower" is "/data/lower". */
  lemma DoubledSeparatorIgnored(a: string, b: string)
    ensures ParsePath(a + [Separator, Separator] + b) == ParsePath(a + [Separator] + b)
  {
    var s, t := a + [Separator, Separator] + b, a + [Separator] + b;
    assert s == a + [Separator] + ([Separator] + b);
    SplitAfterSeparator(a, [Separator] + b);
    SplitAfterSeparator(a, b);
    assert Split([Separator] + b) == [""] + Split(b);
    NormalSkipsPiece("", Split(b));
    SameParse(s, t);
  }

  /** A "." piece after a separator counts for nothing: "/data/./lower" is "/data/lower". */
  lemma DotPieceIgnored(a: string, b: string)
    ensures ParsePath(a + [Separator, '.', Separator] + b) == ParsePath(a + [Separator] + b)
  {
    var s, t := a + [Separator, '.', Separator] + b, a + [Separator] + b;
    assert s == a + [Separator] + (['.', Separator] + b);
    SplitAfterSeparator(a, ['.', Separator] + b);
    SplitAfterSeparator(a, b);
    SplitDot(b);
    NormalSkipsPiece(".", Split(b));
    SameParse(s, t);
  }

  /** A trailing "." piece counts for nothing: "/data/lower/." is "/data/lower". */
  lemma TrailingDotIgnored(a: string)
    requires a != []
    ensures ParsePath(a + [Separator, '.']) == ParsePath(a)
  {
    var s := a + [Separator, '.'];
    assert s == a + [Separator] + ".";
    SplitAfterSeparator(a, ".");
    SplitPiece(".");
    NormalSkipsPiece(".", []);
    assert Normal(Split(a)) + [] == Normal(Split(a));
    SameParse(s, a);
  }

  /**
   * `Path::strip_prefix`: compares components; the rest of `p` after the
   * components of `base`. An empty relative base strips nothing, and then the
   * rest is `p` itself, root included.
   */
  function StripPrefix(p: Path, base: Path): (rest: Option<Path>)
    ensures base != Path(false, []) ==>
      (rest.Some? <==> p.absolute == base.absolute && base.comps <= p.comps)
    ensures rest.Some? && base != Path(false, []) ==>
      !rest.value.absolute && base.comps + rest.value.comps == p.comps
    ensures base == Path(false, []) ==> rest == Some(p)
  {
    if base == Path(false, []) then Some(p)
    else if p.absolute == base.absolute && base.comps <= p.comps then
      Some(Path(false, p.comps[|base.comps|..]))
    else None
  }

  /**
   * `Path::join`: an absolute `rel` replaces `base`; otherwise the components
   * of `rel` follow those of `base`, where a leading "." of `rel` is no longer a
   * component once something precedes it.
   */
  function Join(base: Path, rel: Path): (p: Path)
    ensures rel.absolute ==> p == rel
    ensures !rel.absolute ==> p.absolute == base.absolute && base.comps <= p.comps
    ensures !rel.absolute && (rel.comps == [] || rel.comps[0] != ".") ==>
      p.comps == base.comps + rel.comps
    ensures !rel.absolute && base != Path(false, []) && rel.comps != [] && rel.comps[0] == "." ==>
      p.comps == base.comps + rel.comps[1..]
    ensures !rel.absolute && base == Path(false, []) ==> p == rel
  {
    if rel.absolute then rel
    else if base != Path(false, []) && rel.comps != [] && rel.comps[0] == "." then
      Path(base.absolute, base.comps + rel.comps[1..])
    else Path(base.absolute, base.comps + rel.comps)
  }

  /** `Path::parent`: the path without its last component; none for the root and for the empty path. */
  function Parent(p: Path): (q: Option<Path>)
    ensures q.None? <==> p.comps == []
    ensures q.Some? ==> q.value.absolute == p.absolute && q.value.comps + [p.comps[|p.comps| - 1]] == p.comps
  {
    if p.comps == [] then None else Some(Path(p.absolute, p.comps[..|p.comps| - 1]))
  }

  /** Stripping a base from what was joined onto it gives back the joined part. */
  lemma StripJoin(base: Path, rel: Path)
    requires !rel.absolute
    requires rel.comps == [] || rel.comps[0] != "."
    ensures StripPrefix(Join(base, rel), base) == Some(rel)
  {
    var p := Join(base, rel);
    if base == Path(false, []) {
      assert p.comps == [] + rel.comps == rel.comps;
    } else {
      assert p.comps == base.comps + rel.comps;
      assert p.comps[|base.comps|..] == rel.comps;
      assert StripPrefix(p, base) == Some(Path(false, rel.comps));
    }
  }

  /** Joining the stripped rest back onto the base rebuilds the path. */
  lemma JoinStrip(p: Path, base: Path)
    requires WellFormed(p)
    requires StripPrefix(p, base).Some?
    ensures Join(base, StripPrefix(p, base).value) == p
  {
    var rest := StripPrefix(p, base).value;
    if base != Path(false, []) && rest.comps != [] {
      assert rest.comps[0] == p.comps[|base.comps|];
      if |base.comps| == 0 {
        assert base.absolute && p.absolute;
      }
    }
  }

  /** A non-empty path is its parent joined with its last component. */
  lemma JoinParent(p: Path)
    requires WellFormed(p)
    requires p.comps != []
    ensures Join(Parent(p).value, Path(false, [p.comps[|p.comps| - 1]])) == p
  {
    var q := Parent(p).value;
    if |p.comps| > 1 {
      assert IsComponent(p.comps[|p.comps| - 1]);
    }
  }
}
