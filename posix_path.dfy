/** The POSIX behaviour of Node's `path.resolve`, `path.dirname` and
    `path.extname`, as the bundler uses them on module identifiers.
    A path is looked at through its pieces: the non-empty runs of
    characters between slashes. */
module PosixPath {

  predicate IsAbsolute(p: string) {
    |p| > 0 && p[0] == '/'
  }

  /** Length of the leading run of `p` that holds no slash. */
  function RunLength(p: string): (n: nat)
    ensures n <= |p|
    ensures forall i :: 0 <= i < n ==> p[i] != '/'
    ensures n < |p| ==> p[n] == '/'
  {
    if p == [] || p[0] == '/' then 0 else 1 + RunLength(p[1..])
  }

  /** The pieces of `p` in order; repeated, leading and trailing slashes
      give no piece. */
  function Segments(p: string): seq<string>
    decreases |p|
  {
    if p == [] then []
    else if p[0] == '/' then Segments(p[1..])
    else
      var n := RunLength(p);
      [p[..n]] + Segments(p[n..])
  }

  predicate IsSegment(s: string) {
    s != [] && forall i :: 0 <= i < |s| ==> s[i] != '/'
  }

  /** A piece that normalisation keeps: neither "." nor "..". */
  predicate IsName(s: string) {
    IsSegment(s) && s != "." && s != ".."
  }

  predicate AllSegments(ss: seq<string>) {
    forall i :: 0 <= i < |ss| ==> IsSegment(ss[i])
  }

  predicate AllNames(ss: seq<string>) {
    forall i :: 0 <= i < |ss| ==> IsName(ss[i])
  }

  /** "/a/b" for ["a", "b"]. */
  function Slashed(ss: seq<string>): string {
    if ss == [] then "" else "/" + ss[0] + Slashed(ss[1..])
  }

  /** The absolute path made of the given pieces; the root for none. */
  function Join(ss: seq<string>): (p: string)
    ensures IsAbsolute(p)
  {
    if ss == [] then "/" else Slashed(ss)
  }

  /** A canonical absolute path: what `path.resolve` returns. */
  predicate IsCanonical(p: string) {
    AllNames(Segments(p)) && Join(Segments(p)) == p
  }

  /** Node's normalisation of the pieces of an absolute path: "." is
      dropped, ".." removes the last kept name (and is dropped at the
      root), any other piece is kept. */
  function Normalize(kept: seq<string>, pieces: seq<string>): seq<string>
    decreases |pieces|
  {
    if pieces == [] then kept
    else if pieces[0] == "." then Normalize(kept, pieces[1..])
    else if pieces[0] == ".." then
      Normalize(if kept == [] then [] else kept[..|kept| - 1], pieces[1..])
    else Normalize(kept + [pieces[0]], pieces[1..])
  }

  /** The pieces `path.resolve(ps[0], ..., ps[n-1])` normalises: those of
      the last absolute argument and of every argument after it (an empty
      argument contributes nothing). */
  function ResolvedPieces(ps: seq<string>): seq<string>
    requires |ps| > 0 && IsAbsolute(ps[0])
    decreases |ps|
  {
    var last := ps[|ps| - 1];
    if IsAbsolute(last) then Segments(last)
    else ResolvedPieces(ps[..|ps| - 1]) + Segments(last)
  }

  /** `path.resolve(ps...)` when its first argument is absolute, as every
      call in the bundler has it (the working directory, or the directory
      of an absolute module identifier). */
  function Resolve(ps: seq<string>): string
    requires |ps| > 0 && IsAbsolute(ps[0])
  {
    Join(Normalize([], ResolvedPieces(ps)))
  }

  /** `path.dirname` of an absolute path. Node keeps repeated slashes that
      this drops; every use of the result goes through `Resolve`, which
      drops them as well. */
  function Dirname(p: string): string
    requires IsAbsolute(p)
  {
    var ss := Segments(p);
    Join(if ss == [] then [] else ss[..|ss| - 1])
  }

  /** The last piece, or "" for the root. */
  function Basename(p: string): string {
    var ss := Segments(p);
    if ss == [] then "" else ss[|ss| - 1]
  }

  /** Index of the last '.' in `b`, or -1. */
  function LastDot(b: string): (d: int)
    ensures -1 <= d < |b|
    ensures d >= 0 ==> b[d] == '.'
    ensures forall i :: d < i < |b| ==> b[i] != '.'
  {
    if b == [] then -1
    else if b[|b| - 1] == '.' then |b| - 1
    else LastDot(b[..|b| - 1])
  }

  /** `path.extname`: the last piece from its last '.' on; empty when that
      piece has no '.', when its only '.' is its first character, and for
      "..". */
  function Extname(p: string): string {
    var b := Basename(p);
    var d := LastDot(b);
    if d <= 0 || b == ".." then "" else b[d..]
  }

  /** The bundler's default extension: `.js` is appended exactly when the
      resolved path has no extension. */
  function WithDefaultExtension(p: string): string {
    if Extname(p) == "" then p + ".js" else p
  }

  // ---------------------------------------------------------------------
  // Lemmas

  lemma {:induction false} SegmentsAreSegments(p: string)
    ensures AllSegments(Segments(p))
    decreases |p|
  {
    if p == [] {
    } else if p[0] == '/' {
      SegmentsAreSegments(p[1..]);
    } else {
      var n := RunLength(p);
      SegmentsAreSegments(p[n..]);
      assert IsSegment(p[..n]);
    }
  }

  lemma {:induction false} RunLengthOfPiece(s: string, rest: string)
    requires IsSegment(s)
    requires rest == [] || rest[0] == '/'
    ensures RunLength(s + rest) == |s|
    decreases |s|
  {
    if |s| > 1 {
      assert (s + rest)[1..] == s[1..] + rest;
      RunLengthOfPiece(s[1..], rest);
    } else {
      assert (s + rest)[1..] == rest;
    }
  }

  lemma {:induction false} SlashedStart(ss: seq<string>)
    ensures Slashed(ss) == [] || Slashed(ss)[0] == '/'
  {
  }

  /** Reading the pieces back from the joined path gives the pieces. */
  lemma {:induction false} SegmentsOfSlashed(ss: seq<string>)
    requires AllSegments(ss)
    ensures Segments(Slashed(ss)) == ss
    decreases |ss|
  {
    if ss != [] {
      var s, rest := ss[0], Slashed(ss[1..]);
      var x := s + rest;
      assert Slashed(ss) == "/" + x;
      assert ("/" + x)[1..] == x;
      assert Segments(Slashed(ss)) == Segments(x);
      SlashedStart(ss[1..]);
      assert IsSegment(s) by { assert s == ss[0]; }
      RunLengthOfPiece(s, rest);
      assert x[..|s|] == s;
      assert x[|s|..] == rest;
      assert AllSegments(ss[1..]) by {
        forall i | 0 <= i < |ss[1..]| ensures IsSegment(ss[1..][i]) {
          assert ss[1..][i] == ss[i + 1];
        }
      }
      SegmentsOfSlashed(ss[1..]);
    }
  }

  lemma SegmentsOfJoin(ss: seq<string>)
    requires AllSegments(ss)
    ensures Segments(Join(ss)) == ss
  {
    if ss == [] {
      assert Segments("/") == Segments("");
    } else {
      SegmentsOfSlashed(ss);
    }
  }

  lemma {:induction false} SlashedSnoc(ss: seq<string>, t: string)
    ensures Slashed(ss + [t]) == Slashed(ss) + "/" + t
    decreases |ss|
  {
    if ss == [] {
      assert Slashed([t]) == "/" + t + Slashed([]);
    } else {
      assert (ss + [t])[0] == ss[0];
      assert (ss + [t])[1..] == ss[1..] + [t];
      SlashedSnoc(ss[1..], t);
    }
  }

  /** The path joined from names is canonical. */
  lemma JoinCanonical(ss: seq<string>)
    requires AllNames(ss)
    ensures IsCanonical(Join(ss))
    ensures Segments(Join(ss)) == ss
  {
    assert AllSegments(ss) by {
      forall i | 0 <= i < |ss| ensures IsSegment(ss[i]) {
        assert IsName(ss[i]);
      }
    }
    SegmentsOfJoin(ss);
  }

  lemma {:induction false} NormalizeNames(kept: seq<string>, pieces: seq<string>)
    requires AllNames(kept) && AllSegments(pieces)
    ensures AllNames(Normalize(kept, pieces))
    decreases |pieces|
  {
    if pieces != [] {
      assert AllSegments(pieces[1..]) by {
        forall i | 0 <= i < |pieces[1..]| ensures IsSegment(pieces[1..][i]) {
          assert pieces[1..][i] == pieces[i + 1];
        }
      }
      if pieces[0] == "." {
        NormalizeNames(kept, pieces[1..]);
      } else if pieces[0] == ".." {
        var k := if kept == [] then [] else kept[..|kept| - 1];
        assert AllNames(k) by {
          forall i | 0 <= i < |k| ensures IsName(k[i]) {
            assert k[i] == kept[i];
          }
        }
        NormalizeNames(k, pieces[1..]);
      } else {
        assert IsName(pieces[0]) by { assert IsSegment(pieces[0]); }
        NormalizeNames(kept + [pieces[0]], pieces[1..]);
      }
    }
  }

  lemma {:induction false} ResolvedPiecesAreSegments(ps: seq<string>)
    requires |ps| > 0 && IsAbsolute(ps[0])
    ensures AllSegments(ResolvedPieces(ps))
    decreases |ps|
  {
    var last := ps[|ps| - 1];
    SegmentsAreSegments(last);
    if !IsAbsolute(last) {
      ResolvedPiecesAreSegments(ps[..|ps| - 1]);
    }
  }

  /** Every resolved path is canonical: absolute, no empty, "." or ".."
      piece, no trailing slash. */
  lemma ResolveCanonical(ps: seq<string>)
    requires |ps| > 0 && IsAbsolute(ps[0])
    ensures IsCanonical(Resolve(ps))
  {
    ResolvedPiecesAreSegments(ps);
    NormalizeNames([], ResolvedPieces(ps));
    JoinCanonical(Normalize([], ResolvedPieces(ps)));
  }

  lemma CanonicalIsAbsolute(p: string)
    requires IsCanonical(p)
    ensures IsAbsolute(p)
  {
    var ss := Segments(p);
    if ss != [] {
      assert Join(ss) == "/" + ss[0] + Slashed(ss[1..]);
    }
  }

  /** Resolving a path relative to the directory of an absolute file
      normalises the file's pieces but the last, followed by the pieces of
      the relative path. */
  lemma ResolveAgainstDirname(file: string, rel: string)
    requires IsAbsolute(file) && !IsAbsolute(rel)
    ensures IsAbsolute(Dirname(file))
    ensures var ss := Segments(file);
      Resolve([Dirname(file), rel]) ==
        Join(Normalize([], (if ss == [] then [] else ss[..|ss| - 1]) + Segments(rel)))
  {
    var ss := Segments(file);
    var dir := if ss == [] then [] else ss[..|ss| - 1];
    SegmentsAreSegments(file);
    assert AllSegments(dir) by {
      forall i | 0 <= i < |dir| ensures IsSegment(dir[i]) {
        assert dir[i] == ss[i];
      }
    }
    SegmentsOfJoin(dir);
    if dir != [] {
      assert Join(dir) == "/" + dir[0] + Slashed(dir[1..]);
    }
    var ps := [Dirname(file), rel];
    assert ps[..1] == [Dirname(file)];
    assert ResolvedPieces(ps[..1]) == Segments(Dirname(file)) == dir;
    assert ResolvedPieces(ps) == dir + Segments(rel);
  }

  /** Resolving a canonical path gives it back. */
  lemma {:induction false} NormalizeNamesIdentity(kept: seq<string>, names: seq<string>)
    requires AllNames(names)
    ensures Normalize(kept, names) == kept + names
    decreases |names|
  {
    if names != [] {
      assert IsName(names[0]);
      assert AllNames(names[1..]) by {
        forall i | 0 <= i < |names[1..]| ensures IsName(names[1..][i]) {
          assert names[1..][i] == names[i + 1];
        }
      }
      NormalizeNamesIdentity(kept + [names[0]], names[1..]);
      assert kept + [names[0]] + names[1..] == kept + names;
    }
  }

  lemma ResolveIdempotent(p: string)
    requires IsCanonical(p)
    ensures IsAbsolute(p) && Resolve([p]) == p
  {
    CanonicalIsAbsolute(p);
    assert ResolvedPieces([p]) == Segments(p);
    NormalizeNamesIdentity([], Segments(p));
    assert [] + Segments(p) == Segments(p);
  }

  lemma LastDotOfJs(x: string)
    ensures LastDot(x + ".js") == |x|
  {
    var y, z, w := x + ".js", x + ".j", x + ".";
    assert y[|y| - 1] == 's' && y[..|y| - 1] == z;
    assert z[|z| - 1] == 'j' && z[..|z| - 1] == w;
    assert w[|w| - 1] == '.';
    assert LastDot(w) == |x|;
  }

  /** After the default extension the path is still canonical and has an
      extension, except for the root, which becomes "/.js" (a file whose
      name starts with its only dot has no extension). A path that already
      has an extension is unchanged. */
  lemma DefaultExtension(p: string)
    requires IsCanonical(p)
    ensures IsCanonical(WithDefaultExtension(p))
    ensures Extname(WithDefaultExtension(p)) != "" || WithDefaultExtension(p) == "/.js"
    ensures Extname(p) != "" ==> WithDefaultExtension(p) == p
    ensures Extname(p) == "" ==> WithDefaultExtension(p) == p + ".js"
  {
    if Extname(p) == "" {
      var ss := Segments(p);
      var q := p + ".js";
      if ss == [] {
        assert p == "/";
        var one := [".js"];
        assert IsName(".js");
        JoinCanonical(one);
        assert Join(one) == "/" + ".js" + Slashed([]);
        assert q == Join(one);
      } else {
        var init, last := ss[..|ss| - 1], ss[|ss| - 1];
        assert ss == init + [last];
        SlashedSnoc(init, last);
        var ss' := init + [last + ".js"];
        SlashedSnoc(init, last + ".js");
        assert q == Join(ss');
        assert IsName(last);
        assert IsName(last + ".js") by {
          assert |last + ".js"| > 2;
          forall i | 0 <= i < |last + ".js"| ensures (last + ".js")[i] != '/' {
            if i >= |last| { assert (last + ".js")[i] == ".js"[i - |last|]; }
            else { assert (last + ".js")[i] == last[i]; }
          }
        }
        assert AllNames(ss') by {
          forall i | 0 <= i < |ss'| ensures IsName(ss'[i]) {
            if i < |init| { assert ss'[i] == ss[i]; }
          }
        }
        JoinCanonical(ss');
        LastDotOfJs(last);
        assert Basename(q) == last + ".js";
        assert Extname(q) == (last + ".js")[|last|..];
      }
    }
  }

  /** Normalising a concatenation normalises its halves in turn. */
  lemma {:induction false} NormalizeAppend(kept: seq<string>, a: seq<string>, b: seq<string>)
    ensures Normalize(kept, a + b) == Normalize(Normalize(kept, a), b)
    decreases |a|
  {
    if a == [] {
      assert a + b == b;
    } else {
      assert (a + b)[0] == a[0];
      assert (a + b)[1..] == a[1..] + b;
      var kept' := if a[0] == "." then kept
        else if a[0] == ".." then (if kept == [] then [] else kept[..|kept| - 1])
        else kept + [a[0]];
      NormalizeAppend(kept', a[1..], b);
    }
  }
}
