/** Go's `path/filepath` on a Unix host (separator '/', no volume names),
    restricted to what the core uses: `Ext`, `Base`, `Dir`, `Clean` and
    `Rel`. A cleaned path is described by its rootedness and its list of
    components; `Clean` renders that list back to text. */
module Paths {
  import opened Common
  import opened Text

  predicate IsRooted(p: string) {
    |p| > 0 && p[0] == '/'
  }

  predicate HasSuffix(s: string, suffix: string) {
    |suffix| <= |s| && s[|s| - |suffix|..] == suffix
  }

  /** Where the extension of `p` starts: the last '.' of its final element,
      or |p| when that element has none. */
  function ExtStart(p: string): (i: nat)
    ensures AfterLastSlash(p) <= i <= |p|
    ensures i < |p| ==> p[i] == '.' && '.' !in p[i + 1..]
    ensures i == |p| ==> '.' !in p[AfterLastSlash(p)..]
  {
    if p == [] then 0
    else
      var c := p[|p| - 1];
      if c == '/' then |p|
      else if c == '.' then |p| - 1
      else
        var j := ExtStart(p[..|p| - 1]);
        assert p[AfterLastSlash(p)..] == p[..|p| - 1][AfterLastSlash(p)..] + [c];
        if j == |p| - 1 then |p|
        else
          assert p[j + 1..] == p[..|p| - 1][j + 1..] + [c];
          j
  }

  /** `filepath.Ext`: the suffix of `p` from the last '.' of its final
      element, or "" when that element has no '.'. */
  function Ext(p: string): (r: string)
    ensures HasSuffix(p, r)
    ensures r != [] ==> r[0] == '.' && '.' !in r[1..]
    ensures '/' !in r
    ensures r == [] <==> '.' !in p[AfterLastSlash(p)..]
  {
    var i := ExtStart(p);
    assert i < |p| ==> p[i + 1..] == p[i..][1..];
    assert p[i..] == p[AfterLastSlash(p)..][i - AfterLastSlash(p)..];
    p[i..]
  }

  /** A path whose final '.' is followed only by ordinary characters has
      its extension start at that '.'. */
  lemma {:induction false} ExtStartPastPlainTail(stem: string, tail: string)
    requires stem != [] && stem[|stem| - 1] == '.'
    requires '.' !in tail && '/' !in tail
    ensures ExtStart(stem + tail) == |stem| - 1
  {
    if tail == [] {
      assert stem + tail == stem;
    } else {
      var p := stem + tail;
      assert p[..|p| - 1] == stem + tail[..|tail| - 1];
      assert p[|p| - 1] == tail[|tail| - 1];
      ExtStartPastPlainTail(stem, tail[..|tail| - 1]);
    }
  }

  /** ... so the extension is that '.' followed by the tail. */
  lemma ExtOfPlainTail(stem: string, tail: string)
    requires stem != [] && stem[|stem| - 1] == '.'
    requires '.' !in tail && '/' !in tail
    ensures Ext(stem + tail) == "." + tail
  {
    ExtStartPastPlainTail(stem, tail);
    var p := stem + tail;
    assert p[|stem| - 1..] == [stem[|stem| - 1]] + tail;
  }

  /** Lower-casing a path lower-cases its extension and nothing else about
      it: the extension of the lowered path is the lowered extension. */
  lemma {:induction false} ExtOfLower(p: string)
    ensures Ext(ToLower(p)) == ToLower(Ext(p))
  {
    ExtStartOfLower(p);
    var q, i := ToLower(p), ExtStart(p);
    assert q[i..] == ToLower(p[i..]);
  }

  lemma {:induction false} ExtStartOfLower(p: string)
    ensures ExtStart(ToLower(p)) == ExtStart(p)
  {
    if p != [] {
      var q := ToLower(p);
      var c, d := p[|p| - 1], q[|q| - 1];
      assert d == LowerChar(c);
      assert (d == '/' <==> c == '/') && (d == '.' <==> c == '.');
      assert q[..|q| - 1] == ToLower(p[..|p| - 1]);
      ExtStartOfLower(p[..|p| - 1]);
    }
  }

  /** The number of '/' characters `p` ends with. */
  function TrailingSlashes(p: string): (n: nat)
    ensures n <= |p|
    ensures forall i :: |p| - n <= i < |p| ==> p[i] == '/'
    ensures n == |p| || p[|p| - 1 - n] != '/'
  {
    if p == [] || p[|p| - 1] != '/' then 0 else 1 + TrailingSlashes(p[..|p| - 1])
  }

  /** The index just after the last '/' in `p` (0 when there is none). */
  function AfterLastSlash(p: string): (i: nat)
    ensures i <= |p|
    ensures '/' !in p[i..]
    ensures i > 0 ==> p[i - 1] == '/'
  {
    if p == [] || p[|p| - 1] == '/' then |p|
    else
      var i := AfterLastSlash(p[..|p| - 1]);
      assert p[i..] == p[..|p| - 1][i..] + [p[|p| - 1]];
      i
  }

  /** `filepath.Base`: the last element of `p` after trailing slashes are
      dropped; "." for the empty path and "/" for a path of slashes only. */
  function Base(p: string): (r: string)
    ensures r != []
    ensures r == "/" || '/' !in r
    ensures p == [] ==> r == "."
    ensures p != [] && '/' !in p ==> r == p
  {
    if p == [] then "."
    else
      var n := TrailingSlashes(p);
      var q := p[..|p| - n];
      var i := AfterLastSlash(q);
      var r := q[i..];
      assert '/' !in p ==> r == p by {
        if '/' !in p {
          assert n == 0;
          assert q == p;
          assert i == 0;
        }
      }
      if r == [] then "/" else r
  }

  /** `strings.TrimSuffix`. */
  function TrimSuffix(s: string, suffix: string): (r: string)
    ensures HasSuffix(s, suffix) ==> r + suffix == s
    ensures !HasSuffix(s, suffix) ==> r == s
  {
    if HasSuffix(s, suffix) then s[..|s| - |suffix|] else s
  }

  /** A component of a cleaned path: not empty, not ".", no separator. */
  predicate IsComponent(c: string) {
    c != "" && c != "." && '/' !in c
  }

  /** The shape `Clean` leaves: proper components, with ".." only in a
      leading run and never in a rooted path. */
  predicate WellFormed(comps: seq<string>, rooted: bool) {
    && (forall i :: 0 <= i < |comps| ==> IsComponent(comps[i]))
    && (rooted ==> forall i :: 0 <= i < |comps| ==> comps[i] != "..")
    && (forall i, j :: 0 <= j < i < |comps| && comps[i] == ".." ==> comps[j] == "..")
  }

  /** One element of `Clean`'s scan: "" and "." vanish, ".." cancels the
      previous real element, or is kept in a relative path when there is
      none, or is dropped at the root. */
  function Push(out: seq<string>, piece: string, rooted: bool): (r: seq<string>)
    requires WellFormed(out, rooted) && '/' !in piece
    ensures WellFormed(r, rooted)
  {
    if piece == "" || piece == "." then out
    else if piece == ".." then
      if |out| > 0 && out[|out| - 1] != ".." then out[..|out| - 1]
      else if rooted then out
      else out + [".."]
    else out + [piece]
  }

  function Resolve(pieces: seq<string>, rooted: bool): (r: seq<string>)
    requires forall i :: 0 <= i < |pieces| ==> '/' !in pieces[i]
    ensures WellFormed(r, rooted)
  {
    if pieces == [] then []
    else Push(Resolve(pieces[..|pieces| - 1], rooted), pieces[|pieces| - 1], rooted)
  }

  /** The components of the cleaned form of `p`. */
  function Components(p: string): (r: seq<string>)
    ensures WellFormed(r, IsRooted(p))
  {
    Resolve(Split(p, '/'), IsRooted(p))
  }

  /** Writes a component list back as a path. */
  function Render(comps: seq<string>, rooted: bool): string {
    if rooted then "/" + Join(comps, "/")
    else if comps == [] then "."
    else Join(comps, "/")
  }

  /** `filepath.Clean`. */
  function Clean(p: string): (r: string)
    ensures r != []
    ensures IsRooted(r) <==> IsRooted(p)
  {
    var comps := Components(p);
    var r := Render(comps, IsRooted(p));
    assert !IsRooted(p) && comps != [] ==> r[..|comps[0]|] == comps[0] && r[0] == comps[0][0] by {
      if !IsRooted(p) && comps != [] { JoinStartsWith(comps, "/"); }
    }
    r
  }

  lemma {:induction false} JoinStartsWith(parts: seq<string>, sep: string)
    requires |parts| > 0
    ensures |Join(parts, sep)| >= |parts[0]| && Join(parts, sep)[..|parts[0]|] == parts[0]
  {
  }

  /** A plain component: one that `Clean` keeps as it is. */
  predicate IsPlain(c: string) {
    IsComponent(c) && c != ".."
  }

  lemma {:induction false} ResolvePlain(pieces: seq<string>, rooted: bool)
    requires |pieces| >= 1 && pieces[0] == ""
    requires forall i :: 0 <= i < |pieces| ==> '/' !in pieces[i]
    requires forall i :: 1 <= i < |pieces| ==> IsPlain(pieces[i])
    ensures Resolve(pieces, rooted) == pieces[1..]
  {
    if |pieces| > 1 {
      var init := pieces[..|pieces| - 1];
      ResolvePlain(init, rooted);
      assert pieces[1..] == init[1..] + [pieces[|pieces| - 1]];
    }
  }

  lemma SplitRooted(parts: seq<string>)
    requires |parts| >= 1 && forall i :: 0 <= i < |parts| ==> '/' !in parts[i]
    ensures Split("/" + Join(parts, "/"), '/') == [""] + parts
  {
    var ps := [""] + parts;
    assert ps[1..] == parts;
    assert Join(ps, "/") == "/" + Join(parts, "/");
    assert forall i :: 1 <= i < |ps| ==> ps[i] == parts[i - 1];
    SplitJoin(ps, '/');
  }

  /** A rooted path written with plain components is already clean: its
      components are exactly the ones it was written with. */
  lemma ComponentsOfPlain(parts: seq<string>)
    requires |parts| >= 1 && forall i :: 0 <= i < |parts| ==> IsPlain(parts[i])
    ensures Components("/" + Join(parts, "/")) == parts
  {
    var ps := [""] + parts;
    assert ps[1..] == parts;
    assert forall i :: 1 <= i < |ps| ==> ps[i] == parts[i - 1];
    assert forall i :: 0 <= i < |parts| ==> '/' !in parts[i];
    SplitRooted(parts);
    ResolvePlain(ps, true);
  }

  lemma {:induction false} ResolveAllPlain(pieces: seq<string>, rooted: bool)
    requires forall i :: 0 <= i < |pieces| ==> '/' !in pieces[i] && IsPlain(pieces[i])
    ensures Resolve(pieces, rooted) == pieces
  {
    if pieces != [] {
      var init, last := pieces[..|pieces| - 1], pieces[|pieces| - 1];
      ResolveAllPlain(init, rooted);
      assert IsPlain(last) && last != "" && last != "." && last != "..";
      assert Push(init, last, rooted) == init + [last];
      assert init + [last] == pieces;
    }
  }

  /** A relative path written with plain components is already clean. */
  lemma CleanOfPlainRelative(parts: seq<string>)
    requires |parts| >= 1 && forall i :: 0 <= i < |parts| ==> IsPlain(parts[i])
    ensures Clean(Join(parts, "/")) == Join(parts, "/")
  {
    var p := Join(parts, "/");
    JoinStartsWith(parts, "/");
    assert p[0] == parts[0][0];
    assert !IsRooted(p);
    assert forall i :: 0 <= i < |parts| ==> '/' !in parts[i] && IsPlain(parts[i]);
    SplitJoin(parts, '/');
    ResolveAllPlain(parts, false);
  }

  lemma {:induction false} AfterLastSlashOfChild(dir: string, name: string)
    requires '/' !in name
    ensures AfterLastSlash(dir + "/" + name) == |dir| + 1
  {
    if name != [] {
      var p := dir + "/" + name;
      assert p[..|p| - 1] == dir + "/" + name[..|name| - 1];
      AfterLastSlashOfChild(dir, name[..|name| - 1]);
    }
  }

  lemma BaseOfUnslashed(p: string)
    requires p != [] && p[|p| - 1] != '/'
    ensures Base(p) == p[AfterLastSlash(p)..]
  {
    assert TrailingSlashes(p) == 0;
    assert p[..|p| - 0] == p;
  }

  /** The base name of a child path is the child's name. */
  lemma BaseOfChild(dir: string, name: string)
    requires name != [] && '/' !in name
    ensures Base(dir + "/" + name) == name
  {
    var p := dir + "/" + name;
    assert p[|p| - 1] == name[|name| - 1];
    BaseOfUnslashed(p);
    AfterLastSlashOfChild(dir, name);
    assert p[|dir| + 1..] == name;
  }

  /** `filepath.Dir`: everything before the last separator, cleaned. */
  function Dir(p: string): (r: string)
    ensures r != []
  {
    Clean(p[..AfterLastSlash(p)])
  }

  /** The length of the longest common prefix of two component lists. */
  function CommonPrefix(a: seq<string>, b: seq<string>): (k: nat)
    ensures k <= |a| && k <= |b| && a[..k] == b[..k]
    ensures k < |a| && k < |b| ==> a[k] != b[k]
  {
    if a == [] || b == [] || a[0] != b[0] then 0
    else
      var k := CommonPrefix(a[1..], b[1..]);
      assert a[..k + 1] == [a[0]] + a[1..][..k];
      assert b[..k + 1] == [b[0]] + b[1..][..k];
      k + 1
  }

  function Dots(n: nat): (r: seq<string>)
    ensures |r| == n && forall i :: 0 <= i < n ==> r[i] == ".."
  {
    seq(n, _ => "..")
  }

  /** The components `Rel` compares on the target side: the cleaned target,
      where a cleaned "." is the one-element list ["."] (Go's `Rel` only
      empties the base's "."). */
  function TargetComponents(t: string): (r: seq<string>)
    ensures forall i :: 0 <= i < |r| ==> r[i] != "" && '/' !in r[i]
  {
    var c := Components(t);
    if c == [] && !IsRooted(t) then ["."] else c
  }

  /** `filepath.Rel`: the path that leads from `base` to `targ`. It fails
      when one is rooted and the other is not, and when the base still has
      a ".." where the two part ways, since no path can climb back out of
      an unknown parent. Otherwise it climbs with ".." out of the rest of
      the base and descends into the rest of the target. */
  function Rel(base: string, targ: string): Result<string, Error> {
    if IsRooted(base) != IsRooted(targ) then
      Failure(Error("Rel: can't make " + targ + " relative to " + base))
    else
      var b, t := Components(base), TargetComponents(targ);
      var k := CommonPrefix(b, t);
      if k < |b| && b[k] == ".." then
        Failure(Error("Rel: can't make " + targ + " relative to " + base))
      else
        Success(Render(Dots(|b| - k) + t[k..], false))
  }

  /** Seen from a rooted directory, a path below it is the rest of its
      components joined with '/'. */
  lemma RelOfDescendant(base: string, targ: string, rest: seq<string>)
    requires IsRooted(base) && IsRooted(targ) && rest != []
    requires Components(targ) == Components(base) + rest
    ensures Rel(base, targ) == Success(Join(rest, "/"))
  {
    var b, t := Components(base), Components(targ);
    var k := CommonPrefix(b, t);
    assert t[..|b|] == b;
    assert k == |b|;
    assert Dots(0) + t[k..] == rest;
  }

  /** A relative path rendered from separator-free, non-empty components is
      ".." or starts with "../" exactly when its first component is "..". */
  lemma RenderClimbs(comps: seq<string>)
    requires forall i :: 0 <= i < |comps| ==> comps[i] != "" && '/' !in comps[i]
    ensures (var s := Render(comps, false); s == ".." || HasPrefix(s, "../"))
            <==> (|comps| > 0 && comps[0] == "..")
  {
    if comps != [] {
      var s := Render(comps, false);
      var c := comps[0];
      if |comps| == 1 {
        assert s == c;
        if |c| >= 3 { assert c[2] in c; }
      } else {
        assert s == c + "/" + Join(comps[1..], "/");
        if c != ".." {
          if |c| == 1 {
            assert s[1] == '/';
          } else if |c| == 2 {
            assert s[..2] == c;
          } else {
            assert s[..3] == c[..3] && c[2] in c;
          }
        }
      }
    }
  }
}
