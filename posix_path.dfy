/** The part of Node's `path` module (POSIX flavour) that the handlers rely on:
    `split('/')`, `path.normalize`, `path.join`, `path.resolve` and `path.extname`.

    A normalised absolute path is kept as its list of segments plus the flag that
    `path.normalize` uses to keep a trailing separator; `Render` gives back the string. */
module PosixPath {

  /** A segment that can survive normalisation: non-empty, not `.` or `..`, no separator. */
  predicate IsName(s: string)
  {
    s != "" && s != "." && s != ".." && '/' !in s
  }

  predicate AllNames(segs: seq<string>)
  {
    forall i :: 0 <= i < |segs| ==> IsName(segs[i])
  }

  predicate SlashFree(parts: seq<string>)
  {
    forall i :: 0 <= i < |parts| ==> '/' !in parts[i]
  }

  // ---------------------------------------------------------------------------
  // split('/') and its inverse, join('/')

  /** `s.split('/')`: the pieces between separators, empty pieces included. */
  function Split(s: string): (parts: seq<string>)
    ensures |parts| >= 1
    ensures SlashFree(parts)
  {
    if s == [] then [""]
    else
      var rest := Split(s[1..]);
      if s[0] == '/' then [""] + rest
      else [[s[0]] + rest[0]] + rest[1..]
  }

  /** `parts.join('/')` */
  function Glue(parts: seq<string>): string
  {
    if parts == [] then ""
    else if |parts| == 1 then parts[0]
    else parts[0] + "/" + Glue(parts[1..])
  }

  lemma {:induction false} GlueSplit(s: string)
    ensures Glue(Split(s)) == s
  {
    if s != [] {
      var rest := Split(s[1..]);
      GlueSplit(s[1..]);
      if s[0] == '/' {
        assert Split(s) == [""] + rest;
        assert s == [s[0]] + s[1..];
      } else {
        assert Split(s) == [[s[0]] + rest[0]] + rest[1..];
        if |rest| == 1 {
          assert s == [s[0]] + rest[0];
        } else {
          assert Glue(rest) == rest[0] + "/" + Glue(rest[1..]);
          assert s == [s[0]] + rest[0] + "/" + Glue(rest[1..]);
        }
      }
    }
  }

  lemma {:induction false} SplitSingle(x: string)
    requires '/' !in x
    ensures Split(x) == [x]
  {
    if x != [] {
      assert '/' !in x[1..] by {
        forall i | 0 <= i < |x[1..]| ensures x[1..][i] != '/' {
          assert x[1..][i] == x[i + 1];
        }
      }
      SplitSingle(x[1..]);
      assert x == [x[0]] + x[1..];
    }
  }

  /** Extending the first piece commutes with appending further pieces. */
  lemma ExtendFirst(c: char, ra: seq<string>, tail: seq<string>)
    requires |ra| >= 1
    ensures [[c] + (ra + tail)[0]] + (ra + tail)[1..] == ([[c] + ra[0]] + ra[1..]) + tail
  {
    assert (ra + tail)[0] == ra[0];
    assert (ra + tail)[1..] == ra[1..] + tail;
  }

  lemma {:induction false} SplitAppend(a: string, b: string)
    ensures Split(a + "/" + b) == Split(a) + Split(b)
  {
    var s := a + "/" + b;
    if a == [] {
      assert s == "/" + b;
      assert s[1..] == b;
    } else {
      SplitAppend(a[1..], b);
      assert s[0] == a[0] && s[1..] == a[1..] + "/" + b;
      if a[0] != '/' {
        ExtendFirst(a[0], Split(a[1..]), Split(b));
      }
    }
  }

  // ---------------------------------------------------------------------------
  // Normalisation over segments

  /** One step of `path.normalize` on an absolute path: empty and `.` pieces vanish,
      `..` drops the last segment (and stays put at the root), any other piece is appended. */
  function Step(stack: seq<string>, part: string): seq<string>
  {
    if part == "" || part == "." then stack
    else if part == ".." then (if stack == [] then [] else stack[..|stack| - 1])
    else stack + [part]
  }

  function Resolve(stack: seq<string>, parts: seq<string>): seq<string>
    decreases |parts|
  {
    if parts == [] then stack else Resolve(Step(stack, parts[0]), parts[1..])
  }

  /** The pieces that a normalisation keeps when no piece is `..`. */
  function Kept(parts: seq<string>): (r: seq<string>)
    ensures |r| <= |parts|
  {
    if parts == [] then []
    else if parts[0] == "" || parts[0] == "." then Kept(parts[1..])
    else [parts[0]] + Kept(parts[1..])
  }

  lemma {:induction false} ResolveAppend(stack: seq<string>, a: seq<string>, b: seq<string>)
    ensures Resolve(stack, a + b) == Resolve(Resolve(stack, a), b)
    decreases |a|
  {
    if a == [] {
      assert a + b == b;
    } else {
      assert (a + b)[0] == a[0];
      assert (a + b)[1..] == a[1..] + b;
      ResolveAppend(Step(stack, a[0]), a[1..], b);
    }
  }

  /** Normalisation never produces a segment that is empty, `.`, `..` or contains `/`. */
  lemma {:induction false} ResolveNames(stack: seq<string>, parts: seq<string>)
    requires AllNames(stack) && SlashFree(parts)
    ensures AllNames(Resolve(stack, parts))
    decreases |parts|
  {
    if parts != [] {
      ResolveNames(Step(stack, parts[0]), parts[1..]);
    }
  }

  /** Without a `..` piece, normalisation can only append: the stack is never popped. */
  lemma {:induction false} ResolveWithoutParent(stack: seq<string>, parts: seq<string>)
    requires ".." !in parts
    ensures Resolve(stack, parts) == stack + Kept(parts)
    decreases |parts|
  {
    if parts != [] {
      assert parts == [parts[0]] + parts[1..];
      assert ".." !in parts[1..];
      ResolveWithoutParent(Step(stack, parts[0]), parts[1..]);
    }
  }

  lemma {:induction false} KeptAppend(a: seq<string>, b: seq<string>)
    ensures Kept(a + b) == Kept(a) + Kept(b)
  {
    if a == [] {
      assert a + b == b;
    } else {
      assert (a + b)[0] == a[0];
      assert (a + b)[1..] == a[1..] + b;
      KeptAppend(a[1..], b);
    }
  }

  lemma {:induction false} KeptNames(parts: seq<string>)
    requires AllNames(parts)
    ensures Kept(parts) == parts
  {
    if parts != [] {
      KeptNames(parts[1..]);
    }
  }

  // ---------------------------------------------------------------------------
  // Absolute paths and their strings

  datatype Abs = Abs(segs: seq<string>, trailing: bool)
  {
    /** What `path.normalize` can return for an absolute path. */
    predicate Valid()
    {
      AllNames(segs) && (segs == [] ==> !trailing)
    }
  }

  /** Each segment preceded by a separator. */
  function Slashed(segs: seq<string>): string
  {
    if segs == [] then "" else "/" + segs[0] + Slashed(segs[1..])
  }

  function Render(p: Abs): (s: string)
    ensures |s| > 0 && s[0] == '/'
  {
    if p.segs == [] then "/"
    else
      var body := Slashed(p.segs);
      assert body[0] == '/';
      body + (if p.trailing then "/" else "")
  }

  lemma {:induction false} SlashedAppend(a: seq<string>, b: seq<string>)
    ensures Slashed(a + b) == Slashed(a) + Slashed(b)
  {
    if a == [] {
      assert a + b == b;
    } else {
      assert (a + b)[0] == a[0];
      assert (a + b)[1..] == a[1..] + b;
      SlashedAppend(a[1..], b);
    }
  }

  lemma {:induction false} SplitSlashed(x: string, rest: seq<string>)
    requires '/' !in x && SlashFree(rest)
    ensures Split(x + Slashed(rest)) == [x] + rest
    decreases |rest|
  {
    if rest == [] {
      assert x + Slashed(rest) == x;
      SplitSingle(x);
    } else {
      assert x + Slashed(rest) == x + "/" + (rest[0] + Slashed(rest[1..]));
      SplitAppend(x, rest[0] + Slashed(rest[1..]));
      SplitSingle(x);
      SplitSlashed(rest[0], rest[1..]);
      assert [rest[0]] + rest[1..] == rest;
    }
  }

  /** The pieces of a rendered path are its segments, behind an empty piece for the root. */
  lemma SplitRender(p: Abs)
    requires p.Valid()
    ensures Resolve([], Split(Render(p))) == p.segs
  {
    var parts: seq<string>;
    if p.segs == [] {
      assert Render(p) == "" + "/" + "";
      SplitAppend("", "");
      parts := ["", ""];
      assert Split(Render(p)) == parts;
    } else {
      var body := Slashed(p.segs);
      assert body == "" + body;
      SplitSlashed("", p.segs);
      assert Split(body) == [""] + p.segs;
      if p.trailing {
        assert Render(p) == body + "/" + "";
        SplitAppend(body, "");
        parts := [""] + p.segs + [""];
        assert Split(Render(p)) == Split(body) + Split("");
      } else {
        assert Render(p) == body;
        parts := [""] + p.segs;
      }
      assert Split(Render(p)) == parts;
    }
    assert ".." !in parts by {
      forall i | 0 <= i < |parts| ensures parts[i] != ".." {
        assert parts[i] == "" || parts[i] in p.segs;
      }
    }
    ResolveWithoutParent([], parts);
    KeptNames(p.segs);
    if p.segs != [] {
      KeptAppend([""], p.segs);
      if p.trailing {
        KeptAppend([""] + p.segs, [""]);
      }
    }
  }

  /** Appending a relative path to a rendered absolute one resolves its pieces below it. */
  lemma ResolveBelow(p: Abs, rel: string)
    requires p.Valid()
    ensures Resolve([], Split(Render(p) + "/" + rel)) == Resolve(p.segs, Split(rel))
  {
    SplitAppend(Render(p), rel);
    ResolveAppend([], Split(Render(p)), Split(rel));
    SplitRender(p);
  }

  lemma {:induction false} SlashedLast(segs: seq<string>)
    requires segs != [] && AllNames(segs)
    ensures Slashed(segs) != [] && Slashed(segs)[|Slashed(segs)| - 1] != '/'
  {
    if |segs| == 1 {
      var x := segs[0];
      assert Slashed(segs) == "/" + x;
      assert Slashed(segs)[|Slashed(segs)| - 1] == x[|x| - 1];
    } else {
      SlashedLast(segs[1..]);
      assert Slashed(segs) == ("/" + segs[0]) + Slashed(segs[1..]);
    }
  }

  // ---------------------------------------------------------------------------
  // path.normalize, path.join and path.resolve on absolute paths

  /** `path.normalize(s)` for an absolute `s`. */
  function Normalize(s: string): (p: Abs)
    requires |s| > 0 && s[0] == '/'
    ensures p.Valid()
  {
    ResolveNames([], Split(s));
    var segs := Resolve([], Split(s));
    Abs(segs, segs != [] && s[|s| - 1] == '/')
  }

  /** `path.normalize` is idempotent: a normalised path renders to a string it gives back. */
  lemma NormalizeRender(p: Abs)
    requires p.Valid()
    ensures Normalize(Render(p)) == p
  {
    SplitRender(p);
    if p.segs != [] {
      SlashedLast(p.segs);
    }
  }

  /** The string `path.join(base, ...rels)` builds before normalising: the non-empty
      arguments joined by `/` (here `base` is an absolute path, so never empty). */
  function JoinArgs(base: string, rels: seq<string>): (s: string)
    ensures base <= s
    decreases |rels|
  {
    if rels == [] then base
    else
      var next := if rels[0] == "" then base else base + "/" + rels[0];
      assert base <= next;
      JoinArgs(next, rels[1..])
  }

  /** `path.join(base, ...rels)` for an absolute `base`. */
  function Join(base: string, rels: seq<string>): (p: Abs)
    requires |base| > 0 && base[0] == '/'
    ensures p.Valid()
  {
    var s := JoinArgs(base, rels);
    assert s[0] == base[0];
    Normalize(s)
  }

  /** `path.resolve(base, p)` for an absolute `base`: an absolute `p` wins, and the result
      never keeps a trailing separator. */
  function ResolveAgainst(base: string, p: string): (r: Abs)
    requires |base| > 0 && base[0] == '/'
    ensures r.Valid() && !r.trailing
  {
    var s := if |p| > 0 && p[0] == '/' then p else base + "/" + p;
    Abs(Normalize(s).segs, false)
  }

  lemma JoinArgsTwo(base: string, dir: string, rel: string)
    requires dir != ""
    ensures JoinArgs(base, [dir, rel]) == if rel == "" then base + "/" + dir else base + "/" + dir + "/" + rel
  {
    assert [dir, rel][1..] == [rel];
    assert [rel][1..] == [];
    var sd := base + "/" + dir;
    assert JoinArgs(base, [dir, rel]) == JoinArgs(sd, [rel]);
    assert JoinArgs(sd, [rel]) == JoinArgs(if rel == "" then sd else sd + "/" + rel, []);
  }

  /** `path.join(base, dir, rel)`: `rel` is resolved below `base` and `dir`, and the result
      keeps a trailing separator exactly when `rel` ends with one and is not the root. */
  lemma JoinTwo(p: Abs, dir: string, rel: string)
    requires p.Valid() && IsName(dir)
    ensures Join(Render(p), [dir, rel]).segs == Resolve(p.segs + [dir], Split(rel))
    ensures Join(Render(p), [dir, rel]).trailing <==> rel != "" && rel[|rel| - 1] == '/' && Join(Render(p), [dir, rel]).segs != []
  {
    var base := Render(p);
    JoinArgsTwo(base, dir, rel);
    var s := JoinArgs(base, [dir, rel]);
    var sd := base + "/" + dir;
    assert Join(base, [dir, rel]) == Normalize(s);
    JoinBelow(p, dir, rel);
    var n := Normalize(s);
    assert n.segs == Resolve([], Split(s));
    assert n.trailing == (n.segs != [] && s[|s| - 1] == '/');
    if rel == "" {
      assert s == sd;
      assert s[|s| - 1] == dir[|dir| - 1];
    } else {
      assert s == sd + "/" + rel;
      assert s[|s| - 1] == rel[|rel| - 1];
    }
  }

  lemma JoinBelow(p: Abs, dir: string, rel: string)
    requires p.Valid() && IsName(dir)
    ensures var sd := Render(p) + "/" + dir;
      Resolve([], Split(if rel == "" then sd else sd + "/" + rel)) == Resolve(p.segs + [dir], Split(rel))
  {
    var sd := Render(p) + "/" + dir;
    ResolveBelow(p, dir);
    SplitSingle(dir);
    assert Resolve(p.segs, Split(dir)) == p.segs + [dir];
    if rel == "" {
      assert Split(rel) == [""];
      assert Resolve(p.segs + [dir], Split(rel)) == p.segs + [dir];
    } else {
      SplitAppend(sd, rel);
      ResolveAppend([], Split(sd), Split(rel));
    }
  }

  /** The single-argument form, `path.join(base, dir)` / `path.resolve(base, dir)`. */
  lemma JoinOne(p: Abs, dir: string)
    requires p.Valid() && IsName(dir)
    ensures Join(Render(p), [dir]) == Abs(p.segs + [dir], false)
    ensures ResolveAgainst(Render(p), dir) == Abs(p.segs + [dir], false)
  {
    var base := Render(p);
    assert [dir][1..] == [];
    assert JoinArgs(base, [dir]) == base + "/" + dir;
    ResolveBelow(p, dir);
    SplitSingle(dir);
    assert Resolve(p.segs, Split(dir)) == p.segs + [dir];
  }

  // ---------------------------------------------------------------------------
  // String prefixes of rendered paths

  /** `s[i]`, made total so that it can be mentioned whatever `i` is. */
  function CharAt(s: string, i: int): char
  {
    if 0 <= i < |s| then s[i] else '\0'
  }

  /** Text that is empty or starts with a separator, as after the end of a segment. */
  predicate SegmentEnd(rest: string)
  {
    rest == "" || rest[0] == '/'
  }

  lemma WordBeforeSeparator(a: string, b: string, rest: string)
    requires '/' !in a && '/' !in b && SegmentEnd(rest)
    requires a <= b + rest
    ensures a <= b
  {
    assert |a| <= |b| || CharAt(a, |b|) == CharAt(b + rest, |b|);
  }

  lemma SameSegment(a: string, k: string, b: string, m: string)
    requires '/' !in a && '/' !in b && k != "" && k[0] == '/' && SegmentEnd(m)
    requires a + k <= b + m
    ensures a == b && k <= m
  {
    assert |b| <= |a| || CharAt(a + k, |a|) == CharAt(b + m, |a|);
    assert |a| <= |b| || CharAt(a + k, |b|) == CharAt(b + m, |b|);
    assert a == (a + k)[..|a|] == (b + m)[..|b|] == b;
    assert (a + k)[|a|..] == k;
  }

  lemma {:induction false} SlashedSegmentEnd(segs: seq<string>, tail: string)
    requires tail == "" || tail == "/"
    ensures SegmentEnd(Slashed(segs) + tail)
  {
    if segs == [] {
      assert Slashed(segs) + tail == tail;
    }
  }

  /** Prefixes of renderings align on segments: when `Slashed(dir) + "/"` begins the rendering
      of some segments, `dir` is a prefix of them, and a proper one unless the rendering
      ends with the extra separator. */
  lemma DropCommonHead(h: string, u: string, v: string)
    requires h + u <= h + v
    ensures u <= v
  {
    assert |u| <= |v|;
    forall i | 0 <= i < |u| ensures u[i] == v[i] {
      assert u[i] == (h + u)[|h| + i];
      assert v[i] == (h + v)[|h| + i];
    }
  }

  lemma {:induction false} SeparatorPrefixAligned(dir: seq<string>, segs: seq<string>, tail: string)
    requires AllNames(dir) && AllNames(segs) && (tail == "" || tail == "/")
    requires Slashed(dir) + "/" <= Slashed(segs) + tail
    ensures dir <= segs && (|dir| < |segs| || tail == "/")
    decreases |dir|
  {
    if dir == [] {
      if segs == [] {
        assert Slashed(segs) + tail == tail;
      }
    } else {
      var d := dir[0];
      if segs == [] {
        assert false;
      }
      var x := segs[0];
      var k := Slashed(dir[1..]) + "/";
      var m := Slashed(segs[1..]) + tail;
      assert Slashed(dir) + "/" == "/" + (d + k);
      assert Slashed(segs) + tail == "/" + (x + m);
      DropCommonHead("/", d + k, x + m);
      SlashedSegmentEnd(dir[1..], "/");
      assert k != "" && k[0] == '/' by {
        if dir[1..] == [] { assert k == "/"; }
      }
      SlashedSegmentEnd(segs[1..], tail);
      SameSegment(d, k, x, m);
      SeparatorPrefixAligned(dir[1..], segs[1..], tail);
      assert dir == [d] + dir[1..];
      assert segs == [x] + segs[1..];
    }
  }

  /** The prefix check with a separator (`startsWith(dir + sep)`) admits exactly the paths
      strictly below `dir`, plus `dir` itself when written with a trailing separator. */
  lemma StrictPrefixCheck(dir: seq<string>, p: Abs)
    requires AllNames(dir) && dir != [] && p.Valid()
    ensures Render(Abs(dir, false)) + "/" <= Render(p)
      <==> (|dir| < |p.segs| && p.segs[..|dir|] == dir) || (dir == p.segs && p.trailing)
  {
    var pre := Render(Abs(dir, false)) + "/";
    assert pre == Slashed(dir) + "/";
    var tail := if p.trailing then "/" else "";
    if p.segs == [] {
      assert Render(p) == "/";
      assert |pre| >= 3;
    } else {
      assert Render(p) == Slashed(p.segs) + tail;
      if pre <= Render(p) {
        SeparatorPrefixAligned(dir, p.segs, tail);
      }
      if |dir| < |p.segs| && p.segs[..|dir|] == dir {
        var rest := p.segs[|dir|..];
        assert p.segs == dir + rest;
        SlashedAppend(dir, rest);
        assert Slashed(rest)[0] == '/';
        assert Render(p) == Slashed(dir) + Slashed(rest) + tail;
      }
    }
  }

  /** The prefix check without a separator (`startsWith(dir)`, with `dir` = `base/name`) admits
      every path whose segment right after `base` merely begins with `name`. */
  lemma PlainPrefixCheck(base: seq<string>, name: string, p: Abs)
    requires AllNames(base) && IsName(name) && p.Valid()
    ensures Render(Abs(base + [name], false)) <= Render(p)
      <==> |base| < |p.segs| && p.segs[..|base|] == base && name <= p.segs[|base|]
  {
    if Render(Abs(base + [name], false)) <= Render(p) {
      PlainPrefixSound(base, name, p);
    }
    if |base| < |p.segs| && p.segs[..|base|] == base && name <= p.segs[|base|] {
      PlainPrefixComplete(base, name, p);
    }
  }

  lemma SlashedBelow(base: seq<string>, x: string, rest: seq<string>)
    ensures Slashed(base + [x] + rest) == Slashed(base) + "/" + x + Slashed(rest)
  {
    SlashedAppend(base + [x], rest);
    SlashedAppend(base, [x]);
    assert Slashed([x]) == "/" + x + Slashed([]);
  }

  lemma RenderNonRoot(p: Abs)
    requires p.segs != []
    ensures Render(p) == Slashed(p.segs) + (if p.trailing then "/" else "")
  {
  }

  lemma Associate4(l: string, x: string, r: string, t: string)
    ensures l + x + r + t == l + (x + (r + t))
  {
  }

  lemma SplitAt(segs: seq<string>, k: nat)
    requires k < |segs|
    ensures segs == segs[..k] + [segs[k]] + segs[k + 1..]
  {
    assert segs[k..] == [segs[k]] + segs[k + 1..];
    assert segs == segs[..k] + segs[k..];
  }

  lemma RenderBelow(base: seq<string>, x: string, p: Abs)
    requires |base| < |p.segs| && p.segs[..|base|] == base && p.segs[|base|] == x
    ensures Render(p) == (Slashed(base) + "/") + (x + (Slashed(p.segs[|base| + 1..]) + (if p.trailing then "/" else "")))
  {
    var rest := p.segs[|base| + 1..];
    var tail := if p.trailing then "/" else "";
    SplitAt(p.segs, |base|);
    SlashedBelow(base, x, rest);
    var l := Slashed(base) + "/";
    var r := Slashed(rest);
    RenderNonRoot(p);
    calc {
      Render(p);
      Slashed(p.segs) + tail;
      Slashed(base + [x] + rest) + tail;
      l + x + r + tail;
      { Associate4(l, x, r, tail); }
      l + (x + (r + tail));
    }
  }

  lemma SlashedOne(name: string)
    ensures Slashed([name]) == "/" + name
  {
    assert [name][1..] == [];
  }

  lemma RenderBelowName(base: seq<string>, name: string)
    ensures Render(Abs(base + [name], false)) == Slashed(base) + "/" + name
  {
    var p := Abs(base + [name], false);
    RenderNonRoot(p);
    SlashedAppend(base, [name]);
    SlashedOne(name);
    calc {
      Render(p);
      Slashed(base + [name]) + "";
      Slashed(base) + Slashed([name]);
      Slashed(base) + ("/" + name);
      Slashed(base) + "/" + name;
    }
  }

  lemma PlainPrefixComplete(base: seq<string>, name: string, p: Abs)
    requires |base| < |p.segs| && p.segs[..|base|] == base && name <= p.segs[|base|]
    ensures Render(Abs(base + [name], false)) <= Render(p)
  {
    RenderBelow(base, p.segs[|base|], p);
    RenderBelowName(base, name);
  }

  lemma PlainPrefixSound(base: seq<string>, name: string, p: Abs)
    requires AllNames(base) && IsName(name) && p.Valid()
    requires Render(Abs(base + [name], false)) <= Render(p)
    ensures |base| < |p.segs| && p.segs[..|base|] == base && name <= p.segs[|base|]
  {
    var pre := Render(Abs(base + [name], false));
    RenderBelowName(base, name);
    var tail := if p.trailing then "/" else "";
    assert p.segs == [] ==> Render(p) == "/";
    if p.segs == [] {
      assert false;
    }
    assert Render(p) == Slashed(p.segs) + tail;
    assert Slashed(base) + "/" <= Render(p) by {
      assert pre == (Slashed(base) + "/") + name;
    }
    SeparatorPrefixAligned(base, p.segs, tail);
    assert |base| == |p.segs| ==> p.segs == base && Render(p) == Slashed(base) + "/";
    if |base| == |p.segs| {
      assert false;
    }
    var x := p.segs[|base|];
    var rest := Slashed(p.segs[|base| + 1..]) + tail;
    RenderBelow(base, x, p);
    assert name <= x + rest by {
      var n := |Slashed(base) + "/"|;
      assert Render(p)[n..] == x + rest;
      assert pre[n..] == name;
    }
    SlashedSegmentEnd(p.segs[|base| + 1..], tail);
    WordBeforeSeparator(name, x, rest);
  }

  // ---------------------------------------------------------------------------
  // path.extname

  function TrimTrailingSlashes(s: string): (r: string)
    ensures r <= s
  {
    if s != [] && s[|s| - 1] == '/' then TrimTrailingSlashes(s[..|s| - 1]) else s
  }

  /** The index of the last occurrence of `c`, or -1. */
  function LastIndexOf(s: string, c: char): (k: int)
    ensures -1 <= k < |s|
    ensures k >= 0 ==> s[k] == c && c !in s[k + 1..]
    ensures k == -1 ==> c !in s
  {
    if s == [] then -1
    else if s[|s| - 1] == c then |s| - 1
    else
      var k := LastIndexOf(s[..|s| - 1], c);
      assert s == s[..|s| - 1] + [s[|s| - 1]];
      k
  }

  /** The text after the last separator. */
  function LastSegment(s: string): (r: string)
    ensures '/' !in r
  {
    var k := LastIndexOf(s, '/');
    s[k + 1..]
  }

  /** The last dot of a segment lies after its first character exactly when some
      character after the first is a dot. */
  lemma LastDotAfterFirst(base: string)
    ensures LastIndexOf(base, '.') > 0 <==> |base| > 1 && '.' in base[1..]
  {
    var dot := LastIndexOf(base, '.');
    if |base| > 1 && '.' in base[1..] {
      var i :| 0 <= i < |base[1..]| && base[1..][i] == '.';
      assert base[i + 1] == '.';
    }
    if dot > 0 {
      assert base[1..][dot - 1] == base[dot];
    }
  }

  /** The extension of one segment: from its last dot, unless that dot leads the segment
      or the segment is `..`. */
  function SegmentExt(base: string): (e: string)
    ensures e == [] || (e[0] == '.' && '.' !in e[1..])
    ensures e == [] || (|e| < |base| && base[|base| - |e|..] == e)
    ensures e == [] <==> |base| <= 1 || '.' !in base[1..] || base == ".."
  {
    var dot := LastIndexOf(base, '.');
    LastDotAfterFirst(base);
    if dot <= 0 || base == ".." then "" else base[dot..]
  }

  /** `path.extname(p)`: from the last `.` of the last segment (trailing separators ignored);
      empty when there is no dot, when the dot leads the segment, and for the segment `..`. */
  function Extname(p: string): (e: string)
    ensures '/' !in e
    ensures var base := LastSegment(TrimTrailingSlashes(p));
      e == [] || (e[0] == '.' && '.' !in e[1..] && |e| < |base| && base[|base| - |e|..] == e)
    ensures var base := LastSegment(TrimTrailingSlashes(p));
      e == [] <==> |base| <= 1 || '.' !in base[1..] || base == ".."
  {
    var base := LastSegment(TrimTrailingSlashes(p));
    SegmentExt(base)
  }

  lemma LastDotOfName(stem: string, ext: string)
    requires '.' !in stem && '.' !in ext
    ensures LastIndexOf(stem + "." + ext, '.') == |stem|
  {
    var name := stem + "." + ext;
    assert name[|stem|] == '.';
    assert '.' !in name[|stem| + 1..] by {
      assert name[|stem| + 1..] == ext;
    }
  }

  /** A file name made of a dot-free stem, a dot and a dot-free extension has that extension. */
  lemma ExtnameOfName(stem: string, ext: string)
    requires stem != "" && '/' !in stem && '.' !in stem
    requires '/' !in ext && '.' !in ext
    ensures Extname(stem + "." + ext) == "." + ext
  {
    var name := stem + "." + ext;
    assert '/' !in name by {
      forall i | 0 <= i < |name| ensures name[i] != '/' {
        if i < |stem| { assert name[i] == stem[i]; }
        else if i > |stem| { assert name[i] == ext[i - |stem| - 1]; }
      }
    }
    assert name[|name| - 1] != '/';
    assert TrimTrailingSlashes(name) == name;
    assert LastIndexOf(name, '/') == -1;
    assert LastSegment(name) == name;
    SegmentExtOfName(stem, ext);
  }

  lemma SegmentExtOfName(stem: string, ext: string)
    requires stem != "" && '.' !in stem && '.' !in ext
    ensures SegmentExt(stem + "." + ext) == "." + ext
  {
    var name := stem + "." + ext;
    LastDotOfName(stem, ext);
    assert name[0] == stem[0] != '.';
    assert name[|stem|..] == "." + ext;
  }
}
