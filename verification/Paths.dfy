/**
 POSIX paths as byte strings: tokenizing, cleaning, joining and the subpath test.
 The component sequence of a clean absolute path determines it, and `IsSubpath`, which tests the text of a
 relative path, is exactly the strict prefix order on components.
 */
module Paths {
  import opened Wrappers

  const SEPARATOR: char := '/'

  predicate Rooted(p: string) {
    p != "" && p[0] == SEPARATOR
  }

  /** The length of the text before the first separator. */
  function SegmentLength(p: string): (n: nat)
    ensures n <= |p|
    ensures forall i :: 0 <= i < n ==> p[i] != SEPARATOR
    ensures n < |p| ==> p[n] == SEPARATOR
  {
    if p == "" || p[0] == SEPARATOR then 0 else 1 + SegmentLength(p[1..])
  }

  /** The non-empty segments between separators. */
  function Tokens(p: string): seq<string>
    decreases |p|
  {
    if p == "" then []
    else if p[0] == SEPARATOR then Tokens(p[1..])
    else [p[..SegmentLength(p)]] + Tokens(p[SegmentLength(p)..])
  }

  /** A segment: not empty and without separators. */
  predicate IsSegment(c: string) {
    c != "" && SEPARATOR !in c
  }

  /** A segment that names an entry. */
  predicate IsName(c: string) {
    IsSegment(c) && c != "." && c != ".."
  }

  ghost predicate AllSegments(cs: seq<string>) {
    forall i :: 0 <= i < |cs| ==> IsSegment(cs[i])
  }

  ghost predicate AllNames(cs: seq<string>) {
    forall i :: 0 <= i < |cs| ==> IsName(cs[i])
  }

  function Join(cs: seq<string>): string {
    if cs == [] then ""
    else if |cs| == 1 then cs[0]
    else cs[0] + [SEPARATOR] + Join(cs[1..])
  }

  /** The absolute path with the given components. */
  function Render(cs: seq<string>): string {
    [SEPARATOR] + Join(cs)
  }

  /** A clean absolute path. */
  ghost predicate IsClean(p: string) {
    AllNames(Tokens(p)) && p == Render(Tokens(p))
  }

  type CleanPath = p: string | IsClean(p) ghost witness Render([])

  // ---- Tokenizing inverts rendering ----

  lemma {:induction false} TokensAreSegments(p: string)
    ensures AllSegments(Tokens(p))
    decreases |p|
  {
    if p == "" {
    } else if p[0] == SEPARATOR {
      TokensAreSegments(p[1..]);
    } else {
      TokensAreSegments(p[SegmentLength(p)..]);
    }
  }

  /** A segment followed by the end or by a separator is the first token. */
  lemma {:induction false} FirstSegment(c: string, rest: string)
    requires IsSegment(c) && (rest == "" || rest[0] == SEPARATOR)
    ensures SegmentLength(c + rest) == |c|
    decreases |c|
  {
    assert (c + rest)[0] == c[0] != SEPARATOR;
    assert (c + rest)[1..] == c[1..] + rest;
    if |c| > 1 {
      FirstSegment(c[1..], rest);
    } else {
      assert c[1..] + rest == rest;
    }
  }

  lemma {:induction false} TokensOfJoin(cs: seq<string>)
    requires AllSegments(cs)
    ensures Tokens(Join(cs)) == cs
    ensures Tokens(Render(cs)) == cs
  {
    assert Render(cs)[1..] == Join(cs);
    if cs == [] {
    } else {
      var rest := if |cs| == 1 then "" else [SEPARATOR] + Join(cs[1..]);
      assert Join(cs) == cs[0] + rest;
      FirstSegment(cs[0], rest);
      assert (cs[0] + rest)[..|cs[0]|] == cs[0];
      assert (cs[0] + rest)[|cs[0]|..] == rest;
      assert cs == [cs[0]] + cs[1..];
      TokensOfJoin(cs[1..]);
      if |cs| > 1 {
        assert rest[1..] == Join(cs[1..]);
      }
    }
  }

  /** Clean absolute paths and name sequences are in one-to-one correspondence. */
  lemma RenderIsClean(cs: seq<string>)
    requires AllNames(cs)
    ensures IsClean(Render(cs)) && Tokens(Render(cs)) == cs
  {
    TokensOfJoin(cs);
  }

  lemma TokensInjective(p: CleanPath, q: CleanPath)
    requires Tokens(p) == Tokens(q)
    ensures p == q
  {
  }

  // ---- Cleaning and joining ----

  /** Processes the segments left to right, dropping "." and resolving "..". */
  function Normalize(rooted: bool, stack: seq<string>, ts: seq<string>): seq<string>
    decreases |ts|
  {
    if ts == [] then stack
    else if ts[0] == "." then Normalize(rooted, stack, ts[1..])
    else if ts[0] != ".." then Normalize(rooted, stack + [ts[0]], ts[1..])
    else if stack != [] && stack[|stack| - 1] != ".." then Normalize(rooted, stack[..|stack| - 1], ts[1..])
    else if rooted then Normalize(rooted, stack, ts[1..])
    else Normalize(rooted, stack + [".."], ts[1..])
  }

  /** The components of a path after cleaning: the current directory has none. */
  function Parts(p: string): seq<string> {
    Normalize(Rooted(p), [], Tokens(p))
  }

  function Clean(p: string): string {
    var cs := Parts(p);
    if Rooted(p) then Render(cs) else if cs == [] then "." else Join(cs)
  }

  /** Joins two elements as `filepath.Join` does: empty elements are ignored, the rest is cleaned. */
  function JoinPath(dir: string, name: string): string {
    if dir == "" && name == "" then ""
    else if dir == "" then Clean(name)
    else if name == "" then Clean(dir)
    else Clean(dir + [SEPARATOR] + name)
  }

  lemma {:induction false} NormalizeNames(rooted: bool, stack: seq<string>, ts: seq<string>)
    requires AllNames(ts)
    ensures Normalize(rooted, stack, ts) == stack + ts
    decreases |ts|
  {
    if ts == [] {
      assert stack + ts == stack;
    } else {
      NormalizeNames(rooted, stack + [ts[0]], ts[1..]);
      assert stack + [ts[0]] + ts[1..] == stack + ts;
    }
  }

  lemma {:induction false} NormalizeRooted(stack: seq<string>, ts: seq<string>)
    requires AllNames(stack) && AllSegments(ts)
    ensures AllNames(Normalize(true, stack, ts))
    decreases |ts|
  {
    if ts != [] {
      if ts[0] == "." {
        NormalizeRooted(stack, ts[1..]);
      } else if ts[0] != ".." {
        NormalizeRooted(stack + [ts[0]], ts[1..]);
      } else if stack != [] {
        NormalizeRooted(stack[..|stack| - 1], ts[1..]);
      } else {
        NormalizeRooted(stack, ts[1..]);
      }
    }
  }

  /** Cleaning an absolute path gives a clean path, and leaves a clean path alone. */
  lemma CleanIsClean(p: string)
    requires Rooted(p)
    ensures IsClean(Clean(p))
    ensures IsClean(p) ==> Clean(p) == p
  {
    TokensAreSegments(p);
    NormalizeRooted([], Tokens(p));
    RenderIsClean(Normalize(true, [], Tokens(p)));
    if IsClean(p) {
      NormalizeNames(true, [], Tokens(p));
      assert [] + Tokens(p) == Tokens(p);
    }
  }

  lemma {:induction false} TokensAppend(p: string, c: string)
    requires IsSegment(c)
    ensures Tokens(p + [SEPARATOR] + c) == Tokens(p) + [c]
    decreases |p|
  {
    var q := p + [SEPARATOR] + c;
    if p == "" {
      assert q[1..] == c;
      FirstSegment(c, "");
      assert c + "" == c;
      assert Tokens(c) == [c] + Tokens(c[|c|..]);
    } else if p[0] == SEPARATOR {
      assert q[1..] == p[1..] + [SEPARATOR] + c;
      TokensAppend(p[1..], c);
    } else {
      var n := SegmentLength(p);
      var rest := p[n..] + [SEPARATOR] + c;
      assert q == p[..n] + rest;
      assert SEPARATOR !in p[..n];
      FirstSegment(p[..n], rest);
      assert q[..n] == p[..n] && q[n..] == rest;
      TokensAppend(p[n..], c);
      assert [p[..n]] + (Tokens(p[n..]) + [c]) == [p[..n]] + Tokens(p[n..]) + [c];
    }
  }

  lemma {:induction false} NormalizeDot(ts: seq<string>, stack: seq<string>)
    requires AllNames(ts)
    ensures Normalize(true, stack, ts + ["."]) == stack + ts
    decreases |ts|
  {
    if ts == [] {
      assert (ts + ["."])[1..] == [];
      assert stack + ts == stack;
    } else {
      assert (ts + ["."])[1..] == ts[1..] + ["."];
      NormalizeDot(ts[1..], stack + [ts[0]]);
      assert stack + [ts[0]] + ts[1..] == stack + ts;
    }
  }

  /** Joining a name onto a clean path appends one component; joining "." changes nothing. */
  lemma JoinAppends(dir: CleanPath, name: string)
    requires IsName(name) || name == "."
    ensures JoinPath(dir, name) == if name == "." then dir else Render(Tokens(dir) + [name])
    ensures IsClean(JoinPath(dir, name))
  {
    var p := dir + [SEPARATOR] + name;
    TokensAppend(dir, name);
    assert p[0] == dir[0];
    if name == "." {
      NormalizeDot(Tokens(dir), []);
      assert [] + Tokens(dir) == Tokens(dir);
    } else {
      NormalizeNames(true, [], Tokens(p));
      assert [] + Tokens(p) == Tokens(p);
      RenderIsClean(Tokens(dir) + [name]);
    }
  }

  /** The paths the modules below work on: clean and absolute, or empty. */
  ghost predicate IsPath(p: string) {
    p == "" || IsClean(p)
  }

  lemma PartsOfPath(p: string)
    requires IsPath(p)
    ensures Parts(p) == Tokens(p)
  {
    NormalizeNames(Rooted(p), [], Tokens(p));
    assert [] + Tokens(p) == Tokens(p);
  }

  /** Cleaned components: segments, none of them ".", and parent segments only at the front of a relative path. */
  ghost predicate AreParts(rooted: bool, cs: seq<string>) {
    && AllSegments(cs)
    && (forall i :: 0 <= i < |cs| ==> cs[i] != ".")
    && (forall i, j :: 0 <= i < j < |cs| && cs[j] == ".." ==> cs[i] == "..")
    && (rooted ==> ".." !in cs)
  }

  lemma {:induction false} NormalizeParts(rooted: bool, stack: seq<string>, ts: seq<string>)
    requires AreParts(rooted, stack) && AllSegments(ts)
    ensures AreParts(rooted, Normalize(rooted, stack, ts))
    decreases |ts|
  {
    if ts != [] {
      if ts[0] == "." {
        NormalizeParts(rooted, stack, ts[1..]);
      } else if ts[0] != ".." {
        NormalizeParts(rooted, stack + [ts[0]], ts[1..]);
      } else if stack != [] && stack[|stack| - 1] != ".." {
        NormalizeParts(rooted, stack[..|stack| - 1], ts[1..]);
      } else if rooted {
        NormalizeParts(rooted, stack, ts[1..]);
      } else {
        NormalizeParts(rooted, stack + [".."], ts[1..]);
      }
    }
  }

  lemma PartsAreParts(p: string)
    ensures AreParts(Rooted(p), Parts(p))
  {
    TokensAreSegments(p);
    NormalizeParts(Rooted(p), [], Tokens(p));
  }

  lemma {:induction false} NormalizeAppend(rooted: bool, stack: seq<string>, ts: seq<string>, c: string)
    ensures Normalize(rooted, stack, ts + [c]) == Normalize(rooted, Normalize(rooted, stack, ts), [c])
    decreases |ts|
  {
    if ts == [] {
      assert ts + [c] == [c];
    } else {
      var rest, next := ts[1..], stack + [ts[0]];
      assert (ts + [c])[1..] == rest + [c] && (ts + [c])[0] == ts[0];
      if ts[0] == "." || (ts[0] == ".." && rooted && (stack == [] || stack[|stack| - 1] == "..")) {
        NormalizeAppend(rooted, stack, rest, c);
      } else if ts[0] == ".." && stack != [] && stack[|stack| - 1] != ".." {
        NormalizeAppend(rooted, stack[..|stack| - 1], rest, c);
      } else {
        NormalizeAppend(rooted, next, rest, c);
      }
    }
  }

  /** Going on from a path by one segment: the current directory stays, the parent takes the last component away if
      there is one to take, and stays at the root, and any other segment is added. */
  lemma PartsAppend(p: string, c: string)
    requires p != "" && IsSegment(c)
    ensures var parts, after := Parts(p), Parts(p + [SEPARATOR] + c);
      if c == "." then after == parts
      else if c != ".." then after == parts + [c]
      else if parts != [] && parts[|parts| - 1] != ".." then after == parts[..|parts| - 1]
      else if Rooted(p) then after == [] == parts
      else after == parts + [".."]
  {
    var q := p + [SEPARATOR] + c;
    TokensAppend(p, c);
    assert Rooted(q) == Rooted(p);
    NormalizeAppend(Rooted(p), [], Tokens(p), c);
    PartsAreParts(p);
    if Rooted(p) && Parts(p) != [] {
      assert Parts(p)[|Parts(p)| - 1] in Parts(p);
    }
  }

  lemma {:induction false} NormalizeKeeps(rooted: bool, stack: seq<string>, ts: seq<string>)
    requires AreParts(rooted, stack + ts)
    ensures Normalize(rooted, stack, ts) == stack + ts
    decreases |ts|
  {
    if ts != [] {
      assert (stack + ts)[|stack|] == ts[0];
      assert stack + ts == (stack + [ts[0]]) + ts[1..];
      if ts[0] == ".." && stack != [] {
        assert (stack + ts)[|stack| - 1] == stack[|stack| - 1];
      }
      NormalizeKeeps(rooted, stack + [ts[0]], ts[1..]);
    } else {
      assert stack + ts == stack;
    }
  }

  /** Cleaning any path keeps its components and whether it is absolute; so cleaning twice is cleaning once. */
  lemma CleanKeepsParts(p: string)
    ensures Clean(p) != "" && Rooted(Clean(p)) == Rooted(p)
    ensures Parts(Clean(p)) == Parts(p) && Clean(Clean(p)) == Clean(p)
  {
    var cs := Parts(p);
    PartsAreParts(p);
    TokensOfJoin(cs);
    NormalizeKeeps(Rooted(p), [], cs);
    assert [] + cs == cs;
    if !Rooted(p) {
      if cs == [] {
        assert Tokens(".") == ["."] by {
          TokensOfJoin(["."]);
        }
        assert ["."][1..] == [];
      } else {
        assert Join(cs)[0] == cs[0][0] && cs[0][0] in cs[0];
      }
    }
  }

  // ---- The subpath test ----

  function Ups(n: nat): seq<string> {
    seq(n, _ => "..")
  }

  /** The steps from one component sequence to another: up out of what differs, then down. */
  function Steps(base: seq<string>, targ: seq<string>): seq<string> {
    if base != [] && targ != [] && base[0] == targ[0] then Steps(base[1..], targ[1..])
    else Ups(|base|) + targ
  }

  /** Going up out of what differs would lead through a parent segment. */
  predicate Blocked(base: seq<string>, targ: seq<string>) {
    if base != [] && targ != [] && base[0] == targ[0] then Blocked(base[1..], targ[1..])
    else base != [] && base[0] == ".."
  }

  /** `filepath.Rel`: cleans both paths; none if just one is absolute or the way up is not known. */
  function Rel(base: string, targ: string): Option<string> {
    if Rooted(base) != Rooted(targ) || Blocked(Parts(base), Parts(targ)) then None
    else
      var steps := Steps(Parts(base), Parts(targ));
      Some(if steps == [] then "." else Join(steps))
  }

  /** The relative path is the parent directory or begins with a parent segment. */
  predicate StartsWithDotDot(rel: string) {
    rel == ".." || (|rel| >= 3 && rel[..3] == "../")
  }

  /** Whether `child` lies strictly inside `parent`. */
  predicate IsSubpath(parent: string, child: string) {
    var rel := Rel(parent, child);
    rel.Some? && rel.value != "." && !StartsWithDotDot(rel.value)
  }

  lemma {:induction false} StepsDown(base: seq<string>, targ: seq<string>)
    requires base <= targ
    ensures Steps(base, targ) == targ[|base|..]
  {
    if base != [] {
      StepsDown(base[1..], targ[1..]);
    } else {
      assert Ups(0) + targ == targ[0..];
    }
  }

  lemma {:induction false} StepsUp(base: seq<string>, targ: seq<string>)
    requires !(base <= targ)
    ensures Steps(base, targ) != [] && Steps(base, targ)[0] == ".."
  {
    if base != [] && targ != [] && base[0] == targ[0] {
      assert base == [base[0]] + base[1..] && targ == [targ[0]] + targ[1..];
      StepsUp(base[1..], targ[1..]);
    }
  }

  /** What the text of a joined path reveals about its first segment. */
  lemma JoinDotDot(cs: seq<string>)
    requires cs != [] && AllSegments(cs)
    ensures StartsWithDotDot(Join(cs)) <==> cs[0] == ".."
    ensures Join(cs) == "." <==> cs == ["."]
  {
    var c, j := cs[0], Join(cs);
    assert forall i :: 0 <= i < |c| ==> c[i] in c && j[i] == c[i];
    assert |c| < |j| ==> j[|c|] == SEPARATOR;
    if StartsWithDotDot(j) {
      assert |j| >= 3 ==> j[..3][0] == '.' && j[..3][1] == '.' && j[..3][2] == SEPARATOR;
      assert j[0] == '.' && j[1] == '.';
      assert |c| == 2;
    }
    if c == ".." && |cs| > 1 {
      assert j[..3] == "../";
    }
  }

  lemma {:induction false} NotBlocked(base: seq<string>, targ: seq<string>)
    requires base <= targ
    ensures !Blocked(base, targ)
  {
    if base != [] {
      NotBlocked(base[1..], targ[1..]);
    }
  }

  /** One component sequence continues another without leading up. */
  ghost predicate LeadsDown(a: seq<string>, b: seq<string>) {
    a < b && b[|a|] != ".."
  }

  lemma {:induction false} StepsAreSegments(a: seq<string>, b: seq<string>)
    requires AllSegments(b)
    ensures AllSegments(Steps(a, b))
  {
    if a != [] && b != [] && a[0] == b[0] {
      StepsAreSegments(a[1..], b[1..]);
    }
  }

  /** The subpath test on any two paths: the cleaned components of the child continue those of the parent. */
  lemma IsSubpathParts(parent: string, child: string)
    ensures IsSubpath(parent, child) <==> Rooted(parent) == Rooted(child) && LeadsDown(Parts(parent), Parts(child))
  {
    var a, b := Parts(parent), Parts(child);
    PartsAreParts(parent);
    PartsAreParts(child);
    if a <= b {
      NotBlocked(a, b);
      StepsDown(a, b);
      if a != b {
        assert b[|a|..][0] == b[|a|];
        JoinDotDot(b[|a|..]);
      }
    } else {
      StepsUp(a, b);
      StepsAreSegments(a, b);
      JoinDotDot(Steps(a, b));
    }
  }

  /** On clean paths it is the strict prefix order on components, so it respects segment boundaries. */
  lemma IsSubpathIff(parent: string, child: string)
    requires IsPath(parent) && IsPath(child)
    ensures IsSubpath(parent, child) <==> Rooted(parent) == Rooted(child) && Tokens(parent) < Tokens(child)
  {
    IsSubpathParts(parent, child);
    PartsOfPath(parent);
    PartsOfPath(child);
  }

  lemma SubpathIrreflexive(p: string)
    ensures !IsSubpath(p, p)
  {
    IsSubpathParts(p, p);
  }

  lemma SubpathTransitive(p: string, q: string, r: string)
    requires IsSubpath(p, q) && IsSubpath(q, r)
    ensures IsSubpath(p, r)
  {
    IsSubpathParts(p, q);
    IsSubpathParts(q, r);
    IsSubpathParts(p, r);
  }

  /** On the text: a subpath of a non-root path continues it with a separator. */
  lemma {:induction false} PrefixText(a: seq<string>, b: seq<string>)
    requires a != [] && a < b
    ensures Join(b) == Join(a) + [SEPARATOR] + Join(b[|a|..])
  {
    if |a| == 1 {
      assert b[0] == a[0];
    } else {
      assert a[1..] < b[1..] && b[0] == a[0];
      PrefixText(a[1..], b[1..]);
      assert b[1..][|a[1..]|..] == b[|a|..];
      calc {
        Join(b);
        b[0] + [SEPARATOR] + Join(b[1..]);
        a[0] + [SEPARATOR] + (Join(a[1..]) + [SEPARATOR] + Join(b[|a|..]));
        (a[0] + [SEPARATOR] + Join(a[1..])) + [SEPARATOR] + Join(b[|a|..]);
      }
    }
  }

  /** The text up to the last separator, that one included. */
  function DirText(p: string): (q: string)
    ensures q <= p && (q != "" ==> q[|q| - 1] == SEPARATOR) && SEPARATOR !in p[|q|..]
  {
    if p == "" || p[|p| - 1] == SEPARATOR then p
    else
      var q := DirText(p[..|p| - 1]);
      assert p[|q|..] == p[..|p| - 1][|q|..] + [p[|p| - 1]];
      q
  }

  /** `filepath.Dir`. */
  function Dir(p: string): string {
    Clean(DirText(p))
  }

  lemma {:induction false} TokensTrailing(p: string)
    ensures Tokens(p + [SEPARATOR]) == Tokens(p)
    decreases |p|
  {
    var q := p + [SEPARATOR];
    if p == "" {
      assert q[1..] == "";
    } else if p[0] == SEPARATOR {
      assert q[1..] == p[1..] + [SEPARATOR];
      TokensTrailing(p[1..]);
    } else {
      var n := SegmentLength(p);
      assert q == p[..n] + (p[n..] + [SEPARATOR]) && SEPARATOR !in p[..n];
      FirstSegment(p[..n], p[n..] + [SEPARATOR]);
      assert q[..n] == p[..n] && q[n..] == p[n..] + [SEPARATOR];
      TokensTrailing(p[n..]);
    }
  }

  lemma {:induction false} JoinLast(cs: seq<string>)
    requires |cs| >= 2
    ensures Join(cs) == Join(cs[..|cs| - 1]) + [SEPARATOR] + cs[|cs| - 1]
  {
    if |cs| > 2 {
      JoinLast(cs[1..]);
      assert cs[1..][..|cs| - 2] == cs[..|cs| - 1][1..];
    } else {
      assert cs[..1] == [cs[0]] && cs[1..] == [cs[1]];
    }
  }

  /** The text up to the last separator is fixed by what surrounds it. */
  lemma {:induction false} DirTextUnique(p: string, q: string, c: string)
    requires p == q + c && q != "" && q[|q| - 1] == SEPARATOR && SEPARATOR !in c
    ensures DirText(p) == q
    decreases |c|
  {
    if c != "" {
      assert p[|p| - 1] == c[|c| - 1] && c[|c| - 1] in c;
      DirTextUnique(p[..|p| - 1], q, c[..|c| - 1]);
    }
  }

  /** An absolute directory with its trailing separator. */
  function Slashed(cs: seq<string>): (q: string)
    ensures Rooted(q) && q[|q| - 1] == SEPARATOR
  {
    if cs == [] then "/" else Render(cs) + [SEPARATOR]
  }

  lemma RenderLast(cs: seq<string>)
    requires cs != []
    ensures Render(cs) == Slashed(cs[..|cs| - 1]) + cs[|cs| - 1]
  {
    if |cs| > 1 {
      JoinLast(cs);
    }
  }

  lemma CleanSlashed(cs: seq<string>)
    requires AllNames(cs)
    ensures Clean(Slashed(cs)) == Render(cs)
  {
    RenderIsClean(cs);
    TokensTrailing(Render(cs));
    NormalizeNames(true, [], cs);
    assert [] + cs == cs;
  }

  lemma {:induction false} DirTextRooted(p: string)
    requires Rooted(p)
    ensures Rooted(DirText(p))
  {
    if p[|p| - 1] != SEPARATOR {
      DirTextRooted(p[..|p| - 1]);
    }
  }

  /** The parent of an absolute path is clean. */
  lemma DirIsClean(p: string)
    requires Rooted(p)
    ensures IsClean(Dir(p)) && Clean(Dir(p)) == Dir(p)
  {
    DirTextRooted(p);
    CleanIsClean(DirText(p));
    CleanIsClean(Dir(p));
  }

  /** The parent of a clean absolute path has its components but for the last; the root is its own parent. */
  lemma DirOfClean(p: CleanPath)
    ensures Dir(p) == if Tokens(p) == [] then p else Render(Tokens(p)[..|Tokens(p)| - 1])
    ensures IsClean(Dir(p))
  {
    var cs := Tokens(p);
    if cs == [] {
      CleanSlashed([]);
    } else {
      var init := cs[..|cs| - 1];
      RenderLast(cs);
      assert cs[|cs| - 1] in cs && IsName(cs[|cs| - 1]);
      DirTextUnique(p, Slashed(init), cs[|cs| - 1]);
      CleanSlashed(init);
      RenderIsClean(init);
    }
  }

  /** The parent of a path has its components but for the last. */
  lemma DirIff(p: CleanPath, q: CleanPath)
    requires Tokens(p) != []
    ensures Dir(p) == q <==> Tokens(q) == Tokens(p)[..|Tokens(p)| - 1]
  {
    var up := Tokens(p)[..|Tokens(p)| - 1];
    DirOfClean(p);
    RenderIsClean(up);
    if Tokens(q) == up {
      assert Render(Tokens(q)) == Render(up);
    }
  }

  /** Equal or inside. */
  predicate Covers(root: string, p: string) {
    p == root || IsSubpath(root, p)
  }

  lemma CoversIff(root: CleanPath, p: CleanPath)
    ensures Covers(root, p) <==> Tokens(root) <= Tokens(p)
  {
    IsSubpathIff(root, p);
    if Tokens(root) == Tokens(p) {
      TokensInjective(root, p);
    }
  }
}
