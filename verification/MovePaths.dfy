/** The prefix substitution that a directory move performs on paths. */
module MovePaths {
  import opened Paths

  function TrimPrefix(s: string, prefix: string): string {
    if prefix <= s then s[|prefix|..] else s
  }

  /** The path of `p` after the directory `from` has become `to`. */
  function Moved(p: string, from: string, to: string): string {
    to + TrimPrefix(p, from)
  }

  /** The components of `p` below `from`. */
  function Below(p: string, from: string): seq<string> {
    if |Tokens(from)| <= |Tokens(p)| then Tokens(p)[|Tokens(from)|..] else []
  }

  /** What a move should do: replace the leading components. */
  ghost predicate Substitutes(p: CleanPath, from: CleanPath, to: CleanPath) {
    && IsClean(Moved(p, from, to))
    && Tokens(Moved(p, from, to)) == Tokens(to) + Below(p, from)
  }

  lemma ComponentText(a: seq<string>, b: seq<string>)
    requires a != [] && a < b
    ensures Render(b) == Render(a) + Render(b[|a|..])
    ensures Render(a) <= Render(b) && Render(b)[|Render(a)|..] == Render(b[|a|..])
  {
    PrefixText(a, b);
    assert Render(b) == Render(a) + Render(b[|a|..]);
  }

  /** The text of a path inside a non-root directory: the directory, then each further component. */
  lemma InsideText(p: CleanPath, from: CleanPath)
    requires IsSubpath(from, p) && Tokens(from) != []
    ensures from <= p && TrimPrefix(p, from) == Render(Below(p, from)) && Below(p, from) != []
  {
    IsSubpathIff(from, p);
    ComponentText(Tokens(from), Tokens(p));
    assert p == Render(Tokens(p)) && from == Render(Tokens(from));
  }

  lemma {:induction false} JoinAppend(a: seq<string>, b: seq<string>)
    requires a != [] && b != []
    ensures Render(a + b) == Render(a) + Render(b)
  {
    assert a < a + b;
    PrefixText(a, a + b);
    assert (a + b)[|a|..] == b;
  }

  /** The text operation substitutes components for every path at or under a moved directory. */
  lemma MovedSubstitutes(p: CleanPath, from: CleanPath, to: CleanPath)
    requires Covers(from, p) && Tokens(from) != [] && Tokens(to) != []
    ensures Substitutes(p, from, to)
  {
    var rest := Below(p, from);
    if p == from {
      assert TrimPrefix(p, from) == "";
      assert Moved(p, from, to) == to;
      assert Tokens(to) + rest == Tokens(to);
    } else {
      InsideText(p, from);
      IsSubpathIff(from, p);
      JoinAppend(Tokens(to), rest);
      assert to == Render(Tokens(to));
      RenderIsClean(Tokens(to) + rest);
    }
  }

  lemma DoubleSeparator(m: string)
    requires |m| >= 2 && m[0] == '/' && m[1] == '/'
    ensures !IsClean(m)
  {
  }

  lemma SeparatorMissing(a: seq<string>, b: seq<string>)
    requires a != [] && b != []
    ensures Render(a) + Join(b) != Render(a + b)
  {
    JoinAppend(a, b);
    assert |Render(b)| == |Join(b)| + 1;
  }

  /** From the root the trimmed text has no leading separator. */
  lemma FromRoot(p: CleanPath, from: CleanPath, to: CleanPath)
    requires IsSubpath(from, p) && Tokens(from) == []
    ensures Substitutes(p, from, to) <==> Tokens(to) == []
  {
    IsSubpathIff(from, p);
    var cs := Tokens(p);
    assert from == "/" && p == Render(cs);
    assert TrimPrefix(p, from) == Join(cs);
    assert Below(p, from) == cs;
    if Tokens(to) == [] {
      assert to == "/" && Moved(p, from, to) == Render(cs);
      assert [] + cs == cs;
    } else {
      assert Moved(p, from, to) == Render(Tokens(to)) + Join(cs);
      SeparatorMissing(Tokens(to), cs);
    }
  }

  /** Exactly when the text operation is the substitution: always for the directory itself, and for what lies
      inside it unless just one of the two directories is the file system root. */
  lemma MovedSubstitutesIff(p: CleanPath, from: CleanPath, to: CleanPath)
    requires Covers(from, p)
    ensures Substitutes(p, from, to) <==> p == from || (Tokens(from) == [] <==> Tokens(to) == [])
  {
    if p == from {
      assert Moved(p, from, to) == to;
      assert Tokens(to) + Below(p, from) == Tokens(to);
    } else if Tokens(from) != [] {
      if Tokens(to) != [] {
        MovedSubstitutes(p, from, to);
      } else {
        InsideText(p, from);
        var m := Moved(p, from, to);
        assert to == "/" && m == "/" + TrimPrefix(p, from);
        assert m[1] == '/';
        DoubleSeparator(m);
      }
    } else {
      FromRoot(p, from, to);
    }
  }

  lemma SplitAt(p: CleanPath, from: CleanPath)
    requires Covers(from, p)
    ensures Tokens(p) == Tokens(from) + Below(p, from)
  {
    CoversIff(from, p);
  }

  lemma PrefixCancels(c: seq<string>, a: seq<string>, b: seq<string>)
    ensures c + a < c + b <==> a < b
  {
    if a < b {
      assert (c + b)[..|c + a|] == c + b[..|a|];
    }
    if c + a < c + b {
      assert a == (c + a)[|c|..];
      assert b[..|a|] == (c + b)[..|c + a|][|c|..];
    }
  }

  /** Moving keeps the tree shape: paths in the moved directory relate as before. */
  lemma MoveKeepsOrder(p: CleanPath, q: CleanPath, from: CleanPath, to: CleanPath)
    requires Covers(from, p) && Covers(from, q) && (Tokens(from) == [] <==> Tokens(to) == [])
    ensures IsSubpath(Moved(p, from, to), Moved(q, from, to)) <==> IsSubpath(p, q)
    ensures Moved(p, from, to) == Moved(q, from, to) ==> p == q
  {
    MovedSubstitutesIff(p, from, to);
    MovedSubstitutesIff(q, from, to);
    IsSubpathIff(p, q);
    IsSubpathIff(Moved(p, from, to), Moved(q, from, to));
    SplitAt(p, from);
    SplitAt(q, from);
    PrefixCancels(Tokens(to), Below(p, from), Below(q, from));
    PrefixCancels(Tokens(from), Below(p, from), Below(q, from));
    if Moved(p, from, to) == Moved(q, from, to) {
      PrefixCancels(Tokens(to), Below(q, from), Below(p, from));
      assert Below(p, from) == (Tokens(to) + Below(p, from))[|Tokens(to)|..];
      assert Below(q, from) == (Tokens(to) + Below(q, from))[|Tokens(to)|..];
      TokensInjective(p, q);
    }
  }
}
