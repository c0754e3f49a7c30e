/** Path names as lists of components, and what lexical resolution means: the lexical part of
    section 4.13 of the Base Definitions of IEEE Std 1003.1-2017. */
module PathNames {
  const SEP := '/'

  /** Index of the first separator at or after `i`; the length of the string if there is none. */
  function FindSep(s: string, i: nat): (k: nat)
    requires i <= |s|
    ensures i <= k <= |s| && SEP !in s[i..k] && (k < |s| ==> s[k] == SEP)
    decreases |s| - i
  {
    if i == |s| || s[i] == SEP then i
    else
      var k := FindSep(s, i + 1);
      assert s[i..k] == [s[i]] + s[i + 1..k];
      k
  }

  /** The parts between separators, empty ones included. */
  function Components(s: string): seq<string>
    decreases |s|
  {
    var k := FindSep(s, 0);
    if k == |s| then [s] else [s[..k]] + Components(s[k + 1..])
  }

  /** One component applied to the directory reached so far. */
  function Step(st: seq<string>, c: string): seq<string> {
    if c == "" || c == "." then st
    else if c == ".." then (if st == [] then [] else st[..|st| - 1])
    else st + [c]
  }

  function Fold(st: seq<string>, cs: seq<string>): seq<string>
    decreases |cs|
  {
    if cs == [] then st else Fold(Step(st, cs[0]), cs[1..])
  }

  /** The directory a path names, seen lexically from the root. */
  function Canonical(path: string): seq<string> {
    Fold([], Components(path))
  }

  /** Every component with a separator before it; the root is the empty string. */
  function Join(st: seq<string>): string {
    if st == [] then "" else Join(st[..|st| - 1]) + [SEP] + st[|st| - 1]
  }

  predicate ProperName(c: string) {
    SEP !in c && c != "" && c != "." && c != ".."
  }

  ghost predicate Proper(st: seq<string>) {
    forall i | 0 <= i < |st| :: ProperName(st[i])
  }

  // ---------------------------------------------------------------- splitting

  lemma {:induction false} FindSepUnique(s: string, i: nat, k: nat)
    requires i <= k <= |s| && SEP !in s[i..k] && (k < |s| ==> s[k] == SEP)
    ensures FindSep(s, i) == k
    decreases k - i
  {
    if i < k {
      assert s[i] == s[i..k][0] && s[i + 1..k] == s[i..k][1..];
      FindSepUnique(s, i + 1, k);
    }
  }

  lemma OneComponent(c: string)
    requires SEP !in c
    ensures Components(c) == [c]
  {
    assert c[0..|c|] == c;
    FindSepUnique(c, 0, |c|);
  }

  lemma FirstComponent(c: string, rest: string)
    requires SEP !in c
    ensures Components(c + [SEP] + rest) == [c] + Components(rest)
  {
    var s := c + [SEP] + rest;
    assert s[0..|c|] == c;
    FindSepUnique(s, 0, |c|);
    assert s[..|c|] == c && s[|c| + 1..] == rest;
  }

  /** The components of a suffix, by its first one. */
  lemma ComponentsAt(s: string, i: nat)
    requires i <= |s|
    ensures var k := FindSep(s, i);
            Components(s[i..]) == [s[i..k]] + if k < |s| then Components(s[k + 1..]) else []
  {
    var k := FindSep(s, i);
    if k < |s| {
      assert s[i..] == s[i..k] + [SEP] + s[k + 1..];
      FirstComponent(s[i..k], s[k + 1..]);
    } else {
      assert s[i..k] == s[i..];
      OneComponent(s[i..]);
    }
  }

  lemma {:induction false} SplitConcat(x: string, y: string)
    ensures Components(x + [SEP] + y) == Components(x) + Components(y)
    decreases |x|
  {
    hide FindSep;
    var k := FindSep(x, 0);
    var c := x[..k];
    assert c == x[0..k];
    if k == |x| {
      assert x == c;
      OneComponent(x);
      FirstComponent(x, y);
    } else {
      var rest := x[k + 1..];
      assert x + [SEP] + y == c + [SEP] + (rest + [SEP] + y);
      FirstComponent(c, rest + [SEP] + y);
      SplitConcat(rest, y);
    }
  }

  lemma {:induction false} ComponentsHaveNoSep(s: string, i: nat)
    requires i < |Components(s)|
    ensures SEP !in Components(s)[i]
    decreases |s|
  {
    var k := FindSep(s, 0);
    if k == |s| {
      assert s == s[0..k];
    } else if i == 0 {
      assert s[..k] == s[0..k];
    } else {
      ComponentsHaveNoSep(s[k + 1..], i - 1);
    }
  }

  // ---------------------------------------------------------------- folding

  lemma {:induction false} FoldConcat(st: seq<string>, a: seq<string>, b: seq<string>)
    ensures Fold(st, a + b) == Fold(Fold(st, a), b)
    decreases |a|
  {
    if a == [] {
      assert a + b == b;
    } else {
      assert (a + b)[1..] == a[1..] + b;
      FoldConcat(Step(st, a[0]), a[1..], b);
    }
  }

  lemma FoldOne(st: seq<string>, c: string, cs: seq<string>)
    ensures Fold(st, [c] + cs) == Fold(Step(st, c), cs)
    ensures Fold(st, [c]) == Step(st, c)
  {
    assert ([c] + cs)[1..] == cs;
    assert [c][1..] == [];
  }

  lemma StepKeepsProper(st: seq<string>, c: string)
    requires Proper(st) && SEP !in c
    ensures Proper(Step(st, c))
  {
  }

  lemma {:induction false} FoldKeepsProper(st: seq<string>, cs: seq<string>)
    requires Proper(st) && forall i | 0 <= i < |cs| :: SEP !in cs[i]
    ensures Proper(Fold(st, cs))
    decreases |cs|
  {
    if cs != [] {
      StepKeepsProper(st, cs[0]);
      FoldKeepsProper(Step(st, cs[0]), cs[1..]);
    }
  }

  /** A canonical path has no empty, "." or ".." component. */
  lemma CanonicalIsProper(path: string)
    ensures Proper(Canonical(path))
  {
    hide Components, Fold;
    forall i | 0 <= i < |Components(path)|
      ensures SEP !in Components(path)[i]
    {
      ComponentsHaveNoSep(path, i);
    }
    FoldKeepsProper([], Components(path));
  }

  lemma {:induction false} FoldProper(st: seq<string>, cs: seq<string>)
    requires Proper(cs)
    ensures Fold(st, cs) == st + cs
    decreases |cs|
  {
    if cs == [] {
      assert st + cs == st;
    } else {
      FoldProper(st + [cs[0]], cs[1..]);
      assert st + [cs[0]] + cs[1..] == st + cs;
    }
  }

  lemma {:induction false} ComponentsOfJoin(st: seq<string>)
    requires forall i | 0 <= i < |st| :: SEP !in st[i]
    ensures Components(Join(st)) == [""] + st
    decreases |st|
  {
    hide Components;
    if st == [] {
      OneComponent("");
    } else {
      var n := |st| - 1;
      ComponentsOfJoin(st[..n]);
      OneComponent(st[n]);
      SplitConcat(Join(st[..n]), st[n]);
      assert st[..n] + [st[n]] == st;
      assert [""] + st[..n] + [st[n]] == [""] + st;
    }
  }

  /** Canonicalising is idempotent: the string of a proper list names that list. */
  lemma CanonicalOfJoin(st: seq<string>)
    requires Proper(st)
    ensures Canonical(Join(st)) == st
  {
    hide Components, Join, Fold;
    ComponentsOfJoin(st);
    FoldOne([], "", st);
    FoldProper([], st);
    assert [] + st == st;
  }

  // ---------------------------------------------------------------- prefixes

  lemma {:induction false} JoinConcat(a: seq<string>, b: seq<string>)
    ensures Join(a + b) == Join(a) + Join(b)
    decreases |b|
  {
    if b == [] {
      assert a + b == a;
    } else {
      var n := |b| - 1;
      assert (a + b)[..|a + b| - 1] == a + b[..n];
      JoinConcat(a, b[..n]);
    }
  }

  lemma JoinShape(st: seq<string>)
    requires st != []
    ensures |Join(st)| > 0 && Join(st)[0] == SEP
    decreases |st|
  {
    if |st| > 1 {
      JoinShape(st[..|st| - 1]);
    }
  }

  /** One path lies below another exactly when its string continues the other's at a component
      boundary. */
  lemma PrefixAtBoundary(mc: seq<string>, st: seq<string>)
    requires Proper(mc) && Proper(st)
    ensures mc <= st <==>
            && Join(mc) <= Join(st)
            && (|Join(st)| == |Join(mc)| || Join(st)[|Join(mc)|] == SEP)
  {
    hide Join, Components;
    var m, s := Join(mc), Join(st);
    if mc <= st {
      var rest := st[|mc|..];
      assert st == mc + rest;
      JoinConcat(mc, rest);
      if rest == [] {
        assert st == mc;
      } else {
        JoinShape(rest);
      }
    }
    if m <= s && (|s| == |m| || s[|m|] == SEP) {
      ComponentsOfJoin(mc);
      ComponentsOfJoin(st);
      if |s| == |m| {
        assert s == m;
        assert st == ([""] + st)[1..] && mc == ([""] + mc)[1..];
      } else {
        var y := s[|m| + 1..];
        assert s == m + [SEP] + y;
        SplitConcat(m, y);
        assert [""] + st == [""] + mc + Components(y);
        assert st == ([""] + st)[1..] == mc + Components(y);
      }
    }
  }
}
