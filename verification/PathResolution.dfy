/** The client's path resolver `resolve_new` (src/client/path.cpp) and the mount directory. */
module PathResolution {
  import opened PathNames

  /** `erase(1, n)`: remove up to `n` characters after the first. */
  function Erase(s: string, n: nat): string
    requires s != ""
  {
    s[..1] + if 1 + n < |s| then s[1 + n..] else ""
  }

  /** What `resolve_new` returns for a canonical list: inside the mount directory if its string
      starts with the mount directory's. */
  function Classify(mount: string, st: seq<string>): (bool, string)
    requires mount != ""
  {
    var s := Join(st);
    if mount <= s then (true, Erase(s, |mount|)) else (false, if s == "" then [SEP] else s)
  }

  // ---------------------------------------------------------------- resolve_new

  /** `resolved` and the stack of positions where its components start. */
  ghost predicate Stacked(resolved: string, positions: seq<nat>, st: seq<string>) {
    && resolved == Join(st)
    && |positions| == |st|
    && forall i | 0 <= i < |st| :: positions[i] == |Join(st[..i])|
  }

  lemma PopStacked(resolved: string, positions: seq<nat>, st: seq<string>)
    requires Stacked(resolved, positions, st) && st != []
    ensures var n := |st| - 1;
            positions[n] <= |resolved| && Stacked(resolved[..positions[n]], positions[..n], st[..n])
  {
    var n := |st| - 1;
    assert resolved[..positions[n]] == Join(st[..n]);
    forall i | 0 <= i < n
      ensures positions[i] == |Join(st[..n][..i])|
    {
      assert st[..n][..i] == st[..i];
    }
  }

  lemma PushStacked(resolved: string, positions: seq<nat>, st: seq<string>, c: string)
    requires Stacked(resolved, positions, st)
    ensures Stacked(resolved + [SEP] + c, positions + [|resolved|], st + [c])
  {
    assert (st + [c])[..|st|] == st;
    forall i | 0 <= i < |st|
      ensures (st + [c])[..i] == st[..i]
    {
    }
  }

  /** What is still to be folded when the loop is at position `i`. */
  function Suffix(path: string, i: nat): string {
    if i <= |path| then path[i..] else ""
  }

  /** An empty component, or a ".", changes nothing. */
  lemma SkipComponent(path: string, i: nat, st: seq<string>)
    requires i < |path|
    requires var c := path[i..FindSep(path, i)]; c == "" || c == "."
    ensures Fold(st, Components(path[i..])) == Fold(st, Components(path[i + 1..]))
  {
    hide Components, Fold, FindSep;
    var k := FindSep(path, i);
    ComponentsAt(path, i);
    if k < |path| {
      FoldOne(st, path[i..k], Components(path[k + 1..]));
      if k > i {
        ComponentsAt(path, k);
        FindSepHere(path, k);
        FoldOne(st, "", Components(path[k + 1..]));
      }
    } else {
      FoldOne(st, path[i..k], []);
      assert [path[i..k]] + [] == [path[i..k]];
      assert path[i + 1..] == "";
      OneComponent("");
      FoldOne(st, "", []);
    }
  }

  lemma FindSepHere(path: string, k: nat)
    requires k < |path| && path[k] == SEP
    ensures FindSep(path, k) == k && path[k..k] == ""
  {
  }

  /** ".." removes the last component; the scan resumes at its second dot, which then reads
      as a "." and is skipped. */
  lemma PopComponent(path: string, i: nat, st: seq<string>)
    requires i < |path| && path[i..FindSep(path, i)] == ".."
    ensures Fold(st, Components(path[i..])) == Fold(Step(st, ".."), Components(path[i + 1..]))
  {
    hide Components, Fold;
    var k := FindSep(path, i);
    ComponentsAt(path, i);
    ComponentsAt(path, i + 1);
    assert path[i..k][1..] == path[i + 1..k];
    FindSepUnique(path, i + 1, k);
    var rest := if k < |path| then Components(path[k + 1..]) else [];
    FoldOne(st, "..", rest);
    FoldOne(Step(st, ".."), ".", rest);
  }

  lemma PushComponent(path: string, i: nat, st: seq<string>)
    requires i < |path|
    ensures var k := FindSep(path, i);
            Fold(st, Components(path[i..])) == Fold(Step(st, path[i..k]), Components(Suffix(path, k + 1)))
  {
    hide Components, Fold, FindSep;
    var k := FindSep(path, i);
    ComponentsAt(path, i);
    if k < |path| {
      FoldOne(st, path[i..k], Components(path[k + 1..]));
    } else {
      FoldOne(st, path[i..k], []);
      assert [path[i..k]] + [] == [path[i..k]];
      OneComponent("");
      FoldOne(Step(st, path[i..k]), "", []);
    }
  }

  /** The directory from which a path is followed: the root, or the working directory. */
  ghost function Origin(path: string, cwd: string): seq<string>
    requires path != ""
  {
    if path[0] == SEP then [] else Canonical(cwd)
  }

  /** A relative path put behind the working directory. */
  lemma FollowedFrom(cwd: string, path: string)
    ensures Canonical(cwd + [SEP] + path) == Fold(Canonical(cwd), Components(path))
  {
    hide Components, Fold;
    SplitConcat(cwd, path);
    FoldConcat([], Components(cwd), Components(path));
  }

  /** `resolve_new`: the path followed from where it starts, and classified. */
  method ResolveNew(path: string, cwd: string, mount: string) returns (r: (bool, string))
    requires mount != ""
    ensures r == if path == "" then (false, [SEP]) else Classify(mount, Fold(Origin(path, cwd), Components(path)))
  {
    if path == "" {
      return (false, [SEP]);
    }
    var absolute := path;
    if path[0] != SEP {
      absolute := cwd + [SEP] + path;
      FollowedFrom(cwd, path);
    }
    hide Components, Fold, Step, Join, FindSep, Stacked, Suffix;
    var resolved := ResolveLoop(absolute);
    if |mount| <= |resolved| && resolved[..|mount|] == mount {
      return (true, Erase(resolved, |mount|));
    }
    if resolved == "" {
      resolved := [SEP];
    }
    return (false, resolved);
  }

  /** The loop of `resolve_new`. */
  method ResolveLoop(absolute: string) returns (resolved: string)
    ensures resolved == Join(Canonical(absolute))
  {
    hide Components, Fold, Step, Join, FindSep, Stacked, Suffix;
    var positions: seq<nat> := [];
    resolved := "";
    ghost var st: seq<string> := [];
    EmptyStack();
    SuffixStart(absolute);
    var start := 0;
    while start < |absolute|
      invariant Stacked(resolved, positions, st)
      invariant Fold(st, Components(Suffix(absolute, start))) == Canonical(absolute)
      decreases |absolute| - start
    {
      SuffixInside(absolute, start);
      SuffixInside(absolute, start + 1);
      var end := FindSep(absolute, start);
      var comp := absolute[start..end];
      if |comp| == 0 && absolute[start] == SEP {
        SkipComponent(absolute, start, st);
        start := start + 1;
        continue;
      }
      if |comp| == 1 && absolute[start] == '.' {
        assert comp == ".";
        SkipComponent(absolute, start, st);
        start := start + 1;
        continue;
      }
      if |comp| == 2 && absolute[start] == '.' && absolute[start + 1] == '.' {
        assert comp == "..";
        PopComponent(absolute, start, st);
        PopBoth(resolved, positions, st);
        if positions == [] {
          resolved := "";
        } else {
          resolved := resolved[..positions[|positions| - 1]];
          positions := positions[..|positions| - 1];
        }
        st := Step(st, "..");
        start := start + 1;
        continue;
      }
      PushComponent(absolute, start, st);
      PushStacked(resolved, positions, st, comp);
      PushIs(st, comp);
      resolved := resolved + [SEP];
      positions := positions + [|resolved| - 1];
      resolved := resolved + comp;
      st := Step(st, comp);
      start := end;
      start := start + 1;
    }
    FoldedAll(absolute, start, st);
    StackLength(resolved, positions, st);
  }

  lemma PopBoth(resolved: string, positions: seq<nat>, st: seq<string>)
    requires Stacked(resolved, positions, st)
    ensures positions == [] ==> Stacked("", [], Step(st, ".."))
    ensures positions != [] ==>
              var n := |positions| - 1;
              positions[n] <= |resolved| && Stacked(resolved[..positions[n]], positions[..n], Step(st, ".."))
  {
    if st != [] {
      PopStacked(resolved, positions, st);
    }
  }

  lemma EmptyStack()
    ensures Stacked("", [], [])
  {
  }

  lemma StackLength(resolved: string, positions: seq<nat>, st: seq<string>)
    requires Stacked(resolved, positions, st)
    ensures |positions| == |st| && resolved == Join(st)
  {
  }

  lemma PushIs(st: seq<string>, c: string)
    requires !(|c| == 0) && !(|c| == 1 && c[0] == '.') && !(|c| == 2 && c[0] == '.' && c[1] == '.')
    ensures Step(st, c) == st + [c]
  {
  }

  lemma SuffixStart(path: string)
    ensures Suffix(path, 0) == path
  {
  }

  lemma SuffixInside(path: string, i: nat)
    ensures i <= |path| ==> Suffix(path, i) == path[i..]
  {
  }

  lemma FoldedAll(path: string, i: nat, st: seq<string>)
    requires i >= |path|
    ensures Fold(st, Components(Suffix(path, i))) == st
  {
    hide Fold;
    assert Suffix(path, i) == "";
    OneComponent("");
    FoldOne(st, "", []);
  }

  // ---------------------------------------------------------------- the mount directory

  lemma EraseMount(m: string, r: string)
    requires m != "" && m[0] == SEP && (r != "" ==> r[0] == SEP)
    ensures m <= m + r && Erase(m + r, |m|) == if r == "" then [SEP] else r
  {
    assert (m + r)[..1] == [SEP];
    if r != "" {
      assert (m + r)[1 + |m|..] == r[1..];
      assert [SEP] + r[1..] == r;
    }
  }

  /** A path below the mount directory is internal, and becomes the path seen from there. */
  lemma InternalPath(mc: seq<string>, rest: seq<string>)
    requires mc != []
    ensures Join(mc) != ""
    ensures Classify(Join(mc), mc + rest) == (true, if rest == [] then [SEP] else Join(rest))
  {
    JoinOfNothing();
    hide Join, Erase;
    JoinConcat(mc, rest);
    JoinShape(mc);
    if rest != [] {
      JoinShape(rest);
    }
    EraseMount(Join(mc), Join(rest));
  }

  lemma JoinOfNothing()
    ensures Join([]) == ""
  {
  }

  /** A name used in a working directory below the mount directory is that file, seen from there. */
  lemma NameBelowMount(mc: seq<string>, rest: seq<string>, name: string)
    requires mc != [] && Proper(mc + rest) && ProperName(name)
    ensures Join(mc) != "" && name != ""
    ensures Classify(Join(mc), Fold(Origin(name, Join(mc + rest)), Components(name))) == (true, Join(rest + [name]))
  {
    hide Join, Classify, Fold, Components, Canonical;
    assert name[0] in name;
    CanonicalOfJoin(mc + rest);
    OneComponent(name);
    FoldOne(mc + rest, name, []);
    assert [name] + [] == [name];
    NothingToFold(mc + rest + [name]);
    assert mc + rest + [name] == mc + (rest + [name]);
    InternalPath(mc, rest + [name]);
  }

  lemma NothingToFold(st: seq<string>)
    ensures Fold(st, []) == st
  {
  }

  /** `hook_chdir` puts the mount directory back in front and drops a trailing slash. */
  function Prepended(mount: string, internal: string): string {
    var s := mount + internal;
    if s != "" && s[|s| - 1] == SEP then s[..|s| - 1] else s
  }

  lemma {:induction false} NoTrailingSlash(st: seq<string>)
    requires Proper(st) && st != []
    ensures |Join(st)| > 0 && Join(st)[|Join(st)| - 1] != SEP
  {
    var c := st[|st| - 1];
    assert ProperName(c);
    assert c[|c| - 1] in c;
  }

  /** Resolving to an internal path and prepending the mount directory again, as changing the
      working directory does, restores the canonical path. */
  lemma PrependRestores(mc: seq<string>, st: seq<string>)
    requires Proper(st) && mc != [] && mc <= st
    ensures Join(mc) != "" && Prepended(Join(mc), Classify(Join(mc), st).1) == Join(st)
  {
    var rest := st[|mc|..];
    assert st == mc + rest;
    InternalPath(mc, rest);
    JoinConcat(mc, rest);
    NoTrailingSlash(st);
    JoinOfNothing();
    hide Join;
    if rest == [] {
      assert (Join(mc) + [SEP])[..|Join(mc)|] == Join(mc);
    }
  }

  /** `resolve_new` takes a path as internal exactly when it lies below the mount directory, or
      when its string merely begins like the mount directory's and goes on inside a component. */
  lemma ClassifiedInternalIff(mc: seq<string>, st: seq<string>)
    requires Proper(mc) && Proper(st) && mc != []
    ensures Join(mc) != ""
    ensures Classify(Join(mc), st).0 <==>
            mc <= st || (Join(mc) < Join(st) && Join(st)[|Join(mc)|] != SEP)
  {
    JoinShape(mc);
    PrefixAtBoundary(mc, st);
  }

  lemma JoinMore(st: seq<string>, c: string)
    ensures Join(st + [c]) == Join(st) + [SEP] + c
  {
    assert (st + [c])[..|st|] == st;
  }

  /** With the mount directory "/m", the unrelated "/mx/a" is taken for the internal "//a". */
  lemma SiblingIsMistaken()
    ensures Classify("/m", Canonical("/mx/a")) == (true, "//a")
    ensures Canonical("/m") == ["m"] && Canonical("/mx/a") == ["mx", "a"] && !(["m"] <= ["mx", "a"])
  {
    JoinOfNothing();
    hide Join, Canonical, Erase;
    JoinMore([], "m");
    JoinMore([], "mx");
    JoinMore(["mx"], "a");
    assert [] + ["m"] == ["m"] && [] + ["mx"] == ["mx"] && ["mx"] + ["a"] == ["mx", "a"];
    assert "" + [SEP] + "m" == "/m" && "" + [SEP] + "mx" == "/mx" && "/mx" + [SEP] + "a" == "/mx/a";
    CanonicalOfJoin(["m"]);
    CanonicalOfJoin(["mx", "a"]);
    SiblingErased();
    assert ["m"][0] != ["mx", "a"][0];
  }

  lemma SiblingErased()
    ensures "/m" <= "/mx/a" && Erase("/mx/a", 2) == "//a"
  {
  }
}
