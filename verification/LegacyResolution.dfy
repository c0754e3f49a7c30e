/** The legacy resolver `resolve` (src/client/path.cpp), which walks the host file system as it
    goes, and the component counting it relies on. */
module LegacyResolution {
  import opened Common
  import opened PathNames
  import opened PathResolution

  // ---------------------------------------------------------------- tokens

  function DropEmptyLast(cs: seq<string>): seq<string> {
    if cs != [] && cs[|cs| - 1] == "" then cs[..|cs| - 1] else cs
  }

  /** The components from position `i` on; a separator that ends the string opens no component. */
  function Tokens(path: string, i: nat): seq<string> {
    DropEmptyLast(Components(Suffix(path, i)))
  }

  lemma DropBehind(c: string, cs: seq<string>)
    requires cs != []
    ensures DropEmptyLast([c] + cs) == [c] + DropEmptyLast(cs)
  {
  }

  lemma NoTokens(path: string, i: nat)
    requires i >= |path|
    ensures Tokens(path, i) == []
  {
    OneComponent("");
  }

  lemma NextToken(path: string, i: nat)
    requires i < |path|
    ensures var k := FindSep(path, i); Tokens(path, i) == [path[i..k]] + Tokens(path, k + 1)
  {
    hide Components, FindSep;
    var k := FindSep(path, i);
    ComponentsAt(path, i);
    OneComponent("");
    if k < |path| {
      ComponentsAt(path, k + 1);
      DropBehind(path[i..k], Components(path[k + 1..]));
    } else {
      assert [path[i..k]] + [] == [path[i..k]];
    }
  }

  /** `split_path`. */
  method SplitPath(path: string) returns (tokens: seq<string>)
    requires path != ""
    ensures tokens == Tokens(path, if path[0] != SEP then 0 else 1)
  {
    hide Tokens, FindSep;
    tokens := [];
    ghost var from := if path[0] != SEP then 0 else 1;
    var end := if path[0] != SEP then 0 else 1;
    while end < |path|
      invariant tokens + Tokens(path, end) == Tokens(path, from)
      decreases |path| - end
    {
      var start := end;
      NextToken(path, start);
      end := FindSep(path, start);
      assert tokens + ([path[start..end]] + Tokens(path, end + 1)) ==
             tokens + [path[start..end]] + Tokens(path, end + 1);
      tokens := tokens + [path[start..end]];
      end := end + 1;
    }
    NoTokens(path, end);
    assert tokens + [] == tokens;
  }

  /** Splitting the string of a proper list gives the list back. */
  lemma TokensOfJoin(st: seq<string>)
    requires Proper(st)
    ensures Tokens(Join(st), 1) == st
  {
    hide Components, Join;
    ComponentsOfJoin(st);
    var s := Join(st);
    OneComponent("");
    if st == [] {
      JoinOfNothing();
    } else {
      JoinShape(st);
      assert s == "" + [SEP] + s[1..];
      FirstComponent("", s[1..]);
      assert Components(s[1..]) == ([""] + Components(s[1..]))[1..] == ([""] + st)[1..] == st;
      assert ProperName(st[|st| - 1]);
    }
  }

  // ---------------------------------------------------------------- match_components

  /** `k` is the length of the longest common prefix. */
  ghost predicate IsCommon(st: seq<string>, mc: seq<string>, k: nat) {
    && k <= |st| && k <= |mc|
    && st[..k] == mc[..k]
    && (k < |st| && k < |mc| ==> st[k] != mc[k])
  }

  datatype Count = OutOfRange | Count(matched: nat, total: nat)

  /** `match_components`; the indexed access throws when the path runs on past the list. */
  method MatchComponents(path: string, components: seq<string>) returns (r: Count)
    ensures r.OutOfRange? <==> components < Tokens(path, 1)
    ensures r.Count? ==> r.total == |Tokens(path, 1)| && IsCommon(Tokens(path, 1), components, r.matched)
  {
    hide Tokens, FindSep, IsCommon;
    var matched, processed, end := 0, 0, 0;
    ghost var all := Tokens(path, 1);
    ghost var seen: seq<string> := [];
    NothingCommon(components);
    while true
      invariant 0 <= end
      invariant seen + Tokens(path, end + 1) == all
      invariant processed == |seen|
      invariant IsCommon(seen, components, matched) && !(components < seen)
      decreases |path| - end
    {
      end := end + 1;
      if end >= |path| {
        break;
      }
      var start := end;
      NextToken(path, start);
      end := FindSep(path, start);
      ghost var c := path[start..end];
      assert seen + ([c] + Tokens(path, end + 1)) == seen + [c] + Tokens(path, end + 1);
      ExtendCommon(seen, components, matched, c);
      if !(matched == processed && matched >= |components|) {
        NotStrictPrefix(seen, components, matched, c);
      }
      if matched == processed {
        if matched >= |components| {
          StrictPrefix(seen, components, matched, [c] + Tokens(path, end + 1), all);
          return OutOfRange;
        }
        if path[start..end] == components[matched] {
          matched := matched + 1;
        }
      }
      processed := processed + 1;
      seen := seen + [c];
    }
    NoTokens(path, end);
    assert seen == all;
    r := Count(matched, processed);
  }

  lemma NothingCommon(mc: seq<string>)
    ensures IsCommon([], mc, 0)
  {
  }

  lemma ExtendCommon(seen: seq<string>, mc: seq<string>, k: nat, c: string)
    requires IsCommon(seen, mc, k)
    ensures k == |seen| < |mc| && c == mc[k] ==> IsCommon(seen + [c], mc, k + 1)
    ensures !(k == |seen| < |mc| && c == mc[k]) ==> IsCommon(seen + [c], mc, k)
  {
    if k == |seen| && k < |mc| && c == mc[k] {
      assert mc[..k + 1] == mc[..k] + [mc[k]];
      assert (seen + [c])[..k + 1] == seen[..k] + [c];
    } else {
      assert (seen + [c])[..k] == seen[..k];
    }
  }

  lemma StrictPrefix(seen: seq<string>, mc: seq<string>, k: nat, rest: seq<string>, all: seq<string>)
    requires IsCommon(seen, mc, k) && k == |seen| && k >= |mc| && rest != [] && seen + rest == all
    ensures mc < all
  {
    assert seen == seen[..k] && mc == mc[..k];
  }

  lemma NotStrictPrefix(seen: seq<string>, mc: seq<string>, k: nat, c: string)
    requires IsCommon(seen, mc, k) && !(mc < seen) && !(k == |seen| && k >= |mc|)
    ensures !(mc < seen + [c])
  {
  }

  // ---------------------------------------------------------------- resolve

  /** What `lstat` says about a name and, for a symbolic link, where `realpath` leads if anywhere. */
  datatype Kind = Missing | Directory | Other | Link(target: Option<seq<string>>)

  /** What the resolver works with: the host's names, the mount directory and `resolve_last_link`. */
  datatype Setting = Setting(lstat: string -> Kind, mc: seq<string>, last: bool) {
    /** The mount directory is not the root, and `realpath` returns canonical paths. */
    ghost predicate Valid() {
      mc != [] && Proper(mc) && forall name: string :: LeadsProperly(lstat(name))
    }
  }

  ghost predicate LeadsProperly(kind: Kind) {
    kind.Link? && kind.target.Some? ==> Proper(kind.target.value)
  }

  /** The directory reached. `slash` is set when a link has led to the root: its string "/" then
      stays in front of what is added to it. */
  datatype Place = Place(slash: bool, st: seq<string>)

  datatype Outcome = Threw | Answer(internal: bool, path: string)

  function Spelling(p: Place): string {
    (if p.slash then [SEP] else "") + Join(p.st)
  }

  /** One component applied lexically. */
  function Moved(p: Place, c: string): Place {
    if c == ".." && p.st == [] then Place(false, []) else Place(p.slash, Step(p.st, c))
  }

  /** Where a link to `t` leads. */
  function Landing(t: seq<string>): Place {
    Place(t == [], t)
  }

  predicate Pushes(c: string) {
    c != "" && c != "." && c != ".."
  }

  predicate Follows(kind: Kind, more: bool, last: bool) {
    kind.Link? && (more || last)
  }

  /** The walk cannot go through this name. */
  predicate Blocked(kind: Kind, more: bool, last: bool) {
    kind == Missing || (kind == Other && more) || (Follows(kind, more, last) && kind.target.None?)
  }

  datatype Turn = Advance(place: Place) | Halt | Fault

  /** Component `c` entered from `p`: outside the mount directory the host decides. A link that
      leads strictly below the mount directory makes the counting of components throw. */
  function TurnAt(w: Setting, p: Place, c: string, more: bool): Turn {
    var next := Moved(p, c);
    if !Pushes(c) || w.mc <= p.st then Advance(next)
    else
      var kind := w.lstat(Spelling(next));
      if Blocked(kind, more, w.last) then Halt
      else if !Follows(kind, more, w.last) then Advance(next)
      else if w.mc < kind.target.value then Fault
      else Advance(Landing(kind.target.value))
  }

  /** The answer for a path fully walked. */
  function Finish(mc: seq<string>, p: Place): Outcome
    requires mc != []
  {
    if mc <= p.st then
      JoinShape(p.st);
      Answer(true, Erase(Spelling(p), |Join(mc)|))
    else Answer(false, if Spelling(p) == "" then [SEP] else Spelling(p))
  }

  /** Walking on from position `start` with the directory `p` reached. */
  function Walk(w: Setting, path: string, p: Place, start: nat): Outcome
    requires start <= |path| && w.mc != []
    decreases |path| - start
  {
    var end := FindSep(path, start);
    var c := path[start..end];
    match TurnAt(w, p, c, end < |path|)
    case Halt => Answer(false, Spelling(Moved(p, c)) + path[end..])
    case Fault => Threw
    case Advance(q) => if end == |path| then Finish(w.mc, q) else Walk(w, path, q, end + 1)
  }

  const EXCLUDED := ["sys/", "proc/"]

  /** Position of the last separator, or -1. */
  function FindLast(s: string): (k: int)
    ensures -1 <= k < |s| && (k >= 0 ==> s[k] == SEP)
  {
    if s == "" then -1 else if s[|s| - 1] == SEP then |s| - 1 else FindLast(s[..|s| - 1])
  }

  lemma {:induction false} FindLastIn(a: string, c: string)
    requires SEP !in c
    ensures FindLast(a + [SEP] + c) == |a|
    decreases |c|
  {
    var s := a + [SEP] + c;
    if c == "" {
    } else {
      assert s[|s| - 1] == c[|c| - 1];
      assert s[..|s| - 1] == a + [SEP] + c[..|c| - 1];
      FindLastIn(a, c[..|c| - 1]);
    }
  }

  /** The counters of the walk when `st` is reached: `matched` is the length of the longest
      common prefix with the mount directory, and counts on below it. */
  ghost predicate Matched(st: seq<string>, mc: seq<string>, m: nat) {
    if mc <= st then m == |st| else IsCommon(st, mc, m)
  }

  lemma MatchedOutside(st: seq<string>, mc: seq<string>, m: nat)
    requires Matched(st, mc, m)
    ensures m < |mc| <==> !(mc <= st)
    ensures m <= |st|
  {
  }

  lemma MatchedPush(st: seq<string>, mc: seq<string>, m: nat, c: string)
    requires Matched(st, mc, m)
    ensures Matched(st + [c], mc, if m >= |mc| || (m == |st| && c == mc[m]) then m + 1 else m)
  {
    MatchedOutside(st, mc, m);
    if !(mc <= st) {
      ExtendCommon(st, mc, m, c);
      if mc <= st + [c] {
        assert mc == st + [c];
      }
    }
  }

  lemma MatchedPop(st: seq<string>, mc: seq<string>, m: nat)
    requires Matched(st, mc, m) && st != []
    ensures m == |st| ==> Matched(st[..|st| - 1], mc, m - 1)
    ensures m < |st| ==> Matched(st[..|st| - 1], mc, m)
  {
    var n := |st| - 1;
    MatchedOutside(st, mc, m);
    if m == |st| {
      PopFull(st, mc);
    } else {
      assert st[..n][..m] == st[..m];
      assert !(mc <= st[..n]);
    }
  }

  lemma PopFull(st: seq<string>, mc: seq<string>)
    requires Matched(st, mc, |st|) && st != []
    ensures Matched(st[..|st| - 1], mc, |st| - 1)
  {
    var n := |st| - 1;
    if mc <= st[..n] {
    } else if mc <= st {
      assert |mc| == |st|;
      assert st[..n] == mc[..n];
    } else {
      assert st == st[..|st|] == mc[..|st|];
      assert st[..n] == mc[..n];
    }
  }

  lemma MatchedLanding(t: seq<string>, mc: seq<string>, m: nat)
    requires IsCommon(t, mc, m) && !(mc < t)
    ensures Matched(t, mc, m)
  {
    if mc <= t {
      assert mc == t;
    }
  }

  // ---------------------------------------------------------------- the loop

  /** What the walk still has to do once the component ending at `end` is dealt with. */
  function Rest(w: Setting, path: string, p: Place, end: nat): Outcome
    requires end <= |path| && w.mc != []
  {
    if end == |path| then Finish(w.mc, p) else Walk(w, path, p, end + 1)
  }

  lemma WalkFromEnd(w: Setting, path: string, p: Place)
    requires w.mc != []
    ensures Walk(w, path, p, |path|) == Finish(w.mc, p)
  {
    assert FindSep(path, |path|) == |path| && path[|path|..|path|] == "";
  }

  lemma RestDone(w: Setting, path: string, p: Place, end: nat)
    requires end <= |path| <= end + 1 && w.mc != []
    ensures Rest(w, path, p, end) == Finish(w.mc, p)
  {
    WalkFromEnd(w, path, p);
  }

  lemma SkipSeparator(w: Setting, path: string, p: Place, start: nat)
    requires start < |path| && path[start] == SEP && w.mc != []
    ensures Walk(w, path, p, start) == Walk(w, path, p, start + 1)
  {
    FindSepHere(path, start);
  }

  lemma WalkOver(w: Setting, path: string, p: Place, start: nat)
    requires start <= |path| && w.mc != []
    ensures var end := FindSep(path, start);
            var c := path[start..end];
            var turn := TurnAt(w, p, c, end < |path|);
            Walk(w, path, p, start) ==
              if turn.Halt? then Answer(false, Spelling(Moved(p, c)) + path[end..])
              else if turn.Fault? then Threw
              else Rest(w, path, turn.place, end)
  {
    hide TurnAt, Moved, Spelling, Finish;
  }

  /** `resolved` spells `p`, and its last component starts at `lastSlash`. */
  ghost predicate Spelled(resolved: string, lastSlash: int, p: Place) {
    && Proper(p.st)
    && resolved == Spelling(p)
    && (p.st != [] ==> lastSlash == |Spelling(Place(p.slash, p.st[..|p.st| - 1]))|)
    && (p.st == [] && p.slash ==> lastSlash == 0)
  }

  lemma {:induction false} LastSlashOf(p: Place)
    requires Proper(p.st)
    ensures Spelled(Spelling(p), FindLast(Spelling(p)), p)
  {
    if p.st != [] {
      var up := Place(p.slash, p.st[..|p.st| - 1]);
      var c := p.st[|p.st| - 1];
      assert ProperName(c);
      assert Spelling(p) == Spelling(up) + [SEP] + c;
      FindLastIn(Spelling(up), c);
    } else if p.slash {
      assert Spelling(p) == "" + [SEP] + "";
      FindLastIn("", "");
    }
  }

  lemma SpelledPop(resolved: string, lastSlash: int, p: Place)
    requires Spelled(resolved, lastSlash, p) && resolved != ""
    ensures 0 <= lastSlash <= |resolved|
    ensures Spelled(resolved[..lastSlash], FindLast(resolved[..lastSlash]), Moved(p, ".."))
  {
    var up := Moved(p, "..");
    assert resolved[..lastSlash] == Spelling(up);
    LastSlashOf(up);
  }

  lemma SpelledPush(resolved: string, lastSlash: int, p: Place, c: string)
    requires Spelled(resolved, lastSlash, p) && ProperName(c)
    ensures Spelled(resolved + [SEP] + c, |resolved|, Place(p.slash, p.st + [c]))
  {
    assert (p.st + [c])[..|p.st|] == p.st;
  }

  lemma SpelledIs(resolved: string, lastSlash: int, p: Place)
    requires Spelled(resolved, lastSlash, p)
    ensures resolved == Spelling(p) && (resolved == "" <==> p == Place(false, []))
  {
  }

  lemma Landed(t: seq<string>)
    requires Proper(t)
    ensures Spelled(Spelling(Landing(t)), FindLast(Spelling(Landing(t))), Landing(t))
    ensures Tokens(Spelling(Landing(t)), 1) == t
  {
    hide Tokens, FindLast, Spelled;
    LastSlashOf(Landing(t));
    if t == [] {
      NoTokens(Spelling(Landing(t)), 1);
    } else {
      TokensOfJoin(t);
      assert Spelling(Landing(t)) == Join(t);
    }
  }

  lemma AtTheRoot(mc: seq<string>)
    requires mc != []
    ensures Matched([], mc, 0) && Spelled("", 0, Place(false, []))
  {
  }

  lemma PopIs(p: Place)
    ensures Moved(p, "..").st == if p.st == [] then [] else p.st[..|p.st| - 1]
    ensures p == Place(false, []) ==> Moved(p, "..") == p
  {
  }

  /** Where the next component starts. */
  method SkipSeparators(ghost w: Setting, path: string, ghost p: Place, from: nat) returns (start: nat)
    requires from <= |path| && w.mc != []
    ensures from <= start <= |path| && (start < |path| ==> path[start] != SEP)
    ensures Walk(w, path, p, start) == Walk(w, path, p, from)
  {
    hide Walk;
    start := from;
    while start < |path| && path[start] == SEP
      invariant from <= start <= |path|
      invariant Walk(w, path, p, start) == Walk(w, path, p, from)
    {
      SkipSeparator(w, path, p, start);
      start := start + 1;
    }
  }

  /** The ".." branch of `resolve`. */
  method RollBack(ghost mc: seq<string>, ghost p: Place, resolved: string, lastSlash: int, matched: nat,
                  components: nat)
    returns (up: string, upSlash: int, upMatched: nat, upComponents: nat)
    requires Spelled(resolved, lastSlash, p) && Matched(p.st, mc, matched) && components == |p.st|
    ensures Spelled(up, upSlash, Moved(p, ".."))
    ensures Matched(Moved(p, "..").st, mc, upMatched) && upComponents == |Moved(p, "..").st|
  {
    hide Spelled, Matched, FindLast, Moved, Spelling;
    PopIs(p);
    SpelledIs(resolved, lastSlash, p);
    MatchedOutside(p.st, mc, matched);
    up, upSlash, upMatched, upComponents := resolved, lastSlash, matched, components;
    if up != "" {
      SpelledPop(resolved, lastSlash, p);
      up := up[..upSlash];
      upSlash := FindLast(up);
    }
    if upComponents > 0 {
      MatchedPop(p.st, mc, matched);
      if upMatched == upComponents {
        upMatched := upMatched - 1;
      }
      upComponents := upComponents - 1;
    }
  }

  /** A proper component entered. */
  lemma Entering(mc: seq<string>, path: string, start: nat, p: Place, resolved: string, lastSlash: int, matched: nat)
    requires Spelled(resolved, lastSlash, p) && Matched(p.st, mc, matched) && start <= |path|
    requires var c := path[start..FindSep(path, start)]; |c| != 0 && c != "." && c != ".."
    ensures var c := path[start..FindSep(path, start)];
            var next := Moved(p, c);
            && Pushes(c) && next.st == p.st + [c]
            && resolved + [SEP] + c == Spelling(next)
            && Spelled(resolved + [SEP] + c, |resolved|, next)
            && (matched < |mc| <==> !(mc <= p.st))
            && Matched(next.st, mc,
                       if matched >= |mc| || (matched == |p.st| && c == mc[matched]) then matched + 1 else matched)
  {
    var c := path[start..FindSep(path, start)];
    hide Spelled, Matched, FindSep, Spelling, Proper;
    PushIsProper(path, start);
    MatchedOutside(p.st, mc, matched);
    SpelledPush(resolved, lastSlash, p, c);
    SpelledIs(resolved + [SEP] + c, |resolved|, Moved(p, c));
    MatchedPush(p.st, mc, matched, c);
  }

  /** A name entered outside the mount directory, with `rest` of the path behind it: the host decides
      whether the walk stops. */
  method Examine(w: Setting, ghost p: Place, ghost c: string, rest: string, resolved: string, lastSlash: int,
                 matched: nat, components: nat)
    returns (stop: Option<Outcome>, resolved': string, lastSlash': int, matched': nat, components': nat)
    requires w.Valid() && Pushes(c) && !(w.mc <= p.st)
    requires Spelled(resolved, lastSlash, Moved(p, c)) && Matched(Moved(p, c).st, w.mc, matched)
    requires |Moved(p, c).st| == components + 1
    ensures var turn := TurnAt(w, p, c, rest != "");
            && (turn.Halt? ==> stop == Some(Answer(false, Spelling(Moved(p, c)) + rest)))
            && (turn.Fault? ==> stop == Some(Threw))
            && (turn.Advance? ==> stop.None? && Spelled(resolved', lastSlash', turn.place) &&
                                  Matched(turn.place.st, w.mc, matched') &&
                                  (rest != "" ==> components' == |turn.place.st|))
  {
    hide Spelled, Matched, Moved, Spelling, FindLast, IsCommon, Tokens, Proper, Join, Pushes;
    SpelledIs(resolved, lastSlash, Moved(p, c));
    stop, resolved', lastSlash', matched', components' := None, resolved, lastSlash, matched, components;
    var kind := w.lstat(resolved);
    if kind.Missing? {
      stop := Some(Answer(false, resolved + rest));
      return;
    }
    if kind.Link? {
      if !w.last && rest == "" {
        return;
      }
      if kind.target.None? {
        stop := Some(Answer(false, resolved + rest));
        return;
      }
      var t := kind.target.value;
      assert LeadsProperly(w.lstat(resolved));
      Landed(t);
      resolved' := Spelling(Landing(t));
      var count := MatchComponents(resolved', w.mc);
      if count.OutOfRange? {
        stop := Some(Threw);
        return;
      }
      MatchedLanding(t, w.mc, count.matched);
      matched', components' := count.matched, count.total;
      lastSlash' := FindLast(resolved');
      return;
    } else if kind.Other? && rest != "" {
      stop := Some(Answer(false, resolved + rest));
      return;
    }
    components' := components + 1;
  }

  /** The part of the loop that adds a name. */
  method Enter(w: Setting, path: string, start: nat, end: nat, ghost p: Place, resolved: string, lastSlash: int,
               matched: nat, components: nat)
    returns (stop: Option<Outcome>, resolved': string, lastSlash': int, matched': nat, components': nat)
    requires w.Valid() && start <= |path| && end == FindSep(path, start) && components == |p.st|
    requires var c := path[start..end]; |c| != 0 && c != "." && c != ".."
    requires Spelled(resolved, lastSlash, p) && Matched(p.st, w.mc, matched)
    ensures var c := path[start..end];
            var turn := TurnAt(w, p, c, end < |path|);
            && (turn.Halt? ==> stop == Some(Answer(false, Spelling(Moved(p, c)) + path[end..])))
            && (turn.Fault? ==> stop == Some(Threw))
            && (turn.Advance? ==> stop.None? && Spelled(resolved', lastSlash', turn.place) &&
                                  Matched(turn.place.st, w.mc, matched') &&
                                  (end < |path| ==> components' == |turn.place.st|))
  {
    hide Spelled, Matched, FindSep, Moved, Pushes, Spelling, TurnAt, Setting.Valid;
    var c := path[start..end];
    TurnStays(w, p, c, end < |path|);
    Entering(w.mc, path, start, p, resolved, lastSlash, matched);
    resolved' := resolved + [SEP];
    lastSlash' := |resolved'| - 1;
    resolved' := resolved' + c;
    stop, matched' := None, matched;
    if matched' < |w.mc| {
      if matched' == components && c == w.mc[matched'] {
        matched' := matched' + 1;
      }
      stop, resolved', lastSlash', matched', components' :=
        Examine(w, p, c, path[end..], resolved', lastSlash', matched', components);
    } else {
      matched' := matched' + 1;
      components' := components + 1;
    }
  }

  lemma ExcludedIs(path: string, i: nat)
    requires path != "" && path[0] == SEP && i < |EXCLUDED|
    ensures EXCLUDED[i] <= path[1..] <==> (if i == 0 then "/sys/" else "/proc/") <= path
  {
    assert path == [SEP] + path[1..];
    assert "/sys/" == [SEP] + "sys/" && "/proc/" == [SEP] + "proc/";
    BehindSlash(EXCLUDED[i], path[1..]);
  }

  lemma BehindSlash(a: string, b: string)
    ensures [SEP] + a <= [SEP] + b <==> a <= b
  {
    assert ([SEP] + a)[1..] == a && ([SEP] + b)[1..] == b;
    if [SEP] + a <= [SEP] + b {
      assert ([SEP] + b)[..1 + |a|] == [SEP] + a;
      assert b[..|a|] == ([SEP] + b)[1..1 + |a|];
    }
  }

  lemma NotExcluded(path: string)
    requires path != "" && path[0] == SEP && forall k | 0 <= k < |EXCLUDED| :: !(EXCLUDED[k] <= path[1..])
    ensures !("/sys/" <= path) && !("/proc/" <= path)
  {
    ExcludedIs(path, 0);
    ExcludedIs(path, 1);
    assert !(EXCLUDED[0] <= path[1..]) && !(EXCLUDED[1] <= path[1..]);
  }

  /** The loop over the excluded paths. */
  method IsExcluded(path: string) returns (excluded: bool)
    requires path != "" && path[0] == SEP
    ensures excluded <==> "/sys/" <= path || "/proc/" <= path
  {
    for i := 0 to |EXCLUDED|
      invariant forall k | 0 <= k < i :: !(EXCLUDED[k] <= path[1..])
    {
      ExcludedIs(path, i);
      if EXCLUDED[i] <= path[1..] {
        return true;
      }
    }
    NotExcluded(path);
    return false;
  }

  /** The legacy `resolve`. */
  method Resolve(w: Setting, mount: string, path: string) returns (r: Outcome)
    requires path != "" && path[0] == SEP
    requires w.Valid() && mount == Join(w.mc)
    ensures r == if "/sys/" <= path || "/proc/" <= path then Answer(false, path) else Walk(w, path, Place(false, []), 0)
  {
    var excluded := IsExcluded(path);
    if excluded {
      return Answer(false, path);
    }
    assert w.mc != [];
    hide Walk, Rest, Spelled, Matched, Finish, FindSep, Moved, Join, FindLast, Pushes, Spelling;
    hide TurnAt, Setting.Valid;
    AtTheRoot(w.mc);
    ghost var p := Place(false, []);
    SkipSeparator(w, path, p, 0);
    RestStart(w, path, p);
    ghost var target := Walk(w, path, p, 0);
    var matched: nat, components: nat := 0, 0;
    var end, lastSlash, resolved := 0, 0, "";
    while true
      invariant 0 <= end <= |path| && (end < |path| ==> components == |p.st|)
      invariant Spelled(resolved, lastSlash, p) && Matched(p.st, w.mc, matched)
      invariant Rest(w, path, p, end) == target
      decreases |path| - end
    {
      if end + 1 >= |path| {
        RestDone(w, path, p, end);
        break;
      }
      RestGoesOn(w, path, p, end);
      end := end + 1;
      var start := SkipSeparators(w, path, p, end);
      end := FindSep(path, start);
      WalkOver(w, path, p, start);
      var c := path[start..end];
      TurnStays(w, p, c, end < |path|);
      if |c| == 0 {
        WalkFromEnd(w, path, p);
        break;
      }
      if c == "." {
        DotIs(p);
        continue;
      }
      if c == ".." {
        DotIs(p);
        resolved, lastSlash, matched, components := RollBack(w.mc, p, resolved, lastSlash, matched, components);
        p := Moved(p, "..");
        continue;
      }
      var stop;
      stop, resolved, lastSlash, matched, components :=
        Enter(w, path, start, end, p, resolved, lastSlash, matched, components);
      if stop.Some? {
        return stop.value;
      }
      p := TurnAt(w, p, c, end < |path|).place;
    }
    r := Conclude(mount, w.mc, matched, resolved, lastSlash, p);
  }

  /** The end of `resolve`. */
  method Conclude(mount: string, mc: seq<string>, matched: nat, resolved: string, ghost lastSlash: int, ghost p: Place)
    returns (r: Outcome)
    requires mc != [] && mount == Join(mc) && Spelled(resolved, lastSlash, p) && Matched(p.st, mc, matched)
    ensures r == Finish(mc, p)
  {
    hide Join, Erase, Spelled, Matched;
    MatchedOutside(p.st, mc, matched);
    SpelledIs(resolved, lastSlash, p);
    if matched >= |mc| {
      return Answer(true, Erase(resolved, |mount|));
    }
    return Answer(false, if resolved == "" then [SEP] else resolved);
  }

  lemma TurnStays(w: Setting, p: Place, c: string, more: bool)
    ensures !Pushes(c) || w.mc <= p.st ==> TurnAt(w, p, c, more) == Advance(Moved(p, c))
  {
  }

  lemma RestStart(w: Setting, path: string, p: Place)
    requires path != "" && w.mc != []
    ensures Rest(w, path, p, 0) == Walk(w, path, p, 1)
  {
  }

  lemma RestGoesOn(w: Setting, path: string, p: Place, end: nat)
    requires end < |path| && w.mc != []
    ensures Rest(w, path, p, end) == Walk(w, path, p, end + 1)
  {
  }

  lemma DotIs(p: Place)
    ensures Moved(p, ".") == p && !Pushes(".") && !Pushes("..")
  {
  }

  lemma PushIsProper(path: string, start: nat)
    requires start <= |path|
    requires var c := path[start..FindSep(path, start)]; |c| != 0 && c != "." && c != ".."
    ensures var c := path[start..FindSep(path, start)]; ProperName(c) && Pushes(c)
  {
  }

  // ---------------------------------------------------------------- what the walk means

  datatype Way = Free | Stuck | Thrown

  /** Following a list of components and the links met on it, as far as one gets: from a name that
      cannot be walked through the rest is taken lexically. */
  ghost function Reached(w: Setting, p: Place, cs: seq<string>): (Way, Place)
    decreases |cs|
  {
    if cs == [] then (Free, p)
    else
      match TurnAt(w, p, cs[0], |cs| > 1)
      case Advance(q) => Reached(w, q, cs[1..])
      case Halt => (Stuck, Place(false, Fold(Moved(p, cs[0]).st, cs[1..])))
      case Fault => (Thrown, p)
  }

  lemma ReachedOne(w: Setting, p: Place, c: string, cs: seq<string>)
    ensures Reached(w, p, [c] + cs) ==
            match TurnAt(w, p, c, cs != [])
            case Advance(q) => Reached(w, q, cs)
            case Halt => (Stuck, Place(false, Fold(Moved(p, c).st, cs)))
            case Fault => (Thrown, p)
  {
    hide TurnAt, Fold, Moved;
    assert ([c] + cs)[1..] == cs;
  }

  lemma SomeComponent(s: string)
    ensures Components(s) != []
  {
  }

  lemma TurnIsProper(w: Setting, p: Place, c: string, more: bool)
    requires w.Valid() && Proper(p.st) && SEP !in c
    ensures Proper(Moved(p, c).st)
    ensures TurnAt(w, p, c, more).Advance? ==> Proper(TurnAt(w, p, c, more).place.st)
  {
    hide Spelling;
    StepKeepsProper(p.st, c);
    assert LeadsProperly(w.lstat(Spelling(Moved(p, c))));
  }

  lemma CanonicalOfRest(p: Place, rest: string)
    requires Proper(p.st)
    ensures Canonical(Spelling(p) + [SEP] + rest) == Fold(p.st, Components(rest))
  {
    hide Components, Fold, Join;
    var s := Join(p.st);
    ComponentsOfJoin(p.st);
    SplitConcat(s, rest);
    FoldConcat([], [""] + p.st, Components(rest));
    FoldOne([], "", p.st);
    FoldProper([], p.st);
    assert [] + p.st == p.st;
    if p.slash {
      assert Spelling(p) + [SEP] + rest == "" + [SEP] + (s + [SEP] + rest);
      CanonicalBehindSlash(s + [SEP] + rest);
    } else {
      assert Spelling(p) == s;
    }
  }

  lemma CanonicalBehindSlash(s: string)
    ensures Canonical("" + [SEP] + s) == Canonical(s)
  {
    hide Components;
    FirstComponent("", s);
    FoldOne([], "", Components(s));
  }

  lemma CanonicalOfSpelling(p: Place)
    requires Proper(p.st)
    ensures Canonical(Spelling(p)) == p.st
  {
    hide Canonical, Join;
    CanonicalOfJoin(p.st);
    if p.slash {
      assert Spelling(p) == "" + [SEP] + Join(p.st);
      CanonicalBehindSlash(Join(p.st));
    } else {
      assert Spelling(p) == Join(p.st);
    }
  }

  /** The string returned for a path on which the walk gets stuck. */
  lemma StuckNames(path: string, p: Place, end: nat)
    requires end <= |path| && (end < |path| ==> path[end] == SEP) && Proper(p.st)
    ensures Canonical(Spelling(p) + path[end..]) ==
            Fold(p.st, if end == |path| then [] else Components(path[end + 1..]))
  {
    hide Canonical, Spelling, Components;
    if end == |path| {
      CanonicalOfSpelling(p);
      assert Spelling(p) + path[end..] == Spelling(p);
    } else {
      assert Spelling(p) + path[end..] == Spelling(p) + [SEP] + path[end + 1..];
      CanonicalOfRest(p, path[end + 1..]);
    }
  }

  /** What an outcome says about the way: the answer for the directory reached, an external name for
      it, or no answer. */
  ghost predicate Fulfils(o: Outcome, mc: seq<string>, way: (Way, Place))
    requires mc != []
  {
    match way.0
    case Free => o == Finish(mc, way.1)
    case Stuck => o.Answer? && !o.internal && Canonical(o.path) == way.1.st
    case Thrown => o == Threw
  }

  /** Every path: one that can be walked is answered for the directory it leads to, links followed;
      one that cannot is external and the string returned names the same directory; and `resolve`
      throws exactly when a link leads strictly below the mount directory. */
  lemma {:induction false} WalkReaches(w: Setting, path: string, p: Place, start: nat)
    requires start <= |path| && w.Valid() && Proper(p.st)
    ensures Fulfils(Walk(w, path, p, start), w.mc, Reached(w, p, Components(path[start..])))
    decreases |path| - start
  {
    hide Components, Fold, Finish, Moved, Reached, Walk, Proper, Canonical, TurnAt, Spelling;
    var end := FindSep(path, start);
    var c := path[start..end];
    WalkOver(w, path, p, start);
    ComponentsAt(path, start);
    TurnIsProper(w, p, c, end < |path|);
    StuckNames(path, Moved(p, c), end);
    if end < |path| {
      var cs := Components(path[end + 1..]);
      SomeComponent(path[end + 1..]);
      ReachedOne(w, p, c, cs);
      var turn := TurnAt(w, p, c, true);
      if turn.Advance? {
        WalkReaches(w, path, turn.place, end + 1);
      }
    } else {
      assert [c] + [] == [c];
      ReachedOne(w, p, c, []);
      ReachedNothing(w, p, c);
    }
  }

  lemma ReachedNothing(w: Setting, p: Place, c: string)
    ensures var turn := TurnAt(w, p, c, false);
            turn.Advance? ==> Reached(w, turn.place, []) == (Free, turn.place)
  {
    hide TurnAt;
  }

  /** A link met outside the mount directory is followed, unless it is the last name and
      `resolve_last_link` is off; one that leads to the mount directory itself too. */
  lemma LinkIsFollowed(w: Setting, p: Place, c: string, more: bool, t: seq<string>)
    requires Pushes(c) && !(w.mc <= p.st) && w.lstat(Spelling(Moved(p, c))) == Link(Some(t)) && !(w.mc < t)
    ensures TurnAt(w, p, c, more) == if !more && !w.last then Advance(Moved(p, c)) else Advance(Landing(t))
    ensures t == w.mc && (more || w.last) ==> TurnAt(w, p, c, more).place.st == w.mc
  {
    hide Spelling, Moved;
  }

  // ---------------------------------------------------------------- links to the root

  /** The answer is the one for the directory reached, unless the walk came through a link to the
      root: then a separator too many stands in front, except for the root and the mount directory. */
  lemma AnswerIsPlainIff(mc: seq<string>, p: Place)
    requires mc != []
    ensures Finish(mc, p) == Finish(mc, Place(false, p.st)) <==> !p.slash || p.st == [] || p.st == mc
  {
    hide Join;
    if p.st == [] {
      JoinOfNothing();
    } else if p.slash {
      JoinShape(p.st);
      JoinShape(mc);
      var j := Join(p.st);
      assert Spelling(p) == [SEP] + j && Spelling(Place(false, p.st)) == j;
      if mc <= p.st {
        var n := |Join(mc)|;
        JoinBelow(mc, p.st);
        assert |Erase([SEP] + j, n)| == 1 + |j| - n;
        assert p.st == mc ==> Erase([SEP] + j, n) == [SEP] == Erase(j, n);
      }
    }
  }

  lemma JoinBelow(mc: seq<string>, st: seq<string>)
    requires mc <= st
    ensures |Join(mc)| <= |Join(st)|
    ensures mc != st ==> |Join(mc)| < |Join(st)|
  {
    hide Join;
    assert st == mc + st[|mc|..];
    JoinConcat(mc, st[|mc|..]);
    if mc != st {
      JoinShape(st[|mc|..]);
    }
  }

  /** A host with a link to the root and one to a directory below the mount directory /m. */
  function Example(name: string): Kind {
    if name == "/r" then Link(Some([])) else if name == "/b" then Link(Some(["m", "y"])) else Directory
  }

  lemma ExampleNames()
    ensures Spelling(Place(false, ["r"])) == "/r" && Spelling(Place(false, ["b"])) == "/b"
    ensures Spelling(Place(true, ["m"])) == "//m"
  {
    assert ["r"][..0] == [] && ["b"][..0] == [] && ["m"][..0] == [];
    assert Join(["r"]) == "/r" && Join(["b"]) == "/b" && Join(["m"]) == "/m";
  }

  lemma ExampleTurns(w: Setting)
    requires w == Setting(Example, ["m"], true)
    ensures TurnAt(w, Place(false, []), "", true) == Advance(Place(false, []))
    ensures TurnAt(w, Place(false, []), "r", true) == Advance(Place(true, []))
    ensures TurnAt(w, Place(false, []), "b", true) == Fault
    ensures TurnAt(w, Place(true, []), "m", true) == Advance(Place(true, ["m"]))
    ensures TurnAt(w, Place(true, ["m"]), "x", false) == Advance(Place(true, ["m", "x"]))
  {
    hide Spelling;
    ExampleNames();
    assert [] + ["r"] == ["r"] && [] + ["b"] == ["b"] && [] + ["m"] == ["m"] && ["m"] + ["x"] == ["m", "x"];
  }

  lemma WalkTurn(w: Setting, path: string, p: Place, start: nat, end: nat, c: string, turn: Turn)
    requires w.mc != [] && start <= end <= |path| && path[start..end] == c && SEP !in c
    requires (end < |path| ==> path[end] == SEP) && turn == TurnAt(w, p, c, end < |path|) && !turn.Halt?
    ensures Walk(w, path, p, start) == if turn.Fault? then Threw else Rest(w, path, turn.place, end)
  {
    hide Walk, Rest, TurnAt, Moved, Spelling, FindSep;
    FindSepUnique(path, start, end);
    WalkOver(w, path, p, start);
  }

  lemma ExampleFinish()
    ensures Finish(["m"], Place(true, ["m", "x"])) == Answer(true, "//x")
  {
    assert ["m", "x"][..1] == ["m"] && ["m"][..0] == [];
    assert Join(["m"]) == "/m" && Join(["m", "x"]) == "/m/x";
    assert Spelling(Place(true, ["m", "x"])) == "//m/x";
    assert Erase("//m/x", 2) == "//x";
  }

  lemma ExampleValid()
    ensures Setting(Example, ["m"], true).Valid()
  {
    forall name: string
      ensures LeadsProperly(Setting(Example, ["m"], true).lstat(name))
    {
    }
  }

  /** Through the link to the root, /r/m/x comes back as the internal path //x. */
  lemma RootLinkMisleads()
    ensures var w := Setting(Example, ["m"], true);
            w.Valid() && Walk(w, "/r/m/x", Place(false, []), 0) == Answer(true, "//x")
  {
    hide Example, Setting.Valid, TurnAt, Finish, Walk, Rest;
    var w, path := Setting(Example, ["m"], true), "/r/m/x";
    ExampleValid();
    ExampleTurns(w);
    ExampleFinish();
    WalkTurn(w, path, Place(false, []), 0, 0, "", Advance(Place(false, [])));
    RestGoesOn(w, path, Place(false, []), 0);
    WalkTurn(w, path, Place(false, []), 1, 2, "r", Advance(Place(true, [])));
    RestGoesOn(w, path, Place(true, []), 2);
    WalkTurn(w, path, Place(true, []), 3, 4, "m", Advance(Place(true, ["m"])));
    RestGoesOn(w, path, Place(true, ["m"]), 4);
    WalkTurn(w, path, Place(true, ["m"]), 5, 6, "x", Advance(Place(true, ["m", "x"])));
    RestDone(w, path, Place(true, ["m", "x"]), 6);
  }

  /** On /b/x, through the link below the mount directory, `resolve` throws. */
  lemma LinkBelowThrows()
    ensures var w := Setting(Example, ["m"], true);
            w.Valid() && Walk(w, "/b/x", Place(false, []), 0) == Threw
  {
    hide Example, Setting.Valid, TurnAt, Finish, Walk, Rest;
    var w, path := Setting(Example, ["m"], true), "/b/x";
    ExampleValid();
    ExampleTurns(w);
    WalkTurn(w, path, Place(false, []), 0, 0, "", Advance(Place(false, [])));
    RestGoesOn(w, path, Place(false, []), 0);
    WalkTurn(w, path, Place(false, []), 1, 2, "b", Fault);
  }

  // ---------------------------------------------------------------- the two resolvers

  /** No name entered on the way, outside the mount directory, is a link that is followed. */
  ghost predicate Straight(w: Setting, st: seq<string>, cs: seq<string>)
    decreases |cs|
  {
    cs == [] ||
    (&& (Pushes(cs[0]) && !(w.mc <= st) ==> !Follows(w.lstat(Join(Step(st, cs[0]))), |cs| > 1, w.last))
     && Straight(w, Step(st, cs[0]), cs[1..]))
  }

  lemma StraightTurn(w: Setting, st: seq<string>, c: string, more: bool)
    requires Pushes(c) && !(w.mc <= st) ==> !Follows(w.lstat(Join(Step(st, c))), more, w.last)
    ensures Moved(Place(false, st), c) == Place(false, Step(st, c))
    ensures var turn := TurnAt(w, Place(false, st), c, more);
            turn.Halt? || turn == Advance(Place(false, Step(st, c)))
  {
    hide Join, Follows;
    assert Spelling(Place(false, Step(st, c))) == Join(Step(st, c));
  }

  /** A path on which no link is followed leads where it says. */
  lemma {:induction false} StraightIsLexical(w: Setting, st: seq<string>, cs: seq<string>)
    requires Straight(w, st, cs)
    ensures var way := Reached(w, Place(false, st), cs);
            way.0 != Thrown && way.1 == Place(false, Fold(st, cs))
    decreases |cs|
  {
    hide TurnAt, Moved, Step, Join, Follows, Pushes;
    if cs != [] {
      StraightTurn(w, st, cs[0], |cs| > 1);
      StraightIsLexical(w, Step(st, cs[0]), cs[1..]);
    }
  }

  function Paired(r: (bool, string)): Outcome {
    Answer(r.0, r.1)
  }

  lemma FinishIsClassify(mc: seq<string>, st: seq<string>)
    requires mc != [] && Proper(mc) && Proper(st)
    ensures Join(mc) != ""
    ensures Finish(mc, Place(false, st)) == Paired(Classify(Join(mc), st)) <==> !(Join(mc) <= Join(st) && !(mc <= st))
  {
    hide Join, Erase;
    JoinShape(mc);
    PrefixAtBoundary(mc, st);
    assert Spelling(Place(false, st)) == Join(st);
  }

  /** On every path that the legacy resolver can walk without following a link the two resolvers
      answer alike, except exactly when the canonical path continues the mount directory's string
      inside a component. */
  lemma ResolversAgreeIff(w: Setting, path: string)
    requires w.Valid() && Straight(w, [], Components(path))
    requires Reached(w, Place(false, []), Components(path)).0 == Free
    ensures Join(w.mc) != ""
    ensures Walk(w, path, Place(false, []), 0) == Paired(Classify(Join(w.mc), Canonical(path))) <==>
            !(Join(w.mc) <= Join(Canonical(path)) && !(w.mc <= Canonical(path)))
  {
    hide Components, Fold, Finish, Join, Reached, Walk, Classify, Straight;
    assert path[0..] == path;
    WalkReaches(w, path, Place(false, []), 0);
    StraightIsLexical(w, [], Components(path));
    CanonicalIsProper(path);
    FinishIsClassify(w.mc, Canonical(path));
  }
}
