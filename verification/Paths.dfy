/** Path strings, as the path type splits them, and the component lists behind them. */
module Paths {
  import opened Pages

  // ----- strings -----

  predicate NoSlash(s: string) {
    forall i | 0 <= i < |s| :: s[i] != '/'
  }

  /** `split_once('/')`: around the first slash. */
  function SplitOnce(s: string): Option<(string, string)> {
    if s == "" then None
    else if s[0] == '/' then Some(("", s[1..]))
    else match SplitOnce(s[1..])
      case None => None
      case Some((top, rest)) => Some(([s[0]] + top, rest))
  }

  /** `rsplit_once('/')`: around the last slash. */
  function RSplitOnce(s: string): Option<(string, string)> {
    if s == "" then None
    else
      var front, last := s[..|s| - 1], s[|s| - 1];
      if last == '/' then Some((front, ""))
      else match RSplitOnce(front)
        case None => None
        case Some((rest, name)) => Some((rest, name + [last]))
  }

  // ----- paths -----

  predicate HasRoot(p: string) {
    "/" <= p
  }

  predicate IsRoot(p: string) {
    p == "/"
  }

  function Parent(p: string): Option<string> {
    match RSplitOnce(p)
    case None => None
    case Some((parent, _)) => Some(if parent == "" then "/" else parent)
  }

  function TopFolder(p: string): Option<string> {
    if HasRoot(p) then Some("/")
    else match SplitOnce(p)
      case None => None
      case Some((top, _)) => Some(top)
  }

  function Filename(p: string): Option<string> {
    match Parent(p)
    case None => None
    case Some(parent) =>
      if parent == p then None
      else match RSplitOnce(p)
        case None => None
        case Some((_, name)) => Some(name)
  }

  function SplitFromTop(p: string): Option<(string, string)> {
    SplitOnce(p)
  }

  function RelativeTo(p: string, base: string): Option<string> {
    if base <= p then
      Some(WithoutSlash(p[|base|..]))
    else None
  }

  /** `strip_prefix("/")`, or the string itself. */
  function WithoutSlash(s: string): string {
    if "/" <= s then s[1..] else s
  }

  // ----- component lists -----

  function Components(s: string): (cs: seq<string>)
    ensures |cs| >= 1
    decreases |s|
  {
    match SplitOnce(s)
    case None => [s]
    case Some((top, rest)) => SplitShortens(s); [top] + Components(rest)
  }

  function Join(cs: seq<string>): string
    requires |cs| >= 1
  {
    if |cs| == 1 then cs[0] else cs[0] + "/" + Join(cs[1..])
  }

  /** The absolute path with the given components. */
  function Absolute(cs: seq<string>): string {
    if cs == [] then "/" else "/" + Join(cs)
  }

  ghost predicate AllNoSlash(cs: seq<string>) {
    forall i | 0 <= i < |cs| :: NoSlash(cs[i])
  }

  /** Components of an absolute path that does not start with a double slash. */
  ghost predicate Plain(cs: seq<string>) {
    AllNoSlash(cs) && (cs != [] ==> cs[0] != "")
  }

  /** The components of an absolute path. */
  function Names(p: string): seq<string>
    requires HasRoot(p)
  {
    if p == "/" then [] else Components(p[1..])
  }

  predicate DoubleSlash(p: string) {
    "//" <= p
  }

  // ----- splitting -----

  lemma {:induction false} SplitMeaning(s: string)
    ensures match SplitOnce(s)
            case None => NoSlash(s)
            case Some((top, rest)) => s == top + "/" + rest && NoSlash(top)
  {
    if s != "" && s[0] != '/' {
      SplitMeaning(s[1..]);
      assert s == [s[0]] + s[1..];
    }
  }

  lemma SplitShortens(s: string)
    ensures SplitOnce(s).Some? ==> |SplitOnce(s).value.1| < |s|
  {
    SplitMeaning(s);
  }

  lemma {:induction false} SplitAt(top: string, rest: string)
    requires NoSlash(top)
    ensures SplitOnce(top + "/" + rest) == Some((top, rest))
  {
    var s := top + "/" + rest;
    if top == "" {
      assert s[1..] == rest;
    } else {
      SplitAt(top[1..], rest);
      assert s[1..] == top[1..] + "/" + rest;
      assert [top[0]] + top[1..] == top;
    }
  }

  lemma {:induction false} NothingToSplit(s: string)
    requires NoSlash(s)
    ensures SplitOnce(s) == None && RSplitOnce(s) == None
  {
    if s != "" {
      NothingToSplit(s[1..]);
      NothingToSplit(s[..|s| - 1]);
    }
  }

  lemma {:induction false} RSplitAt(front: string, name: string)
    requires NoSlash(name)
    ensures RSplitOnce(front + "/" + name) == Some((front, name))
  {
    var s := front + "/" + name;
    if name == "" {
      assert s[..|s| - 1] == front;
    } else {
      var shorter := name[..|name| - 1];
      RSplitAt(front, shorter);
      assert s[..|s| - 1] == front + "/" + shorter;
      assert shorter + [name[|name| - 1]] == name;
    }
  }

  /** Parent and filename are what lies before and after the last slash. */
  lemma AroundLastSlash(p: string, front: string, name: string)
    requires p == front + "/" + name && NoSlash(name)
    ensures Parent(p) == Some(if front == "" then "/" else front)
    ensures Filename(p) == if p == "/" then None else Some(name)
  {
    hide RSplitOnce, NoSlash;
    RSplitAt(front, name);
    assert |p| == |front| + 1 + |name|;
  }

  /** The last slash of a string that has one. */
  lemma {:induction false} LastSlash(p: string) returns (front: string, name: string)
    requires '/' in p
    ensures p == front + "/" + name && NoSlash(name)
  {
    var shorter, last := p[..|p| - 1], p[|p| - 1];
    assert p == shorter + [last];
    if last == '/' {
      front, name := shorter, "";
    } else {
      front, name := LastSlash(shorter);
      name := name + [last];
    }
  }

  lemma RootIsSlash(p: string)
    ensures HasRoot(p) ==> '/' in p
  {
    if HasRoot(p) {
      assert p[0] == '/';
    }
  }

  /** Exactly the strings without a slash have no parent; they have no filename and nothing to split off
      either. */
  lemma NoParentIff(p: string)
    ensures Parent(p) == None <==> '/' !in p
    ensures '/' !in p ==> Filename(p) == None && SplitFromTop(p) == None && TopFolder(p) == None
    ensures '/' in p ==> (Filename(p) == None <==> p == "/")
  {
    hide SplitOnce, RSplitOnce;
    RootIsSlash(p);
    if '/' in p {
      var front, name := LastSlash(p);
      AroundLastSlash(p, front, name);
    } else {
      NothingToSplit(p);
    }
  }

  /** `relative_to` on any two strings: what follows the base, without one slash in front. */
  lemma RelativeToMeaning(p: string, base: string, rest: string)
    ensures RelativeTo(p, base) == Some(rest) <==>
            p == base + "/" + rest || (p == base + rest && (rest == "" || rest[0] != '/'))
    ensures RelativeTo(p, base) == None <==> !(base <= p)
  {
    if base <= p {
      var tail := p[|base|..];
      assert p == base + tail;
      if tail != "" && tail[0] == '/' {
        assert tail == "/" + tail[1..];
        assert p == base + "/" + tail[1..];
      }
      if p == base + "/" + rest {
        assert tail == "/" + rest;
      }
      if p == base + rest {
        assert tail == rest;
      }
    }
  }

  // ----- components and joining -----

  lemma {:induction false} JoinOfComponents(s: string)
    ensures Join(Components(s)) == s && AllNoSlash(Components(s))
    decreases |s|
  {
    SplitMeaning(s);
    match SplitOnce(s)
    case None =>
    case Some((top, rest)) =>
      JoinOfComponents(rest);
      assert Components(s)[1..] == Components(rest);
  }

  lemma {:induction false} ComponentsOfJoin(cs: seq<string>)
    requires |cs| >= 1 && AllNoSlash(cs)
    ensures Components(Join(cs)) == cs
  {
    if |cs| == 1 {
      NothingToSplit(cs[0]);
    } else {
      SplitAt(cs[0], Join(cs[1..]));
      ComponentsOfJoin(cs[1..]);
      assert cs == [cs[0]] + cs[1..];
    }
  }

  lemma {:induction false} JoinAppend(cs: seq<string>, name: string)
    requires |cs| >= 1
    ensures Join(cs + [name]) == Join(cs) + "/" + name
  {
    if |cs| == 1 {
      assert (cs + [name])[1..] == [name];
    } else {
      JoinAppend(cs[1..], name);
      assert (cs + [name])[1..] == cs[1..] + [name];
    }
  }

  // ----- what the path operations do to components -----

  /** Every absolute path that does not start with a double slash is the path of its names. */
  lemma PlainPath(p: string)
    requires HasRoot(p) && !DoubleSlash(p)
    ensures Plain(Names(p)) && Absolute(Names(p)) == p
  {
    if p != "/" {
      var rest := p[1..];
      assert p == "/" + rest;
      JoinOfComponents(rest);
      var cs := Components(rest);
      assert rest != "" && rest[0] != '/';
      assert |cs| > 1 ==> rest[|cs[0]|] == '/';
    }
  }

  lemma NamesOfAbsolute(cs: seq<string>)
    requires Plain(cs)
    ensures HasRoot(Absolute(cs)) && !DoubleSlash(Absolute(cs)) && Names(Absolute(cs)) == cs
    ensures Absolute(cs) == "/" <==> cs == []
  {
    if cs != [] {
      var p := Absolute(cs);
      assert p[1..] == Join(cs);
      ComponentsOfJoin(cs);
      assert Join(cs)[0] == cs[0][0];
      assert p[1] == cs[0][0];
    }
  }

  /** `parent` drops the last component, `filename` is the last component, and joining them gives the
      path back. */
  lemma ParentAndFilename(cs: seq<string>, name: string)
    requires Plain(cs + [name])
    ensures Plain(cs)
    ensures Parent(Absolute(cs + [name])) == Some(Absolute(cs))
    ensures Filename(Absolute(cs + [name])) == Some(name)
    ensures Absolute(cs + [name]) == Absolute(cs) + (if cs == [] then "" else "/") + name
  {
    var all := cs + [name];
    assert NoSlash(all[|cs|]);
    assert forall i | 0 <= i < |cs| :: cs[i] == all[i];
    var p := Absolute(all);
    if cs == [] {
      assert all == [name];
      assert p == "" + "/" + name;
      RSplitAt("", name);
    } else {
      JoinAppend(cs, name);
      assert p == Absolute(cs) + "/" + name;
      RSplitAt(Absolute(cs), name);
    }
  }

  /** The root is its own parent and has no filename. */
  lemma RootPath()
    ensures Parent("/") == Some("/") && Filename("/") == None && SplitFromTop("/") == Some(("", ""))
    ensures Absolute([]) == "/"
  {
    assert "/"[..0] == "" == "/"[1..];
  }

  /** `split_from_top` takes the root off an absolute path and then one component at a time. */
  lemma SplitsFromTop(name: string, cs: seq<string>)
    requires Plain([name] + cs)
    ensures SplitFromTop(Absolute([name] + cs)) == Some(("", Join([name] + cs)))
    ensures SplitFromTop(Join([name] + cs)) == if cs == [] then None else Some((name, Join(cs)))
    ensures RelativeTo(Absolute([name] + cs), "/") == Some(Join([name] + cs))
  {
    var all := [name] + cs;
    assert NoSlash(all[0]) && all[0] == name && all[1..] == cs;
    assert Absolute(all) == "" + "/" + Join(all);
    SplitAt("", Join(all));
    assert Absolute(all)[1..] == Join(all);
    assert Join(all)[0] == name[0];
    if cs == [] {
      NothingToSplit(name);
    } else {
      SplitAt(name, Join(cs));
    }
  }

  /** `top_folder` is the root of an absolute path and the first of several components of a relative one. */
  lemma TopFolderOf(name: string, cs: seq<string>)
    requires Plain([name] + cs)
    ensures TopFolder(Absolute([name] + cs)) == Some("/")
    ensures TopFolder(Join([name] + cs)) == if cs == [] then None else Some(name)
  {
    var all := [name] + cs;
    SplitsFromTop(name, cs);
    assert Absolute(all)[0] == '/';
    assert all[1..] == cs;
    assert NoSlash(all[0]);
    assert Join(all)[0] == name[0];
  }

  lemma {:induction false} JoinConcat(p: seq<string>, q: seq<string>)
    requires p != [] && q != []
    ensures Join(p + q) == Join(p) + "/" + Join(q)
  {
    if |p| == 1 {
      assert (p + q)[1..] == q;
    } else {
      JoinConcat(p[1..], q);
      assert (p + q)[1..] == p[1..] + q;
    }
  }

  lemma DropPrefix(base: string, rest: string)
    ensures base <= base + rest && (base + rest)[|base|..] == rest
  {
  }

  /** Relative to an ancestor, a path is the rest of its components. */
  lemma RelativeToAncestor(p: seq<string>, q: seq<string>)
    requires p != [] && q != []
    ensures RelativeTo(Absolute(p + q), Absolute(p)) == Some(Join(q))
  {
    hide Join;
    JoinConcat(p, q);
    var whole, base := Absolute(p + q), Absolute(p);
    assert whole == base + ("/" + Join(q));
    DropPrefix(base, "/" + Join(q));
    DropPrefix("/", Join(q));
  }

  /** The components of `base` but the last are the first ones of `cs`, and its last is the beginning of
      the component there, all of it or not. */
  predicate Stem(base: seq<string>, cs: seq<string>)
    requires |base| >= 1 && |cs| >= 1
  {
    if |base| == 1 then base[0] <= cs[0]
    else |cs| >= 2 && base[0] == cs[0] && Stem(base[1..], cs[1..])
  }

  /** What is left of the component there, and the components after it. */
  function Remainder(base: seq<string>, cs: seq<string>): (rest: seq<string>)
    requires |base| >= 1 && |cs| >= 1 && Stem(base, cs)
    ensures |rest| >= 1
  {
    if |base| == 1 then [cs[0][|base[0]|..]] + cs[1..] else Remainder(base[1..], cs[1..])
  }

  /** Where the first slash of a joined path is. */
  lemma FirstSlash(cs: seq<string>)
    requires |cs| >= 1 && AllNoSlash(cs)
    ensures |cs| == 1 ==> Join(cs) == cs[0]
    ensures |cs| > 1 ==> Join(cs) == cs[0] + "/" + Join(cs[1..]) && Join(cs)[|cs[0]|] == '/'
    ensures cs[0] <= Join(cs)
  {
  }

  lemma NoSlashPrefix(a: string, t: string, k: nat)
    requires NoSlash(a) && a <= t && k < |t| && t[k] == '/'
    ensures |a| <= k
  {
    assert forall i | 0 <= i < |a| :: a[i] == t[i] && a[i] != '/';
  }

  lemma NoSlashNoPrefix(a: string, x: string, t: string)
    requires NoSlash(t)
    ensures !(a + "/" + x <= t)
  {
    assert (a + "/" + x)[|a|] == '/';
  }

  lemma PrefixOfFirst(s: string, cs: seq<string>)
    requires NoSlash(s) && |cs| >= 1 && AllNoSlash(cs)
    ensures s <= Join(cs) <==> s <= cs[0]
  {
    hide Join;
    FirstSlash(cs);
    if s <= Join(cs) && |cs| > 1 {
      NoSlashPrefix(s, Join(cs), |cs[0]|);
      assert s == Join(cs)[..|s|] == cs[0][..|s|];
    }
  }

  lemma {:induction false} JoinUnfolds(cs: seq<string>)
    requires |cs| >= 1
    ensures Join(cs) == if |cs| == 1 then cs[0] else cs[0] + ("/" + Join(cs[1..]))
  {
    if |cs| > 1 {
      assert Join(cs) == cs[0] + "/" + Join(cs[1..]);
    }
  }

  lemma CutPrefix(s: string, c: string, tail: string)
    requires s <= c
    ensures (c + tail)[|s|..] == c[|s|..] + tail
  {
  }

  lemma OneComponentStem(s: string, cs: seq<string>)
    requires NoSlash(s) && |cs| >= 1 && AllNoSlash(cs)
    ensures s <= Join(cs) <==> s <= cs[0]
    ensures s <= cs[0] ==> Join(cs)[|s|..] == Join([cs[0][|s|..]] + cs[1..])
  {
    hide Join;
    PrefixOfFirst(s, cs);
    if s <= cs[0] {
      var rest := [cs[0][|s|..]] + cs[1..];
      assert rest[1..] == cs[1..];
      JoinUnfolds(cs);
      JoinUnfolds(rest);
      if |cs| > 1 {
        CutPrefix(s, cs[0], "/" + Join(cs[1..]));
      }
    }
  }

  lemma {:induction false} StemIsPrefix(base: seq<string>, cs: seq<string>)
    requires |base| >= 1 && |cs| >= 1 && AllNoSlash(base) && AllNoSlash(cs)
    ensures Join(base) <= Join(cs) <==> Stem(base, cs)
    ensures Stem(base, cs) ==> Join(cs)[|Join(base)|..] == Join(Remainder(base, cs))
    decreases |base|
  {
    if |base| == 1 {
      OneComponentStem(base[0], cs);
    } else {
      FirstSlash(base);
      FirstSlash(cs);
      if |cs| > 1 {
        StemIsPrefix(base[1..], cs[1..]);
        SplitPrefix(base[0], Join(base[1..]), cs[0], Join(cs[1..]));
      } else {
        NoSlashNoPrefix(base[0], Join(base[1..]), cs[0]);
      }
    }
  }

  /** Prefixes around the first slash. */
  lemma SplitPrefix(a: string, x: string, b: string, y: string)
    requires NoSlash(a) && NoSlash(b)
    ensures a + "/" + x <= b + "/" + y <==> a == b && x <= y
    ensures a == b && x <= y ==> (b + "/" + y)[|a + "/" + x|..] == y[|x|..]
  {
    var s, t := a + "/" + x, b + "/" + y;
    if s <= t {
      assert s[|a|] == t[|a|] == '/' && t[|b|] == '/';
      assert a == s[..|a|] == t[..|a|] && b == t[..|b|];
      NoSlashPrefix(a, t, |b|);
      NoSlashPrefix(b, t, |a|);
      assert x == s[|a| + 1..] && y == t[|a| + 1..];
    }
    if a == b && x <= y {
      assert t == s + y[|x|..];
    }
  }

  /** `relative_to` answers exactly when the base is a stem of the path: it compares strings, so the last
      component of the base may end inside a component of the path. The answer is what is left, without
      the slash in front. */
  lemma RelativeToIff(base: seq<string>, cs: seq<string>)
    requires |base| >= 1 && |cs| >= 1 && AllNoSlash(base) && AllNoSlash(cs)
    ensures RelativeTo(Absolute(cs), Absolute(base)).Some? <==> Stem(base, cs)
    ensures Stem(base, cs) ==>
              var rest := Remainder(base, cs);
              RelativeTo(Absolute(cs), Absolute(base)) ==
              Some(if |rest| > 1 && rest[0] == "" then Join(rest[1..]) else Join(rest))
  {
    hide Join, Absolute, Stem, Remainder, WithoutSlash;
    StemOfAbsolute(base, cs);
    if Stem(base, cs) {
      StrippedRemainder(base, cs);
    }
  }

  lemma {:induction false} StemOfAbsolute(base: seq<string>, cs: seq<string>)
    requires |base| >= 1 && |cs| >= 1 && AllNoSlash(base) && AllNoSlash(cs)
    ensures Absolute(base) <= Absolute(cs) <==> Stem(base, cs)
    ensures Stem(base, cs) ==> Absolute(cs)[|Absolute(base)|..] == Join(Remainder(base, cs))
  {
    hide Join, Stem, Remainder;
    StemIsPrefix(base, cs);
    SplitPrefix("", Join(base), "", Join(cs));
    assert Absolute(base) == "" + "/" + Join(base);
    assert Absolute(cs) == "" + "/" + Join(cs);
  }

  lemma StrippedRemainder(base: seq<string>, cs: seq<string>)
    requires |base| >= 1 && |cs| >= 1 && AllNoSlash(base) && AllNoSlash(cs) && Stem(base, cs)
    ensures var rest := Remainder(base, cs);
            WithoutSlash(Join(rest)) == if |rest| > 1 && rest[0] == "" then Join(rest[1..]) else Join(rest)
  {
    RemainderNoSlash(base, cs);
    JoinWithoutSlash(Remainder(base, cs));
  }

  lemma JoinWithoutSlash(cs: seq<string>)
    requires |cs| >= 1 && AllNoSlash(cs)
    ensures WithoutSlash(Join(cs)) == if |cs| > 1 && cs[0] == "" then Join(cs[1..]) else Join(cs)
  {
    hide Join;
    JoinUnfolds(cs);
    if cs[0] == "" && |cs| > 1 {
      assert Join(cs) == "/" + Join(cs[1..]);
    } else {
      assert cs[0] != "" ==> Join(cs)[0] == cs[0][0];
    }
  }

  lemma {:induction false} RemainderNoSlash(base: seq<string>, cs: seq<string>)
    requires |base| >= 1 && |cs| >= 1 && AllNoSlash(base) && AllNoSlash(cs) && Stem(base, cs)
    ensures AllNoSlash(Remainder(base, cs))
    decreases |base|
  {
    if |base| > 1 {
      RemainderNoSlash(base[1..], cs[1..]);
    }
  }

  /** So a sibling with a longer name counts as below. */
  lemma RelativeToSibling()
    ensures RelativeTo("/usr/foobar", "/usr/foo") == Some("bar")
  {
    assert "/usr/foobar" == "/usr/foo" + "bar";
    DropPrefix("/usr/foo", "bar");
    assert "bar"[0] == 'b';
  }

  /** `parent` applied k times. */
  function Ancestor(p: string, k: nat): Option<string>
    decreases k
  {
    if k == 0 then Some(p)
    else match Parent(p)
      case None => None
      case Some(parent) => Ancestor(parent, k - 1)
  }

  lemma {:induction false} AncestorIsPrefix(cs: seq<string>, k: nat)
    requires Plain(cs)
    ensures Ancestor(Absolute(cs), k) == Some(Absolute(if k < |cs| then cs[..|cs| - k] else []))
    decreases k
  {
    hide Absolute, Parent;
    if k == 0 {
      assert cs[..|cs|] == cs;
    } else if cs == [] {
      RootPath();
      AncestorIsPrefix([], k - 1);
    } else {
      var front, name := cs[..|cs| - 1], cs[|cs| - 1];
      assert cs == front + [name];
      ParentAndFilename(front, name);
      AncestorIsPrefix(front, k - 1);
      assert k < |cs| ==> front[..|front| - (k - 1)] == cs[..|cs| - k];
    }
  }

  /** Going up reaches the root after exactly as many steps as there are components, and stays there. */
  lemma AncestorsReachRoot(cs: seq<string>, k: nat)
    requires Plain(cs)
    ensures Ancestor(Absolute(cs), k) == Some("/") <==> k >= |cs|
  {
    AncestorIsPrefix(cs, k);
    if k < |cs| {
      NamesOfAbsolute(cs[..|cs| - k]);
    }
  }
}
