/** What the comment on pathMatches promises, segment by segment, and exactly when the code
    keeps the promise. A `*` segment stands for any one segment, and a final `**` for whatever
    follows; the code compares the text before `**` as a plain prefix instead. */
module PathCoverage {
  import opened Text
  import opened AclPolicy

  // ---------------------------------------------------------------- prefixes and segments

  /** The first segment of a path, and what comes after its slash. */
  lemma {:induction false} SplitHead(s: string) returns (rest: string)
    ensures var t := Split(s, '/');
      && '/' !in t[0]
      && (|t| == 1 ==> s == t[0])
      && (|t| > 1 ==> s == t[0] + ['/'] + rest && Split(rest, '/') == t[1..])
    decreases |s|
  {
    rest := [];
    if s != [] {
      var t := Split(s, '/');
      if s[0] == '/' {
        rest := s[1..];
        assert s == [] + ['/'] + rest;
      } else {
        var u := Split(s[1..], '/');
        rest := SplitHead(s[1..]);
        assert t[0] == [s[0]] + u[0] && t[1..] == u[1..];
        assert s == [s[0]] + s[1..];
        assert [s[0]] + (u[0] + ['/'] + rest) == [s[0]] + u[0] + ['/'] + rest;
      }
    }
  }

  lemma PrefixOfFirst(a: string, b: string, c: string)
    requires '/' !in a && '/' !in b
    ensures a <= b + ['/'] + c <==> a <= b
  {
    var s := b + ['/'] + c;
    assert s[..|b|] == b && s[|b|] == '/';
    if a <= s {
      assert |a| <= |b|;
      assert a == s[..|a|];
    }
  }

  lemma PrefixPastFirst(a: string, r: string, b: string, c: string)
    requires '/' !in a && '/' !in b
    ensures a + ['/'] + r <= b + ['/'] + c <==> a == b && r <= c
  {
    var x, y := a + ['/'] + r, b + ['/'] + c;
    assert x[..|a|] == a && x[|a|] == '/' && x[|a| + 1..] == r;
    assert y[..|b|] == b && y[|b|] == '/' && y[|b| + 1..] == c;
    if x <= y {
      assert x[|a|] == y[|a|];
      assert |b| <= |a| <= |b|;
      assert a == y[..|a|];
      assert r == y[|b| + 1..][..|r|];
    }
  }

  /** `a` leads `t` when all its segments but the last are `t`'s, and the last begins the
      corresponding one of `t`. */
  predicate Leads(a: seq<string>, t: seq<string>)
    requires |a| >= 1
  {
    var n := |a| - 1;
    n < |t| && a[..n] == t[..n] && a[n] <= t[n]
  }

  /** A textual prefix, seen on segments. */
  lemma {:induction false} PrefixSegments(a: seq<string>, target: string)
    requires |a| >= 1 && forall p | p in a :: '/' !in p
    ensures Join(a, '/') <= target <==> Leads(a, Split(target, '/'))
    decreases |a|
  {
    hide Split;
    var t := Split(target, '/');
    var rest := SplitHead(target);
    if |a| == 1 {
      if |t| > 1 {
        PrefixOfFirst(a[0], t[0], rest);
      }
    } else if |t| > 1 {
      PrefixSegments(a[1..], rest);
      PrefixPastFirst(a[0], Join(a[1..], '/'), t[0], rest);
      LeadsTail(a, t);
    } else {
      assert Join(a, '/')[|a[0]|] == '/';
    }
  }

  lemma LeadsTail(a: seq<string>, t: seq<string>)
    requires |a| > 1 && |t| > 1
    ensures Leads(a, t) <==> a[0] == t[0] && Leads(a[1..], t[1..])
  {
    var n := |a| - 1;
    if n < |t| {
      assert a[..n] == [a[0]] + a[1..][..n - 1];
      assert t[..n] == [t[0]] + t[1..][..n - 1];
    }
  }

  // ---------------------------------------------------------------- the documented rule

  /** The segments before a final `**`, and the text before the stars in their own segment. */
  function Base(pattern: string): (r: (seq<string>, string))
    requires HasSuffix(pattern, "**")
  {
    var parts := Split(pattern[..|pattern| - 2], '/');
    (parts[..|parts| - 1], parts[|parts| - 1])
  }

  /** As many segments, each the same unless the pattern's is a star. */
  predicate StarRule(pattern: seq<string>, target: seq<string>) {
    |pattern| == |target| && forall i | 0 <= i < |pattern| :: pattern[i] == "*" || pattern[i] == target[i]
  }

  /** The segments of the base are matched one by one, the segment of the stars begins with
      the text before them, and whatever follows is covered. */
  predicate Covers(dir: seq<string>, stem: string, t: seq<string>) {
    && |dir| <= |t| && StarRule(dir, t[..|dir|])
    && (stem == "" || (|dir| < |t| && stem <= t[|dir|]))
  }

  predicate DocumentedTrimmed(glob: Glob, pattern: string, target: string) {
    if HasSuffix(pattern, "**") then
      var (dir, stem) := Base(pattern);
      Covers(dir, stem, Split(target, '/'))
    else if '*' in pattern then StarRule(Split(pattern, '/'), Split(target, '/'))
    else pattern == target || glob(pattern, target)
  }

  /** The documented match of a rule path and a target path. */
  predicate Documented(glob: Glob, pattern: string, target: string) {
    DocumentedTrimmed(glob, Trim(pattern), Trim(target))
  }

  /** The last segment before a final slash and `**` is the beginning of a longer segment. */
  predicate LongerSegment(dir: seq<string>, stem: string, t: seq<string>) {
    var n := |dir| - 1;
    && stem == "" && 0 <= n < |t|
    && dir[..n] == t[..n] && dir[n] != "*" && dir[n] < t[n]
  }

  /** Star segment `i` stands before `**`, where the code takes it for the character. */
  predicate StarAsText(dir: seq<string>, stem: string, t: seq<string>, i: nat)
    requires i < |dir| <= |t|
  {
    dir[i] == "*" && if stem == "" && i == |dir| - 1 then !("*" <= t[i]) else t[i] != "*"
  }

  /** The base is matched, and one of its star segments matters. */
  predicate StarBeforeDoubleStar(dir: seq<string>, stem: string, t: seq<string>) {
    Covers(dir, stem, t) && exists i | 0 <= i < |dir| :: StarAsText(dir, stem, t, i)
  }

  predicate OverMatches(pattern: string, target: string) {
    HasSuffix(pattern, "**") &&
    var (dir, stem) := Base(pattern);
    LongerSegment(dir, stem, Split(target, '/'))
  }

  predicate UnderMatches(pattern: string, target: string) {
    HasSuffix(pattern, "**") &&
    var (dir, stem) := Base(pattern);
    StarBeforeDoubleStar(dir, stem, Split(target, '/'))
  }

  // ---------------------------------------------------------------- agreement

  /** What the code tests for a final `**`, seen on segments. */
  predicate Tested(dir: seq<string>, stem: string, t: seq<string>) {
    if stem != "" then Leads(dir + [stem], t)
    else if dir == [] then true
    else Leads(dir, t)
  }

  lemma {:induction false} JoinSnoc(dir: seq<string>, last: string)
    requires |dir| >= 1
    ensures Join(dir + [last], '/') == Join(dir, '/') + ['/'] + last
    decreases |dir|
  {
    var all := dir + [last];
    if |dir| == 1 {
      assert all[1..] == [last];
    } else {
      JoinSnoc(dir[1..], last);
      assert all[1..] == dir[1..] + [last];
      assert dir[0] + ['/'] + (Join(dir[1..], '/') + ['/'] + last) == dir[0] + ['/'] + Join(dir[1..], '/') + ['/'] + last;
    }
  }

  lemma CutSlash(s: string)
    ensures TrimSuffix(s + ['/'] + "", "/") == s
  {
    var t := s + ['/'] + "";
    assert t[|s|..] == "/" && t[..|s|] == s;
  }

  lemma NoSlashToCut(s: string, stem: string)
    requires stem != "" && '/' !in stem
    ensures TrimSuffix(s + stem, "/") == s + stem
  {
    var t := s + stem;
    assert t[|t| - 1] == stem[|stem| - 1] && stem[|stem| - 1] in stem;
    assert t[|t| - 1..][0] == t[|t| - 1];
  }

  /** The text left of `**` once its slash is cut. */
  lemma BaseText(text: string, dir: seq<string>, stem: string)
    requires '/' !in stem && text == Join(dir + [stem], '/')
    ensures TrimSuffix(text, "/") == if stem != "" then text else if dir == [] then "" else Join(dir, '/')
  {
    hide Join, TrimSuffix, HasSuffix;
    if dir == [] {
      assert text == [] + stem by { assert Join([] + [stem], '/') == stem by { JoinOne(stem); } }
      if stem != "" {
        NoSlashToCut([], stem);
      } else {
        EmptyCut();
      }
    } else {
      JoinSnoc(dir, stem);
      if stem != "" {
        NoSlashToCut(Join(dir, '/') + ['/'], stem);
      } else {
        CutSlash(Join(dir, '/'));
      }
    }
  }

  lemma JoinOne(s: string)
    ensures Join([] + [s], '/') == s
  {
    assert [] + [s] == [s];
  }

  lemma EmptyCut()
    ensures TrimSuffix("", "/") == ""
  {}

  lemma TestedExactly(glob: Glob, pattern: string, target: string)
    requires HasSuffix(pattern, "**")
    ensures MatchesTrimmed(glob, pattern, target) <==>
      Tested(Base(pattern).0, Base(pattern).1, Split(target, '/'))
  {
    hide Join, Split, Leads;
    var text := pattern[..|pattern| - 2];
    var parts := Split(text, '/');
    var (dir, stem) := Base(pattern);
    assert parts == dir + [stem];
    JoinSplit(text, '/');
    assert stem in parts;
    BaseText(text, dir, stem);
    if stem != "" {
      PrefixSegments(parts, target);
    } else if dir != [] {
      PrefixSegments(dir, target);
    }
  }

  /** On segments: the test and the rule differ exactly in the two ways named. */
  lemma SegmentsAgree(dir: seq<string>, stem: string, t: seq<string>)
    ensures LongerSegment(dir, stem, t) <==> Tested(dir, stem, t) && !Covers(dir, stem, t)
    ensures StarBeforeDoubleStar(dir, stem, t) <==> !Tested(dir, stem, t) && Covers(dir, stem, t)
  {
    var n := |dir|;
    if n <= |t| {
      if stem != "" {
        assert (dir + [stem])[..n] == dir;
        SameUnlessStar(dir, stem, t, n);
      } else if n > 0 {
        assert t[..n][n - 1] == t[n - 1];
        SameUnlessStar(dir, stem, t, n - 1);
        assert dir[n - 1] == "*" && !(dir[n - 1] <= t[n - 1]) ==> StarAsText(dir, stem, t, n - 1);
      }
    }
  }

  /** A matched part of the base is the same text unless a star segment in it matters. */
  lemma SameUnlessStar(dir: seq<string>, stem: string, t: seq<string>, k: nat)
    requires k <= |dir| <= |t| && (stem != "" || k < |dir|)
    ensures dir[..k] == t[..k] ==> forall i | 0 <= i < k :: !StarAsText(dir, stem, t, i)
    ensures dir[..k] == t[..k] ==> forall i | 0 <= i < k :: dir[i] == t[i]
    ensures StarRule(dir, t[..|dir|]) && dir[..k] != t[..k] ==>
      exists i | 0 <= i < |dir| :: StarAsText(dir, stem, t, i)
  {
    if dir[..k] == t[..k] {
      forall i | 0 <= i < k ensures dir[i] == t[i] && !StarAsText(dir, stem, t, i) {
        assert dir[..k][i] == t[..k][i];
      }
    } else if StarRule(dir, t[..|dir|]) {
      var i :| 0 <= i < k && dir[..k][i] != t[..k][i];
      assert t[..|dir|][i] == t[i];
      assert StarAsText(dir, stem, t, i);
    }
  }

  /** The code covers a path against the documented rule exactly when the base's last segment
      is only the beginning of the path's, and fails to cover one exactly when a star segment
      before `**` meets anything but a star. Otherwise, and always without a final `**`, code
      and documentation agree. */
  lemma DocumentedExactly(glob: Glob, pattern: string, target: string)
    ensures OverMatches(Trim(pattern), Trim(target)) <==>
      Matches(glob, pattern, target) && !Documented(glob, pattern, target)
    ensures UnderMatches(Trim(pattern), Trim(target)) <==>
      !Matches(glob, pattern, target) && Documented(glob, pattern, target)
  {
    hide Trim, Split, Covers, LongerSegment, StarBeforeDoubleStar, Tested;
    var p, t := Trim(pattern), Trim(target);
    if HasSuffix(p, "**") {
      hide MatchesTrimmed;
      TestedExactly(glob, p, t);
      SegmentsAgree(Base(p).0, Base(p).1, Split(t, '/'));
    }
  }

  // ---------------------------------------------------------------- patterns with stars only

  lemma {:induction false} SplitJoin(parts: seq<string>)
    requires |parts| >= 1 && forall p | p in parts :: '/' !in p
    ensures Split(Join(parts, '/'), '/') == parts
    decreases |parts|
  {
    hide Split;
    if |parts| == 1 {
      SplitWhole(parts[0], '/');
    } else {
      SplitJoin(parts[1..]);
      SplitFirst(parts[0], Join(parts[1..], '/'), '/');
      assert parts == [parts[0]] + parts[1..];
    }
  }

  lemma {:induction false} JoinHas(parts: seq<string>, i: nat, c: char)
    requires i < |parts| && c in parts[i]
    ensures c in Join(parts, '/')
    decreases |parts|
  {
    if |parts| > 1 && i > 0 {
      JoinHas(parts[1..], i - 1, c);
    }
  }

  /** A pattern with stars, none of them a final `**`, matches exactly the paths with as many
      segments that agree with it wherever it has no star. */
  lemma StarSegments(glob: Glob, pattern: seq<string>, target: seq<string>, star: nat)
    requires |pattern| >= 1 && |target| >= 1
    requires (forall p | p in pattern :: '/' !in p) && (forall p | p in target :: '/' !in p)
    requires Trim(Join(pattern, '/')) == Join(pattern, '/') && Trim(Join(target, '/')) == Join(target, '/')
    requires star < |pattern| && '*' in pattern[star] && !HasSuffix(Join(pattern, '/'), "**")
    ensures Matches(glob, Join(pattern, '/'), Join(target, '/')) <==>
      |pattern| == |target| && forall i | 0 <= i < |pattern| :: pattern[i] == "*" || pattern[i] == target[i]
  {
    hide Trim, Split, Join, HasSuffix;
    SplitJoin(pattern);
    SplitJoin(target);
    JoinHas(pattern, star, '*');
  }

  // ---------------------------------------------------------------- witnesses

  /** A rule for everything below `secret` covers `secrets/x` too. */
  lemma LongerSegmentWitness(glob: Glob)
    ensures Matches(glob, "secret/**", "secrets/x") && !Documented(glob, "secret/**", "secrets/x")
  {
    var p, t := "secret/**", "secrets/x";
    assert Trim(p) == p && Trim(t) == t;
    assert p[7..] == "**" && p[..7] == "secret" + ['/'] + "";
    SplitFirst("secret", "", '/');
    assert t == "secrets" + ['/'] + "x";
    SplitFirst("secrets", "x", '/');
    SplitWhole("x", '/');
    assert ["secret", ""][..1] == ["secret"];
    assert Base(p) == (["secret"], "");
    assert "secrets"[..6] == "secret";
    assert LongerSegment(["secret"], "", ["secrets", "x"]);
    hide Trim, Split, Base, LongerSegment, Matches, Documented;
    DocumentedExactly(glob, p, t);
  }

  /** A star segment before `**` covers no path with an ordinary segment in its place. */
  lemma StarBaseWitness(glob: Glob)
    ensures !Matches(glob, "a/*/**", "a/b/c") && Documented(glob, "a/*/**", "a/b/c")
  {
    var p, t := "a/*/**", "a/b/c";
    assert Trim(p) == p && Trim(t) == t;
    assert p[4..] == "**" && p[..4] == "a" + ['/'] + "*" + ['/'] + "";
    SplitThree("a", "*", "", '/');
    assert t == "a" + ['/'] + "b" + ['/'] + "c";
    SplitThree("a", "b", "c", '/');
    assert ["a", "*", ""][..2] == ["a", "*"];
    assert Base(p) == (["a", "*"], "");
    assert Covers(["a", "*"], "", ["a", "b", "c"]);
    assert StarAsText(["a", "*"], "", ["a", "b", "c"], 1);
    hide Trim, Split, Base, Covers, StarAsText, Matches, Documented;
    DocumentedExactly(glob, p, t);
  }
}
