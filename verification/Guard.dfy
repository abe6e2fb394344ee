/**
  The studio's path guard. Absolute paths are lists of segments; the checkout
  holds no symbolic links, so canonicalising a path is resolving its dots.
 */
module Guard {
  import opened Separated
  import opened Glob

  datatype Reason = NotAPath | Absolute | OutsideCheckout | GitDir | NotAllowlisted

  datatype Verdict = Allowed(rel: string, abs: seq<string>) | Refused(reason: Reason)

  /** `path.resolve`: empty and `.` segments vanish, `..` goes up and stops at the root. */
  function Resolve(base: seq<string>, parts: seq<string>): seq<string>
    decreases |parts|
  {
    if parts == [] then base
    else
      var p := parts[0];
      var next := if p == "" || p == "." then base
                  else if p == ".." then (if base == [] then [] else base[..|base| - 1])
                  else base + [p];
      Resolve(next, parts[1..])
  }

  function Lower(c: char): char { if 'A' <= c <= 'Z' then c + 32 as char else c }

  /** A segment that reads `.git` in any case. */
  predicate IsGitDir(p: string) {
    |p| == 4 && p[0] == '.' && Lower(p[1]) == 'g' && Lower(p[2]) == 'i' && Lower(p[3]) == 't'
  }

  predicate Admits(allowlist: seq<string>, posix: string) {
    exists k :: 0 <= k < |allowlist| && PatternAccepts(allowlist[k], posix)
  }

  predicate DriveLetter(s: string) { |s| >= 2 && ('A' <= s[0] <= 'Z' || 'a' <= s[0] <= 'z') && s[1] == ':' }

  function Check(root: seq<string>, requested: string, allowlist: seq<string>): Verdict {
    if requested == "" || '\0' in requested then Refused(NotAPath)
    else if requested[0] == '/' || DriveLetter(requested) then Refused(Absolute)
    else
      var abs := Resolve(root, Split(requested, '/'));
      if !(root < abs) || ".." <= abs[|root|] then Refused(OutsideCheckout)
      else
        var parts := abs[|root|..];
        if exists i :: 0 <= i < |parts| && IsGitDir(parts[i]) then Refused(GitDir)
        else
          var posix := Join(parts, '/');
          if Admits(allowlist, posix) then Allowed(posix, abs) else Refused(NotAllowlisted)
  }

  /** A segment that names an entry of its directory. */
  predicate Proper(p: string) { p != "" && p != "." && p != ".." && Free(p, '/') }

  ghost predicate AllProper(parts: seq<string>) { forall i :: 0 <= i < |parts| ==> Proper(parts[i]) }

  lemma {:induction false} ResolveIsProper(base: seq<string>, parts: seq<string>)
    requires AllProper(base) && forall i :: 0 <= i < |parts| ==> Free(parts[i], '/')
    ensures AllProper(Resolve(base, parts))
    decreases |parts|
  {
    if parts != [] {
      var p := parts[0];
      var next := if p == "" || p == "." then base
                  else if p == ".." then (if base == [] then [] else base[..|base| - 1])
                  else base + [p];
      ResolveIsProper(next, parts[1..]);
    }
  }

  lemma {:induction false} ResolveProperParts(base: seq<string>, parts: seq<string>)
    requires AllProper(parts)
    ensures Resolve(base, parts) == base + parts
    decreases |parts|
  {
    if parts != [] {
      ResolveProperParts(base + [parts[0]], parts[1..]);
      assert base + [parts[0]] + parts[1..] == base + parts;
    } else {
      assert base + parts == base;
    }
  }

  /**
    Containment: whatever was requested, an allowed path is the checkout's root
    plus the proper segments of `rel`, none of them a git directory, and some
    glob of the allowlist matches it.
   */
  lemma AllowedIsInside(root: seq<string>, requested: string, allowlist: seq<string>)
    requires AllProper(root) && Check(root, requested, allowlist).Allowed?
    ensures var v := Check(root, requested, allowlist);
      && v.abs == root + Split(v.rel, '/')
      && (forall i :: 0 <= i < |Split(v.rel, '/')| ==> Proper(Split(v.rel, '/')[i]) && !IsGitDir(Split(v.rel, '/')[i]))
      && exists k :: 0 <= k < |allowlist| && GlobMatches(allowlist[k], v.rel, 0)
  {
    var v := Check(root, requested, allowlist);
    var parts := v.abs[|root|..];
    ResolveIsProper(root, Split(requested, '/'));
    SplitOfJoin(parts, '/');
    assert v.abs == root + parts;
    AdmittedMatches(allowlist, v.rel);
  }

  lemma AdmittedMatches(allowlist: seq<string>, posix: string)
    requires Admits(allowlist, posix)
    ensures exists k :: 0 <= k < |allowlist| && GlobMatches(allowlist[k], posix, 0)
  {
    var k :| 0 <= k < |allowlist| && PatternAccepts(allowlist[k], posix);
    PatternMeansGlob(allowlist[k], posix);
  }

  /** A path as git reports it: proper segments joined by slashes. */
  ghost predicate Canonical(rel: string) { AllProper(Split(rel, '/')) }

  /** The guard leaves a canonical path as it is. */
  lemma CanonicalStays(root: seq<string>, rel: string, allowlist: seq<string>)
    requires Canonical(rel) && Check(root, rel, allowlist).Allowed?
    ensures Check(root, rel, allowlist).rel == rel
  {
    var parts := Split(rel, '/');
    ResolveProperParts(root, parts);
    assert (root + parts)[|root|..] == parts;
    JoinOfSplit(rel, '/');
  }

  /** Some glob of the allowlist matches `path`. */
  ghost predicate SomeGlobMatches(allowlist: seq<string>, path: string) {
    exists k :: 0 <= k < |allowlist| && GlobMatches(allowlist[k], path, 0)
  }

  lemma AdmitsIffGlobMatches(allowlist: seq<string>, path: string)
    requires OneLine(path)
    ensures Admits(allowlist, path) <==> SomeGlobMatches(allowlist, path)
  {
    hide GlobMatches, RegExpTest, Pattern, ParseRegExp;
    if Admits(allowlist, path) { AdmittedMatches(allowlist, path); }
    if k :| 0 <= k < |allowlist| && GlobMatches(allowlist[k], path, 0) {
      PatternMeansGlob(allowlist[k], path);
      PatternParses(allowlist[k]);
    }
  }

  lemma CanonicalResolves(root: seq<string>, rel: string)
    requires Canonical(rel)
    ensures rel != "" && rel[0] != '/'
    ensures var abs := Resolve(root, Split(rel, '/')); root < abs && abs[|root|..] == Split(rel, '/')
    ensures Join(Split(rel, '/'), '/') == rel
  {
    var parts := Split(rel, '/');
    ResolveProperParts(root, parts);
    assert (root + parts)[|root|..] == parts;
    JoinOfSplit(rel, '/');
    assert Proper(parts[0]);
  }

  /**
    The guard decides a one-line path as git reports it exactly by the
    allowlist's globs, once it is free of NULs, a drive letter, a leading `..`
    and git directories.
   */
  lemma CanonicalIsAllowedIff(root: seq<string>, rel: string, allowlist: seq<string>)
    requires Canonical(rel) && OneLine(rel)
    ensures Check(root, rel, allowlist).Allowed? <==>
      && '\0' !in rel && !DriveLetter(rel) && !(".." <= Split(rel, '/')[0])
      && (forall i :: 0 <= i < |Split(rel, '/')| ==> !IsGitDir(Split(rel, '/')[i]))
      && SomeGlobMatches(allowlist, rel)
  {
    CanonicalResolves(root, rel);
    AdmitsIffGlobMatches(allowlist, rel);
    hide Resolve, Split, Join, IsGitDir, Admits, SomeGlobMatches, Canonical, OneLine;
    var parts, abs := Split(rel, '/'), Resolve(root, Split(rel, '/'));
    assert abs[|root|] == abs[|root|..][0];
  }

  // ------------------------------------------------------- the verdict on any request

  /** One more segment: nothing for an empty one or a dot, one up for two dots, else one down. */
  lemma {:induction false} OneMoreSegment(base: seq<string>, parts: seq<string>, p: string)
    ensures var r := Resolve(base, parts);
      Resolve(base, parts + [p]) ==
        if p == "" || p == "." then r else if p == ".." then (if r == [] then r else r[..|r| - 1]) else r + [p]
    decreases |parts|
  {
    if parts == [] {
      assert [p][1..] == [];
    } else {
      var q := parts[0];
      var next := if q == "" || q == "." then base
                  else if q == ".." then (if base == [] then [] else base[..|base| - 1])
                  else base + [q];
      OneMoreSegment(next, parts[1..], p);
      assert (parts + [p])[1..] == parts[1..] + [p];
    }
  }

  lemma GitDirInAnyCase(p: string)
    ensures IsGitDir(p) <==> |p| == 4 && p[0] == '.' && p[1] in "gG" && p[2] in "iI" && p[3] in "tT"
  {}

  predicate IsLetter(c: char) { 'a' <= c <= 'z' || 'A' <= c <= 'Z' }

  predicate Rooted(requested: string) { "/" <= requested || (|requested| >= 2 && IsLetter(requested[0]) && requested[1] == ':') }

  /** What a relative request names below the root, if it is below. */
  function Below(root: seq<string>, requested: string): (parts: seq<string>) {
    var abs := Resolve(root, Split(requested, '/'));
    if root <= abs then abs[|root|..] else []
  }

  /**
    The verdict, cause by cause: no path at all; absolute or with a drive; the
    root itself, not below it, or below it by a segment that starts with two
    dots; through a git directory; matched by no glob; and otherwise allowed,
    under the resolved path.
   */
  lemma Verdicts(root: seq<string>, requested: string, allowlist: seq<string>)
    ensures var v, parts := Check(root, requested, allowlist), Below(root, requested);
      if requested == "" || '\0' in requested then v == Refused(NotAPath)
      else if Rooted(requested) then v == Refused(Absolute)
      else if parts == [] || ".." <= parts[0] then v == Refused(OutsideCheckout)
      else if exists i :: 0 <= i < |parts| && IsGitDir(parts[i]) then v == Refused(GitDir)
      else
        var rel := Join(parts, '/');
        OneLine(rel) ==> v == if SomeGlobMatches(allowlist, rel) then Allowed(rel, root + parts) else Refused(NotAllowlisted)
  {
    var parts := Below(root, requested);
    if parts != [] && OneLine(Join(parts, '/')) { AdmitsIffGlobMatches(allowlist, Join(parts, '/')); }
    hide Resolve, Split, Join, IsGitDir, Admits, SomeGlobMatches, OneLine;
    var abs := Resolve(root, Split(requested, '/'));
    if root <= abs { assert abs == root + abs[|root|..]; }
  }
}
