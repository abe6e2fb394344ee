/** Splitting a string at a separator, and joining it again. */
module Separated {
  predicate Free(s: string, sep: char) { forall i :: 0 <= i < |s| ==> s[i] != sep }

  function FirstSep(s: string, sep: char): (k: nat)
    ensures k <= |s| && Free(s[..k], sep)
    ensures k < |s| ==> s[k] == sep
  {
    if s == "" || s[0] == sep then 0
    else
      var k := FirstSep(s[1..], sep);
      assert s[..1 + k] == [s[0]] + s[1..][..k];
      1 + k
  }

  function Split(s: string, sep: char): (parts: seq<string>)
    ensures |parts| > 0 && forall i :: 0 <= i < |parts| ==> Free(parts[i], sep)
    decreases |s|
  {
    var k := FirstSep(s, sep);
    if k == |s| then
      assert s[..k] == s;
      [s]
    else [s[..k]] + Split(s[k + 1..], sep)
  }

  function Join(parts: seq<string>, sep: char): string
    requires |parts| > 0
  {
    if |parts| == 1 then parts[0] else parts[0] + [sep] + Join(parts[1..], sep)
  }

  lemma {:induction false} JoinOfSplit(s: string, sep: char)
    ensures Join(Split(s, sep), sep) == s
    decreases |s|
  {
    var k := FirstSep(s, sep);
    if k < |s| {
      JoinOfSplit(s[k + 1..], sep);
      JoinCons(s[..k], Split(s[k + 1..], sep), sep);
      CutAt(s, k);
    }
  }

  lemma JoinCons(head: string, rest: seq<string>, sep: char)
    requires |rest| > 0
    ensures Join([head] + rest, sep) == head + [sep] + Join(rest, sep)
  {
    assert ([head] + rest)[1..] == rest;
  }

  lemma CutAt(s: string, k: nat)
    requires k < |s|
    ensures s == s[..k] + [s[k]] + s[k + 1..]
  {}

  lemma FirstSepAt(a: string, rest: string, sep: char)
    requires Free(a, sep)
    ensures FirstSep(a, sep) == |a|
    ensures FirstSep(a + [sep] + rest, sep) == |a|
  {
    var s := a + [sep] + rest;
    var k := FirstSep(s, sep);
    assert s[|a|] == sep && forall i :: 0 <= i < |a| ==> s[i] == a[i];
    assert k > |a| ==> s[..k][|a|] == sep;
  }

  lemma {:induction false} SplitOfJoin(parts: seq<string>, sep: char)
    requires |parts| > 0 && forall i :: 0 <= i < |parts| ==> Free(parts[i], sep)
    ensures Split(Join(parts, sep), sep) == parts
  {
    FirstSepAt(parts[0], if |parts| == 1 then "" else Join(parts[1..], sep), sep);
    if |parts| > 1 {
      SplitOfJoin(parts[1..], sep);
      SplitCons(parts[0], Join(parts[1..], sep), sep);
    }
  }

  lemma SplitCons(head: string, rest: string, sep: char)
    requires Free(head, sep)
    ensures Split(head + [sep] + rest, sep) == [head] + Split(rest, sep)
  {
    var s := head + [sep] + rest;
    FirstSepAt(head, rest, sep);
    assert s[..|head|] == head && s[|head| + 1..] == rest;
  }

  /** Joining adds one separator between each two parts. */
  lemma {:induction false} SeparatorsInJoin(parts: seq<string>, sep: char)
    requires |parts| > 0 && forall i :: 0 <= i < |parts| ==> Free(parts[i], sep)
    ensures Count(Join(parts, sep), sep) == |parts| - 1
  {
    CountFree(parts[0], sep);
    if |parts| > 1 {
      SeparatorsInJoin(parts[1..], sep);
      CountAdds(parts[0], [sep], sep);
      CountAdds(parts[0] + [sep], Join(parts[1..], sep), sep);
      assert Count([sep], sep) == 1;
    }
  }

  function Count(s: string, c: char): nat {
    if s == "" then 0 else (if s[0] == c then 1 else 0) + Count(s[1..], c)
  }

  lemma {:induction false} CountAdds(a: string, b: string, c: char)
    ensures Count(a + b, c) == Count(a, c) + Count(b, c)
  {
    if a == "" {
      assert a + b == b;
    } else {
      CountAdds(a[1..], b, c);
      assert (a + b)[1..] == a[1..] + b;
    }
  }

  lemma {:induction false} CountFree(s: string, c: char)
    requires Free(s, c)
    ensures Count(s, c) == 0
  {
    if s != "" { CountFree(s[1..], c); }
  }
}
