/** How a project's directory name is folded into host labels, and which names fold to themselves. */
module HostLabel {
  import opened Separated

  const MAX_LABEL := 63
  const MAX_PROJECT_HOST := 200

  predicate Alphanumeric(c: char) { 'a' <= c <= 'z' || 'A' <= c <= 'Z' || '0' <= c <= '9' }

  function Lower(c: char): char { if 'A' <= c <= 'Z' then c + 32 as char else c }

  /** The label built from the first `n` characters of a part, before it is cut. */
  function Fold(part: string, n: nat): string
    requires n <= |part|
  {
    if n == 0 then ""
    else
      var text, ch := Fold(part, n - 1), part[n - 1];
      if Alphanumeric(ch) then text + [Lower(ch)]
      else if text != "" && text[|text| - 1] != '-' then text + "-"
      else text
  }

  function Cut(text: string): string { if |text| <= MAX_LABEL then text else text[..MAX_LABEL] }

  function Trim(text: string): string {
    if text != "" && text[|text| - 1] == '-' then Trim(text[..|text| - 1]) else text
  }

  function Label(part: string): string { Trim(Cut(Fold(part, |part|))) }

  /** The labels of the first `n` parts. */
  function Labels(parts: seq<string>, n: nat): (labels: seq<string>)
    requires n <= |parts|
    ensures |labels| == n && forall i :: 0 <= i < n ==> labels[i] == Label(parts[i])
  {
    if n == 0 then [] else Labels(parts, n - 1) + [Label(parts[n - 1])]
  }

  datatype Result = Host(name: string) | NamesNoHost | TooLong(length: nat)

  function ProjectHostLabel(project: string): Result {
    var parts := Split(project, '.');
    var labels := Labels(parts, |parts|);
    if "" in labels then NamesNoHost
    else
      var host := Join(labels, '.');
      if |host| > MAX_PROJECT_HOST then TooLong(|host|) else Host(host)
  }

  /** `project_host_label`, pushing characters and parts as the loops go. */
  method BuildHostLabel(project: string) returns (r: Result)
    ensures r == ProjectHostLabel(project)
  {
    var parts: seq<string>, source := [], Split(project, '.');
    for i := 0 to |source|
      invariant parts == Labels(source, i) && "" !in parts
    {
      var part, text := source[i], "";
      for j := 0 to |part|
        invariant text == Fold(part, j)
      {
        if Alphanumeric(part[j]) {
          text := text + [Lower(part[j])];
        } else if text != "" && text[|text| - 1] != '-' {
          text := text + "-";
        }
      }
      if |text| > MAX_LABEL { text := text[..MAX_LABEL]; }
      while text != "" && text[|text| - 1] == '-'
        invariant Trim(text) == Label(part)
        decreases |text|
      {
        text := text[..|text| - 1];
      }
      if text == "" {
        assert Labels(source, |source|)[i] == "";
        return NamesNoHost;
      }
      parts := parts + [text];
    }
    var host := Join(parts, '.');
    if |host| > MAX_PROJECT_HOST { return TooLong(|host|); }
    r := Host(host);
  }

  // ----------------------------------------------------------------- valid names

  predicate LabelChar(c: char) { 'a' <= c <= 'z' || '0' <= c <= '9' || c == '-' }

  /** Hyphens only between letters or digits, one at a time, save perhaps at the end. */
  ghost predicate Folded(s: string) {
    && (forall i :: 0 <= i < |s| ==> LabelChar(s[i]))
    && (s != "" ==> s[0] != '-')
    && forall i :: 0 <= i < |s| - 1 ==> !(s[i] == '-' && s[i + 1] == '-')
  }

  ghost predicate ValidLabel(s: string) { 1 <= |s| <= MAX_LABEL && Folded(s) && s[|s| - 1] != '-' }

  /** A name that can stand in a host as it is. */
  ghost predicate ValidName(s: string) {
    |s| <= MAX_PROJECT_HOST && forall i :: 0 <= i < |Split(s, '.')| ==> ValidLabel(Split(s, '.')[i])
  }

  lemma {:induction false} FoldIsFolded(part: string, n: nat)
    requires n <= |part|
    ensures Folded(Fold(part, n))
  {
    if n > 0 { FoldIsFolded(part, n - 1); }
  }

  lemma {:induction false} TrimIsValid(s: string)
    requires Folded(s) && |s| <= MAX_LABEL
    ensures Trim(s) == "" || ValidLabel(Trim(s))
  {
    if s != "" && s[|s| - 1] == '-' { TrimIsValid(s[..|s| - 1]); }
  }

  lemma LabelIsValid(part: string)
    ensures Label(part) == "" || ValidLabel(Label(part))
  {
    FoldIsFolded(part, |part|);
    TrimIsValid(Cut(Fold(part, |part|)));
  }

  lemma {:induction false} FoldOfValid(s: string, n: nat)
    requires Folded(s) && n <= |s|
    ensures Fold(s, n) == s[..n]
  {
    if n > 0 {
      FoldOfValid(s, n - 1);
      assert s[..n] == s[..n - 1] + [s[n - 1]];
    }
  }

  /** A valid label folds to itself. */
  lemma LabelOfValid(s: string)
    requires ValidLabel(s)
    ensures Label(s) == s
  {
    FoldOfValid(s, |s|);
    assert s[..|s|] == s;
  }

  lemma ValidIsFree(s: string)
    requires ValidLabel(s)
    ensures Free(s, '.')
  {}

  /** Every accepted result is a valid name, with as many dots as the project's name. */
  lemma AcceptedIsValid(project: string)
    requires ProjectHostLabel(project).Host?
    ensures var h := ProjectHostLabel(project).name;
      ValidName(h) && Count(h, '.') == Count(project, '.')
  {
    var parts := Split(project, '.');
    var labels := Labels(parts, |parts|);
    forall i | 0 <= i < |labels| ensures ValidLabel(labels[i]) && Free(labels[i], '.') {
      assert labels[i] in labels;
      LabelIsValid(parts[i]);
      ValidIsFree(labels[i]);
    }
    hide ValidLabel;
    SplitOfJoin(labels, '.');
    SeparatorsInJoin(labels, '.');
    JoinOfSplit(project, '.');
    SeparatorsInJoin(parts, '.');
  }

  /** The mapping leaves a name alone exactly when the name is valid. */
  lemma FixpointIffValid(name: string)
    ensures ProjectHostLabel(name) == Host(name) <==> ValidName(name)
  {
    if ProjectHostLabel(name) == Host(name) {
      AcceptedIsValid(name);
    }
    if ValidName(name) {
      var parts := Split(name, '.');
      forall i | 0 <= i < |parts| ensures Label(parts[i]) == parts[i] && parts[i] != "" { LabelOfValid(parts[i]); }
      assert Labels(parts, |parts|) == parts;
      JoinOfSplit(name, '.');
    }
  }

  /** Mapping twice is mapping once. */
  lemma Idempotent(project: string)
    requires ProjectHostLabel(project).Host?
    ensures ProjectHostLabel(ProjectHostLabel(project).name) == ProjectHostLabel(project)
  {
    AcceptedIsValid(project);
    FixpointIffValid(ProjectHostLabel(project).name);
  }

  // ------------------------------------------------------------ what a name may vary in

  /** The same letter but for its case, or two characters that no host name has. */
  predicate Alike(c: char, d: char) {
    if Alphanumeric(c) then Alphanumeric(d) && Lower(c) == Lower(d) else !Alphanumeric(d) && (c == '.' <==> d == '.')
  }

  ghost predicate AllAlike(a: string, b: string) { |a| == |b| && forall i :: 0 <= i < |a| ==> Alike(a[i], b[i]) }

  lemma {:induction false} FoldsAlike(a: string, b: string, n: nat)
    requires AllAlike(a, b) && n <= |a|
    ensures Fold(a, n) == Fold(b, n)
  {
    if n > 0 {
      FoldsAlike(a, b, n - 1);
      assert Alike(a[n - 1], b[n - 1]);
    }
  }

  lemma {:induction false} FirstDotAlike(a: string, b: string)
    requires AllAlike(a, b)
    ensures FirstSep(a, '.') == FirstSep(b, '.')
  {
    if a != "" {
      assert Alike(a[0], b[0]);
      FirstDotAlike(a[1..], b[1..]);
    }
  }

  ghost predicate PartsAlike(xs: seq<string>, ys: seq<string>) {
    |xs| == |ys| && forall i :: 0 <= i < |xs| ==> AllAlike(xs[i], ys[i])
  }

  lemma AlikeSlices(a: string, b: string, k: nat)
    requires AllAlike(a, b) && k <= |a|
    ensures AllAlike(a[..k], b[..k]) && AllAlike(a[k..], b[k..])
  {
    hide Alike;
  }

  lemma PartsAlikeCons(x: string, xs: seq<string>, y: string, ys: seq<string>)
    requires AllAlike(x, y) && PartsAlike(xs, ys)
    ensures PartsAlike([x] + xs, [y] + ys)
  {
    hide AllAlike;
  }

  lemma {:induction false} SplitsAlike(a: string, b: string)
    requires AllAlike(a, b)
    ensures PartsAlike(Split(a, '.'), Split(b, '.'))
    decreases |a|
  {
    hide Alike;
    FirstDotAlike(a, b);
    var k := FirstSep(a, '.');
    if k < |a| {
      AlikeSlices(a, b, k);
      AlikeSlices(a, b, k + 1);
      hide AllAlike, PartsAlike;
      SplitsAlike(a[k + 1..], b[k + 1..]);
      PartsAlikeCons(a[..k], Split(a[k + 1..], '.'), b[..k], Split(b[k + 1..], '.'));
    }
  }

  /**
    Names that differ only in the case of letters, or in which characters stand
    where no letter, digit or dot does, share a host. With `FixpointIffValid`,
    `My_App` is served as `my-app` because `my-app` is.
   */
  lemma AlikeNamesShareAHost(a: string, b: string)
    requires AllAlike(a, b)
    ensures ProjectHostLabel(a) == ProjectHostLabel(b)
  {
    SplitsAlike(a, b);
    var xs, ys := Split(a, '.'), Split(b, '.');
    forall i | 0 <= i < |xs| ensures Label(xs[i]) == Label(ys[i]) {
      FoldsAlike(xs[i], ys[i], |xs[i]|);
    }
    assert Labels(xs, |xs|) == Labels(ys, |ys|);
  }

  // --------------------------------------------------- the label, word by word

  predicate IsWord(w: string) { w != "" && forall i :: 0 <= i < |w| ==> Alphanumeric(w[i]) }

  /** Characters that no label has. */
  predicate IsGap(g: string) { forall i :: 0 <= i < |g| ==> !Alphanumeric(g[i]) }

  /** Gap, word, gap, word, and so on, and a last gap. The inner gaps are not empty. */
  ghost predicate Alternate(gaps: seq<string>, words: seq<string>) {
    && |gaps| == |words| + 1
    && (forall i :: 0 <= i < |words| ==> IsWord(words[i]))
    && (forall i :: 0 <= i < |gaps| ==> IsGap(gaps[i]))
    && forall i :: 0 < i < |words| ==> gaps[i] != ""
  }

  /** The text of the first `n` words with the gaps before them. */
  function Spread(gaps: seq<string>, words: seq<string>, n: nat): string
    requires n <= |words| && |gaps| == |words| + 1
  {
    if n == 0 then "" else Spread(gaps, words, n - 1) + gaps[n - 1] + words[n - 1]
  }

  function LowerAll(w: string): (l: string)
    ensures |l| == |w| && forall i :: 0 <= i < |w| ==> l[i] == Lower(w[i])
  {
    seq(|w|, i requires 0 <= i < |w| => Lower(w[i]))
  }

  /** The first `n` words in lower case, a hyphen between each two. */
  function Hyphenated(words: seq<string>, n: nat): string
    requires n <= |words|
  {
    if n == 0 then "" else if n == 1 then LowerAll(words[0]) else Hyphenated(words, n - 1) + "-" + LowerAll(words[n - 1])
  }

  lemma {:induction false} FoldPrefix(a: string, b: string, n: nat)
    requires n <= |a|
    ensures Fold(a + b, n) == Fold(a, n)
  {
    if n > 0 {
      FoldPrefix(a, b, n - 1);
      assert (a + b)[n - 1] == a[n - 1];
    }
  }

  lemma FoldLast(a: string, c: char)
    ensures var f := Fold(a, |a|);
      Fold(a + [c], |a| + 1) ==
        if Alphanumeric(c) then f + [Lower(c)] else if f != "" && f[|f| - 1] != '-' then f + "-" else f
  {
    FoldPrefix(a, [c], |a|);
  }

  lemma {:induction false} FoldWord(a: string, w: string)
    requires forall i :: 0 <= i < |w| ==> Alphanumeric(w[i])
    ensures Fold(a + w, |a + w|) == Fold(a, |a|) + LowerAll(w)
    decreases |w|
  {
    if w == "" {
      assert a + w == a && Fold(a, |a|) + LowerAll(w) == Fold(a, |a|);
    } else {
      var w', c := w[..|w| - 1], w[|w| - 1];
      hide Fold;
      FoldWord(a, w');
      assert a + w == (a + w') + [c];
      FoldLast(a + w', c);
      assert LowerAll(w) == LowerAll(w') + [Lower(c)];
      assert Fold(a, |a|) + (LowerAll(w') + [Lower(c)]) == Fold(a, |a|) + LowerAll(w') + [Lower(c)];
    }
  }

  /** A run of other characters is one hyphen, and none at the start or after one. */
  lemma {:induction false} FoldGap(a: string, g: string)
    requires IsGap(g)
    ensures var f := Fold(a, |a|);
      Fold(a + g, |a + g|) == if g == "" || f == "" || f[|f| - 1] == '-' then f else f + "-"
    decreases |g|
  {
    if g == "" {
      assert a + g == a;
    } else {
      var g', c := g[..|g| - 1], g[|g| - 1];
      hide Fold;
      FoldGap(a, g');
      assert a + g == (a + g') + [c];
      FoldLast(a + g', c);
    }
  }

  lemma {:induction false} FoldOfWords(gaps: seq<string>, words: seq<string>, n: nat)
    requires Alternate(gaps, words) && n <= |words|
    ensures var s := Spread(gaps, words, n); Fold(s, |s|) == Hyphenated(words, n)
    ensures n > 0 ==> var h := Hyphenated(words, n); h != "" && h[|h| - 1] != '-'
  {
    if n > 0 {
      var before, g, w := Spread(gaps, words, n - 1), gaps[n - 1], words[n - 1];
      assert IsWord(w) && IsGap(g) && (n > 1 ==> g != "");
      FoldOfWords(gaps, words, n - 1);
      FoldGap(before, g);
      FoldWord(before + g, w);
      LastIsNoHyphen(w);
      hide Fold, Spread;
      if n == 1 { assert "" + LowerAll(w) == LowerAll(w); }
    }
  }

  lemma LastIsNoHyphen(w: string)
    requires IsWord(w)
    ensures LowerAll(w) != "" && LowerAll(w)[|w| - 1] != '-'
  {
    assert Alphanumeric(w[|w| - 1]);
  }

  /**
    The label of a part, word by word: its runs of letters and digits in lower
    case with one hyphen between each two, whatever stands between and around
    them; of more than 63 characters the first 63, without a last hyphen.
   */
  lemma LabelOfWords(gaps: seq<string>, words: seq<string>)
    requires Alternate(gaps, words)
    ensures var part, made := Spread(gaps, words, |words|) + gaps[|words|], Hyphenated(words, |words|);
      Label(part) == if |made| <= 63 then made else if made[62] == '-' then made[..62] else made[..63]
  {
    var n := |words|;
    var s, made := Spread(gaps, words, n), Hyphenated(words, n);
    FoldOfWords(gaps, words, n);
    FoldGap(s, gaps[n]);
    FoldIsFolded(s, |s|);
    hide Fold, Spread, Hyphenated, Alternate;
    var folded := Fold(s + gaps[n], |s + gaps[n]|);
    assert folded == made || folded == made + "-";
    CutAndTrimmed(made, folded);
  }

  lemma CutAndTrimmed(made: string, folded: string)
    requires Folded(made) && (made != "" ==> made[|made| - 1] != '-')
    requires folded == made || (made != "" && folded == made + "-") || (made == "" && folded == "")
    ensures Trim(Cut(folded)) == if |made| <= 63 then made else if made[62] == '-' then made[..62] else made[..63]
  {
    var cut := Cut(folded);
    if |made| > 63 {
      assert cut == made[..63];
      if made[62] == '-' {
        assert made[61] != '-';
        assert cut[..62] == made[..62] && made[..62][61] == made[61];
        TrimDone(made[..62]);
      } else {
        TrimDone(cut);
      }
    } else {
      TrimDone(made);
      if folded != made {
        if |made| == 63 {
          assert cut == made;
        } else {
          assert cut == made + "-" && cut[..|cut| - 1] == made;
        }
      }
    }
  }

  lemma TrimDone(s: string)
    requires s == "" || s[|s| - 1] != '-'
    ensures Trim(s) == s
  {}

  // ------------------------------------------------------------------- refusals

  /** The part has a letter or a digit. */
  predicate HasWord(part: string) { exists i :: 0 <= i < |part| && Alphanumeric(part[i]) }

  lemma {:induction false} FoldIsEmptyIff(part: string, n: nat)
    requires n <= |part|
    ensures Fold(part, n) == "" <==> forall i :: 0 <= i < n ==> !Alphanumeric(part[i])
  {
    if n > 0 { FoldIsEmptyIff(part, n - 1); }
  }

  lemma LabelIsEmptyIff(part: string)
    ensures Label(part) == "" <==> !HasWord(part)
  {
    var folded := Fold(part, |part|);
    FoldIsEmptyIff(part, |part|);
    FoldIsFolded(part, |part|);
    if folded != "" { TrimKeepsFirst(Cut(folded)); }
  }

  lemma {:induction false} TrimKeepsFirst(s: string)
    requires s != "" && s[0] != '-'
    ensures Trim(s) != ""
  {
    if s[|s| - 1] == '-' { TrimKeepsFirst(s[..|s| - 1]); }
  }

  predicate SomeWordless(parts: seq<string>) { exists i :: 0 <= i < |parts| && !HasWord(parts[i]) }

  /** A project names no host exactly if some part between dots has no letter or digit, and is too long exactly if its labels and dots are over 200 characters. */
  lemma RefusedIff(project: string)
    ensures var r, parts := ProjectHostLabel(project), Split(project, '.');
      && (r == NamesNoHost <==> SomeWordless(parts))
      && (r.TooLong? <==> !SomeWordless(parts) && |Join(Labels(parts, |parts|), '.')| > 200)
      && (r.TooLong? ==> r.length == |Join(Labels(parts, |parts|), '.')|)
      && (r.Host? ==> r.name == Join(Labels(parts, |parts|), '.'))
  {
    var parts := Split(project, '.');
    var labels := Labels(parts, |parts|);
    EmptyLabelIff(parts, labels);
    hide Label, Labels, HasWord, SomeWordless, Join, Split;
  }

  lemma EmptyLabelIff(parts: seq<string>, labels: seq<string>)
    requires |labels| == |parts| && forall i :: 0 <= i < |parts| ==> labels[i] == Label(parts[i])
    ensures "" in labels <==> SomeWordless(parts)
  {
    forall i | 0 <= i < |parts| ensures labels[i] == "" <==> !HasWord(parts[i]) { LabelIsEmptyIff(parts[i]); }
    hide Label, HasWord;
    if i :| 0 <= i < |parts| && !HasWord(parts[i]) { assert labels[i] == "" && labels[i] in labels; }
    if "" in labels {
      var i :| 0 <= i < |labels| && labels[i] == "";
      assert !HasWord(parts[i]);
    }
  }
}
