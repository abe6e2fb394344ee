/**
  The studio's write allowlist: globs compiled to regular expression text. The
  text is parsed back with the pattern grammar of section 22.2.1 of ECMA-262, as
  far as the compiler uses it, and matched with the semantics of section 22.2.2:
  no flags, so `.` stops at line terminators. A char is a UTF-16 code unit.
 */
module Glob {
  import opened Prelude

  // ------------------------------------------------------------ what a glob means

  predicate StarStarSlash(g: string) { |g| >= 3 && g[0] == '*' && g[1] == '*' && g[2] == '/' }
  predicate StarStar(g: string) { |g| >= 2 && g[0] == '*' && g[1] == '*' }

  /** `g` matches the rest of `path` from `i` on. */
  ghost predicate GlobMatches(g: string, path: string, i: nat)
    requires i <= |path|
  {
    if g == "" then i == |path|
    else if StarStarSlash(g) then
      || GlobMatches(g[3..], path, i)
      || exists j :: i < j <= |path| && path[j - 1] == '/' && GlobMatches(g[3..], path, j)
    else if StarStar(g) then exists j :: i <= j <= |path| && GlobMatches(g[2..], path, j)
    else if g[0] == '*' then
      exists j :: i <= j <= |path| && (forall k :: i <= k < j ==> path[k] != '/') && GlobMatches(g[1..], path, j)
    else i < |path| && (if g[0] == '?' then path[i] != '/' else path[i] == g[0]) && GlobMatches(g[1..], path, i + 1)
  }

  // ------------------------------------------------------------------ the compiler

  const SPECIAL := ".+^${}()|[]\\"

  function Escape(c: char): string { if c in SPECIAL then ['\\', c] else [c] }

  /** The text for one character that starts no `**`. */
  function Single(c: char): string {
    if c == '*' then "[^/]*" else if c == '?' then "[^/]" else Escape(c)
  }

  /** How many characters of `g` the compiler takes at once, and the text they become. */
  function Taken(g: string): (n: nat)
    requires g != ""
    ensures 1 <= n <= |g|
  {
    if StarStarSlash(g) then 3 else if StarStar(g) then 2 else 1
  }

  function Text(g: string): string
    requires g != ""
  {
    if StarStarSlash(g) then "(?:.*/)?" else if StarStar(g) then ".*" else Single(g[0])
  }

  /** The regular expression text for a glob, anchors aside. */
  function Emit(g: string): string {
    if g == "" then "" else Text(g) + Emit(g[Taken(g)..])
  }

  method GlobToRegExp(glob: string) returns (re: string)
    ensures re == "^" + Emit(glob) + "$"
  {
    re := "^";
    var i := 0;
    assert glob[0..] == glob;
    while i < |glob|
      invariant i <= |glob|
      invariant re + Emit(glob[i..]) == "^" + Emit(glob)
    {
      var c := glob[i];
      ghost var before, start, g := re, i, glob[i..];
      if c == '*' && i + 1 < |glob| && glob[i + 1] == '*' {
        i := i + 1;
        if i + 1 < |glob| && glob[i + 1] == '/' {
          i := i + 1;
          re := re + "(?:.*/)?";
        } else {
          re := re + ".*";
        }
      } else if c == '*' {
        re := re + "[^/]*";
      } else if c == '?' {
        re := re + "[^/]";
      } else {
        re := re + Escape(c);
      }
      i := i + 1;
      assert i == start + Taken(g) && re == before + Text(g);
      EmitStep(glob, start, before);
    }
    re := re + "$";
  }

  /** The loop body consumed what one unfolding of `Emit` consumes. */
  lemma EmitStep(glob: string, start: nat, before: string)
    requires start < |glob|
    ensures var g := glob[start..];
      before + Text(g) + Emit(glob[start + Taken(g)..]) == before + Emit(g)
  {
    var g := glob[start..];
    assert g[Taken(g)..] == glob[start + Taken(g)..];
    hide Text, Taken;
    assert before + (Text(g) + Emit(g[Taken(g)..])) == before + Text(g) + Emit(g[Taken(g)..]);
  }

  // ------------------------------------------------------- regular expression text

  datatype Atom = Lit(c: char) | Dot | NotSlash
  datatype Piece = One(a: Atom) | Many(a: Atom)
  datatype Item = Start | End | Plain(p: Piece) | Optional(body: seq<Piece>)

  /** One atom and the number of characters it takes. */
  function ParseAtom(t: string): (r: Option<(Atom, nat)>)
    ensures r.Some? ==> 1 <= r.value.1 <= |t|
  {
    if t == "" then None
    else if t[0] == '\\' then (if |t| >= 2 && t[1] in SPECIAL then Some((Lit(t[1]), 2)) else None)
    else if t[0] == '.' then Some((Dot, 1))
    else if t[0] == '[' then (if "[^/]" <= t then Some((NotSlash, 4)) else None)
    else if t[0] in "^$*+?(){}|]" then None
    else Some((Lit(t[0]), 1))
  }

  /** An atom with its `*`, if it has one. Other quantifiers are outside the fragment. */
  function ParsePiece(t: string): (r: Option<(Piece, nat)>)
    ensures r.Some? ==> 1 <= r.value.1 <= |t|
  {
    match ParseAtom(t)
    case None => None
    case Some((a, n)) =>
      if n < |t| && t[n] == '*' then
        if n + 1 < |t| && t[n + 1] in "*+?{" then None else Some((Many(a), n + 1))
      else if n < |t| && t[n] in "+?{" then None
      else Some((One(a), n))
  }

  /** The pieces up to a closing parenthesis, and the number of characters they take. */
  function ParseBody(t: string): (r: Option<(seq<Piece>, nat)>)
    ensures r.Some? ==> r.value.1 < |t| && t[r.value.1] == ')'
    decreases |t|
  {
    if t == "" then None
    else if t[0] == ')' then Some(([], 0))
    else match ParsePiece(t)
      case None => None
      case Some((p, n)) =>
        match ParseBody(t[n..])
        case None => None
        case Some((ps, m)) => Some(([p] + ps, n + m))
  }

  function ParseRegExp(t: string): Option<seq<Item>>
    decreases |t|
  {
    if t == "" then Some([])
    else if t[0] == '^' then Prepend(Start, ParseRegExp(t[1..]))
    else if t[0] == '$' then Prepend(End, ParseRegExp(t[1..]))
    else if "(?:" <= t then
      match ParseBody(t[3..])
      case None => None
      case Some((body, n)) =>
        if 4 + n < |t| && t[4 + n] == '?' then Prepend(Optional(body), ParseRegExp(t[5 + n..])) else None
    else match ParsePiece(t)
      case None => None
      case Some((p, n)) => Prepend(Plain(p), ParseRegExp(t[n..]))
  }

  function Prepend(i: Item, rest: Option<seq<Item>>): Option<seq<Item>> {
    if rest.None? then None else Some([i] + rest.value)
  }

  predicate LineTerminator(c: char) { c == '\n' || c == '\r' || c == '\U{2028}' || c == '\U{2029}' }

  predicate Accepts(a: Atom, c: char) {
    match a
    case Lit(l) => c == l
    case Dot => !LineTerminator(c)
    case NotSlash => c != '/'
  }

  predicate PiecesMatch(ps: seq<Piece>, path: string, i: nat, j: nat)
    requires i <= j <= |path|
    decreases |ps|
  {
    if ps == [] then i == j
    else match ps[0]
      case One(a) => i < j && Accepts(a, path[i]) && PiecesMatch(ps[1..], path, i + 1, j)
      case Many(a) => exists m :: i <= m <= j && (forall k :: i <= k < m ==> Accepts(a, path[k])) && PiecesMatch(ps[1..], path, m, j)
  }

  predicate ItemsMatch(items: seq<Item>, path: string, i: nat)
    requires i <= |path|
    decreases |items|
  {
    if items == [] then true
    else match items[0]
      case Start => i == 0 && ItemsMatch(items[1..], path, i)
      case End => i == |path| && ItemsMatch(items[1..], path, i)
      case Plain(p) => exists j :: i <= j <= |path| && PiecesMatch([p], path, i, j) && ItemsMatch(items[1..], path, j)
      case Optional(body) =>
        || ItemsMatch(items[1..], path, i)
        || exists j :: i <= j <= |path| && PiecesMatch(body, path, i, j) && ItemsMatch(items[1..], path, j)
  }

  /** `new RegExp(re).test(path)`, for a `re` of the fragment. */
  predicate RegExpTest(re: string, path: string)
    requires ParseRegExp(re).Some?
  {
    exists i :: 0 <= i <= |path| && ItemsMatch(ParseRegExp(re).value, path, i)
  }

  // ------------------------------------------------------- the text parses back

  const OPTIONAL_DIRS := Optional([Many(Dot), One(Lit('/'))])

  /** The items the text of a glob denotes. */
  function Items(g: string): seq<Item> {
    if g == "" then [End]
    else
      var item := if StarStarSlash(g) then OPTIONAL_DIRS else if StarStar(g) then Plain(Many(Dot)) else SingleItem(g[0]);
      [item] + Items(g[Taken(g)..])
  }

  function SingleItem(c: char): Item {
    Plain(if c == '*' then Many(NotSlash) else if c == '?' then One(NotSlash) else One(Lit(c)))
  }

  /** No emitted text starts with a quantifier, so nothing emitted can change what precedes it. */
  lemma NoLeadingQuantifier(g: string)
    ensures Quiet(Emit(g) + "$")
  {
    if g != "" && !StarStar(g) && g[0] !in "*?" { assert Escape(g[0])[0] !in "*+?{"; }
  }

  predicate Quiet(rest: string) { |rest| > 0 && rest[0] !in "*+?{" }

  lemma PieceThen(atom: string, a: Atom, rest: string)
    requires ParseAtom(atom + rest) == Some((a, |atom|))
    ensures Quiet(rest) ==> ParsePiece(atom + rest) == Some((One(a), |atom|))
    ensures |rest| > 1 && rest[0] == '*' && Quiet(rest[1..]) ==> ParsePiece(atom + rest) == Some((Many(a), |atom| + 1))
  {
    hide ParseAtom;
    assert forall k :: 0 <= k < |rest| ==> (atom + rest)[|atom| + k] == rest[k];
  }

  lemma PlainThen(text: string, p: Piece, rest: string)
    requires |text| > 0 && text[0] !in "^$("
    requires ParsePiece(text + rest) == Some((p, |text|))
    ensures ParseRegExp(text + rest) == Prepend(Plain(p), ParseRegExp(rest))
  {
    hide ParsePiece, ParseBody;
    var t := text + rest;
    assert t[0] == text[0] && t[|text|..] == rest;
    assert !("(?:" <= t);
  }

  lemma LiteralAtom(c: char, rest: string)
    requires c != '*' && c != '?'
    ensures ParseAtom(Escape(c) + rest) == Some((Lit(c), |Escape(c)|))
    ensures Escape(c)[0] !in "^$("
  {
    var t := Escape(c) + rest;
    if c in SPECIAL {
      assert t[0] == '\\' && t[1] == c;
    } else {
      assert t[0] == c;
      assert c !in "^$*+?(){}|]" && c != '\\' && c != '.' && c != '[';
    }
  }

  lemma ClassAtom(rest: string)
    ensures ParseAtom("[^/]" + rest) == Some((NotSlash, 4))
  {
    var t := "[^/]" + rest;
    assert t[0] == '[' && t[..4] == "[^/]";
  }

  lemma DotAtom(rest: string)
    ensures ParseAtom("." + rest) == Some((Dot, 1))
  {}

  lemma LiteralThen(c: char, rest: string)
    requires c != '*' && c != '?' && Quiet(rest)
    ensures ParseRegExp(Escape(c) + rest) == Prepend(Plain(One(Lit(c))), ParseRegExp(rest))
  {
    LiteralAtom(c, rest);
    PieceThen(Escape(c), Lit(c), rest);
    PlainThen(Escape(c), One(Lit(c)), rest);
  }

  lemma ClassThen(rest: string)
    requires Quiet(rest)
    ensures ParseRegExp("[^/]" + rest) == Prepend(Plain(One(NotSlash)), ParseRegExp(rest))
  {
    hide ParseAtom, ParsePiece, ParseRegExp;
    ClassAtom(rest);
    PieceThen("[^/]", NotSlash, rest);
    PlainThen("[^/]", One(NotSlash), rest);
  }

  /** An atom, its star and the rest. */
  lemma Starred(atom: string, a: Atom, rest: string)
    requires (atom == "[^/]" && a == NotSlash) || (atom == "." && a == Dot)
    requires Quiet(rest)
    ensures ParsePiece(atom + "*" + rest) == Some((Many(a), |atom| + 1))
    ensures ParseRegExp(atom + "*" + rest) == Prepend(Plain(Many(a)), ParseRegExp(rest))
  {
    hide ParseAtom, ParsePiece, ParseRegExp;
    var starred := "*" + rest;
    if a == Dot { DotAtom(starred); } else { ClassAtom(starred); }
    StarredAtom(atom, a, rest);
    PlainThen(atom + "*", Many(a), rest);
  }

  lemma StarredAtom(atom: string, a: Atom, rest: string)
    requires Quiet(rest) && ParseAtom(atom + ("*" + rest)) == Some((a, |atom|))
    ensures ParsePiece(atom + "*" + rest) == Some((Many(a), |atom| + 1))
  {
    hide ParseAtom, ParsePiece;
    var starred := "*" + rest;
    assert starred[1..] == rest;
    assert atom + starred == atom + "*" + rest;
    PieceThen(atom, a, starred);
  }

  lemma BodyThen(text: string, p: Piece, rest: string)
    requires |text| > 0 && text[0] != ')' && ParsePiece(text + rest) == Some((p, |text|))
    ensures ParseBody(text + rest) ==
      match ParseBody(rest) case None => None case Some((ps, m)) => Some(([p] + ps, |text| + m))
  {
    hide ParsePiece;
    assert (text + rest)[|text|..] == rest;
    assert (text + rest)[0] == text[0];
  }

  lemma OptionalThen(body: seq<Piece>, text: string, rest: string)
    requires ParseBody(text + (")?" + rest)) == Some((body, |text|))
    ensures ParseRegExp("(?:" + text + ")?" + rest) == Prepend(Optional(body), ParseRegExp(rest))
  {
    hide ParsePiece, ParseBody;
    var t := "(?:" + text + ")?" + rest;
    assert t[..3] == "(?:";
    assert t[3..] == text + (")?" + rest);
    assert t[4 + |text|] == '?';
    assert t[5 + |text|..] == rest;
  }

  lemma DirsThen(rest: string)
    ensures ParseRegExp("(?:.*/)?" + rest) == Prepend(OPTIONAL_DIRS, ParseRegExp(rest))
  {
    var close := ")?" + rest;
    var slash := "/" + close;
    SlashThenClose(rest);
    hide ParseAtom, ParsePiece, ParseBody, ParseRegExp, Quiet;
    assert "." + "*" + slash == ".*" + slash == ".*/" + close;
    Starred(".", Dot, slash);
    BodyThen(".*", Many(Dot), slash);
    assert [Many(Dot)] + [One(Lit('/'))] == OPTIONAL_DIRS.body;
    OptionalThen(OPTIONAL_DIRS.body, ".*/", rest);
    assert "(?:" + ".*/" + ")?" + rest == "(?:.*/)?" + rest;
  }

  /** The slash that ends the optional group's body. */
  lemma SlashThenClose(rest: string)
    ensures var slash := "/" + (")?" + rest); Quiet(slash) && ParseBody(slash) == Some(([One(Lit('/'))], 1))
  {
    var close := ")?" + rest;
    assert ParseBody(close) == Some(([], 0));
    assert Quiet(close);
    assert ParseAtom("/" + close) == Some((Lit('/'), 1));
    hide ParseAtom, ParsePiece, ParseBody;
    PieceThen("/", Lit('/'), close);
    BodyThen("/", One(Lit('/')), close);
    assert [One(Lit('/'))] + [] == [One(Lit('/'))];
  }

  /** The text a glob compiles to is in the grammar, and denotes these items. */
  lemma {:induction false} TextParsesBack(g: string)
    ensures ParseRegExp(Emit(g) + "$") == Some(Items(g))
  {
    if g == "" {
      LoneDollar();
    } else {
      var n := Taken(g);
      var rest := Emit(g[n..]) + "$";
      TextParsesBack(g[n..]);
      NoLeadingQuantifier(g[n..]);
      assert Emit(g) + "$" == Text(g) + rest;
      hide ParseRegExp, Quiet, Emit;
      if StarStarSlash(g) {
        DirsThen(rest);
      } else if StarStar(g) {
        assert ".*" + rest == "." + "*" + rest;
        Starred(".", Dot, rest);
      } else {
        SingleThen(g[0], rest);
      }
    }
  }

  lemma LoneDollar()
    ensures ParseRegExp("" + "$") == Some([End])
  {
    var end := "" + "$";
    assert end[0] == '$' && end[1..] == "";
    assert ParseRegExp(end[1..]) == Some([]);
    assert [End] + [] == [End];
  }

  lemma SingleThen(c: char, rest: string)
    requires Quiet(rest)
    ensures ParseRegExp(Single(c) + rest) == Prepend(SingleItem(c), ParseRegExp(rest))
  {
    hide ParseRegExp, Quiet;
    if c == '*' {
      assert "[^/]*" + rest == "[^/]" + "*" + rest;
      Starred("[^/]", NotSlash, rest);
    } else if c == '?' {
      ClassThen(rest);
    } else {
      LiteralThen(c, rest);
    }
  }

  // ------------------------------------------------------------------- meaning

  ghost predicate OneLine(path: string) { forall k :: 0 <= k < |path| ==> !LineTerminator(path[k]) }

  ghost predicate AllAccepted(a: Atom, path: string, i: nat, j: nat)
    requires i <= j <= |path|
  {
    forall k :: i <= k < j ==> Accepts(a, path[k])
  }

  lemma ManyMatches(a: Atom, path: string, i: nat, j: nat)
    requires i <= j <= |path|
    ensures PiecesMatch([Many(a)], path, i, j) <==> AllAccepted(a, path, i, j)
  {
    if AllAccepted(a, path, i, j) {
      assert PiecesMatch([Many(a)][1..], path, j, j);
    }
  }

  lemma OneMatches(a: Atom, path: string, i: nat, j: nat)
    requires i <= j <= |path|
    ensures PiecesMatch([One(a)], path, i, j) <==> j == i + 1 && Accepts(a, path[i])
  {
    assert [One(a)][1..] == [];
  }

  lemma DirsMatch(path: string, i: nat, j: nat)
    requires i <= j <= |path|
    ensures PiecesMatch(OPTIONAL_DIRS.body, path, i, j)
      <==> i < j && path[j - 1] == '/' && AllAccepted(Dot, path, i, j - 1)
  {
    var body := OPTIONAL_DIRS.body;
    assert body[1..] == [One(Lit('/'))];
    forall m | i <= m <= j ensures PiecesMatch(body[1..], path, m, j) <==> j == m + 1 && path[m] == '/' {
      OneMatches(Lit('/'), path, m, j);
    }
    if i < j && path[j - 1] == '/' && AllAccepted(Dot, path, i, j - 1) {
      assert PiecesMatch(body[1..], path, j - 1, j);
    }
  }

  /** The rest of the items, after a first one that ends at `j`. */
  ghost predicate Onward(rest: seq<Item>, path: string, j: nat) { j <= |path| && ItemsMatch(rest, path, j) }

  lemma ManyItem(a: Atom, rest: seq<Item>, path: string, i: nat)
    requires i <= |path|
    ensures ItemsMatch([Plain(Many(a))] + rest, path, i)
      <==> exists j :: i <= j <= |path| && AllAccepted(a, path, i, j) && Onward(rest, path, j)
  {
    var items := [Plain(Many(a))] + rest;
    assert items[1..] == rest;
    forall j | i <= j <= |path| ensures PiecesMatch([Many(a)], path, i, j) <==> AllAccepted(a, path, i, j) {
      ManyMatches(a, path, i, j);
    }
    hide PiecesMatch, AllAccepted;
    if ItemsMatch(items, path, i) {
      var j :| i <= j <= |path| && PiecesMatch([Many(a)], path, i, j) && ItemsMatch(items[1..], path, j);
      assert Onward(rest, path, j);
    }
    if j :| i <= j <= |path| && AllAccepted(a, path, i, j) && Onward(rest, path, j) {
      assert PiecesMatch([Many(a)], path, i, j) && ItemsMatch(items[1..], path, j);
    }
  }

  lemma OneItem(a: Atom, rest: seq<Item>, path: string, i: nat)
    requires i <= |path|
    ensures ItemsMatch([Plain(One(a))] + rest, path, i)
      <==> i < |path| && Accepts(a, path[i]) && Onward(rest, path, i + 1)
  {
    var items := [Plain(One(a))] + rest;
    assert items[1..] == rest;
    forall j | i <= j <= |path| ensures PiecesMatch([One(a)], path, i, j) <==> j == i + 1 && Accepts(a, path[i]) {
      OneMatches(a, path, i, j);
    }
  }

  lemma DirsItem(rest: seq<Item>, path: string, i: nat)
    requires i <= |path|
    ensures ItemsMatch([OPTIONAL_DIRS] + rest, path, i)
      <==> (Onward(rest, path, i)
            || exists j :: i < j <= |path| && path[j - 1] == '/' && AllAccepted(Dot, path, i, j - 1) && Onward(rest, path, j))
  {
    var items := [OPTIONAL_DIRS] + rest;
    var body := OPTIONAL_DIRS.body;
    assert items[1..] == rest;
    forall j | i <= j <= |path|
      ensures PiecesMatch(body, path, i, j) <==> i < j && path[j - 1] == '/' && AllAccepted(Dot, path, i, j - 1)
    {
      DirsMatch(path, i, j);
    }
    hide PiecesMatch, AllAccepted;
    if !Onward(rest, path, i) && ItemsMatch(items, path, i) {
      var j :| i <= j <= |path| && PiecesMatch(body, path, i, j) && ItemsMatch(items[1..], path, j);
      assert Onward(rest, path, j);
    }
    if j :| i < j <= |path| && path[j - 1] == '/' && AllAccepted(Dot, path, i, j - 1) && Onward(rest, path, j) {
      assert PiecesMatch(body, path, i, j) && ItemsMatch(items[1..], path, j);
    }
  }

  /** What the compiled items accept, the glob matches; the converse needs a path on one line. */
  lemma {:induction false} ItemsMean(g: string, path: string, i: nat)
    requires i <= |path|
    ensures ItemsMatch(Items(g), path, i) ==> GlobMatches(g, path, i)
    ensures OneLine(path) && GlobMatches(g, path, i) ==> ItemsMatch(Items(g), path, i)
    decreases |g|, 2
  {
    if g == "" {
      assert Items(g)[1..] == [];
    } else if StarStarSlash(g) {
      DirsMean(g, path, i);
    } else if StarStar(g) {
      StarStarMeans(g, path, i);
    } else if g[0] == '*' {
      StarMeans(g, path, i);
    } else {
      CharMeans(g, path, i);
    }
  }

  ghost predicate GlobOnward(g: string, path: string, j: nat) { j <= |path| && GlobMatches(g, path, j) }

  /** `ItemsMean` for everything after the first `n` characters of `g`. */
  ghost predicate TailAgrees(g: string, path: string) {
    && (forall j :: Onward(Items(g), path, j) ==> GlobOnward(g, path, j))
    && (OneLine(path) ==> forall j :: GlobOnward(g, path, j) ==> Onward(Items(g), path, j))
  }

  lemma {:induction false} TailMeans(g: string, path: string, n: nat)
    requires n <= |g| && 0 < n
    ensures TailAgrees(g[n..], path)
    decreases |g| - n, 3
  {
    forall j: nat | j <= |path|
      ensures Onward(Items(g[n..]), path, j) ==> GlobOnward(g[n..], path, j)
      ensures OneLine(path) && GlobOnward(g[n..], path, j) ==> Onward(Items(g[n..]), path, j)
    {
      ItemsMean(g[n..], path, j);
    }
  }

  /** Where the part of `path` taken by the leading star of `g` ends. */
  lemma StarEnd(g: string, path: string, i: nat) returns (j: nat)
    requires i <= |path| && StarStar(g) && !StarStarSlash(g) && GlobMatches(g, path, i)
    ensures i <= j <= |path| && GlobMatches(g[2..], path, j)
  {
    j :| i <= j <= |path| && GlobMatches(g[2..], path, j);
  }

  lemma SlashEnd(g: string, path: string, i: nat) returns (j: nat)
    requires i <= |path| && StarStarSlash(g) && GlobMatches(g, path, i) && !GlobMatches(g[3..], path, i)
    ensures i < j <= |path| && path[j - 1] == '/' && GlobMatches(g[3..], path, j)
  {
    j :| i < j <= |path| && path[j - 1] == '/' && GlobMatches(g[3..], path, j);
  }

  lemma NameEnd(g: string, path: string, i: nat) returns (j: nat)
    requires i <= |path| && g != "" && g[0] == '*' && !StarStar(g) && GlobMatches(g, path, i)
    ensures i <= j <= |path| && (forall k :: i <= k < j ==> path[k] != '/') && GlobMatches(g[1..], path, j)
  {
    j :| i <= j <= |path| && (forall k :: i <= k < j ==> path[k] != '/') && GlobMatches(g[1..], path, j);
  }

  lemma {:induction false} DirsMean(g: string, path: string, i: nat)
    requires i <= |path| && StarStarSlash(g)
    ensures ItemsMatch(Items(g), path, i) ==> GlobMatches(g, path, i)
    ensures OneLine(path) && GlobMatches(g, path, i) ==> ItemsMatch(Items(g), path, i)
    decreases |g|, 1
  {
    var t := g[3..];
    TailMeans(g, path, 3);
    DirsItem(Items(t), path, i);
    if ItemsMatch(Items(g), path, i) && !Onward(Items(t), path, i) {
      var j :| i < j <= |path| && path[j - 1] == '/' && AllAccepted(Dot, path, i, j - 1) && Onward(Items(t), path, j);
      assert GlobOnward(t, path, j);
      assert i < j <= |path| && path[j - 1] == '/' && GlobMatches(t, path, j);
    }
    if OneLine(path) && GlobMatches(g, path, i) && !GlobOnward(t, path, i) {
      var j := SlashEnd(g, path, i);
      assert GlobOnward(t, path, j);
      assert AllAccepted(Dot, path, i, j - 1) && Onward(Items(t), path, j);
    }
  }

  lemma {:induction false} StarStarMeans(g: string, path: string, i: nat)
    requires i <= |path| && StarStar(g) && !StarStarSlash(g)
    ensures ItemsMatch(Items(g), path, i) ==> GlobMatches(g, path, i)
    ensures OneLine(path) && GlobMatches(g, path, i) ==> ItemsMatch(Items(g), path, i)
    decreases |g|, 1
  {
    var t := g[2..];
    TailMeans(g, path, 2);
    ManyItem(Dot, Items(t), path, i);
    if ItemsMatch(Items(g), path, i) {
      var j :| i <= j <= |path| && AllAccepted(Dot, path, i, j) && Onward(Items(t), path, j);
      assert GlobOnward(t, path, j);
      assert i <= j <= |path| && GlobMatches(t, path, j);
    }
    if OneLine(path) && GlobMatches(g, path, i) {
      var j := StarEnd(g, path, i);
      assert GlobOnward(t, path, j);
      assert AllAccepted(Dot, path, i, j) && Onward(Items(t), path, j);
    }
  }

  lemma {:induction false} StarMeans(g: string, path: string, i: nat)
    requires i <= |path| && g != "" && g[0] == '*' && !StarStar(g)
    ensures ItemsMatch(Items(g), path, i) ==> GlobMatches(g, path, i)
    ensures OneLine(path) && GlobMatches(g, path, i) ==> ItemsMatch(Items(g), path, i)
    decreases |g|, 1
  {
    var t := g[1..];
    TailMeans(g, path, 1);
    ManyItem(NotSlash, Items(t), path, i);
    if ItemsMatch(Items(g), path, i) {
      var j :| i <= j <= |path| && AllAccepted(NotSlash, path, i, j) && Onward(Items(t), path, j);
      assert GlobOnward(t, path, j);
      assert i <= j <= |path| && (forall k :: i <= k < j ==> path[k] != '/') && GlobMatches(t, path, j);
    }
    if OneLine(path) && GlobMatches(g, path, i) {
      var j := NameEnd(g, path, i);
      assert GlobOnward(t, path, j);
      assert AllAccepted(NotSlash, path, i, j) && Onward(Items(t), path, j);
    }
  }

  lemma {:induction false} CharMeans(g: string, path: string, i: nat)
    requires i <= |path| && g != "" && g[0] != '*'
    ensures ItemsMatch(Items(g), path, i) ==> GlobMatches(g, path, i)
    ensures OneLine(path) && GlobMatches(g, path, i) ==> ItemsMatch(Items(g), path, i)
    decreases |g|, 1
  {
    var t := g[1..];
    TailMeans(g, path, 1);
    OneItem(if g[0] == '?' then NotSlash else Lit(g[0]), Items(t), path, i);
    assert Onward(Items(t), path, i + 1) ==> GlobOnward(t, path, i + 1);
    assert OneLine(path) && GlobOnward(t, path, i + 1) ==> Onward(Items(t), path, i + 1);
  }

  /** The pattern a glob compiles to. */
  function Pattern(glob: string): string { "^" + Emit(glob) + "$" }

  lemma PatternParses(glob: string)
    ensures ParseRegExp(Pattern(glob)) == Some([Start] + Items(glob))
  {
    var t := Pattern(glob);
    TextParsesBack(glob);
    assert t[0] == '^' && t[1..] == Emit(glob) + "$";
  }

  /**
    The compiler preserves meaning: on a path without line terminators the
    compiled expression accepts exactly what the glob matches, and on no path
    does it accept more.
   */
  lemma PatternMeansGlob(glob: string, path: string)
    ensures ParseRegExp(Pattern(glob)).Some?
    ensures RegExpTest(Pattern(glob), path) ==> GlobMatches(glob, path, 0)
    ensures OneLine(path) ==> (RegExpTest(Pattern(glob), path) <==> GlobMatches(glob, path, 0))
  {
    PatternParses(glob);
    ItemsMean(glob, path, 0);
    StartAnchors(Items(glob), path);
    hide GlobMatches, Items, ItemsMatch;
    if RegExpTest(Pattern(glob), path) {
      var i :| 0 <= i <= |path| && ItemsMatch([Start] + Items(glob), path, i);
    }
  }

  /** A pattern that starts with `^` matches from the start of the path only. */
  lemma StartAnchors(items: seq<Item>, path: string)
    ensures ItemsMatch([Start] + items, path, 0) <==> ItemsMatch(items, path, 0)
    ensures forall i :: 0 < i <= |path| ==> !ItemsMatch([Start] + items, path, i)
  {
    assert ([Start] + items)[1..] == items;
  }

  /** The compiled glob accepts the path. */
  predicate PatternAccepts(glob: string, path: string) {
    PatternParses(glob);
    RegExpTest(Pattern(glob), path)
  }

  /** `**` should cross everything, yet the compiled expression accepts one line only. */
  lemma StarStarIsOneLine(path: string)
    ensures GlobMatches("**", path, 0)
    ensures PatternAccepts("**", path) <==> OneLine(path)
  {
    var g := "**";
    assert StarStar(g) && g[2..] == "" && GlobMatches(g[2..], path, |path|);
    PatternMeansGlob(g, path);
    PatternParses(g);
    StartAnchors(Items(g), path);
    assert Items(g)[1..] == [End] && [End][1..] == [];
    assert Items(g) == [Plain(Many(Dot))] + [End];
    ManyItem(Dot, [End], path, 0);
    hide PiecesMatch, GlobMatches, Pattern, ParseRegExp;
    if PatternAccepts(g, path) {
      var i :| 0 <= i <= |path| && ItemsMatch([Start] + Items(g), path, i);
      var j :| 0 <= j <= |path| && AllAccepted(Dot, path, 0, j) && Onward([End], path, j);
      assert j == |path|;
      forall k | 0 <= k < |path| ensures !LineTerminator(path[k]) { assert Accepts(Dot, path[k]); }
    }
  }

  /** The compiler is exact on a path, for every glob, if and only if the path holds no line terminator. */
  lemma ExactIffOneLine(path: string)
    ensures OneLine(path) <==> forall glob :: PatternAccepts(glob, path) <==> GlobMatches(glob, path, 0)
  {
    StarStarIsOneLine(path);
    forall glob | OneLine(path) ensures PatternAccepts(glob, path) <==> GlobMatches(glob, path, 0) {
      PatternMeansGlob(glob, path);
    }
    hide GlobMatches, PatternAccepts;
    if forall glob :: PatternAccepts(glob, path) <==> GlobMatches(glob, path, 0) {
      assert PatternAccepts("**", path) <==> GlobMatches("**", path, 0);
    }
  }

  /** The shortest path on which a glob and its expression differ. */
  lemma LineTerminatorStopsStarStar()
    ensures GlobMatches("**", "\n", 0) && !PatternAccepts("**", "\n")
  {
    StarStarIsOneLine("\n");
    var path := "\n";
    assert LineTerminator(path[0]) && !OneLine(path);
  }
}
