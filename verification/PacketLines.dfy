/**
  How the archiver reads a line, in the characters of the index: which lines
  head a packet and under what name, which date it, and what a closed packet's
  month file must already hold for it to be dropped.
 */
module PacketLines {
  import opened Prelude
  import opened Archiver
  import opened ArchiveLaws
  import Separated

  // -------------------------------------------------------------------- headers

  predicate HeaderText(line: string) {
    "    - packet_id: " <= line || "    - id: " <= line || "    - order: " <= line
  }

  /** The keys that can head a packet. */
  predicate Key(k: string) { k == "packet_id" || k == "id" || k == "order" }

  function HeaderLine(key: string, value: string): string { "    - " + key + ": " + value + "\n" }

  lemma LeadsAre()
    ensures Lead(0) == "    - packet_id: " && Lead(1) == "    - id: " && Lead(2) == "    - order: "
  {}

  /** A packet is headed by `packet_id`, `id` or `order`, at the indentation of a step, and by nothing else. */
  lemma HeadersAre(line: string)
    ensures IsHeader(line) <==> HeaderText(line)
  {
    LeadsAre();
  }

  predicate Letter(c: char) { ('a' <= c && c <= 'z') || ('A' <= c && c <= 'Z') }

  /** What ends a packet without heading another: a line that begins with a letter. */
  lemma TopLevelLinesAre(line: string)
    ensures TopLevel(line) <==> line != "" && Letter(line[0])
  {}

  /** A name as the index writes it: nothing to strip, no quote, and no colon before a space. */
  ghost predicate PlainName(n: string) {
    && n != "" && !Blank(n[0]) && !Blank(n[|n| - 1])
    && (forall i :: 0 <= i < |n| ==> n[i] != '"')
    && NoColonSpace(n)
  }

  ghost predicate NoColonSpace(s: string) { forall i :: 0 <= i < |s| - 1 ==> !(s[i] == ':' && s[i + 1] == ' ') }

  ghost predicate Tidy(s: string) { s != "" && !Blank(s[0]) && !Blank(s[|s| - 1]) && NoColonSpace(s) }

  lemma {:induction false} StripsSpaces(n: nat, s: string)
    requires s != "" && !Blank(s[0])
    ensures StripStart(seq(n, _ => ' ') + s) == s
  {
    var spaces := seq(n, _ => ' ');
    if n == 0 {
      assert spaces + s == s;
    } else {
      StripsSpaces(n - 1, s);
      assert (spaces + s)[1..] == seq(n - 1, _ => ' ') + s;
    }
  }

  lemma {:induction false} StripsBlanks(s: string, blanks: string)
    requires forall i :: 0 <= i < |blanks| ==> Blank(blanks[i])
    ensures StripEnd(s + blanks) == StripEnd(s)
  {
    if blanks == "" {
      assert s + blanks == s;
    } else {
      StripsBlanks(s, blanks[..|blanks| - 1]);
      assert (s + blanks)[..|s + blanks| - 1] == s + blanks[..|blanks| - 1];
    }
  }

  lemma {:induction false} ColonBehind(a: string, b: string)
    requires forall i :: 0 <= i < |a| ==> a[i] != ':'
    ensures Colon(a + ": " + b) == |a|
  {
    var s := a + ": " + b;
    if a != "" {
      ColonBehind(a[1..], b);
      assert s[1..] == a[1..] + ": " + b;
    }
  }

  lemma TailHasNone(s: string, tail: string)
    requires NoColonSpace(s) && |s| >= 2 && tail == s[1..]
    ensures NoColonSpace(tail)
  {
    forall i | 0 <= i < |tail| - 1 ensures !(tail[i] == ':' && tail[i + 1] == ' ') {
      var j := i + 1;
      assert tail[i] == s[j] && tail[i + 1] == s[j + 1];
    }
  }

  lemma {:induction false} NoColon(s: string)
    requires NoColonSpace(s)
    ensures Colon(s) == |s|
  {
    if |s| >= 2 {
      TailHasNone(s, s[1..]);
      NoColon(s[1..]);
    }
  }

  lemma {:induction false} UnquotePlain(s: string)
    requires forall i :: 0 <= i < |s| ==> s[i] != '"'
    ensures Unquote(s) == s && Unquote(s + "\"") == s
  {
    if s == "" {
      var q := "\"";
      assert s + q == q && q[1..] == "";
    } else {
      UnquotePlain(s[1..]);
      assert (s + "\"")[1..] == s[1..] + "\"";
    }
  }

  lemma KeyIsPlain(key: string)
    requires Key(key)
    ensures forall i :: 0 <= i < |key| ==> key[i] != ':'
  {}

  /** What `strip` makes of a header with something behind the colon. */
  lemma StripHeader(key: string, value: string)
    requires value != "" && !Blank(value[|value| - 1])
    ensures Strip(HeaderLine(key, value)) == "- " + key + ": " + value
  {
    var s := "- " + key + ": " + value;
    var spaces := seq(4, _ => ' ');
    assert spaces == "    ";
    assert HeaderLine(key, value) == spaces + (s + "\n");
    StripsSpaces(4, s + "\n");
    StripsBlanks(s, "\n");
    assert s[|s| - 1] == value[|value| - 1];
  }

  lemma TidyIsStripped(s: string)
    requires Tidy(s)
    ensures Strip(s) == s && Colon(s) == |s|
  {
    NoColon(s);
  }

  lemma HeaderValue(key: string, value: string)
    requires Key(key) && Tidy(value)
    ensures HeaderId(HeaderLine(key, value)) == Some(Unquote(value))
  {
    var s, front := "- " + key + ": " + value, "- " + key;
    StripHeader(key, value);
    KeyIsPlain(key);
    assert forall i :: 0 <= i < |front| ==> front[i] != ':';
    ColonBehind(front, value);
    assert s == front + ": " + value && s[|front| + 2..] == value;
    TidyIsStripped(value);
    assert value[..|value|] == value;
    hide Strip, Colon, Unquote;
  }

  lemma HeaderLineIsHeader(key: string, value: string)
    requires Key(key)
    ensures IsHeader(HeaderLine(key, value))
  {
    var line := HeaderLine(key, value);
    HeadersAre(line);
    if key == "packet_id" {
      assert line == "    - packet_id: " + value + "\n";
    } else if key == "id" {
      assert line == "    - id: " + value + "\n";
    } else {
      assert line == "    - order: " + value + "\n";
    }
  }

  lemma QuotedIsTidy(n: string)
    requires PlainName(n)
    ensures Tidy(n) && Tidy("\"" + n + "\"") && Unquote(n) == n && Unquote("\"" + n + "\"") == n
  {
    var quoted := "\"" + n + "\"";
    UnquotePlain(n);
    assert quoted[1..] == n + "\"";
    forall i | 0 <= i < |quoted| - 1 ensures !(quoted[i] == ':' && quoted[i + 1] == ' ') {
      if 0 < i < |n| { assert quoted[i] == n[i - 1] && quoted[i + 1] == n[i]; }
    }
  }

  /** Each of the three keys heads a packet under the plain name behind it, bare or in quotes. */
  lemma HeadersNameTheirPacket(key: string, n: string)
    requires Key(key) && PlainName(n)
    ensures IsHeader(HeaderLine(key, n)) && HeaderId(HeaderLine(key, n)) == Some(n)
    ensures IsHeader(HeaderLine(key, "\"" + n + "\"")) && HeaderId(HeaderLine(key, "\"" + n + "\"")) == Some(n)
  {
    QuotedIsTidy(n);
    hide IsHeader, HeaderId, HeaderLine, Tidy, Unquote, PlainName;
    HeaderLineIsHeader(key, n);
    HeaderLineIsHeader(key, "\"" + n + "\"");
    HeaderValue(key, n);
    HeaderValue(key, "\"" + n + "\"");
  }

  /** A header with only blanks behind its colon has no name; there the script stops. */
  lemma BlankHeadersHaveNoName(key: string, blanks: string)
    requires Key(key) && forall i :: 0 <= i < |blanks| ==> Blank(blanks[i])
    ensures IsHeader(HeaderLine(key, blanks)) && HeaderId(HeaderLine(key, blanks)) == None
  {
    HeaderLineIsHeader(key, blanks);
    var s, rest, spaces := "- " + key + ":", " " + blanks + "\n", seq(4, _ => ' ');
    assert spaces == "    ";
    assert HeaderLine(key, blanks) == spaces + (s + rest);
    StripsSpaces(4, s + rest);
    StripsBlanks(s, rest);
    assert s[|s| - 1] == ':';
    KeyIsPlain(key);
    assert NoColonSpace(s);
    NoColon(s);
    hide HeaderLine, IsHeader, Colon;
  }

  // ------------------------------------------------------------------- whole rows

  /** Row `h` of the index: its header, and the lines behind it up to line `i`, none of which heads a packet or stands at the top. */
  ghost predicate InRow(lines: seq<string>, h: nat, i: nat)
    requires h <= i < |lines|
  {
    forall j :: h < j <= i ==> !HeaderText(lines[j]) && !(lines[j] != "" && Letter(lines[j][0]))
  }

  lemma {:induction false} RowsHeader(lines: seq<string>, h: nat, i: nat)
    requires h <= i < |lines| && InRow(lines, h, i) && IsHeader(lines[h])
    ensures HeaderOf(lines, i) == Some(h)
  {
    hide IsHeader, TopLevel, HeaderText, Letter;
    if h < i {
      HeadersAre(lines[i]);
      TopLevelLinesAre(lines[i]);
      assert !HeaderText(lines[i]) && !(lines[i] != "" && Letter(lines[i][0]));
      RowsHeader(lines, h, i - 1);
    }
  }

  /**
    A row headed by any of the keys under a plain name is kept, line by line, if
    and only if that name is not terminal. So a row that leads with `order` is
    a row of its own, and shares no fate with the one before it.
   */
  lemma RowStaysIff(lines: seq<string>, terminal: set<string>, archives: map<string, string>, key: string, n: string, h: nat, i: nat)
    requires h <= i < |lines| && InRow(lines, h, i)
    requires Key(key) && PlainName(n) && (lines[h] == HeaderLine(key, n) || lines[h] == HeaderLine(key, "\"" + n + "\""))
    requires !At(lines, terminal, archives, |lines|).crashed
    ensures var last := Final(lines, terminal, archives);
      |last.fates| == |lines| && (last.fates[i].Kept? <==> n !in terminal)
  {
    HeadersNameTheirPacket(key, n);
    hide IsHeader, HeaderId, HeaderLine, PlainName, At, Final;
    RowsHeader(lines, h, i);
    NewIndexIsTheKeptLines(lines, terminal, archives);
    StaysByHeader(lines, terminal, i, h);
  }

  // ------------------------------------------------------------------------ dates

  predicate Indent(s: string) { forall i :: 0 <= i < |s| ==> s[i] == ' ' || s[i] == '\t' }

  /** `2026-05`, say. */
  predicate YearMonth(m: string) {
    |m| == 7 && m[4] == '-' && forall i :: 0 <= i < 7 && i != 4 ==> '0' <= m[i] <= '9'
  }

  /** A `ts:` line of that month, its value in quotes or not. */
  ghost predicate TsLine(line: string, month: string, indent: string, quote: string, rest: string) {
    line == indent + "ts: " + quote + month + rest && Indent(indent) && YearMonth(month) && (quote == "" || quote == "\"")
  }

  lemma {:induction false} SkipsIndent(indent: string, s: string)
    requires Indent(indent) && s != "" && s[0] != ' ' && s[0] != '\t'
    ensures SkipBlanks(indent + s) == s
  {
    if indent == "" {
      assert indent + s == s;
    } else {
      SkipsIndent(indent[1..], s);
      assert (indent + s)[1..] == indent[1..] + s;
    }
  }

  lemma {:induction false} Skipped(s: string) returns (indent: string)
    ensures s == indent + SkipBlanks(s) && Indent(indent)
  {
    if s != "" && (s[0] == ' ' || s[0] == '\t') {
      var more := Skipped(s[1..]);
      indent := [s[0]] + more;
    } else {
      indent := "";
    }
  }

  lemma TsLineDates(line: string, month: string, indent: string, quote: string, rest: string)
    requires TsLine(line, month, indent, quote, rest)
    ensures Month(line) == Some(month)
  {
    var s := "ts: " + quote + month + rest;
    SkipsIndent(indent, s);
    assert line == indent + s;
    hide SkipBlanks;
    TsValueIs(s, month, quote, rest);
  }

  lemma TsValueIs(s: string, month: string, quote: string, rest: string)
    requires s == "ts: " + quote + month + rest && YearMonth(month) && (quote == "" || quote == "\"")
    ensures "ts: " <= s && |s| > 4
    ensures TsValue(s) == month + rest
    ensures (month + rest)[..7] == month && (month + rest)[4] == '-'
    ensures forall i :: 0 <= i < 7 && i != 4 ==> Digit((month + rest)[i])
  {
    var v := month + rest;
    assert s[..4] == "ts: ";
    if quote == "" {
      assert s == "ts: " + v && s[4] == month[0];
    } else {
      assert s == "ts: " + ("\"" + v) && s[4] == '"' && s[5..] == v;
    }
  }

  lemma MonthShape(line: string)
    requires Month(line).Some?
    ensures var s := SkipBlanks(line);
      && "ts: " <= s && |TsValue(s)| >= 7 && Month(line).value == TsValue(s)[..7] && YearMonth(TsValue(s)[..7])
  {
    hide SkipBlanks;
    var s := SkipBlanks(line);
    var v := TsValue(s);
    var month := v[..7];
    assert Month(line) == Some(month);
    forall i | 0 <= i < 7 && i != 4 ensures '0' <= month[i] <= '9' {
      assert Digit(v[i]);
    }
  }

  lemma DatedLineIsTs(line: string) returns (indent: string, quote: string, rest: string)
    requires Month(line).Some?
    ensures TsLine(line, Month(line).value, indent, quote, rest)
  {
    indent := Skipped(line);
    MonthShape(line);
    hide SkipBlanks, Month, YearMonth, Indent;
    var s := SkipBlanks(line);
    var v := TsValue(s);
    quote := if |s| > 4 && s[4] == '"' then "\"" else "";
    rest := v[7..];
    assert s[..4] == "ts: ";
    assert s == "ts: " + quote + v;
    assert v == v[..7] + rest;
    assert line == indent + "ts: " + quote + v[..7] + rest;
  }

  /** A line dates its packet exactly if it is a `ts:` line, and then by its year and month. */
  lemma DatesAre(line: string, month: string)
    ensures Month(line) == Some(month) <==> exists indent, quote, rest :: TsLine(line, month, indent, quote, rest)
  {
    hide Month, TsLine;
    if Month(line) == Some(month) {
      var indent, quote, rest := DatedLineIsTs(line);
    }
    if indent, quote, rest :| TsLine(line, month, indent, quote, rest) {
      TsLineDates(line, month, indent, quote, rest);
    }
  }

  /** A packet with no dated line goes to May 2026, and a month's file begins with the two lines of an index. */
  lemma {:induction false} UndatedPackets(lines: seq<string>, h: nat, k: nat)
    requires k <= |lines| && forall j :: h < j < k ==> Month(lines[j]).None?
    ensures MonthSince(lines, h, k) == "2026-05"
  {
    hide Month;
    if k > h + 1 { UndatedPackets(lines, h, k - 1); }
  }

  lemma NewMonthFiles(month: string)
    ensures FileOf(map[], month) == "plan_index:\n" + "  steps:\n"
  {}

  /** A month file already has a packet exactly if one of its lines is one of the keys' header of just this name, unquoted. */
  lemma HasIdIs(text: string, id: string)
    ensures HasId(text, id) <==> exists key :: Key(key) && "    - " + key + ": " + id in Separated.Split(text, '\n')
  {
    LeadsAre();
    var lines := Separated.Split(text, '\n');
    hide Lead, Separated.Split;
    assert "    - packet_id: " + id == "    - " + "packet_id" + ": " + id;
    assert "    - id: " + id == "    - " + "id" + ": " + id;
    assert "    - order: " + id == "    - " + "order" + ": " + id;
    if HasId(text, id) {
      assert Key("packet_id") && Key("id") && Key("order");
    }
  }

  // -------------------------------------------------------------------- the count

  /** The packets among the first `n` lines that were appended to a month file, one for each header. */
  function Archived(lines: seq<string>, fates: seq<Fate>, n: nat): nat
    requires n <= |lines| && n <= |fates|
  {
    if n == 0 then 0
    else Archived(lines, fates, n - 1) + if IsHeader(lines[n - 1]) && fates[n - 1].Appended? then 1 else 0
  }

  lemma {:induction false} ArchivedPrefix(lines: seq<string>, fates: seq<Fate>, more: seq<Fate>, n: nat)
    requires n <= |lines| && n <= |fates|
    ensures Archived(lines, fates + more, n) == Archived(lines, fates, n)
  {
    hide IsHeader;
    if n > 0 { ArchivedPrefix(lines, fates, more, n - 1); }
  }

  /** A packet's lines add one if they are appended: the header's. */
  lemma {:induction false} ArchivedBlock(lines: seq<string>, fates: seq<Fate>, h: nat, k: nat)
    requires h < k <= |lines| && k <= |fates| && HeaderOf(lines, k - 1) == Some(h)
    requires forall i :: h <= i < k ==> fates[i] == fates[h]
    ensures Archived(lines, fates, k) == Archived(lines, fates, h) + if fates[h].Appended? then 1 else 0
  {
    hide IsHeader, TopLevel;
    if h < k - 1 {
      assert !IsHeader(lines[k - 1]);
      ArchivedBlock(lines, fates, h, k - 1);
    } else {
      assert IsHeader(lines[h]);
    }
  }

  ghost predicate CountInv(lines: seq<string>, st: State) {
    |st.fates| <= |lines| && st.count == Archived(lines, st.fates, |st.fates|)
  }

  lemma FlushCounts(st: State)
    ensures Flush(st).count == st.count + if st.current != [] && FlushFate(st).Appended? then 1 else 0
  {
    hide HasId, FileOf, Concat, Puts;
  }

  lemma FlushKeepsCount(lines: seq<string>, terminal: set<string>, k: nat, st: State)
    requires k <= |lines| && Bookkept(lines, terminal, k, st) && CountInv(lines, st)
    ensures |Flush(st).fates| == k && CountInv(lines, Flush(st))
  {
    var h, fate := |st.fates|, FlushFate(st);
    FlushShape(st);
    FlushCounts(st);
    var block := Repeat(fate, |st.current|);
    ArchivedPrefix(lines, st.fates, block, h);
    hide Flush, FlushFate, IsHeader, HeaderId, TopLevel, HeaderOf;
    assert forall i :: h <= i < k ==> (st.fates + block)[i] == fate;
    if st.inPacket { ArchivedBlock(lines, st.fates + block, h, k); }
  }

  lemma KeptKeepsCount(lines: seq<string>, st: State, st': State)
    requires |st.fates| < |lines| && CountInv(lines, st) && st'.fates == st.fates + [Kept] && st'.count == st.count
    ensures CountInv(lines, st')
  {
    ArchivedPrefix(lines, st.fates, [Kept], |st.fates|);
    hide IsHeader;
  }

  lemma LineCounts(st: State, line: string, terminal: set<string>)
    requires !st.crashed
    ensures OnLine(st, line, terminal).count ==
      if IsHeader(line) then Flush(st).count else if st.inPacket && TopLevel(line) then Flush(Dated(st, line)).count else st.count
  {
    hide Flush, IsHeader, HeaderId, TopLevel, Month;
  }

  lemma LineKeepsCount(lines: seq<string>, terminal: set<string>, k: nat, st: State)
    requires k < |lines| && Bookkept(lines, terminal, k, st) && KeptInv(lines, terminal, st) && CountInv(lines, st)
    ensures CountInv(lines, OnLine(st, lines[k], terminal))
  {
    var line, dated := lines[k], Dated(st, lines[k]);
    OnLineShape(st, line, terminal);
    LineCounts(st, line, terminal);
    DatedKeeps(lines, terminal, k, st, line);
    assert dated.fates == st.fates && dated.count == st.count;
    FlushKeepsCount(lines, terminal, k, st);
    FlushKeepsCount(lines, terminal, k, dated);
    var next := OnLine(st, line, terminal);
    hide OnLine, Flush, Bookkept, KeptInv, IsHeader, HeaderId, TopLevel, Month, Dated;
    if !IsHeader(line) && st.inPacket && TopLevel(line) { KeptKeepsCount(lines, Flush(dated), next); }
    if !IsHeader(line) && !st.inPacket {
      NoPacketNoLines(lines, terminal, k, st);
      KeptKeepsCount(lines, st, next);
    }
    hide CountInv;
  }

  lemma NoPacketNoLines(lines: seq<string>, terminal: set<string>, k: nat, st: State)
    requires k < |lines| && Bookkept(lines, terminal, k, st) && !st.inPacket
    ensures |st.fates| == k
  {
    hide HeaderOf, HeaderId;
  }

  lemma {:induction false} LoopKeepsCount(lines: seq<string>, terminal: set<string>, archives: map<string, string>, k: nat)
    requires k <= |lines| && !At(lines, terminal, archives, k).crashed
    ensures CountInv(lines, At(lines, terminal, archives, k))
  {
    hide *;
    if k == 0 {
      NoneCounted(lines, terminal, archives);
    } else {
      var before := At(lines, terminal, archives, k - 1);
      Unfold(lines, terminal, archives, k - 1);
      CrashStep(before, lines[k - 1], terminal);
      LoopKeeps(lines, terminal, archives, k - 1);
      LoopKeepsCount(lines, terminal, archives, k - 1);
      LineKeepsCount(lines, terminal, k - 1, before);
    }
  }

  lemma NoneCounted(lines: seq<string>, terminal: set<string>, archives: map<string, string>)
    ensures CountInv(lines, At(lines, terminal, archives, 0))
  {}

  /** The number the script reports is that of the packets it appended. */
  lemma CountIsTheArchived(lines: seq<string>, terminal: set<string>, archives: map<string, string>)
    requires !At(lines, terminal, archives, |lines|).crashed
    ensures var last := Final(lines, terminal, archives);
      |last.fates| == |lines| && last.count == Archived(lines, last.fates, |lines|)
  {
    LoopKeeps(lines, terminal, archives, |lines|);
    LoopKeepsCount(lines, terminal, archives, |lines|);
    hide At, Flush, Bookkept, KeptInv;
    FlushKeepsCount(lines, terminal, |lines|, At(lines, terminal, archives, |lines|));
  }
}
