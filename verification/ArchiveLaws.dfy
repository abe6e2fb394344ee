/** What a run of the archiver keeps, moves and leaves for a second run. */
module ArchiveLaws {
  import opened Prelude
  import opened Archiver
  import Separated

  // ------------------------------------------------------------- whose line it is

  /** The header of the packet that line `i` belongs to, if it belongs to one. */
  function HeaderOf(lines: seq<string>, i: nat): (h: Option<nat>)
    requires i < |lines|
    ensures h.Some? ==> h.value <= i && IsHeader(lines[h.value])
  {
    if IsHeader(lines[i]) then Some(i)
    else if TopLevel(lines[i]) || i == 0 then None
    else HeaderOf(lines, i - 1)
  }

  /** A line stays unless its packet's header names a terminal id. */
  predicate Stays(lines: seq<string>, terminal: set<string>, i: nat)
    requires i < |lines|
  {
    var h := HeaderOf(lines, i);
    h.Some? && HeaderId(lines[h.value]).Some? ==> HeaderId(lines[h.value]).value !in terminal
  }

  /** The lines that stay, in order. */
  function KeptLines(lines: seq<string>, terminal: set<string>, n: nat): seq<string>
    requires n <= |lines|
  {
    if n == 0 then []
    else if Stays(lines, terminal, n - 1) then KeptLines(lines, terminal, n - 1) + [lines[n - 1]]
    else KeptLines(lines, terminal, n - 1)
  }

  // ----------------------------------------------------------- the loop invariant

  /** Every line is accounted for once: settled in order, or waiting in the open packet. */
  ghost predicate Bookkept(lines: seq<string>, terminal: set<string>, k: nat, st: State)
    requires k <= |lines|
  {
    var h := |st.fates|;
    && !st.crashed
    && h + |st.current| == k && st.current == lines[h..k]
    && (st.current == [] <==> !st.inPacket)
    && (k > 0 ==> HeaderOf(lines, k - 1) == if st.inPacket then Some(h) else None)
    && (st.inPacket ==> HeaderId(lines[h]) == Some(st.id) && st.closed == (st.id in terminal))
  }

  ghost predicate KeptInv(lines: seq<string>, terminal: set<string>, st: State) {
    && |st.fates| <= |lines|
    && st.active == KeptLines(lines, terminal, |st.fates|)
    && forall i :: 0 <= i < |st.fates| ==> (st.fates[i].Kept? <==> Stays(lines, terminal, i))
  }

  /** All lines of the open packet share its header. */
  lemma {:induction false} SamePacket(lines: seq<string>, h: nat, i: nat, k: nat)
    requires h <= i < k <= |lines| && HeaderOf(lines, k - 1) == Some(h)
    ensures HeaderOf(lines, i) == Some(h)
  {
    if i < k - 1 { SamePacket(lines, h, i, k - 1); }
  }

  lemma {:induction false} KeptRange(lines: seq<string>, terminal: set<string>, h: nat, k: nat, stay: bool)
    requires h <= k <= |lines|
    requires forall i :: h <= i < k ==> Stays(lines, terminal, i) == stay
    ensures KeptLines(lines, terminal, k) == KeptLines(lines, terminal, h) + if stay then lines[h..k] else []
  {
    hide Stays;
    if h < k {
      KeptRange(lines, terminal, h, k - 1, stay);
      assert lines[h..k] == lines[h..k - 1] + [lines[k - 1]];
      Joined(KeptLines(lines, terminal, h), lines[h..k - 1], lines[k - 1]);
    }
  }

  lemma Joined(a: seq<string>, b: seq<string>, last: string)
    ensures a + b + [last] == a + (b + [last]) && a + [] == a
  {}

  /** A flush gives all lines of the open packet one fate, and keeps them if the packet is open. */
  lemma FlushShape(st: State)
    ensures var f := Flush(st);
      && f.fates == st.fates + Repeat(FlushFate(st), |st.current|)
      && (FlushFate(st).Kept? <==> !st.closed)
      && f.active == st.active + (if st.closed then [] else st.current)
      && f.(active := st.active, current := st.current, fates := st.fates, archives := st.archives, count := st.count) == st
      && f.current == []
  {
    hide HasId, Concat, Puts, FileOf;
    if st.current == [] {
      assert Repeat(FlushFate(st), 0) == [];
      assert st.fates + [] == st.fates && st.active + [] == st.active;
    } else if st.closed {
      assert st.active + [] == st.active;
    }
  }

  lemma FlushKeeps(lines: seq<string>, terminal: set<string>, k: nat, st: State)
    requires k <= |lines| && Bookkept(lines, terminal, k, st) && KeptInv(lines, terminal, st)
    ensures |Flush(st).fates| == k && KeptInv(lines, terminal, Flush(st))
  {
    var h := |st.fates|;
    FlushShape(st);
    hide Flush, FlushFate, Stays, KeptLines;
    assert st.fates + [] == st.fates && st.active + [] == st.active;
    if st.inPacket {
      forall i | h <= i < k ensures Stays(lines, terminal, i) == !st.closed {
        SamePacket(lines, h, i, k);
        StaysByHeader(lines, terminal, i, h);
      }
      KeptRange(lines, terminal, h, k, !st.closed);
      var f := Flush(st);
      assert forall i :: 0 <= i < k ==> f.fates[i] == if i < h then st.fates[i] else FlushFate(st);
    }
  }

  lemma StaysByHeader(lines: seq<string>, terminal: set<string>, i: nat, h: nat)
    requires i < |lines| && HeaderOf(lines, i) == Some(h) && HeaderId(lines[h]).Some?
    ensures Stays(lines, terminal, i) <==> HeaderId(lines[h]).value !in terminal
  {}

  lemma HeaderKeeps(lines: seq<string>, terminal: set<string>, k: nat, st: State)
    requires k < |lines| && Bookkept(lines, terminal, k, st) && KeptInv(lines, terminal, st)
    requires IsHeader(lines[k]) && HeaderId(lines[k]).Some?
    ensures Bookkept(lines, terminal, k + 1, OnLine(st, lines[k], terminal))
    ensures KeptInv(lines, terminal, OnLine(st, lines[k], terminal))
  {
    HeaderLine(st, lines[k], terminal);
    assert HeaderOf(lines, k) == Some(k);
    FlushShape(st);
    hide OnLine, Flush, FlushFate, HeaderOf, IsHeader, HeaderId, KeptLines, Stays;
    FlushKeeps(lines, terminal, k, st);
    assert lines[k..k + 1] == [lines[k]];
  }

  lemma HeaderLine(st: State, line: string, terminal: set<string>)
    requires !st.crashed && IsHeader(line) && HeaderId(line).Some?
    ensures var id := HeaderId(line).value;
      OnLine(st, line, terminal)
        == Flush(st).(inPacket := true, current := [line], closed := id in terminal, date := MONTH_DEFAULT, id := id)
  {
    hide Flush, IsHeader, HeaderId;
  }

  lemma DatedKeeps(lines: seq<string>, terminal: set<string>, k: nat, st: State, line: string)
    requires k <= |lines| && Bookkept(lines, terminal, k, st) && KeptInv(lines, terminal, st)
    ensures Bookkept(lines, terminal, k, Dated(st, line)) && KeptInv(lines, terminal, Dated(st, line))
  {
    hide HeaderOf, Month, KeptLines;
  }

  lemma TopKeeps(lines: seq<string>, terminal: set<string>, k: nat, st: State)
    requires k < |lines| && Bookkept(lines, terminal, k, st) && KeptInv(lines, terminal, st)
    requires !IsHeader(lines[k]) && TopLevel(lines[k]) && st.inPacket
    ensures Bookkept(lines, terminal, k + 1, OnLine(st, lines[k], terminal))
    ensures KeptInv(lines, terminal, OnLine(st, lines[k], terminal))
  {
    DatedKeeps(lines, terminal, k, st, lines[k]);
    TopLine(st, lines[k], terminal);
    assert Stays(lines, terminal, k) && HeaderOf(lines, k) == None;
    hide Flush, OnLine, KeptInv, Stays, IsHeader, HeaderId, TopLevel, Dated;
    FlushKeeps(lines, terminal, k, Dated(st, lines[k]));
    FlushEmpties(Dated(st, lines[k]));
    AppendKept(lines, terminal, k, Flush(Dated(st, lines[k])));
  }

  lemma TopLine(st: State, line: string, terminal: set<string>)
    requires !st.crashed && !IsHeader(line) && TopLevel(line) && st.inPacket
    ensures var f := Flush(Dated(st, line));
      OnLine(st, line, terminal) == f.(inPacket := false, active := f.active + [line], fates := f.fates + [Kept])
  {
    hide Flush, Dated;
  }

  lemma AppendKept(lines: seq<string>, terminal: set<string>, k: nat, st: State)
    requires k < |lines| && |st.fates| == k && KeptInv(lines, terminal, st) && Stays(lines, terminal, k)
    ensures KeptInv(lines, terminal, st.(inPacket := false, active := st.active + [lines[k]], fates := st.fates + [Kept]))
  {
    hide Stays;
  }

  lemma OtherKeeps(lines: seq<string>, terminal: set<string>, k: nat, st: State)
    requires k < |lines| && Bookkept(lines, terminal, k, st) && KeptInv(lines, terminal, st)
    requires !IsHeader(lines[k]) && !(TopLevel(lines[k]) && st.inPacket)
    ensures Bookkept(lines, terminal, k + 1, OnLine(st, lines[k], terminal))
    ensures KeptInv(lines, terminal, OnLine(st, lines[k], terminal))
  {
    hide IsHeader, HeaderId, TopLevel, Month;
    if !st.inPacket { assert Stays(lines, terminal, k); }
    hide Stays;
  }

  lemma LineKeeps(lines: seq<string>, terminal: set<string>, k: nat, st: State)
    requires k < |lines| && Bookkept(lines, terminal, k, st) && KeptInv(lines, terminal, st)
    requires !OnLine(st, lines[k], terminal).crashed
    ensures Bookkept(lines, terminal, k + 1, OnLine(st, lines[k], terminal))
    ensures KeptInv(lines, terminal, OnLine(st, lines[k], terminal))
  {
    CrashStep(st, lines[k], terminal);
    hide OnLine, Bookkept, KeptInv, IsHeader, HeaderId, TopLevel;
    if IsHeader(lines[k]) {
      HeaderKeeps(lines, terminal, k, st);
    } else if TopLevel(lines[k]) && st.inPacket {
      TopKeeps(lines, terminal, k, st);
    } else {
      OtherKeeps(lines, terminal, k, st);
    }
  }

  lemma {:induction false} LoopKeeps(lines: seq<string>, terminal: set<string>, archives: map<string, string>, k: nat)
    requires k <= |lines| && !At(lines, terminal, archives, k).crashed
    ensures Bookkept(lines, terminal, k, At(lines, terminal, archives, k))
    ensures KeptInv(lines, terminal, At(lines, terminal, archives, k))
  {
    if k > 0 {
      var st := At(lines, terminal, archives, k - 1);
      CrashStep(st, lines[k - 1], terminal);
      hide OnLine, Bookkept, KeptInv;
      LoopKeeps(lines, terminal, archives, k - 1);
      LineKeeps(lines, terminal, k - 1, st);
    }
  }

  /**
    Conservation, first half. Unless a header is malformed, the new index is
    exactly the old one without the packets whose header id is terminal: every
    other packet is there whole, and all lines are in their old order.
   */
  lemma NewIndexIsTheKeptLines(lines: seq<string>, terminal: set<string>, archives: map<string, string>)
    requires !At(lines, terminal, archives, |lines|).crashed
    ensures Final(lines, terminal, archives).active == KeptLines(lines, terminal, |lines|)
    ensures |Final(lines, terminal, archives).fates| == |lines|
    ensures forall i :: 0 <= i < |lines| ==> (Final(lines, terminal, archives).fates[i].Kept? <==> Stays(lines, terminal, i))
  {
    var st := At(lines, terminal, archives, |lines|);
    LoopKeeps(lines, terminal, archives, |lines|);
    FlushKeeps(lines, terminal, |lines|, st);
  }

  /** The script stops at the first header without an id, and only there. */
  lemma {:induction false} CrashesIff(lines: seq<string>, terminal: set<string>, archives: map<string, string>, k: nat)
    requires k <= |lines|
    ensures At(lines, terminal, archives, k).crashed
       <==> exists i :: 0 <= i < k && IsHeader(lines[i]) && HeaderId(lines[i]).None?
  {
    if k > 0 {
      CrashesIff(lines, terminal, archives, k - 1);
      CrashStep(At(lines, terminal, archives, k - 1), lines[k - 1], terminal);
    }
  }

  lemma CrashStep(st: State, line: string, terminal: set<string>)
    ensures OnLine(st, line, terminal).crashed <==> st.crashed || (IsHeader(line) && HeaderId(line).None?)
  {
    FlushEmpties(st);
    FlushEmpties(Dated(st, line));
    hide Flush, IsHeader, HeaderId, Month;
  }

  // ------------------------------------------------------------------ month files

  /** What the month file gains, read off the fates: its lines, in order, each ended by a newline. */
  function Moved(lines: seq<string>, fates: seq<Fate>, month: string, n: nat): string
    requires n <= |lines| && n <= |fates|
  {
    if n == 0 then ""
    else if fates[n - 1] == Appended(month) then Moved(lines, fates, month, n - 1) + Puts(lines[n - 1])
    else Moved(lines, fates, month, n - 1)
  }

  /** Lines as `readlines` gives them: a newline ends each, save perhaps the last. */
  ghost predicate AsRead(lines: seq<string>) {
    && (forall i :: 0 <= i < |lines| ==> lines[i] != "")
    && (forall i :: 0 <= i < |lines| - 1 ==> lines[i][|lines[i]| - 1] == '\n')
    && (forall i, j :: 0 <= i < |lines| && 0 <= j < |lines[i]| - 1 ==> lines[i][j] != '\n')
  }

  lemma {:induction false} MovedIgnoresLater(lines: seq<string>, fates: seq<Fate>, more: seq<Fate>, month: string, n: nat)
    requires n <= |lines| && n <= |fates|
    ensures Moved(lines, fates + more, month, n) == Moved(lines, fates, month, n)
  {
    if n > 0 { MovedIgnoresLater(lines, fates, more, month, n - 1); }
  }

  lemma {:induction false} MovedBlock(lines: seq<string>, fates: seq<Fate>, month: string, h: nat, k: nat)
    requires AsRead(lines) && h < k <= |lines| && k <= |fates|
    requires forall i :: h <= i < k ==> fates[i] == Appended(month)
    ensures Moved(lines, fates, month, k) == Moved(lines, fates, month, h) + Puts(Concat(lines[h..k]))
  {
    hide Puts, Concat, AsRead;
    if h < k - 1 { MovedBlock(lines, fates, month, h, k - 1); }
    PutsGrows(lines, h, k);
    Associate(Moved(lines, fates, month, h), if h < k - 1 then Puts(Concat(lines[h..k - 1])) else "", Puts(lines[k - 1]));
  }

  lemma PutsGrows(lines: seq<string>, h: nat, k: nat)
    requires AsRead(lines) && h < k <= |lines|
    ensures Puts(Concat(lines[h..k])) == (if h < k - 1 then Puts(Concat(lines[h..k - 1])) else "") + Puts(lines[k - 1])
  {
    var last, block := lines[k - 1], lines[h..k - 1];
    assert last != "" && lines[h..k] == block + [last];
    hide Puts, Concat, AsRead;
    ConcatLast(block, last);
    if h == k - 1 {
      ConcatNothing();
      assert "" + last == last && "" + Puts(last) == Puts(last);
    } else {
      BlockEndsInNewline(lines, h, k - 1);
      PutsAfter(Concat(block), last);
    }
  }

  lemma Associate(a: string, b: string, c: string)
    ensures a + b + c == a + (b + c)
  {}

  lemma ConcatNothing()
    ensures Concat([]) == ""
  {}

  lemma {:induction false} ConcatLast(xs: seq<string>, last: string)
    ensures Concat(xs + [last]) == Concat(xs) + last
  {
    if xs == [] {
      assert xs + [last] == [last];
      assert [last][1..] == [];
    } else {
      ConcatLast(xs[1..], last);
      assert (xs + [last])[1..] == xs[1..] + [last];
    }
  }

  lemma {:induction false} BlockEndsInNewline(lines: seq<string>, h: nat, k: nat)
    requires AsRead(lines) && h < k < |lines|
    ensures var t := Concat(lines[h..k]); t != "" && t[|t| - 1] == '\n'
  {
    var last := lines[k - 1];
    assert lines[h..k] == lines[h..k - 1] + [last];
    ConcatLast(lines[h..k - 1], last);
  }

  lemma PutsAfter(block: string, last: string)
    requires block != "" && block[|block| - 1] == '\n' && last != ""
    ensures Puts(block) + Puts(last) == Puts(block + last)
  {
    assert block + (last + "\n") == block + last + "\n";
  }

  lemma {:induction false} MovedSkips(lines: seq<string>, fates: seq<Fate>, month: string, h: nat, k: nat)
    requires h <= k <= |lines| && k <= |fates|
    requires forall i :: h <= i < k ==> fates[i] != Appended(month)
    ensures Moved(lines, fates, month, k) == Moved(lines, fates, month, h)
  {
    if h < k { MovedSkips(lines, fates, month, h, k - 1); }
  }

  /** A month file is what it was before, then the lines that went to it. */
  ghost predicate FileInv(lines: seq<string>, archives: map<string, string>, st: State, month: string) {
    && |st.fates| <= |lines|
    && FileOf(st.archives, month) == FileOf(archives, month) + Moved(lines, st.fates, month, |st.fates|)
  }

  lemma FlushFiles(st: State, month: string)
    ensures var fate := FlushFate(st);
      FileOf(Flush(st).archives, month)
        == FileOf(st.archives, month) + (if st.current != [] && fate == Appended(month) then Puts(Concat(st.current)) else "")
  {
    hide HasId, Concat, Puts;
    assert FileOf(st.archives, month) + "" == FileOf(st.archives, month);
  }

  lemma FlushKeepsFile(lines: seq<string>, archives: map<string, string>, k: nat, st: State, month: string)
    requires AsRead(lines) && k <= |lines| && |st.fates| + |st.current| == k && st.current == lines[|st.fates|..k]
    requires FileInv(lines, archives, st, month)
    ensures |Flush(st).fates| == k && FileInv(lines, archives, Flush(st), month)
  {
    var h, fate := |st.fates|, FlushFate(st);
    var fates := st.fates + Repeat(fate, |st.current|);
    FlushShape(st);
    FlushFiles(st, month);
    MovedIgnoresLater(lines, st.fates, Repeat(fate, |st.current|), month, h);
    assert forall i :: h <= i < k ==> fates[i] == fate;
    hide AsRead, Flush, FlushFate, FileOf, Repeat, Puts, Concat;
    if h < k && fate == Appended(month) {
      MovedBlock(lines, fates, month, h, k);
      Associate(FileOf(archives, month), Moved(lines, fates, month, h), Puts(Concat(st.current)));
    } else {
      MovedSkips(lines, fates, month, h, k);
      assert FileOf(st.archives, month) + "" == FileOf(st.archives, month);
    }
  }

  lemma KeptLineKeepsFile(lines: seq<string>, archives: map<string, string>, st: State, month: string)
    requires |st.fates| < |lines| && FileInv(lines, archives, st, month)
    ensures forall st': State :: st'.archives == st.archives && st'.fates == st.fates + [Kept] ==> FileInv(lines, archives, st', month)
  {
    MovedIgnoresLater(lines, st.fates, [Kept], month, |st.fates|);
  }

  /** Where a line leaves the month files, the fates and the packet's date. */
  lemma OnLineShape(st: State, line: string, terminal: set<string>)
    requires !st.crashed
    ensures var next, flushed, dated := OnLine(st, line, terminal), Flush(st), Dated(st, line);
      if IsHeader(line) then
        && next.archives == flushed.archives && next.fates == flushed.fates
        && (HeaderId(line).Some? ==> next.date == MONTH_DEFAULT && next.current == [line])
      else if st.inPacket && TopLevel(line) then
        next.archives == Flush(dated).archives && next.fates == Flush(dated).fates + [Kept] && !next.inPacket
      else if st.inPacket then
        next.archives == st.archives && next.fates == st.fates && next.date == dated.date && next.closed == st.closed
      else next.archives == st.archives && next.fates == st.fates + [Kept] && !next.inPacket
  {
    hide Flush, IsHeader, HeaderId, TopLevel, Month;
  }

  lemma LineKeepsFile(lines: seq<string>, terminal: set<string>, archives: map<string, string>, k: nat, st: State, month: string)
    requires AsRead(lines) && k < |lines| && Bookkept(lines, terminal, k, st) && FileInv(lines, archives, st, month)
    ensures FileInv(lines, archives, OnLine(st, lines[k], terminal), month)
  {
    var line := lines[k];
    var dated := Dated(st, line);
    FlushKeepsFile(lines, archives, k, st, month);
    FlushKeepsFile(lines, archives, k, dated, month);
    KeptLineKeepsFile(lines, archives, Flush(dated), month);
    if !st.inPacket { KeptLineKeepsFile(lines, archives, st, month); }
    OnLineShape(st, line, terminal);
    assert FileInv(lines, archives, OnLine(st, line, terminal), month) by {
      hide AsRead, Flush, Month, IsHeader, HeaderId, TopLevel, Moved, FileOf, OnLine;
    }
  }

  lemma {:induction false} LoopKeepsFile(lines: seq<string>, terminal: set<string>, archives: map<string, string>, k: nat, month: string)
    requires AsRead(lines) && k <= |lines| && !At(lines, terminal, archives, k).crashed
    ensures FileInv(lines, archives, At(lines, terminal, archives, k), month)
  {
    if k == 0 {
      assert FileOf(archives, month) + "" == FileOf(archives, month);
    } else {
      var st := At(lines, terminal, archives, k - 1);
      CrashStep(st, lines[k - 1], terminal);
      hide OnLine, Bookkept, AsRead, KeptInv, FileInv, FileOf;
      assert At(lines, terminal, archives, k) == OnLine(st, lines[k - 1], terminal);
      LoopKeeps(lines, terminal, archives, k - 1);
      LoopKeepsFile(lines, terminal, archives, k - 1, month);
      hide FileInv;
      LineKeepsFile(lines, terminal, archives, k - 1, st, month);
    }
  }

  /**
    Conservation, second half. Each month file ends up as it was, or freshly
    headed, followed by exactly the lines sent to it, in order; no line is
    changed but for the newline that the last line of the index may lack.
   */
  lemma MonthFilesGainTheMovedLines(lines: seq<string>, terminal: set<string>, archives: map<string, string>, month: string)
    requires AsRead(lines) && !At(lines, terminal, archives, |lines|).crashed
    ensures var last := Final(lines, terminal, archives);
      && |last.fates| == |lines|
      && FileOf(last.archives, month) == FileOf(archives, month) + Moved(lines, last.fates, month, |lines|)
  {
    LoopKeeps(lines, terminal, archives, |lines|);
    LoopKeepsFile(lines, terminal, archives, |lines|, month);
    FlushKeepsFile(lines, archives, |lines|, At(lines, terminal, archives, |lines|), month);
  }

  // --------------------------------------------------------- which file, and whether

  /** The month of the last dated line after header `h` and before `k`. */
  function MonthSince(lines: seq<string>, h: nat, k: nat): string
    requires k <= |lines|
  {
    if k <= h + 1 then MONTH_DEFAULT
    else if Month(lines[k - 1]).Some? then Month(lines[k - 1]).value
    else MonthSince(lines, h, k - 1)
  }

  /** Line `k` ends the packet before it, or there is no line `k`. */
  predicate Ends(lines: seq<string>, k: nat)
    requires k <= |lines|
  {
    k == |lines| || IsHeader(lines[k]) || TopLevel(lines[k])
  }

  /** A top-level line that ends a packet still dates it. */
  function PacketMonth(lines: seq<string>, h: nat, k: nat): string
    requires k <= |lines|
  {
    MonthSince(lines, h, if k < |lines| && !IsHeader(lines[k]) then k + 1 else k)
  }

  /**
    Line `i` is of the packet headed at `h` and ended at `k`, whose month is
    that of its last dated line, and which was dropped exactly if the month file
    then held a header for its id.
   */
  ghost predicate Judged(lines: seq<string>, terminal: set<string>, archives: map<string, string>, i: nat, fate: Fate, h: nat, k: nat)
    requires h <= i < k <= |lines| && !fate.Kept?
  {
    && HeaderOf(lines, i) == Some(h) && Ends(lines, k) && (forall j :: h < j < k ==> !Ends(lines, j))
    && HeaderId(lines[h]).Some?
    && fate.month == PacketMonth(lines, h, k)
    && (fate.Dropped? <==> HasId(FileOf(At(lines, terminal, archives, k).archives, fate.month), HeaderId(lines[h]).value))
  }

  ghost predicate Decided(lines: seq<string>, terminal: set<string>, archives: map<string, string>, i: nat, fate: Fate)
    requires !fate.Kept?
  {
    exists h: nat, k: nat :: h <= i < k <= |lines| && Judged(lines, terminal, archives, i, fate, h, k)
  }

  ghost predicate DateInv(lines: seq<string>, k: nat, st: State)
    requires k <= |lines|
  {
    st.inPacket && st.closed ==> st.date == MonthSince(lines, |st.fates|, k)
  }

  lemma {:induction false} NoEndInside(lines: seq<string>, h: nat, k: nat, j: nat)
    requires h < j < k <= |lines| && HeaderOf(lines, k - 1) == Some(h)
    ensures !Ends(lines, j)
  {
    SamePacket(lines, h, j, k);
  }

  lemma FlushLength(st: State)
    ensures |Flush(st).fates| == |st.fates| + |st.current|
  {
    FlushShape(st);
  }

  lemma LineKeepsDate(lines: seq<string>, terminal: set<string>, k: nat, st: State)
    requires k < |lines| && Bookkept(lines, terminal, k, st) && DateInv(lines, k, st)
    requires !OnLine(st, lines[k], terminal).crashed
    ensures DateInv(lines, k + 1, OnLine(st, lines[k], terminal))
  {
    FlushLength(st);
    CrashStep(st, lines[k], terminal);
    OnLineShape(st, lines[k], terminal);
    hide OnLine, Flush, FlushFate, IsHeader, HeaderId, TopLevel, Month;
  }

  lemma {:induction false} LoopKeepsDate(lines: seq<string>, terminal: set<string>, archives: map<string, string>, k: nat)
    requires k <= |lines| && !At(lines, terminal, archives, k).crashed
    ensures DateInv(lines, k, At(lines, terminal, archives, k))
  {
    hide *;
    if k == 0 {
      NoDateYet(lines, terminal, archives);
    } else {
      var before := At(lines, terminal, archives, k - 1);
      Unfold(lines, terminal, archives, k - 1);
      CrashStep(before, lines[k - 1], terminal);
      LoopKeeps(lines, terminal, archives, k - 1);
      LoopKeepsDate(lines, terminal, archives, k - 1);
      LineKeepsDate(lines, terminal, k - 1, before);
    }
  }

  lemma NoDateYet(lines: seq<string>, terminal: set<string>, archives: map<string, string>)
    ensures DateInv(lines, 0, At(lines, terminal, archives, 0))
  {}

  lemma FlushJudges(lines: seq<string>, terminal: set<string>, archives: map<string, string>, k: nat, st: State, i: nat)
    requires k <= |lines| && Bookkept(lines, terminal, k, At(lines, terminal, archives, k)) && Ends(lines, k)
    requires DateInv(lines, k, At(lines, terminal, archives, k))
    requires st == if k < |lines| && !IsHeader(lines[k]) then Dated(At(lines, terminal, archives, k), lines[k]) else At(lines, terminal, archives, k)
    requires |st.fates| <= i < k && !FlushFate(st).Kept?
    ensures Judged(lines, terminal, archives, i, FlushFate(st), |st.fates|, k)
    ensures Decided(lines, terminal, archives, i, FlushFate(st))
  {
    var h := |st.fates|;
    hide IsHeader, HeaderId, TopLevel, HasId, FileOf, Month;
    SamePacket(lines, h, i, k);
    forall j | h < j < k ensures !Ends(lines, j) { NoEndInside(lines, h, k, j); }
    hide Ends, HeaderOf;
  }

  /** Every line that leaves the index leaves it as its whole packet's header, dates and month file decide. */
  lemma {:induction false} FateIsJudged(lines: seq<string>, terminal: set<string>, archives: map<string, string>, n: nat, i: nat)
    requires n <= |lines| && !At(lines, terminal, archives, n).crashed
    requires i < |At(lines, terminal, archives, n).fates| && !At(lines, terminal, archives, n).fates[i].Kept?
    ensures Decided(lines, terminal, archives, i, At(lines, terminal, archives, n).fates[i])
  {
    CrashStep(At(lines, terminal, archives, n - 1), lines[n - 1], terminal);
    FatesGrow(At(lines, terminal, archives, n - 1), lines[n - 1], terminal);
    hide OnLine, Decided, FlushFate, Dated, IsHeader, TopLevel;
    if i < |At(lines, terminal, archives, n - 1).fates| {
      FateIsJudged(lines, terminal, archives, n - 1, i);
    } else {
      NewFateIsJudged(lines, terminal, archives, n, i);
    }
  }

  lemma NewFateIsJudged(lines: seq<string>, terminal: set<string>, archives: map<string, string>, n: nat, i: nat)
    requires 0 < n <= |lines| && !At(lines, terminal, archives, n).crashed
    requires |At(lines, terminal, archives, n - 1).fates| <= i < |At(lines, terminal, archives, n).fates|
    requires !At(lines, terminal, archives, n).fates[i].Kept?
    ensures Decided(lines, terminal, archives, i, At(lines, terminal, archives, n).fates[i])
  {
    hide *;
    var k: nat := n - 1;
    var st := At(lines, terminal, archives, k);
    Unfold(lines, terminal, archives, k);
    CrashStep(st, lines[k], terminal);
    LoopKeeps(lines, terminal, archives, k);
    LoopKeepsDate(lines, terminal, archives, k);
    NewFateIsFlushed(lines, terminal, k, st, i);
    FlushJudges(lines, terminal, archives, k, if IsHeader(lines[k]) then st else Dated(st, lines[k]), i);
  }

  lemma Unfold(lines: seq<string>, terminal: set<string>, archives: map<string, string>, k: nat)
    requires k < |lines|
    ensures At(lines, terminal, archives, k + 1) == OnLine(At(lines, terminal, archives, k), lines[k], terminal)
  {}

  lemma NewFateIsFlushed(lines: seq<string>, terminal: set<string>, k: nat, st: State, i: nat)
    requires k < |lines| && Bookkept(lines, terminal, k, st)
    requires |st.fates| <= i < |OnLine(st, lines[k], terminal).fates| && !OnLine(st, lines[k], terminal).fates[i].Kept?
    ensures Ends(lines, k) && i < k
    ensures var from := if IsHeader(lines[k]) then st else Dated(st, lines[k]);
      from.fates == st.fates && OnLine(st, lines[k], terminal).fates[i] == FlushFate(from)
  {
    hide OnLine, FlushFate, HeaderOf, IsHeader, TopLevel, Month, HeaderId;
    var line := lines[k];
    FatesGrow(st, line, terminal);
    FlushedFrom(st.fates, OnLine(st, line, terminal).fates, FlushFate(if IsHeader(line) then st else Dated(st, line)),
                if IsHeader(line) || TopLevel(line) then |st.current| else 0, i);
  }

  lemma FlushedFrom(fates: seq<Fate>, next: seq<Fate>, fate: Fate, n: nat, i: nat)
    requires Adds(fates, next, fate, n) && |fates| <= i < |next| && !next[i].Kept?
    ensures next[i] == fate && i < |fates| + n && n > 0
  {}

  /** The new fates are kept ones, and up to `n` in front that are `fate`. */
  ghost predicate Adds(fates: seq<Fate>, next: seq<Fate>, fate: Fate, n: nat) {
    && |fates| <= |next| && next[..|fates|] == fates
    && forall i :: |fates| <= i < |next| && !next[i].Kept? ==> next[i] == fate && i < |fates| + n
  }

  lemma AddsBlock(fates: seq<Fate>, fate: Fate, n: nat)
    ensures Adds(fates, fates + Repeat(fate, n), fate, n)
    ensures Adds(fates, fates + Repeat(fate, n) + [Kept], fate, n)
  {}

  lemma AddsNone(fates: seq<Fate>, fate: Fate)
    ensures Adds(fates, fates, fate, 0) && Adds(fates, fates + [Kept], fate, 0)
  {}

  lemma NoneIsAny(fates: seq<Fate>, next: seq<Fate>, fate: Fate, n: nat)
    requires Adds(fates, next, fate, 0)
    ensures Adds(fates, next, fate, n)
  {}

  /** A line adds the fates of the packet it ends, if it ends one, and its own if it is kept at once. */
  lemma FatesGrow(st: State, line: string, terminal: set<string>)
    requires !st.crashed
    ensures Adds(st.fates, OnLine(st, line, terminal).fates, FlushFate(if IsHeader(line) then st else Dated(st, line)),
                 if IsHeader(line) || TopLevel(line) then |st.current| else 0)
  {
    var dated, n := Dated(st, line), |st.current|;
    assert dated.fates == st.fates && dated.current == st.current;
    OnLineShape(st, line, terminal);
    FlushShape(st);
    FlushShape(dated);
    hide *;
    AddsBlock(st.fates, FlushFate(st), n);
    AddsBlock(st.fates, FlushFate(dated), n);
    AddsNone(st.fates, FlushFate(dated));
    NoneIsAny(st.fates, st.fates + [Kept], FlushFate(dated), n);
  }

  /** The same at the end of the run, when the last packet is flushed. */
  lemma FinalFateIsJudged(lines: seq<string>, terminal: set<string>, archives: map<string, string>, i: nat)
    requires !At(lines, terminal, archives, |lines|).crashed && i < |Final(lines, terminal, archives).fates|
    requires !Final(lines, terminal, archives).fates[i].Kept?
    ensures Decided(lines, terminal, archives, i, Final(lines, terminal, archives).fates[i])
  {
    var st := At(lines, terminal, archives, |lines|);
    LoopKeeps(lines, terminal, archives, |lines|);
    LoopKeepsDate(lines, terminal, archives, |lines|);
    FlushShape(st);
    hide Decided, KeptInv, DateInv, FlushFate, Flush, HeaderOf;
    if i < |st.fates| {
      FateIsJudged(lines, terminal, archives, |lines|, i);
    } else {
      FlushJudges(lines, terminal, archives, |lines|, st, i);
    }
  }

  // ------------------------------------------------------------------ a second run

  lemma {:induction false} HeaderOfPrefix(lines: seq<string>, more: seq<string>, i: nat)
    requires i < |lines|
    ensures HeaderOf(lines + more, i) == HeaderOf(lines, i)
  {
    if i > 0 { HeaderOfPrefix(lines, more, i - 1); }
  }

  /** A kept line has the same header, as text, among the kept lines. */
  lemma {:induction false} KeptHeaderSame(lines: seq<string>, terminal: set<string>, n: nat)
    requires 0 < n <= |lines| && Stays(lines, terminal, n - 1)
    ensures var kept := KeptLines(lines, terminal, n);
      && |kept| > 0
      && (HeaderOf(kept, |kept| - 1).Some? <==> HeaderOf(lines, n - 1).Some?)
      && (HeaderOf(lines, n - 1).Some? ==> kept[HeaderOf(kept, |kept| - 1).value] == lines[HeaderOf(lines, n - 1).value])
  {
    var before, line := KeptLines(lines, terminal, n - 1), lines[n - 1];
    hide IsHeader, TopLevel, HeaderId;
    if !IsHeader(line) && !TopLevel(line) && n > 1 {
      KeptHeaderSame(lines, terminal, n - 1);
      HeaderOfPrefix(before, [line], |before| - 1);
    }
  }

  lemma {:induction false} KeptAllStay(lines: seq<string>, terminal: set<string>, n: nat)
    requires n <= |lines|
    ensures forall j :: 0 <= j < |KeptLines(lines, terminal, n)| ==> Stays(KeptLines(lines, terminal, n), terminal, j)
  {
    if n > 0 {
      KeptAllStay(lines, terminal, n - 1);
      var before, kept := KeptLines(lines, terminal, n - 1), KeptLines(lines, terminal, n);
      if Stays(lines, terminal, n - 1) {
        KeptHeaderSame(lines, terminal, n);
        forall j | 0 <= j < |kept| ensures Stays(kept, terminal, j) {
          if j < |before| { HeaderOfPrefix(before, [lines[n - 1]], j); assert Stays(before, terminal, j); }
        }
      }
    }
  }

  lemma {:induction false} AllStayingAreKept(lines: seq<string>, terminal: set<string>, n: nat)
    requires n <= |lines| && forall j :: 0 <= j < |lines| ==> Stays(lines, terminal, j)
    ensures KeptLines(lines, terminal, n) == lines[..n]
  {
    if n > 0 {
      AllStayingAreKept(lines, terminal, n - 1);
      assert lines[..n] == lines[..n - 1] + [lines[n - 1]];
    }
  }

  lemma {:induction false} KeptAreLines(lines: seq<string>, terminal: set<string>, n: nat)
    requires n <= |lines|
    ensures forall l :: l in KeptLines(lines, terminal, n) ==> l in lines
  {
    if n > 0 { KeptAreLines(lines, terminal, n - 1); }
  }

  lemma OpenFlush(st: State)
    requires st.current == [] || !st.closed
    ensures Flush(st).archives == st.archives && Flush(st).count == st.count
  {}

  lemma LineMovesNothing(st: State, line: string, terminal: set<string>)
    requires st.current != [] ==> !st.closed
    ensures OnLine(st, line, terminal).archives == st.archives && OnLine(st, line, terminal).count == st.count
  {
    OpenFlush(st);
    OpenFlush(Dated(st, line));
    hide Flush, IsHeader, HeaderId, TopLevel, Month;
  }

  lemma {:induction false} NothingMoves(lines: seq<string>, terminal: set<string>, archives: map<string, string>, k: nat)
    requires k <= |lines| && !At(lines, terminal, archives, k).crashed
    requires forall j :: 0 <= j < |lines| ==> Stays(lines, terminal, j)
    ensures var st := At(lines, terminal, archives, k);
      st.archives == archives && st.count == 0 && (st.current != [] ==> !st.closed)
  {
    LoopKeeps(lines, terminal, archives, k);
    OpenPacketStays(lines, terminal, k, At(lines, terminal, archives, k));
    if k > 0 {
      CrashStep(At(lines, terminal, archives, k - 1), lines[k - 1], terminal);
      hide OnLine, Bookkept, KeptInv, Stays;
      NothingMoves(lines, terminal, archives, k - 1);
      LineMovesNothing(At(lines, terminal, archives, k - 1), lines[k - 1], terminal);
    }
  }

  lemma OpenPacketStays(lines: seq<string>, terminal: set<string>, k: nat, st: State)
    requires k <= |lines| && Bookkept(lines, terminal, k, st)
    requires forall j :: 0 <= j < |lines| ==> Stays(lines, terminal, j)
    ensures st.current != [] ==> !st.closed
  {
    if st.current != [] {
      assert Stays(lines, terminal, k - 1);
      StaysByHeader(lines, terminal, k - 1, |st.fates|);
    }
  }

  /**
    Idempotence. A run over what an earlier run with the same terminal ids kept
    keeps every line, archives nothing and leaves every month file alone.
   */
  lemma SecondRunDoesNothing(lines: seq<string>, terminal: set<string>, archives: map<string, string>, later: map<string, string>)
    requires !At(lines, terminal, archives, |lines|).crashed
    ensures var index := Final(lines, terminal, archives).active;
      var again := Final(index, terminal, later);
      && !At(index, terminal, later, |index|).crashed
      && again.active == index && again.archives == later && again.count == 0
  {
    var index := Final(lines, terminal, archives).active;
    NewIndexIsTheKeptLines(lines, terminal, archives);
    KeptAllStay(lines, terminal, |lines|);
    KeptAreLines(lines, terminal, |lines|);
    CrashesIff(lines, terminal, archives, |lines|);
    CrashesIff(index, terminal, later, |index|);
    hide At, Stays, KeptLines, IsHeader, HeaderId;
    assert forall i :: 0 <= i < |index| ==> index[i] in lines;
    NothingMoves(index, terminal, later, |index|);
    OpenFlush(At(index, terminal, later, |index|));
    NewIndexIsTheKeptLines(index, terminal, later);
    AllStayingAreKept(index, terminal, |index|);
  }

  // ---------------------------------------------------------------- the file's text

  /** `readlines`. */
  function ReadLines(t: string): seq<string>
    decreases |t|
  {
    if t == "" then []
    else
      var k := Separated.FirstSep(t, '\n');
      if k == |t| then [t] else [t[..k + 1]] + ReadLines(t[k + 1..])
  }

  predicate Line(l: string) { l != "" && forall j :: 0 <= j < |l| - 1 ==> l[j] != '\n' }

  predicate Ended(l: string) { l != "" && l[|l| - 1] == '\n' }

  lemma {:induction false} ReadLinesReads(t: string)
    ensures AsRead(ReadLines(t)) && Concat(ReadLines(t)) == t
    decreases |t|
  {
    if t != "" {
      var k := Separated.FirstSep(t, '\n');
      if k == |t| {
        assert t[..k] == t && ReadLines(t) == [t];
        assert [t][1..] == [] && t + "" == t;
      } else {
        ReadLinesReads(t[k + 1..]);
        var head, rest := t[..k + 1], ReadLines(t[k + 1..]);
        assert head[k] == '\n' && forall j :: 0 <= j < k ==> head[j] == t[..k][j];
        AsReadCons(head, rest);
        assert ([head] + rest)[1..] == rest && head + t[k + 1..] == t;
      }
    }
  }

  lemma AsReadCons(head: string, rest: seq<string>)
    requires Line(head) && Ended(head) && AsRead(rest)
    ensures AsRead([head] + rest)
  {
    var all := [head] + rest;
    assert forall i :: 1 <= i < |all| ==> all[i] == rest[i - 1];
  }

  lemma AsReadTail(lines: seq<string>)
    requires AsRead(lines) && lines != []
    ensures Line(lines[0]) && (|lines| > 1 ==> Ended(lines[0])) && AsRead(lines[1..])
  {}

  lemma FirstLine(head: string, rest: string)
    requires Line(head) && Ended(head)
    ensures ReadLines(head + rest) == [head] + ReadLines(rest)
  {
    var a := head[..|head| - 1];
    assert head == a + ['\n'] && Separated.Free(a, '\n');
    Separated.FirstSepAt(a, rest, '\n');
    assert head + rest == a + ['\n'] + rest;
    assert (head + rest)[..|a| + 1] == head && (head + rest)[|a| + 1..] == rest;
  }

  lemma LastLine(head: string)
    requires Line(head)
    ensures ReadLines(head) == [head]
  {
    if Ended(head) {
      FirstLine(head, "");
      assert head + "" == head;
    } else {
      assert Separated.Free(head, '\n');
      Separated.FirstSepAt(head, "", '\n');
    }
  }

  /** Lines written out and read again are the same lines. */
  lemma {:induction false} LinesReadBack(lines: seq<string>)
    requires AsRead(lines)
    ensures ReadLines(Concat(lines)) == lines
  {
    if lines != [] {
      AsReadTail(lines);
      hide AsRead;
      LinesReadBack(lines[1..]);
      if |lines| == 1 {
        LastLine(lines[0]);
        assert lines[0] + "" == lines[0];
      } else {
        FirstLine(lines[0], Concat(lines[1..]));
        assert [lines[0]] + lines[1..] == lines;
      }
    }
  }

  lemma {:induction false} KeptAsRead(lines: seq<string>, terminal: set<string>, n: nat)
    requires n <= |lines| && AsRead(lines)
    ensures AsRead(KeptLines(lines, terminal, n))
    ensures n < |lines| ==> forall i :: 0 <= i < |KeptLines(lines, terminal, n)| ==> Ended(KeptLines(lines, terminal, n)[i])
  {
    if n > 0 {
      var before, l := KeptLines(lines, terminal, n - 1), lines[n - 1];
      assert Line(l) && (n < |lines| ==> Ended(l));
      hide Stays, AsRead;
      KeptAsRead(lines, terminal, n - 1);
      AsReadSnoc(before, l);
    }
  }

  lemma AsReadSnoc(lines: seq<string>, l: string)
    requires AsRead(lines) && Line(l) && forall i :: 0 <= i < |lines| ==> Ended(lines[i])
    ensures AsRead(lines + [l])
  {}

  /** The index file itself: what the first run writes, the second run reads as the lines it kept. */
  lemma WrittenIndexReadsBack(text: string, terminal: set<string>, archives: map<string, string>)
    requires var lines := ReadLines(text); !At(lines, terminal, archives, |lines|).crashed
    ensures var index := Final(ReadLines(text), terminal, archives).active;
      ReadLines(Concat(index)) == index
  {
    var lines := ReadLines(text);
    ReadLinesReads(text);
    NewIndexIsTheKeptLines(lines, terminal, archives);
    KeptAsRead(lines, terminal, |lines|);
    LinesReadBack(KeptLines(lines, terminal, |lines|));
  }
}
