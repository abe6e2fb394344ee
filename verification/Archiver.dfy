/**
  The plan archiver: closed packets of the index move, line by line, to month
  files. A line keeps its newline, as `readlines` gives it.
 */
module Archiver {
  import opened Prelude
  import opened Separated

  // ---------------------------------------------------------------- the lines

  const KEYS := ["packet_id", "id", "order"]

  function Lead(k: nat): string
    requires k < |KEYS|
  {
    "    - " + KEYS[k] + ": "
  }

  predicate IsHeader(line: string) { Lead(0) <= line || Lead(1) <= line || Lead(2) <= line }

  predicate TopLevel(line: string) { line != "" && ('a' <= line[0] <= 'z' || 'A' <= line[0] <= 'Z') }

  predicate Blank(c: char) { c == ' ' || c == '\t' || c == '\n' || c == '\r' || c == '\0' || c == '\U{0b}' || c == '\U{0c}' }

  function Strip(s: string): string { StripEnd(StripStart(s)) }

  function StripStart(s: string): string { if s != "" && Blank(s[0]) then StripStart(s[1..]) else s }

  function StripEnd(s: string): string { if s != "" && Blank(s[|s| - 1]) then StripEnd(s[..|s| - 1]) else s }

  /** Where `": "` first occurs. */
  function Colon(s: string): (k: nat)
    ensures k <= |s|
    ensures k < |s| ==> k + 1 < |s|
  {
    if |s| < 2 then |s|
    else if s[0] == ':' && s[1] == ' ' then 0
    else
      var k := Colon(s[1..]);
      if k == |s| - 1 then |s| else 1 + k
  }

  function Unquote(s: string): string {
    if s == "" then "" else (if s[0] == '"' then "" else [s[0]]) + Unquote(s[1..])
  }

  /** `line.strip.split(': ')[1].strip.gsub('"', '')`; nothing when there is no second field. */
  function HeaderId(line: string): Option<string> {
    var s := Strip(line);
    var k := Colon(s);
    if k == |s| then None
    else
      var rest := s[k + 2..];
      Some(Unquote(Strip(rest[..Colon(rest)])))
  }

  predicate Digit(c: char) { '0' <= c <= '9' }

  function SkipBlanks(s: string): string { if s != "" && (s[0] == ' ' || s[0] == '\t') then SkipBlanks(s[1..]) else s }

  /** What stands behind `ts: ` and a quote. */
  function TsValue(s: string): string
    requires "ts: " <= s
  {
    if |s| > 4 && s[4] == '"' then s[5..] else s[4..]
  }

  /** The month of a `ts:` line. */
  function Month(line: string): Option<string> {
    var s := SkipBlanks(line);
    if !("ts: " <= s) then None
    else
      var v := TsValue(s);
      if |v| >= 7 && (forall i :: 0 <= i < 7 && i != 4 ==> Digit(v[i])) && v[4] == '-' then Some(v[..7]) else None
  }

  // ------------------------------------------------------------- the main loop

  const MONTH_DEFAULT := "2026-05"
  const ARCHIVE_HEADER := "plan_index:\n  steps:\n"

  /** What became of a line. */
  datatype Fate = Kept | Appended(month: string) | Dropped(month: string)

  /**
    The script's variables. `archives` are the month files; `fates` is history,
    one entry per line that has left `current`.
   */
  datatype State = State(
    active: seq<string>, current: seq<string>, inPacket: bool, closed: bool, date: string, id: string,
    archives: map<string, string>, count: nat, fates: seq<Fate>, crashed: bool)

  function Initial(archives: map<string, string>): State {
    State([], [], false, false, MONTH_DEFAULT, "", archives, 0, [], false)
  }

  function Concat(lines: seq<string>): string { if lines == [] then "" else lines[0] + Concat(lines[1..]) }

  /** `puts` ends its text with a newline, unless it has one. */
  function Puts(text: string): string {
    if text != "" && text[|text| - 1] == '\n' then text else text + "\n"
  }

  function FileOf(archives: map<string, string>, month: string): string {
    if month in archives then archives[month] else ARCHIVE_HEADER
  }

  /** Some line of `text` is a header for exactly this id. */
  predicate HasId(text: string, id: string) {
    Lead(0) + id in Split(text, '\n') || Lead(1) + id in Split(text, '\n') || Lead(2) + id in Split(text, '\n')
  }

  function Repeat(f: Fate, n: nat): seq<Fate> { seq(n, _ => f) }

  function FlushFate(st: State): Fate {
    if !st.closed then Kept else if HasId(FileOf(st.archives, st.date), st.id) then Dropped(st.date) else Appended(st.date)
  }

  function Flush(st: State): State {
    var n := |st.current|;
    if n == 0 then st
    else
      var fate := FlushFate(st);
      var moved := st.(current := [], fates := st.fates + Repeat(fate, n));
      match fate
      case Kept => moved.(active := st.active + st.current)
      case Dropped(m) => moved.(archives := st.archives[m := FileOf(st.archives, m)])
      case Appended(m) =>
        moved.(archives := st.archives[m := FileOf(st.archives, m) + Puts(Concat(st.current))], count := st.count + 1)
  }

  /** A dated line of a closed packet sets the packet's month. */
  function Dated(st: State, line: string): State {
    if st.closed && Month(line).Some? then st.(date := Month(line).value) else st
  }

  function OnLine(st: State, line: string, terminal: set<string>): State {
    if st.crashed then st
    else if IsHeader(line) then
      match HeaderId(line)
      case None => Flush(st).(crashed := true)
      case Some(id) =>
        Flush(st).(inPacket := true, current := [line], closed := id in terminal, date := MONTH_DEFAULT, id := id)
    else if st.inPacket then
      if TopLevel(line) then
        var f := Flush(Dated(st, line));
        f.(inPacket := false, active := f.active + [line], fates := f.fates + [Kept])
      else Dated(st, line).(current := st.current + [line])
    else st.(active := st.active + [line], fates := st.fates + [Kept])
  }

  function At(lines: seq<string>, terminal: set<string>, archives: map<string, string>, k: nat): State
    requires k <= |lines|
  {
    if k == 0 then Initial(archives) else OnLine(At(lines, terminal, archives, k - 1), lines[k - 1], terminal)
  }

  function Final(lines: seq<string>, terminal: set<string>, archives: map<string, string>): State {
    Flush(At(lines, terminal, archives, |lines|))
  }

  /** `flush_packet`: returns the index lines and month files after the packet left, and whether it was archived. */
  method FlushPacket(lines: seq<string>, closed: bool, date: string, id: string, active: seq<string>,
                     archives: map<string, string>, ghost st: State)
    returns (active': seq<string>, archives': map<string, string>, n: nat)
    requires st.current == lines && st.closed == closed && st.date == date && st.id == id
    requires st.active == active && st.archives == archives
    ensures Flush(st).active == active' && Flush(st).archives == archives' && Flush(st).count == st.count + n
  {
    hide HasId, Concat, Puts;
    active', archives', n := active, archives, 0;
    if lines == [] { return; }
    if closed {
      if date !in archives { archives' := archives[date := ARCHIVE_HEADER]; }
      assert archives' == archives[date := FileOf(archives, date)];
      if !HasId(archives'[date], id) {
        archives' := archives'[date := archives'[date] + Puts(Concat(lines))];
        assert archives' == archives[date := FileOf(archives, date) + Puts(Concat(lines))];
        n := 1;
      }
    } else {
      active' := active + lines;
    }
  }

  /** The script's loop over the lines of the index. */
  method Archive(lines: seq<string>, terminal: set<string>, archives: map<string, string>)
    returns (ok: bool, active: seq<string>, archives': map<string, string>, count: nat)
    ensures var last := At(lines, terminal, archives, |lines|);
      && ok == !last.crashed
      && (ok ==> active == Final(lines, terminal, archives).active && count == Final(lines, terminal, archives).count)
      && archives' == (if ok then Final(lines, terminal, archives) else last).archives
  {
    hide IsHeader, HeaderId, TopLevel, Month, Flush;
    var current: seq<string>, inPacket, closed, date, id, n := [], false, false, MONTH_DEFAULT, "", 0;
    active, archives', count := [], archives, 0;
    ghost var st := Initial(archives);
    for k := 0 to |lines|
      invariant st == At(lines, terminal, archives, k) && !st.crashed
      invariant st.active == active && st.current == current && st.inPacket == inPacket && st.closed == closed
      invariant st.date == date && st.id == id && st.archives == archives' && st.count == count
    {
      var line := lines[k];
      if IsHeader(line) {
        active, archives', n := FlushPacket(current, closed, date, id, active, archives', st);
        count := count + n;
        var header := HeaderId(line);
        if header.None? {
          CrashStays(lines, terminal, archives, k + 1, |lines|);
          return false, active, archives', count;
        }
        inPacket, current, date, id := true, [line], MONTH_DEFAULT, header.value;
        closed := id in terminal;
      } else if inPacket {
        if closed && Month(line).Some? { date := Month(line).value; }
        if TopLevel(line) {
          active, archives', n := FlushPacket(current, closed, date, id, active, archives', st.(date := date));
          count := count + n;
          inPacket, current := false, [];
          active := active + [line];
        } else {
          current := current + [line];
        }
      } else {
        active := active + [line];
      }
      FlushEmpties(st.(date := date));
      FlushEmpties(st);
      st := OnLine(st, line, terminal);
    }
    active, archives', n := FlushPacket(current, closed, date, id, active, archives', st);
    count, ok := count + n, true;
  }

  lemma FlushEmpties(st: State)
    ensures var f := Flush(st);
      f.current == [] && f.inPacket == st.inPacket && f.closed == st.closed && f.date == st.date && f.id == st.id && f.crashed == st.crashed
  {}

  lemma {:induction false} CrashStays(lines: seq<string>, terminal: set<string>, archives: map<string, string>, j: nat, k: nat)
    requires j <= k <= |lines| && At(lines, terminal, archives, j).crashed
    ensures At(lines, terminal, archives, k) == At(lines, terminal, archives, j)
  {
    if j < k { CrashStays(lines, terminal, archives, j, k - 1); }
  }
}
