/**
  A whole run of the archiver: read the terminal rows, take out what fragments
  address, and move the rest of the terminal packets.
 */
module PlanRun {
  import opened Prelude
  import opened Addressed
  import Archiver
  import ArchiveLaws

  /** The terminal names that no fragment reaches. */
  function Archivable(rows: seq<Row>, addressed: seq<string>): set<string> {
    set i, name | 0 <= i < |rows| && name in Names(rows[i]) && !Reached(rows, addressed, name, |addressed|) :: name
  }

  lemma ArchivableIs(rows: seq<Row>, addressed: seq<string>, name: string)
    ensures name in Archivable(rows, addressed) <==> Named(rows, name, |rows|) && !Reached(rows, addressed, name, |addressed|)
  {
    hide Names, Reached;
  }

  /** The fold answered with some terminal packet. */
  predicate AnyTerminal(rows: seq<Row>) { exists i :: 0 <= i < |rows| && Names(rows[i]) != [] }

  /** The run. With no terminal row it stops before it reads the index. */
  method ArchivePlan(rows: seq<Row>, addressed: seq<string>, lines: seq<string>, archives: map<string, string>)
    returns (ok: bool, index: seq<string>, archives': map<string, string>, count: nat)
    ensures ok <==> (AnyTerminal(rows) ==> !Archiver.At(lines, Archivable(rows, addressed), archives, |lines|).crashed)
    ensures ok ==> index == ArchiveLaws.KeptLines(lines, Archivable(rows, addressed), |lines|)
    ensures ok && AnyTerminal(rows) ==>
      var last := Archiver.Final(lines, Archivable(rows, addressed), archives);
      archives' == last.archives && count == last.count
    ensures !AnyTerminal(rows) ==> index == lines && archives' == archives && count == 0
  {
    hide Names, Reached;
    var terminal, aliases := ReadTerminal(rows);
    if terminal == {} {
      NothingTerminal(rows, addressed, lines);
      return true, lines, archives, 0;
    }
    SomethingTerminal(rows, terminal);
    var archivable := RemoveAddressed(rows, terminal, aliases, addressed);
    forall name ensures name in archivable <==> name in Archivable(rows, addressed) {
      ArchivableIs(rows, addressed, name);
    }
    assert archivable == Archivable(rows, addressed);
    ok, index, archives', count := Archiver.Archive(lines, archivable, archives);
    if ok { ArchiveLaws.NewIndexIsTheKeptLines(lines, archivable, archives); }
  }

  lemma SomethingTerminal(rows: seq<Row>, terminal: set<string>)
    requires terminal != {} && forall name :: name in terminal <==> Named(rows, name, |rows|)
    ensures AnyTerminal(rows)
  {
    hide Names;
    var name := Pick(terminal);
    var i :| 0 <= i < |rows| && name in Names(rows[i]);
    assert Names(rows[i]) != [];
  }

  lemma NothingTerminal(rows: seq<Row>, addressed: seq<string>, lines: seq<string>)
    requires forall name :: !Named(rows, name, |rows|)
    ensures !AnyTerminal(rows)
    ensures ArchiveLaws.KeptLines(lines, Archivable(rows, addressed), |lines|) == lines
  {
    forall i | 0 <= i < |rows| ensures Names(rows[i]) == [] {
      if Names(rows[i]) != [] { OwnNameIsNamed(rows, i, Names(rows[i])[0]); }
    }
    hide Names;
    assert Archivable(rows, addressed) == {};
    ArchiveLaws.AllStayingAreKept(lines, Archivable(rows, addressed), |lines|);
  }

  /**
    No line of an addressed packet leaves the index, whichever of its names
    heads it and whichever a fragment uses, as long as each of its names is
    remembered by a row that has them all.
   */
  lemma AddressedPacketsStay(rows: seq<Row>, addressed: seq<string>, lines: seq<string>, archives: map<string, string>, i: nat, n: nat, h: nat)
    requires i < |rows| && Addresses(rows, addressed, i) && Remembered(rows, i)
    requires n < |lines| && ArchiveLaws.HeaderOf(lines, n) == Some(h)
    requires Archiver.HeaderId(lines[h]).Some? && Archiver.HeaderId(lines[h]).value in Names(rows[i])
    requires !Archiver.At(lines, Archivable(rows, addressed), archives, |lines|).crashed
    ensures var last := Archiver.Final(lines, Archivable(rows, addressed), archives);
      |last.fates| == |lines| && last.fates[n].Kept?
  {
    var id := Archiver.HeaderId(lines[h]).value;
    AddressedLeavesWholeIff(rows, i);
    ArchivableIs(rows, addressed, id);
    hide Names, Reached, Archivable;
    ArchiveLaws.NewIndexIsTheKeptLines(lines, Archivable(rows, addressed), archives);
  }

  /**
    The condition is needed. If some name `a` of a packet is remembered by a row
    without its name `x`, a fragment that addresses `a` does not keep a packet
    headed by `x`.
   */
  lemma AddressedPacketCanLeave(rows: seq<Row>, i: nat, a: string, x: string, line: string, archives: map<string, string>)
    requires i < |rows| && a in Names(rows[i]) && x in Names(rows[i])
    requires LastWith(rows, a, |rows|).Some? && x !in Names(rows[LastWith(rows, a, |rows|).value])
    requires Archiver.IsHeader(line) && Archiver.HeaderId(line) == Some(x)
    ensures Addresses(rows, [a], i)
    ensures var terminal := Archivable(rows, [a]);
      !Archiver.At([line], terminal, archives, 1).crashed && Archiver.Final([line], terminal, archives).active == []
  {
    var terminal := Archivable(rows, [a]);
    assert [a][0] == a && Addresses(rows, [a], i);
    OwnNameIsNamed(rows, i, a);
    OwnNameIsNamed(rows, i, x);
    HitsTheLastRow(rows, a, x);
    OneAddressed(rows, a, x);
    ArchivableIs(rows, [a], x);
    hide Names, Reached, Archivable, LastWith;
    ArchiveLaws.CrashesIff([line], terminal, archives, 1);
    ArchiveLaws.NewIndexIsTheKeptLines([line], terminal, archives);
    assert ArchiveLaws.HeaderOf([line], 0) == Some(0);
  }
}
