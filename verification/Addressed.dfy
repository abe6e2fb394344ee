/**
  Which packets are archivable: the terminal ones, minus every one that a live
  fragment still addresses. A packet has up to two names, its order and its
  packet id, and a fragment may use either.
 */
module Addressed {
  import opened Prelude

  /** The first two columns of a query answer, stripped. */
  datatype Row = Row(order: string, packetId: string)

  function Names(r: Row): (names: seq<string>)
    ensures forall n :: n in names <==> n != "" && (n == r.order || n == r.packetId)
  {
    (if r.order == "" then [] else [r.order]) + (if r.packetId == "" then [] else [r.packetId])
  }

  /** The last of the first `n` rows that has the name: the one `id_aliases` remembers. */
  function LastWith(rows: seq<Row>, name: string, n: nat): (i: Option<nat>)
    requires n <= |rows|
    ensures i.Some? ==> i.value < n && name in Names(rows[i.value])
    ensures i.None? ==> forall j :: 0 <= j < n ==> name !in Names(rows[j])
  {
    if n == 0 then None else if name in Names(rows[n - 1]) then Some(n - 1) else LastWith(rows, name, n - 1)
  }

  /** One of the first `n` rows has the name. */
  predicate Named(rows: seq<Row>, name: string, n: nat)
    requires n <= |rows|
  {
    exists i :: 0 <= i < n && name in Names(rows[i])
  }

  function Aliases(rows: seq<Row>, name: string, n: nat): seq<string>
    requires n <= |rows|
  {
    var i := LastWith(rows, name, n);
    if i.Some? then Names(rows[i.value]) else []
  }

  /** `id_aliases[name]`, whose default is an empty list. */
  function Lookup(aliases: map<string, seq<string>>, name: string): seq<string> {
    if name in aliases then aliases[name] else []
  }

  /** One row: every name of the packet is terminal, and aliases all of them. */
  method ReadRow(names: seq<string>, terminal: set<string>, aliases: map<string, seq<string>>)
    returns (terminal': set<string>, aliases': map<string, seq<string>>)
    ensures forall name :: name in terminal' <==> name in terminal || name in names
    ensures forall name :: Lookup(aliases', name) == if name in names then names else Lookup(aliases, name)
  {
    terminal', aliases' := terminal, aliases;
    for k := 0 to |names|
      invariant forall name :: name in terminal' <==> name in terminal || name in names[..k]
      invariant forall name :: Lookup(aliases', name) == if name in names[..k] then names else Lookup(aliases, name)
    {
      terminal' := terminal' + {names[k]};
      aliases' := aliases'[names[k] := names];
      assert names[..k + 1] == names[..k] + [names[k]];
    }
    assert names[..|names|] == names;
  }

  method ReadTerminal(rows: seq<Row>) returns (terminal: set<string>, aliases: map<string, seq<string>>)
    ensures forall name :: name in terminal <==> Named(rows, name, |rows|)
    ensures forall name :: Lookup(aliases, name) == Aliases(rows, name, |rows|)
  {
    terminal, aliases := {}, map[];
    for i := 0 to |rows|
      invariant forall name :: name in terminal <==> Named(rows, name, i)
      invariant forall name :: Lookup(aliases, name) == Aliases(rows, name, i)
    {
      hide Names;
      terminal, aliases := ReadRow(Names(rows[i]), terminal, aliases);
      assert forall name :: Named(rows, name, i + 1) <==> Named(rows, name, i) || name in Names(rows[i]);
    }
  }

  /** The addressed name is `name`, or aliases it. */
  predicate Hits(rows: seq<Row>, addressed: string, name: string) {
    addressed == name || name in Aliases(rows, addressed, |rows|)
  }

  predicate Reached(rows: seq<Row>, addressed: seq<string>, name: string, n: nat)
    requires n <= |addressed|
  {
    exists a :: 0 <= a < n && Hits(rows, addressed[a], name)
  }

  method RemoveAddressed(rows: seq<Row>, terminal: set<string>, aliases: map<string, seq<string>>, addressed: seq<string>)
    returns (archivable: set<string>)
    requires forall name :: Lookup(aliases, name) == Aliases(rows, name, |rows|)
    ensures forall name :: name in archivable <==> name in terminal && !Reached(rows, addressed, name, |addressed|)
  {
    archivable := terminal;
    for a := 0 to |addressed|
      invariant forall name :: name in archivable <==> name in terminal && !Reached(rows, addressed, name, a)
    {
      hide Aliases;
      var names, before := Lookup(aliases, addressed[a]), archivable;
      for k := 0 to |names|
        invariant forall name :: name in archivable <==> name in before && name !in names[..k]
      {
        archivable := archivable - {names[k]};
        assert names[..k + 1] == names[..k] + [names[k]];
      }
      archivable := archivable - {addressed[a]};
      assert names[..|names|] == names;
      forall name ensures Reached(rows, addressed, name, a + 1) <==> Reached(rows, addressed, name, a) || Hits(rows, addressed[a], name) {
        ReachedGrows(rows, addressed, name, a);
      }
    }
  }

  lemma ReachedGrows(rows: seq<Row>, addressed: seq<string>, name: string, a: nat)
    requires a < |addressed|
    ensures Reached(rows, addressed, name, a + 1) <==> Reached(rows, addressed, name, a) || Hits(rows, addressed[a], name)
  {
    hide Hits;
    if Hits(rows, addressed[a], name) { assert Reached(rows, addressed, name, a + 1); }
  }

  // ------------------------------------------ when a packet's names go together

  predicate Within(xs: seq<string>, ys: seq<string>) { forall x :: x in xs ==> x in ys }

  predicate Apart(xs: seq<string>, ys: seq<string>) { forall x :: x in xs ==> x !in ys }

  /** A name hits exactly the names of the last row that has it. */
  lemma HitsTheLastRow(rows: seq<Row>, addressed: string, name: string)
    requires Named(rows, addressed, |rows|)
    ensures var j := LastWith(rows, addressed, |rows|);
      j.Some? && (Hits(rows, addressed, name) <==> name in Names(rows[j.value]))
  {
    hide Names;
  }

  /** A fragment addresses row `i` by one of its own names. */
  predicate Addresses(rows: seq<Row>, addressed: seq<string>, i: nat)
    requires i < |rows|
  {
    exists a :: 0 <= a < |addressed| && addressed[a] in Names(rows[i])
  }

  /** All names of row `i` leave the terminal set. */
  ghost predicate AllReached(rows: seq<Row>, addressed: seq<string>, i: nat)
    requires i < |rows|
  {
    forall name :: name in Names(rows[i]) ==> Reached(rows, addressed, name, |addressed|)
  }

  ghost predicate NoneReached(rows: seq<Row>, addressed: seq<string>, i: nat)
    requires i < |rows|
  {
    forall name :: name in Names(rows[i]) ==> !Reached(rows, addressed, name, |addressed|)
  }

  /** Each name of row `i` is remembered by a row that has all the names of row `i`. */
  predicate Remembered(rows: seq<Row>, i: nat)
    requires i < |rows|
  {
    forall a :: a in Names(rows[i]) ==>
      var j := LastWith(rows, a, |rows|);
      j.Some? && Within(Names(rows[i]), Names(rows[j.value]))
  }

  /** Each row still remembered by some name of its own has all the names of row `i` or none. */
  predicate Unsplit(rows: seq<Row>, i: nat)
    requires i < |rows|
  {
    forall j, b :: 0 <= j < |rows| && b in Names(rows[j]) && LastWith(rows, b, |rows|) == Some(j) ==>
      Within(Names(rows[i]), Names(rows[j])) || Apart(Names(rows[i]), Names(rows[j]))
  }

  lemma OneAddressed(rows: seq<Row>, b: string, name: string)
    ensures Reached(rows, [b], name, 1) <==> Hits(rows, b, name)
  {
    hide Hits;
    assert [b][0] == b;
  }

  lemma OwnNameIsNamed(rows: seq<Row>, i: nat, name: string)
    requires i < |rows| && name in Names(rows[i])
    ensures Named(rows, name, |rows|)
  {}

  /**
    Addressing a packet by any of its names takes all its names out, whichever
    the fragments are, if and only if each of its names is remembered by a row
    that has them all.
   */
  lemma AddressedLeavesWholeIff(rows: seq<Row>, i: nat)
    requires i < |rows|
    ensures (forall addressed :: Addresses(rows, addressed, i) ==> AllReached(rows, addressed, i)) <==> Remembered(rows, i)
  {
    hide Names, LastWith, Hits;
    if Remembered(rows, i) {
      forall addressed, name | Addresses(rows, addressed, i) && name in Names(rows[i])
        ensures Reached(rows, addressed, name, |addressed|)
      {
        var a :| 0 <= a < |addressed| && addressed[a] in Names(rows[i]);
        OwnNameIsNamed(rows, i, addressed[a]);
        HitsTheLastRow(rows, addressed[a], name);
      }
    }
    if forall addressed :: Addresses(rows, addressed, i) ==> AllReached(rows, addressed, i) {
      forall a | a in Names(rows[i])
        ensures var j := LastWith(rows, a, |rows|); j.Some? && Within(Names(rows[i]), Names(rows[j.value]))
      {
        assert [a][0] == a && Addresses(rows, [a], i);
        OwnNameIsNamed(rows, i, a);
        forall name | name in Names(rows[i]) ensures Hits(rows, a, name) { OneAddressed(rows, a, name); }
        forall name ensures Hits(rows, a, name) <==> name in Names(rows[LastWith(rows, a, |rows|).value]) {
          HitsTheLastRow(rows, a, name);
        }
      }
    }
  }

  /**
    Whatever the fragments address, the names of a packet all leave or all
    stay, if and only if no remembered row has some of them and not the rest.
   */
  lemma NamesStayTogetherIff(rows: seq<Row>, i: nat)
    requires i < |rows|
    ensures (forall addressed :: AllReached(rows, addressed, i) || NoneReached(rows, addressed, i)) <==> Unsplit(rows, i)
  {
    hide Names, LastWith, Hits, Reached;
    if Unsplit(rows, i) {
      forall addressed ensures AllReached(rows, addressed, i) || NoneReached(rows, addressed, i) {
        UnsplitGoesTogether(rows, addressed, i);
      }
    }
    if forall addressed :: AllReached(rows, addressed, i) || NoneReached(rows, addressed, i) {
      forall j, b | 0 <= j < |rows| && b in Names(rows[j]) && LastWith(rows, b, |rows|) == Some(j)
        ensures Within(Names(rows[i]), Names(rows[j])) || Apart(Names(rows[i]), Names(rows[j]))
      {
        assert AllReached(rows, [b], i) || NoneReached(rows, [b], i);
        OwnNameIsNamed(rows, j, b);
        forall name ensures Reached(rows, [b], name, 1) <==> name in Names(rows[j]) {
          OneAddressed(rows, b, name);
          HitsTheLastRow(rows, b, name);
        }
      }
    }
  }

  lemma UnsplitGoesTogether(rows: seq<Row>, addressed: seq<string>, i: nat)
    requires i < |rows| && Unsplit(rows, i)
    ensures AllReached(rows, addressed, i) || NoneReached(rows, addressed, i)
  {
    hide Names, LastWith, Hits;
    if x :| x in Names(rows[i]) && Reached(rows, addressed, x, |addressed|) {
      var a :| 0 <= a < |addressed| && Hits(rows, addressed[a], x);
      NamedIfItHits(rows, addressed[a], x, i);
      HitsTheLastRow(rows, addressed[a], x);
      var j := LastWith(rows, addressed[a], |rows|).value;
      LastHasIt(rows, addressed[a]);
      assert Within(Names(rows[i]), Names(rows[j]));
      forall name | name in Names(rows[i]) ensures Reached(rows, addressed, name, |addressed|) {
        HitsTheLastRow(rows, addressed[a], name);
      }
    }
  }

  lemma LastHasIt(rows: seq<Row>, b: string)
    requires LastWith(rows, b, |rows|).Some?
    ensures b in Names(rows[LastWith(rows, b, |rows|).value])
  {}

  lemma NamedIfItHits(rows: seq<Row>, b: string, name: string, i: nat)
    requires i < |rows| && name in Names(rows[i]) && Hits(rows, b, name)
    ensures Named(rows, b, |rows|)
  {
    hide Names;
  }

  /** No name belongs to two packets. */
  ghost predicate UniqueNames(rows: seq<Row>) {
    forall i, j, name :: 0 <= i < |rows| && 0 <= j < |rows| && name in Names(rows[i]) && name in Names(rows[j]) ==> i == j
  }

  /**
    With unique names both conditions hold of every packet, and its names are
    gone exactly when a fragment addresses it by any of them.
   */
  lemma NamesGoTogether(rows: seq<Row>, addressed: seq<string>, i: nat, name: string)
    requires UniqueNames(rows) && i < |rows| && name in Names(rows[i])
    ensures Remembered(rows, i) && Unsplit(rows, i)
    ensures Reached(rows, addressed, name, |addressed|) <==> Addresses(rows, addressed, i)
  {
    hide Names, LastWith;
    forall a | a in Names(rows[i]) ensures LastWith(rows, a, |rows|) == Some(i) {
      OwnNameIsNamed(rows, i, a);
      HitsTheLastRow(rows, a, a);
      LastHasIt(rows, a);
    }
    if Addresses(rows, addressed, i) {
      AddressedLeavesWholeIff(rows, i);
    }
    if a :| 0 <= a < |addressed| && Hits(rows, addressed[a], name) {
      NamedIfItHits(rows, addressed[a], name, i);
      HitsTheLastRow(rows, addressed[a], name);
      LastHasIt(rows, addressed[a]);
    }
  }

  /** With a shared name they need not: the later row takes the alias, and the earlier packet's other name stays. */
  lemma SharedNameSplitsAPacket(x: string, y: string, z: string)
    requires x != "" && y != "" && z != "" && x != y && x != z && y != z
    ensures var rows := [Row(x, y), Row(x, z)];
      !Reached(rows, [x], y, 1) && Reached(rows, [x], x, 1) && Reached(rows, [x], z, 1)
  {
    var rows := [Row(x, y), Row(x, z)];
    assert LastWith(rows, x, 2) == Some(1);
    assert Aliases(rows, x, 2) == [x] + [z];
    assert Hits(rows, x, z) && Hits(rows, x, x) && !Hits(rows, x, y);
    assert [x][0] == x;
  }
}
