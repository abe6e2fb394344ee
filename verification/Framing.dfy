/** NUL framing of the DevTools pipe: what the reader makes of the bytes the writers put on it. */
module Framing {
  type Bytes = seq<bv8>

  /** A JSON text never holds a NUL: the serialiser escapes it. */
  ghost predicate NulFree(m: Bytes) { forall i :: 0 <= i < |m| ==> m[i] != 0 }

  function FirstNul(s: Bytes): (k: nat)
    ensures k <= |s|
    ensures forall i :: 0 <= i < k ==> s[i] != 0
    ensures k < |s| ==> s[k] == 0
  {
    if s == [] || s[0] == 0 then 0 else 1 + FirstNul(s[1..])
  }

  /** What repeated `read_until(0)` yields, NULs stripped: an unfinished last frame counts as a frame. */
  function Frames(s: Bytes): seq<Bytes>
    decreases |s|
  {
    if s == [] then []
    else
      var k := FirstNul(s);
      if k == |s| then [s] else [s[..k]] + Frames(s[k + 1..])
  }

  /** A write under the writer's lock: a whole frame, or what a failing write got through. */
  datatype Write = Whole(message: Bytes) | Torn(prefix: Bytes)

  function Put(w: Write): Bytes { if w.Whole? then w.message + [0] else w.prefix }

  function Wire(ws: seq<Write>): Bytes {
    if ws == [] then [] else Put(ws[0]) + Wire(ws[1..])
  }

  function Message(w: Write): seq<Bytes> { if w.Whole? then [w.message] else [] }

  function Messages(ws: seq<Write>): seq<Bytes> {
    if ws == [] then [] else Message(ws[0]) + Messages(ws[1..])
  }

  function Flatten(chunks: seq<Bytes>): Bytes {
    if chunks == [] then [] else chunks[0] + Flatten(chunks[1..])
  }

  lemma FirstNulAt(m: Bytes, rest: Bytes)
    requires NulFree(m)
    ensures FirstNul(m + [0] + rest) == |m|
  {
    var s := m + [0] + rest;
    var k := FirstNul(s);
    assert s[|m|] == 0;
    assert forall i :: 0 <= i < |m| ==> s[i] == m[i];
  }

  lemma FramesHead(m: Bytes, rest: Bytes)
    requires NulFree(m)
    ensures Frames(m + [0] + rest) == [m] + Frames(rest)
  {
    FirstNulAt(m, rest);
    var s := m + [0] + rest;
    assert s[..|m|] == m && s[|m| + 1..] == rest;
  }

  /** Reading one more byte either completes the frame or extends it. */
  lemma NextByte(frame: Bytes, chunk: Bytes, j: nat, later: Bytes)
    requires NulFree(frame) && j < |chunk|
    ensures var here, next := Frames(frame + (chunk[j..] + later)), chunk[j + 1..] + later;
      if chunk[j] == 0 then here == [frame] + Frames([] + next) else here == Frames(frame + [chunk[j]] + next)
  {
    hide Frames;
    var next := chunk[j + 1..] + later;
    assert chunk[j..] + later == [chunk[j]] + next;
    assert [] + next == next;
    assert frame + ([chunk[j]] + next) == frame + [chunk[j]] + next;
    if chunk[j] == 0 { FramesHead(frame, next); }
  }

  /** One chunk: the frames it completes, and the frame left unfinished, whatever comes after it. */
  method ReadChunk(unfinished: Bytes, chunk: Bytes, ghost later: Bytes) returns (frames: seq<Bytes>, frame: Bytes)
    requires NulFree(unfinished)
    ensures NulFree(frame)
    ensures Frames(unfinished + (chunk + later)) == frames + Frames(frame + later)
  {
    hide Frames, NulFree;
    frames, frame := [], unfinished;
    WholeChunk(chunk, later);
    for j := 0 to |chunk|
      invariant NulFree(frame)
      invariant Frames(unfinished + (chunk + later)) == frames + Frames(frame + (chunk[j..] + later))
    {
      NextByte(frame, chunk, j, later);
      ByteKeepsNulFree(frame, chunk[j]);
      if chunk[j] == 0 {
        frames, frame := frames + [frame], [];
      } else {
        frame := frame + [chunk[j]];
      }
    }
  }

  lemma WholeChunk(chunk: Bytes, later: Bytes)
    ensures chunk[0..] + later == chunk + later && chunk[|chunk|..] + later == later
  {}

  lemma ByteKeepsNulFree(frame: Bytes, c: bv8)
    requires NulFree(frame)
    ensures NulFree([]) && (c != 0 ==> NulFree(frame + [c]))
  {}

  lemma LastFrame(frame: Bytes)
    ensures frame == [] ==> NulFree(frame)
    ensures NulFree(frame) ==> Frames(frame) == if frame == [] then [] else [frame]
  {}

  /** The reader: however the stream is cut into chunks, it sees the frames of the whole stream. */
  method ReadFrames(chunks: seq<Bytes>) returns (frames: seq<Bytes>)
    ensures frames == Frames(Flatten(chunks))
  {
    hide Frames, NulFree;
    frames := [];
    var frame: Bytes := [];
    LastFrame(frame);
    assert chunks[0..] == chunks;
    assert frame + Flatten(chunks) == Flatten(chunks);
    for i := 0 to |chunks|
      invariant NulFree(frame)
      invariant Frames(Flatten(chunks)) == frames + Frames(frame + Flatten(chunks[i..]))
    {
      assert chunks[i..][1..] == chunks[i + 1..];
      var more;
      more, frame := ReadChunk(frame, chunks[i], Flatten(chunks[i + 1..]));
      frames := frames + more;
    }
    assert frame + Flatten(chunks[|chunks|..]) == frame;
    LastFrame(frame);
    if frame != [] { frames := frames + [frame]; }
  }

  ghost predicate Clean(ws: seq<Write>) {
    forall i :: 0 <= i < |ws| ==> NulFree(if ws[i].Whole? then ws[i].message else ws[i].prefix)
  }

  function TornBytes(ws: seq<Write>): nat {
    if ws == [] then 0 else (if ws[0].Torn? then |ws[0].prefix| else 0) + TornBytes(ws[1..])
  }

  lemma {:induction false} IntactIsRecovered(ws: seq<Write>)
    requires Clean(ws) && TornBytes(ws) == 0
    ensures Frames(Wire(ws)) == Messages(ws)
  {
    hide Frames, NulFree;
    LastFrame([]);
    if ws != [] {
      IntactIsRecovered(ws[1..]);
      if ws[0].Whole? {
        FramesHead(ws[0].message, Wire(ws[1..]));
      } else {
        assert ws[0].prefix + Wire(ws[1..]) == Wire(ws[1..]);
      }
    }
  }

  function Size(fs: seq<Bytes>): nat { if fs == [] then 0 else |fs[0]| + Size(fs[1..]) }

  function Nuls(s: Bytes): nat { if s == [] then 0 else (if s[0] == 0 then 1 else 0) + Nuls(s[1..]) }

  lemma {:induction false} NulsAdd(a: Bytes, b: Bytes)
    ensures Nuls(a + b) == Nuls(a) + Nuls(b)
    ensures NulFree(a) ==> Nuls(a) == 0
  {
    if a == [] {
      assert a + b == b;
    } else {
      NulsAdd(a[1..], b);
      assert (a + b)[1..] == a[1..] + b;
    }
  }

  /** The NULs of a text are the first one, if any, and those after it. */
  lemma {:induction false} NulsAfterFirst(s: Bytes)
    requires s != []
    ensures var k := FirstNul(s); Nuls(s) == if k == |s| then 0 else 1 + Nuls(s[k + 1..])
  {
    if s[0] != 0 && |s| > 1 {
      NulsAfterFirst(s[1..]);
      var k := FirstNul(s[1..]);
      if k < |s| - 1 { assert s[1..][k + 1..] == s[k + 2..]; }
    }
  }

  /** Splitting loses nothing but the NULs. */
  lemma {:induction false} FramesConserve(s: Bytes)
    ensures Size(Frames(s)) + Nuls(s) == |s|
    decreases |s|
  {
    if s != [] {
      NulsAfterFirst(s);
      var k := FirstNul(s);
      hide Nuls, FirstNul;
      if k < |s| {
        FramesConserve(s[k + 1..]);
        SizeAdds([s[..k]], Frames(s[k + 1..]));
      }
    }
  }

  lemma SizeAdds(a: seq<Bytes>, b: seq<Bytes>)
    ensures Size(a + b) == Size(a) + Size(b)
  {
    if a == [] {
      assert a + b == b;
    } else {
      SizeAdds(a[1..], b);
      assert (a + b)[1..] == a[1..] + b;
    }
  }

  lemma PutSize(w: Write)
    requires NulFree(if w.Whole? then w.message else w.prefix)
    ensures |Put(w)| == Size(Message(w)) + Nuls(Put(w)) + TornBytes([w])
  {
    if w.Whole? {
      var nul: Bytes := [0];
      assert nul[1..] == [];
      NulsAdd(w.message, nul);
    } else {
      NulsAdd(w.prefix, []);
    }
  }

  lemma {:induction false} WireSize(ws: seq<Write>)
    requires Clean(ws)
    ensures |Wire(ws)| == Size(Messages(ws)) + Nuls(Wire(ws)) + TornBytes(ws)
  {
    if ws != [] {
      WireSize(ws[1..]);
      PutSize(ws[0]);
      NulsAdd(Put(ws[0]), Wire(ws[1..]));
      SizeAdds(Message(ws[0]), Messages(ws[1..]));
      hide Put, Message, Size, Nuls;
    }
  }

  /**
    The reader recovers exactly the messages whose writes succeeded, if and only
    if no failing write left bytes of its frame on the wire.
   */
  lemma RecoveredIffNothingTorn(ws: seq<Write>)
    requires Clean(ws)
    ensures Frames(Wire(ws)) == Messages(ws) <==> forall i :: 0 <= i < |ws| && ws[i].Torn? ==> ws[i].prefix == []
  {
    TornBytesZero(ws);
    if TornBytes(ws) == 0 {
      IntactIsRecovered(ws);
    } else {
      WireSize(ws);
      FramesConserve(Wire(ws));
    }
  }

  lemma {:induction false} TornBytesZero(ws: seq<Write>)
    ensures TornBytes(ws) == 0 <==> forall i :: 0 <= i < |ws| && ws[i].Torn? ==> ws[i].prefix == []
  {
    if ws != [] {
      TornBytesZero(ws[1..]);
      assert forall i :: 1 <= i < |ws| ==> ws[i] == ws[1..][i - 1];
    }
  }

  // ----------------------------------------------------- which messages arrive

  /** The frames of `carry` and then `ws`: each whole message behind the torn bytes since the last NUL, then what is unfinished. */
  function Pieces(carry: Bytes, ws: seq<Write>): (ps: seq<Bytes>)
    ensures |Messages(ws)| <= |ps| <= |Messages(ws)| + 1
    decreases |ws|
  {
    if ws == [] then (if carry == [] then [] else [carry])
    else match ws[0]
      case Whole(m) => [carry + m] + Pieces([], ws[1..])
      case Torn(prefix) => Pieces(carry + prefix, ws[1..])
  }

  /** What splitting yields, whatever writes failed and wherever. */
  lemma {:induction false} SplittingYields(carry: Bytes, ws: seq<Write>)
    requires NulFree(carry) && Clean(ws)
    ensures Frames(carry + Wire(ws)) == Pieces(carry, ws)
    decreases |ws|
  {
    if ws == [] {
      assert carry + Wire(ws) == carry;
      LastFrame(carry);
    } else {
      var w, rest := ws[0], ws[1..];
      assert Wire(ws) == Put(w) + Wire(rest);
      assert NulFree(carry + if w.Whole? then w.message else w.prefix) && NulFree([]) && Clean(rest);
      hide Frames, Wire, NulFree, Clean;
      if w.Whole? {
        assert carry + (w.message + [0] + Wire(rest)) == (carry + w.message) + [0] + Wire(rest);
        FramesHead(carry + w.message, Wire(rest));
        SplittingYields([], rest);
        assert [] + Wire(rest) == Wire(rest);
      } else {
        assert carry + (w.prefix + Wire(rest)) == (carry + w.prefix) + Wire(rest);
        SplittingYields(carry + w.prefix, rest);
      }
    }
  }

  /** The torn bytes on the wire before write `i`, since the last whole frame. */
  function Since(carry: Bytes, ws: seq<Write>, i: nat): Bytes
    requires i <= |ws|
  {
    if i == 0 then carry
    else match ws[i - 1]
      case Whole(_) => []
      case Torn(prefix) => Since(carry, ws, i - 1) + prefix
  }

  lemma {:induction false} SinceTail(carry: Bytes, ws: seq<Write>, i: nat)
    requires 0 < i <= |ws|
    ensures Since(carry, ws, i) == Since(if ws[0].Whole? then [] else carry + ws[0].prefix, ws[1..], i - 1)
  {
    if i > 1 {
      SinceTail(carry, ws, i - 1);
      assert ws[1..][i - 2] == ws[i - 1];
    }
  }

  /** A failing write left bytes, and no whole frame followed before write `i`. */
  ghost predicate Dirtied(ws: seq<Write>, j: nat, i: nat)
    requires j < i <= |ws|
  {
    ws[j].Torn? && ws[j].prefix != [] && forall k :: j < k < i ==> ws[k].Torn?
  }

  lemma {:induction false} SinceIsDirt(ws: seq<Write>, i: nat)
    requires i <= |ws|
    ensures Since([], ws, i) != [] <==> exists j :: 0 <= j < i && Dirtied(ws, j, i)
  {
    if i > 0 && ws[i - 1].Torn? {
      var h := i - 1;
      SinceIsDirt(ws, h);
      if j :| 0 <= j < h && Dirtied(ws, j, h) { assert Dirtied(ws, j, i); }
      if j :| 0 <= j < i && Dirtied(ws, j, i) {
        assert j == h || Dirtied(ws, j, h);
      }
      if ws[i - 1].prefix != [] { assert Dirtied(ws, i - 1, i); }
    }
  }

  /** Which frame of the stream write `i` completes: the number of whole writes before it. */
  function FrameNumber(ws: seq<Write>, i: nat): (n: nat)
    requires i <= |ws|
    ensures n <= |Messages(ws)| && (i < |ws| && ws[i].Whole? ==> n < |Messages(ws)|)
    decreases |ws|
  {
    if i == 0 then 0 else |Message(ws[0])| + FrameNumber(ws[1..], i - 1)
  }

  lemma {:induction false} PieceOf(carry: Bytes, ws: seq<Write>, i: nat)
    requires i < |ws| && ws[i].Whole?
    ensures Pieces(carry, ws)[FrameNumber(ws, i)] == Since(carry, ws, i) + ws[i].message
    ensures Messages(ws)[FrameNumber(ws, i)] == ws[i].message
    decreases |ws|
  {
    if i > 0 {
      var carry' := if ws[0].Whole? then [] else carry + ws[0].prefix;
      PieceOf(carry', ws[1..], i - 1);
      SinceTail(carry, ws, i);
    }
  }

  /**
    A message arrives intact exactly when no failing write since the whole frame
    before it left bytes on the wire; otherwise those bytes stand before it in
    its frame.
   */
  lemma ArrivesIff(ws: seq<Write>, i: nat)
    requires Clean(ws) && i < |ws| && ws[i].Whole?
    ensures var n := FrameNumber(ws, i);
      && n < |Frames(Wire(ws))| && Frames(Wire(ws))[n] == Since([], ws, i) + ws[i].message
      && (Frames(Wire(ws))[n] == ws[i].message <==> !exists j :: 0 <= j < i && Dirtied(ws, j, i))
  {
    hide Frames, NulFree, Dirtied, Pieces, Since;
    LastFrame([]);
    SplittingYields([], ws);
    assert [] + Wire(ws) == Wire(ws);
    PieceOf([], ws, i);
    SinceIsDirt(ws, i);
    var since, m := Since([], ws, i), ws[i].message;
    assert since == [] ==> since + m == m;
    assert since != [] ==> |since + m| > |m|;
  }

  lemma {:induction false} HasWriter(ws: seq<Write>, n: nat) returns (i: nat)
    requires n < |Messages(ws)|
    ensures i < |ws| && ws[i].Whole? && FrameNumber(ws, i) == n
  {
    if ws[0].Whole? && n == 0 {
      i := 0;
    } else {
      var k := HasWriter(ws[1..], n - |Message(ws[0])|);
      i := k + 1;
    }
  }

  /** All messages arrive, each in its place, exactly when no failing write that left bytes precedes a whole one. */
  lemma AllArriveIff(ws: seq<Write>)
    requires Clean(ws)
    ensures Messages(ws) <= Frames(Wire(ws))
      <==> forall j, i :: 0 <= j < i < |ws| && ws[j].Torn? && ws[j].prefix != [] ==> ws[i].Torn?
  {
    hide Frames, Wire, NulFree, FrameNumber;
    var frames, sent := Frames(Wire(ws)), Messages(ws);
    FramesCount(ws);
    if sent <= frames {
      forall j, i | 0 <= j < i < |ws| && ws[j].Torn? && ws[j].prefix != [] ensures ws[i].Torn? {
        if ws[i].Whole? { WholeAfterTornIsLost(ws, j, i); assert false; }
      }
    }
    if forall j, i :: 0 <= j < i < |ws| && ws[j].Torn? && ws[j].prefix != [] ==> ws[i].Torn? {
      forall n | 0 <= n < |sent| ensures frames[n] == sent[n] {
        var i := HasWriter(ws, n);
        ArrivesIff(ws, i);
        PieceOf([], ws, i);
      }
    }
  }

  lemma FramesCount(ws: seq<Write>)
    requires Clean(ws)
    ensures |Frames(Wire(ws))| >= |Messages(ws)|
  {
    LastFrame([]);
    hide Frames;
    SplittingYields([], ws);
    assert [] + Wire(ws) == Wire(ws);
  }

  /** The first whole write after bytes were left is not intact. */
  lemma {:induction false} WholeAfterTornIsLost(ws: seq<Write>, j: nat, i: nat)
    requires Clean(ws) && j < i < |ws| && ws[j].Torn? && ws[j].prefix != [] && ws[i].Whole?
    ensures !(Messages(ws) <= Frames(Wire(ws)))
    decreases i
  {
    hide Frames, Wire;
    if k :| j < k < i && ws[k].Whole? {
      WholeAfterTornIsLost(ws, j, k);
    } else {
      assert Dirtied(ws, j, i);
      ArrivesIff(ws, i);
      PieceOf([], ws, i);
    }
  }

  /** A write that fails after its first byte loses the next message: the reader finds both in one frame. */
  lemma TornWriteLosesTheNext(a: bv8, m: Bytes)
    requires a != 0 && NulFree(m)
    ensures Frames(Wire([Torn([a]), Whole(m)])) == [[a] + m] && m !in Frames(Wire([Torn([a]), Whole(m)]))
  {
    var ws, torn := [Torn([a]), Whole(m)], [a];
    hide Frames;
    LastFrame([]);
    SplittingYields([], ws);
    hide NulFree, Wire;
    assert [] + Wire(ws) == Wire(ws);
    assert ws[1..] == [Whole(m)] && ws[1..][1..] == [];
    assert [] + torn == torn;
    assert Pieces(torn, ws[1..]) == [torn + m] + Pieces([], []);
    assert |torn + m| == |m| + 1;
  }

  /** The same failure after the last message loses nothing: only a frame that is no message is left over. */
  lemma TornWriteAtTheEndLosesNone(a: bv8, m: Bytes)
    requires a != 0 && NulFree(m)
    ensures Frames(Wire([Whole(m), Torn([a])])) == [m] + [[a]]
  {
    var ws, torn := [Whole(m), Torn([a])], [a];
    hide Frames;
    LastFrame([]);
    SplittingYields([], ws);
    hide NulFree, Wire;
    assert [] + Wire(ws) == Wire(ws);
    assert ws[1..] == [Torn(torn)] && ws[1..][1..] == [];
    assert [] + torn == torn && [] + m == m;
    assert Pieces([], ws[1..]) == Pieces(torn, []);
  }
}
