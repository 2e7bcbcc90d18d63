/** The chunked reader of a child's machine output: newline-separated lines under a length bound. */
module LineSplitter {
  import opened Base

  const MAX_CAPTURE_LINE_BYTES: nat := 64 * 1024
  const READ_BYTES: nat := 8192

  /** How the stream stops: end of file, or the deadline while waiting for more. */
  datatype Ending = EndOfFile | Deadline

  datatype Outcome = Finished | TimedOut | LineTooLarge

  // ----- The newline split -----

  /** The pieces between newlines, the last one unterminated. */
  function Pieces(s: bytes): (p: seq<bytes>)
    ensures p != []
    decreases |s|
  {
    match Find(s, NEWLINE)
    case None => [s]
    case Some(n) => [s[..n]] + Pieces(s[n + 1..])
  }

  function Joined(pieces: seq<bytes>): bytes
    requires pieces != []
  {
    if |pieces| == 1 then pieces[0] else pieces[0] + [NEWLINE] + Joined(pieces[1..])
  }

  function Last<T>(s: seq<T>): T
    requires s != []
  {
    s[|s| - 1]
  }

  function Front<T>(s: seq<T>): seq<T>
    requires s != []
  {
    s[..|s| - 1]
  }

  /** The pieces are the newline split: none holds a newline, and newlines between them rebuild the stream. */
  lemma {:induction false} PiecesSplit(s: bytes)
    ensures Joined(Pieces(s)) == s
    ensures forall i :: 0 <= i < |Pieces(s)| ==> Find(Pieces(s)[i], NEWLINE).None?
    decreases |s|
  {
    match Find(s, NEWLINE) {
      case None =>
      case Some(n) =>
        PiecesSplit(s[n + 1..]);
        var head, rest := s[..n], Pieces(s[n + 1..]);
        assert ([head] + rest)[1..] == rest;
        assert s == s[..n] + [NEWLINE] + s[n + 1..];
    }
  }

  /** There is only one such split. */
  lemma {:induction false} PiecesUnique(pieces: seq<bytes>)
    requires pieces != [] && forall i :: 0 <= i < |pieces| ==> Find(pieces[i], NEWLINE).None?
    ensures Pieces(Joined(pieces)) == pieces
  {
    hide Find, Pieces;
    PiecesStep(Joined(pieces));
    if |pieces| > 1 {
      var head, tail := pieces[0], Joined(pieces[1..]);
      PiecesUnique(pieces[1..]);
      FindOne(NEWLINE, NEWLINE);
      FindAppend([NEWLINE], tail, NEWLINE);
      FindAppend(head, [NEWLINE] + tail, NEWLINE);
      assert head + [NEWLINE] + tail == head + ([NEWLINE] + tail);
      assert Joined(pieces)[..|head|] == head && Joined(pieces)[|head| + 1..] == tail;
    }
  }

  lemma PiecesStep(s: bytes)
    ensures Pieces(s) == match Find(s, NEWLINE)
                         case None => [s]
                         case Some(n) => [s[..n]] + Pieces(s[n + 1..])
  {
    hide Find;
  }

  lemma LastOfRest<T>(head: T, rest: seq<T>)
    requires rest != []
    ensures Last([head] + rest) == Last(rest) && Front([head] + rest) == [head] + Front(rest)
  {
  }

  /** More input only continues the last piece. */
  lemma {:induction false} PiecesAppend(a: bytes, b: bytes)
    ensures Pieces(a + b) == Front(Pieces(a)) + Pieces(Last(Pieces(a)) + b)
    decreases |a|
  {
    hide Pieces, Find, Last, Front;
    PiecesStep(a);
    match Find(a, NEWLINE) {
      case None =>
        OnePiece(a);
        assert [] + Pieces(a + b) == Pieces(a + b);
      case Some(n) =>
        var rest := Pieces(a[n + 1..]);
        FindAppend(a, b, NEWLINE);
        PiecesAppend(a[n + 1..], b);
        PiecesStep(a + b);
        assert (a + b)[..n] == a[..n] && (a + b)[n + 1..] == a[n + 1..] + b;
        LastOfRest(a[..n], rest);
    }
  }

  lemma OnePiece<T>(a: T)
    ensures Last([a]) == a && Front([a]) == []
  {
  }

  lemma FirstGrows(a: bytes, b: bytes)
    ensures |Pieces(a + b)[0]| >= |Pieces(a)[0]|
  {
    FindAppend(a, b, NEWLINE);
  }

  // ----- What is captured -----

  predicate TooLong(line: bytes) {
    |line| > MAX_CAPTURE_LINE_BYTES
  }

  /** Index of the first line over the bound. */
  function FirstLong(pieces: seq<bytes>): (r: Option<nat>)
    ensures r.Some? ==> r.value < |pieces| && TooLong(pieces[r.value])
                        && forall i :: 0 <= i < r.value ==> !TooLong(pieces[i])
    ensures r.None? ==> forall i :: 0 <= i < |pieces| ==> !TooLong(pieces[i])
  {
    if pieces == [] then None
    else if TooLong(pieces[0]) then Some(0)
    else
      match FirstLong(pieces[1..])
      case None =>
        assert forall i :: 1 <= i < |pieces| ==> pieces[i] == pieces[1..][i - 1];
        None
      case Some(k) =>
        assert forall i :: 1 <= i < k + 1 ==> pieces[i] == pieces[1..][i - 1];
        Some(k + 1)
  }

  /** The lines yielded for a whole stream, and how the capture ends. */
  function Captured(s: bytes, ending: Ending): (seq<bytes>, Outcome) {
    var pieces := Pieces(s);
    match FirstLong(pieces)
    case Some(k) => (pieces[..k], LineTooLarge)
    case None =>
      match ending
      case EndOfFile => (if Last(pieces) == [] then Front(pieces) else pieces, Finished)
      case Deadline => (Front(pieces), TimedOut)
  }

  function Stream(chunks: seq<bytes>): bytes {
    if chunks == [] then [] else chunks[0] + Stream(chunks[1..])
  }

  predicate Reads(chunks: seq<bytes>) {
    forall i :: 0 <= i < |chunks| ==> 0 < |chunks[i]| <= READ_BYTES
  }

  lemma FirstLongAt(lines: seq<bytes>, rest: seq<bytes>)
    requires rest != [] && TooLong(rest[0]) && forall i :: 0 <= i < |lines| ==> !TooLong(lines[i])
    ensures FirstLong(lines + rest) == Some(|lines|)
    ensures (lines + rest)[..|lines|] == lines
  {
    var all := lines + rest;
    assert forall i :: 0 <= i < |lines| ==> all[i] == lines[i];
    assert all[|lines|] == rest[0];
  }

  // ----- The reader -----

  /** `newline := buffer.index(10)` in a loop: the lines of a buffer, then what is left of it. */
  method Drain(lines: seq<bytes>, buffer: bytes) returns (r: seq<bytes>, left: bytes, tooLarge: bool)
    requires forall i :: 0 <= i < |lines| ==> !TooLong(lines[i])
    ensures tooLarge ==> FirstLong(lines + Pieces(buffer)) == Some(|r|) && r == (lines + Pieces(buffer))[..|r|]
    ensures !tooLarge ==> r + [left] == lines + Pieces(buffer) && !TooLong(left)
    ensures forall i :: 0 <= i < |r| ==> !TooLong(r[i])
  {
    hide Find;
    r, left, tooLarge := lines, buffer, false;
    while true
      invariant r + Pieces(left) == lines + Pieces(buffer)
      invariant forall i :: 0 <= i < |r| ==> !TooLong(r[i])
      decreases |left|
    {
      var newline := Find(left, NEWLINE);
      if newline.None? {
        if |left| > MAX_CAPTURE_LINE_BYTES {
          FirstLongAt(r, [left]);
          return r, left, true;
        }
        return;
      }
      var line := left[..newline.value];
      ghost var rest := Pieces(left[newline.value + 1..]);
      left := left[newline.value + 1..];
      if |line| > MAX_CAPTURE_LINE_BYTES {
        FirstLongAt(r, [line] + rest);
        return r, left, true;
      }
      assert r + ([line] + rest) == (r + [line]) + rest;
      r := r + [line];
    }
  }

  lemma NoPieces()
    ensures Pieces([]) == [[]] && Find([], NEWLINE).None?
  {
  }

  /** A line found too long in a prefix is the first such line of the whole stream. */
  lemma LongInStream(lines: seq<bytes>, buffer: bytes, rest: bytes, k: nat)
    requires FirstLong(lines + Pieces(buffer)) == Some(k)
    ensures FirstLong(lines + Pieces(buffer + rest)) == Some(k)
    ensures (lines + Pieces(buffer + rest))[..k] == (lines + Pieces(buffer))[..k]
  {
    hide Pieces, Find, FirstLong;
    var p := Pieces(buffer);
    var front := lines + Front(p);
    PiecesAppend(buffer, rest);
    PiecesSplit(buffer);
    assert lines + p == front + [Last(p)];
    var tail := Pieces(Last(p) + rest);
    assert lines + Pieces(buffer + rest) == front + tail;
    PiecesStep(Last(p));
    FirstGrows(Last(p), rest);
    assert tail[0] == (front + tail)[|front|];
    if k < |front| {
      assert (front + tail)[k] == (front + [Last(p)])[k];
    }
    var lead := (front + tail)[..k];
    assert forall i :: 0 <= i < k ==> lead[i] == (front + [Last(p)])[i];
    FirstLongAt(lead, (front + tail)[k..]);
    assert lead + (front + tail)[k..] == front + tail;
  }

  /** Draining a prefix leaves the stream's pieces as the drained lines and what the left-over line continues to. */
  lemma DrainedStream(lines: seq<bytes>, buffer: bytes, rest: bytes, drained: seq<bytes>, left: bytes)
    requires drained + [left] == lines + Pieces(buffer)
    ensures lines + Pieces(buffer + rest) == drained + Pieces(left + rest)
    ensures Find(left, NEWLINE).None?
  {
    hide Pieces, Find;
    PiecesAppend(buffer, rest);
    PiecesSplit(buffer);
    var p := Pieces(buffer);
    assert (drained + [left])[|drained|] == left && (lines + p)[|lines| + |p| - 1] == p[|p| - 1];
    assert drained == (drained + [left])[..|drained|] == (lines + p)[..|drained|] == lines + Front(p);
  }

  /**
    `_iter_capture_lines`: what it yields depends on the bytes of the stream and not on how the reads cut them, and the
    buffer never holds more than the bound and one read.
   */
  method CaptureLines(chunks: seq<bytes>, ending: Ending)
    returns (lines: seq<bytes>, outcome: Outcome, ghost peak: nat)
    requires Reads(chunks)
    ensures (lines, outcome) == Captured(Stream(chunks), ending)
    ensures peak <= MAX_CAPTURE_LINE_BYTES + READ_BYTES
  {
    hide Find, Pieces, FirstLong;
    lines, outcome, peak := [], Finished, 0;
    var buffer: bytes := [];
    assert chunks[0..] == chunks && buffer + Stream(chunks) == Stream(chunks);
    assert lines + Pieces(Stream(chunks)) == Pieces(Stream(chunks));
    NoPieces();
    for i := 0 to |chunks|
      invariant !TooLong(buffer) && peak <= MAX_CAPTURE_LINE_BYTES + READ_BYTES
      invariant forall j :: 0 <= j < |lines| ==> !TooLong(lines[j])
      invariant Find(buffer, NEWLINE).None?
      invariant Pieces(Stream(chunks)) == lines + Pieces(buffer + Stream(chunks[i..]))
    {
      assert chunks[i..][1..] == chunks[i + 1..];
      ghost var rest := Stream(chunks[i + 1..]);
      assert buffer + Stream(chunks[i..]) == buffer + chunks[i] + rest;
      buffer := buffer + chunks[i];
      peak := if |buffer| > peak then |buffer| else peak;
      var drained, left, tooLarge := Drain(lines, buffer);
      if tooLarge {
        LongInStream(lines, buffer, rest, |drained|);
        return drained, LineTooLarge, peak;
      }
      DrainedStream(lines, buffer, rest, drained, left);
      lines, buffer := drained, left;
    }
    assert chunks[|chunks|..] == [] && buffer + [] == buffer;
    PiecesStep(buffer);
    ghost var pieces := Pieces(Stream(chunks));
    assert pieces == lines + [buffer];
    assert forall i :: 0 <= i < |pieces| ==> !TooLong(pieces[i]);
    if ending == Deadline {
      return lines, TimedOut, peak;
    }
    if buffer != [] {
      if |buffer| > MAX_CAPTURE_LINE_BYTES {
        return lines, LineTooLarge, peak;
      }
      lines := lines + [buffer];
    }
  }

  /** The size error comes exactly when some line is over the bound, and after exactly the lines before the first such. */
  lemma CapturedExact(s: bytes, ending: Ending)
    ensures var (lines, outcome) := Captured(s, ending);
            var pieces := Pieces(s);
            && (outcome == LineTooLarge <==> exists i :: 0 <= i < |pieces| && TooLong(pieces[i]))
            && (outcome == LineTooLarge ==>
                  |lines| < |pieces| && TooLong(pieces[|lines|]) && lines == pieces[..|lines|])
            && (forall i :: 0 <= i < |lines| ==> !TooLong(lines[i]) && Find(lines[i], NEWLINE).None?)
            && (outcome == Finished && s != [] ==>
                  lines != [] && (Joined(lines) == s || Joined(lines) + [NEWLINE] == s))
            && (outcome == TimedOut ==> ending == Deadline && lines == Front(pieces))
  {
    hide Find, Pieces, Joined;
    var pieces := Pieces(s);
    PiecesSplit(s);
    if Last(pieces) == [] {
      JoinedLast(pieces);
    }
  }

  lemma {:induction false} JoinedLast(pieces: seq<bytes>)
    requires pieces != [] && Last(pieces) == []
    ensures |pieces| == 1 ==> Joined(pieces) == []
    ensures |pieces| > 1 ==> Joined(pieces) == Joined(Front(pieces)) + [NEWLINE]
  {
    if |pieces| > 1 {
      JoinedLast(pieces[1..]);
      assert Front(pieces)[1..] == Front(pieces[1..]);
      assert Last(pieces[1..]) == Last(pieces);
    }
  }
}
