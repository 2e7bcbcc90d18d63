/** Printing search results and reading them back. */
module SearchLaws {
  import opened Base
  import opened JsonString
  import opened JsonGrammar
  import opened Decimal
  import opened Lexical
  import opened Search

  // ----- Grouping -----

  /** Every group's file comes before `f`. */
  predicate Before(groups: seq<Group>, f: bytes) {
    forall i :: 0 <= i < |groups| ==> Less(groups[i].file, f)
  }

  lemma {:induction false} AddNew(groups: seq<Group>, m: Match)
    requires Before(groups, m.file)
    ensures AddToGroup(groups, m) == groups + [Group(m.file, [m])]
  {
    hide Less;
    if groups != [] {
      LessTotal(groups[0].file, m.file);
      AddNew(groups[1..], m);
      assert groups + [Group(m.file, [m])] == [groups[0]] + (groups[1..] + [Group(m.file, [m])]);
    }
  }

  lemma {:induction false} AddToLast(groups: seq<Group>, items: seq<Match>, m: Match)
    requires Before(groups, m.file)
    ensures AddToGroup(groups + [Group(m.file, items)], m) == groups + [Group(m.file, items + [m])]
  {
    hide Less;
    var all := groups + [Group(m.file, items)];
    LessTotal(m.file, m.file);
    if groups == [] {
      assert all[1..] == [];
    } else {
      LessTotal(groups[0].file, m.file);
      AddToLast(groups[1..], items, m);
      assert all[1..] == groups[1..] + [Group(m.file, items)];
      assert groups + [Group(m.file, items + [m])] == [groups[0]] + (groups[1..] + [Group(m.file, items + [m])]);
    }
  }

  // ----- The lines of a sorted list -----

  /** A header wherever the file changes, then the record. */
  function Listing(previous: Option<bytes>, matches: seq<Match>): seq<bytes>
    decreases |matches|
  {
    if matches == [] then []
    else
      (if previous == Some(matches[0].file) then [] else [matches[0].file + [COLON]])
      + [RecordLine(matches[0])] + Listing(Some(matches[0].file), matches[1..])
  }

  lemma {:induction false} GroupLinesAppend(a: seq<Group>, b: seq<Group>)
    ensures GroupLines(a + b) == GroupLines(a) + GroupLines(b)
  {
    hide RecordLines;
    if a == [] {
      assert a + b == b;
    } else {
      assert (a + b)[1..] == a[1..] + b;
      GroupLinesAppend(a[1..], b);
    }
  }

  lemma {:induction false} RecordLinesAppend(items: seq<Match>, m: Match)
    ensures RecordLines(items + [m]) == RecordLines(items) + [RecordLine(m)]
  {
    hide RecordLine;
    if items == [] {
      assert (items + [m])[1..] == [];
    } else {
      assert (items + [m])[1..] == items[1..] + [m];
      RecordLinesAppend(items[1..], m);
    }
  }

  lemma OneGroup(file: bytes, items: seq<Match>)
    ensures GroupLines([Group(file, items)]) == [file + [COLON]] + RecordLines(items)
  {
    assert [Group(file, items)][1..] == [];
  }

  lemma SortedFiles(matches: seq<Match>)
    requires Sorted(matches) && matches != []
    ensures Sorted(matches[1..]) && (|matches| >= 2 ==> !Less(matches[1].file, matches[0].file))
  {
  }

  /** Grouping a sorted list keeps its order: the ordered map never has to insert in the middle. */
  lemma {:induction false} GroupingIsListing(groups: seq<Group>, file: bytes, items: seq<Match>, matches: seq<Match>)
    requires Before(groups, file) && Sorted(matches) && (matches == [] || !Less(matches[0].file, file))
    ensures GroupLines(GroupAll(groups + [Group(file, items)], matches))
            == GroupLines(groups + [Group(file, items)]) + Listing(Some(file), matches)
    decreases |matches|
  {
    hide Less, RecordLines, RecordLine, AddToGroup, GroupLines, Sorted;
    if matches != [] {
      var m, rest := matches[0], matches[1..];
      SortedFiles(matches);
      LessTotal(file, m.file);
      if m.file == file {
        AddToLast(groups, items, m);
        GroupingIsListing(groups, file, items + [m], rest);
        LastGrows(groups, items, m);
      } else {
        BeforeStep(groups, file, items, m.file);
        AddNew(groups + [Group(file, items)], m);
        GroupingIsListing(groups + [Group(file, items)], m.file, [m], rest);
        NewGroup(groups + [Group(file, items)], m);
      }
    }
  }

  lemma BeforeStep(groups: seq<Group>, file: bytes, items: seq<Match>, next: bytes)
    requires Before(groups, file) && Less(file, next)
    ensures Before(groups + [Group(file, items)], next)
  {
    hide Less;
    forall i | 0 <= i < |groups| ensures Less(groups[i].file, next) {
      LessTransitive(groups[i].file, file, next);
    }
  }

  lemma LastGrows(groups: seq<Group>, items: seq<Match>, m: Match)
    ensures GroupLines(groups + [Group(m.file, items + [m])])
            == GroupLines(groups + [Group(m.file, items)]) + [RecordLine(m)]
  {
    hide GroupLines, RecordLine, RecordLines;
    GroupLinesAppend(groups, [Group(m.file, items)]);
    GroupLinesAppend(groups, [Group(m.file, items + [m])]);
    OneGroup(m.file, items);
    OneGroup(m.file, items + [m]);
    RecordLinesAppend(items, m);
  }

  lemma NewGroup(groups: seq<Group>, m: Match)
    ensures GroupLines(groups + [Group(m.file, [m])]) == GroupLines(groups) + [m.file + [COLON], RecordLine(m)]
  {
    hide GroupLines, RecordLine;
    GroupLinesAppend(groups, [Group(m.file, [m])]);
    OneGroup(m.file, [m]);
    RecordLinesAppend([], m);
    assert [] + [m] == [m];
  }

  /** What is rendered for a sorted list. */
  lemma RenderSorted(matches: seq<Match>)
    requires Sorted(matches)
    ensures Render(matches) == JoinLines([TITLE] + Listing(None, matches))
  {
    hide Less, RecordLine, RecordLines, Sorted, JoinLines;
    if matches != [] {
      var m := matches[0];
      SortedFiles(matches);
      GroupingIsListing([], m.file, [m], matches[1..]);
      NewGroup([], m);
      assert [] + [Group(m.file, [m])] == [Group(m.file, [m])];
      assert AddToGroup([], m) == [Group(m.file, [m])];
      assert GroupAll([], matches) == GroupAll([Group(m.file, [m])], matches[1..]);
      assert GroupLines([Group(m.file, [m])]) == [m.file + [COLON], RecordLine(m)];
      assert Listing(None, matches) == [m.file + [COLON]] + [RecordLine(m)] + Listing(Some(m.file), matches[1..]);
      assert GroupLines(GroupAll([], matches)) == Listing(None, matches);
      assert [m.file + [COLON], RecordLine(m)] == [m.file + [COLON]] + [RecordLine(m)];
    }
  }

  // ----- Splitting joined lines -----

  function DropCrs(lines: seq<bytes>): (r: seq<bytes>)
    ensures |r| == |lines| && forall i :: 0 <= i < |lines| ==> r[i] == DropCr(lines[i])
  {
    seq(|lines|, i requires 0 <= i < |lines| => DropCr(lines[i]))
  }

  predicate OneLine(s: bytes) {
    Find(s, NEWLINE).None?
  }

  lemma NoLines()
    ensures Lines([]) == []
  {
  }

  lemma LineThenRest(head: bytes, tail: bytes)
    requires OneLine(head)
    ensures Lines(head + [NEWLINE] + tail) == [DropCr(head)] + Lines(tail)
  {
    hide Find, DropCr;
    var all := head + [NEWLINE] + tail;
    FindOne(NEWLINE, NEWLINE);
    FindAppend([NEWLINE], tail, NEWLINE);
    FindAppend(head, [NEWLINE] + tail, NEWLINE);
    assert all == head + ([NEWLINE] + tail);
    assert all[..|head|] == head && all[|head| + 1..] == tail;
  }

  /** Splitting undoes joining, except that a carriage return at the end of a line is lost. */
  lemma {:induction false} LinesJoin(lines: seq<bytes>)
    requires forall i :: 0 <= i < |lines| ==> OneLine(lines[i])
    ensures Lines(JoinLines(lines)) == DropCrs(lines)
  {
    hide Lines, OneLine, DropCr;
    NoLines();
    if lines != [] {
      LineThenRest(lines[0], JoinLines(lines[1..]));
      LinesJoin(lines[1..]);
    }
  }

  // ----- Texts -----

  /** A backslash directly followed by the letter n. */
  predicate HasLiteral(t: bytes) {
    |t| >= 2 && ((t[0] == BACKSLASH && t[1] == 0x6E) || HasLiteral(t[1..]))
  }

  predicate EndsIn(t: bytes, b: byte) {
    t != [] && t[|t| - 1] == b
  }

  /** The texts that survive: a caller can check this before printing. */
  predicate TextOk(t: bytes) {
    !HasLiteral(t) && !EndsIn(t, CR) && !(EndsIn(t, COLON) && Find(t, SPACE).None?)
  }

  lemma {:induction false} EscapeAppend(a: bytes, b: bytes)
    ensures EscapeNewlines(a + b) == EscapeNewlines(a) + EscapeNewlines(b)
  {
    if a == [] {
      assert a + b == b;
    } else {
      assert (a + b)[1..] == a[1..] + b;
      EscapeAppend(a[1..], b);
    }
  }

  /** Escaping and unescaping loses exactly the literal pairs, one byte each. */
  lemma {:induction false} EscapeKeeps(t: bytes)
    ensures |UnescapeNewlines(EscapeNewlines(t))| <= |t|
    ensures HasLiteral(t) ==> |UnescapeNewlines(EscapeNewlines(t))| < |t|
    ensures !HasLiteral(t) ==> UnescapeNewlines(EscapeNewlines(t)) == t
    decreases |t|
  {
    if t != [] {
      var e := EscapeNewlines(t[1..]);
      EscapeKeeps(t[1..]);
      if t[0] == NEWLINE {
        assert EscapeNewlines(t)[2..] == e;
      } else {
        assert EscapeNewlines(t) == [t[0]] + e && EscapeNewlines(t)[1..] == e;
        if |t| >= 2 && t[0] == BACKSLASH && t[1] == 0x6E {
          EscapeKeeps(t[2..]);
          assert e == [0x6E] + EscapeNewlines(t[1..][1..]) && t[1..][1..] == t[2..];
          assert EscapeNewlines(t)[2..] == EscapeNewlines(t[2..]);
        }
      }
    }
  }

  /** The text as it is read back. */
  function Kept(t: bytes): bytes {
    UnescapeNewlines(DropCr(EscapeNewlines(t)))
  }

  /** The record is read as a file header. */
  predicate Swallowed(t: bytes) {
    EndsIn(DropCr(EscapeNewlines(t)), COLON) && Find(DropCr(EscapeNewlines(t)), SPACE).None?
  }

  /** The line of `t` without its carriage return is the line of `t` without its carriage return. */
  lemma EscapeDrop(t: bytes)
    ensures DropCr(EscapeNewlines(t)) == EscapeNewlines(DropCr(t))
    ensures t != [] ==> (EndsIn(EscapeNewlines(t), CR) <==> EndsIn(t, CR))
    ensures t != [] ==> (EndsIn(EscapeNewlines(t), COLON) <==> EndsIn(t, COLON))
  {
    if t != [] {
      var front, last := t[..|t| - 1], t[|t| - 1];
      assert t == front + [last];
      EscapeAppend(front, [last]);
      assert [last][1..] == [];
      assert EscapeNewlines([last]) == if last == NEWLINE then [BACKSLASH, 0x6E] else [last];
      if last == CR {
        assert DropCr(EscapeNewlines(t)) == EscapeNewlines(front);
      }
    }
  }

  lemma {:induction false} EscapeSpaces(t: bytes)
    ensures Find(EscapeNewlines(t), SPACE).None? <==> Find(t, SPACE).None?
    ensures OneLine(EscapeNewlines(t))
  {
    if t != [] {
      EscapeSpaces(t[1..]);
      var head := if t[0] == NEWLINE then [BACKSLASH, 0x6E] else [t[0]];
      FindAppend(head, EscapeNewlines(t[1..]), SPACE);
      FindAppend(head, EscapeNewlines(t[1..]), NEWLINE);
      assert head[1..] == if t[0] == NEWLINE then [0x6E] else [];
    }
  }

  /** A text survives exactly when it has no literal pair, no final carriage return, and is not a header. */
  lemma TextSurvives(t: bytes)
    ensures |Kept(t)| <= |t|
    ensures |Kept(t)| == |t| ==> Kept(t) == t
    ensures TextOk(t) <==> (Kept(t) == t && !Swallowed(t))
  {
    hide HasLiteral, Find, EscapeNewlines, UnescapeNewlines;
    EscapeDrop(t);
    EscapeKeeps(DropCr(t));
    EscapeSpaces(t);
    if EndsIn(t, CR) {
      assert |Kept(t)| < |t|;
    } else {
      assert DropCr(t) == t;
      EmptyText(t);
    }
  }

  lemma EmptyText(t: bytes)
    ensures t == [] ==> EscapeNewlines(t) == []
  {
  }

  // ----- Reading one rendered line -----

  /** A file name whose header line is recognised. */
  predicate FileOk(f: bytes) {
    f != [] && Find(f, SPACE).None?
  }

  predicate Printable(m: Match) {
    OneLine(m.file) && Utf8(m.file) && Utf8(m.text) && m.line <= U64_MAX
  }

  lemma DecimalHas(n: nat, x: byte)
    requires !Digit(x)
    ensures Find(ToDecimal(n), x).None?
    ensures ToDecimal(n) != [] && Digit(ToDecimal(n)[0])
  {
    ToDecimalDigits(n);
  }

  lemma RecordText(m: Match)
    ensures DropCr(RecordLine(m)) == ToDecimal(m.line) + [TAB] + DropCr(EscapeNewlines(m.text))
  {
    hide ToDecimal, EscapeNewlines;
  }

  lemma RecordHeader(m: Match)
    ensures HeaderLike(DropCr(RecordLine(m))) <==> Swallowed(m.text)
    ensures DropCr(RecordLine(m)) != [] && DropCr(RecordLine(m)) != TITLE
  {
    hide ToDecimal, EscapeNewlines, Find;
    var head, tail := ToDecimal(m.line) + [TAB], DropCr(EscapeNewlines(m.text));
    RecordText(m);
    DecimalHas(m.line, SPACE);
    FindOne(TAB, SPACE);
    FindAppend(ToDecimal(m.line), [TAB], SPACE);
    FindAppend(head, tail, SPACE);
    assert head + tail == ToDecimal(m.line) + [TAB] + tail;
    assert Digit((head + tail)[0]);
  }

  lemma RecordGrouped(m: Match, file: bytes)
    requires m.line <= U64_MAX
    ensures GroupedEvent(DropCr(RecordLine(m)), file) == Some(Found(Match(file, m.line, Kept(m.text))))
  {
    hide ToDecimal, EscapeNewlines, UnescapeNewlines, Find, ParseU64;
    var digits, tail := ToDecimal(m.line), DropCr(EscapeNewlines(m.text));
    var line := digits + ([TAB] + tail);
    RecordText(m);
    DecimalHas(m.line, TAB);
    FindOne(TAB, TAB);
    FindAppend([TAB], tail, TAB);
    FindAppend(digits, [TAB] + tail, TAB);
    assert line == digits + [TAB] + tail;
    assert line[..|digits|] == digits && line[|digits| + 1..] == tail;
    ParseToDecimal(m.line);
  }

  /** A rendered record under a header: read back, or taken for another header. */
  lemma RecordEvent(m: Match, file: bytes, lib: Library)
    requires m.line <= U64_MAX
    ensures !Swallowed(m.text) ==>
              LineEvent(DropCr(RecordLine(m)), Some(file), lib) == Found(Match(file, m.line, Kept(m.text)))
    ensures Swallowed(m.text) ==>
              var e := LineEvent(DropCr(RecordLine(m)), Some(file), lib); e.Header? && Find(e.file, SPACE).None?
  {
    hide RecordLine, GroupedEvent, Find, Swallowed, HeaderLike, Accepts, Kept;
    RecordHeader(m);
    RecordGrouped(m, file);
    HeaderFree(DropCr(RecordLine(m)));
  }

  lemma HeaderFree(line: bytes)
    ensures HeaderLike(line) ==> Find(line[..|line| - 1], SPACE).None?
  {
    if HeaderLike(line) {
      assert line == line[..|line| - 1] + [COLON];
      FindAppend(line[..|line| - 1], [COLON], SPACE);
    }
  }

  lemma HeaderLine(file: bytes)
    ensures DropCr(file + [COLON]) == file + [COLON]
    ensures HeaderLike(file + [COLON]) <==> FileOk(file)
    ensures file + [COLON] != TITLE && (file + [COLON])[..|file|] == file
  {
    hide Find;
    FindAppend(file, [COLON], SPACE);
    FindOne(COLON, SPACE);
    assert (file + [COLON])[|file|] == COLON;
  }

  lemma HeaderEvent(file: bytes, grouped: Option<bytes>, lib: Library)
    requires FileOk(file)
    ensures LineEvent(DropCr(file + [COLON]), grouped, lib) == Header(file)
  {
    hide HeaderLike, GroupedEvent, Accepts, FileOk;
    HeaderLine(file);
  }

  // ----- Reading a listing -----

  function KeptAll(matches: seq<Match>): seq<Match> {
    if matches == [] then []
    else [Match(matches[0].file, matches[0].line, Kept(matches[0].text))] + KeptAll(matches[1..])
  }

  function Survivors(matches: seq<Match>): (n: nat)
    ensures n <= |matches|
  {
    if matches == [] then 0 else (if Swallowed(matches[0].text) then 0 else 1) + Survivors(matches[1..])
  }

  /** The lines one match adds to a listing. */
  function Step(previous: Option<bytes>, m: Match): seq<bytes> {
    (if previous == Some(m.file) then [] else [m.file + [COLON]]) + [RecordLine(m)]
  }

  lemma DropCrsAppend(a: seq<bytes>, b: seq<bytes>)
    ensures DropCrs(a + b) == DropCrs(a) + DropCrs(b)
  {
    hide DropCr;
  }

  lemma {:induction false} ReadAppend(r: Reading, a: seq<bytes>, b: seq<bytes>, lib: Library)
    ensures ReadLines(r, a + b, lib)
            == match ReadLines(r, a, lib) case None => None case Some(q) => ReadLines(q, b, lib)
    decreases |a|
  {
    hide LineEvent, ReadEvent;
    if a == [] {
      assert a + b == b;
    } else {
      assert (a + b)[1..] == a[1..] + b;
      var e := LineEvent(a[0], r.grouped, lib);
      if !e.Abort? {
        ReadAppend(ReadEvent(r, e), a[1..], b, lib);
      }
    }
  }

  lemma ReadOne(r: Reading, line: bytes, lib: Library)
    requires !LineEvent(line, r.grouped, lib).Abort?
    ensures ReadLines(r, [line], lib) == Some(ReadEvent(r, LineEvent(line, r.grouped, lib)))
  {
    hide LineEvent, ReadEvent;
    assert [line][1..] == [];
  }

  /** One match of a listing, read: its header, then its record. */
  lemma ReadStep(r: Reading, previous: Option<bytes>, m: Match, lib: Library) returns (q: Reading)
    requires FileOk(m.file) && m.line <= U64_MAX
    requires previous == Some(m.file) ==> r.grouped.Some?
    ensures ReadLines(r, DropCrs(Step(previous, m)), lib) == Some(q)
    ensures q.grouped.Some? && q.summary == r.summary
    ensures |q.matches| == |r.matches| + if Swallowed(m.text) then 0 else 1
    ensures (r.grouped == previous || previous != Some(m.file)) && !Swallowed(m.text) ==>
              q == Reading(Some(m.file), r.matches + [Match(m.file, m.line, Kept(m.text))], r.summary)
  {
    hide LineEvent, FileOk, Swallowed, Kept, RecordLine, DropCr;
    var head := if previous == Some(m.file) then [] else [m.file + [COLON]];
    q := r;
    DropCrsAppend(head, [RecordLine(m)]);
    ReadAppend(r, DropCrs(head), DropCrs([RecordLine(m)]), lib);
    if previous != Some(m.file) {
      HeaderEvent(m.file, r.grouped, lib);
      ReadOne(r, DropCr(m.file + [COLON]), lib);
      assert DropCrs(head) == [DropCr(m.file + [COLON])];
      q := q.(grouped := Some(m.file));
    }
    assert ReadLines(r, DropCrs(head), lib) == Some(q);
    RecordEvent(m, q.grouped.value, lib);
    ReadOne(q, DropCr(RecordLine(m)), lib);
    assert DropCrs([RecordLine(m)]) == [DropCr(RecordLine(m))];
    q := ReadEvent(q, LineEvent(DropCr(RecordLine(m)), q.grouped, lib));
  }

  lemma ReadNothing(r: Reading, lib: Library)
    ensures ReadLines(r, DropCrs(Listing(r.grouped, [])), lib) == Some(r)
    ensures forall previous :: Listing(previous, []) == []
  {
    assert DropCrs([]) == [];
  }

  predicate FilesOk(matches: seq<Match>) {
    forall i :: 0 <= i < |matches| ==> FileOk(matches[i].file)
  }

  predicate AllPrintable(matches: seq<Match>) {
    forall i :: 0 <= i < |matches| ==> Printable(matches[i])
  }

  /** Reading a listing: one match back for every record that is not taken for a header. */
  lemma {:induction false} ReadListing(r: Reading, previous: Option<bytes>, matches: seq<Match>, lib: Library)
      returns (q: Reading)
    requires FilesOk(matches) && AllPrintable(matches)
    requires previous.Some? ==> r.grouped.Some?
    ensures ReadLines(r, DropCrs(Listing(previous, matches)), lib) == Some(q)
    ensures q.summary == r.summary && |q.matches| == |r.matches| + Survivors(matches)
    ensures r.grouped == previous && Survivors(matches) == |matches| ==> q.matches == r.matches + KeptAll(matches)
    decreases |matches|
  {
    hide FileOk, Swallowed, Kept, RecordLine, DropCrs, Listing, ReadLines, Step, Utf8, OneLine;
    if matches == [] {
      q := r;
      ReadNothing(r, lib);
    } else {
      var m := matches[0];
      var s := ReadStep(r, previous, m, lib);
      q := ReadListing(s, Some(m.file), matches[1..], lib);
      ListingStep(previous, matches);
      DropCrsAppend(Step(previous, m), Listing(Some(m.file), matches[1..]));
      ReadAppend(r, DropCrs(Step(previous, m)), DropCrs(Listing(Some(m.file), matches[1..])), lib);
    }
  }

  lemma ListingStep(previous: Option<bytes>, matches: seq<Match>)
    requires matches != []
    ensures Listing(previous, matches) == Step(previous, matches[0]) + Listing(Some(matches[0].file), matches[1..])
  {
    hide RecordLine;
  }

  // ----- The rendered bytes -----

  lemma OneLineAppend(a: bytes, b: bytes)
    ensures OneLine(a + b) <==> OneLine(a) && OneLine(b)
  {
    hide Find;
    FindAppend(a, b, NEWLINE);
  }

  lemma {:induction false} EscapeUtf8(t: bytes)
    requires Utf8(t)
    ensures Utf8(EscapeNewlines(t))
    decreases |t|
  {
    hide Utf8Width;
    if t != [] {
      var n := Utf8Width(t);
      EscapeUtf8(t[n..]);
      assert t == t[..n] + t[n..];
      EscapeAppend(t[..n], t[n..]);
      EscapeHead(t);
      Utf8Append(EscapeNewlines(t[..n]), EscapeNewlines(t[n..]));
    }
  }

  lemma EscapeHead(t: bytes)
    requires Utf8Width(t) > 0
    ensures Utf8(EscapeNewlines(t[..Utf8Width(t)]))
  {
    var n := Utf8Width(t);
    Utf8Prefix(t, n);
    if n == 1 {
      assert t[..1] == [t[0]] && [t[0]][1..] == [];
      Utf8Ascii(BACKSLASH);
      Utf8Ascii(0x6E);
      Utf8Append([BACKSLASH], [0x6E]);
      assert [BACKSLASH] + [0x6E] == [BACKSLASH, 0x6E];
    } else {
      WideBytes(t);
      EscapeNothing(t[..n]);
    }
  }

  lemma {:induction false} EscapeNothing(t: bytes)
    requires forall i :: 0 <= i < |t| ==> t[i] != NEWLINE
    ensures EscapeNewlines(t) == t
  {
    if t != [] {
      EscapeNothing(t[1..]);
    }
  }

  predicate Clean(line: bytes) {
    OneLine(line) && Utf8(line)
  }

  lemma RecordUtf8(m: Match)
    requires Utf8(m.file) && Utf8(m.text)
    ensures Utf8(RecordLine(m)) && Utf8(m.file + [COLON])
  {
    hide Utf8, ToDecimal, EscapeNewlines;
    var digits := ToDecimal(m.line);
    ToDecimalDigits(m.line);
    AsciiUtf8(digits);
    AsciiUtf8([TAB]);
    AsciiUtf8([COLON]);
    EscapeUtf8(m.text);
    Utf8Append(digits, [TAB]);
    Utf8Append(digits + [TAB], EscapeNewlines(m.text));
    Utf8Append(m.file, [COLON]);
  }

  lemma RecordClean(m: Match)
    requires Printable(m)
    ensures Clean(RecordLine(m)) && Clean(m.file + [COLON])
  {
    hide Utf8, Find, ToDecimal, EscapeNewlines;
    var digits, text := ToDecimal(m.line), EscapeNewlines(m.text);
    RecordUtf8(m);
    DecimalHas(m.line, NEWLINE);
    EscapeSpaces(m.text);
    FindOne(TAB, NEWLINE);
    FindOne(COLON, NEWLINE);
    OneLineAppend(digits, [TAB]);
    OneLineAppend(digits + [TAB], text);
    OneLineAppend(m.file, [COLON]);
  }

  predicate AllClean(lines: seq<bytes>) {
    forall i :: 0 <= i < |lines| ==> Clean(lines[i])
  }

  lemma {:induction false} ListingClean(previous: Option<bytes>, matches: seq<Match>)
    requires AllPrintable(matches)
    ensures AllClean(Listing(previous, matches))
    decreases |matches|
  {
    hide Clean, RecordLine, Printable;
    if matches != [] {
      RecordClean(matches[0]);
      ListingClean(Some(matches[0].file), matches[1..]);
    }
  }

  lemma {:induction false} JoinUtf8(lines: seq<bytes>)
    requires forall i :: 0 <= i < |lines| ==> Utf8(lines[i])
    ensures Utf8(JoinLines(lines))
  {
    if lines != [] {
      JoinUtf8(lines[1..]);
      Utf8Ascii(NEWLINE);
      Utf8Append(lines[0], [NEWLINE]);
      Utf8Append(lines[0] + [NEWLINE], JoinLines(lines[1..]));
    }
  }

  lemma TitleClean()
    ensures Clean(TITLE) && DropCr(TITLE) == TITLE
  {
    hide Find, Utf8;
    assert forall i :: 0 <= i < |TITLE| ==> 0x20 <= TITLE[i] < 0x80;
    AsciiUtf8(TITLE);
  }

  /** Reading a rendered sorted list is reading its listing. */
  lemma ReadRendered(matches: seq<Match>, lib: Library)
    requires Sorted(matches) && AllPrintable(matches)
    ensures Utf8(Render(matches))
    ensures ReadLines(Reading(None, [], []), Lines(Render(matches)), lib)
            == ReadLines(Reading(None, [], []), DropCrs(Listing(None, matches)), lib)
  {
    hide Render, Sorted, Printable, Utf8, Find, Listing, JoinLines, Lines, ReadLines, DropCr;
    var lines := Listing(None, matches);
    RenderSorted(matches);
    ListingClean(None, matches);
    TitleClean();
    assert AllClean([TITLE] + lines);
    JoinUtf8([TITLE] + lines);
    LinesJoin([TITLE] + lines);
    DropCrsAppend([TITLE], lines);
    assert DropCrs([TITLE]) == [TITLE];
    ReadAppend(Reading(None, [], []), [TITLE], DropCrs(lines), lib);
    ReadOne(Reading(None, [], []), TITLE, lib);
  }

  // ----- Nothing is made up: lengths -----

  function Weight(matches: seq<Match>): nat {
    if matches == [] then 0 else |matches[0].text| + Weight(matches[1..])
  }

  lemma {:induction false} WeightInsert(m: Match, s: seq<Match>)
    ensures Weight(InsertMatch(m, s)) == |m.text| + Weight(s)
  {
    hide MatchLess;
    if s == [] || !MatchLess(s[0], m) {
      assert ([m] + s)[1..] == s;
    } else {
      WeightInsert(m, s[1..]);
      assert InsertMatch(m, s)[1..] == InsertMatch(m, s[1..]);
    }
  }

  lemma {:induction false} WeightSort(s: seq<Match>)
    ensures Weight(SortMatches(s)) == Weight(s)
  {
    if s != [] {
      WeightSort(s[1..]);
      WeightInsert(s[0], SortMatches(s[1..]));
    }
  }

  /** Texts only ever get shorter, so equal total length means that every text survived. */
  lemma {:induction false} WeightKept(matches: seq<Match>)
    ensures Weight(KeptAll(matches)) <= Weight(matches)
    ensures Weight(KeptAll(matches)) == Weight(matches) ==> KeptAll(matches) == matches
  {
    hide Kept;
    if matches != [] {
      WeightKept(matches[1..]);
      TextSurvives(matches[0].text);
    }
  }

  predicate TextsOk(matches: seq<Match>) {
    forall i :: 0 <= i < |matches| ==> TextOk(matches[i].text)
  }

  lemma {:induction false} TextsSurvive(matches: seq<Match>)
    ensures TextsOk(matches) <==> (KeptAll(matches) == matches && Survivors(matches) == |matches|)
  {
    hide Kept, Swallowed, TextOk;
    if matches != [] {
      TextsSurvive(matches[1..]);
      TextSurvives(matches[0].text);
      assert TextsOk(matches) <==> TextOk(matches[0].text) && TextsOk(matches[1..]) by {
        assert forall i :: 0 <= i < |matches[1..]| ==> matches[1..][i] == matches[i + 1];
        assert forall i :: 1 <= i < |matches| ==> matches[i] == matches[1..][i - 1];
      }
      assert matches == [matches[0]] + matches[1..];
    }
  }

  /** With recognisable names and no record taken for a header, reading back gives every match, its text as kept. */
  lemma ReadBack(matches: seq<Match>, limits: Limits, lib: Library)
    requires matches != [] && Sorted(matches) && AllPrintable(matches) && FilesOk(matches)
    requires Len64(|Render(matches)|) <= limits.maxInput
    ensures Survivors(matches) == |matches| ==>
              ParseSearch(Render(matches), limits, lib) == Some(Model(SortMatches(KeptAll(matches)), []))
    ensures Survivors(matches) < |matches| ==> ParseSearch(Render(matches), limits, lib) != Some(Model(matches, []))
  {
    hide Render, Sorted, Printable, Utf8, Lines, ReadLines, SortMatches, KeptAll, Survivors, FileOk;
    ReadRendered(matches, lib);
    var q := ReadListing(Reading(None, [], []), None, matches, lib);
    assert [] + KeptAll(matches) == KeptAll(matches);
    if Survivors(matches) < |matches| {
      assert |multiset(q.matches)| < |multiset(matches)|;
      assert multiset(SortMatches(q.matches)) == multiset(q.matches);
    } else {
      KeptAllLength(matches);
    }
  }

  lemma KeptAllLength(matches: seq<Match>)
    ensures |KeptAll(matches)| == |matches|
  {
  }

  /** With recognisable file names, a printed list reads back as itself exactly when every text survives. */
  lemma GoodFilesRoundTrip(matches: seq<Match>, limits: Limits, lib: Library)
    requires matches != [] && Sorted(matches) && AllPrintable(matches) && FilesOk(matches)
    requires Len64(|Render(matches)|) <= limits.maxInput
    ensures ParseSearch(Render(matches), limits, lib) == Some(Model(matches, [])) <==> TextsOk(matches)
  {
    hide Render, Sorted, AllPrintable, SortMatches, KeptAll, Survivors, FilesOk, TextsOk, ParseSearch;
    ReadBack(matches, limits, lib);
    TextsSurvive(matches);
    SortSorted(matches);
    WeightSort(KeptAll(matches));
    WeightKept(matches);
  }

  // ----- File names that are not recognised -----

  lemma {:induction false} PrintLast(t: Tree)
    requires WellFormed(t)
    ensures Print(t) != [] && !EndsIn(Print(t), COLON)
  {
    match t {
      case Scalar(token) =>
        ScalarBytes(token);
      case Str(token) =>
      case Node(shape, pad, elems) =>
    }
  }

  lemma DocumentLast(d: Document)
    requires WellFormedDocument(d)
    ensures !EndsIn(PrintDocument(d), COLON)
  {
    hide WellFormed, Print;
    var s, body := PrintDocument(d), Print(d.value);
    PrintLast(d.value);
    assert s[|s| - 1] == if d.trail != [] then d.trail[|d.trail| - 1] else body[|body| - 1];
  }

  /** No JSON document ends in a colon. */
  lemma ColonEndsNoDocument(s: bytes)
    requires EndsIn(s, COLON)
    ensures !Grammatical(s)
  {
    hide WellFormedDocument, PrintDocument;
    if Grammatical(s) {
      PrintParseDocument(s);
      DocumentLast(JsonGrammar.Parse(s).value);
    }
  }

  /** The header line of `f` looks like a numbered record. */
  predicate Tabbed(f: bytes) {
    GroupedEvent(f + [COLON], []).Some?
  }

  /** A header line that adds nothing to the summary under a header. */
  predicate Silent(f: bytes) {
    FileOk(f) || Tabbed(f) || Find(f, COLON).Some?
  }

  /** `f` is the part before the first colon of an unrecognised name. */
  predicate CutFrom(f: bytes, whole: bytes) {
    !FileOk(whole) && !Tabbed(whole) && Find(whole, COLON).Some? && f == whole[..Find(whole, COLON).value]
  }

  lemma PlainHeader(file: bytes)
    ensures PlainEvent(file + [COLON]).Note? || PlainEvent(file + [COLON]).Found?
    ensures Find(file, COLON).None? ==> PlainEvent(file + [COLON]).Note?
    ensures PlainEvent(file + [COLON]).Found? ==>
              Find(file, COLON).Some? && PlainEvent(file + [COLON]).found.file == file[..Find(file, COLON).value]
  {
    hide ParseU64;
    FindOne(COLON, COLON);
    FindAppend(file, [COLON], COLON);
    if Find(file, COLON).None? {
      assert (file + [COLON])[|file| + 1..] == [];
    } else {
      assert (file + [COLON])[..Find(file, COLON).value] == file[..Find(file, COLON).value];
    }
  }

  /** An unrecognised name is read as a record of the previous file or as a plain match line. */
  lemma BadHeaderEvent(file: bytes, grouped: Option<bytes>, lib: Library)
    requires !FileOk(file)
    ensures var line := file + [COLON];
            LineEvent(DropCr(line), grouped, lib)
            == if grouped.Some? && Tabbed(file) then GroupedEvent(line, grouped.value).value else PlainEvent(line)
    ensures grouped.Some? && Tabbed(file) ==>
              var e := GroupedEvent(file + [COLON], grouped.value).value; e.Found? && e.found.file == grouped.value
  {
    hide HeaderLike, FileOk, ParseU64, PlainEvent, Grammatical, Find;
    HeaderLine(file);
    ColonEndsNoDocument(file + [COLON]);
  }

  /** A match that reading a listing under a header can add. */
  predicate Source(x: Match, matches: seq<Match>) {
    Find(x.file, SPACE).None? || exists i :: 0 <= i < |matches| && CutFrom(x.file, matches[i].file)
  }

  predicate Grouping(r: Reading) {
    r.grouped.Some? && Find(r.grouped.value, SPACE).None?
  }

  lemma BadHeaderStep(r: Reading, file: bytes, lib: Library) returns (q: Reading)
    requires Grouping(r)
    ensures ReadLines(r, DropCrs([file + [COLON]]), lib) == Some(q) && Grouping(q)
    ensures q.summary == [] ==> r.summary == [] && Silent(file)
    ensures forall x :: x in q.matches ==> x in r.matches || Find(x.file, SPACE).None? || CutFrom(x.file, file)
  {
    hide LineEvent, FileOk, PlainEvent, GroupedEvent, DropCr, Find;
    HeaderLine(file);
    if FileOk(file) {
      HeaderEvent(file, r.grouped, lib);
      FileOkSpace(file);
    } else {
      BadHeaderEvent(file, r.grouped, lib);
      PlainHeader(file);
    }
    var e := LineEvent(DropCr(file + [COLON]), r.grouped, lib);
    ReadOne(r, DropCr(file + [COLON]), lib);
    assert DropCrs([file + [COLON]]) == [DropCr(file + [COLON])];
    q := ReadEvent(r, e);
  }

  lemma FileOkSpace(file: bytes)
    ensures FileOk(file) ==> Find(file, SPACE).None?
  {
  }

  lemma BadRecordStep(r: Reading, m: Match, lib: Library) returns (q: Reading)
    requires Grouping(r) && m.line <= U64_MAX
    ensures ReadLines(r, DropCrs([RecordLine(m)]), lib) == Some(q) && Grouping(q) && q.summary == r.summary
    ensures forall x :: x in q.matches ==> x in r.matches || Find(x.file, SPACE).None?
  {
    hide LineEvent, RecordLine, Swallowed, Kept, DropCr, Find;
    RecordEvent(m, r.grouped.value, lib);
    ReadOne(r, DropCr(RecordLine(m)), lib);
    assert DropCrs([RecordLine(m)]) == [DropCr(RecordLine(m))];
    q := ReadEvent(r, LineEvent(DropCr(RecordLine(m)), r.grouped, lib));
  }

  lemma BadStep(r: Reading, previous: bytes, m: Match, lib: Library) returns (q: Reading)
    requires Grouping(r) && m.line <= U64_MAX && (r.summary == [] ==> Silent(previous))
    ensures ReadLines(r, DropCrs(Step(Some(previous), m)), lib) == Some(q) && Grouping(q)
    ensures q.summary == [] ==> r.summary == [] && Silent(m.file)
    ensures forall x :: x in q.matches ==> x in r.matches || Find(x.file, SPACE).None? || CutFrom(x.file, m.file)
  {
    hide RecordLine, DropCr, Find, DropCrs, Grouping, Silent, CutFrom, ReadLines;
    if previous == m.file {
      q := BadRecordStep(r, m, lib);
      assert [] + [RecordLine(m)] == [RecordLine(m)];
    } else {
      var s := BadHeaderStep(r, m.file, lib);
      q := BadRecordStep(s, m, lib);
      DropCrsAppend([m.file + [COLON]], [RecordLine(m)]);
      ReadAppend(r, DropCrs([m.file + [COLON]]), DropCrs([RecordLine(m)]), lib);
    }
  }

  lemma {:induction false} BadListing(r: Reading, previous: bytes, matches: seq<Match>, lib: Library)
      returns (q: Reading)
    requires Grouping(r) && AllPrintable(matches) && (r.summary == [] ==> Silent(previous))
    ensures ReadLines(r, DropCrs(Listing(Some(previous), matches)), lib) == Some(q)
    ensures q.summary == [] ==> r.summary == [] && forall i :: 0 <= i < |matches| ==> Silent(matches[i].file)
    ensures forall x :: x in q.matches ==> x in r.matches || Source(x, matches)
    decreases |matches|
  {
    hide RecordLine, DropCr, Find, DropCrs, Grouping, Silent, CutFrom, ReadLines, Step, Listing, Utf8, Source;
    if matches == [] {
      q := r;
      assert Listing(Some(previous), []) == [] && ReadLines(r, DropCrs([]), lib) == Some(r) by {
        ReadNothing(r, lib);
      }
    } else {
      var m := matches[0];
      var s := BadStep(r, previous, m, lib);
      q := BadListing(s, m.file, matches[1..], lib);
      ListingStep(Some(previous), matches);
      DropCrsAppend(Step(Some(previous), m), Listing(Some(m.file), matches[1..]));
      ReadAppend(r, DropCrs(Step(Some(previous), m)), DropCrs(Listing(Some(m.file), matches[1..])), lib);
      forall x | x in q.matches ensures x in r.matches || Source(x, matches) {
        SourceGrows(x, matches);
      }
    }
  }

  lemma SourceGrows(x: Match, matches: seq<Match>)
    requires matches != []
    ensures Source(x, matches[1..]) || Find(x.file, SPACE).None? || CutFrom(x.file, matches[0].file) ==>
              Source(x, matches)
  {
    hide Find, CutFrom;
    if i :| 0 <= i < |matches[1..]| && CutFrom(x.file, matches[1..][i].file) {
      assert CutFrom(x.file, matches[i + 1].file);
    }
  }

  lemma TabbedGrows(f: bytes, rest: bytes)
    requires Tabbed(f)
    ensures Tabbed(f + rest)
  {
    hide ParseU64, Find;
    FindOne(COLON, TAB);
    FindAppend(f, [COLON], TAB);
    FindAppend(f, rest + [COLON], TAB);
    var n := Find(f, TAB).value;
    assert f + rest + [COLON] == f + (rest + [COLON]);
    assert (f + rest + [COLON])[..n] == (f + [COLON])[..n];
  }

  /** A cut name, printed as a header, always leaves a summary line behind. */
  lemma CutIsNotSilent(f: bytes, whole: bytes)
    requires CutFrom(f, whole) && Find(f, SPACE).Some?
    ensures !Silent(f)
  {
    hide GroupedEvent;
    var k := Find(whole, COLON).value;
    assert whole == f + whole[k..];
    if Tabbed(f) {
      TabbedGrows(f, whole[k..]);
    }
  }

  // ----- The round trip, exactly -----

  lemma {:induction false} CutIsLess(f: bytes, k: nat)
    requires k < |f|
    ensures Less(f[..k], f)
  {
    if k > 0 {
      CutIsLess(f[1..], k - 1);
      assert f[..k][1..] == f[1..][..k - 1];
    }
  }

  /** Nothing in a sorted list has a name before the first. */
  lemma {:induction false} FirstIsLeast(matches: seq<Match>, i: nat)
    requires Sorted(matches) && i < |matches|
    ensures !Less(matches[i].file, matches[0].file)
  {
    hide Less;
    LessTotal(matches[0].file, matches[0].file);
    if i > 0 {
      SortedFiles(matches);
      FirstIsLeast(matches[1..], i - 1);
      LessTotal(matches[i].file, matches[0].file);
      LessTotal(matches[1].file, matches[i].file);
      if Less(matches[i].file, matches[0].file) {
        if Less(matches[1].file, matches[i].file) {
          LessTransitive(matches[1].file, matches[i].file, matches[0].file);
        }
      }
    }
  }

  lemma {:induction false} ReadGrows(r: Reading, lines: seq<bytes>, lib: Library)
    ensures var q := ReadLines(r, lines, lib);
            q.Some? ==> r.matches <= q.value.matches && r.summary <= q.value.summary
    decreases |lines|
  {
    hide LineEvent;
    if lines != [] {
      var e := LineEvent(lines[0], r.grouped, lib);
      if !e.Abort? {
        ReadGrows(ReadEvent(r, e), lines[1..], lib);
      }
    }
  }

  /** An unrecognised first name leaves a summary line, or a match whose name is in no sorted list that starts there. */
  lemma BadFirst(matches: seq<Match>, lib: Library)
    requires matches != [] && !FileOk(matches[0].file)
    ensures var q := ReadLines(Reading(None, [], []), DropCrs(Listing(None, matches)), lib);
            q.Some? && q.value.summary == [] ==> exists x :: x in q.value.matches && Less(x.file, matches[0].file)
  {
    hide LineEvent, PlainEvent, GroupedEvent, Find, FileOk, Less, RecordLine, DropCr, DropCrs;
    var file, r := matches[0].file, Reading(None, [], []);
    var line := file + [COLON];
    var rest := [RecordLine(matches[0])] + Listing(Some(file), matches[1..]);
    assert Listing(None, matches) == [line] + rest;
    DropCrsAppend([line], rest);
    assert DropCrs([line]) == [DropCr(line)];
    BadHeaderEvent(file, None, lib);
    PlainHeader(file);
    ReadOne(r, DropCr(line), lib);
    ReadAppend(r, [DropCr(line)], DropCrs(rest), lib);
    var s := ReadEvent(r, PlainEvent(line));
    ReadGrows(s, DropCrs(rest), lib);
    if PlainEvent(line).Found? {
      CutIsLess(file, Find(file, COLON).value);
      assert PlainEvent(line).found == s.matches[0];
    }
  }

  lemma EmptyIsNotSilent()
    ensures !Silent([])
  {
    FindOne(COLON, TAB);
  }

  /** If reading leaves no summary and only listed matches, every name in the list is recognised. */
  lemma RestIsOk(matches: seq<Match>, lib: Library, i: nat)
    requires AllPrintable(matches) && i < |matches| && FileOk(matches[0].file)
    ensures var q := ReadLines(Reading(None, [], []), DropCrs(Listing(None, matches)), lib);
            q.Some? && q.value.summary == [] && matches[i] in q.value.matches ==> FileOk(matches[i].file)
  {
    hide LineEvent, Find, FileOk, Listing, RecordLine, DropCr, DropCrs, Utf8, CutFrom, Silent;
    var file := matches[0].file;
    var r, s := Reading(None, [], []), Reading(Some(file), [], []);
    HeaderThenRest(matches);
    DropCrsAppend([file + [COLON]], Listing(Some(file), matches));
    assert DropCrs([file + [COLON]]) == [DropCr(file + [COLON])];
    HeaderEvent(file, None, lib);
    ReadOne(r, DropCr(file + [COLON]), lib);
    ReadAppend(r, DropCrs([file + [COLON]]), DropCrs(Listing(Some(file), matches)), lib);
    FileOkSpace(file);
    OkIsSilent(file);
    var q := BadListing(s, file, matches, lib);
    if q.summary == [] && matches[i] in q.matches {
      SourceIsOk(matches[i], matches);
    }
  }

  lemma HeaderThenRest(matches: seq<Match>)
    requires matches != []
    ensures Listing(None, matches) == [matches[0].file + [COLON]] + Listing(Some(matches[0].file), matches)
  {
    hide RecordLine;
  }

  lemma OkIsSilent(file: bytes)
    requires FileOk(file)
    ensures Silent(file)
  {
  }

  lemma SourceIsOk(x: Match, matches: seq<Match>)
    requires Source(x, matches) && Silent(x.file)
    ensures FileOk(x.file)
  {
    hide Silent, CutFrom, Find;
    EmptyIsNotSilent();
    if Find(x.file, SPACE).Some? {
      var i :| 0 <= i < |matches| && CutFrom(x.file, matches[i].file);
      CutIsNotSilent(x.file, matches[i].file);
    }
  }

  /** If a printed list reads back as itself, every name in it is recognised. */
  lemma ReadBackIsOk(matches: seq<Match>, lib: Library, i: nat)
    requires Sorted(matches) && AllPrintable(matches) && i < |matches|
    requires var q := ReadLines(Reading(None, [], []), DropCrs(Listing(None, matches)), lib);
             q.Some? && q.value.summary == [] && multiset(q.value.matches) == multiset(matches)
    ensures FileOk(matches[i].file)
  {
    hide Sorted, Printable, Listing, FileOk, Less, DropCrs, ReadLines;
    var q := ReadLines(Reading(None, [], []), DropCrs(Listing(None, matches)), lib).value;
    forall x ensures x in q.matches <==> x in matches {
      SameElements(q.matches, matches, x);
    }
    if FileOk(matches[0].file) {
      RestIsOk(matches, lib, i);
    } else {
      BadFirst(matches, lib);
      var x :| x in q.matches && Less(x.file, matches[0].file);
      var j :| 0 <= j < |matches| && matches[j] == x;
      FirstIsLeast(matches, j);
    }
  }

  /** One unrecognised name is enough to lose the round trip. */
  lemma BadFilesFail(matches: seq<Match>, limits: Limits, lib: Library, i: nat)
    requires Sorted(matches) && AllPrintable(matches) && i < |matches| && !FileOk(matches[i].file)
    ensures ParseSearch(Render(matches), limits, lib) != Some(Model(matches, []))
  {
    hide Render, Sorted, AllPrintable, Utf8, Lines, Listing, SortMatches, FileOk, DropCrs;
    ReadRendered(matches, lib);
    if ParseSearch(Render(matches), limits, lib) == Some(Model(matches, [])) {
      ReadBackIsOk(matches, lib, i);
    }
  }

  lemma SameElements<T>(a: seq<T>, b: seq<T>, x: T)
    requires multiset(a) == multiset(b)
    ensures x in a <==> x in b
  {
    assert x in a <==> x in multiset(a);
    assert x in b <==> x in multiset(b);
  }

  /** For names without a newline, printing then parsing gives the list back exactly when names and texts survive. */
  lemma OneLineRoundTrip(matches: seq<Match>, limits: Limits, lib: Library)
    requires matches != [] && Sorted(matches) && AllPrintable(matches)
    requires Len64(|Render(matches)|) <= limits.maxInput
    ensures ParseSearch(Render(matches), limits, lib) == Some(Model(matches, []))
            <==> FilesOk(matches) && TextsOk(matches)
  {
    hide Render, Sorted, AllPrintable, ParseSearch, TextsOk, FileOk;
    if FilesOk(matches) {
      GoodFilesRoundTrip(matches, limits, lib);
    } else {
      var i :| 0 <= i < |matches| && !FileOk(matches[i].file);
      BadFilesFail(matches, limits, lib, i);
    }
  }

  lemma LetterIsNoDocument(s: bytes)
    requires s != [] && s[0] == 0x41
    ensures !Grammatical(s)
  {
    hide IsScalar;
    assert s[0..] == s;
    var n := ScalarRun(s);
    if IsScalar(s[..n]) {
      ScalarBytes(s[..n]);
      assert ScalarByte(s[..n][0]);
    }
  }

  /** `A:1:` and a text: one plain match. */
  lemma PlainMatch(text: bytes, lib: Library)
    requires text != [] && !EndsIn(text, COLON)
    ensures LineEvent([0x41, COLON, 0x31, COLON] + text, None, lib) == Found(Match([0x41], 1, text))
  {
    hide Grammatical, ParseU64, Find;
    var line := [0x41, COLON, 0x31, COLON] + text;
    var rest := [0x31, COLON] + text;
    LetterIsNoDocument(line);
    FindOne(0x41, COLON);
    FindOne(COLON, COLON);
    FindOne(0x31, COLON);
    FindAppend([0x41], [COLON], COLON);
    FindAppend([0x41] + [COLON], rest, COLON);
    FindAppend([0x31], [COLON], COLON);
    FindAppend([0x31] + [COLON], text, COLON);
    assert line == [0x41] + [COLON] + rest && rest == [0x31] + [COLON] + text;
    assert line[..1] == [0x41] && line[2..] == rest && rest[..1] == ToDecimal(1) && rest[2..] == text;
    ParseToDecimal(1);
    assert line[|line| - 1] == text[|text| - 1];
    assert line[0] != TITLE[0];
  }

  /**
    The documented promise of a lossless grouped view fails: a match whose text is a backslash and the letter n, read
    from a plain line, is printed in a form that reads back as a newline.
   */
  lemma LosslessFails(limits: Limits, lib: Library)
    requires limits.maxInput >= 1000
    ensures var input := [0x41, COLON, 0x31, COLON, BACKSLASH, 0x6E];
            var m := Match([0x41], 1, [BACKSLASH, 0x6E]);
            ParseSearch(input, limits, lib) == Some(Model([m], []))
            && ParseSearch(Render([m]), limits, lib) == Some(Model([m.(text := [NEWLINE])], []))
  {
    hide ParseSearch, Render;
    assert [0x41, COLON, 0x31, COLON] + [BACKSLASH, 0x6E] == [0x41, COLON, 0x31, COLON, BACKSLASH, 0x6E];
    PairIsRead(limits, lib);
    PairIsPrinted(limits, lib);
  }

  lemma PairIsRead(limits: Limits, lib: Library)
    requires limits.maxInput >= 1000
    ensures ParseSearch([0x41, COLON, 0x31, COLON] + [BACKSLASH, 0x6E], limits, lib)
            == Some(Model([Match([0x41], 1, [BACKSLASH, 0x6E])], []))
  {
    hide LineEvent, Find, Utf8, Lines, SortMatches, ReadLines;
    var input := [0x41, COLON, 0x31, COLON] + [BACKSLASH, 0x6E];
    assert forall i :: 0 <= i < |input| ==> input[i] < 0x80 && input[i] != NEWLINE;
    PlainMatch([BACKSLASH, 0x6E], lib);
    AsciiUtf8(input);
    LinesOne(input);
    ReadOne(Reading(None, [], []), input, lib);
    SortOne(Match([0x41], 1, [BACKSLASH, 0x6E]));
    assert [] + [Match([0x41], 1, [BACKSLASH, 0x6E])] == [Match([0x41], 1, [BACKSLASH, 0x6E])];
  }

  lemma PairIsPrinted(limits: Limits, lib: Library)
    requires limits.maxInput >= 1000
    ensures ParseSearch(Render([Match([0x41], 1, [BACKSLASH, 0x6E])]), limits, lib)
            == Some(Model([Match([0x41], 1, [NEWLINE])], []))
  {
    hide LineEvent, Find, Render, Utf8, ParseSearch, SortMatches, Sorted, Survivors, KeptAll, RecordLine;
    var text := [BACKSLASH, 0x6E];
    var m := Match([0x41], 1, text);
    SortOne(m);
    AsciiUtf8(text);
    AsciiUtf8(m.file);
    FindOne(0x41, SPACE);
    FindOne(0x41, NEWLINE);
    PairLost(m);
    RenderShort(m);
    EscapeKeepsLength(m);
    ReadBack([m], limits, lib);
    SortOne(m.(text := [NEWLINE]));
  }

  lemma PairLost(m: Match)
    requires m.text == [BACKSLASH, 0x6E]
    ensures Survivors([m]) == 1 && KeptAll([m]) == [m.(text := [NEWLINE])]
  {
    assert [m][1..] == [];
    var t := m.text;
    assert t[1..] == [0x6E] && t[1..][1..] == [];
    assert EscapeNewlines(t[1..]) == [0x6E];
    assert EscapeNewlines(t) == t;
    assert UnescapeNewlines(t) == [NEWLINE] by { assert t[2..] == []; }
  }

  lemma RenderShort(m: Match)
    ensures |Render([m])| == 17 + |m.file| + 2 + |RecordLine(m)| + 1
  {
    hide RecordLine, RecordLines;
    assert [m][1..] == [];
    assert AddToGroup([], m) == [Group(m.file, [m])];
    OneGroup(m.file, [m]);
    RecordLinesAppend([], m);
    assert [] + [m] == [m] && RecordLines([]) == [] by { NoRecords(); }
    var lines := [TITLE, m.file + [COLON], RecordLine(m)];
    assert [TITLE] + GroupLines(GroupAll([], [m])) == lines;
    assert lines[1..] == [m.file + [COLON], RecordLine(m)] && lines[1..][1..] == [RecordLine(m)];
    assert [RecordLine(m)][1..] == [];
    assert JoinLines(lines[1..][1..]) == RecordLine(m) + [NEWLINE] + [];
    assert JoinLines(lines[1..]) == m.file + [COLON] + [NEWLINE] + JoinLines(lines[1..][1..]);
  }

  lemma EscapeKeepsLength(m: Match)
    requires m.text == [BACKSLASH, 0x6E] && m.line == 1
    ensures |RecordLine(m)| == 4
  {
    EscapeNothing(m.text);
  }

  lemma NoRecords()
    ensures RecordLines([]) == []
  {
  }

  lemma LinesOne(s: bytes)
    requires s != [] && OneLine(s)
    ensures Lines(s) == [s]
  {
  }

  lemma SortOne(m: Match)
    ensures Sorted([m]) && SortMatches([m]) == [m]
  {
    assert [m][1..] == [];
  }
}
