/** What the lexer of parse.cc does, proved about the functions of LexerModel. */
module LexerProperties {
  import opened LexerModel

  /** The bytes left once a leading run of spaces is skipped. */
  function DropSpaces(s: seq<char>): (r: seq<char>)
    ensures |r| <= |s| && (r == [] || r[0] != ' ')
  {
    if s != [] && s[0] == ' ' then DropSpaces(s[1..]) else s
  }

  /** What is dropped is a run of spaces, and what is kept is the rest of `s`. */
  lemma {:induction false} DropSpacesSplits(s: seq<char>)
    ensures var r := DropSpaces(s);
            && r == s[|s| - |r|..]
            && forall i :: 0 <= i < |s| - |r| ==> s[i] == ' '
    decreases |s|
  {
    if s != [] && s[0] == ' ' {
      DropSpacesSplits(s[1..]);
    }
  }

  // ---------------------------------------------------------------------------
  // refillBuffer (parse.cc:32-61)

  /** `realloc` keeps the bytes both allocations have. */
  lemma ResizeKeeps(buf: seq<char>, n: nat)
    ensures var r := Resize(buf, n);
            r[..Min(n, |buf|)] == buf[..Min(n, |buf|)]
  {
  }

  /** An overwritten buffer holds `data` in the window and the old bytes on both sides of it. */
  lemma OverwriteParts(buf: seq<char>, pos: nat, data: seq<char>)
    requires pos + |data| <= |buf|
    ensures var r := Overwrite(buf, pos, data);
            r[..pos] == buf[..pos] && r[pos..pos + |data|] == data && r[pos + |data|..] == buf[pos + |data|..]
  {
    var r := Overwrite(buf, pos, data);
    assert r == buf[..pos] + data + buf[pos + |data|..];
  }

  /** The growing refill on the bare fields: the valid bytes stay put and the first `k` file bytes follow them. */
  lemma GrowParts(buf: seq<char>, size: nat, rest: seq<char>)
    requires size <= |buf|
    ensures var k := Min(Chunk, |rest|);
            var nb := Overwrite(Resize(buf, size + Chunk), size, rest[..k]);
            nb[..size] == buf[..size] && nb[size..size + k] == rest[..k]
  {
    var grown := Resize(buf, size + Chunk);
    var k := Min(Chunk, |rest|);
    ResizeKeeps(buf, size + Chunk);
    OverwriteParts(grown, size, rest[..k]);
    assert grown[..size] == grown[..Min(size + Chunk, |buf|)][..size];
    assert buf[..size] == buf[..Min(size + Chunk, |buf|)][..size];
  }

  /** With nothing consumed, the buffer is reallocated to `size + 80` bytes, the `size` valid bytes stay put and up to 80 are appended. */
  lemma RefillGrows(l: Lex)
    requires Sane(l) && l.offset == 0
    ensures var r := Refill(l).1;
            var k := Min(Chunk, |l.rest|);
            && |r.buf| == l.size + Chunk
            && r.buf[..l.size] == l.buf[..l.size]
            && r.size == l.size + k
            && r.buf[l.size..r.size] == l.rest[..k]
            && r.rest == l.rest[k..]
  {
    GrowParts(l.buf, l.size, l.rest);
  }

  /** The compacting refill on the bare fields: the unread bytes come first, then the first `k` file bytes. */
  lemma CompactParts(buf: seq<char>, size: nat, offset: nat, rest: seq<char>)
    requires size <= |buf| && 0 < offset <= size
    ensures var moved := Overwrite(buf, 0, buf[offset..size]);
            var k := Min(offset, |rest|);
            var nb := Overwrite(moved, size - offset, rest[..k]);
            nb[..size - offset] == buf[offset..size] && nb[size - offset..size - offset + k] == rest[..k]
  {
    var moved := Overwrite(buf, 0, buf[offset..size]);
    var k := Min(offset, |rest|);
    OverwriteParts(buf, 0, buf[offset..size]);
    OverwriteParts(moved, size - offset, rest[..k]);
    assert moved[..size - offset] == moved[0..0 + (size - offset)];
  }

  /** Otherwise the unread bytes move to the front in order, and up to `offset` bytes follow them. */
  lemma RefillCompacts(l: Lex)
    requires Sane(l) && Positioned(l) && l.offset > 0
    ensures var r := Refill(l).1;
            var k := Min(l.offset, |l.rest|);
            && |r.buf| == |l.buf|
            && r.buf[..l.size - l.offset] == l.buf[l.offset..l.size]
            && r.size == l.size - l.offset + k
            && r.buf[l.size - l.offset..r.size] == l.rest[..k]
            && r.rest == l.rest[k..]
  {
    CompactParts(l.buf, l.size, l.offset, l.rest);
  }

  /** `refillBuffer` reports a read exactly when the file still had bytes. */
  lemma RefillReportsRead(l: Lex)
    requires Sane(l) && Positioned(l)
    ensures Refill(l).0 <==> l.rest != []
  {
  }

  /** Splitting a valid prefix at `m` and the file at `k`, and gluing the two parts back. */
  lemma Reassemble(nb: seq<char>, m: nat, k: nat, front: seq<char>, rest: seq<char>)
    requires m + k <= |nb| && k <= |rest|
    requires nb[..m] == front && nb[m..m + k] == rest[..k]
    ensures nb[0..m + k] + rest[k..] == front + rest
  {
    assert nb[0..m + k] == nb[..m] + nb[m..m + k];
    assert rest == rest[..k] + rest[k..];
  }

  /** No byte is lost or repeated: the unread bytes, then the file, are the same after a refill. */
  lemma RefillKeepsUnread(l: Lex)
    requires Sane(l) && Positioned(l)
    ensures Positioned(Refill(l).1) && Unread(Refill(l).1) == Unread(l)
  {
    var r := Refill(l).1;
    if l.offset == 0 {
      RefillGrows(l);
      Reassemble(r.buf, l.size, Min(Chunk, |l.rest|), l.buf[..l.size], l.rest);
      assert l.buf[..l.size] == l.buf[0..l.size];
    } else {
      RefillCompacts(l);
      Reassemble(r.buf, l.size - l.offset, Min(l.offset, |l.rest|), l.buf[l.offset..l.size], l.rest);
    }
  }

  // ---------------------------------------------------------------------------
  // normalParse (parse.cc:63-109)

  lemma {:induction false} SkipSpacesConsumesSpaces(l: Lex)
    requires Sane(l) && Positioned(l)
    ensures var r := SkipSpaces(l);
            && Positioned(r) && DropSpaces(Unread(r)) == DropSpaces(Unread(l))
            && (r.offset < r.size ==> Unread(r)[0] != ' ')
    decreases l.size - l.offset
  {
    if l.offset < l.size && l.buf[l.offset] == ' ' {
      var l1 := l.(offset := l.offset + 1);
      SkipSpacesConsumesSpaces(l1);
      var u := Unread(l);
      assert u[0] == ' ' && u[1..] == Unread(l1);
      assert DropSpaces(u) == DropSpaces(u[1..]);
    } else if l.offset < l.size {
      assert Unread(l)[0] == l.buf[l.offset];
    }
  }

  /**
   * The space-eating loop skips exactly the leading spaces of what is unread:
   * it reports the input exhausted iff nothing but spaces was left, and otherwise
   * stops on a buffered byte.
   */
  lemma {:induction false} EatSpacesConsumesSpaces(l: Lex)
    requires Sane(l) && Positioned(l)
    ensures var r := EatSpaces(l);
            && Positioned(r.1)
            && Unread(r.1) == DropSpaces(Unread(l))
            && (r.0 <==> Unread(r.1) != [])
            && (r.0 ==> r.1.offset < r.1.size)
    decreases |l.rest|
  {
    var l1 := SkipSpaces(l);
    SkipSpacesConsumesSpaces(l);
    if l1.offset == l1.size {
      var refilled := Refill(l1);
      RefillKeepsUnread(l1);
      RefillReportsRead(l1);
      if refilled.0 {
        EatSpacesConsumesSpaces(refilled.1);
      } else {
        assert Unread(refilled.1) == [];
      }
    } else {
      assert DropSpaces(Unread(l1)) == Unread(l1);
    }
  }

  /**
   * Seen on the unread input itself: the space-eating loop removes a leading
   * run of spaces and nothing else, and every byte after the run is kept in order.
   */
  lemma EatSpacesRemovesOnlySpaces(l: Lex)
    requires Sane(l) && Positioned(l)
    ensures var r := EatSpaces(l).1;
            && Positioned(r)
            && var u, v := Unread(l), Unread(r);
            && |v| <= |u| && v == u[|u| - |v|..]
            && forall i :: 0 <= i < |u| - |v| ==> u[i] == ' '
  {
    EatSpacesConsumesSpaces(l);
    DropSpacesSplits(Unread(l));
  }

  lemma {:induction false} DropOnlySpaces(s: seq<char>)
    requires forall i :: 0 <= i < |s| ==> s[i] == ' '
    ensures DropSpaces(s) == []
    decreases |s|
  {
    if s != [] {
      DropOnlySpaces(s[1..]);
    }
  }

  /** `normalParse` returns 0 when only spaces are left, and leaves nothing unread. */
  lemma NormalParseExhausted(l: Lex)
    requires Sane(l) && Positioned(l)
    requires forall i :: 0 <= i < |Unread(l)| ==> Unread(l)[i] == ' '
    ensures var r := NormalParse(l);
            r.Lexed? && r.token == EndOfInput && Positioned(r.lex) && Unread(r.lex) == []
  {
    EatSpacesConsumesSpaces(l);
    DropOnlySpaces(Unread(l));
  }

  /** After the spaces, `normalParse` sees the first non-space unread byte at the read position. */
  lemma FirstNonSpace(l: Lex, c: char, more: seq<char>)
    requires Sane(l) && Positioned(l)
    requires DropSpaces(Unread(l)) == [c] + more
    ensures var r := EatSpaces(l);
            r.0 && r.1.offset < r.1.size && r.1.buf[r.1.offset] == c && Unread(r.1) == [c] + more
  {
    EatSpacesConsumesSpaces(l);
    var r := EatSpaces(l);
    assert Unread(r.1)[0] == r.1.buf[r.1.offset];
  }

  /** Consuming one buffered byte drops it from what is unread. */
  lemma UnreadAdvance(l: Lex)
    requires Sane(l) && l.offset < l.size
    ensures Unread(l.(offset := l.offset + 1)) == Unread(l)[1..]
  {
    assert l.buf[l.offset..l.size][1..] == l.buf[l.offset + 1..l.size];
  }

  /** One of `|`, `:`, newline, tab is returned as itself, and exactly that byte is consumed. */
  lemma NormalParsePunct(l: Lex, c: char, more: seq<char>)
    requires Sane(l) && Positioned(l)
    requires DropSpaces(Unread(l)) == [c] + more && IsPunct(c)
    ensures var r := NormalParse(l);
            r.Lexed? && r.token == Punct(c) && Positioned(r.lex) && Unread(r.lex) == more
  {
    FirstNonSpace(l, c, more);
    UnreadAdvance(EatSpaces(l).1);
  }

  /** A NUL byte also passes the `strchr` test: it is consumed and returned as 0. */
  lemma NormalParseNul(l: Lex, more: seq<char>)
    requires Sane(l) && Positioned(l)
    requires DropSpaces(Unread(l)) == ['\0'] + more
    ensures var r := NormalParse(l);
            r.Lexed? && r.token == EndOfInput && Positioned(r.lex) && Unread(r.lex) == more
  {
    FirstNonSpace(l, '\0', more);
    UnreadAdvance(EatSpaces(l).1);
  }

  /** Any other byte that cannot start an identifier is returned as 0 and not consumed. */
  lemma NormalParseOther(l: Lex, c: char, more: seq<char>)
    requires Sane(l) && Positioned(l)
    requires DropSpaces(Unread(l)) == [c] + more
    requires !IsPunct(c) && c != '\0' && !IsAlpha(c)
    ensures var r := NormalParse(l);
            r.Lexed? && r.token == EndOfInput && Positioned(r.lex) && Unread(r.lex) == [c] + more
  {
    FirstNonSpace(l, c, more);
  }

  lemma {:induction false} AlnumEndAt(buf: seq<char>, size: nat, pos: nat, e: nat)
    requires size <= |buf| && pos <= e < size
    requires forall i :: pos <= i < e ==> IsAlnum(buf[i])
    requires !IsAlnum(buf[e])
    ensures AlnumEnd(buf, size, pos) == e
    decreases e - pos
  {
    if pos < e {
      AlnumEndAt(buf, size, pos + 1, e);
    }
  }

  lemma {:induction false} AlnumEndAll(buf: seq<char>, size: nat, pos: nat)
    requires size <= |buf| && pos <= size
    requires forall i :: pos <= i < size ==> IsAlnum(buf[i])
    ensures AlnumEnd(buf, size, pos) == size
    decreases size - pos
  {
    if pos < size {
      AlnumEndAll(buf, size, pos + 1);
    }
  }

  /**
   * An identifier whose end lies in the buffer: `normalParse` moves past the
   * maximal alphanumeric run and returns `ID`; nothing else changes.
   */
  lemma NormalParseIdent(l: Lex, e: nat)
    requires Sane(l) && l.offset < e < l.size
    requires IsAlpha(l.buf[l.offset])
    requires forall i :: l.offset <= i < e ==> IsAlnum(l.buf[i])
    requires !IsAlnum(l.buf[e])
    ensures NormalParse(l) == Lexed(Ident, l.(offset := e))
  {
    AlnumEndAt(l.buf, l.size, l.offset, e);
  }

  /** The file ends inside an identifier: `normalParse` returns 0. */
  lemma NormalParseIdentAtEnd(l: Lex)
    requires Sane(l) && l.offset < l.size && l.rest == []
    requires IsAlpha(l.buf[l.offset])
    requires forall i :: l.offset <= i < l.size ==> IsAlnum(l.buf[i])
    ensures NormalParse(l).Lexed? && NormalParse(l).token == EndOfInput
  {
    AlnumEndAll(l.buf, l.size, l.offset);
  }

  // ---------------------------------------------------------------------------
  // commandParse and yylex (parse.cc:111-170)

  /** A byte other than tab switches to normal mode and lexes as `normalParse` does. */
  lemma CommandParseNotTab(l: Lex)
    requires Sane(l) && l.offset < l.size && l.buf[l.offset] != '\t'
    ensures CommandParse(l) == NormalParse(l.(mode := Normal))
  {
  }

  lemma {:induction false} LineEndAt(buf: seq<char>, size: nat, pos: nat, e: nat)
    requires size <= |buf| && pos <= e < size
    requires forall i :: pos <= i < e ==> buf[i] != '\n'
    requires buf[e] == '\n'
    ensures LineEnd(buf, size, pos) == e
    decreases e - pos
  {
    if pos < e {
      LineEndAt(buf, size, pos + 1, e);
    }
  }

  /** A tab starts a command that runs to the first newline; the position ends just past it. */
  lemma CommandParseLine(l: Lex, e: nat)
    requires Sane(l) && l.offset < e < l.size
    requires l.buf[l.offset] == '\t' && l.buf[e] == '\n' && l.buf[e - 1] != '\\'
    requires forall i :: l.offset <= i < e ==> l.buf[i] != '\n'
    ensures CommandParse(l) == Lexed(RuleCommand, l.(offset := e + 1))
  {
    LineEndAt(l.buf, l.size, l.offset, e);
  }

  /**
   * An escaped newline is not scanned past: the lexer refills instead, so a
   * command whose escaped newline is the last buffered byte of the file yields 0.
   */
  lemma EscapedNewlineAtEnd(l: Lex, e: nat)
    requires Sane(l) && l.offset < e < l.size && l.rest == []
    requires l.buf[l.offset] == '\t' && l.buf[e] == '\n' && l.buf[e - 1] == '\\'
    requires forall i :: l.offset <= i < e ==> l.buf[i] != '\n'
    ensures CommandParse(l) == Lexed(EndOfInput, Refill(l).1)
  {
    LineEndAt(l.buf, l.size, l.offset, e);
    RefillReportsRead(l);
    assert CommandParse(l) == ScanCommand(l, l.offset);
  }

  /** With nothing buffered and nothing left in the file, `commandParse` returns 0. */
  lemma CommandParseExhausted(l: Lex)
    requires Sane(l) && l.offset == l.size && l.rest == []
    ensures CommandParse(l).Lexed? && CommandParse(l).token == EndOfInput
  {
  }

  /** `yylex` is `normalParse` in normal mode and `commandParse` in command mode. */
  lemma YylexDispatch(l: Lex)
    requires Sane(l)
    ensures l.mode == Normal ==> Yylex(l) == NormalParse(l)
    ensures l.mode == Command ==> Yylex(l) == CommandParse(l)
  {
  }

  // ---------------------------------------------------------------------------
  // Positions across a compacting refill (parse.cc:86-104)

  /**
   * The compacting refill of an 80-byte chunk read up to its last byte `a`, with
   * `b c` left in the file: `a` moves to the front and the three file bytes follow it.
   */
  lemma CompactingRefillMovesA()
    ensures var colons := seq(79, _ => ':');
            Refill(Lex(colons + ['a'], 80, 79, Normal, "b c"))
            == (true, Lex(['a', 'b', ' ', 'c'] + colons[4..] + ['a'], 4, 0, Normal, ""))
  {
    var colons := seq(79, _ => ':');
    var buf := colons + ['a'];
    var l := Lex(buf, 80, 79, Normal, "b c");
    var moved := Overwrite(buf, 0, buf[79..80]);
    assert buf[79..80] == ['a'];
    assert moved == ['a'] + buf[1..];
    assert moved[4..] == buf[4..] == colons[4..] + ['a'];
    var nb := Overwrite(moved, 1, "b c");
    assert nb == ['a'] + "b c" + moved[4..];
    assert Min(79, 3) == 3 && l.rest[..3] == "b c" && l.rest[3..] == [];
    assert nb == ['a', 'b', ' ', 'c'] + colons[4..] + ['a'];
  }

  /**
   * The read position is not rebased when the identifier loop's refill compacts
   * the buffer.  After 79 colons of an 80-byte chunk, lexing the identifier `ab`
   * of `ab c` returns `ID` with the read position at 80 although only 4 bytes are
   * valid, and the next `yylex` reads past the 80-byte allocation.
   */
  lemma CompactingRefillOverrunsOffset()
    ensures var colons := seq(79, _ => ':');
            var l := Lex(colons + ['a'], 80, 79, Normal, "b c");
            var r := NormalParse(l);
            && Sane(l) && Positioned(l)
            && r == Lexed(Ident, Lex(['a', 'b', ' ', 'c'] + colons[4..] + ['a'], 4, 80, Normal, ""))
            && !Positioned(r.lex)
            && Yylex(r.lex) == Undefined
  {
    var colons := seq(79, _ => ':');
    var buf := colons + ['a'];
    var l := Lex(buf, 80, 79, Normal, "b c");
    // The identifier starts at the last buffered byte and runs to the end of the buffer.
    assert SkipSpaces(l) == l;
    assert NormalParse(l) == ScanIdent(l, 79);
    assert AlnumEnd(buf, 80, 79) == AlnumEnd(buf, 80, 80) == 80;
    var grown := Lex(['a', 'b', ' ', 'c'] + colons[4..] + ['a'], 4, 0, Normal, "");
    CompactingRefillMovesA();
    // The scan resumes at the stale position 80 and stops at once.
    assert AlnumEnd(grown.buf, 4, 80) == 80;
    var after := grown.(offset := 80);
    assert ScanIdent(l, 79) == ScanIdent(grown, 80) == Lexed(Ident, after);
    assert SkipSpaces(after) == after;
    assert Yylex(after) == NormalParse(after) == Undefined;
  }
}
