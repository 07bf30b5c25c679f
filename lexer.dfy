/**
 * The lexer of parse.cc as the code it is: the static variables become the
 * fields of one `Lexer`, `inputBuffer` an array that a growing refill replaces
 * by a larger one, and every loop a `while` loop.  Each method is proved to
 * leave the lexer in the state the function of LexerModel with the same name
 * computes.  A method that would perform undefined behaviour (read past the
 * allocation, `memmove` a negative length) returns `None` before doing so,
 * exactly when the function says `Undefined`.
 */
module Lexer {
  import opened Wrappers
  import opened LexerModel

  /** Every byte of `realloc(buf, n)`: the old one below `|buf|`, NUL above. */
  lemma ResizeAt(buf: seq<char>, n: nat)
    ensures forall j :: 0 <= j < n ==> Resize(buf, n)[j] == if j < |buf| then buf[j] else '\0'
  {
  }

  /** Every byte of an overwritten buffer: from `data` inside the window, from `buf` outside it. */
  lemma OverwriteAt(buf: seq<char>, pos: nat, data: seq<char>)
    requires pos + |data| <= |buf|
    ensures forall j :: 0 <= j < |buf| ==>
              Overwrite(buf, pos, data)[j] == if pos <= j < pos + |data| then data[j - pos] else buf[j]
  {
    var r := Overwrite(buf, pos, data);
    assert r == buf[..pos] + data + buf[pos + |data|..];
  }

  /** One round of the command loop that finds no unescaped newline and refills. */
  lemma ScanCommandRefills(l: Lex, pos: nat)
    requires Sane(l) && Positioned(l) && (1 <= pos || (pos < l.size && l.buf[pos] != '\n'))
    requires var e := LineEnd(l.buf, l.size, pos); e == l.size || (e - 1 < |l.buf| && l.buf[e - 1] == '\\')
    ensures var e := LineEnd(l.buf, l.size, pos);
            var refilled := Refill(l);
            ScanCommand(l, pos) == if refilled.0 then ScanCommand(refilled.1, e) else Lexed(EndOfInput, refilled.1)
  {
  }

  class Lexer {
    var buffer: array<char>     // inputBuffer; its length is the allocation
    var size: nat               // inputBufferSize
    var offset: nat             // inputBufferOffset
    var mode: Mode
    var input: seq<char>        // the bytes of the makefile fread has not delivered yet

    function State(): Lex
      reads this, buffer
    {
      Lex(buffer[..], size, offset, mode, input)
    }

    predicate Valid()
      reads this
    {
      size <= buffer.Length
    }

    /** The set-up of `parse_makefile` (parse.cc:180-184), the opened file being `file`. */
    constructor(file: seq<char>)
      ensures Valid() && State() == Initial(file)
    {
      mode := Normal;
      offset := 0;
      size := 0;
      buffer := new char[1](_ => '\0');
      input := file;
      new;
      assert buffer[..] == ['\0'];
    }

    /** `setNormalMode`. */
    method SetNormalMode()
      modifies this
      ensures buffer == old(buffer) && State() == old(State()).(mode := Normal)
    {
      mode := Normal;
    }

    /** `setCommandMode`. */
    method SetCommandMode()
      modifies this
      ensures buffer == old(buffer) && State() == old(State()).(mode := Command)
    {
      mode := Command;
    }

    /** `realloc(inputBuffer, inputBufferSize + 80)`: a fresh allocation of `size + 80` bytes holding the old bytes up to that length. */
    method Grow()
      requires Valid()
      modifies this
      ensures fresh(buffer) && Valid()
      ensures State() == old(State()).(buf := Resize(old(buffer[..]), old(size) + Chunk))
    {
      var n := size + Chunk;
      var grown := new char[n];
      var i := 0;
      while i < n
        modifies grown
        invariant 0 <= i <= n
        invariant forall j :: 0 <= j < i ==> grown[j] == if j < buffer.Length then buffer[j] else '\0'
      {
        grown[i] := if i < buffer.Length then buffer[i] else '\0';
        i := i + 1;
      }
      ResizeAt(buffer[..], n);
      assert grown[..] == Resize(buffer[..], n);
      buffer := grown;
    }

    /** `memmove(inputBuffer, inputBuffer + inputBufferOffset, inputBufferSize - inputBufferOffset)`, front to back. */
    method MoveToFront()
      requires Valid() && offset <= size
      modifies buffer
      ensures buffer[..] == Overwrite(old(buffer[..]), 0, old(buffer[offset..size]))
    {
      var i := 0;
      while i < size - offset
        invariant 0 <= i <= size - offset
        invariant forall j :: 0 <= j < buffer.Length ==> buffer[j] == if j < i then old(buffer[offset + j]) else old(buffer[j])
      {
        buffer[i] := buffer[offset + i];
        i := i + 1;
      }
      OverwriteAt(old(buffer[..]), 0, old(buffer[offset..size]));
    }

    /** `fread(inputBuffer + at, 1, count, f)`: up to `count` bytes of the file into the buffer. */
    method ReadInto(at: nat, count: nat) returns (k: nat)
      requires at + count <= buffer.Length
      modifies this, buffer
      ensures k == Min(count, |old(input)|) && input == old(input)[k..]
      ensures buffer == old(buffer) && buffer[..] == Overwrite(old(buffer[..]), at, old(input)[..k])
      ensures size == old(size) && offset == old(offset) && mode == old(mode)
    {
      k := Min(count, |input|);
      var i := 0;
      while i < k
        modifies buffer
        invariant 0 <= i <= k
        invariant forall j :: 0 <= j < buffer.Length ==> buffer[j] == if at <= j < at + i then input[j - at] else old(buffer[j])
      {
        buffer[at + i] := input[i];
        i := i + 1;
      }
      OverwriteAt(old(buffer[..]), at, old(input)[..k]);
      input := input[k..];
    }

    /** `refillBuffer` (parse.cc:32-61); the out-of-memory branch is not modelled. */
    method RefillBuffer() returns (ok: bool)
      requires Valid() && offset <= size
      modifies this, buffer
      ensures Valid() && (buffer == old(buffer) || fresh(buffer))
      ensures (ok, State()) == Refill(old(State()))
    {
      if offset == 0 {
        Grow();
        var k := ReadInto(size, Chunk);
        size := size + k;
        ok := k != 0;
      } else {
        MoveToFront();
        var k := ReadInto(size - offset, offset);
        if k < offset {
          size := size - (offset - k);
        }
        offset := 0;
        ok := k != 0;
      }
    }

    /** The loop over spaces (parse.cc:67-69). */
    method SkipSpaces()
      requires Valid()
      modifies this
      ensures buffer == old(buffer) && State() == LexerModel.SkipSpaces(old(State()))
    {
      while offset < size && buffer[offset] == ' '
        invariant buffer == old(buffer) && size == old(size) && mode == old(mode) && input == old(input)
        invariant LexerModel.SkipSpaces(State()) == LexerModel.SkipSpaces(old(State()))
        decreases size - offset
      {
        offset := offset + 1;
      }
    }

    /** The space-eating loop of `normalParse` (parse.cc:66-79): false when the input ran out. */
    method EatSpaces() returns (more: bool)
      requires Valid()
      modifies this, buffer
      ensures Valid() && (buffer == old(buffer) || fresh(buffer))
      ensures (more, State()) == LexerModel.EatSpaces(old(State()))
    {
      ghost var goal := LexerModel.EatSpaces(State());
      while true
        invariant Valid() && (buffer == old(buffer) || fresh(buffer))
        invariant LexerModel.EatSpaces(State()) == goal
        decreases |input|
      {
        SkipSpaces();
        if offset == size {
          more := RefillBuffer();
          if !more {
            return;
          }
        } else {
          more := true;
          return;
        }
      }
    }

    /** The loop over alphanumerics (parse.cc:88-90). */
    method AlnumEnd(from: nat) returns (pos: nat)
      requires Valid()
      ensures pos == LexerModel.AlnumEnd(buffer[..], size, from)
    {
      pos := from;
      while pos < size && IsAlnum(buffer[pos])
        invariant from <= pos && LexerModel.AlnumEnd(buffer[..], size, pos) == LexerModel.AlnumEnd(buffer[..], size, from)
        decreases size - pos
      {
        pos := pos + 1;
      }
    }

    /**
     * One round of the identifier loop (parse.cc:88-101): either the lexer is
     * done with a token, or it refilled the buffer and the scan goes on from
     * `pos`.
     */
    method IdentRound(from: nat) returns (tok: Token, pos: nat, done: bool)
      requires Valid() && offset <= from
      modifies this, buffer
      ensures Valid() && (buffer == old(buffer) || fresh(buffer))
      ensures done ==> LexerModel.ScanIdent(old(State()), from) == Lexed(tok, State())
      ensures !done ==> offset <= pos && |input| < old(|input|)
      ensures !done ==> LexerModel.ScanIdent(old(State()), from) == LexerModel.ScanIdent(State(), pos)
    {
      pos := AlnumEnd(from);
      if pos != size {
        offset := pos;
        return Ident, pos, true;
      }
      var ok := RefillBuffer();
      if !ok {
        offset := pos;
        return EndOfInput, pos, true;
      }
      tok, done := Ident, false;
    }

    /** The identifier loop of `normalParse` (parse.cc:86-105), from the read position. */
    method ScanIdent() returns (tok: Token)
      requires Valid()
      modifies this, buffer
      ensures Valid() && (buffer == old(buffer) || fresh(buffer))
      ensures LexerModel.ScanIdent(old(State()), old(offset)) == Lexed(tok, State())
    {
      var pos: nat := offset;
      ghost var goal := LexerModel.ScanIdent(State(), pos);
      while true
        invariant Valid() && (buffer == old(buffer) || fresh(buffer))
        invariant offset <= pos && LexerModel.ScanIdent(State(), pos) == goal
        decreases |input|
      {
        var done;
        tok, pos, done := IdentRound(pos);
        if done {
          return;
        }
      }
    }

    /** `normalParse` (parse.cc:63-109). */
    method NormalParse() returns (tok: Option<Token>)
      requires Valid()
      modifies this, buffer
      ensures Valid() && (buffer == old(buffer) || fresh(buffer))
      ensures tok.Some? ==> LexerModel.NormalParse(old(State())) == Lexed(tok.value, State())
      ensures tok.None? ==> LexerModel.NormalParse(old(State())) == Undefined
    {
      var more := EatSpaces();
      if !more {
        return Some(EndOfInput);
      }
      if offset >= buffer.Length {
        return None;
      }
      var c := buffer[offset];
      if IsPunct(c) {
        offset := offset + 1;
        tok := Some(Punct(c));
      } else if c == '\0' {
        offset := offset + 1;
        tok := Some(EndOfInput);
      } else if IsAlpha(c) {
        var t := ScanIdent();
        tok := Some(t);
      } else {
        tok := Some(EndOfInput);
      }
    }

    /** The loop up to a newline (parse.cc:132-134). */
    method LineEnd(from: nat) returns (pos: nat)
      requires Valid()
      ensures pos == LexerModel.LineEnd(buffer[..], size, from)
    {
      pos := from;
      while pos < size && buffer[pos] != '\n'
        invariant from <= pos && LexerModel.LineEnd(buffer[..], size, pos) == LexerModel.LineEnd(buffer[..], size, from)
        decreases size - pos
      {
        pos := pos + 1;
      }
    }

    /**
     * One round of the command loop (parse.cc:132-144) from `from`: either the
     * lexer is done, with a token or with undefined behaviour ahead, or it
     * refilled the buffer and the scan goes on from `pos`.
     */
    method CommandRound(from: nat) returns (tok: Option<Token>, pos: nat, done: bool)
      requires Valid() && (1 <= from || (from < size && buffer[from] != '\n'))
      modifies this, buffer
      ensures Valid() && (buffer == old(buffer) || fresh(buffer))
      ensures done && tok.Some? ==> LexerModel.ScanCommand(old(State()), from) == Lexed(tok.value, State())
      ensures done && tok.None? ==> LexerModel.ScanCommand(old(State()), from) == Undefined
      ensures !done ==> 1 <= pos && |input| < old(|input|)
      ensures !done ==> LexerModel.ScanCommand(old(State()), from) == LexerModel.ScanCommand(State(), pos)
    {
      pos := LineEnd(from);
      if pos != size {
        if pos - 1 >= buffer.Length {
          return None, pos, true;
        }
        if buffer[pos - 1] != '\\' {
          offset := pos + 1;
          return Some(RuleCommand), pos, true;
        }
      }
      if offset > size {
        return None, pos, true;
      }
      ScanCommandRefills(State(), from);
      var ok := RefillBuffer();
      if !ok {
        return Some(EndOfInput), pos, true;
      }
      tok, done := None, false;
    }

    /** The command loop of `commandParse` (parse.cc:130-145), from the read position. */
    method ScanCommand() returns (tok: Option<Token>)
      requires Valid() && (1 <= offset || (offset < size && buffer[offset] != '\n'))
      modifies this, buffer
      ensures Valid() && (buffer == old(buffer) || fresh(buffer))
      ensures tok.Some? ==> LexerModel.ScanCommand(old(State()), old(offset)) == Lexed(tok.value, State())
      ensures tok.None? ==> LexerModel.ScanCommand(old(State()), old(offset)) == Undefined
    {
      var pos: nat := offset;
      ghost var goal := LexerModel.ScanCommand(State(), pos);
      while true
        invariant Valid() && (buffer == old(buffer) || fresh(buffer))
        invariant (1 <= pos || (pos < size && buffer[pos] != '\n'))
        invariant LexerModel.ScanCommand(State(), pos) == goal
        decreases |input|
      {
        var done;
        tok, pos, done := CommandRound(pos);
        if done {
          return;
        }
      }
    }

    /** `commandParse` (parse.cc:111-146). */
    method CommandParse() returns (tok: Option<Token>)
      requires Valid()
      modifies this, buffer
      ensures Valid() && (buffer == old(buffer) || fresh(buffer))
      ensures tok.Some? ==> LexerModel.CommandParse(old(State())) == Lexed(tok.value, State())
      ensures tok.None? ==> LexerModel.CommandParse(old(State())) == Undefined
    {
      if offset == size {
        var ok := RefillBuffer();
        if !ok {
          return Some(EndOfInput);
        }
      }
      if offset >= buffer.Length {
        return None;
      }
      if buffer[offset] != '\t' {
        SetNormalMode();
        tok := NormalParse();
      } else {
        tok := ScanCommand();
      }
    }

    /** `yylex` (parse.cc:148-170). */
    method Yylex() returns (tok: Option<Token>)
      requires Valid()
      modifies this, buffer
      ensures Valid() && (buffer == old(buffer) || fresh(buffer))
      ensures tok.Some? ==> LexerModel.Yylex(old(State())) == Lexed(tok.value, State())
      ensures tok.None? ==> LexerModel.Yylex(old(State())) == Undefined
    {
      match mode {
        case Normal =>
          tok := NormalParse();
        case Command =>
          tok := CommandParse();
      }
    }
  }
}
